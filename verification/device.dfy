/**
 The device session of the `rawhid` object: its state record, its initial
 value, and the open/close lifecycle.

 The poll clock is reduced to a flag `timerArmed`: `clock_delay` sets it,
 `clock_unset` clears it.  The transport's open and close calls are recorded
 in the outcome of each operation; the reply of the open call is a parameter.
 */
module Device {
  import opened Bytes
  import HexId

  /** Fixed arguments of the transport open call. */
  const MaxDevices: int := 1
  const UsagePage: int := 0xFFAB
  const Usage: int := 0x0200

  /** Receive attempts per poll before `packets` is sent. */
  const DefaultPacketsPerPoll: nat := 1

  datatype Session = Session(
    isOpen: bool,
    brandId: int,
    productId: int,
    outbuf: seq<byte>,     // the accumulator; its length is x_outbuf_len
    wrIndex: nat,          // offset of the next free cell of outbuf
    packetsToRecv: nat,
    timerArmed: bool)

  /** The bounded-buffer invariant of the accumulator. */
  predicate Valid(s: Session)
  {
    |s.outbuf| == BufSize && s.wrIndex <= |s.outbuf|
  }

  /** An open session always has its poll clock pending. */
  predicate Polling(s: Session)
  {
    s.isOpen ==> s.timerArmed
  }

  /** A call the session made to the transport's open entry point. */
  datatype OpenCall = OpenCall(maxDevices: int, vendor: int, product: int, usagePage: int, usage: int)

  datatype OpenOutcome = OpenOutcome(session: Session, calls: seq<OpenCall>)

  datatype CloseOutcome = CloseOutcome(session: Session, transportCloses: nat)

  /** The object as the constructor leaves it: closed, idle, with an empty zeroed accumulator. */
  function New(): (s: Session)
    ensures Valid(s) && Polling(s)
    ensures !s.isOpen && !s.timerArmed
    ensures s.wrIndex == 0 && s.packetsToRecv == DefaultPacketsPerPoll
    ensures forall i :: 0 <= i < |s.outbuf| ==> s.outbuf[i] == 0
  {
    Session(false, 0, 0, Zeros(BufSize), 0, DefaultPacketsPerPoll, false)
  }

  /** Both names pass the validation in `rawhid_open_device`: each begins with `0x` and reads as a positive `int`. */
  predicate IdsAccepted(brand: string, product: string)
  {
    HexId.Accepted(brand) && HexId.Accepted(product)
  }

  /**
   `open <brand> <product>`: validate both names, and only then call the
   transport; a positive reply opens the session with the parsed ids and
   arms the poll clock.  Any other path leaves the session as it was.
   */
  function Open(s: Session, brand: string, product: string, reply: int): (r: OpenOutcome)
    ensures IdsAccepted(brand, product) ==>
              r.calls == [OpenCall(MaxDevices, HexId.IdValue(brand), HexId.IdValue(product), UsagePage, Usage)]
    ensures !IdsAccepted(brand, product) ==> r.calls == []
    ensures IdsAccepted(brand, product) && reply > 0 ==>
              && r.session.isOpen && r.session.timerArmed
              && r.session.brandId == HexId.IdValue(brand)
              && r.session.productId == HexId.IdValue(product)
              && r.session.brandId > 0 && r.session.productId > 0
              && r.session.outbuf == s.outbuf && r.session.wrIndex == s.wrIndex
              && r.session.packetsToRecv == s.packetsToRecv
    ensures !(IdsAccepted(brand, product) && reply > 0) ==> r.session == s
    ensures Valid(s) ==> Valid(r.session)
    ensures Polling(s) ==> Polling(r.session)
  {
    if IdsAccepted(brand, product) then
      var bId := HexId.IdValue(brand);
      var pId := HexId.IdValue(product);
      var call := OpenCall(MaxDevices, bId, pId, UsagePage, Usage);
      if reply > 0 then
        OpenOutcome(s.(brandId := bId, productId := pId, isOpen := true, timerArmed := true), [call])
      else
        OpenOutcome(s, [call])
    else
      OpenOutcome(s, [])
  }

  /**
   `close`: on an open session, close the transport once, mark the session
   closed and disarm the poll clock; on a closed one, do nothing.
   */
  function Close(s: Session): (r: CloseOutcome)
    ensures s.isOpen ==> r.transportCloses == 1 && !r.session.isOpen && !r.session.timerArmed
    ensures s.isOpen ==> r.session.(isOpen := true, timerArmed := s.timerArmed) == s
    ensures !s.isOpen ==> r.transportCloses == 0 && r.session == s
    ensures Valid(s) ==> Valid(r.session)
    ensures Polling(r.session)
  {
    if s.isOpen then CloseOutcome(s.(isOpen := false, timerArmed := false), 1)
    else CloseOutcome(s, 0)
  }

  /** Destruction: cancel the clock, then close the device if it is open. */
  function Free(s: Session): (r: CloseOutcome)
    ensures !r.session.isOpen && !r.session.timerArmed
    ensures r.transportCloses == if s.isOpen then 1 else 0
    ensures r.session.outbuf == s.outbuf && r.session.wrIndex == s.wrIndex
  {
    Close(s.(timerArmed := false))
  }

  /**
   Opening, closing and opening again with the same names reopens the
   device with the same ids and resumes polling; the accumulator is untouched.
   */
  lemma OpenCloseOpen(s: Session, brand: string, product: string, reply1: int, reply2: int)
    requires IdsAccepted(brand, product) && reply1 > 0 && reply2 > 0
    ensures var first := Open(s, brand, product, reply1).session;
            var closed := Close(first);
            var again := Open(closed.session, brand, product, reply2).session;
            && closed.transportCloses == 1 && !closed.session.isOpen && !closed.session.timerArmed
            && again == first
  {
  }
}
