/**
 The poll tick `rawhid_tick`, run each time the poll clock fires.

 The transport's receive call is a scripted oracle: the k-th receive of the
 tick yields `recv(k)`.  `Got(data)` is a reply of `|data|` bytes (an empty
 `data` is the reply 0, "nothing to read"); `Failed` is a negative reply.
 */
module Poll {
  import opened Bytes
  import Device

  datatype RecvReply = Got(data: seq<byte>) | Failed

  /** A reply with a positive byte count: a packet was read. */
  predicate Positive(r: RecvReply)
  {
    r.Got? && |r.data| > 0
  }

  function Data(r: RecvReply): seq<byte>
  {
    if r.Got? then r.data else []
  }

  /** The bytes of replies `from` up to (not including) `to`, packet after packet. */
  function Received(recv: nat -> RecvReply, from: nat, to: nat): seq<byte>
    decreases if from < to then to - from else 0
  {
    if from >= to then [] else Data(recv(from)) + Received(recv, from + 1, to)
  }

  datatype TickOutcome = TickOutcome(
    session: Device.Session,
    packets: nat,           // recv_pakts: positive replies counted
    calls: nat,             // receive calls made: replies 0 .. calls-1 were consumed
    emitted: seq<byte>,     // values sent to the outlet, in order
    transportCloses: nat)

  /** The receive loop, entered with `pakts` packets already counted and as many calls made. */
  function TickLoop(s: Device.Session, recv: nat -> RecvReply, pakts: nat): (r: TickOutcome)
    ensures pakts <= r.packets
    ensures r.packets - pakts <= r.calls <= r.packets - pakts + 1
    ensures r.packets <= pakts || r.packets <= s.packetsToRecv
    ensures pakts <= s.packetsToRecv ==> pakts + r.calls <= s.packetsToRecv
    ensures !(s.isOpen && pakts < s.packetsToRecv) ==> r == TickOutcome(s, pakts, 0, [], 0)
    ensures forall k :: pakts <= k < r.packets ==> Positive(recv(k))
    ensures r.emitted == Received(recv, pakts, r.packets)
    ensures s.isOpen && r.packets < s.packetsToRecv ==>
              r.calls == r.packets - pakts + 1 && !Positive(recv(r.packets))
    ensures r.calls == r.packets - pakts + 1 && recv(r.packets).Failed? ==>
              r.session == Device.Close(s).session && r.transportCloses == 1
    ensures !(r.calls == r.packets - pakts + 1 && recv(r.packets).Failed?) ==>
              r.session == s && r.transportCloses == 0
    decreases s.packetsToRecv - pakts
  {
    if s.isOpen && pakts < s.packetsToRecv then
      var reply := recv(pakts);
      if Positive(reply) then
        var rest := TickLoop(s, recv, pakts + 1);
        TickOutcome(rest.session, rest.packets, rest.calls + 1, reply.data + rest.emitted, rest.transportCloses)
      else if reply.Failed? then
        var closed := Device.Close(s);
        TickOutcome(closed.session, pakts, 1, [], closed.transportCloses)
      else
        TickOutcome(s, pakts, 1, [], 0)
    else
      TickOutcome(s, pakts, 0, [], 0)
  }

  /** The loop stopped on a negative reply. */
  predicate StoppedOnError(r: TickOutcome, recv: nat -> RecvReply)
  {
    r.calls == r.packets + 1 && recv(r.packets).Failed?
  }

  /**
   `rawhid_tick`.  A closed session makes no receive call.  An open one makes
   at most `packetsToRecv` calls; every reply counted as a packet was
   positive and its bytes are emitted in order; the loop ends early only on
   the first non-positive reply; a negative reply closes the session.  In
   every case the clock is armed again at the end, even after that close.
   */
  function Tick(s: Device.Session, recv: nat -> RecvReply): (r: TickOutcome)
    ensures !s.isOpen ==> r.calls == 0 && r.emitted == [] && r.session == s.(timerArmed := true)
    ensures r.calls <= s.packetsToRecv
    ensures r.packets <= r.calls <= r.packets + 1
    ensures forall k :: 0 <= k < r.packets ==> Positive(recv(k))
    ensures r.emitted == Received(recv, 0, r.packets)
    ensures r.calls == r.packets + 1 ==> !Positive(recv(r.packets))
    ensures s.isOpen && r.calls == r.packets ==> r.packets == s.packetsToRecv
    ensures StoppedOnError(r, recv) ==>
              && !r.session.isOpen && r.transportCloses == 1
              && r.session == s.(isOpen := false, timerArmed := true)
    ensures !StoppedOnError(r, recv) ==> r.session == s.(timerArmed := true) && r.transportCloses == 0
    ensures r.session.timerArmed
    ensures Device.Valid(s) ==> Device.Valid(r.session)
  {
    var r := TickLoop(s, recv, 0);
    r.(session := r.session.(timerArmed := true))
  }

  /** Every reply is a full packet. */
  predicate FullPackets(recv: nat -> RecvReply, n: nat)
  {
    forall k :: 0 <= k < n ==> recv(k).Got? && |recv(k).data| == BlockSize
  }

  lemma {:induction false} ReceivedFull(recv: nat -> RecvReply, from: nat, to: nat)
    requires from <= to
    requires FullPackets(recv, to)
    ensures |Received(recv, from, to)| + BlockSize * from == BlockSize * to
    decreases (to as int) - (from as int)
  {
    if from < to {
      ReceivedFull(recv, from + 1, to);
    }
  }

  /**
   With `packetsToRecv = k` and a transport that delivers a full packet on
   every call, a tick makes exactly k receive calls and emits `k * BlockSize`
   bytes, packet after packet.
   */
  lemma AllPacketsFull(s: Device.Session, recv: nat -> RecvReply)
    requires s.isOpen
    requires FullPackets(recv, s.packetsToRecv)
    ensures Tick(s, recv).calls == s.packetsToRecv
    ensures Tick(s, recv).packets == s.packetsToRecv
    ensures Tick(s, recv).emitted == Received(recv, 0, s.packetsToRecv)
    ensures |Tick(s, recv).emitted| == BlockSize * s.packetsToRecv
    ensures Tick(s, recv).session == s.(timerArmed := true)
  {
    ReceivedFull(recv, 0, s.packetsToRecv);
  }

  /**
   If the reply of index j < packetsToRecv is the first non-positive one, the
   tick makes j + 1 calls and emits the bytes of the first j packets; it
   stays open on a 0 reply and closes on a negative one.
   */
  lemma FirstNonPositive(s: Device.Session, recv: nat -> RecvReply, j: nat)
    requires s.isOpen && j < s.packetsToRecv
    requires forall k :: 0 <= k < j ==> Positive(recv(k))
    requires !Positive(recv(j))
    ensures Tick(s, recv).packets == j && Tick(s, recv).calls == j + 1
    ensures Tick(s, recv).emitted == Received(recv, 0, j)
    ensures Tick(s, recv).session.isOpen <==> recv(j).Got?
    ensures Tick(s, recv).session.timerArmed
  {
  }

  /**
   After a tick closed the session on a read error its clock is still armed,
   and every later tick only re-arms it: no receive call, no output.
   */
  lemma ErrorCloseKeepsPolling(s: Device.Session, recv: nat -> RecvReply, later: nat -> RecvReply)
    requires StoppedOnError(Tick(s, recv), recv)
    ensures var closed := Tick(s, recv).session;
      && !closed.isOpen && closed.timerArmed
      && Tick(closed, later).calls == 0
      && Tick(closed, later).emitted == []
      && Tick(closed, later).session == closed
  {
  }
}
