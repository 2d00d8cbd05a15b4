/**
 The bounded outbound accumulator `write_serial`: one byte is stored at the
 write index while the session is open and the buffer has room.  Nothing in
 the object ever sends or drains what accumulates here.
 */
module Accumulator {
  import opened Bytes
  import Device

  datatype AppendOutcome = AppendOutcome(session: Device.Session, ret: int)

  /**
   `write_serial`: closed gives 0 with no change; open with room stores the
   byte at the old index, advances the index by one and gives 1, leaving every
   other cell and field as it was; full gives 0 with no change.
   */
  function WriteSerial(s: Device.Session, b: byte): (r: AppendOutcome)
    ensures !s.isOpen ==> r == AppendOutcome(s, 0)
    ensures s.isOpen && s.wrIndex >= |s.outbuf| ==> r == AppendOutcome(s, 0)
    ensures s.isOpen && s.wrIndex < |s.outbuf| ==>
              && r.ret == 1
              && r.session.wrIndex == s.wrIndex + 1
              && |r.session.outbuf| == |s.outbuf|
              && r.session.outbuf[s.wrIndex] == b
              && (forall i :: 0 <= i < |s.outbuf| && i != s.wrIndex ==> r.session.outbuf[i] == s.outbuf[i])
              && r.session.(outbuf := s.outbuf, wrIndex := s.wrIndex) == s
    ensures Device.Valid(s) ==> Device.Valid(r.session)
  {
    if !s.isOpen then AppendOutcome(s, 0)
    else if s.wrIndex < |s.outbuf| then
      AppendOutcome(s.(outbuf := s.outbuf[s.wrIndex := b], wrIndex := s.wrIndex + 1), 1)
    else AppendOutcome(s, 0)
  }

  /** Feed `bs` to `write_serial` one byte after the other, collecting the return codes. */
  function WriteEach(s: Device.Session, bs: seq<byte>): (Device.Session, seq<int>)
    decreases |bs|
  {
    if |bs| == 0 then (s, [])
    else
      var a := WriteSerial(s, bs[0]);
      var rest := WriteEach(a.session, bs[1..]);
      (rest.0, [a.ret] + rest.1)
  }

  /**
   While there is room, every byte written to an open session is accepted:
   the bytes land, in order, at the cells starting at the old write index,
   and nothing else in the buffer or the session changes.
   */
  lemma {:induction false} WriteEachWithRoom(s: Device.Session, bs: seq<byte>)
    requires Device.Valid(s) && s.isOpen
    requires s.wrIndex + |bs| <= |s.outbuf|
    ensures var (t, codes) := WriteEach(s, bs);
      && Device.Valid(t)
      && codes == seq(|bs|, _ => 1)
      && t.wrIndex == s.wrIndex + |bs|
      && t.outbuf[s.wrIndex .. t.wrIndex] == bs
      && t.outbuf[..s.wrIndex] == s.outbuf[..s.wrIndex]
      && t.outbuf[t.wrIndex..] == s.outbuf[t.wrIndex..]
      && t.(outbuf := s.outbuf, wrIndex := s.wrIndex) == s
    decreases |bs|
  {
    if |bs| > 0 {
      var a := WriteSerial(s, bs[0]);
      WriteEachWithRoom(a.session, bs[1..]);
      var (t, codes) := WriteEach(s, bs);
      var (t1, codes1) := WriteEach(a.session, bs[1..]);
      assert t == t1 && codes == [1] + codes1;
      assert t.outbuf[s.wrIndex .. t.wrIndex] == [bs[0]] + t1.outbuf[a.session.wrIndex .. t1.wrIndex] by {
        assert t.outbuf[s.wrIndex] == a.session.outbuf[s.wrIndex] by {
          assert t1.outbuf[..a.session.wrIndex] == a.session.outbuf[..a.session.wrIndex];
          assert t1.outbuf[..a.session.wrIndex][s.wrIndex] == t1.outbuf[s.wrIndex];
        }
      }
      assert bs == [bs[0]] + bs[1..];
      assert t.outbuf[..s.wrIndex] == s.outbuf[..s.wrIndex] by {
        assert t1.outbuf[..s.wrIndex] == t1.outbuf[..a.session.wrIndex][..s.wrIndex];
        assert a.session.outbuf[..s.wrIndex] == s.outbuf[..s.wrIndex];
      }
      assert t.outbuf[t.wrIndex..] == s.outbuf[t.wrIndex..];
    }
  }

  /**
   A freshly opened object accepts exactly `BufSize` bytes: each of them gives
   1 and the buffer then holds them all; the next byte gives 0 and changes
   nothing.
   */
  lemma FillToCapacity(s: Device.Session, bs: seq<byte>, extra: byte)
    requires Device.Valid(s) && s.isOpen && s.wrIndex == 0
    requires |bs| == BufSize
    ensures var (t, codes) := WriteEach(s, bs);
      && codes == seq(BufSize, _ => 1)
      && t.outbuf == bs && t.wrIndex == BufSize
      && WriteSerial(t, extra) == AppendOutcome(t, 0)
  {
    WriteEachWithRoom(s, bs);
    var (t, codes) := WriteEach(s, bs);
    assert t.outbuf == t.outbuf[0 .. t.wrIndex];
  }
}
