/**
 Batch input `rawhid_list`: a list of numbers is truncated to `BufSize`
 elements, each reduced to its low byte, and handed to `write_serials`.
 Each atom is given as the integer `atom_getint` yields for it.
 */
module ListInput {
  import opened Bytes
  import Device
  import Framer

  /** The scratch array `rawhid_list` fills: at most `BufSize` elements, each its atom's low byte. */
  function Batch(atoms: seq<int>): (b: seq<byte>)
    ensures |b| == if |atoms| > BufSize then BufSize else |atoms|
    ensures forall i :: 0 <= i < |b| ==> b[i] == LowByte(atoms[i])
  {
    var count := if |atoms| > BufSize then BufSize else |atoms|;
    seq(count, i requires 0 <= i < count => LowByte(atoms[i]))
  }

  /**
   `rawhid_list`: frame and send the truncated, masked batch, discarding
   the return code.  Nothing is sent on a closed session, what is
   sent is a prefix of the batch's framing, and one list never makes more
   than `BufSize / BlockSize` send calls.
   */
  function List(s: Device.Session, atoms: seq<int>, send: nat -> int): (r: Framer.WriteOutcome)
    ensures !s.isOpen ==> r == Framer.WriteOutcome(0, [])
    ensures |r.packets| <= Framer.NumBlocks(|Batch(atoms)|) <= BufSize / BlockSize
    ensures s.isOpen ==> r.packets == Framer.Frames(Batch(atoms))[..|r.packets|]
  {
    Framer.WriteSerials(s, Batch(atoms), send)
  }

  /**
   With an accepting transport, a list is delivered as the framing of its
   first `BufSize` values, each reduced to a byte: unframing the packets
   gives exactly those bytes back, and the result counts them.
   */
  lemma ListDelivered(s: Device.Session, atoms: seq<int>, send: nat -> int)
    requires s.isOpen
    requires Framer.AcceptsFirst(send, Framer.NumBlocks(|Batch(atoms)|))
    ensures var r := List(s, atoms, send);
      && r.ret == |Batch(atoms)| <= BufSize
      && |Framer.Unframe(r.packets, r.ret)| == r.ret
      && forall i :: 0 <= i < r.ret ==> Framer.Unframe(r.packets, r.ret)[i] == LowByte(atoms[i])
  {
    Framer.AcceptingTransport(s, Batch(atoms), send);
  }
}
