/** Byte-level vocabulary shared by the framer, the accumulator and the poll loop. */
module Bytes {

  /** An `unsigned char`. */
  type byte = b: int | 0 <= b < 256

  /** Size in bytes of one HID report exchanged with the device (BLOCK_SIZE). */
  const BlockSize: nat := 64

  /** Capacity of the outbound accumulator and the longest batch list accepted (RAWHID_BUF_SIZE). */
  const BufSize: nat := 16384

  /** The C conversion of an integer to `unsigned char`: keep the low eight bits. */
  function LowByte(v: int): (b: byte)
    ensures (v - b) % 256 == 0
  {
    v % 256
  }

  /** `n` zero bytes, as left by `memset(…, 0, n)`. */
  function Zeros(n: nat): (z: seq<byte>)
    ensures |z| == n
    ensures forall j :: 0 <= j < n ==> z[j] == 0
  {
    seq(n, _ => 0)
  }

  /** The byte stream obtained by laying packets end to end. */
  function Flatten(ps: seq<seq<byte>>): seq<byte>
  {
    if |ps| == 0 then [] else Flatten(ps[..|ps| - 1]) + ps[|ps| - 1]
  }

  /** Every packet in `ps` is exactly one block long. */
  predicate AllBlocks(ps: seq<seq<byte>>)
  {
    forall i :: 0 <= i < |ps| ==> |ps[i]| == BlockSize
  }

  /** Byte `j` of packet `i` sits at offset `BlockSize * i + j` of the flattened stream. */
  lemma {:induction false} FlattenBlocks(ps: seq<seq<byte>>)
    requires AllBlocks(ps)
    ensures |Flatten(ps)| == BlockSize * |ps|
    ensures forall i, j :: 0 <= i < |ps| && 0 <= j < BlockSize ==>
              Flatten(ps)[BlockSize * i + j] == ps[i][j]
  {
    if |ps| > 0 {
      var init := ps[..|ps| - 1];
      assert AllBlocks(init) by {
        forall i | 0 <= i < |init| ensures |init[i]| == BlockSize {
          assert init[i] == ps[i];
        }
      }
      FlattenBlocks(init);
      assert Flatten(ps) == Flatten(init) + ps[|ps| - 1];
      forall i, j | 0 <= i < |ps| && 0 <= j < BlockSize
        ensures Flatten(ps)[BlockSize * i + j] == ps[i][j]
      {
        if i < |ps| - 1 {
          assert init[i] == ps[i];
        }
      }
    }
  }
}
