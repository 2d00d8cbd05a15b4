/**
 The outbound framer `write_serials`.

 A byte sequence is cut into consecutive blocks of `BlockSize` bytes; the
 trailing partial block is zero-padded to a full block.  Each block is
 handed to the transport's send call, whose reply for the k-th call of the
 operation is `send(k)`; the operation stops with -1 at the first reply other
 than `BlockSize`.  `packets` records every block that was handed over,
 including the refused one.
 */
module Framer {
  import opened Bytes
  import Device

  datatype WriteOutcome = WriteOutcome(ret: int, packets: seq<seq<byte>>)

  /** Number of packets needed for `n` bytes: the ceiling of `n / BlockSize`. */
  function NumBlocks(n: nat): (k: nat)
    ensures BlockSize * k >= n
    ensures BlockSize * k < n + BlockSize
  {
    (n + BlockSize - 1) / BlockSize
  }

  /** A chunk of at most one block, zero-padded to exactly one block. */
  function Pad(chunk: seq<byte>): (p: seq<byte>)
    requires |chunk| <= BlockSize
    ensures |p| == BlockSize
    ensures p[..|chunk|] == chunk
    ensures forall j :: |chunk| <= j < BlockSize ==> p[j] == 0
  {
    chunk + Zeros(BlockSize - |chunk|)
  }

  function Min(a: int, b: int): int
  {
    if a <= b then a else b
  }

  /** The `i`-th packet of `buf`: its bytes `BlockSize * i` up to the next block boundary, padded. */
  function Block(buf: seq<byte>, i: nat): (p: seq<byte>)
    requires i < NumBlocks(|buf|)
    ensures |p| == BlockSize
  {
    Pad(buf[BlockSize * i .. Min(BlockSize * (i + 1), |buf|)])
  }

  /** Reference definition of the framing: the packets an always-accepting transport must see. */
  function Frames(buf: seq<byte>): (ps: seq<seq<byte>>)
    ensures |ps| == NumBlocks(|buf|)
    ensures AllBlocks(ps)
    ensures |Flatten(ps)| == BlockSize * |ps| >= |buf|
  {
    var ps := seq(NumBlocks(|buf|), i requires 0 <= i < NumBlocks(|buf|) => Block(buf, i));
    FlattenBlocks(ps);
    ps
  }

  /** The receiving side of the framing: lay the packets end to end and keep the first `n` bytes. */
  function Unframe(ps: seq<seq<byte>>, n: nat): seq<byte>
    requires n <= |Flatten(ps)|
  {
    Flatten(ps)[..n]
  }

  /**
   The send loop of `write_serials` from block `i` onwards: full blocks
   are sent verbatim while at least `BlockSize` bytes remain, then a
   non-empty remainder is sent padded.
   */
  function SendFrom(buf: seq<byte>, i: nat, send: nat -> int): WriteOutcome
    requires BlockSize * i <= |buf|
    decreases |buf| - BlockSize * i
  {
    var remaining := |buf| - BlockSize * i;
    if remaining >= BlockSize then
      var packet := buf[BlockSize * i .. BlockSize * i + BlockSize];
      if send(i) != BlockSize then WriteOutcome(-1, [packet])
      else After([packet], SendFrom(buf, i + 1, send))
    else if remaining > 0 then
      var packet := Pad(buf[BlockSize * i..]);
      WriteOutcome(if send(i) != BlockSize then -1 else |buf|, [packet])
    else
      WriteOutcome(|buf|, [])
  }

  /** `rest` preceded by the packets already sent. */
  function After(sent: seq<seq<byte>>, rest: WriteOutcome): WriteOutcome
  {
    WriteOutcome(rest.ret, sent + rest.packets)
  }

  /**
   What the send loop from block `i` must produce: the packets it sends are
   the packets `i, i+1, …` of the framing; all but the last were accepted; it
   gives -1 exactly when the last was refused, and otherwise it reached the
   end of the framing and gives the input length.
   */
  ghost predicate SendsFraming(buf: seq<byte>, i: nat, send: nat -> int, r: WriteOutcome)
  {
    && i + |r.packets| <= NumBlocks(|buf|)
    && (forall k :: 0 <= k < |r.packets| ==> r.packets[k] == Block(buf, i + k))
    && (forall k :: i <= k < i + |r.packets| - 1 ==> send(k) == BlockSize)
    && (r.ret == -1 <==> |r.packets| > 0 && send(i + |r.packets| - 1) != BlockSize)
    && (r.ret != -1 ==> r.ret == |buf| && i + |r.packets| == NumBlocks(|buf|))
  }

  /** A block that lies wholly inside the input is sent unpadded. */
  lemma FullBlock(buf: seq<byte>, i: nat)
    requires BlockSize * i + BlockSize <= |buf|
    ensures i < NumBlocks(|buf|)
    ensures Block(buf, i) == buf[BlockSize * i .. BlockSize * i + BlockSize]
  {
  }

  /** An accepted block `i` in front of a conforming run from `i + 1` conforms from `i`. */
  lemma {:induction false} SendsFramingStep(buf: seq<byte>, i: nat, send: nat -> int, rest: WriteOutcome)
    requires BlockSize * i + BlockSize <= |buf| && send(i) == BlockSize
    requires SendsFraming(buf, i + 1, send, rest)
    ensures SendsFraming(buf, i, send, After([Block(buf, i)], rest))
  {
    FullBlock(buf, i);
    var r := After([Block(buf, i)], rest);
    forall k | 0 <= k < |r.packets|
      ensures r.packets[k] == Block(buf, i + k)
    {
      if k > 0 {
        assert r.packets[k] == rest.packets[k - 1];
      }
    }
    forall k | i <= k < i + |r.packets| - 1
      ensures send(k) == BlockSize
    {
      if k > i {
        assert i + 1 <= k < i + 1 + |rest.packets| - 1;
      }
    }
  }

  /** The send loop from any block boundary conforms to the framing. */
  lemma {:induction false} SendFromSpec(buf: seq<byte>, i: nat, send: nat -> int)
    requires BlockSize * i <= |buf|
    ensures SendsFraming(buf, i, send, SendFrom(buf, i, send))
    decreases |buf| - BlockSize * i
  {
    var remaining := |buf| - BlockSize * i;
    if remaining >= BlockSize {
      FullBlock(buf, i);
      if send(i) == BlockSize {
        SendFromSpec(buf, i + 1, send);
        SendsFramingStep(buf, i, send, SendFrom(buf, i + 1, send));
      }
    } else if remaining > 0 {
      assert Pad(buf[BlockSize * i..]) == Block(buf, i);
    }
  }

  /**
   `write_serials`.  On a closed session nothing is sent and the result is 0.
   Otherwise the packets sent are the leading packets of `Frames(buf)`; every
   one but the last was accepted; the result is -1 exactly when the last one
   was refused, and otherwise every packet was sent and the result is `|buf|`.
   */
  function WriteSerials(s: Device.Session, buf: seq<byte>, send: nat -> int): (r: WriteOutcome)
    ensures !s.isOpen ==> r.ret == 0 && r.packets == []
    ensures |r.packets| <= NumBlocks(|buf|)
    ensures s.isOpen ==> r.packets == Frames(buf)[..|r.packets|]
    ensures s.isOpen ==> forall k :: 0 <= k < |r.packets| - 1 ==> send(k) == BlockSize
    ensures s.isOpen ==> (r.ret == -1 <==> |r.packets| > 0 && send(|r.packets| - 1) != BlockSize)
    ensures s.isOpen && r.ret != -1 ==> r.ret == |buf| && r.packets == Frames(buf)
  {
    if !s.isOpen then WriteOutcome(0, [])
    else SendFromSpec(buf, 0, send); SendFrom(buf, 0, send)
  }

  /** The transport accepts each of the first `n` sends. */
  predicate AcceptsFirst(send: nat -> int, n: nat)
  {
    forall k :: 0 <= k < n ==> send(k) == BlockSize
  }

  /** Byte `o` of packet `i` is input byte `BlockSize * i + o`, or padding 0 past the input. */
  lemma FrameByte(buf: seq<byte>, i: nat, o: nat)
    requires i < NumBlocks(|buf|) && o < BlockSize
    ensures Frames(buf)[i][o] == if BlockSize * i + o < |buf| then buf[BlockSize * i + o] else 0
  {
  }

  /** Framing followed by unframing gives back the input, and every padding byte is zero. */
  lemma {:induction false} FramesRoundTrip(buf: seq<byte>)
    ensures Unframe(Frames(buf), |buf|) == buf
    ensures forall j :: |buf| <= j < |Flatten(Frames(buf))| ==> Flatten(Frames(buf))[j] == 0
  {
    var ps := Frames(buf);
    FlattenBlocks(ps);
    var flat := Flatten(ps);
    forall j | 0 <= j < |flat|
      ensures flat[j] == if j < |buf| then buf[j] else 0
    {
      var i, o := j / BlockSize, j % BlockSize;
      assert BlockSize * i + o == j;
      FrameByte(buf, i, o);
    }
    assert Unframe(ps, |buf|) == buf;
  }

  /**
   With a transport that accepts every packet, `write_serials` sends
   ceil(n / BlockSize) packets of exactly `BlockSize` bytes that reassemble
   into the input followed by zeros, and returns n.
   */
  lemma AcceptingTransport(s: Device.Session, buf: seq<byte>, send: nat -> int)
    requires s.isOpen
    requires AcceptsFirst(send, NumBlocks(|buf|))
    ensures WriteSerials(s, buf, send).ret == |buf|
    ensures WriteSerials(s, buf, send).packets == Frames(buf)
    ensures |Frames(buf)| == NumBlocks(|buf|) && AllBlocks(Frames(buf))
    ensures Unframe(Frames(buf), |buf|) == buf
    ensures forall j :: |buf| <= j < |Flatten(Frames(buf))| ==> Flatten(Frames(buf))[j] == 0
  {
    FramesRoundTrip(buf);
  }

  /**
   When the length is a positive multiple of `BlockSize`, every packet is an
   unpadded slice of the input and the packets concatenate to the input.
   */
  lemma {:induction false} WholeBlocksUnpadded(buf: seq<byte>)
    requires |buf| > 0 && |buf| % BlockSize == 0
    ensures NumBlocks(|buf|) == |buf| / BlockSize
    ensures forall i :: 0 <= i < NumBlocks(|buf|) ==>
              Frames(buf)[i] == buf[BlockSize * i .. BlockSize * i + BlockSize]
    ensures Flatten(Frames(buf)) == buf
  {
    FramesRoundTrip(buf);
    forall i | 0 <= i < NumBlocks(|buf|)
      ensures Frames(buf)[i] == buf[BlockSize * i .. BlockSize * i + BlockSize]
    {
      assert BlockSize * (i + 1) <= |buf|;
      assert Min(BlockSize * (i + 1), |buf|) == BlockSize * i + BlockSize;
    }
    assert Flatten(Frames(buf))[..|buf|] == buf;
  }

  /** Empty input on an open session: no send at all and a result of 0. */
  lemma EmptyInput(s: Device.Session, send: nat -> int)
    requires s.isOpen
    ensures WriteSerials(s, [], send) == WriteOutcome(0, [])
  {
  }

  /**
   If the transport first refuses the packet of index `k`, `write_serials`
   returns -1 after exactly `k + 1` send calls, and the packets before it were
   the exact leading packets of the input.
   */
  lemma FirstRefusal(s: Device.Session, buf: seq<byte>, send: nat -> int, k: nat)
    requires s.isOpen
    requires k < NumBlocks(|buf|)
    requires AcceptsFirst(send, k) && send(k) != BlockSize
    ensures WriteSerials(s, buf, send).ret == -1
    ensures WriteSerials(s, buf, send).packets == Frames(buf)[..k + 1]
  {
  }

  /**
   One accepted full block: after the packets already sent, the loop from
   block `i` is that block followed by the loop from `i + 1`.
   */
  lemma SendFromStep(buf: seq<byte>, i: nat, send: nat -> int, sent: seq<seq<byte>>)
    requires BlockSize * i + BlockSize <= |buf|
    requires send(i) == BlockSize
    ensures After(sent, SendFrom(buf, i, send))
         == After(sent + [buf[BlockSize * i .. BlockSize * i + BlockSize]], SendFrom(buf, i + 1, send))
  {
    var rest := SendFrom(buf, i + 1, send);
    assert sent + ([buf[BlockSize * i .. BlockSize * i + BlockSize]] + rest.packets)
        == (sent + [buf[BlockSize * i .. BlockSize * i + BlockSize]]) + rest.packets;
  }

  /** A refused full block ends the loop at once with -1, that block being the last one sent. */
  lemma SendFromRefused(buf: seq<byte>, i: nat, send: nat -> int, sent: seq<seq<byte>>)
    requires BlockSize * i + BlockSize <= |buf|
    requires send(i) != BlockSize
    ensures After(sent, SendFrom(buf, i, send))
         == WriteOutcome(-1, sent + [buf[BlockSize * i .. BlockSize * i + BlockSize]])
  {
  }

  /** The remainder of fewer than `BlockSize` bytes, sent padded when it is not empty. */
  lemma SendFromTail(buf: seq<byte>, i: nat, send: nat -> int)
    requires BlockSize * i <= |buf| < BlockSize * i + BlockSize
    ensures SendFrom(buf, i, send)
         == if |buf| == BlockSize * i then WriteOutcome(|buf|, [])
            else WriteOutcome(if send(i) != BlockSize then -1 else |buf|, [Pad(buf[BlockSize * i..])])
  {
  }

  /**
   The first loop of `write_serials`: full blocks are sent verbatim while at
   least `BlockSize` bytes remain.  Either a send is refused, and the whole
   operation has then produced its final outcome, or the loop ends with
   fewer than `BlockSize` bytes left and the rest of the operation is the
   remainder step `SendFrom(buf, i, send)`.
   */
  method SendWholeBlocks(buf: seq<byte>, send: nat -> int)
    returns (refused: bool, packets: seq<seq<byte>>, i: nat)
    ensures refused ==> SendFrom(buf, 0, send) == WriteOutcome(-1, packets)
    ensures !refused ==> i == |packets| && BlockSize * i <= |buf| < BlockSize * i + BlockSize
    ensures !refused ==> SendFrom(buf, 0, send) == After(packets, SendFrom(buf, i, send))
  {
    var bytesToSend: nat := |buf|;
    var offset: nat := 0;
    refused, packets, i := false, [], 0;
    ghost var whole := SendFrom(buf, 0, send);
    while bytesToSend >= BlockSize
      invariant offset + bytesToSend == |buf|
      invariant i == |packets| && offset == BlockSize * i
      invariant whole == After(packets, SendFrom(buf, i, send))
      decreases bytesToSend
    {
      var packet := buf[offset .. offset + BlockSize];
      if send(i) != BlockSize {
        SendFromRefused(buf, i, send, packets);
        refused, packets := true, packets + [packet];
        break;
      }
      SendFromStep(buf, i, send, packets);
      packets := packets + [packet];
      bytesToSend := bytesToSend - BlockSize;
      offset := offset + BlockSize;
      i := i + 1;
    }
  }

  /**
   `write_serials` as rawhid.c writes it: the loop over whole blocks, then
   the remainder copied into a zeroed scratch block and sent.  On an open
   session it computes exactly the recursive model `SendFrom(buf, 0, send)`.
   */
  method WriteSerialsLoop(s: Device.Session, buf: seq<byte>, send: nat -> int)
    returns (ret: int, packets: seq<seq<byte>>)
    ensures !s.isOpen ==> ret == 0 && packets == []
    ensures s.isOpen ==> WriteOutcome(ret, packets) == SendFrom(buf, 0, send)
  {
    if !s.isOpen {
      return 0, [];
    }
    var refused, sent, i := SendWholeBlocks(buf, send);
    if refused {
      return -1, sent;
    }
    SendFromTail(buf, i, send);
    packets := sent;
    var bytesToSend := |buf| - BlockSize * i;
    if bytesToSend > 0 {
      var padded := Zeros(BlockSize);
      padded := buf[BlockSize * i..] + padded[bytesToSend..];
      assert padded == Pad(buf[BlockSize * i..]);
      packets := packets + [padded];
      if send(i) != BlockSize {
        return -1, packets;
      }
    }
    return |buf|, packets;
  }
}
