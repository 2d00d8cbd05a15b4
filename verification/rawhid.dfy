/**
 The `rawhid` object as the host drives it: one message at a time, each
 carrying the transport's scripted replies for that message.  Running any
 sequence of messages from the constructor's state keeps the accumulator
 within its bounds, keeps an open session polling, and never loses or
 overwrites a byte already accumulated.
 */
module Rawhid {
  import opened Bytes
  import Device
  import Framer
  import Accumulator
  import Poll
  import ListInput

  datatype Message =
    | Byte(b: byte)                                          // scalar input, already reduced to a byte
    | List(atoms: seq<int>, send: nat -> int)
    | Open(brand: string, product: string, reply: int)
    | Close
    | Packets(n: nat)                                        // packets per poll
    | ClockFires(recv: nat -> Poll.RecvReply)

  /** The session after one message.  The clock only fires while it is armed. */
  function Step(s: Device.Session, m: Message): Device.Session
  {
    match m
    case Byte(b) => Accumulator.WriteSerial(s, b).session
    case List(_, _) => s
    case Open(brand, product, reply) => Device.Open(s, brand, product, reply).session
    case Close => Device.Close(s).session
    case Packets(n) => s.(packetsToRecv := n)
    case ClockFires(recv) => if s.timerArmed then Poll.Tick(s, recv).session else s
  }

  function Run(s: Device.Session, ms: seq<Message>): Device.Session
    decreases |ms|
  {
    if |ms| == 0 then s else Run(Step(s, ms[0]), ms[1..])
  }

  /** What no message can break: the invariants, and the bytes accumulated so far. */
  predicate Keeps(s: Device.Session, t: Device.Session)
  {
    && Device.Valid(t) && Device.Polling(t)
    && |s.outbuf| == |t.outbuf| && s.wrIndex <= t.wrIndex
    && t.outbuf[..s.wrIndex] == s.outbuf[..s.wrIndex]
  }

  lemma StepKeeps(s: Device.Session, m: Message)
    requires Device.Valid(s) && Device.Polling(s)
    ensures Keeps(s, Step(s, m))
  {
  }

  /**
   From any valid polling state, a run of messages ends in a valid polling
   state whose write index has not moved back and whose accumulated bytes
   are those it started with.
   */
  lemma {:induction false} RunKeeps(s: Device.Session, ms: seq<Message>)
    requires Device.Valid(s) && Device.Polling(s)
    ensures Keeps(s, Run(s, ms))
    decreases |ms|
  {
    if |ms| > 0 {
      var t := Step(s, ms[0]);
      StepKeeps(s, ms[0]);
      RunKeeps(t, ms[1..]);
      var u := Run(t, ms[1..]);
      assert u.outbuf[..s.wrIndex] == u.outbuf[..t.wrIndex][..s.wrIndex];
    }
  }

  /** Every state the object can reach from its constructor satisfies the invariants. */
  lemma Reachable(ms: seq<Message>)
    ensures Device.Valid(Run(Device.New(), ms)) && Device.Polling(Run(Device.New(), ms))
  {
    RunKeeps(Device.New(), ms);
  }
}
