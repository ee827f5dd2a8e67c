/**
 The chunked transfer decoder as a machine that reads one byte at a time:
 the specification the in-place decoder of `ChunkedDecoder` is proved against.
 */
module ChunkedMachine {
  import opened Bytes
  import opened Common

  const SIZE_MODULUS: nat := 0x1_0000_0000_0000_0000
  const MAX_HEX_DIGITS: nat := 16

  datatype Phase = Size | Ext | Data | Crlf | LineHead | LineMiddle

  datatype Machine = Machine(left: nat, hexCount: nat, phase: Phase, consumeTrailer: bool) {
    /** The states a zero-filled decoder can reach. */
    ghost predicate Valid() {
      match phase
      case Size => hexCount <= MAX_HEX_DIGITS && left < Pow16(hexCount)
      case Ext => hexCount == 0 && left < SIZE_MODULUS
      case Data => hexCount == 0 && 0 < left < SIZE_MODULUS
      case _ => hexCount == 0 && left == 0
    }
  }

  function Fresh(consumeTrailer: bool): Machine {
    Machine(0, 0, Size, consumeTrailer)
  }

  lemma Pow16Of16()
    ensures Pow16(MAX_HEX_DIGITS) == SIZE_MODULUS
  {
    assert Pow16(4) == 0x1_0000;
    assert Pow16(8) == 0x1_0000_0000;
    assert Pow16(12) == 0x1_0000_0000_0000;
  }

  predicate IsHex(b: byte) {
    HexValue(b) != -1
  }

  datatype Step =
    | Next(m: Machine, out: seq<byte>)
    | Finish(m: Machine)
    | Reject

  /** A byte met while skipping a chunk extension: all but LF is ignored. */
  function StepExt(m: Machine, b: byte): Step {
    if b != LF then Next(m.(hexCount := 0, phase := Ext), [])
    else if m.left > 0 then Next(m.(hexCount := 0, phase := Data), [])
    else if m.consumeTrailer then Next(m.(hexCount := 0, phase := LineHead), [])
    else Finish(m.(hexCount := 0, phase := Ext))
  }

  function StepMachine(m: Machine, b: byte): Step {
    match m.phase
    case Size =>
      if !IsHex(b) then (if m.hexCount == 0 then Reject else StepExt(m, b))
      else if m.hexCount == MAX_HEX_DIGITS then Reject
      else Next(m.(left := (m.left * 16 + HexValue(b)) % SIZE_MODULUS, hexCount := m.hexCount + 1), [])
    case Ext => StepExt(m, b)
    case Data =>
      if m.left <= 1 then Next(m.(left := 0, phase := Crlf), [b]) else Next(m.(left := m.left - 1), [b])
    case Crlf =>
      if b == CR then Next(m, []) else if b == LF then Next(m.(phase := Size), []) else Reject
    case LineHead =>
      if b == CR then Next(m, []) else if b == LF then Finish(m) else Next(m.(phase := LineMiddle), [])
    case LineMiddle =>
      if b == LF then Next(m.(phase := LineHead), []) else Next(m, [])
  }

  /** Every reachable step stays among the valid states, and the 64-bit size never wraps. */
  lemma StepKeepsValid(m: Machine, b: byte)
    requires m.Valid()
    ensures StepMachine(m, b).Next? ==> StepMachine(m, b).m.Valid()
    ensures StepMachine(m, b).Finish? ==> StepMachine(m, b).m.Valid()
    ensures m.phase.Size? && StepMachine(m, b).Next? && StepMachine(m, b).m.phase.Size?
            ==> StepMachine(m, b).m.left == m.left * 16 + HexValue(b)
  {
    hide HexValue, Pow16;
    if m.phase.Size? {
      SizeBound(m);
      if m.hexCount < MAX_HEX_DIGITS && IsHex(b) {
        NoWrap(m.left, m.hexCount, HexValue(b));
      }
    } else {
      Pow16OfNone();
    }
  }

  lemma SizeBound(m: Machine)
    requires m.Valid() && m.phase.Size?
    ensures m.left < SIZE_MODULUS && Pow16(0) == 1
  {
    Pow16Of16();
    Pow16Monotone(m.hexCount, MAX_HEX_DIGITS);
  }

  lemma Pow16OfNone()
    ensures Pow16(0) == 1
  {
  }

  lemma NoWrap(left: nat, hexCount: nat, v: nat)
    requires hexCount < MAX_HEX_DIGITS && left < Pow16(hexCount) && v < 16
    ensures left * 16 + v < Pow16(hexCount + 1)
    ensures (left * 16 + v) % SIZE_MODULUS == left * 16 + v
  {
    Pow16Of16();
    Pow16Monotone(hexCount + 1, MAX_HEX_DIGITS);
  }

  datatype Verdict = Incomplete | Complete | Malformed

  /** What one call leaves behind: the machine, the decoded bytes, the verdict, the unread bytes. */
  datatype Outcome = Outcome(m: Machine, data: seq<byte>, verdict: Verdict, tail: seq<byte>)

  function Prepend(data: seq<byte>, r: Outcome): Outcome {
    r.(data := data + r.data)
  }

  function Decode(m: Machine, s: seq<byte>): Outcome
    decreases |s|
  {
    if s == [] then Outcome(m, [], Incomplete, [])
    else
      match StepMachine(m, s[0])
      case Next(m', out) => Prepend(out, Decode(m', s[1..]))
      case Finish(m') => Outcome(m', [], Complete, s[1..])
      case Reject => Outcome(m, [], Malformed, s)
  }

  /** One byte of a stream that is read from position `i`. */
  lemma DecodeStep(m: Machine, s: seq<byte>, i: nat)
    requires i < |s|
    ensures var step := StepMachine(m, s[i]);
            Decode(m, s[i..]) == match step
                                 case Next(m', out) => Prepend(out, Decode(m', s[i + 1..]))
                                 case Finish(m') => Outcome(m', [], Complete, s[i + 1..])
                                 case Reject => Outcome(m, [], Malformed, s[i..])
  {
    assert s[i..][1..] == s[i + 1..];
  }

  /** A step delivers at most the byte it reads, and a message ends with nothing pending. */
  lemma StepShape(m: Machine, b: byte)
    requires m.Valid()
    ensures var step := StepMachine(m, b);
            && (step.Next? ==> step.m.consumeTrailer == m.consumeTrailer && |step.out| <= 1)
            && (step.Finish? ==> step.m.consumeTrailer == m.consumeTrailer && step.m.left == 0)
  {
    hide HexValue, Pow16;
  }

  /** In every run from a valid state: the state stays valid, the counts add up, and the unread bytes are a suffix. */
  lemma {:induction false} DecodeShape(m: Machine, s: seq<byte>)
    requires m.Valid()
    ensures var r := Decode(m, s);
            && r.m.Valid() && r.m.consumeTrailer == m.consumeTrailer
            && |r.data| + |r.tail| <= |s| && r.tail == s[|s| - |r.tail|..]
            && (r.verdict == Incomplete ==> r.tail == [])
            && (r.verdict == Malformed ==> r.tail != [])
            && (r.verdict == Complete ==> |r.tail| < |s| && r.m.left == 0)
    decreases |s|
  {
    hide StepMachine, Machine.Valid;
    if s != [] {
      StepKeepsValid(m, s[0]);
      StepShape(m, s[0]);
      var step := StepMachine(m, s[0]);
      if step.Next? {
        DecodeShape(step.m, s[1..]);
        var r := Decode(m, s);
        assert s[1..][|s| - 1 - |r.tail|..] == s[|s| - |r.tail|..];
      }
    }
  }

  /** Decoding a stream in two parts: the second call resumes where the first stopped. */
  lemma {:induction false} DecodeSplit(m: Machine, a: seq<byte>, b: seq<byte>)
    ensures var r := Decode(m, a);
            Decode(m, a + b) == if r.verdict == Incomplete then Prepend(r.data, Decode(r.m, b))
                                else r.(tail := r.tail + b)
    decreases |a|
  {
    if a == [] {
      assert a + b == b;
    } else {
      assert (a + b)[1..] == a[1..] + b;
      var step := StepMachine(m, a[0]);
      if step.Next? {
        DecodeSplit(step.m, a[1..], b);
        var r := Decode(step.m, a[1..]);
        if r.verdict == Incomplete {
          assert step.out + (r.data + Decode(r.m, b).data) == (step.out + r.data) + Decode(r.m, b).data;
        }
      } else if step.Reject? {
        assert a + b == Decode(m, a).tail + b;
      }
    }
  }

  /** The caller's protocol: pass on buffer after buffer until a call gives a verdict; what is then unread stays. */
  function Feed(m: Machine, buffers: seq<seq<byte>>): Outcome
    decreases |buffers|
  {
    if buffers == [] then Outcome(m, [], Incomplete, [])
    else
      var r := Decode(m, buffers[0]);
      if r.verdict == Incomplete then Prepend(r.data, Feed(r.m, buffers[1..]))
      else r.(tail := r.tail + Flatten(buffers[1..]))
  }

  /** Cutting a stream into buffers in any way does not change data, final state, verdict or unread tail. */
  lemma {:induction false} FeedIsDecode(m: Machine, buffers: seq<seq<byte>>)
    ensures Feed(m, buffers) == Decode(m, Flatten(buffers))
    decreases |buffers|
  {
    if buffers != [] {
      var r := Decode(m, buffers[0]);
      DecodeSplit(m, buffers[0], Flatten(buffers[1..]));
      if r.verdict == Incomplete {
        FeedIsDecode(r.m, buffers[1..]);
      }
    }
  }

  lemma DataStep(m: Machine, b: byte)
    requires m.phase == Data && 0 < m.left
    ensures StepMachine(m, b) ==
            Next(if m.left == 1 then m.(left := 0, phase := Crlf) else m.(left := m.left - 1), [b])
  {
  }

  /** A block of pending chunk data is copied through unchanged, however it is cut. */
  lemma {:induction false} DecodeData(m: Machine, block: seq<byte>)
    requires m.phase == Data && 0 < |block| <= m.left
    ensures Decode(m, block) ==
            Outcome(if |block| == m.left then m.(left := 0, phase := Crlf) else m.(left := m.left - |block|),
                    block, Incomplete, [])
    decreases |block|
  {
    hide StepMachine;
    assert block == [block[0]] + block[1..];
    DataStep(m, block[0]);
    if |block| == 1 {
      assert Decode(StepMachine(m, block[0]).m, block[1..]).data == [];
    } else {
      DecodeData(m.(left := m.left - 1), block[1..]);
    }
  }
}
