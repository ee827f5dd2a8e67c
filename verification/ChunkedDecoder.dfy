/** The in-place chunked decoder, proved against the one-byte machine. */
module ChunkedDecoder {
  import opened Bytes
  import opened Common
  import opened ChunkedMachine

  /** The contents `s` after `n` bytes at `src` were copied to `dst`. */
  ghost function Moved(s: seq<byte>, dst: nat, src: nat, n: nat): (r: seq<byte>)
    requires dst <= src && src + n <= |s|
    ensures |r| == |s|
  {
    s[..dst] + s[src..src + n] + s[dst + n..]
  }

  lemma MovedBytes(was: seq<byte>, s: seq<byte>, dst: nat, src: nat, n: nat)
    requires dst <= src && src + n <= |was| == |s|
    requires forall j :: 0 <= j < dst || dst + n <= j < |s| ==> s[j] == was[j]
    requires forall j :: dst <= j < dst + n ==> s[j] == was[src - dst + j]
    ensures s == Moved(was, dst, src, n)
  {
    assert s[dst..dst + n] == was[src..src + n];
    assert s == s[..dst] + s[dst..dst + n] + s[dst + n..];
  }

  /** Copies `n` bytes down inside `buf`; the regions may overlap. */
  method MoveDown(buf: array<byte>, dst: nat, src: nat, n: nat)
    requires dst <= src && src + n <= buf.Length
    modifies buf
    ensures buf[..] == Moved(old(buf[..]), dst, src, n)
  {
    ghost var was := buf[..];
    var k := 0;
    while k < n
      invariant k <= n
      invariant forall j :: 0 <= j < dst || dst + k <= j < buf.Length ==> buf[j] == was[j]
      invariant forall j :: dst <= j < dst + k ==> buf[j] == was[src - dst + j]
    {
      buf[dst + k] := buf[src + k];
      k := k + 1;
    }
    MovedBytes(was, buf[..], dst, src, n);
  }

  /**
   What holds between any two steps of one call, `mem` being the buffer: the unread input is untouched,
   the decoded bytes lie below it, and machine `m` still has exactly the unread input to read.
   */
  ghost predicate InStep(m: Machine, input: seq<byte>, run: Outcome, mem: seq<byte>, dst: nat, src: nat) {
    && m.Valid()
    && dst <= src <= |input| <= |mem|
    && mem[src..|input|] == input[src..]
    && run == Prepend(mem[..dst], Decode(m, input[src..]))
  }

  /** How a call ends: machine `m`, decoded bytes below `dst`, unread input from `src` on. */
  ghost predicate Ended(m: Machine, input: seq<byte>, run: Outcome, mem: seq<byte>, dst: nat, src: nat,
                        verdict: Verdict) {
    && m.Valid()
    && dst <= src <= |input| <= |mem|
    && mem[src..|input|] == input[src..]
    && run == Outcome(m, mem[..dst], verdict, input[src..])
  }

  /** Whether the loop over the phases goes on, or how the call ends. */
  datatype Status = Going | Stopped(verdict: Verdict)

  ghost predicate Reached(m: Machine, input: seq<byte>, run: Outcome, mem: seq<byte>, dst: nat, src: nat,
                          status: Status) {
    match status
    case Going => InStep(m, input, run, mem, dst, src)
    case Stopped(verdict) => Ended(m, input, run, mem, dst, src, verdict)
  }

  /** The effect of the byte at hand on what remains to be done. */
  lemma StepOn(m: Machine, input: seq<byte>, run: Outcome, mem: seq<byte>, dst: nat, src: nat)
    requires src < |input| && InStep(m, input, run, mem, dst, src)
    ensures |input| <= |mem| && mem[src] == input[src] && m.Valid()
    ensures match StepMachine(m, mem[src])
            case Next(m', out) => out == [] ==> InStep(m', input, run, mem, dst, src + 1)
            case Finish(m') => Ended(m', input, run, mem, dst, src + 1, Complete)
            case Reject => Ended(m, input, run, mem, dst, src, Malformed)
  {
    assert mem[src..|input|][0] == mem[src] && input[src..][0] == input[src];
    assert mem[src..|input|][1..] == mem[src + 1..|input|] && input[src..][1..] == input[src + 1..];
    DecodeStep(m, input, src);
    StepKeepsValid(m, mem[src]);
  }

  lemma AtStart(m: Machine, input: seq<byte>, run: Outcome, mem: seq<byte>)
    requires m.Valid() && input <= mem && run == Decode(m, input)
    ensures InStep(m, input, run, mem, 0, 0)
  {
    assert input[0..] == input && mem[0..|input|] == input;
  }

  lemma EndOfInput(m: Machine, input: seq<byte>, run: Outcome, mem: seq<byte>, dst: nat, src: nat)
    requires src == |input| && InStep(m, input, run, mem, dst, src)
    ensures Ended(m, input, run, mem, dst, src, Incomplete)
  {
    assert input[src..] == [];
  }

  /** A byte that ends the numeral is read as part of the extension. */
  lemma TurnToExt(m: Machine, input: seq<byte>, run: Outcome, mem: seq<byte>, dst: nat, src: nat)
    requires src < |input| && InStep(m, input, run, mem, dst, src)
    requires m.phase == Size && m.hexCount > 0 && !IsHex(input[src])
    ensures InStep(m.(hexCount := 0, phase := Ext), input, run, mem, dst, src)
  {
    Pow16Of16();
    Pow16Monotone(m.hexCount, MAX_HEX_DIGITS);
  }

  ghost function AfterBlock(m: Machine, n: nat): Machine
    requires n <= m.left
  {
    if n == m.left then m.(left := 0, phase := Crlf) else m.(left := m.left - n)
  }

  lemma AfterBlockValid(m: Machine, n: nat)
    requires m.Valid() && m.phase == Data && n <= m.left
    ensures AfterBlock(m, n).Valid() && m.left > 0
  {
    hide Pow16;
  }

  lemma SplitAt(s: seq<byte>, i: nat, n: nat)
    requires i + n <= |s|
    ensures s[i..] == s[i..i + n] + s[i + n..] && |s[i..i + n]| == n
  {
  }

  lemma DecodeBlock(m: Machine, input: seq<byte>, src: nat, n: nat)
    requires m.Valid() && m.phase == Data && src + n <= |input| && n <= m.left
    ensures AfterBlock(m, n).Valid()
    ensures Decode(m, input[src..]) == Prepend(input[src..src + n], Decode(AfterBlock(m, n), input[src + n..]))
  {
    hide ChunkedMachine.Decode, Machine.Valid, Pow16;
    AfterBlockValid(m, n);
    SplitAt(input, src, n);
    DecodeSplit(m, input[src..src + n], input[src + n..]);
    if n > 0 {
      DecodeData(m, input[src..src + n]);
    } else {
      DecodeNone(m);
    }
  }

  lemma DecodeNone(m: Machine)
    ensures ChunkedMachine.Decode(m, []) == Outcome(m, [], Incomplete, [])
  {
  }

  lemma BlockStep(m: Machine, input: seq<byte>, run: Outcome, mem: seq<byte>, dst: nat, src: nat, n: nat)
    requires InStep(m, input, run, mem, dst, src) && m.phase == Data && src + n <= |input| && n <= m.left
    ensures src + n <= |mem| && dst <= src
    ensures InStep(AfterBlock(m, n), input, run, Moved(mem, dst, src, n), dst + n, src + n)
  {
    hide Decode, Machine.Valid;
    DecodeBlock(m, input, src, n);
    SplitSlice(mem, src, |input|, n);
    SplitSlice(input, src, |input|, n);
    MovedParts(mem, dst, src, n, |input|);
  }

  lemma MovedParts(mem: seq<byte>, dst: nat, src: nat, n: nat, end: nat)
    requires dst <= src && src + n <= end <= |mem|
    ensures Moved(mem, dst, src, n)[..dst + n] == mem[..dst] + mem[src..src + n]
    ensures Moved(mem, dst, src, n)[src + n..end] == mem[src + n..end]
    ensures Moved(mem, dst, src, n)[end..] == mem[end..]
  {
  }

  lemma MovedNowhere(mem: seq<byte>, dst: nat, n: nat)
    requires dst + n <= |mem|
    ensures Moved(mem, dst, dst, n) == mem
  {
  }

  lemma SplitSlice(s: seq<byte>, i: nat, j: nat, n: nat)
    requires i + n <= j <= |s|
    ensures s[i..j][..n] == s[i..i + n] && s[i..j][n..] == s[i + n..j]
  {
  }

  /** The last copy puts the unread input right behind the decoded bytes. */
  lemma Tidied(m: Machine, input: seq<byte>, run: Outcome, mem: seq<byte>, dst: nat, src: nat, verdict: Verdict)
    requires Ended(m, input, run, mem, dst, src, verdict)
    ensures dst <= src <= |input| <= |mem| && dst + |run.tail| <= |input|
    ensures run.m == m && run.verdict == verdict && |run.data| == dst && |run.tail| == |input| - src
    ensures var mem' := if dst == src then mem else Moved(mem, dst, src, |input| - src);
            |mem'| == |mem| && mem'[..dst] == run.data && mem'[dst..dst + |run.tail|] == run.tail
  {
  }

  /** The last copy of a call: what was not read moves down to the end of the decoded bytes. */
  method Tidy(buf: array<byte>, bufsz: nat, dst: nat, src: nat, ghost m: Machine, ghost input: seq<byte>,
              ghost run: Outcome, ghost verdict: Verdict)
    requires |input| == bufsz && Ended(m, input, run, buf[..], dst, src, verdict)
    modifies buf
    ensures run.m == m && m.Valid() && run.verdict == verdict && |run.tail| == bufsz - src
    ensures dst == |run.data| && dst + |run.tail| <= bufsz <= buf.Length
    ensures buf[..dst] == run.data && buf[dst..dst + |run.tail|] == run.tail
    ensures buf[bufsz..] == old(buf[bufsz..])
  {
    hide Moved;
    ghost var mem := buf[..];
    Tidied(m, input, run, mem, dst, src, verdict);
    MovedParts(mem, dst, src, bufsz - src, bufsz);
    if dst != src {
      MoveDown(buf, dst, src, bufsz - src);
    }
    assert buf[..][..dst] == buf[..dst] && buf[..][dst..dst + bufsz - src] == buf[dst..dst + bufsz - src];
    assert buf[..][bufsz..] == buf[bufsz..] && mem[bufsz..] == old(buf[bufsz..]);
  }

  class Decoder {
    var bytesLeftInChunk: nat
    var consumeTrailer: bool
    var hexCount: nat
    var phase: Phase

    ghost function State(): Machine
      reads this
    {
      Machine(bytesLeftInChunk, hexCount, phase, consumeTrailer)
    }

    constructor (consumeTrailer: bool)
      ensures State() == Fresh(consumeTrailer) && State().Valid()
    {
      bytesLeftInChunk := 0;
      this.consumeTrailer := consumeTrailer;
      hexCount := 0;
      phase := Size;
    }

    method IsInData() returns (r: bool)
      ensures r <==> State().phase == Data
    {
      r := phase == Data;
    }

    /** The chunk-size numeral: adds hex digits to the pending count, then turns to the extension. */
    method ReadSize(buf: array<byte>, bufsz: nat, start: nat, ghost dst: nat, ghost input: seq<byte>,
                    ghost run: Outcome)
      returns (src: nat, bad: bool)
      requires |input| == bufsz <= buf.Length && start <= bufsz && phase == Size
      requires InStep(State(), input, run, buf[..], dst, start)
      modifies this
      ensures start <= src <= bufsz && consumeTrailer == old(consumeTrailer)
      ensures bad ==> Ended(State(), input, run, buf[..], dst, src, Malformed)
      ensures !bad ==> InStep(State(), input, run, buf[..], dst, src)
      ensures !bad ==> phase == if src < bufsz then Ext else Size
    {
      hide InStep, Ended, HexValue, Machine.Valid;
      src, bad := start, false;
      while src < bufsz
        invariant start <= src <= bufsz && phase == Size && consumeTrailer == old(consumeTrailer)
        invariant InStep(State(), input, run, buf[..], dst, src)
      {
        StepOn(State(), input, run, buf[..], dst, src);
        var v := HexValue(buf[src]);
        if v == -1 {
          if hexCount == 0 { return src, true; }
          TurnToExt(State(), input, run, buf[..], dst, src);
          hexCount := 0;
          phase := Ext;
          return;
        }
        if hexCount == MAX_HEX_DIGITS { return src, true; }
        bytesLeftInChunk := (bytesLeftInChunk * 16 + v) % SIZE_MODULUS;
        hexCount := hexCount + 1;
        src := src + 1;
      }
    }

    /** Skips bytes up to, not including, the first LF. */
    method SkipToLf(buf: array<byte>, bufsz: nat, start: nat, ghost dst: nat, ghost input: seq<byte>,
                    ghost run: Outcome)
      returns (src: nat)
      requires |input| == bufsz <= buf.Length && start <= bufsz && (phase == Ext || phase == LineMiddle)
      requires InStep(State(), input, run, buf[..], dst, start)
      ensures start <= src <= bufsz && InStep(State(), input, run, buf[..], dst, src)
      ensures src < bufsz ==> buf[src] == LF
    {
      src := start;
      while src < bufsz && buf[src] != LF
        invariant start <= src <= bufsz && InStep(State(), input, run, buf[..], dst, src)
      {
        hide InStep, Ended;
        StepOn(State(), input, run, buf[..], dst, src);
        src := src + 1;
      }
    }

    /** Skips CR bytes. */
    method SkipCr(buf: array<byte>, bufsz: nat, start: nat, ghost dst: nat, ghost input: seq<byte>, ghost run: Outcome)
      returns (src: nat)
      requires |input| == bufsz <= buf.Length && start <= bufsz && (phase == Crlf || phase == LineHead)
      requires InStep(State(), input, run, buf[..], dst, start)
      ensures start <= src <= bufsz && InStep(State(), input, run, buf[..], dst, src)
      ensures src < bufsz ==> buf[src] != CR
    {
      hide InStep, Ended;
      src := start;
      while src < bufsz && buf[src] == CR
        invariant start <= src <= bufsz && InStep(State(), input, run, buf[..], dst, src)
      {
        StepOn(State(), input, run, buf[..], dst, src);
        src := src + 1;
      }
    }

    /** Copies the block of chunk data at hand down onto the decoded bytes. */
    method CopyData(buf: array<byte>, bufsz: nat, dst0: nat, src0: nat, ghost input: seq<byte>, ghost run: Outcome)
      returns (dst: nat, src: nat)
      requires |input| == bufsz <= buf.Length && dst0 <= src0 <= bufsz && phase == Data
      requires InStep(State(), input, run, buf[..], dst0, src0)
      modifies this, buf
      ensures src0 <= src <= bufsz && dst <= src && InStep(State(), input, run, buf[..], dst, src)
      ensures consumeTrailer == old(consumeTrailer) && buf[bufsz..] == old(buf[bufsz..])
      ensures phase == Crlf || (phase == Data && src == bufsz)
    {
      hide InStep, Ended, Moved;
      var n := if bufsz - src0 < bytesLeftInChunk then bufsz - src0 else bytesLeftInChunk;
      ghost var was, mem := State(), buf[..];
      BlockStep(was, input, run, mem, dst0, src0, n);
      MovedParts(mem, dst0, src0, n, bufsz);
      if dst0 != src0 {
        MoveDown(buf, dst0, src0, n);
      } else {
        MovedNowhere(mem, dst0, n);
      }
      assert buf[..] == Moved(mem, dst0, src0, n);
      assert buf[..][bufsz..] == buf[bufsz..] && mem[bufsz..] == old(buf[bufsz..]);
      dst, src := dst0 + n, src0 + n;
      bytesLeftInChunk := bytesLeftInChunk - n;
      if bytesLeftInChunk == 0 {
        phase := Crlf;
      }
      assert State() == AfterBlock(was, n);
    }

    /** The extension and the LF that ends it; after the last chunk's line this may end the body. */
    method ReadExt(buf: array<byte>, bufsz: nat, start: nat, ghost dst: nat, ghost input: seq<byte>, ghost run: Outcome)
      returns (src: nat, status: Status)
      requires |input| == bufsz <= buf.Length && start <= bufsz && phase == Ext
      requires InStep(State(), input, run, buf[..], dst, start)
      modifies this
      ensures start <= src <= bufsz && consumeTrailer == old(consumeTrailer)
      ensures status == Going ==> start < src && (phase == Data || phase == LineHead)
      ensures Reached(State(), input, run, buf[..], dst, src, status)
    {
      hide InStep, Ended;
      src := SkipToLf(buf, bufsz, start, dst, input, run);
      if src == bufsz {
        EndOfInput(State(), input, run, buf[..], dst, src);
        return src, Stopped(Incomplete);
      }
      StepOn(State(), input, run, buf[..], dst, src);
      src := src + 1;
      if bytesLeftInChunk == 0 {
        if !consumeTrailer { return src, Stopped(Complete); }
        phase := LineHead;
      } else {
        phase := Data;
      }
      status := Going;
    }

    /** The line end behind the data of a chunk. */
    method ReadCrlf(buf: array<byte>, bufsz: nat, start: nat, ghost dst: nat, ghost input: seq<byte>,
                    ghost run: Outcome)
      returns (src: nat, status: Status)
      requires |input| == bufsz <= buf.Length && start <= bufsz && phase == Crlf
      requires InStep(State(), input, run, buf[..], dst, start)
      modifies this
      ensures start <= src <= bufsz && consumeTrailer == old(consumeTrailer)
      ensures status == Going ==> start < src
      ensures Reached(State(), input, run, buf[..], dst, src, status)
    {
      hide InStep, Ended;
      src := SkipCr(buf, bufsz, start, dst, input, run);
      if src == bufsz {
        EndOfInput(State(), input, run, buf[..], dst, src);
        return src, Stopped(Incomplete);
      }
      StepOn(State(), input, run, buf[..], dst, src);
      if buf[src] != LF { return src, Stopped(Malformed); }
      src := src + 1;
      phase := Size;
      status := Going;
    }

    /** One trailer line, or the blank line that ends the body. */
    method ReadTrailerLine(buf: array<byte>, bufsz: nat, start: nat, ghost dst: nat, ghost input: seq<byte>,
                           ghost run: Outcome)
      returns (src: nat, status: Status)
      requires |input| == bufsz <= buf.Length && start <= bufsz && (phase == LineHead || phase == LineMiddle)
      requires InStep(State(), input, run, buf[..], dst, start)
      modifies this
      ensures start <= src <= bufsz && consumeTrailer == old(consumeTrailer)
      ensures status == Going ==> start < src
      ensures Reached(State(), input, run, buf[..], dst, src, status)
    {
      hide InStep, Ended;
      src := start;
      if phase == LineHead {
        src := SkipCr(buf, bufsz, src, dst, input, run);
        if src == bufsz {
          EndOfInput(State(), input, run, buf[..], dst, src);
          return src, Stopped(Incomplete);
        }
        StepOn(State(), input, run, buf[..], dst, src);
        src := src + 1;
        if buf[src - 1] == LF { return src, Stopped(Complete); }
        phase := LineMiddle;
      }
      src := SkipToLf(buf, bufsz, src, dst, input, run);
      if src == bufsz {
        EndOfInput(State(), input, run, buf[..], dst, src);
        return src, Stopped(Incomplete);
      }
      StepOn(State(), input, run, buf[..], dst, src);
      src := src + 1;
      phase := LineHead;
      status := Going;
    }

    /** One pass over the phases; one that is to be followed by another consumes input. */
    method Pass(buf: array<byte>, bufsz: nat, dst0: nat, src0: nat, ghost input: seq<byte>, ghost run: Outcome)
      returns (dst: nat, src: nat, status: Status)
      requires |input| == bufsz <= buf.Length && dst0 <= src0 <= bufsz
      requires InStep(State(), input, run, buf[..], dst0, src0)
      modifies this, buf
      ensures dst <= src && src0 <= src <= bufsz && (status == Going ==> src0 < src)
      ensures consumeTrailer == old(consumeTrailer) && buf[bufsz..] == old(buf[bufsz..])
      ensures Reached(State(), input, run, buf[..], dst, src, status)
    {
      hide InStep, Ended;
      dst, src, status := dst0, src0, Going;
      if phase == Size {
        var bad;
        src, bad := ReadSize(buf, bufsz, src, dst, input, run);
        if bad { return dst, src, Stopped(Malformed); }
      }
      if phase == Size {
        EndOfInput(State(), input, run, buf[..], dst, src);
        return dst, src, Stopped(Incomplete);
      }
      if phase == Ext {
        src, status := ReadExt(buf, bufsz, src, dst, input, run);
        if status.Stopped? || phase == LineHead { return; }
      }
      if phase == Data {
        dst, src := CopyData(buf, bufsz, dst, src, input, run);
        if phase == Data {
          EndOfInput(State(), input, run, buf[..], dst, src);
          return dst, src, Stopped(Incomplete);
        }
      }
      if phase == Crlf {
        src, status := ReadCrlf(buf, bufsz, src, dst, input, run);
      } else {
        src, status := ReadTrailerLine(buf, bufsz, src, dst, input, run);
      }
    }

    method Decode(buf: array<byte>, bufsz: nat) returns (ret: int, decoded: nat)
      requires State().Valid() && bufsz <= buf.Length
      modifies this, buf
      ensures var r := ChunkedMachine.Decode(old(State()), old(buf[..bufsz]));
              && State() == r.m && r.m.Valid()
              && (r.verdict == Incomplete <==> ret == -2) && (r.verdict == Malformed <==> ret == -1)
              && (r.verdict == Complete ==> ret == |r.tail|)
              && decoded == |r.data| && decoded + |r.tail| <= bufsz
              && buf[..decoded] == r.data
              && buf[decoded..decoded + |r.tail|] == r.tail
              && buf[bufsz..] == old(buf[bufsz..])
    {
      hide InStep, Ended, ChunkedMachine.Decode;
      var dst: nat, src: nat := 0, 0;
      ghost var input := buf[..bufsz];
      ghost var run := ChunkedMachine.Decode(State(), input);
      var status := Going;
      AtStart(State(), input, run, buf[..]);
      while status == Going
        invariant dst <= src <= bufsz && buf[bufsz..] == old(buf[bufsz..])
        invariant Reached(State(), input, run, buf[..], dst, src, status)
        decreases bufsz - src, if status == Going then 1 else 0
      {
        dst, src, status := Pass(buf, bufsz, dst, src, input, run);
      }
      Tidy(buf, bufsz, dst, src, State(), input, run, status.verdict);
      decoded := dst;
      ret := match status.verdict
             case Incomplete => -2
             case Malformed => -1
             case Complete => bufsz - src;
    }
  }
}
