/** The converse of the round trip: what the decoder completes on is a message of the grammar, read exactly. */
module ChunkedLanguage {
  import opened Bytes
  import opened Common
  import opened ChunkedMachine
  import opened ChunkedGrammar

  /** Cuts `s` behind its longest prefix of bytes that satisfy `p`. */
  function Span(p: byte -> bool, s: seq<byte>): (r: (seq<byte>, seq<byte>))
    ensures s == r.0 + r.1 && All(p, r.0) && (r.1 != [] ==> !p(r.1[0]))
  {
    if s == [] || !p(s[0]) then ([], s) else var r := Span(p, s[1..]); ([s[0]] + r.0, r.1)
  }

  lemma AllReturns(s: seq<byte>)
    requires All(b => b == CR, s)
    ensures s == Repeat(CR, |s|)
  {
  }

  /** A 17th hex digit is an error. */
  lemma TooManyDigits(consumeTrailer: bool, digits: seq<byte>, more: seq<byte>)
    requires AllHexDigits(digits) && |digits| > 16
    ensures Decode(Fresh(consumeTrailer), digits + more).verdict == Malformed
  {
    hide IsHexDigit;
    AllHex(digits);
    var head, rest := digits[..16], digits[16..] + more;
    assert digits + more == head + rest && rest[0] == digits[16];
    DecodeDigits(consumeTrailer, head);
    DecodeSplit(Fresh(consumeTrailer), head, rest);
  }

  /** A line that is read to its end ends. */
  lemma LineOf(m: Machine, s: seq<byte>) returns (line: seq<byte>, more: seq<byte>)
    requires m.Valid() && (m.phase == Ext || m.phase == LineMiddle)
    requires Decode(m, s).verdict == Complete
    ensures s == line + ([LF] + more) && LF !in line
    ensures Decode(m, s) == Decode(m, [LF] + more)
  {
    var cut := Span(b => b != LF, s);
    line := cut.0;
    DecodeNoLf(m, line);
    DecodeSplit(m, line, cut.1);
    assert cut.1 != [];
    more := cut.1[1..];
    assert cut.1 == [LF] + more;
  }

  /** Bytes CR at a line end are skipped. */
  lemma ReturnsOf(m: Machine, s: seq<byte>) returns (crs: nat, more: seq<byte>)
    requires m.phase == Crlf || m.phase == LineHead
    requires Decode(m, s).verdict == Complete
    ensures s == Repeat(CR, crs) + more && more != [] && more[0] != CR
    ensures Decode(m, s) == Decode(m, more)
  {
    var cut := Span(b => b == CR, s);
    crs, more := |cut.0|, cut.1;
    AllReturns(cut.0);
    DecodeReturns(m, crs);
    DecodeSplit(m, cut.0, more);
  }

  /** Only a numeral of 1 to 16 digits, and some byte behind it, can start what the decoder completes on. */
  lemma DigitsOf(consumeTrailer: bool, s: seq<byte>) returns (digits: seq<byte>, more: seq<byte>)
    requires Decode(Fresh(consumeTrailer), s).verdict == Complete
    ensures s == digits + more && 1 <= |digits| <= MAX_HEX_DIGITS && All(IsHex, digits)
    ensures more != [] && !IsHex(more[0])
    ensures 0 <= Numeral(digits) && Machine(Numeral(digits), 0, Ext, consumeTrailer).Valid()
    ensures Decode(Machine(Numeral(digits), 0, Ext, consumeTrailer), more).verdict == Complete
  {
    var cut := Span(IsHex, s);
    digits, more := cut.0, cut.1;
    AllHex(digits);
    if |digits| > MAX_HEX_DIGITS {
      TooManyDigits(consumeTrailer, digits, more);
      assert false;
    }
    DecodeDigits(consumeTrailer, digits);
    DecodeSplit(Fresh(consumeTrailer), digits, more);
    Pow16Of16();
    Pow16Monotone(|digits|, MAX_HEX_DIGITS);
  }

  lemma SizeLineOf(consumeTrailer: bool, s: seq<byte>) returns (digits: seq<byte>, ext: seq<byte>, more: seq<byte>)
    requires Decode(Fresh(consumeTrailer), s).verdict == Complete
    ensures IsSizeLine(digits, ext) && s == SizeLine(digits, ext) + more
  {
    hide Decode;
    var after;
    digits, after := DigitsOf(consumeTrailer, s);
    ext, more := LineOf(Machine(Numeral(digits), 0, Ext, consumeTrailer), after);
    assert ext != [] ==> ext[0] == after[0];
    assert s == SizeLine(digits, ext) + more;
    SizeLineIs(digits, ext);
  }

  /** A body that is read to its end holds as many data bytes as the pending count says. */
  lemma DataOfChunk(m: Machine, s: seq<byte>) returns (data: seq<byte>, more: seq<byte>)
    requires m.Valid() && m.phase == Data && Decode(m, s).verdict == Complete
    ensures s == data + more && |data| == m.left
    ensures Decode(m.(left := 0, phase := Crlf), more).verdict == Complete
  {
    if |s| < m.left {
      if s != [] { DecodeData(m, s); }
      assert false;
    }
    data, more := s[..m.left], s[m.left..];
    assert s == data + more;
    DecodeData(m, data);
    DecodeSplit(m, data, more);
  }

  lemma FreshIsValid(consumeTrailer: bool)
    ensures Fresh(consumeTrailer).Valid()
  {
  }

  /** The line end behind the data of a chunk. */
  lemma LineEndOf(consumeTrailer: bool, s: seq<byte>) returns (crs: nat, more: seq<byte>)
    requires Decode(Machine(0, 0, Crlf, consumeTrailer), s).verdict == Complete
    ensures s == (Repeat(CR, crs) + [LF]) + more
  {
    var end;
    crs, end := ReturnsOf(Machine(0, 0, Crlf, consumeTrailer), s);
    assert end[0] == LF;
    more := end[1..];
    assert end == [LF] + more;
    Assoc(Repeat(CR, crs), [LF], more);
  }

  /** Behind a size line with a positive size come that many bytes of data and a line end. */
  lemma ChunkOf(consumeTrailer: bool, digits: seq<byte>, ext: seq<byte>, s: seq<byte>)
      returns (c: Chunk, more: seq<byte>)
    requires IsSizeLine(digits, ext) && Numeral(digits) > 0
    requires Decode(Fresh(consumeTrailer), SizeLine(digits, ext) + s).verdict == Complete
    ensures c.WellFormed() && SizeLine(digits, ext) + s == c.Encode() + more
  {
    hide IsSizeLine, SizeLine, Decode, Numeral, Machine.Valid;
    var line := SizeLine(digits, ext);
    DecodeSizeLine(consumeTrailer, digits, ext);
    FreshIsValid(consumeTrailer);
    DecodeShape(Fresh(consumeTrailer), line);
    DecodeSplit(Fresh(consumeTrailer), line, s);
    var data, after := DataOfChunk(Machine(Numeral(digits), 0, Data, consumeTrailer), s);
    var crs;
    crs, more := LineEndOf(consumeTrailer, after);
    c := Chunk(digits, ext, data, crs);
    var end := Repeat(CR, crs) + [LF];
    Assoc(data, end, more);
    Assoc(line, data + end, more);
    Assoc(line, data, end);
  }

  lemma TrailerLineOf(crs: nat, s: seq<byte>) returns (line: TrailerLine, more: seq<byte>)
    requires s != [] && s[0] != CR && s[0] != LF && Decode(EndState(true), s).verdict == Complete
    ensures line.WellFormed() && Repeat(CR, crs) + s == line.Encode() + more
    ensures Decode(EndState(true), more).verdict == Complete
  {
    var middle := EndState(true).(phase := LineMiddle);
    assert Decode(EndState(true), s) == Prepend([], Decode(middle, s[1..]));
    var rest;
    rest, more := LineOf(middle, s[1..]);
    line := TrailerLine(crs, s[0], rest);
    assert s == [s[0]] + (rest + ([LF] + more));
    assert ([LF] + more)[1..] == more;
  }

  lemma {:induction false} TrailerOf(s: seq<byte>) returns (lines: seq<TrailerLine>, crs: nat, tail: seq<byte>)
    requires Decode(EndState(true), s).verdict == Complete
    ensures (forall t :: t in lines ==> t.WellFormed()) && s == EncodeTrailer(lines, crs) + tail
    decreases |s|
  {
    hide Decode;
    var after;
    crs, after := ReturnsOf(EndState(true), s);
    if after[0] == LF {
      lines, tail := [], after[1..];
      assert after == [LF] + tail;
    } else {
      var line, rest := TrailerLineOf(crs, after);
      lines, crs, tail := TrailerOf(rest);
      assert line.Encode() + (EncodeTrailer(lines, crs) + tail) == EncodeTrailer([line] + lines, crs) + tail;
      lines := [line] + lines;
    }
  }

  lemma AfterLastChunk(consumeTrailer: bool, digits: seq<byte>, ext: seq<byte>, s: seq<byte>)
      returns (msg: Message, tail: seq<byte>)
    requires IsSizeLine(digits, ext) && Numeral(digits) == 0
    requires Decode(Fresh(consumeTrailer), SizeLine(digits, ext) + s).verdict == Complete
    ensures msg.WellFormed() && SizeLine(digits, ext) + s == msg.Encode(consumeTrailer) + tail
  {
    hide Decode, IsSizeLine, SizeLine, Numeral, TrailerLine.WellFormed, EncodeTrailer, Message.Encode;
    DecodeSizeLine(consumeTrailer, digits, ext);
    DecodeSplit(Fresh(consumeTrailer), SizeLine(digits, ext), s);
    var lines, crs := [], 0;
    tail := s;
    if consumeTrailer { lines, crs, tail := TrailerOf(s); }
    msg := Message([], digits, ext, lines, crs);
    NoChunks(consumeTrailer, msg, tail);
  }

  lemma NoChunks(consumeTrailer: bool, msg: Message, tail: seq<byte>)
    requires msg.chunks == []
    ensures msg.Encode(consumeTrailer) + tail
         == SizeLine(msg.lastDigits, msg.lastExt)
            + (if consumeTrailer then EncodeTrailer(msg.trailer, msg.crs) + tail else tail)
  {
    hide SizeLine, EncodeTrailer;
  }

  lemma {:induction false} MessageOf(consumeTrailer: bool, s: seq<byte>) returns (msg: Message, tail: seq<byte>)
    requires Decode(Fresh(consumeTrailer), s).verdict == Complete
    ensures msg.WellFormed() && s == msg.Encode(consumeTrailer) + tail
    decreases |s|
  {
    hide Decode;
    var digits, ext, more := SizeLineOf(consumeTrailer, s);
    if Numeral(digits) > 0 {
      var c, rest := ChunkOf(consumeTrailer, digits, ext, more);
      DecodeChunk(consumeTrailer, c);
      DecodeSplit(Fresh(consumeTrailer), c.Encode(), rest);
      var last;
      last, tail := MessageOf(consumeTrailer, rest);
      msg := OneMore(consumeTrailer, c, last, tail);
    } else {
      DecodeSizeLine(consumeTrailer, digits, ext);
      msg, tail := AfterLastChunk(consumeTrailer, digits, ext, more);
    }
  }

  lemma OneMore(consumeTrailer: bool, c: Chunk, last: Message, tail: seq<byte>) returns (msg: Message)
    requires c.WellFormed() && last.WellFormed()
    ensures msg.WellFormed()
    ensures c.Encode() + (last.Encode(consumeTrailer) + tail) == msg.Encode(consumeTrailer) + tail
  {
    hide IsSizeLine, Chunk.WellFormed, Chunk.Encode;
    msg := last.(chunks := [c] + last.chunks);
    assert EncodeChunks(msg.chunks) == c.Encode() + EncodeChunks(last.chunks);
  }

  ghost predicate Holds(msg: Message, consumeTrailer: bool, s: seq<byte>, data: seq<byte>, tail: seq<byte>) {
    msg.WellFormed() && s == msg.Encode(consumeTrailer) + tail && data == DataOf(msg.chunks)
  }

  /**
   The decoder completes with `data` and unread `tail` exactly when the stream is a message holding `data`, then
   `tail`.
   */
  lemma DecodesExactly(consumeTrailer: bool, s: seq<byte>, data: seq<byte>, tail: seq<byte>)
    ensures Decode(Fresh(consumeTrailer), s) == Outcome(EndState(consumeTrailer), data, Complete, tail)
            <==> exists msg :: Holds(msg, consumeTrailer, s, data, tail)
    ensures Decode(Fresh(consumeTrailer), s).verdict == Complete
            ==> Decode(Fresh(consumeTrailer), s).m == EndState(consumeTrailer)
  {
    if Decode(Fresh(consumeTrailer), s).verdict == Complete {
      var msg, rest := MessageOf(consumeTrailer, s);
      RoundTrip(consumeTrailer, msg, rest);
      assert Holds(msg, consumeTrailer, s, DataOf(msg.chunks), rest);
    }
    if exists msg :: Holds(msg, consumeTrailer, s, data, tail) {
      var msg :| Holds(msg, consumeTrailer, s, data, tail);
      RoundTrip(consumeTrailer, msg, tail);
    }
  }

  /** However the message is cut into buffers, feeding it delivers its data and leaves what follows it. */
  lemma StreamedRoundTrip(consumeTrailer: bool, msg: Message, tail: seq<byte>, buffers: seq<seq<byte>>)
    requires msg.WellFormed() && Flatten(buffers) == msg.Encode(consumeTrailer) + tail
    ensures Feed(Fresh(consumeTrailer), buffers)
            == Outcome(EndState(consumeTrailer), DataOf(msg.chunks), Complete, tail)
  {
    FeedIsDecode(Fresh(consumeTrailer), buffers);
    RoundTrip(consumeTrailer, msg, tail);
  }

  /** A numeral cut across calls: the pending count is its value so far and fits in 64 bits. */
  lemma StreamedNumeral(consumeTrailer: bool, buffers: seq<seq<byte>>)
    requires AllHexDigits(Flatten(buffers)) && |Flatten(buffers)| <= 16
    ensures var m := Feed(Fresh(consumeTrailer), buffers).m;
            m.phase == Size && m.left == Numeral(Flatten(buffers)) < SIZE_MODULUS
  {
    FeedIsDecode(Fresh(consumeTrailer), buffers);
    DecodeDigits(consumeTrailer, Flatten(buffers));
    Pow16Of16();
    Pow16Monotone(|Flatten(buffers)|, MAX_HEX_DIGITS);
  }

  // ---------- errors ----------

  /** Reading `a` on the way to the end. */
  lemma Onwards(m: Machine, a: seq<byte>, b: seq<byte>)
    requires Decode(m, a).verdict == Incomplete && Decode(Decode(m, a).m, b).verdict == Complete
    ensures Decode(m, a + b).verdict == Complete
  {
    hide Decode;
    DecodeSplit(m, a, b);
  }

  lemma OneStep(m: Machine, b: byte)
    ensures StepMachine(m, b).Next? ==> Decode(m, [b]).verdict == Incomplete && Decode(m, [b]).m == StepMachine(m, b).m
    ensures StepMachine(m, b).Finish? ==> Decode(m, [b]).verdict == Complete
  {
    hide StepMachine;
    assert [b][1..] == [];
  }

  /** Behind the size line of the last chunk. */
  lemma EndsLast(m: Machine) returns (t: seq<byte>)
    requires m.Valid() && m.left == 0
    requires m.phase == Ext || (m.phase == Size && m.hexCount > 0) || m.phase == LineHead || m.phase == LineMiddle
    ensures Decode(m, t).verdict == Complete
  {
    hide Decode, Machine.Valid;
    assert !IsHex(LF);
    t := [LF];
    OneStep(m, LF);
    if StepMachine(m, LF).Next? {
      OneStep(StepMachine(m, LF).m, LF);
      Onwards(m, [LF], [LF]);
      t := [LF] + [LF];
    }
  }

  lemma EndsFresh(consumeTrailer: bool) returns (t: seq<byte>)
    ensures Decode(Fresh(consumeTrailer), t).verdict == Complete
  {
    hide Decode, Pow16;
    var m := Fresh(consumeTrailer);
    assert HexValue(48) == 0;
    OneStep(m, 48);
    FreshIsValid(consumeTrailer);
    StepKeepsValid(m, 48);
    var rest := EndsLast(StepMachine(m, 48).m);
    Onwards(m, [48], rest);
    t := [48] + rest;
  }

  lemma EndsCrlf(m: Machine) returns (t: seq<byte>)
    requires m.Valid() && m.phase == Crlf
    ensures Decode(m, t).verdict == Complete
  {
    hide Decode;
    OneStep(m, LF);
    var rest := EndsFresh(m.consumeTrailer);
    Onwards(m, [LF], rest);
    t := [LF] + rest;
  }

  lemma EndsData(m: Machine) returns (t: seq<byte>)
    requires m.Valid() && m.phase == Data
    ensures Decode(m, t).verdict == Complete
  {
    hide Decode;
    var block := Repeat(0, m.left);
    DecodeData(m, block);
    var rest := EndsCrlf(m.(left := 0, phase := Crlf));
    Onwards(m, block, rest);
    t := block + rest;
  }

  /** A decoder that still asks for input can be brought to the end of its message. */
  lemma CanComplete(m: Machine) returns (t: seq<byte>)
    requires m.Valid()
    ensures Decode(m, t).verdict == Complete
  {
    hide Decode, Pow16;
    match m.phase
    case Crlf => t := EndsCrlf(m);
    case Data => t := EndsData(m);
    case LineHead => t := EndsLast(m);
    case LineMiddle => t := EndsLast(m);
    case _ =>
      if m.phase == Size && m.hexCount == 0 {
        Pow16OfNone();
        t := EndsFresh(m.consumeTrailer);
      } else if m.left == 0 {
        t := EndsLast(m);
      } else {
        assert !IsHex(LF);
        OneStep(m, LF);
        StepKeepsValid(m, LF);
        var rest := EndsData(StepMachine(m, LF).m);
        Onwards(m, [LF], rest);
        t := [LF] + rest;
      }
  }

  /**
   The decoder reports an error exactly when no continuation of the stream completes a message, asks for more exactly
   when none is complete but one can still be, and completes exactly when the stream starts with one.
   */
  lemma VerdictExactly(consumeTrailer: bool, s: seq<byte>)
    ensures var r := Decode(Fresh(consumeTrailer), s);
            && (r.verdict == Malformed <==> forall t :: !StartsMessage(consumeTrailer, s + t))
            && (r.verdict == Complete <==> StartsMessage(consumeTrailer, s))
  {
    hide Decode, Machine.Valid;
    var m := Fresh(consumeTrailer);
    FreshIsValid(consumeTrailer);
    DecodeShape(m, s);
    StartsIs(consumeTrailer, s);
    var r := Decode(m, s);
    if r.verdict == Malformed {
      forall t ensures !StartsMessage(consumeTrailer, s + t) {
        DecodeSplit(m, s, t);
        StartsIs(consumeTrailer, s + t);
      }
    } else {
      var t := [];
      if r.verdict == Incomplete {
        t := CanComplete(r.m);
        Onwards(m, s, t);
      } else {
        assert s + [] == s;
      }
      StartsIs(consumeTrailer, s + t);
    }
  }

  /** A message of the grammar stands at the front. */
  ghost predicate StartsMessage(consumeTrailer: bool, s: seq<byte>) {
    exists msg: Message :: msg.WellFormed() && msg.Encode(consumeTrailer) <= s
  }

  lemma StartsIs(consumeTrailer: bool, s: seq<byte>)
    ensures StartsMessage(consumeTrailer, s) <==> Decode(Fresh(consumeTrailer), s).verdict == Complete
  {
    hide Decode, Message.WellFormed, Message.Encode;
    if Decode(Fresh(consumeTrailer), s).verdict == Complete {
      var msg, rest := MessageOf(consumeTrailer, s);
      assert msg.Encode(consumeTrailer) <= s;
    }
    if StartsMessage(consumeTrailer, s) {
      var msg: Message :| msg.WellFormed() && msg.Encode(consumeTrailer) <= s;
      var n := |msg.Encode(consumeTrailer)|;
      assert s == msg.Encode(consumeTrailer) + s[n..];
      RoundTrip(consumeTrailer, msg, s[n..]);
    }
  }
}
