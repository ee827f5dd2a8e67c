/**
 The chunked coding as a grammar (section 4.1 of RFC 7230, with the liberties the decoder takes),
 and the proof that the decoder accepts exactly this language and delivers exactly its data.
 */
module ChunkedGrammar {
  import opened Bytes
  import opened Common
  import opened ChunkedMachine

  function Numeral(digits: seq<byte>): int {
    if digits == [] then 0 else Numeral(digits[..|digits| - 1]) * 16 + HexValue(digits[|digits| - 1])
  }

  /** The decoder takes the characters of the two alphabets for digits, and no others. */
  lemma HexIs(b: byte)
    ensures IsHex(b) <==> IsHexDigit(b)
  {
    HexDigitIs(b);
  }

  lemma AllHex(s: seq<byte>)
    ensures AllHexDigits(s) <==> All(IsHex, s)
  {
    hide IsHex, IsHexDigit;
    forall k | 0 <= k < |s| ensures IsHexDigit(s[k]) == IsHex(s[k]) { HexIs(s[k]); }
  }

  /** 1 to 16 hex digits, then an extension that starts with another byte and holds no LF. */
  predicate IsSizeLine(digits: seq<byte>, ext: seq<byte>) {
    1 <= |digits| <= 16 && AllHexDigits(digits) && 10 !in ext && (ext == [] || !IsHexDigit(ext[0]))
  }

  lemma SizeLineIs(digits: seq<byte>, ext: seq<byte>)
    ensures IsSizeLine(digits, ext) <==>
            1 <= |digits| <= MAX_HEX_DIGITS && All(IsHex, digits) && LF !in ext && (ext == [] || !IsHex(ext[0]))
  {
    hide IsHex, IsHexDigit;
    AllHex(digits);
    if ext != [] { HexIs(ext[0]); }
  }

  function SizeLine(digits: seq<byte>, ext: seq<byte>): seq<byte> {
    digits + ext + [LF]
  }

  /** A chunk: size line, data, then any number of CR and an LF. The CR before the first LF is the end of `ext`. */
  datatype Chunk = Chunk(digits: seq<byte>, ext: seq<byte>, data: seq<byte>, crs: nat) {
    predicate WellFormed() {
      IsSizeLine(digits, ext) && data != [] && Numeral(digits) == |data|
    }

    function Encode(): seq<byte> {
      SizeLine(digits, ext) + (data + (Repeat(CR, crs) + [LF]))
    }
  }

  /** A trailer line; `rest` holds the CR before its LF. */
  datatype TrailerLine = TrailerLine(crs: nat, first: byte, rest: seq<byte>) {
    predicate WellFormed() {
      first != CR && first != LF && LF !in rest
    }

    function Encode(): seq<byte> {
      Repeat(CR, crs) + ([first] + rest + [LF])
    }
  }

  function EncodeChunks(chunks: seq<Chunk>): seq<byte> {
    if chunks == [] then [] else chunks[0].Encode() + EncodeChunks(chunks[1..])
  }

  function DataOf(chunks: seq<Chunk>): seq<byte> {
    if chunks == [] then [] else chunks[0].data + DataOf(chunks[1..])
  }

  function EncodeTrailer(lines: seq<TrailerLine>, crs: nat): seq<byte> {
    if lines == [] then Repeat(CR, crs) + [LF] else lines[0].Encode() + EncodeTrailer(lines[1..], crs)
  }

  datatype Message = Message(chunks: seq<Chunk>, lastDigits: seq<byte>, lastExt: seq<byte>,
                             trailer: seq<TrailerLine>, crs: nat)
  {
    predicate WellFormed() {
      && (forall c :: c in chunks ==> c.WellFormed())
      && IsSizeLine(lastDigits, lastExt) && Numeral(lastDigits) == 0
      && (forall t :: t in trailer ==> t.WellFormed())
    }

    /**
     The bytes the decoder is to read: with `consumeTrailer` up to the blank line, else up to the last chunk's line.
     */
    function Encode(consumeTrailer: bool): seq<byte> {
      EncodeChunks(chunks)
          + (SizeLine(lastDigits, lastExt) + if consumeTrailer then EncodeTrailer(trailer, crs) else [])
    }
  }

  function EndState(consumeTrailer: bool): Machine {
    Machine(0, 0, if consumeTrailer then LineHead else Ext, consumeTrailer)
  }

  // ---------- reading the pieces ----------

  lemma DecodeNothing(m: Machine)
    ensures Decode(m, []) == Outcome(m, [], Incomplete, []) && Pow16(0) == 1
  {
  }

  lemma OneByte(m: Machine, b: byte)
    requires StepMachine(m, b).Next?
    ensures Decode(m, [b]) == Outcome(StepMachine(m, b).m, StepMachine(m, b).out, Incomplete, [])
  {
    hide StepMachine;
    assert [b][1..] == [];
    assert StepMachine(m, b).out + [] == StepMachine(m, b).out;
  }

  lemma DecodeDigit(m: Machine, b: byte)
    requires m.phase == Size && m.hexCount < MAX_HEX_DIGITS && m.left < Pow16(m.hexCount) && IsHex(b)
    ensures 0 <= m.left * 16 + HexValue(b) < Pow16(m.hexCount + 1)
    ensures Decode(m, [b])
            == Outcome(m.(left := m.left * 16 + HexValue(b), hexCount := m.hexCount + 1), [], Incomplete, [])
  {
    hide HexValue, Pow16, Decode;
    NoWrap(m.left, m.hexCount, HexValue(b));
    OneByte(m, b);
  }

  /** In the middle of a numeral the pending count is its value so far. */
  lemma {:induction false} DecodeDigits(consumeTrailer: bool, digits: seq<byte>)
    requires AllHexDigits(digits) && |digits| <= 16
    ensures 0 <= Numeral(digits) < Pow16(|digits|)
    ensures Decode(Fresh(consumeTrailer), digits) ==
            Outcome(Machine(Numeral(digits), |digits|, Size, consumeTrailer), [], Incomplete, [])
  {
    hide StepMachine, Decode, HexValue, Machine.Valid, IsHexDigit, IsHex;
    DecodeNothing(Fresh(consumeTrailer));
    if digits != [] {
      hide Pow16;
      HexIs(digits[|digits| - 1]);
      var n := |digits| - 1;
      DecodeDigits(consumeTrailer, digits[..n]);
      assert digits == digits[..n] + [digits[n]];
      DecodeSplit(Fresh(consumeTrailer), digits[..n], [digits[n]]);
      DecodeDigit(Machine(Numeral(digits[..n]), n, Size, consumeTrailer), digits[n]);
    }
  }

  lemma {:induction false} DecodeNoLf(m: Machine, s: seq<byte>)
    requires m.Valid() && (m.phase == Ext || m.phase == LineMiddle) && LF !in s
    ensures Decode(m, s) == Outcome(m, [], Incomplete, [])
    decreases |s|
  {
    if s != [] {
      DecodeNoLf(m, s[1..]);
    }
  }

  lemma {:induction false} DecodeReturns(m: Machine, n: nat)
    requires m.phase == Crlf || m.phase == LineHead
    ensures Decode(m, Repeat(CR, n)) == Outcome(m, [], Incomplete, [])
  {
    if n > 0 {
      assert Repeat(CR, n)[1..] == Repeat(CR, n - 1);
      DecodeReturns(m, n - 1);
    }
  }

  function AfterSizeLine(consumeTrailer: bool, size: nat): Outcome {
    if size > 0 then Outcome(Machine(size, 0, Data, consumeTrailer), [], Incomplete, [])
    else Outcome(EndState(consumeTrailer), [], if consumeTrailer then Incomplete else Complete, [])
  }

  /** The byte behind the numeral is read as part of the extension. */
  lemma EndOfDigits(m: Machine, ext: seq<byte>)
    requires m.phase == Size && m.hexCount > 0 && (ext == [] || !IsHex(ext[0]))
    ensures Decode(m, ext + [LF]) == Decode(m.(hexCount := 0, phase := Ext), ext + [LF])
  {
    assert !IsHex(LF);
  }

  lemma EndOfSizeLine(m: Machine)
    requires m.phase == Ext && m.hexCount == 0
    ensures Prepend([], Decode(m, [LF])) == AfterSizeLine(m.consumeTrailer, m.left)
  {
    assert [LF][1..] == [];
  }

  lemma DecodeSizeLine(consumeTrailer: bool, digits: seq<byte>, ext: seq<byte>)
    requires IsSizeLine(digits, ext)
    ensures Numeral(digits) >= 0
    ensures Decode(Fresh(consumeTrailer), SizeLine(digits, ext)) == AfterSizeLine(consumeTrailer, Numeral(digits))
  {
    hide Decode, StepMachine, Pow16, HexValue, Numeral, IsHexDigit;
    SizeLineIs(digits, ext);
    DecodeDigits(consumeTrailer, digits);
    var n := Numeral(digits);
    var m' := Machine(n, 0, Ext, consumeTrailer);
    Assoc(digits, ext, [LF]);
    DecodeSplit(Fresh(consumeTrailer), digits, ext + [LF]);
    Pow16Of16();
    Pow16Monotone(|digits|, MAX_HEX_DIGITS);
    EndOfDigits(Machine(n, |digits|, Size, consumeTrailer), ext);
    DecodeNoLf(m', ext);
    DecodeSplit(m', ext, [LF]);
    EndOfSizeLine(m');
  }

  lemma DecodeChunk(consumeTrailer: bool, c: Chunk)
    requires c.WellFormed()
    ensures Decode(Fresh(consumeTrailer), c.Encode()) == Outcome(Fresh(consumeTrailer), c.data, Incomplete, [])
  {
    var end := Repeat(CR, c.crs) + [LF];
    var m := Machine(|c.data|, 0, Data, consumeTrailer);
    var m' := Machine(0, 0, Crlf, consumeTrailer);
    DecodeSizeLine(consumeTrailer, c.digits, c.ext);
    DecodeSplit(Fresh(consumeTrailer), SizeLine(c.digits, c.ext), c.data + end);
    DecodeData(m, c.data);
    DecodeSplit(m, c.data, end);
    DecodeReturns(m', c.crs);
    DecodeSplit(m', Repeat(CR, c.crs), [LF]);
    assert c.data + [] == c.data;
  }

  lemma DecodeTrailerLine(m: Machine, line: TrailerLine)
    requires line.WellFormed() && m == EndState(true)
    ensures Decode(m, line.Encode()) == Outcome(m, [], Incomplete, [])
  {
    var middle := m.(phase := LineMiddle);
    var text := [line.first] + line.rest + [LF];
    DecodeReturns(m, line.crs);
    DecodeSplit(m, Repeat(CR, line.crs), text);
    assert text[1..] == line.rest + [LF];
    assert Decode(m, text) == Prepend([], Decode(middle, line.rest + [LF]));
    DecodeNoLf(middle, line.rest);
    DecodeSplit(middle, line.rest, [LF]);
  }

  lemma {:induction false} DecodeTrailer(lines: seq<TrailerLine>, crs: nat, tail: seq<byte>)
    requires forall t :: t in lines ==> t.WellFormed()
    ensures Decode(EndState(true), EncodeTrailer(lines, crs) + tail) == Outcome(EndState(true), [], Complete, tail)
    decreases |lines|
  {
    hide Decode, TrailerLine.Encode, TrailerLine.WellFormed;
    var m := EndState(true);
    if lines == [] {
      DecodeReturns(m, crs);
      Assoc(Repeat(CR, crs), [LF], tail);
      DecodeSplit(m, Repeat(CR, crs), [LF] + tail);
      BlankLineEnds(tail);
    } else {
      DecodeTrailer(lines[1..], crs, tail);
      DecodeTrailerLine(m, lines[0]);
      var more := EncodeTrailer(lines[1..], crs) + tail;
      Assoc(lines[0].Encode(), EncodeTrailer(lines[1..], crs), tail);
      DecodeSplit(m, lines[0].Encode(), more);
    }
  }

  lemma BlankLineEnds(tail: seq<byte>)
    ensures Decode(EndState(true), [LF] + tail) == Outcome(EndState(true), [], Complete, tail)
  {
    assert ([LF] + tail)[1..] == tail;
  }

  lemma {:induction false} DecodeChunks(consumeTrailer: bool, chunks: seq<Chunk>, more: seq<byte>)
    requires forall c :: c in chunks ==> c.WellFormed()
    ensures Decode(Fresh(consumeTrailer), EncodeChunks(chunks) + more) ==
            Prepend(DataOf(chunks), Decode(Fresh(consumeTrailer), more))
    decreases |chunks|
  {
    hide Decode, Chunk.Encode, Chunk.WellFormed;
    if chunks == [] {
      assert [] + more == more;
      var r := Decode(Fresh(consumeTrailer), more).data;
      assert [] + r == r;
    } else {
      var c, rest := chunks[0], EncodeChunks(chunks[1..]) + more;
      DecodeChunks(consumeTrailer, chunks[1..], more);
      DecodeChunk(consumeTrailer, c);
      Assoc(c.Encode(), EncodeChunks(chunks[1..]), more);
      DecodeSplit(Fresh(consumeTrailer), c.Encode(), rest);
      Assoc(c.data, DataOf(chunks[1..]), Decode(Fresh(consumeTrailer), more).data);
    }
  }

  /** Round trip: whatever follows the message, the decoder delivers its data and stops right behind it. */
  lemma RoundTrip(consumeTrailer: bool, msg: Message, tail: seq<byte>)
    requires msg.WellFormed()
    ensures Decode(Fresh(consumeTrailer), msg.Encode(consumeTrailer) + tail) ==
            Outcome(EndState(consumeTrailer), DataOf(msg.chunks), Complete, tail)
  {
    var last := SizeLine(msg.lastDigits, msg.lastExt);
    var end := (if consumeTrailer then EncodeTrailer(msg.trailer, msg.crs) else []) + tail;
    assert msg.Encode(consumeTrailer) + tail == EncodeChunks(msg.chunks) + (last + end);
    DecodeChunks(consumeTrailer, msg.chunks, last + end);
    DecodeSizeLine(consumeTrailer, msg.lastDigits, msg.lastExt);
    DecodeSplit(Fresh(consumeTrailer), last, end);
    if consumeTrailer {
      DecodeTrailer(msg.trailer, msg.crs, tail);
    }
    assert DataOf(msg.chunks) + [] == DataOf(msg.chunks);
  }
}
