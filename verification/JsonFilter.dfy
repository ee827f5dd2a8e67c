/**
 The check `parse` makes before it evaluates a text: four replacements by regular expressions, then a test. It passes
 a text exactly when the text is made of string literals, the three words, numbers, white space and `[ ] { } , :`,
 with every opening bracket in its place.
 */
module JsonFilter {
  import opened Common
  import opened JsonText
  import opened JsonPrint
  import opened JsonTokens
  import opened JsonLex

  // ---------- the replacements ----------

  /** First stage: the characters of `cx` become numeric escapes. */
  function ReplaceCx(text: Text): Text {
    if text == [] then []
    else if InCx(text[0]) then
      ([BACKSLASH, LOWER_U] + Last4([ZERO, ZERO, ZERO, ZERO] + ToHex(text[0]))) + ReplaceCx(text[1..])
    else [text[0]] + ReplaceCx(text[1..])
  }

  /** Character by character: those in the ranges become a backslash, `u` and the four hex digits of their value. */
  lemma CxReplaced(c: unit, rest: Text)
    ensures ReplaceCx([]) == []
    ensures ReplaceCx([c] + rest)
         == (if c == 0 || InSome(c, FORMAT_RANGES) then Codes("\\u") + Digits(c, 4) else [c]) + ReplaceCx(rest)
    ensures HexNumber(Digits(c, 4)) == Some(c) && |Digits(c, 4)| == 4
  {
    hide InCx, InSome, ToHex, Digits, HexNumber, Last4;
    ClassesAre(c);
    EscapeDigits(c);
    assert ([c] + rest)[1..] == rest;
    assert Codes("\\u") == [BACKSLASH, LOWER_U];
  }

  predicate IsPairLetter(c: unit) { Unescape(c).Some? }

  predicate IsHexText(x: Text) { forall k :: 0 <= k < |x| ==> HexValue(x[k]) >= 0 }

  /** Backslash pairs become `@`. */
  function ReplacePairs(text: Text): Text
    decreases |text|
  {
    if text == [] then []
    else if text[0] == BACKSLASH && |text| >= 2 && IsPairLetter(text[1]) then [AT_SIGN] + ReplacePairs(text[2..])
    else if text[0] == BACKSLASH && |text| >= 6 && text[1] == LOWER_U && IsHexText(text[2..6]) then
      [AT_SIGN] + ReplacePairs(text[6..])
    else [text[0]] + ReplacePairs(text[1..])
  }

  /** What follows a string literal without backslashes, behind its opening quote. */
  function SkipString(text: Text): (r: Option<Text>)
    ensures r.Some? ==> |r.value| < |text|
    decreases |text|
  {
    if text == [] || text[0] == BACKSLASH || text[0] == LF || text[0] == CR then None
    else if text[0] == QUOTE then Some(text[1..])
    else SkipString(text[1..])
  }

  function SkipFraction(text: Text): Text {
    if text != [] && text[0] == DOT then SpanDigits(text[1..]).1 else text
  }

  function SkipExponent(text: Text): Text {
    if text == [] || (text[0] != 101 && text[0] != 69) then text
    else
      var signed := |text| > 1 && (text[1] == PLUS || text[1] == MINUS);
      var (digits, rest) := SpanDigits(text[if signed then 2 else 1..]);
      if digits == [] then text else rest
  }

  /** What follows a number, in the looser form of the filter. */
  function SkipNumber(text: Text): Option<Text> {
    var (digits, rest) := SpanDigits(if text != [] && text[0] == MINUS then text[1..] else text);
    if digits == [] then None else Some(SkipExponent(SkipFraction(rest)))
  }

  /** What follows a simple value at the front, if there is one. */
  function SkipSimple(text: Text): Option<Text> {
    if text != [] && text[0] == QUOTE then SkipString(text[1..])
    else if ReadWord(text).Some? then Some(ReadWord(text).value.1)
    else SkipNumber(text)
  }

  /** Simple values become `]`. */
  function ReplaceSimple(text: Text): Text
    decreases |text|
  {
    if text == [] then []
    else
      var rest := SkipSimple(text);
      if rest.Some? && |rest.value| < |text| then [RBRACKET] + ReplaceSimple(rest.value)
      else [text[0]] + ReplaceSimple(text[1..])
  }

  /** White space of a JavaScript regular expression. */
  predicate IsSpace(c: unit) {
    || 9 <= c <= 13 || c == SPACE || c == 0xa0 || c == 0x1680 || 0x2000 <= c <= 0x200a
    || c == 0x2028 || c == 0x2029 || c == 0x202f || c == 0x205f || c == 0x3000 || c == 0xfeff
  }

  /** The length of the longest run of opening brackets, each behind any white space, at the front. */
  function OpenRun(text: Text): (n: nat)
    ensures n <= |text|
    decreases |text|
  {
    var w := SpaceRun(text);
    if w < |text| && text[w] == LBRACKET then w + 1 + OpenRun(text[w + 1..]) else 0
  }

  function SpaceRun(text: Text): (n: nat)
    ensures n <= |text|
  {
    if text == [] || !IsSpace(text[0]) then 0 else 1 + SpaceRun(text[1..])
  }

  /** Opening brackets behind a colon, a comma or the start are deleted. */
  function DropOpens(text: Text, start: bool): Text
    decreases |text|
  {
    if text == [] then []
    else if start && OpenRun(text) > 0 then DropOpens(text[OpenRun(text)..], false)
    else if (text[0] == COLON || text[0] == COMMA) && OpenRun(text[1..]) > 0 then
      DropOpens(text[1 + OpenRun(text[1..])..], false)
    else [text[0]] + DropOpens(text[1..], false)
  }

  predicate IsHarmless(c: unit) {
    c == RBRACKET || c == COMMA || c == COLON || c == LBRACE || c == RBRACE || IsSpace(c)
  }

  predicate Accepts(text: Text) {
    var left := DropOpens(ReplaceSimple(ReplacePairs(ReplaceCx(text))), true);
    forall k :: 0 <= k < |left| ==> IsHarmless(left[k])
  }

  // ---------- the form of what is accepted ----------

  const SPACES: seq<int> :=
    [9, 10, 11, 12, 13, 32, 0xa0, 0x1680, 0x2000, 0x2001, 0x2002, 0x2003, 0x2004, 0x2005, 0x2006, 0x2007, 0x2008,
     0x2009, 0x200a, 0x2028, 0x2029, 0x202f, 0x205f, 0x3000, 0xfeff]

  predicate IsSpacing(c: unit) { c in SPACES }

  lemma SpaceIs(c: unit)
    ensures IsSpace(c) <==> IsSpacing(c)
  {
    assert SPACES[0] == 9;
    if 9 <= c <= 13 { assert SPACES[c - 9] == c; }
    if 0x2000 <= c <= 0x200a { assert SPACES[c - 0x2000 + 8] == c; }
    assert SPACES[5] == 32 && SPACES[6] == 0xa0 && SPACES[7] == 0x1680 && SPACES[19] == 0x2028 && SPACES[20] == 0x2029;
    assert SPACES[21] == 0x202f && SPACES[22] == 0x205f && SPACES[23] == 0x3000 && SPACES[24] == 0xfeff;
  }

  lemma MarksNoSpacing()
    ensures !IsSpacing(LBRACKET) && !IsSpacing(COLON) && !IsSpacing(COMMA)
    ensures !IsSpacing(RBRACKET) && !IsSpacing(LBRACE) && !IsSpacing(RBRACE)
  {
    forall c: unit | c == LBRACKET || c == COLON || c == COMMA || c == RBRACKET || c == LBRACE || c == RBRACE
      ensures !IsSpacing(c)
    {
      SpaceIs(c);
    }
  }

  /**
   Only white space and `[ ] { } , :` is left, and every opening bracket stands, over white space and other opening
   brackets, behind a colon, a comma or the start.
   */
  predicate Placed(x: Text, ready: bool) {
    x == [] ||
    if x[0] == '[' as int then ready && Placed(x[1..], true)
    else if x[0] == ':' as int || x[0] == ',' as int then Placed(x[1..], true)
    else if IsSpacing(x[0]) then Placed(x[1..], ready)
    else (x[0] == ']' as int || x[0] == '{' as int || x[0] == '}' as int) && Placed(x[1..], false)
  }

  const PAIR_LETTERS: string := "\"\\/bfnrt"

  /** A part of a string literal: a character that stands for itself, a backslash pair, a numeric escape. */
  datatype Part = Plain(c: unit) | Pair(letter: unit) | Hex(digits: Text) {
    predicate WellFormed() {
      match this
      case Plain(c) => c != '\"' as int && c != '\\' as int && c != '\n' as int && c != '\r' as int
      case Pair(letter) => exists k :: 0 <= k < 8 && letter == PAIR_LETTERS[k] as int
      case Hex(digits) => |digits| == 4 && AllHexDigits(digits)
    }

    function Text(): Text {
      match this
      case Plain(c) => [c]
      case Pair(letter) => ['\\' as int, letter]
      case Hex(digits) => ['\\' as int, 'u' as int] + digits
    }

    /** What the second replacement leaves of it. */
    function Masked(): unit { if Plain? then c else '@' as int }
  }

  function PartsText(parts: seq<Part>): Text {
    if parts == [] then [] else parts[0].Text() + PartsText(parts[1..])
  }

  function PartsMasked(parts: seq<Part>): Text {
    if parts == [] then [] else [parts[0].Masked()] + PartsMasked(parts[1..])
  }

  /** A number in the looser form of the filter: leading zeros, and a point without digits behind it, are let pass. */
  predicate Loose(n: Number) {
    && AllDigits(n.digits) && n.digits != [] && (n.fraction.Some? ==> AllDigits(n.fraction.value))
    && (n.exponent.Some? ==> n.exponent.value.WellFormed())
  }

  /** What an accepted text is made of. */
  datatype Piece = StringPiece(parts: seq<Part>) | WordPiece(word: Word) | NumberPiece(n: Number) | Single(c: unit) {
    predicate WellFormed() {
      match this
      case StringPiece(parts) => forall p :: p in parts ==> p.WellFormed()
      case NumberPiece(n) => Loose(n)
      case _ => true
    }

    function Text(): Text {
      match this
      case StringPiece(parts) => ['\"' as int] + (PartsText(parts) + ['\"' as int])
      case WordPiece(word) => word.Text()
      case NumberPiece(n) => n.Text()
      case Single(c) => [c]
    }

    /** What the second replacement leaves of it. */
    function Masked(): Text {
      if StringPiece? then ['\"' as int] + (PartsMasked(parts) + ['\"' as int]) else Text()
    }

    /** What the third one makes of it. */
    function Mark(): unit { if Single? then c else ']' as int }
  }

  function PiecesText(ps: seq<Piece>): Text {
    if ps == [] then [] else ps[0].Text() + PiecesText(ps[1..])
  }

  function Marks(ps: seq<Piece>): Text {
    if ps == [] then [] else [ps[0].Mark()] + Marks(ps[1..])
  }

  /** No number is followed right away by one without a sign: they would be one number. */
  predicate Apart(ps: seq<Piece>) {
    |ps| <= 1 || (!(ps[0].NumberPiece? && ps[1].NumberPiece? && !ps[1].n.minus) && Apart(ps[1..]))
  }

  predicate AllWellFormed(ps: seq<Piece>) { forall p :: p in ps ==> p.WellFormed() }

  ghost predicate Reads(ps: seq<Piece>, text: Text) {
    AllWellFormed(ps) && PiecesText(ps) == text && Apart(ps) && Placed(Marks(ps), true)
  }

  predicate Permitted(c: unit) {
    || c == '[' as int || c == ']' as int || c == '{' as int || c == '}' as int || c == ',' as int || c == ':' as int
    || IsSpacing(c)
  }

  predicate AllPermitted(x: Text) { forall k :: 0 <= k < |x| ==> Permitted(x[k]) }

  lemma {:induction false} PlacedPermitted(x: Text, ready: bool)
    requires Placed(x, ready)
    ensures AllPermitted(x)
    decreases |x|
  {
    hide IsSpacing;
    if x != [] {
      var next := if IsSpacing(x[0]) then ready else x[0] in {LBRACKET, COLON, COMMA};
      assert Placed(x[1..], next) by { MarksNoSpacing(); }
      PlacedPermitted(x[1..], next);
      forall k | 0 <= k < |x| ensures Permitted(x[k]) { if k > 0 { assert x[k] == x[1..][k - 1]; } }
    }
  }

  // ---------- the last replacement and the test ----------

  ghost predicate AllHarmless(x: Text) { forall k :: 0 <= k < |x| ==> IsHarmless(x[k]) }

  /** White space at the front keeps the state; if no opening bracket follows it, the state does not matter. */
  lemma {:induction false} AfterSpace(x: Text)
    ensures Placed(x[SpaceRun(x)..], true) <==> Placed(x, true)
    ensures SpaceRun(x) == |x| || x[SpaceRun(x)] != LBRACKET ==> Placed(x, true) == Placed(x, false)
    decreases |x|
  {
    hide IsSpace, IsSpacing;
    MarksNoSpacing();
    if x == [] || !IsSpace(x[0]) {
      assert x[0..] == x;
      if x != [] { SpaceIs(x[0]); }
    } else {
      SpaceIs(x[0]);
      AfterSpace(x[1..]);
      assert x[1..][SpaceRun(x[1..])..] == x[SpaceRun(x)..];
    }
  }

  /** Behind the longest run of opening brackets, none is left to follow. */
  lemma {:induction false} AfterRun(x: Text)
    ensures Placed(x[OpenRun(x)..], false) <==> Placed(x, true)
    decreases |x|
  {
    hide IsSpace, IsSpacing, SpaceRun;
    MarksNoSpacing();
    var w := SpaceRun(x);
    AfterSpace(x);
    if w < |x| && x[w] == LBRACKET {
      AfterRun(x[w + 1..]);
      assert x[w..][1..] == x[w + 1..];
      assert x[w + 1..][OpenRun(x[w + 1..])..] == x[OpenRun(x)..];
    } else {
      assert x[0..] == x;
    }
  }

  lemma HarmlessConcat(c: unit, x: Text)
    ensures AllHarmless([c] + x) <==> IsHarmless(c) && AllHarmless(x)
  {
    hide IsHarmless;
    assert AllHarmless([c] + x) ==> IsHarmless(([c] + x)[0]);
    if AllHarmless([c] + x) {
      forall k | 0 <= k < |x| ensures IsHarmless(x[k]) { assert x[k] == ([c] + x)[k + 1]; }
    }
  }

  /** How one character in front changes the placing. */
  lemma PlacedStep(x: Text)
    requires x != [] && x[0] != COLON && x[0] != COMMA
    ensures Placed(x, false) <==> IsHarmless(x[0]) && Placed(x[1..], false)
  {
    hide IsSpacing, IsSpace;
    MarksNoSpacing();
    SpaceIs(x[0]);
  }

  /** Deleting the opening brackets that may be deleted leaves only harmless characters exactly when all are placed. */
  lemma {:induction false} AllDropped(x: Text, start: bool)
    ensures AllHarmless(DropOpens(x, start)) <==> Placed(x, start)
    decreases |x|
  {
    hide IsHarmless, OpenRun, AllHarmless, IsSpacing;
    if x == [] {
      NothingHarms();
    } else {
      var rest := x[1..];
      AfterRun(x);
      AfterRun(rest);
      if start && OpenRun(x) > 0 {
        AllDropped(x[OpenRun(x)..], false);
      } else if (x[0] == COLON || x[0] == COMMA) && OpenRun(rest) > 0 {
        assert rest[OpenRun(rest)..] == x[1 + OpenRun(rest)..];
        AllDropped(x[1 + OpenRun(rest)..], false);
      } else {
        assert start ==> x[0..] == x && Placed(x, true) == Placed(x, false);
        AllDropped(rest, false);
        HarmlessConcat(x[0], DropOpens(rest, false));
        if x[0] == COLON || x[0] == COMMA {
          assert rest[0..] == rest;
          CommaHarmless();
        } else {
          PlacedStep(x);
        }
      }
    }
  }

  lemma NothingHarms()
    ensures AllHarmless([])
  {
  }

  lemma CommaHarmless()
    ensures IsHarmless(COLON) && IsHarmless(COMMA)
  {
  }

  // ---------- a text made of pieces is accepted ----------

  lemma {:induction false} PairsPlain(x: Text, rest: Text)
    requires BACKSLASH !in x
    ensures ReplacePairs(x + rest) == x + ReplacePairs(rest)
    decreases |x|
  {
    if x == [] {
      assert x + rest == rest;
    } else {
      assert (x + rest)[1..] == x[1..] + rest;
      PairsPlain(x[1..], rest);
      assert x == [x[0]] + x[1..];
    }
  }

  lemma PairLetterIs(c: unit)
    ensures IsPairLetter(c) <==> Pair(c).WellFormed()
  {
    assert PAIR_LETTERS[0] as int == QUOTE && PAIR_LETTERS[1] as int == BACKSLASH && PAIR_LETTERS[2] as int == SLASH;
    assert PAIR_LETTERS[3] as int == 98 && PAIR_LETTERS[4] as int == 102 && PAIR_LETTERS[5] as int == 110;
    assert PAIR_LETTERS[6] as int == 114 && PAIR_LETTERS[7] as int == 116;
  }

  lemma HexTextIs(x: Text)
    ensures IsHexText(x) <==> AllHexDigits(x)
  {
    hide HexValue, IsHexDigit;
    forall k | 0 <= k < |x| ensures IsHexDigit(x[k]) <==> HexValue(x[k]) >= 0 { HexDigitIs(x[k]); }
  }

  lemma PairsPart(p: Part, rest: Text)
    requires p.WellFormed()
    ensures ReplacePairs(p.Text() + rest) == [p.Masked()] + ReplacePairs(rest)
  {
    hide IsPairLetter, IsHexText, AllHexDigits;
    var text := p.Text() + rest;
    match p
    case Plain(c) => PairsPlain([c], rest);
    case Pair(letter) =>
      PairLetterIs(letter);
      assert text[2..] == rest;
    case Hex(digits) =>
      HexTextIs(digits);
      UIsNoPair();
      assert text[2..6] == digits && text[6..] == rest;
  }

  lemma UIsNoPair()
    ensures !IsPairLetter(LOWER_U)
  {
  }

  lemma {:induction false} PairsParts(parts: seq<Part>, rest: Text)
    requires forall p :: p in parts ==> p.WellFormed()
    ensures ReplacePairs(PartsText(parts) + rest) == PartsMasked(parts) + ReplacePairs(rest)
    decreases |parts|
  {
    hide ReplacePairs, Part.WellFormed;
    if parts == [] {
      assert PartsText(parts) + rest == rest && PartsMasked(parts) + ReplacePairs(rest) == ReplacePairs(rest);
    } else {
      var tail := PartsText(parts[1..]);
      PairsPart(parts[0], tail + rest);
      PairsParts(parts[1..], rest);
      Assoc(parts[0].Text(), tail, rest);
    }
  }

  lemma NumberPlain(n: Number)
    requires Loose(n)
    ensures BACKSLASH !in n.Text() && AT_SIGN !in n.Text()
    ensures n.Text() != [] && (if n.minus then n.Text()[0] == MINUS else IsDecimal(n.Text()[0]))
  {
    assert BACKSLASH !in n.ExponentText() && AT_SIGN !in n.ExponentText();
    assert BACKSLASH !in n.FractionText() && AT_SIGN !in n.FractionText();
    assert BACKSLASH !in n.digits && AT_SIGN !in n.digits;
  }

  lemma PairsPiece(p: Piece, rest: Text)
    requires p.WellFormed() && (p.Single? ==> p.c != BACKSLASH)
    ensures ReplacePairs(p.Text() + rest) == p.Masked() + ReplacePairs(rest)
  {
    hide ReplacePairs, Number.Text, Loose, PartsText, PartsMasked, Part.WellFormed;
    match p
    case StringPiece(parts) =>
      assert p.Text() + rest == [QUOTE] + (PartsText(parts) + ([QUOTE] + rest));
      PairsPlain([QUOTE], PartsText(parts) + ([QUOTE] + rest));
      PairsParts(parts, [QUOTE] + rest);
      PairsPlain([QUOTE], rest);
    case WordPiece(word) => PairsPlain(word.Text(), rest);
    case NumberPiece(n) => NumberPlain(n); PairsPlain(n.Text(), rest);
    case Single(c) => PairsPlain([c], rest);
  }

  lemma {:induction false} SkipParts(parts: seq<Part>, rest: Text)
    requires forall p :: p in parts ==> p.WellFormed()
    ensures SkipString(PartsMasked(parts) + ([QUOTE] + rest)) == Some(rest)
    decreases |parts|
  {
    if parts == [] {
      assert PartsMasked(parts) + ([QUOTE] + rest) == [QUOTE] + rest;
      assert ([QUOTE] + rest)[1..] == rest;
    } else {
      assert (PartsMasked(parts) + ([QUOTE] + rest))[1..] == PartsMasked(parts[1..]) + ([QUOTE] + rest);
      assert parts[0].WellFormed();
      SkipParts(parts[1..], rest);
    }
  }

  lemma SimpleLiteral(parts: seq<Part>, rest: Text)
    requires forall p :: p in parts ==> p.WellFormed()
    ensures ReplaceSimple(StringPiece(parts).Masked() + rest) == [RBRACKET] + ReplaceSimple(rest)
  {
    hide PartsMasked, SkipString, ReadWord, SkipNumber, Part.WellFormed;
    SkipParts(parts, rest);
    var text := StringPiece(parts).Masked() + rest;
    assert text[1..] == PartsMasked(parts) + ([QUOTE] + rest);
  }

  lemma SimpleWord(w: Word, rest: Text)
    ensures ReplaceSimple(w.Text() + rest) == [RBRACKET] + ReplaceSimple(rest)
  {
    hide ReadWord, SkipNumber, SkipString;
    ReadWordText(w, rest);
    assert (w.Text() + rest)[0] == w.Text()[0];
  }

  lemma SkipExponentText(n: Number, rest: Text)
    requires Loose(n) && EndsNumber(rest)
    ensures SkipExponent(n.ExponentText() + rest) == rest
    ensures var t := n.ExponentText() + rest; t == [] || (!IsDecimal(t[0]) && t[0] != DOT)
  {
    ReadExponentText(n, rest);
  }

  lemma SkipFractionText(n: Number, rest: Text)
    requires Loose(n) && (rest == [] || (!IsDecimal(rest[0]) && rest[0] != DOT))
    ensures SkipFraction(n.FractionText() + rest) == rest
    ensures var t := n.FractionText() + rest; t == [] || !IsDecimal(t[0])
  {
    hide SpanDigits, Number.ExponentText;
    var text := n.FractionText() + rest;
    if n.fraction.Some? {
      SpanDigitsIs(n.fraction.value, rest);
      assert text[1..] == n.fraction.value + rest;
    } else {
      assert text == rest;
    }
  }

  lemma SkipNumberText(n: Number, rest: Text)
    requires Loose(n) && EndsNumber(rest)
    ensures SkipNumber(n.Text() + rest) == Some(rest)
  {
    hide SkipExponent, SkipFraction, SpanDigits, Number.ExponentText, Number.FractionText;
    SkipExponentText(n, rest);
    SkipFractionText(n, n.ExponentText() + rest);
    var after := n.FractionText() + (n.ExponentText() + rest);
    SpanDigitsIs(n.digits, after);
    var text := n.Text() + rest;
    NumberJoined(n, rest);
    if n.minus {
      assert text[1..] == n.digits + after;
    } else {
      assert text == n.digits + after && text[0] == n.digits[0];
    }
  }

  lemma SimpleNumber(n: Number, rest: Text)
    requires Loose(n) && EndsNumber(rest)
    ensures ReplaceSimple(n.Text() + rest) == [RBRACKET] + ReplaceSimple(rest)
  {
    hide SkipNumber, Number.Text, Loose;
    SkipNumberText(n, rest);
    NumberPlain(n);
    assert (n.Text() + rest)[0] == n.Text()[0];
    NoWordHere(n.Text() + rest);
  }

  lemma NoWordHere(text: Text)
    requires text != [] && text[0] != 116 && text[0] != 102 && text[0] != 110
    ensures ReadWord(text).None?
  {
  }

  lemma SimpleSingle(c: unit, rest: Text)
    requires Permitted(c)
    ensures ReplaceSimple([c] + rest) == [c] + ReplaceSimple(rest)
  {
    hide ReadWord, Permitted;
    var text := [c] + rest;
    PermittedFirst(c);
    assert text[1..] == rest;
    NoWordHere(text);
    assert SpanDigits(text).0 == [];
  }

  /** A permitted character starts no simple value, and is no part of one. */
  lemma PermittedFirst(c: unit)
    requires Permitted(c)
    ensures c != 116 && c != 102 && c != 110 && c != QUOTE && c != MINUS && !IsDecimal(c)
    ensures c != DOT && c != 101 && c != 69 && c != BACKSLASH && c != AT_SIGN
  {
    hide IsSpace, IsSpacing;
    SpaceIs(c);
    SpaceFirst(c);
  }

  lemma SpaceFirst(c: unit)
    ensures IsSpace(c) ==> c <= 32 || c >= 0xa0
  {
  }

  lemma MaskedStarts(p: Piece)
    requires p.WellFormed() && (p.NumberPiece? ==> p.n.minus) && (p.Single? ==> Permitted(p.c))
    ensures p.Masked() != [] && EndsNumber(p.Masked())
  {
    hide Permitted, Loose, Number.Text;
    match p
    case StringPiece(_) =>
    case WordPiece(_) =>
    case NumberPiece(n) => NumberPlain(n);
    case Single(c) => PermittedFirst(c);
  }

  lemma SimplePiece(p: Piece, rest: Text)
    requires p.WellFormed() && (p.NumberPiece? ==> EndsNumber(rest)) && (p.Single? ==> Permitted(p.c))
    ensures ReplaceSimple(p.Masked() + rest) == [p.Mark()] + ReplaceSimple(rest)
  {
    hide ReplaceSimple, Permitted, Loose, Number.Text, Word.Text, EndsNumber, PartsMasked, PartsText, Part.WellFormed;
    match p
    case StringPiece(parts) => SimpleLiteral(parts, rest);
    case WordPiece(word) => SimpleWord(word, rest);
    case NumberPiece(n) => SimpleNumber(n, rest);
    case Single(c) => SimpleSingle(c, rest);
  }

  lemma MarksPermitted(ps: seq<Piece>)
    requires ps != [] && AllPermitted(Marks(ps))
    ensures AllPermitted(Marks(ps[1..])) && (ps[0].Single? ==> Permitted(ps[0].c))
  {
    hide Permitted;
    assert Permitted(Marks(ps)[0]);
    forall k | 0 <= k < |Marks(ps[1..])| ensures Permitted(Marks(ps[1..])[k]) {
      assert Marks(ps)[k + 1] == Marks(ps[1..])[k];
    }
  }

  /** The second and third replacement make every piece one mark. */
  lemma {:induction false} SimplePieces(ps: seq<Piece>)
    requires AllWellFormed(ps) && Apart(ps) && AllPermitted(Marks(ps))
    ensures ReplaceSimple(ReplacePairs(PiecesText(ps))) == Marks(ps)
    ensures ps != [] && !(ps[0].NumberPiece? && !ps[0].n.minus) ==> EndsNumber(ReplacePairs(PiecesText(ps)))
    ensures ps == [] ==> ReplacePairs(PiecesText(ps)) == []
    decreases |ps|
  {
    hide ReplaceSimple, ReplacePairs, Permitted, Piece.Text, Piece.Masked, Piece.Mark, Piece.WellFormed, EndsNumber,
      AllPermitted;
    if ps == [] {
      NothingReplaced();
    } else {
      var p, rest := ps[0], PiecesText(ps[1..]);
      MarksPermitted(ps);
      assert p.WellFormed();
      SimplePieces(ps[1..]);
      SingleIsNoBackslash(p);
      PairsPiece(p, rest);
      if p.NumberPiece? && ps[1..] == [] { NothingEnds(); }
      SimplePiece(p, ReplacePairs(rest));
      if !(p.NumberPiece? && !p.n.minus) {
        MaskedStarts(p);
        EndsFirst(p.Masked(), ReplacePairs(rest));
      }
    }
  }

  lemma SingleIsNoBackslash(p: Piece)
    requires p.Single? ==> Permitted(p.c)
    ensures p.Single? ==> p.c != BACKSLASH
  {
    hide Permitted;
    if p.Single? { PermittedFirst(p.c); }
  }

  lemma NothingReplaced()
    ensures ReplacePairs([]) == [] && ReplaceSimple([]) == []
  {
  }

  lemma NothingEnds()
    ensures EndsNumber([])
  {
  }

  lemma EndsFirst(a: Text, b: Text)
    requires a != [] && EndsNumber(a)
    ensures EndsNumber(a + b)
  {
  }

  // ---------- an accepted text is made of pieces ----------

  /** As long as no `@` comes, the second replacement has changed nothing. */
  lemma {:induction false} PairsBack(t: Text, k: nat)
    requires k <= |ReplacePairs(t)| && AT_SIGN !in ReplacePairs(t)[..k]
    ensures k <= |t| && t[..k] == ReplacePairs(t)[..k] && ReplacePairs(t[k..]) == ReplacePairs(t)[k..]
    decreases k
  {
    if k == 0 {
      assert t[0..] == t;
    } else {
      hide IsPairLetter, IsHexText;
      var x := ReplacePairs(t);
      assert x[..k][0] == x[0] != AT_SIGN;
      assert x == [t[0]] + ReplacePairs(t[1..]);
      var rest := ReplacePairs(t[1..]);
      assert x[1..] == rest && x[..k] == [x[0]] + rest[..k - 1];
      PairsBack(t[1..], k - 1);
      assert t[..k] == [t[0]] + t[1..][..k - 1] && t[1..][k - 1..] == t[k..];
    }
  }

  /** A string literal of the replaced text is one of the text. */
  lemma {:induction false} StringBack(u: Text) returns (parts: seq<Part>, rest: Text)
    requires SkipString(ReplacePairs(u)).Some?
    ensures forall p :: p in parts ==> p.WellFormed()
    ensures u == PartsText(parts) + ([QUOTE] + rest) && SkipString(ReplacePairs(u)) == Some(ReplacePairs(rest))
    decreases |u|
  {
    hide IsPairLetter, IsHexText;
    if u[0] == QUOTE {
      parts, rest := [], u[1..];
      assert PartsText(parts) + ([QUOTE] + rest) == u;
    } else {
      var p, n := PartBack(u);
      parts, rest := StringBack(u[n..]);
      Assoc(p.Text(), PartsText(parts), [QUOTE] + rest);
      parts := [p] + parts;
    }
  }

  lemma PartBack(u: Text) returns (p: Part, n: nat)
    requires SkipString(ReplacePairs(u)).Some? && u != [] && u[0] != QUOTE
    ensures p.WellFormed() && 0 < n <= |u| && u == p.Text() + u[n..]
    ensures SkipString(ReplacePairs(u)) == SkipString(ReplacePairs(u[n..]))
  {
    hide IsPairLetter, IsHexText, AllHexDigits;
    if u[0] == BACKSLASH && |u| >= 2 && IsPairLetter(u[1]) {
      PairLetterIs(u[1]);
      p, n := Pair(u[1]), 2;
      assert u == [BACKSLASH, u[1]] + u[2..];
    } else if u[0] == BACKSLASH && |u| >= 6 && u[1] == LOWER_U && IsHexText(u[2..6]) {
      HexTextIs(u[2..6]);
      p, n := Hex(u[2..6]), 6;
      assert u == ([BACKSLASH, LOWER_U] + u[2..6]) + u[6..];
    } else {
      p, n := Plain(u[0]), 1;
      assert u == [u[0]] + u[1..];
    }
  }

  lemma ExponentBack(text: Text) returns (exponent: Option<Exponent>)
    ensures exponent.Some? ==> exponent.value.WellFormed()
    ensures text == (if exponent.Some? then exponent.value.Text() else []) + SkipExponent(text)
    ensures exponent.Some? ==> SkipExponent(text) == [] || !IsDecimal(SkipExponent(text)[0])
  {
    hide SpanDigits;
    exponent := None;
    if text != [] && (text[0] == 101 || text[0] == 69) {
      var signed := |text| > 1 && (text[1] == PLUS || text[1] == MINUS);
      var from := if signed then 2 else 1;
      var r := SpanDigits(text[from..]);
      if r.0 != [] {
        exponent := Some(Exponent(text[0], if signed then Some(text[1]) else None, r.0));
        assert text == text[..from] + (r.0 + r.1);
        assert exponent.value.Text() == text[..from] + r.0;
      }
    }
  }

  lemma FractionBack(text: Text) returns (fraction: Option<Text>)
    ensures fraction.Some? ==> AllDigits(fraction.value)
    ensures text == (if fraction.Some? then [DOT] + fraction.value else []) + SkipFraction(text)
    ensures text == [] || !IsDecimal(text[0]) ==> SkipFraction(text) == [] || !IsDecimal(SkipFraction(text)[0])
  {
    hide SpanDigits;
    fraction := None;
    if text != [] && text[0] == DOT {
      fraction := Some(SpanDigits(text[1..]).0);
      assert text == [DOT] + text[1..];
    }
  }

  /** What is skipped as a number is one, and no digit follows it. */
  lemma NumberBack(text: Text) returns (n: Number)
    requires SkipNumber(text).Some?
    ensures Loose(n) && text == n.Text() + SkipNumber(text).value
    ensures SkipNumber(text).value == [] || !IsDecimal(SkipNumber(text).value[0])
  {
    hide SpanDigits, SkipFraction, SkipExponent, IsDecimal, Exponent.Text, Exponent.WellFormed;
    var minus := text != [] && text[0] == MINUS;
    var r := SpanDigits(if minus then text[1..] else text);
    var fraction := FractionBack(r.1);
    var afterFraction := SkipFraction(r.1);
    var exponent := ExponentBack(afterFraction);
    var rest := SkipExponent(afterFraction);
    n := Number(minus, r.0, fraction, exponent);
    assert r.1 == n.FractionText() + (n.ExponentText() + rest);
    NumberJoined(n, rest);
    if minus { assert text == [MINUS] + text[1..]; }
  }

  /** What the third replacement does at the front. */
  lemma SimpleStep(x: Text)
    requires x != []
    ensures SkipSimple(x).Some? ==>
            |SkipSimple(x).value| < |x| && ReplaceSimple(x) == [RBRACKET] + ReplaceSimple(SkipSimple(x).value)
    ensures SkipSimple(x).None? ==> ReplaceSimple(x) == [x[0]] + ReplaceSimple(x[1..])
  {
    hide SkipString, ReadWord, SkipNumber;
    if x[0] != QUOTE && ReadWord(x).None? && SkipNumber(x).Some? {
      var n := NumberBack(x);
      assert n.Text() != [] by { NumberPlain(n); }
    }
  }

  /** The first piece of a text that the replacements leave only permitted characters of. */
  lemma FirstPiece(t: Text) returns (p: Piece, rest: Text)
    requires t != [] && AllPermitted(ReplaceSimple(ReplacePairs(t)))
    ensures p.WellFormed() && t == p.Text() + rest && |rest| < |t|
    ensures ReplaceSimple(ReplacePairs(t)) == [p.Mark()] + ReplaceSimple(ReplacePairs(rest))
    ensures p.NumberPiece? ==> rest == [] || !IsDecimal(rest[0])
  {
    hide ReplaceSimple, ReplacePairs, SkipSimple, Permitted, Piece.WellFormed, Piece.Text;
    var x := ReplacePairs(t);
    SomethingLeft(t);
    SimpleStep(x);
    if SkipSimple(x).Some? {
      p, rest := SimpleBack(t);
    } else {
      assert ReplaceSimple(x)[0] == x[0] && Permitted(x[0]);
      PermittedFirst(x[0]);
      p := Single(x[0]);
      rest := PieceBack(t, [x[0]]);
      assert p.WellFormed() && p.Text() == [x[0]] by { SingleText(x[0]); }
    }
  }

  lemma SingleText(c: unit)
    ensures Single(c).WellFormed() && Single(c).Text() == [c]
  {
  }

  lemma SomethingLeft(t: Text)
    requires t != []
    ensures ReplacePairs(t) != []
    ensures ReplacePairs(t)[0] == QUOTE ==> t[0] == QUOTE && ReplacePairs(t)[1..] == ReplacePairs(t[1..])
  {
    hide IsPairLetter, IsHexText;
  }

  lemma SimpleBack(t: Text) returns (p: Piece, rest: Text)
    requires t != [] && ReplacePairs(t) != [] && SkipSimple(ReplacePairs(t)).Some?
    ensures p.WellFormed() && !p.Single? && t == p.Text() + rest && |rest| < |t|
    ensures SkipSimple(ReplacePairs(t)) == Some(ReplacePairs(rest))
    ensures p.NumberPiece? ==> rest == [] || !IsDecimal(rest[0])
  {
    hide ReplacePairs, SkipString, SkipNumber, ReadWord, Loose, Number.Text, Word.Text, IsDecimal, Part.WellFormed;
    var x := ReplacePairs(t);
    SomethingLeft(t);
    if x[0] == QUOTE {
      var parts;
      parts, rest := StringBack(t[1..]);
      p := StringPiece(parts);
      assert t == [QUOTE] + t[1..] && p.Text() + rest == [QUOTE] + (PartsText(parts) + ([QUOTE] + rest));
    } else if ReadWord(x).Some? {
      var word := WordBack(x);
      p := WordPiece(word);
      rest := PieceBack(t, word.Text());
      SameTail(word.Text(), ReplacePairs(rest), ReadWord(x).value.1);
    } else {
      var n := NumberBack(x);
      NumberPlain(n);
      p := NumberPiece(n);
      rest := PieceBack(t, n.Text());
      SameTail(n.Text(), ReplacePairs(rest), SkipNumber(x).value);
      DigitStays(rest);
    }
  }

  lemma SameTail(a: Text, b: Text, c: Text)
    requires a + b == a + c
    ensures b == c
  {
    assert (a + b)[|a|..] == b && (a + c)[|a|..] == c;
  }

  lemma WordBack(x: Text) returns (word: Word)
    requires ReadWord(x).Some?
    ensures x == word.Text() + ReadWord(x).value.1 && AT_SIGN !in word.Text() && word.Text() != []
  {
    word := ReadWord(x).value.0;
    assert x == word.Text() + x[|word.Text()|..];
  }

  lemma PieceBack(t: Text, y: Text) returns (rest: Text)
    requires y <= ReplacePairs(t) && AT_SIGN !in y
    ensures t == y + rest && ReplacePairs(t) == y + ReplacePairs(rest)
  {
    hide ReplacePairs;
    PairsBack(t, |y|);
    rest := t[|y|..];
    assert ReplacePairs(t)[..|y|] == y;
  }

  lemma DigitStays(t: Text)
    ensures t != [] && IsDecimal(t[0]) ==> ReplacePairs(t) != [] && ReplacePairs(t)[0] == t[0]
  {
  }

  lemma StartsWithDigit(p: Piece, rest: Text)
    requires p.NumberPiece? && !p.n.minus && p.WellFormed()
    ensures p.Text() + rest != [] && IsDecimal((p.Text() + rest)[0])
  {
    hide Number.Text, Loose;
    NumberPlain(p.n);
  }

  lemma {:induction false} PiecesBack(t: Text) returns (ps: seq<Piece>)
    requires AllPermitted(ReplaceSimple(ReplacePairs(t)))
    ensures AllWellFormed(ps) && PiecesText(ps) == t && Apart(ps) && Marks(ps) == ReplaceSimple(ReplacePairs(t))
    decreases |t|
  {
    hide ReplaceSimple, ReplacePairs, Permitted, Piece.WellFormed, Piece.Text, Piece.Mark;
    if t == [] {
      NothingReplaced();
      ps := [];
    } else {
      var p, rest := FirstPiece(t);
      PermittedTail(p.Mark(), ReplaceSimple(ReplacePairs(rest)));
      var more := PiecesBack(rest);
      ps := [p] + more;
      assert ps[1..] == more;
      if more != [] && more[0].NumberPiece? && !more[0].n.minus { StartsWithDigit(more[0], PiecesText(more[1..])); }
    }
  }

  lemma PermittedTail(c: unit, x: Text)
    requires AllPermitted([c] + x)
    ensures AllPermitted(x)
  {
    hide Permitted;
    forall k | 0 <= k < |x| ensures Permitted(x[k]) { assert x[k] == ([c] + x)[k + 1]; }
  }

  lemma AcceptedOf(text: Text)
    requires Accepts(text)
    ensures exists ps :: Reads(ps, ReplaceCx(text))
  {
    hide ReplaceSimple, ReplacePairs, ReplaceCx, DropOpens, Placed, IsHarmless, Apart, AllWellFormed, PiecesText, Marks,
      AllPermitted;
    var t := ReplaceCx(text);
    AllDropped(ReplaceSimple(ReplacePairs(t)), true);
    PlacedPermitted(ReplaceSimple(ReplacePairs(t)), true);
    var ps := PiecesBack(t);
    assert Reads(ps, t);
  }

  lemma AcceptedRead(text: Text, ps: seq<Piece>)
    requires Reads(ps, ReplaceCx(text))
    ensures Accepts(text)
  {
    hide ReplaceSimple, ReplacePairs, ReplaceCx, DropOpens, Placed, IsHarmless, Apart, AllWellFormed, PiecesText, Marks,
      AllPermitted;
    PlacedPermitted(Marks(ps), true);
    SimplePieces(ps);
    AllDropped(Marks(ps), true);
  }

  /**
   The filter accepts a text exactly when what the first stage makes of it, which is what is evaluated, is made of
   string literals, the words `true`, `false` and `null`, numbers, white space and `[ ] { } , :`, with every opening
   bracket behind a colon, a comma, the start or another such bracket.
   */
  lemma FilterExactly(text: Text)
    ensures Accepts(text) <==> exists ps :: Reads(ps, ReplaceCx(text))
  {
    if Accepts(text) { AcceptedOf(text); }
    if exists ps :: Reads(ps, ReplaceCx(text)) {
      var ps :| Reads(ps, ReplaceCx(text));
      AcceptedRead(text, ps);
    }
  }

  /** Outside string literals an accepted text holds none of the characters that could call or assign. */
  lemma NoCalls(ps: seq<Piece>, text: Text, p: Piece)
    requires Reads(ps, text) && p in ps && !p.StringPiece?
    ensures '(' as int !in p.Text() && ')' as int !in p.Text() && '=' as int !in p.Text()
  {
    hide Reads, Placed, AllPermitted, Number.Text, Loose, Permitted, Apart, AllWellFormed;
    assert p.WellFormed() by { PieceThere(ps, text, p); }
    match p
    case WordPiece(_) =>
    case NumberPiece(n) => NumberHarmless(n);
    case Single(c) =>
      PieceThere(ps, text, p);
      PermittedHarmless(c);
  }

  lemma PieceThere(ps: seq<Piece>, text: Text, p: Piece)
    requires Reads(ps, text) && p in ps
    ensures p.WellFormed() && Permitted(p.Mark())
  {
    hide Placed, Permitted, Piece.WellFormed;
    PlacedPermitted(Marks(ps), true);
    MarkThere(ps, p);
  }

  lemma PermittedHarmless(c: unit)
    requires Permitted(c)
    ensures c != '(' as int && c != ')' as int && c != '=' as int
  {
    hide IsSpacing, IsSpace;
    SpaceIs(c);
    SpaceFirst(c);
  }

  lemma {:induction false} MarkThere(ps: seq<Piece>, p: Piece)
    requires p in ps && AllPermitted(Marks(ps))
    ensures Permitted(p.Mark())
    decreases |ps|
  {
    hide Permitted, Piece.Mark;
    assert Marks(ps)[0] == ps[0].Mark() && Permitted(Marks(ps)[0]);
    if p != ps[0] {
      MarksTail(ps);
      MarkThere(ps[1..], p);
    }
  }

  lemma MarksTail(ps: seq<Piece>)
    requires ps != [] && AllPermitted(Marks(ps))
    ensures AllPermitted(Marks(ps[1..]))
  {
    hide Permitted;
    PermittedTail(ps[0].Mark(), Marks(ps[1..]));
  }

  lemma NumberHarmless(n: Number)
    requires Loose(n)
    ensures '(' as int !in n.Text() && ')' as int !in n.Text() && '=' as int !in n.Text()
  {
    assert forall c :: c in {40, 41, 61} ==> c !in n.ExponentText();
    assert forall c :: c in {40, 41, 61} ==> c !in n.FractionText();
    assert forall c :: c in {40, 41, 61} ==> c !in n.digits;
  }
}
