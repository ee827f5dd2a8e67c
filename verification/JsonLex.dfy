/** Reading JSON text back into tokens (RFC 8259, sections 2, 6 and 7), and taking white space out of it. */
module JsonLex {
  import opened Common
  import opened JsonText
  import opened JsonPrint
  import opened JsonTokens

  // ---------- strings ----------

  /** The character a two-character escape stands for. */
  function Unescape(letter: unit): Option<unit> {
    if letter == QUOTE || letter == BACKSLASH || letter == SLASH then Some(letter)
    else if letter == 98 then Some(8)
    else if letter == 102 then Some(12)
    else if letter == 110 then Some(LF)
    else if letter == 114 then Some(CR)
    else if letter == 116 then Some(TAB)
    else None
  }

  function After(c: unit, r: Option<(Text, Text)>): Option<(Text, Text)> {
    if r.None? then None else Some(([c] + r.value.0, r.value.1))
  }

  /** The contents of a string literal behind its opening quote, and what follows its closing quote. */
  function ReadString(text: Text): (r: Option<(Text, Text)>)
    ensures r.Some? ==> |r.value.1| < |text|
    decreases |text|
  {
    if text == [] || text[0] < 0x20 then None
    else if text[0] == QUOTE then Some(([], text[1..]))
    else if text[0] != BACKSLASH then After(text[0], ReadString(text[1..]))
    else if |text| >= 6 && text[1] == LOWER_U then
      var c :- HexNumber(text[2..6]);
      if c >= 0x1_0000 then None else After(c, ReadString(text[6..]))
    else if |text| >= 2 then
      var c :- Unescape(text[1]);
      After(c, ReadString(text[2..]))
    else None
  }

  /** The two shapes of an escape. */
  lemma EscapeForm(c: unit)
    requires Escapable(c)
    ensures if Meta(c).Some? then Escape(c) == [BACKSLASH, Meta(c).value] && Unescape(Meta(c).value) == Some(c)
            else Escape(c) == [BACKSLASH, LOWER_U] + Digits(c, 4) && HexNumber(Digits(c, 4)) == Some(c)
  {
    hide ToHex, Digits, HexNumber, Last4;
    EscapeDigits(c);
  }

  /** How one character stands in a literal. */
  function Literal(c: unit): Text { if Escapable(c) then Escape(c) else [c] }

  lemma ReadLiteral(c: unit, more: Text)
    ensures ReadString(Literal(c) + more) == After(c, ReadString(more))
  {
    hide Escape, Digits, HexNumber;
    var text := Literal(c) + more;
    if !Escapable(c) {
      assert text[1..] == more;
    } else {
      EscapeForm(c);
      if Meta(c).Some? {
        assert text[2..] == more;
      } else {
        assert text[2..6] == Digits(c, 4) && text[6..] == more;
      }
    }
  }

  lemma {:induction false} ReadEscaped(s: Text, rest: Text)
    ensures ReadString(EscapeAll(s) + ([QUOTE] + rest)) == Some((s, rest))
    decreases |s|
  {
    hide Literal, Escapable, ReadString;
    if s == [] {
      ReadClose(rest);
    } else {
      hide EscapeAll;
      var tail := EscapeAll(s[1..]);
      ReadEscaped(s[1..], rest);
      ReadLiteral(s[0], tail + ([QUOTE] + rest));
      LiteralFirst(s);
      Assoc(Literal(s[0]), tail, [QUOTE] + rest);
      assert [s[0]] + s[1..] == s;
    }
  }

  lemma ReadClose(rest: Text)
    ensures ReadString(EscapeAll([]) + ([QUOTE] + rest)) == Some(([], rest))
  {
    assert EscapeAll([]) + ([QUOTE] + rest) == [QUOTE] + rest;
    assert ([QUOTE] + rest)[1..] == rest;
  }

  lemma LiteralFirst(s: Text)
    requires s != []
    ensures EscapeAll(s) == Literal(s[0]) + EscapeAll(s[1..])
  {
  }

  // ---------- numbers ----------

  /** The longest run of digits, and the rest. */
  function SpanDigits(text: Text): (r: (Text, Text))
    ensures text == r.0 + r.1 && AllDigits(r.0) && (r.1 != [] ==> !IsDecimal(r.1[0]))
  {
    if text == [] || !IsDecimal(text[0]) then ([], text)
    else var r := SpanDigits(text[1..]); ([text[0]] + r.0, r.1)
  }

  lemma {:induction false} SpanDigitsIs(digits: Text, rest: Text)
    requires AllDigits(digits) && (rest == [] || !IsDecimal(rest[0]))
    ensures SpanDigits(digits + rest) == (digits, rest)
    decreases |digits|
  {
    if digits == [] {
      assert digits + rest == rest;
    } else {
      assert (digits + rest)[1..] == digits[1..] + rest;
      assert digits == [digits[0]] + digits[1..];
      SpanDigitsIs(digits[1..], rest);
    }
  }

  function ReadFraction(text: Text): Option<(Option<Text>, Text)> {
    if text == [] || text[0] != DOT then Some((None, text))
    else
      var (digits, rest) := SpanDigits(text[1..]);
      if digits == [] then None else Some((Some(digits), rest))
  }

  function ReadExponent(text: Text): Option<(Option<Exponent>, Text)> {
    if text == [] || (text[0] != 101 && text[0] != 69) then Some((None, text))
    else
      var signed := |text| > 1 && (text[1] == PLUS || text[1] == MINUS);
      var (digits, rest) := SpanDigits(text[if signed then 2 else 1..]);
      if digits == [] then None
      else Some((Some(Exponent(text[0], if signed then Some(text[1]) else None, digits)), rest))
  }

  /** A number of RFC 8259, section 6, as long as it goes. */
  function ReadNumber(text: Text): Option<(Number, Text)> {
    var minus := text != [] && text[0] == MINUS;
    var (digits, afterDigits) := SpanDigits(if minus then text[1..] else text);
    if digits == [] || (|digits| > 1 && digits[0] == ZERO) then None
    else
      var (fraction, afterFraction) :- ReadFraction(afterDigits);
      var (exponent, rest) :- ReadExponent(afterFraction);
      Some((Number(minus, digits, fraction, exponent), rest))
  }

  /** No part of a number starts here. */
  predicate EndsNumber(rest: Text) {
    rest == [] || (!IsDecimal(rest[0]) && rest[0] != DOT && rest[0] != 101 && rest[0] != 69)
  }

  lemma ReadExponentText(n: Number, rest: Text)
    requires (n.exponent.Some? ==> n.exponent.value.WellFormed()) && EndsNumber(rest)
    ensures ReadExponent(n.ExponentText() + rest) == Some((n.exponent, rest))
    ensures var t := n.ExponentText() + rest; t == [] || (!IsDecimal(t[0]) && t[0] != DOT)
  {
    if n.exponent.None? {
      assert n.ExponentText() + rest == rest;
    } else if n.exponent.value.sign.Some? {
      SignedExponent(n.exponent.value, rest);
    } else {
      PlainExponent(n.exponent.value, rest);
    }
  }

  lemma SignedExponent(x: Exponent, rest: Text)
    requires x.WellFormed() && x.sign.Some? && EndsNumber(rest)
    ensures ReadExponent(x.Text() + rest) == Some((Some(x), rest))
  {
    hide SpanDigits, IsDecimal;
    var text := x.Text() + rest;
    SpanDigitsIs(x.digits, rest);
    assert text == [x.e, x.sign.value] + (x.digits + rest);
    assert text[2..] == x.digits + rest;
  }

  lemma PlainExponent(x: Exponent, rest: Text)
    requires x.WellFormed() && x.sign.None? && EndsNumber(rest)
    ensures ReadExponent(x.Text() + rest) == Some((Some(x), rest))
  {
    hide SpanDigits;
    var text := x.Text() + rest;
    SpanDigitsIs(x.digits, rest);
    assert text == [x.e] + (x.digits + rest);
    assert text[1..] == x.digits + rest && text[1] == x.digits[0];
  }

  lemma ReadFractionText(n: Number, rest: Text)
    requires n.WellFormed() && (rest == [] || (!IsDecimal(rest[0]) && rest[0] != DOT))
    ensures ReadFraction(n.FractionText() + rest) == Some((n.fraction, rest))
    ensures var t := n.FractionText() + rest; t == [] || !IsDecimal(t[0])
  {
    hide SpanDigits, Number.ExponentText, Exponent.WellFormed;
    var text := n.FractionText() + rest;
    if n.fraction.Some? {
      SpanDigitsIs(n.fraction.value, rest);
      assert text[1..] == n.fraction.value + rest;
    } else {
      assert text == rest;
    }
  }

  lemma NumberJoined(n: Number, rest: Text)
    ensures n.Text() + rest
         == (if n.minus then [MINUS] else []) + (n.digits + (n.FractionText() + (n.ExponentText() + rest)))
  {
    hide Number.FractionText, Number.ExponentText;
  }

  lemma ReadNumberText(n: Number, rest: Text)
    requires n.WellFormed() && EndsNumber(rest)
    ensures ReadNumber(n.Text() + rest) == Some((n, rest))
    ensures n.Text() != [] && (n.Text()[0] == MINUS || IsDecimal(n.Text()[0]))
  {
    hide ReadExponent, ReadFraction, SpanDigits, Number.ExponentText, Number.FractionText, Exponent.WellFormed;
    ReadExponentText(n, rest);
    ReadFractionText(n, n.ExponentText() + rest);
    var after := n.FractionText() + (n.ExponentText() + rest);
    SpanDigitsIs(n.digits, after);
    var text := n.Text() + rest;
    NumberJoined(n, rest);
    if n.minus {
      assert text[1..] == n.digits + after;
    } else {
      assert text == n.digits + after && text[0] == n.digits[0];
    }
  }

  lemma ReadFractionForm(text: Text)
    ensures var r := ReadFraction(text);
            r.Some? && r.value.0.Some? ==> AllDigits(r.value.0.value) && r.value.0.value != []
  {
    hide SpanDigits;
  }

  lemma ReadExponentForm(text: Text)
    ensures var r := ReadExponent(text);
            r.Some? && r.value.0.Some? ==> r.value.0.value.WellFormed()
  {
    hide SpanDigits;
  }

  /** The well-formed numbers are those whose whole text the reader takes for them. */
  lemma NumberExactly(n: Number)
    ensures n.WellFormed() <==> ReadNumber(n.Text()) == Some((n, []))
  {
    hide ReadExponent, ReadFraction, SpanDigits, Number.Text, Exponent.WellFormed;
    var text := n.Text();
    if n.WellFormed() {
      ReadNumberText(n, []);
      assert text + [] == text;
    }
    var r := SpanDigits(if text != [] && text[0] == MINUS then text[1..] else text);
    ReadFractionForm(r.1);
    if ReadFraction(r.1).Some? { ReadExponentForm(ReadFraction(r.1).value.1); }
  }

  // ---------- words and whole texts ----------

  function ReadWord(text: Text): (r: Option<(Word, Text)>)
    ensures r.Some? ==> |r.value.1| < |text|
  {
    if TrueWord.Text() <= text then Some((TrueWord, text[4..]))
    else if FalseWord.Text() <= text then Some((FalseWord, text[5..]))
    else if NullWord.Text() <= text then Some((NullWord, text[4..]))
    else None
  }

  lemma ReadWordText(w: Word, rest: Text)
    ensures ReadWord(w.Text() + rest) == Some((w, rest))
    ensures w.Text()[0] in {116, 102, 110}
  {
    assert (w.Text() + rest)[|w.Text()|..] == rest;
    assert (w.Text() + rest)[0] == w.Text()[0];
  }

  /** The tokens of a text without its white space. */
  function Lex(text: Text): Option<seq<Tok>>
    decreases |text|
  {
    if text == [] then Some([])
    else if IsWhite(text[0]) then Lex(text[1..])
    else if IsMark(text[0]) then
      var more :- Lex(text[1..]);
      Some([Mark(text[0])] + more)
    else if text[0] == QUOTE then
      var (s, rest) :- ReadString(text[1..]);
      var more :- Lex(rest);
      Some([Quoted(s)] + more)
    else if text[0] == MINUS || IsDecimal(text[0]) then
      var (n, rest) :- ReadNumber(text);
      if |rest| >= |text| then None
      else
        var more :- Lex(rest);
        Some([NumberTok(n)] + more)
    else
      var (w, rest) :- ReadWord(text);
      var more :- Lex(rest);
      Some([WordTok(w)] + more)
  }

  lemma EndsAsText(toks: seq<Tok>)
    requires Neat(toks) && Ends(toks)
    ensures EndsNumber(Render(toks))
  {
    if toks != [] { assert Render(toks)[0] == toks[0].Text()[0]; }
  }

  /** Reading the text of neat tokens gives the tokens back, without the blanks. */
  lemma {:induction false} LexRender(toks: seq<Tok>)
    requires Neat(toks)
    ensures Lex(Render(toks)) == Some(NoBlanks(toks))
    decreases |toks|
  {
    if toks != [] {
      var tok, rest := toks[0], Render(toks[1..]);
      LexRender(toks[1..]);
      LexOne(tok, toks[1..]);
    }
  }

  lemma LexOne(tok: Tok, toks: seq<Tok>)
    requires TokOk(tok) && Neat(toks) && (tok.NumberTok? ==> Ends(toks))
    requires Lex(Render(toks)) == Some(NoBlanks(toks))
    ensures Lex(tok.Text() + Render(toks)) == Some((if tok.Blank? then [] else [tok]) + NoBlanks(toks))
  {
    match tok
    case Mark(c) => assert ([c] + Render(toks))[1..] == Render(toks);
    case Blank(w) =>
      assert ([w] + Render(toks))[1..] == Render(toks);
      assert [] + NoBlanks(toks) == NoBlanks(toks);
    case Quoted(s) => LexQuoted(s, Render(toks));
    case WordTok(w) => LexWord(w, Render(toks));
    case NumberTok(n) =>
      EndsAsText(toks);
      LexNumber(n, Render(toks));
  }

  /** One token before the tokens of the rest. */
  function Onto(tok: Tok, more: Option<seq<Tok>>): Option<seq<Tok>> {
    if more.None? then None else Some([tok] + more.value)
  }

  lemma LexQuoted(s: Text, rest: Text)
    ensures Lex(Quote(s) + rest) == Onto(Quoted(s), Lex(rest))
  {
    hide Quote, EscapeAll, ReadString;
    QuoteIsEscaped(s);
    ReadEscaped(s, rest);
    assert (Quote(s) + rest)[1..] == EscapeAll(s) + ([QUOTE] + rest);
  }

  lemma LexWord(w: Word, rest: Text)
    ensures Lex(w.Text() + rest) == Onto(WordTok(w), Lex(rest))
  {
    hide ReadWord;
    ReadWordText(w, rest);
    assert (w.Text() + rest)[0] == w.Text()[0];
  }

  lemma LexNumber(n: Number, rest: Text)
    requires n.WellFormed() && EndsNumber(rest)
    ensures Lex(n.Text() + rest) == Onto(NumberTok(n), Lex(rest))
  {
    hide ReadNumber, Number.Text, Number.WellFormed;
    ReadNumberText(n, rest);
    assert (n.Text() + rest)[0] == n.Text()[0];
  }

  // ---------- white space outside strings ----------

  /** Deletes white space outside string literals. */
  function Strip(text: Text, inString: bool): Text
    decreases |text|
  {
    if text == [] then []
    else if !inString then
      (if IsWhite(text[0]) then [] else [text[0]]) + Strip(text[1..], text[0] == QUOTE)
    else if text[0] == BACKSLASH && |text| > 1 then text[..2] + Strip(text[2..], true)
    else [text[0]] + Strip(text[1..], text[0] != QUOTE)
  }

  lemma StripKept(text: Text)
    requires text != [] && !IsWhite(text[0]) && text[0] != QUOTE
    ensures Strip(text, false) == [text[0]] + Strip(text[1..], false)
  {
  }

  lemma {:induction false} StripSolid(x: Text, rest: Text)
    requires forall k :: 0 <= k < |x| ==> !IsWhite(x[k]) && x[k] != QUOTE
    ensures Strip(x + rest, false) == x + Strip(rest, false)
    decreases |x|
  {
    hide Strip;
    if x == [] {
      assert x + rest == rest;
    } else {
      assert (x + rest)[1..] == x[1..] + rest && (x + rest)[0] == x[0];
      StripKept(x + rest);
      StripSolid(x[1..], rest);
      assert [x[0]] + (x[1..] + Strip(rest, false)) == x + Strip(rest, false);
    }
  }

  lemma StripOne(text: Text)
    requires text != [] && text[0] != BACKSLASH && text[0] != QUOTE
    ensures Strip(text, true) == [text[0]] + Strip(text[1..], true)
  {
  }

  lemma {:induction false} StripPlain(x: Text, rest: Text)
    requires forall k :: 0 <= k < |x| ==> x[k] != BACKSLASH && x[k] != QUOTE
    ensures Strip(x + rest, true) == x + Strip(rest, true)
    decreases |x|
  {
    hide Strip;
    if x == [] {
      assert x + rest == rest;
    } else {
      assert (x + rest)[1..] == x[1..] + rest && (x + rest)[0] == x[0];
      StripOne(x + rest);
      StripPlain(x[1..], rest);
      assert [x[0]] + (x[1..] + Strip(rest, true)) == x + Strip(rest, true);
    }
  }

  lemma StripPair(letter: unit, rest: Text)
    ensures Strip([BACKSLASH, letter] + rest, true) == [BACKSLASH, letter] + Strip(rest, true)
  {
    var text := [BACKSLASH, letter] + rest;
    assert text[..2] == [BACKSLASH, letter] && text[2..] == rest;
  }

  lemma StripLiteral(c: unit, rest: Text)
    ensures Strip(Literal(c) + rest, true) == Literal(c) + Strip(rest, true)
  {
    hide Strip, Escape, Digits;
    if !Escapable(c) {
      StripPlain([c], rest);
    } else {
      EscapeForm(c);
      if Meta(c).Some? {
        StripPair(Meta(c).value, rest);
      } else {
        var d := Digits(c, 4);
        StripPair(LOWER_U, d + rest);
        StripPlain(d, rest);
        Assoc([BACKSLASH, LOWER_U], d, rest);
        Assoc([BACKSLASH, LOWER_U], d, Strip(rest, true));
      }
    }
  }

  lemma {:induction false} StripEscaped(s: Text, rest: Text)
    ensures Strip(EscapeAll(s) + ([QUOTE] + rest), true) == EscapeAll(s) + ([QUOTE] + Strip(rest, false))
    decreases |s|
  {
    hide Literal, Escapable, Strip;
    if s == [] {
      StripClose(rest);
    } else {
      hide EscapeAll;
      var tail := EscapeAll(s[1..]);
      StripEscaped(s[1..], rest);
      StripLiteral(s[0], tail + ([QUOTE] + rest));
      LiteralFirst(s);
      Assoc(Literal(s[0]), tail, [QUOTE] + rest);
      Assoc(Literal(s[0]), tail, [QUOTE] + Strip(rest, false));
    }
  }

  lemma StripClose(rest: Text)
    ensures Strip(EscapeAll([]) + ([QUOTE] + rest), true) == EscapeAll([]) + ([QUOTE] + Strip(rest, false))
  {
    assert EscapeAll([]) + ([QUOTE] + rest) == [QUOTE] + rest;
    assert ([QUOTE] + rest)[1..] == rest;
  }

  lemma NumberSolid(n: Number)
    requires n.WellFormed()
    ensures forall k :: 0 <= k < |n.Text()| ==> !IsWhite(n.Text()[k]) && n.Text()[k] != QUOTE
  {
    var e := n.ExponentText();
    assert forall k :: 0 <= k < |e| ==> !IsWhite(e[k]) && e[k] != QUOTE;
    var f := n.FractionText();
    assert forall k :: 0 <= k < |f| ==> !IsWhite(f[k]) && f[k] != QUOTE;
    assert forall k :: 0 <= k < |n.digits| ==> !IsWhite(n.digits[k]) && n.digits[k] != QUOTE;
  }

  lemma StripOpens(text: Text)
    ensures Strip([QUOTE] + text, false) == [QUOTE] + Strip(text, true)
  {
    assert ([QUOTE] + text)[1..] == text;
  }

  lemma StripQuoted(s: Text, rest: Text)
    ensures Strip(Quote(s) + rest, false) == Quote(s) + Strip(rest, false)
  {
    hide Quote, EscapeAll, Strip;
    var e := EscapeAll(s);
    QuoteIsEscaped(s);
    StripEscaped(s, rest);
    assert Quote(s) + rest == [QUOTE] + (e + ([QUOTE] + rest));
    StripOpens(e + ([QUOTE] + rest));
    assert [QUOTE] + (e + ([QUOTE] + Strip(rest, false))) == Quote(s) + Strip(rest, false);
  }

  lemma StripTok(tok: Tok, rest: Text)
    requires TokOk(tok)
    ensures Strip(tok.Text() + rest, false) == (if tok.Blank? then [] else tok.Text()) + Strip(rest, false)
  {
    match tok
    case Mark(c) => StripSolid([c], rest);
    case Blank(w) => assert ([w] + rest)[1..] == rest;
    case WordTok(w) => StripSolid(w.Text(), rest);
    case NumberTok(n) => hide Number.Text; NumberSolid(n); StripSolid(n.Text(), rest);
    case Quoted(s) => hide Strip, Quote; StripQuoted(s, rest);
  }

  /** On the text of neat tokens, deleting white space outside strings is deleting the blank tokens. */
  lemma {:induction false} StripRender(toks: seq<Tok>)
    requires Neat(toks)
    ensures Strip(Render(toks), false) == Render(NoBlanks(toks))
    decreases |toks|
  {
    if toks != [] {
      StripRender(toks[1..]);
      StripTok(toks[0], Render(toks[1..]));
      var kept := if toks[0].Blank? then [] else [toks[0]];
      RenderOne(toks[0]);
      RenderConcat(kept, NoBlanks(toks[1..]));
    }
  }

  /** Indentation only adds white space: without it, outside strings, the indented text is the compact text. */
  lemma IndentationOnly(v: Json, indent: Text)
    requires NumbersWellFormed(v) && AllWhite(indent) && !v.Undef?
    ensures Print(v, [], indent).Some? && Print(v, [], []).Some?
    ensures Strip(Print(v, [], indent).value, false) == Print(v, [], []).value
  {
    NeatTokens(v, [], indent);
    StripRender(Tokens(v, [], indent));
    NoBlanksTokens(v, [], indent);
  }
}
