/** JavaScript strings as UTF-16 code units, and the string literals the printer makes of them. */
module JsonText {
  import opened Common

  type unit = x: int | 0 <= x < 0x1_0000
  type Text = seq<unit>

  const TAB: unit := 9
  const LF: unit := 10
  const CR: unit := 13
  const SPACE: unit := 32
  const QUOTE: unit := 34
  const PLUS: unit := 43
  const COMMA: unit := 44
  const MINUS: unit := 45
  const DOT: unit := 46
  const SLASH: unit := 47
  const ZERO: unit := 48
  const COLON: unit := 58
  const AT_SIGN: unit := 64
  const LBRACKET: unit := 91
  const BACKSLASH: unit := 92
  const RBRACKET: unit := 93
  const LOWER_U: unit := 117
  const LBRACE: unit := 123
  const RBRACE: unit := 125

  /** A decimal digit. */
  predicate IsDecimal(c: unit) { 48 <= c <= 57 }

  /** White space of RFC 8259, section 2. */
  predicate IsWhite(c: unit) { c == TAB || c == LF || c == CR || c == SPACE }

  /** The characters the first stage of `parse` replaces. */
  predicate InCx(c: unit) {
    || c == 0 || c == 0xad || 0x600 <= c <= 0x604 || c == 0x70f || c == 0x17b4 || c == 0x17b5
    || 0x200c <= c <= 0x200f || 0x2028 <= c <= 0x202f || 0x2060 <= c <= 0x206f || c == 0xfeff || 0xfff0 <= c <= 0xffff
  }

  /** The characters a string literal must escape. */
  predicate Escapable(c: unit) {
    || c == BACKSLASH || c == QUOTE || c <= 0x1f || 0x7f <= c <= 0x9f || c == 0xad || 0x600 <= c <= 0x604 || c == 0x70f
    || c == 0x17b4 || c == 0x17b5 || 0x200c <= c <= 0x200f || 0x2028 <= c <= 0x202f || 0x2060 <= c <= 0x206f
    || c == 0xfeff || 0xfff0 <= c <= 0xffff
  }

  predicate InSome(c: int, ranges: seq<(int, int)>) {
    exists k :: 0 <= k < |ranges| && ranges[k].0 <= c <= ranges[k].1
  }

  /** The ranges both regular expressions list. */
  const FORMAT_RANGES: seq<(int, int)> :=
    [(0xad, 0xad), (0x600, 0x604), (0x70f, 0x70f), (0x17b4, 0x17b5), (0x200c, 0x200f), (0x2028, 0x202f),
     (0x2060, 0x206f), (0xfeff, 0xfeff), (0xfff0, 0xffff)]

  /** `cx` lists NUL and these; `escapable` lists these, the quote, the backslash and the control characters. */
  lemma ClassesAre(c: unit)
    ensures InCx(c) <==> c == 0 || InSome(c, FORMAT_RANGES)
    ensures Escapable(c) <==>
            InSome(c, FORMAT_RANGES) || c == '\"' as int || c == '\\' as int || c < 32 || 127 <= c <= 159
    ensures IsWhite(c) <==> c in Codes(" \t\n\r")
    ensures IsDecimal(c) <==> '0' as int <= c <= '9' as int
  {
    var r := FORMAT_RANGES;
    assert r[0] == (0xad, 0xad) && r[1] == (0x600, 0x604) && r[2] == (0x70f, 0x70f) && r[3] == (0x17b4, 0x17b5);
    assert r[4] == (0x200c, 0x200f) && r[5] == (0x2028, 0x202f) && r[6] == (0x2060, 0x206f);
    assert r[7] == (0xfeff, 0xfeff) && r[8] == (0xfff0, 0xffff);
    var w := Codes(" \t\n\r");
    assert w[0] == 32 && w[1] == 9 && w[2] == 10 && w[3] == 13;
  }

  lemma MarksAre()
    ensures [LBRACKET, RBRACKET, LBRACE, RBRACE, COMMA, COLON] == Codes("[]{},:")
    ensures [QUOTE, BACKSLASH, SLASH, LOWER_U, PLUS, MINUS, DOT, AT_SIGN] == Codes("\"\\/u+-.@")
  {
  }

  /** The table of two-character escapes: the letter behind the backslash. */
  function Meta(c: unit): Option<unit> {
    if c == 8 then Some(98)
    else if c == TAB then Some(116)
    else if c == LF then Some(110)
    else if c == 12 then Some(102)
    else if c == CR then Some(114)
    else if c == QUOTE then Some(QUOTE)
    else if c == BACKSLASH then Some(BACKSLASH)
    else None
  }

  const META_CHARACTERS: string := "\U{8}\t\n\U{C}\r\"\\"
  const META_LETTERS: string := "btnfr\"\\"

  /** Seven characters have a letter, and each its own. */
  lemma MetaIs(c: unit, letter: unit)
    ensures Meta(c) == Some(letter) <==>
            exists k :: 0 <= k < 7 && c == Codes(META_CHARACTERS)[k] && letter == Codes(META_LETTERS)[k]
  {
    var x, y := Codes(META_CHARACTERS), Codes(META_LETTERS);
    assert x[0] == 8 && x[1] == 9 && x[2] == 10 && x[3] == 12 && x[4] == 13 && x[5] == 34 && x[6] == 92;
    assert y[0] == 98 && y[1] == 116 && y[2] == 110 && y[3] == 102 && y[4] == 114 && y[5] == 34 && y[6] == 92;
  }

  function HexDigit(n: nat): unit
    requires n < 16
  {
    if n < 10 then 48 + n else 87 + n
  }

  function ToHex(n: nat): Text {
    if n < 16 then [HexDigit(n)] else ToHex(n / 16) + [HexDigit(n % 16)]
  }

  /** `slice(-4)`. */
  function Last4(x: Text): Text {
    if |x| <= 4 then x else x[|x| - 4..]
  }

  function Escape(c: unit): Text {
    match Meta(c)
    case Some(letter) => [BACKSLASH, letter]
    case None => [BACKSLASH, LOWER_U] + Last4([ZERO, ZERO, ZERO, ZERO] + ToHex(c))
  }

  /** `replace(escapable, ...)`. */
  function EscapeAll(s: Text): Text {
    if s == [] then [] else (if Escapable(s[0]) then Escape(s[0]) else [s[0]]) + EscapeAll(s[1..])
  }

  function Quote(s: Text): Text {
    if exists k :: 0 <= k < |s| && Escapable(s[k]) then [QUOTE] + EscapeAll(s) + [QUOTE] else [QUOTE] + s + [QUOTE]
  }

  /** The fast path of `quote` gives what the general path would. */
  lemma {:induction false} QuoteIsEscaped(s: Text)
    ensures Quote(s) == [QUOTE] + EscapeAll(s) + [QUOTE]
    decreases |s|
  {
    if s != [] && forall k :: 0 <= k < |s| ==> !Escapable(s[k]) {
      QuoteIsEscaped(s[1..]);
      assert s == [s[0]] + s[1..];
      var inner := Quote(s[1..]);
      assert EscapeAll(s[1..]) == inner[1..|inner| - 1] == s[1..];
    }
  }

  /** The value of a hex numeral in either case. */
  function HexNumber(x: Text): Option<nat> {
    if x == [] then Some(0)
    else
      var high :- HexNumber(x[..|x| - 1]);
      var low := HexValue(x[|x| - 1]);
      if low < 0 then None else Some(high * 16 + low)
  }

  function Zeros(k: nat): Text { seq(k, _ => ZERO) }

  /** The last `k` hex digits of `n`. */
  function Digits(n: nat, k: nat): (x: Text)
    ensures |x| == k && forall j :: 0 <= j < k ==> IsDecimal(x[j]) || 97 <= x[j] <= 102
  {
    if k == 0 then [] else Digits(n / 16, k - 1) + [HexDigit(n % 16)]
  }

  lemma {:induction false} ZeroDigits(k: nat)
    ensures Digits(0, k) == Zeros(k)
  {
    if k > 0 { ZeroDigits(k - 1); }
  }

  lemma {:induction false} PaddedHex(n: nat, k: nat)
    requires 1 <= k && n < Pow16(k)
    ensures |ToHex(n)| <= k && Zeros(k - |ToHex(n)|) + ToHex(n) == Digits(n, k)
    decreases k
  {
    if n < 16 {
      ZeroDigits(k - 1);
    } else {
      PaddedHex(n / 16, k - 1);
      assert ToHex(n) == ToHex(n / 16) + [HexDigit(n % 16)];
      assert Zeros(k - |ToHex(n)|) + ToHex(n) == (Zeros(k - 1 - |ToHex(n / 16)|) + ToHex(n / 16)) + [HexDigit(n % 16)];
    }
  }

  /** The numeric escape is four hex digits with the value of the character. */
  lemma EscapeDigits(c: unit)
    ensures Last4([ZERO, ZERO, ZERO, ZERO] + ToHex(c)) == Digits(c, 4)
    ensures HexNumber(Digits(c, 4)) == Some(c)
  {
    assert Pow16(4) == 0x1_0000;
    PaddedHex(c, 4);
    var h := ToHex(c);
    assert [ZERO, ZERO, ZERO, ZERO] + h == Zeros(|h|) + (Zeros(4 - |h|) + h);
    assert Last4([ZERO, ZERO, ZERO, ZERO] + h) == Digits(c, 4);
    DigitsValue(c, 4);
  }

  lemma HexDigitValue(n: nat)
    requires n < 16
    ensures HexValue(HexDigit(n)) == n
  {
  }

  lemma NumberStep(x: Text, c: unit)
    ensures HexNumber([]) == Some(0)
    ensures HexNumber(x).Some? && HexValue(c) >= 0 ==> HexNumber(x + [c]) == Some(HexNumber(x).value * 16 + HexValue(c))
  {
    hide HexValue;
    assert (x + [c])[..|x|] == x;
  }

  lemma {:induction false} DigitsValue(n: nat, k: nat)
    requires n < Pow16(k)
    ensures HexNumber(Digits(n, k)) == Some(n)
    decreases k
  {
    hide HexValue, HexDigit, HexNumber;
    if k == 0 {
      NumberStep([], ZERO);
    } else {
      DigitsValue(n / 16, k - 1);
      HexDigitValue(n % 16);
      NumberStep(Digits(n / 16, k - 1), HexDigit(n % 16));
      assert n == n / 16 * 16 + n % 16;
    }
  }
}
