/**
 The scanners of the HTTP/1.x head parser, as functions on the bytes received so far.
 A scan ends at a position, asks for more input, or rejects.
 */
module HttpScan {
  import opened Bytes
  import opened Common

  const COLON: byte := 58
  const DIGIT_0: byte := 48

  /** `value` is what was read (mostly the end of a token), `next` is where reading goes on. */
  datatype Scan<+T> = Got(value: T, next: nat) | Partial | Bad {
    predicate IsFailure() { !Got? }
    function PropagateFailure<U>(): Scan<U> requires IsFailure() { if Partial? then Partial else Bad }
    function Extract(): (T, nat) requires !IsFailure() { (value, next) }
  }

  predicate IsBlank(b: byte) { b == SP || b == HT }

  predicate IsDigit(b: byte) { 48 <= b <= 57 }

  /** May stand in a method or a path. */
  predicate IsVisible(b: byte) { b > SP && b != DEL }

  /** May stand in a header value or a reason phrase. */
  predicate IsText(b: byte) { (b >= SP || b == HT) && b != DEL }

  /** May stand in a header name: `tchar` of section 3.2.6 of RFC 7230. */
  predicate IsTokenChar(b: byte) {
    || IsDigit(b) || 65 <= b <= 90 || 94 <= b <= 122
    || b == 33 || 35 <= b <= 39 || b == 42 || b == 43 || b == 45 || b == 46 || b == 124 || b == 126
  }

  /** The characters of a name that are no letters and no digits, in section 3.2.6 of RFC 7230. */
  const TOKEN_MARKS: string := "!#$%&'*+-.^_`|~"

  /** The classes of bytes, by the characters in them. */
  lemma ClassesAre(b: byte)
    ensures IsBlank(b) <==> b == ' ' as int || b == '\t' as int
    ensures IsDigit(b) <==> '0' as int <= b <= '9' as int
    ensures IsVisible(b) <==> 33 <= b <= 126 || 128 <= b
    ensures IsText(b) <==> b == '\t' as int || 32 <= b <= 126 || 128 <= b
    ensures IsTokenChar(b) <==>
              || '0' as int <= b <= '9' as int || 'A' as int <= b <= 'Z' as int || 'a' as int <= b <= 'z' as int
              || b in Codes(TOKEN_MARKS)
  {
    MarksAre(b);
  }

  lemma MarksAre(b: int)
    ensures b in Codes(TOKEN_MARKS) <==>
              b == 33 || 35 <= b <= 39 || b == 42 || b == 43 || b == 45 || b == 46 || 94 <= b <= 96 || b == 124
                  || b == 126
  {
    var x := Codes(TOKEN_MARKS);
    assert x[0] == 33 && x[1] == 35 && x[2] == 36 && x[3] == 37 && x[4] == 38 && x[5] == 39 && x[6] == 42 && x[7] == 43;
    assert x[8] == 45 && x[9] == 46 && x[10] == 94 && x[11] == 95 && x[12] == 96 && x[13] == 124 && x[14] == 126;
  }

  ghost predicate AllIn(p: byte -> bool, s: seq<byte>, i: nat, j: nat) {
    i <= j <= |s| && forall k :: i <= k < j ==> p(s[k])
  }

  /** A token that ends at a space. */
  function TokenEnd(s: seq<byte>, i: nat): (r: Scan<nat>)
    ensures r.Got? ==> r.next == r.value < |s| && s[r.value] == SP && AllIn(IsVisible, s, i, r.value)
    decreases |s| - i
  {
    if i >= |s| then Partial
    else if s[i] == SP then Got(i, i)
    else if !IsVisible(s[i]) then Bad
    else TokenEnd(s, i + 1)
  }

  lemma {:induction false} TokenEndAt(s: seq<byte>, i: nat, j: nat)
    requires j < |s| && s[j] == SP && AllIn(IsVisible, s, i, j)
    ensures TokenEnd(s, i) == Got(j, j)
    decreases j - i
  {
    if i < j { TokenEndAt(s, i + 1, j); }
  }

  /** It is waited for as long as nothing but visible bytes has come. */
  lemma {:induction false} TokenOpen(s: seq<byte>, i: nat)
    requires i <= |s|
    ensures TokenEnd(s, i).Partial? <==> AllIn(IsVisible, s, i, |s|)
    decreases |s| - i
  {
    hide IsVisible;
    if i < |s| { TokenOpen(s, i + 1); SpIsNotVisible(); }
  }

  lemma SpIsNotVisible()
    ensures !IsVisible(SP)
  {
  }

  /** A header name, with the colon behind it. */
  function NameEnd(s: seq<byte>, i: nat): (r: Scan<nat>)
    ensures r.Got? ==> r.next == r.value + 1 <= |s| && s[r.value] == COLON && AllIn(IsTokenChar, s, i, r.value)
    decreases |s| - i
  {
    if i >= |s| then Partial
    else if s[i] == COLON then Got(i, i + 1)
    else if !IsTokenChar(s[i]) then Bad
    else NameEnd(s, i + 1)
  }

  lemma {:induction false} NameEndAt(s: seq<byte>, i: nat, j: nat)
    requires j < |s| && s[j] == COLON && AllIn(IsTokenChar, s, i, j)
    ensures NameEnd(s, i) == Got(j, j + 1)
    decreases j - i
  {
    if i < j { NameEndAt(s, i + 1, j); }
  }

  /** Blanks before a header value; the byte behind them must be there. */
  function BlankEnd(s: seq<byte>, i: nat): (r: Scan<nat>)
    ensures r.Got? ==> r.next == r.value < |s| && !IsBlank(s[r.value]) && AllIn(IsBlank, s, i, r.value)
    decreases |s| - i
  {
    if i >= |s| then Partial else if IsBlank(s[i]) then BlankEnd(s, i + 1) else Got(i, i)
  }

  lemma {:induction false} BlankEndAt(s: seq<byte>, i: nat, j: nat)
    requires j < |s| && !IsBlank(s[j]) && AllIn(IsBlank, s, i, j)
    ensures BlankEnd(s, i) == Got(j, j)
    decreases j - i
  {
    if i < j { BlankEndAt(s, i + 1, j); }
  }

  /** Spaces between the parts of a first line. */
  function SpaceEnd(s: seq<byte>, i: nat): (j: nat)
    requires i <= |s|
    ensures i <= j <= |s| && (j < |s| ==> s[j] != SP) && AllIn(b => b == SP, s, i, j)
    decreases |s| - i
  {
    if i < |s| && s[i] == SP then SpaceEnd(s, i + 1) else i
  }

  lemma {:induction false} SpaceEndAt(s: seq<byte>, i: nat, j: nat)
    requires j < |s| && s[j] != SP && AllIn(b => b == SP, s, i, j)
    ensures SpaceEnd(s, i) == j
    decreases j - i
  {
    if i < j { SpaceEndAt(s, i + 1, j); }
  }

  datatype Eol = Lf | CrLf {
    function Bytes(): seq<byte> { if Lf? then [LF] else [CR, LF] }
  }

  /** A line end: LF, or CR and LF. */
  function EolAt(s: seq<byte>, i: nat): (r: Scan<Eol>)
    ensures r.Got? ==> r.next == i + |r.value.Bytes()| <= |s| && s[i..r.next] == r.value.Bytes()
  {
    if i >= |s| then Partial
    else if s[i] == LF then Got(Lf, i + 1)
    else if s[i] != CR then Bad
    else if i + 1 == |s| then Partial
    else if s[i + 1] == LF then Got(CrLf, i + 2)
    else Bad
  }

  /** Text up to the end of the line. */
  function TextEnd(s: seq<byte>, i: nat): (r: Scan<nat>)
    ensures r.Got? ==> AllIn(IsText, s, i, r.value) && EolAt(s, r.value).Got? && EolAt(s, r.value).next == r.next
    decreases |s| - i
  {
    if i >= |s| then Partial
    else if IsText(s[i]) then TextEnd(s, i + 1)
    else var (_, next) :- EolAt(s, i); Got(i, next)
  }

  lemma {:induction false} TextEndAt(s: seq<byte>, i: nat, j: nat)
    requires AllIn(IsText, s, i, j) && EolAt(s, j).Got?
    ensures TextEnd(s, i) == Got(j, EolAt(s, j).next)
    decreases j - i
  {
    if i < j { TextEndAt(s, i + 1, j); }
  }

  /** The end of `s[i..j]` without the blanks it ends in. */
  function TrimEnd(s: seq<byte>, i: nat, j: nat): (e: nat)
    requires i <= j <= |s|
    ensures i <= e <= j && AllIn(IsBlank, s, e, j) && (e > i ==> !IsBlank(s[e - 1]))
    decreases j
  {
    if j > i && IsBlank(s[j - 1]) then TrimEnd(s, i, j - 1) else j
  }

  lemma {:induction false} TrimEndAt(s: seq<byte>, i: nat, e: nat, j: nat)
    requires i <= e && AllIn(IsBlank, s, e, j) && (e > i ==> !IsBlank(s[e - 1]))
    ensures TrimEnd(s, i, j) == e
    decreases j
  {
    if e < j { TrimEndAt(s, i, e, j - 1); }
  }

  const VERSION_PREFIX: seq<byte> := [72, 84, 84, 80, 47, 49, 46]

  lemma PrefixIs()
    ensures VERSION_PREFIX == Codes("HTTP/1.") && DIGIT_0 == '0' as int && COLON == ':' as int
    ensures CR == '\r' as int && LF == '\n' as int && SP == ' ' as int
  {
  }

  /** `HTTP/1.` and a digit, read only when a byte behind the digit is there. */
  function Version(s: seq<byte>, i: nat): (r: Scan<nat>)
    ensures r.Got? ==> r.next == i + 8 < |s| && s[i..i + 7] == VERSION_PREFIX
    ensures r.Got? ==> IsDigit(s[i + 7]) && r.value == s[i + 7] - DIGIT_0
  {
    if |s| - i < 9 then Partial
    else if s[i..i + 7] != VERSION_PREFIX || !IsDigit(s[i + 7]) then Bad
    else Got(s[i + 7] - DIGIT_0, i + 8)
  }

  /** Fewer than nine bytes are not looked at; among nine, the first eight must be the prefix and a digit. */
  lemma VersionExactly(s: seq<byte>, i: nat, minor: nat)
    ensures Version(s, i).Partial? <==> |s| < i + 9
    ensures Version(s, i) == Got(minor, i + 8)
            <==> i + 9 <= |s| && minor < 10 && s[i..i + 8] == VERSION_PREFIX + [DIGIT_0 + minor]
  {
    if i + 9 <= |s| {
      assert s[i..i + 8] == s[i..i + 7] + [s[i + 7]];
      if s[i..i + 8] == VERSION_PREFIX + [s[i + 7]] { assert s[i..i + 8][..7] == VERSION_PREFIX; }
      if minor < 10 && s[i..i + 8] == VERSION_PREFIX + [DIGIT_0 + minor] {
        assert s[i..i + 8][..7] == VERSION_PREFIX && s[i..i + 8][7] == DIGIT_0 + minor;
      }
    }
  }

  // ---------- more input never changes an answer ----------

  /** An answer on the first bytes of a stream stands when more bytes are there. */
  ghost predicate Kept<T>(early: Scan<T>, late: Scan<T>) {
    early.Partial? || late == early
  }

  lemma {:induction false} TokenEndKept(s: seq<byte>, s': seq<byte>, i: nat)
    requires s <= s'
    ensures Kept(TokenEnd(s, i), TokenEnd(s', i))
    decreases |s| - i
  {
    if i < |s| { TokenEndKept(s, s', i + 1); }
  }

  lemma {:induction false} NameEndKept(s: seq<byte>, s': seq<byte>, i: nat)
    requires s <= s'
    ensures Kept(NameEnd(s, i), NameEnd(s', i))
    decreases |s| - i
  {
    if i < |s| { NameEndKept(s, s', i + 1); }
  }

  lemma {:induction false} BlankEndKept(s: seq<byte>, s': seq<byte>, i: nat)
    requires s <= s'
    ensures Kept(BlankEnd(s, i), BlankEnd(s', i))
    decreases |s| - i
  {
    if i < |s| { BlankEndKept(s, s', i + 1); }
  }

  lemma {:induction false} SpaceEndKept(s: seq<byte>, s': seq<byte>, i: nat)
    requires s <= s' && i <= |s| && SpaceEnd(s, i) < |s|
    ensures SpaceEnd(s', i) == SpaceEnd(s, i)
    decreases |s| - i
  {
    if s[i] == SP { SpaceEndKept(s, s', i + 1); }
  }

  lemma {:induction false} TextEndKept(s: seq<byte>, s': seq<byte>, i: nat)
    requires s <= s'
    ensures Kept(EolAt(s, i), EolAt(s', i)) && Kept(TextEnd(s, i), TextEnd(s', i))
    decreases |s| - i
  {
    if i < |s| { TextEndKept(s, s', i + 1); }
  }

  lemma VersionKept(s: seq<byte>, s': seq<byte>, i: nat)
    requires s <= s'
    ensures Kept(Version(s, i), Version(s', i))
  {
    if |s| - i >= 9 {
      assert s[i..i + 7] == s'[i..i + 7];
    }
  }
}
