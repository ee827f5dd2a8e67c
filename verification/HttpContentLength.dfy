/** The content length a header block announces, as the parser computes it in a 32-bit `int`. */
module HttpContentLength {
  import opened Bytes
  import opened Common
  import opened HttpScan
  import opened HttpParse

  const INT_MODULUS: int := 0x1_0000_0000
  const INT_LIMIT: int := 0x8000_0000

  /** The value of `x` in 32 bits, two's complement. */
  function Int32(x: int): (r: int)
    ensures -INT_LIMIT <= r < INT_LIMIT && (r == x <==> -INT_LIMIT <= x < INT_LIMIT)
  {
    (x + INT_LIMIT) % INT_MODULUS - INT_LIMIT
  }

  const CONTENT_LENGTH: seq<byte> := [99, 111, 110, 116, 101, 110, 116, 45, 108, 101, 110, 103, 116, 104]

  function Lower(b: byte): byte { if 65 <= b <= 90 then b + 32 else b }

  /** The name is `content-length` in any letter case. */
  predicate IsContentLength(name: seq<byte>) {
    |name| == |CONTENT_LENGTH| && forall k :: 0 <= k < |name| ==> Lower(name[k]) == CONTENT_LENGTH[k]
  }

  /** Every character in either letter case. */
  lemma NameIs(name: seq<byte>)
    ensures IsContentLength(name) <==>
              && |name| == |"content-length"|
              && forall k :: 0 <= k < |name| ==>
                   name[k] == Codes("content-length")[k] || name[k] == Codes("CONTENT-LENGTH")[k]
  {
    assert CONTENT_LENGTH == Codes("content-length");
    assert forall k :: 0 <= k < 14 ==>
      Codes("CONTENT-LENGTH")[k] == if k == 7 then 45 else Codes("content-length")[k] - 32;
  }

  predicate NamesLength(h: Header, s: seq<byte>)
    requires h.Inside(s)
  {
    h.name.Named? && IsContentLength(h.name.span.Of(s))
  }

  function LeadingDigits(x: seq<byte>): (d: seq<byte>)
    ensures d <= x && All(IsDigit, d) && (|d| < |x| ==> !IsDigit(x[|d|]))
  {
    if x == [] || !IsDigit(x[0]) then [] else [x[0]] + LeadingDigits(x[1..])
  }

  function Decimal(digits: seq<byte>): nat
    requires All(IsDigit, digits)
  {
    if digits == [] then 0 else Decimal(digits[..|digits| - 1]) * 10 + (digits[|digits| - 1] - DIGIT_0)
  }

  /** The number a field announces, without a bound. */
  function Announced(h: Header, s: seq<byte>): nat
    requires h.Inside(s)
  {
    Decimal(LeadingDigits(h.value.Of(s)))
  }

  /** The last field of that name decides; without one the caller's value stands. */
  function ContentLength(s: seq<byte>, hs: seq<Header>, before: int): int
    requires AllInside(hs, s)
  {
    if hs == [] then before
    else if NamesLength(hs[|hs| - 1], s) then Int32(Announced(hs[|hs| - 1], s))
    else ContentLength(s, hs[..|hs| - 1], before)
  }

  /** Wrapping after every digit is wrapping once at the end. */
  lemma WrapStep(a: int, d: int)
    ensures Int32(Int32(a) * 10 + d) == Int32(a * 10 + d)
  {
    var q := (a + INT_LIMIT) / INT_MODULUS;
    assert Int32(a) == a - q * INT_MODULUS;
    var y := a * 10 + d;
    assert Int32(a) * 10 + d == y - (q * 10) * INT_MODULUS;
    WrapShift(y, q * 10);
  }

  lemma WrapShift(y: int, k: int)
    ensures Int32(y - k * INT_MODULUS) == Int32(y)
  {
    var x := y + INT_LIMIT;
    assert x == x / INT_MODULUS * INT_MODULUS + x % INT_MODULUS;
    assert x - k * INT_MODULUS == (x / INT_MODULUS - k) * INT_MODULUS + x % INT_MODULUS;
    ModUnique(x - k * INT_MODULUS, x / INT_MODULUS - k, x % INT_MODULUS);
  }

  lemma ModUnique(x: int, q: int, r: int)
    requires x == q * INT_MODULUS + r && 0 <= r < INT_MODULUS
    ensures x % INT_MODULUS == r
  {
  }

  lemma {:induction false} LeadingDigitsAre(x: seq<byte>, n: nat)
    requires n <= |x| && All(IsDigit, x[..n]) && (n < |x| ==> !IsDigit(x[n]))
    ensures LeadingDigits(x) == x[..n]
    decreases n
  {
    if n > 0 {
      assert x[..n][0] == x[0] && x[1..][..n - 1] == x[..n][1..];
      LeadingDigitsAre(x[1..], n - 1);
    }
  }

  function Pow10(n: nat): nat { if n == 0 then 1 else 10 * Pow10(n - 1) }

  lemma {:induction false} DecimalBound(digits: seq<byte>)
    requires All(IsDigit, digits)
    ensures Decimal(digits) < Pow10(|digits|)
  {
    if digits != [] { DecimalBound(digits[..|digits| - 1]); }
  }

  lemma {:induction false} Pow10Monotone(m: nat, n: nat)
    requires m <= n
    ensures Pow10(m) <= Pow10(n)
  {
    if m < n { Pow10Monotone(m, n - 1); }
  }

  /** Field `k` is the last one named content-length. */
  ghost predicate LastNamed(s: seq<byte>, hs: seq<Header>, k: nat)
    requires AllInside(hs, s)
  {
    k < |hs| && NamesLength(hs[k], s) && forall j :: k < j < |hs| ==> !NamesLength(hs[j], s)
  }

  /**
   With a last field named content-length the result is the announced number exactly when that is below 2^31,
   which it is for at most nine digits.
   */
  lemma {:induction false} ContentLengthExact(s: seq<byte>, hs: seq<Header>, before: int, k: nat)
    requires AllInside(hs, s) && LastNamed(s, hs, k)
    ensures hs[k] in hs
    ensures ContentLength(s, hs, before) == Int32(Announced(hs[k], s))
    ensures ContentLength(s, hs, before) == Announced(hs[k], s) <==> Announced(hs[k], s) < INT_LIMIT
    ensures |LeadingDigits(hs[k].value.Of(s))| <= 9 ==> ContentLength(s, hs, before) == Announced(hs[k], s)
    decreases |hs|
  {
    var n := |hs| - 1;
    if k == n {
      assert hs[n].Inside(s);
      NineDigits(LeadingDigits(hs[n].value.Of(s)));
    } else {
      assert hs[..n][k] == hs[k];
      ContentLengthExact(s, hs[..n], before, k);
    }
  }

  /** `2147483648`, the first number that does not fit: the result is negative. */
  lemma FirstTooLarge(s: seq<byte>, hs: seq<Header>, before: int, k: nat)
    requires AllInside(hs, s) && LastNamed(s, hs, k)
    requires hs[k] in hs && hs[k].value.Of(s) == [50, 49, 52, 55, 52, 56, 51, 54, 52, 56]
    ensures Announced(hs[k], s) == INT_LIMIT && ContentLength(s, hs, before) == -INT_LIMIT
  {
    hide ContentLength, Decimal, LeadingDigits;
    var x := hs[k].value.Of(s);
    assert x[..10] == x;
    LeadingDigitsAre(x, 10);
    NoDigits();
    assert x[..0] == [];
    OneDigit(x, 0); OneDigit(x, 1); OneDigit(x, 2); OneDigit(x, 3); OneDigit(x, 4);
    assert Decimal(x[..5]) == 21474;
    OneDigit(x, 5); OneDigit(x, 6); OneDigit(x, 7); OneDigit(x, 8); OneDigit(x, 9);
    assert Decimal(x[..10]) == INT_LIMIT;
    ContentLengthExact(s, hs, before, k);
  }

  lemma NoDigits()
    ensures Decimal([]) == 0
  {
  }

  lemma OneDigit(x: seq<byte>, n: nat)
    requires All(IsDigit, x) && n < |x|
    ensures Decimal(x[..n + 1]) == Decimal(x[..n]) * 10 + (x[n] - DIGIT_0)
  {
    assert x[..n + 1][..n] == x[..n];
  }

  /** With no field of that name the caller's value is unchanged. */
  lemma {:induction false} ContentLengthUnchanged(s: seq<byte>, hs: seq<Header>, before: int)
    requires AllInside(hs, s) && forall h :: h in hs ==> !NamesLength(h, s)
    ensures ContentLength(s, hs, before) == before
    decreases |hs|
  {
    if hs != [] {
      ContentLengthUnchanged(s, hs[..|hs| - 1], before);
    }
  }

  lemma NineDigits(digits: seq<byte>)
    requires All(IsDigit, digits)
    ensures |digits| <= 9 ==> Decimal(digits) < INT_LIMIT
  {
    if |digits| <= 9 {
      DecimalBound(digits);
      Pow10Monotone(|digits|, 9);
      assert Pow10(4) == 10000 && Pow10(9) == 1000000000;
    }
  }

  /** The loop over the digits of a value, as it runs in an `int`. */
  method AddUpDigits(buf: array<byte>, start: nat, len: nat) returns (total: int)
    requires start + len <= buf.Length
    ensures total == Int32(Decimal(LeadingDigits(buf[start..start + len])))
  {
    ghost var x := buf[start..start + len];
    total := 0;
    var i := 0;
    while i < len
      invariant i <= len && All(IsDigit, x[..i]) && total == Int32(Decimal(x[..i]))
    {
      if !IsDigit(buf[start + i]) { break; }
      assert x[..i + 1][..i] == x[..i] && x[..i + 1][i] == x[i] == buf[start + i];
      WrapStep(Decimal(x[..i]), buf[start + i] - DIGIT_0);
      total := Int32(total * 10 + (buf[start + i] - DIGIT_0));
      i := i + 1;
    }
    LeadingDigitsAre(x, i);
  }

  /** `strncasecmp` against the name, as a loop. */
  method NameMatches(buf: array<byte>, start: nat, len: nat) returns (yes: bool)
    requires start + len <= buf.Length
    ensures yes == IsContentLength(buf[start..start + len])
  {
    ghost var x := buf[start..start + len];
    if len != |CONTENT_LENGTH| { return false; }
    var i := 0;
    while i < len
      invariant i <= len && forall k :: 0 <= k < i ==> Lower(x[k]) == CONTENT_LENGTH[k]
    {
      assert x[i] == buf[start + i];
      if Lower(buf[start + i]) != CONTENT_LENGTH[i] { return false; }
      i := i + 1;
    }
    return true;
  }
}
