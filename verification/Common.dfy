/** What the three models share: optional values, hexadecimal digits, powers of 16. */
module Common {

  datatype Option<+T> = None | Some(value: T) {
    predicate IsFailure() { None? }
    function PropagateFailure<U>(): Option<U> requires None? { None }
    function Extract(): T requires Some? { value }
  }

  /** The codes of the characters. */
  function Codes(s: string): (r: seq<int>)
    ensures |r| == |s| && forall k :: 0 <= k < |s| ==> r[k] == s[k] as int
  {
    seq(|s|, i requires 0 <= i < |s| => s[i] as int)
  }

  /** The value of a hexadecimal digit in either case, -1 for anything else. */
  function HexValue(c: int): (v: int)
    ensures -1 <= v < 16
  {
    if 48 <= c <= 57 then c - 48
    else if 65 <= c <= 70 then c - 65 + 10
    else if 97 <= c <= 102 then c - 97 + 10
    else -1
  }

  const UPPER_DIGITS: string := "0123456789ABCDEF"
  const LOWER_DIGITS: string := "0123456789abcdef"

  /** `v` is the value of `c` exactly when `c` is the digit of that value in one of the two alphabets. */
  lemma HexValueIs(c: int, v: nat)
    ensures HexValue(c) == v <==> v < 16 && (c == UPPER_DIGITS[v] as int || c == LOWER_DIGITS[v] as int)
  {
    assert forall k :: 0 <= k < 16 ==> UPPER_DIGITS[k] as int == if k < 10 then 48 + k else 55 + k;
    assert forall k :: 0 <= k < 16 ==> LOWER_DIGITS[k] as int == if k < 10 then 48 + k else 87 + k;
  }

  /** A hexadecimal digit, by the two alphabets. */
  predicate IsHexDigit(c: int) {
    exists v :: 0 <= v < 16 && (c == UPPER_DIGITS[v] as int || c == LOWER_DIGITS[v] as int)
  }

  lemma HexDigitIs(c: int)
    ensures HexValue(c) >= 0 <==> IsHexDigit(c)
  {
    var v := HexValue(c);
    if v >= 0 {
      HexValueIs(c, v);
      assert v < 16 && (c == UPPER_DIGITS[v] as int || c == LOWER_DIGITS[v] as int);
    }
    if IsHexDigit(c) {
      var d :| 0 <= d < 16 && (c == UPPER_DIGITS[d] as int || c == LOWER_DIGITS[d] as int);
      HexValueIs(c, d);
    }
  }

  predicate AllHexDigits(s: seq<int>) { forall k :: 0 <= k < |s| ==> IsHexDigit(s[k]) }

  function Pow16(n: nat): nat {
    if n == 0 then 1 else 16 * Pow16(n - 1)
  }

  lemma {:induction false} Pow16Monotone(m: nat, n: nat)
    requires m <= n
    ensures Pow16(m) <= Pow16(n)
    decreases n
  {
    if m < n {
      Pow16Monotone(m, n - 1);
    }
  }

  function Flatten<T>(parts: seq<seq<T>>): seq<T> {
    if parts == [] then [] else parts[0] + Flatten(parts[1..])
  }

  lemma Assoc<T>(a: seq<T>, b: seq<T>, c: seq<T>)
    ensures a + (b + c) == (a + b) + c
  {
  }
}
