/** The string operations the template compiler is made of. */
module TemplateText {
  import opened Common

  /** `find`: the first index at which `pat` stands in `s`. */
  function Find(s: string, pat: string): (r: Option<nat>)
    ensures r.Some? ==> r.value + |pat| <= |s| && pat <= s[r.value..]
    ensures r.Some? ==> forall k :: 0 <= k < r.value ==> !(pat <= s[k..])
    ensures r.None? ==> forall k :: 0 <= k <= |s| ==> !(pat <= s[k..])
  {
    if pat <= s then Some(0)
    else if s == "" then None
    else
      var r := Find(s[1..], pat);
      assert forall k :: 0 < k <= |s| ==> s[k..] == s[1..][k - 1..];
      if r.None? then None else Some(r.value + 1)
  }

  lemma FindIs(s: string, pat: string, i: nat)
    requires i <= |s| && pat <= s[i..] && forall k :: 0 <= k < i ==> !(pat <= s[k..])
    ensures Find(s, pat) == Some(i)
  {
  }

  predicate Has(s: string, pat: string) { Find(s, pat).Some? }

  /** `substr`: a negative length wraps to a huge one and so means "to the end". */
  function Substr(s: string, from: nat, len: int): string
    requires from <= |s|
  {
    if 0 <= len <= |s| - from then s[from..from + len] else s[from..]
  }

  /** `replaceAll`: left to right, not looking again at what was put in; nothing happens for an empty pattern. */
  function ReplaceAll(s: string, pat: string, with: string): string
    decreases |s|
  {
    if pat == "" || s == "" then s
    else if pat <= s then with + ReplaceAll(s[|pat|..], pat, with)
    else [s[0]] + ReplaceAll(s[1..], pat, with)
  }

  function ReplaceFirst(s: string, pat: string, with: string): string {
    match Find(s, pat)
    case None => s
    case Some(i) => s[..i] + with + s[i + |pat|..]
  }

  predicate IsSpace(c: char) { 9 <= c as int <= 13 || c == ' ' }

  function TrimLeft(s: string): string {
    if s != "" && IsSpace(s[0]) then TrimLeft(s[1..]) else s
  }

  function TrimRight(s: string): string {
    if s != "" && IsSpace(s[|s| - 1]) then TrimRight(s[..|s| - 1]) else s
  }

  function Trim(s: string): string { TrimRight(TrimLeft(s)) }

  const WHITE: string := " \t\n\U{B}\U{C}\r"

  lemma WhiteIs(c: char)
    ensures IsSpace(c) <==> c in WHITE
  {
    assert WHITE[0] == ' ' && WHITE[1] as int == 9 && WHITE[2] as int == 10 && WHITE[3] as int == 11;
    assert WHITE[4] as int == 12 && WHITE[5] as int == 13;
  }

  ghost predicate AllWhite(x: string) { forall c :: c in x ==> c in WHITE }

  /** White space around a text that is empty or neither starts nor ends in it. */
  ghost predicate Trimmed(s: string, left: string, text: string, right: string) {
    && s == left + (text + right) && AllWhite(left) && AllWhite(right)
    && (text != "" ==> text[0] !in WHITE && text[|text| - 1] !in WHITE)
  }

  lemma {:induction false} TrimLeftIs(left: string, x: string)
    requires AllWhite(left) && (x == "" || x[0] !in WHITE)
    ensures TrimLeft(left + x) == x
    decreases |left|
  {
    hide IsSpace;
    if left == "" {
      assert left + x == x;
      if x != "" { WhiteIs(x[0]); }
    } else {
      WhiteIs(left[0]);
      assert (left + x)[1..] == left[1..] + x;
      TrimLeftIs(left[1..], x);
    }
  }

  lemma {:induction false} TrimRightIs(x: string, right: string)
    requires AllWhite(right) && (x == "" || x[|x| - 1] !in WHITE)
    ensures TrimRight(x + right) == x
    decreases |right|
  {
    hide IsSpace;
    if right == "" {
      assert x + right == x;
      if x != "" { WhiteIs(x[|x| - 1]); }
    } else {
      var n := |right| - 1;
      WhiteIs(right[n]);
      assert (x + right)[..|x| + n] == x + right[..n];
      TrimRightIs(x, right[..n]);
    }
  }

  lemma {:induction false} LeftOf(s: string) returns (left: string)
    ensures AllWhite(left) && s == left + TrimLeft(s) && (TrimLeft(s) == "" || TrimLeft(s)[0] !in WHITE)
    decreases |s|
  {
    hide IsSpace;
    left := "";
    if s != "" {
      WhiteIs(s[0]);
      if IsSpace(s[0]) {
        left := LeftOf(s[1..]);
        assert s == [s[0]] + s[1..];
        left := [s[0]] + left;
      }
    }
  }

  lemma {:induction false} RightOf(s: string) returns (right: string)
    ensures AllWhite(right) && s == TrimRight(s) + right
    ensures TrimRight(s) == "" || TrimRight(s)[|TrimRight(s)| - 1] !in WHITE
    decreases |s|
  {
    hide IsSpace, AllWhite;
    right := "";
    NoneWhite();
    if s != "" {
      var n := |s| - 1;
      WhiteIs(s[n]);
      if IsSpace(s[n]) {
        right := RightOf(s[..n]);
        Assoc(TrimRight(s[..n]), right, [s[n]]);
        assert s == s[..n] + [s[n]];
        OneMoreWhite(right, s[n]);
        right := right + [s[n]];
      }
    }
  }

  lemma NoneWhite()
    ensures AllWhite("")
  {
  }

  lemma OneMoreWhite(x: string, c: char)
    requires AllWhite(x) && c in WHITE
    ensures AllWhite(x + [c])
  {
  }

  /** What is left of a line when the white space at both ends is taken away. */
  lemma TrimExactly(s: string, text: string)
    ensures Trim(s) == text <==> exists left, right :: Trimmed(s, left, text, right)
  {
    hide TrimLeft, TrimRight, IsSpace, AllWhite;
    if Trim(s) == text {
      var left := LeftOf(s);
      var right := RightOf(TrimLeft(s));
      assert text != "" ==> TrimLeft(s)[0] == text[0];
      assert Trimmed(s, left, text, right);
    }
    if exists left, right :: Trimmed(s, left, text, right) {
      var left, right :| Trimmed(s, left, text, right);
      TrimmedIs(s, left, text, right);
    }
  }

  lemma TrimmedIs(s: string, left: string, text: string, right: string)
    requires Trimmed(s, left, text, right)
    ensures Trim(s) == text
  {
    hide TrimLeft, TrimRight;
    if text == "" {
      assert left + (text + right) == (left + right) + "" && "" + "" == "";
      TrimLeftIs(left + right, "");
      TrimRightIs("", "");
    } else {
      TrimLeftIs(left, text + right);
      TrimRightIs(text, right);
    }
  }

  /** Quotes get a backslash, so that the text can stand in a string literal. */
  function EscapeQuotes(s: string): string {
    ReplaceAll(s, "\"", "\\\"")
  }

  lemma EscapeStep(c: char, s: string)
    ensures EscapeQuotes([c] + s) == (if c == '"' then "\\\"" else [c]) + EscapeQuotes(s)
  {
    var t, q := [c] + s, "\"";
    assert t[1..] == s && t[0] == c && |q| == 1 && q[0] == '"';
    if c == '"' { assert t[..1] == q; }
  }

  lemma {:induction false} EscapeConcat(a: string, b: string)
    ensures EscapeQuotes(a + b) == EscapeQuotes(a) + EscapeQuotes(b)
    decreases |a|
  {
    if a == "" {
      assert a + b == b;
    } else {
      assert a + b == [a[0]] + (a[1..] + b) && a == [a[0]] + a[1..];
      EscapeStep(a[0], a[1..] + b);
      EscapeStep(a[0], a[1..]);
      EscapeConcat(a[1..], b);
    }
  }

  lemma {:induction false} EscapeNothing(s: string)
    requires '"' !in s
    ensures EscapeQuotes(s) == s
    decreases |s|
  {
    if s != "" {
      assert s == [s[0]] + s[1..];
      EscapeStep(s[0], s[1..]);
      EscapeNothing(s[1..]);
    }
  }

  lemma ReplaceEmpty(pat: string, with: string)
    ensures ReplaceAll("", pat, with) == ""
  {
  }

  lemma ReplaceHere(pat: string, with: string, rest: string)
    requires pat != ""
    ensures ReplaceAll(pat + rest, pat, with) == with + ReplaceAll(rest, pat, with)
  {
    assert (pat + rest)[|pat|..] == rest && (pat + rest)[..|pat|] == pat;
  }

  lemma ReplacePassed(s: string, pat: string, with: string)
    requires s != "" && !(pat <= s)
    ensures ReplaceAll(s, pat, with) == [s[0]] + ReplaceAll(s[1..], pat, with)
  {
  }

  /** Replacing passes over text in which the pattern does not start. */
  lemma {:induction false} ReplaceSkip(x: string, rest: string, pat: string, with: string)
    requires pat != "" && forall k :: 0 <= k < |x| ==> !(pat <= (x + rest)[k..])
    ensures ReplaceAll(x + rest, pat, with) == x + ReplaceAll(rest, pat, with)
    decreases |x|
  {
    hide ReplaceAll;
    if x == "" {
      assert x + rest == rest;
    } else {
      var s := x + rest;
      assert s[0..] == s && s[1..] == x[1..] + rest;
      forall k | 0 <= k < |x[1..]| ensures !(pat <= (x[1..] + rest)[k..]) {
        assert (x[1..] + rest)[k..] == s[k + 1..];
      }
      ReplacePassed(s, pat, with);
      ReplaceSkip(x[1..], rest, pat, with);
      assert [x[0]] + (x[1..] + ReplaceAll(rest, pat, with)) == x + ReplaceAll(rest, pat, with);
    }
  }

  // ---------- counting occurrences ----------

  /** How often `pat` stands in `s`, overlaps included. */
  function Count(pat: string, s: string): nat {
    if s == "" then 0 else (if pat <= s then 1 else 0) + Count(pat, s[1..])
  }

  lemma {:induction false} CountConcat(pat: string, a: string, b: string)
    requires pat != ""
    ensures Count(pat, a + b) >= Count(pat, a) + Count(pat, b)
    decreases |a|
  {
    if a == "" {
      assert a + b == b;
    } else {
      assert (a + b)[1..] == a[1..] + b;
      CountConcat(pat, a[1..], b);
      assert pat <= a ==> pat <= a + b;
    }
  }

  lemma PrefixApart(pat: string, a: string, c: char, b: string)
    requires c !in pat
    ensures pat <= a + ([c] + b) <==> pat <= a
  {
    var s := a + ([c] + b);
    if |a| < |pat| <= |s| {
      assert s[|a|] == c && pat[|a|] in pat;
    }
  }

  /** A character that is not in the pattern keeps occurrences apart. */
  lemma {:induction false} CountApart(pat: string, a: string, c: char, b: string)
    requires pat != "" && c !in pat
    ensures Count(pat, a + ([c] + b)) == Count(pat, a) + Count(pat, b)
    decreases |a|
  {
    var s := a + ([c] + b);
    PrefixApart(pat, a, c, b);
    if a == "" {
      assert s[1..] == b;
    } else {
      assert s[1..] == a[1..] + ([c] + b);
      CountApart(pat, a[1..], c, b);
    }
  }

  lemma {:induction false} CountFound(pat: string, s: string)
    requires pat != ""
    ensures Count(pat, s) > 0 <==> Has(s, pat)
    decreases |s|
  {
    if s != "" { CountFound(pat, s[1..]); }
  }

  /**
   Replacing by text that is set off by quotes does not create occurrences of `g`: if the text put in holds
   no more of them than the text taken out, with `drop` to spare, each replacement takes `drop` away.
   */
  lemma {:induction false} CountReplaced(g: string, x: string, s: string, pat: string, mid: string, drop: nat)
    requires g != "" && '"' !in g && pat != "" && Count(g, mid) + drop <= Count(g, pat)
    ensures Count(g, x + ReplaceAll(s, pat, "\"" + mid + "\"")) <= Count(g, x + s)
    ensures Has(s, pat) ==> Count(g, x + ReplaceAll(s, pat, "\"" + mid + "\"")) + drop <= Count(g, x + s)
    decreases |s|
  {
    hide ReplaceAll, Count, Find;
    var with := "\"" + mid + "\"";
    if s == "" {
      ReplaceEmpty(pat, with);
      NothingHas(pat);
    } else if pat <= s {
      var rest := s[|pat|..];
      assert s == pat + rest;
      CountReplaced(g, "", rest, pat, mid, drop);
      assert "" + rest == rest && "" + ReplaceAll(rest, pat, with) == ReplaceAll(rest, pat, with);
      OneReplaced(g, x, pat, mid, rest, ReplaceAll(rest, pat, with), drop);
      ReplaceHere(pat, with, rest);
    } else {
      ReplacePassed(s, pat, with);
      HasBehind(s, pat);
      assert x + ReplaceAll(s, pat, with) == (x + [s[0]]) + ReplaceAll(s[1..], pat, with);
      assert x + s == (x + [s[0]]) + s[1..];
      CountReplaced(g, x + [s[0]], s[1..], pat, mid, drop);
    }
  }

  lemma NothingHas(pat: string)
    requires pat != ""
    ensures !Has("", pat)
  {
  }

  lemma HasBehind(s: string, pat: string)
    requires s != "" && !(pat <= s)
    ensures Has(s, pat) <==> Has(s[1..], pat)
  {
  }

  lemma OneReplaced(g: string, x: string, pat: string, mid: string, rest: string, rest': string, drop: nat)
    requires g != "" && '"' !in g && Count(g, mid) + drop <= Count(g, pat) && Count(g, rest') <= Count(g, rest)
    ensures Count(g, x + (("\"" + mid + "\"") + rest')) + drop <= Count(g, x + (pat + rest))
  {
    hide Count;
    assert x + (("\"" + mid + "\"") + rest') == x + (['"'] + (mid + (['"'] + rest')));
    CountApart(g, x, '"', mid + (['"'] + rest'));
    CountApart(g, mid, '"', rest');
    CountConcat(g, x, pat + rest);
    CountConcat(g, pat, rest);
  }
}
