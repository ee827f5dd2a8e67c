/** On which lines the rewriting loop never ends: what becomes of the text behind the first loose brace decides. */
module TemplateHang {
  import opened Common
  import opened TemplateText
  import opened TemplateExpand

  /** Openers met and not yet closed behind `s`, starting with `depth` of them; `None` if a brace closes nothing. */
  function Scan(kind: Kind, s: string, depth: nat): Option<nat> {
    if s == "" then Some(depth)
    else if s[0] == '}' then
      if depth == 0 then None else Scan(kind, s[1..], depth - 1)
    else Scan(kind, s[1..], if Opener(kind) <= s then depth + 1 else depth)
  }

  /** Every opener has its brace, and every brace its opener. */
  predicate Paired(kind: Kind, s: string) { Scan(kind, s, 0) == Some(0) }

  /** The first brace with no opener left to close. */
  function Loose(kind: Kind, s: string, depth: nat): (r: Option<nat>)
    ensures r.None? <==> Scan(kind, s, depth).Some?
    ensures r.Some? ==> r.value < |s| && s[r.value] == '}'
  {
    if s == "" then None
    else if s[0] == '}' && depth == 0 then Some(0)
    else
      var r :- Loose(kind, s[1..], if s[0] == '}' then depth - 1 else if Opener(kind) <= s then depth + 1 else depth);
      Some(r + 1)
  }

  /** What becomes of `tail` while the placeholders of `front` are replaced: equal ones are replaced with them. */
  function Sweep(kind: Kind, front: string, tail: string): string
    decreases Count(Opener(kind), front)
  {
    if !Open(kind, front) || Stuck(kind, front) then tail
    else
      PassProgress(kind, front);
      Sweep(kind, Rewrite(kind, front),
          ReplaceAll(tail, Whole(kind, front), "\"" + Inserted(kind, Name(kind, front)) + "\""))
  }

  /**
   A brace closes nothing, and right behind it stands an opener that is not replaced along with an
   equal placeholder in front of that brace.
   */
  predicate Hangs(kind: Kind, line: string) {
    match Loose(kind, line, 0)
    case None => false
    case Some(p) => Opener(kind) <= Sweep(kind, line[..p], line[p + 1..])
  }

  // ---------- scanning ----------

  lemma ReachesNot(q: string, s: string, p: nat)
    requires p < |s| && s[p] !in q
    ensures q <= s ==> |q| <= p && q <= s[..p]
  {
    if p < |q| <= |s| { assert q[p] in q; }
  }

  lemma PrefixOfPrefix(a: string, b: string, s: string)
    requires a <= b
    ensures b <= s ==> a <= s
  {
    if b <= s { assert s[..|a|] == b[..|a|]; }
  }

  lemma FirstFound(s: string, pat: string, k: nat)
    requires Find(s, pat).Some? && k < Find(s, pat).value
    ensures !(pat <= s[k..])
  {
  }

  lemma FoundNoLater(s: string, pat: string, k: nat)
    requires k <= |s| && pat <= s[k..]
    ensures Has(s, pat) && Find(s, pat).value <= k
  {
  }

  /** The first loose brace has only pairs in front of it. */
  lemma {:induction false} LooseParts(kind: Kind, s: string, depth: nat)
    requires Loose(kind, s, depth).Some?
    ensures Scan(kind, s[..Loose(kind, s, depth).value], depth) == Some(0)
    decreases |s|
  {
    var p := Loose(kind, s, depth).value;
    if p > 0 {
      var d := if s[0] == '}' then depth - 1 else if Opener(kind) <= s then depth + 1 else depth;
      LooseParts(kind, s[1..], d);
      assert s[..p][1..] == s[1..][..p - 1];
      var op := Opener(kind);
      ReachesNot(op, s, p);
    }
  }

  /** An opener does not reach over a character that it does not hold. */
  lemma OpenerApart(kind: Kind, a: string, c: char, b: string)
    requires c !in Opener(kind)
    ensures Opener(kind) <= a + ([c] + b) <==> Opener(kind) <= a
  {
    PrefixApart(Opener(kind), a, c, b);
  }

  lemma {:induction false} ScanFree(kind: Kind, a: string, c: char, b: string, depth: nat)
    requires '}' !in a && c !in Opener(kind)
    ensures Scan(kind, a + ([c] + b), depth) == Scan(kind, [c] + b, depth + Count(Opener(kind), a))
    decreases |a|
  {
    hide Opener;
    var s := a + ([c] + b);
    if a == "" {
      assert s == [c] + b;
    } else {
      OpenerApart(kind, a, c, b);
      assert s[1..] == a[1..] + ([c] + b) && s[0] == a[0] && a[0] in a;
      ScanFree(kind, a[1..], c, b, if Opener(kind) <= a then depth + 1 else depth);
    }
  }

  lemma ScanChar(kind: Kind, c: char, b: string, depth: nat)
    requires c !in Opener(kind) && c != '}'
    ensures Scan(kind, [c] + b, depth) == Scan(kind, b, depth)
  {
    assert ([c] + b)[1..] == b;
    var op := Opener(kind);
    assert op[0] in op;
  }

  lemma {:induction false} ScanAll(kind: Kind, a: string, depth: nat)
    requires '}' !in a
    ensures Scan(kind, a, depth) == Some(depth + Count(Opener(kind), a))
    decreases |a|
  {
    if a != "" { ScanAll(kind, a[1..], if Opener(kind) <= a then depth + 1 else depth); }
  }

  /** A name that can stand in a placeholder: no brace in it. */
  lemma ScanWhole(kind: Kind, name: string, rest: string, depth: nat)
    requires '}' !in name
    ensures Scan(kind, (Opener(kind) + (name + "}")) + rest, depth)
            == Scan(kind, rest, depth + Count(Opener(kind), name))
    ensures Count(Opener(kind), Opener(kind) + name) == 1 + Count(Opener(kind), name)
  {
    var op := Opener(kind);
    assert (op + (name + "}")) + rest == (op + name) + (['}'] + rest);
    ScanFree(kind, op + name, '}', rest, depth);
    assert (['}'] + rest)[1..] == rest;
    CountOpened(kind, name);
  }

  lemma CountOpened(kind: Kind, name: string)
    ensures Count(Opener(kind), Opener(kind) + name) == 1 + Count(Opener(kind), name)
  {
    var op := Opener(kind);
    var s := op + name;
    assert op <= s;
    CountInto(kind, op[1..], name);
    assert s[1..] == op[1..] + name;
  }

  /** No opener starts inside text without a dollar sign. */
  lemma {:induction false} CountInto(kind: Kind, a: string, b: string)
    requires '$' !in a
    ensures Count(Opener(kind), a + b) == Count(Opener(kind), b)
    decreases |a|
  {
    if a == "" {
      assert a + b == b;
    } else {
      assert (a + b)[1..] == a[1..] + b && (a + b)[0] == a[0];
      CountInto(kind, a[1..], b);
    }
  }

  lemma ScanInserted(kind: Kind, name: string, rest: string, depth: nat)
    requires '}' !in name
    ensures Scan(kind, ("\"" + Inserted(kind, name) + "\"") + rest, depth)
            == Scan(kind, rest, depth + Count(Opener(kind), name))
  {
    hide Scan, Count, Inserted, Opener;
    var mid := Inserted(kind, name);
    InsertedFree(kind, name);
    QuoteOutside(kind);
    assert ("\"" + mid + "\"") + rest == ['"'] + (mid + (['"'] + rest));
    ScanChar(kind, '"', mid + (['"'] + rest), depth);
    ScanFree(kind, mid, '"', rest, depth);
    ScanChar(kind, '"', rest, depth + Count(Opener(kind), mid));
    CountInserted(Opener(kind), kind, name);
  }

  lemma QuoteOutside(kind: Kind)
    ensures '"' !in Opener(kind) && Opener(kind) != "" && Opener(kind)[0] == '$'
    ensures ' ' !in Opener(kind) && '(' !in Opener(kind) && ')' !in Opener(kind) && '}' !in Opener(kind)
  {
  }

  lemma InsertedFree(kind: Kind, name: string)
    requires '}' !in name
    ensures '}' !in Inserted(kind, name)
  {
  }

  /** Text that starts no placeholder and no literal is found before the replacing where it is found after it. */
  lemma {:induction false} PrefixKept(q: string, s: string, pat: string, with: string)
    requires '$' !in q && '"' !in q && pat != "" && pat[0] == '$' && with != "" && with[0] == '"'
    ensures q <= ReplaceAll(s, pat, with) <==> q <= s
    decreases |q|
  {
    if q != "" && s != "" {
      if pat <= s {
        assert s[0] == '$' && ReplaceAll(s, pat, with)[0] == '"';
        assert q[0] in q;
      } else {
        PrefixKept(q[1..], s[1..], pat, with);
        var r := ReplaceAll(s, pat, with);
        assert r[0] == s[0] && r[1..] == ReplaceAll(s[1..], pat, with);
        PrefixStep(q, s);
        PrefixStep(q, r);
      }
    }
  }

  lemma PrefixStep(q: string, s: string)
    requires q != "" && s != ""
    ensures q <= s <==> q[0] == s[0] && q[1..] <= s[1..]
  {
    if q[0] == s[0] && q[1..] <= s[1..] {
      assert s[..|q|] == [s[0]] + s[1..][..|q| - 1];
    }
    if q <= s { assert s[1..][..|q| - 1] == s[..|q|][1..]; }
  }

  /** Replacing elsewhere leaves the openers in place. */
  lemma OpenerKept(kind: Kind, s: string, pat: string, with: string)
    requires s != "" && pat != "" && !(pat <= s) && pat[0] == '$' && with != "" && with[0] == '"'
    ensures Opener(kind) <= ReplaceAll(s, pat, with) <==> Opener(kind) <= s
  {
    var op, r := Opener(kind), ReplaceAll(s, pat, with);
    assert r[0] == s[0] && r[1..] == ReplaceAll(s[1..], pat, with);
    PrefixKept(op[1..], s[1..], pat, with);
    PrefixStep(op, s);
    PrefixStep(op, r);
  }

  /** Replacing placeholders does not change what is open and what is closed. */
  lemma {:induction false} ScanReplaced(kind: Kind, s: string, name: string, depth: nat)
    requires '}' !in name
    ensures Scan(kind, ReplaceAll(s, Opener(kind) + (name + "}"), "\"" + Inserted(kind, name) + "\""), depth)
            == Scan(kind, s, depth)
    decreases |s|
  {
    hide Opener, Inserted, ReplaceAll, Count;
    var pat, with := Opener(kind) + (name + "}"), "\"" + Inserted(kind, name) + "\"";
    QuoteOutside(kind);
    if s == "" {
      ReplaceEmpty(pat, with);
    } else if pat <= s {
      hide Scan;
      var rest := s[|pat|..];
      assert s == pat + rest;
      ReplaceHere(pat, with, rest);
      ScanReplaced(kind, rest, name, depth + Count(Opener(kind), name));
      ScanWhole(kind, name, rest, depth);
      ScanInserted(kind, name, ReplaceAll(rest, pat, with), depth);
    } else {
      OpenerKept(kind, s, pat, with);
      ReplacePassed(s, pat, with);
      var r := ReplaceAll(s, pat, with);
      assert r[0] == s[0] && r[1..] == ReplaceAll(s[1..], pat, with);
      if s[0] != '}' {
        ScanReplaced(kind, s[1..], name, if Opener(kind) <= s then depth + 1 else depth);
      } else if depth > 0 {
        ScanReplaced(kind, s[1..], name, depth - 1);
      }
    }
  }

  /** A placeholder of paired text ends before the loose brace behind that text. */
  lemma {:induction false} ReplaceAcross(kind: Kind, s: string, tail: string, name: string, depth: nat)
    requires '}' !in name && Scan(kind, s, depth) == Some(0)
    ensures var pat, with := Opener(kind) + (name + "}"), "\"" + Inserted(kind, name) + "\"";
            ReplaceAll(s + ("}" + tail), pat, with) == ReplaceAll(s, pat, with) + ("}" + ReplaceAll(tail, pat, with))
    decreases |s|
  {
    hide Opener, Inserted, ReplaceAll, Count;
    QuoteOutside(kind);
    var pat, with := Opener(kind) + (name + "}"), "\"" + Inserted(kind, name) + "\"";
    var all, end := s + ("}" + tail), "}" + ReplaceAll(tail, pat, with);
    if s == "" {
      assert all[1..] == tail && all[0] != pat[0];
      ReplacePassed(all, pat, with);
      assert ReplaceAll(s, pat, with) == "" by { ReplaceEmpty(pat, with); }
    } else if pat <= all {
      BraceBehind(kind, s, tail, name, depth);
      var rest := s[|pat|..];
      assert s == pat + rest && all == pat + (rest + ("}" + tail));
      ScanWhole(kind, name, rest, depth);
      ReplaceAcross(kind, rest, tail, name, depth + Count(Opener(kind), name));
      ReplaceHere(pat, with, rest);
      ReplaceHere(pat, with, rest + ("}" + tail));
      assert with + (ReplaceAll(rest, pat, with) + end) == (with + ReplaceAll(rest, pat, with)) + end;
    } else {
      assert all[0] == s[0] && all[1..] == s[1..] + ("}" + tail);
      assert !(pat <= s);
      var d := if s[0] == '}' then depth - 1 else if Opener(kind) <= s then depth + 1 else depth;
      ReplaceAcross(kind, s[1..], tail, name, d);
      ReplacePassed(s, pat, with);
      ReplacePassed(all, pat, with);
    }
  }

  lemma BraceBehind(kind: Kind, s: string, tail: string, name: string, depth: nat)
    requires '}' !in name && Scan(kind, s, depth) == Some(0) && Opener(kind) + (name + "}") <= s + ("}" + tail)
    ensures Opener(kind) + (name + "}") <= s
  {
    hide Opener, Scan, Count;
    QuoteOutside(kind);
    var op, all := Opener(kind), s + ("}" + tail);
    var head := op + name;
    var pat := op + (name + "}");
    assert pat == head + "}" && all[|s|] == '}';
    if |s| < |pat| {
      assert pat[|s|] == '}';
      ReachesNot(head, all, |s|);
      assert s == head by { assert all[..|s|] == s && pat[..|head|] == head; }
      ScanAll(kind, head, depth);
      CountOpened(kind, name);
    }
  }

  // ---------- one pass ----------

  /** In scanned text the first opener comes before the first brace. */
  lemma {:induction false} OpenerFirst(kind: Kind, s: string, i: nat)
    requires Scan(kind, s, 0).Some? && i < |s| && s[i] == '}'
    ensures Has(s, Opener(kind)) && Find(s, Opener(kind)).value < i
    decreases |s|
  {
    var op := Opener(kind);
    if !(op <= s) {
      assert s[0] != '}';
      assert s[1..][i - 1] == s[i];
      OpenerFirst(kind, s[1..], i - 1);
    }
  }

  /** The placeholder taken in scanned text is an opener, a name and a brace. */
  lemma ScannedWhole(kind: Kind, s: string)
    requires Open(kind, s) && Scan(kind, s, 0).Some?
    ensures !Stuck(kind, s) && '}' !in Name(kind, s) && Whole(kind, s) == Opener(kind) + (Name(kind, s) + "}")
    ensures OpenAt(kind, s) + |Opener(kind)| <= CloseAt(s)
  {
    hide Find, Opener, Scan;
    var op, o, c := Opener(kind), OpenAt(kind, s), CloseAt(s);
    Marks(kind, s);
    OpenerFirst(kind, s, c);
    Slices(s, o, o + |op|, c);
    NoBraceBefore(s, o + |op|, c);
  }

  lemma NoBraceUpTo(s: string, c: nat)
    requires c <= |s| && forall k :: 0 <= k < c ==> !("}" <= s[k..])
    ensures forall k :: 0 <= k < c ==> s[k] != '}'
  {
    forall k | 0 <= k < c ensures s[k] != '}' {
      assert s[k..][0] == s[k] && !("}" <= s[k..]);
    }
  }

  lemma NoBraceBefore(s: string, from: nat, c: nat)
    requires from <= c < |s| && Find(s, "}") == Some(c)
    ensures '}' !in s[from..c] && '}' !in s[..c]
  {
    hide Find;
    forall k | 0 <= k < c ensures !("}" <= s[k..]) { FirstFound(s, "}", k); }
    NoBraceUpTo(s, c);
    assert forall k :: 0 <= k < c ==> s[..c][k] == s[k];
    assert forall k :: 0 <= k < c - from ==> s[from..c][k] == s[from + k];
  }

  /** A pass over scanned text leaves it scanned, with the same openers left open. */
  lemma PassScanned(kind: Kind, s: string)
    requires Open(kind, s) && Scan(kind, s, 0).Some?
    ensures Scan(kind, Rewrite(kind, s), 0) == Scan(kind, s, 0)
  {
    ScannedWhole(kind, s);
    ScanReplaced(kind, s, Name(kind, s), 0);
  }

  lemma {:induction false} ScannedEnds(kind: Kind, line: string)
    requires Scan(kind, line, 0).Some?
    ensures Expand(kind, line).Some?
    decreases Count(Opener(kind), line)
  {
    hide Scan, Rewrite, Count, Opener;
    if Open(kind, line) {
      ScannedWhole(kind, line);
      PassProgress(kind, line);
      PassScanned(kind, line);
      ScannedEnds(kind, Rewrite(kind, line));
    }
  }

  // ---------- a brace that stands clear in front of the openers ----------

  /** What a pass makes of a line whose first brace comes before the first opener, with something between them. */
  lemma BehindPass(kind: Kind, line: string)
    requires Open(kind, line) && CloseAt(line) + 1 < OpenAt(kind, line)
    ensures Rewrite(kind, line) == line[..OpenAt(kind, line)] + ("\"" + Inserted(kind, Name(kind, line)) + "\"")
  {
    hide Find, Opener, Inserted;
    var op, o := Opener(kind), OpenAt(kind, line);
    Marks(kind, line);
    var pat, with := line[o..], "\"" + Inserted(kind, Name(kind, line)) + "\"";
    assert Whole(kind, line) == pat;
    assert op <= pat;
    var x := line[..o];
    assert x + pat == line;
    forall k | 0 <= k < |x| ensures !(pat <= (x + pat)[k..]) {
      assert !(op <= line[k..]) by { FirstFound(line, op, k); }
      PrefixOfPrefix(op, pat, line[k..]);
    }
    ReplaceSkip(x, pat, pat, with);
    assert pat[|pat|..] == "";
    assert with + "" == with;
  }

  lemma {:induction false} BehindEnds(kind: Kind, line: string)
    requires Open(kind, line) && CloseAt(line) + 1 < OpenAt(kind, line)
    ensures Expand(kind, line).Some?
    decreases Count(Opener(kind), line)
  {
    hide Find, Opener, Inserted, Count, Rewrite, Whole;
    PassProgress(kind, line);
    BehindPass(kind, line);
    var next := Rewrite(kind, line);
    if Open(kind, next) {
      StillBehind(kind, line, Inserted(kind, Name(kind, line)) + "\"");
      assert next == line[..OpenAt(kind, line)] + ("\"" + (Inserted(kind, Name(kind, line)) + "\""));
      BehindEnds(kind, next);
    }
  }

  lemma StillBehind(kind: Kind, line: string, more: string)
    requires Open(kind, line) && CloseAt(line) + 1 < OpenAt(kind, line)
    ensures var next := line[..OpenAt(kind, line)] + ("\"" + more);
            Open(kind, next) ==> CloseAt(next) + 1 < OpenAt(kind, next)
  {
    hide Find, Opener;
    var op, o, c := Opener(kind), OpenAt(kind, line), CloseAt(line);
    Marks(kind, line);
    QuoteOutside(kind);
    var next := line[..o] + ("\"" + more);
    if Open(kind, next) {
      var o', c' := OpenAt(kind, next), CloseAt(next);
      Marks(kind, next);
      assert next[c..][0] == '}';
      FoundNoLater(next, "}", c);
      assert op <= next[o'..] by { assert next[o'..][..|op|] == next[o'..o' + |op|]; }
      if o' <= o {
        assert next[o'..] == line[o'..o] + (['"'] + more);
        NoneBefore(line, op, o, o', more);
      }
    }
  }

  lemma NoneBefore(line: string, op: string, o: nat, k: nat, more: string)
    requires op != "" && '"' !in op && Find(line, op) == Some(o) && k <= o
    ensures !(op <= line[k..o] + (['"'] + more))
  {
    hide Find;
    PrefixApart(op, line[k..o], '"', more);
    assert line[k..][..o - k] == line[k..o];
    if k < o {
      FirstFound(line, op, k);
      if |op| <= o - k { assert line[k..][..|op|] == line[k..o][..|op|]; }
    }
  }

  // ---------- the first loose brace ----------

  /** The first opener and the first brace of paired text stay the first ones, whatever follows. */
  lemma PairedFirst(kind: Kind, front: string, tail: string)
    requires Paired(kind, front) && Has(front, Opener(kind))
    ensures var line := front + ("}" + tail);
            && Open(kind, front) && Open(kind, line)
            && OpenAt(kind, line) == OpenAt(kind, front) && CloseAt(line) == CloseAt(front)
            && Name(kind, line) == Name(kind, front) && Whole(kind, line) == Whole(kind, front)
  {
    hide Find, Opener, Scan;
    PairedCloses(kind, front);
    ScannedWhole(kind, front);
    Marks(kind, front);
    FindFront(front, Opener(kind), "}" + tail);
    FindFront(front, "}", "}" + tail);
    SameSlices(front, "}" + tail, OpenAt(kind, front), CloseAt(front), |Opener(kind)|);
  }

  lemma SameSlices(s: string, more: string, o: nat, c: nat, n: nat)
    requires o + n <= c < |s|
    ensures (s + more)[o + n..c] == s[o + n..c] && (s + more)[o..c + 1] == s[o..c + 1]
  {
  }

  lemma FindFront(s: string, pat: string, more: string)
    requires Has(s, pat)
    ensures Find(s + more, pat) == Find(s, pat)
  {
    hide Find;
    var i := Find(s, pat).value;
    FoundAt(s, pat);
    forall k | 0 <= k <= i ensures (s + more)[k..] == s[k..] + more {}
    forall k | 0 <= k < i ensures !(pat <= (s + more)[k..]) {
      FirstFound(s, pat, k);
      assert |pat| <= |s[k..]|;
    }
    FindIs(s + more, pat, i);
  }

  lemma {:induction false} PairedCloses(kind: Kind, s: string)
    requires Paired(kind, s) && Has(s, Opener(kind))
    ensures Has(s, "}")
  {
    if !Has(s, "}") {
      NoBraceUpTo(s, |s|);
      ScanAll(kind, s, 0);
      CountFound(Opener(kind), s);
    }
  }

  /**
   A pass works on the paired text; the text behind the brace only loses the placeholders equal to the one replaced.
   */
  lemma PassParts(kind: Kind, front: string, tail: string)
    requires Paired(kind, front) && Has(front, Opener(kind))
    ensures var line := front + ("}" + tail);
            && Open(kind, front) && Open(kind, line) && !Stuck(kind, line) && !Stuck(kind, front)
            && Rewrite(kind, line) == Rewrite(kind, front)
                 + ("}" + ReplaceAll(tail, Whole(kind, front), "\"" + Inserted(kind, Name(kind, front)) + "\""))
  {
    hide Find, Opener, Scan, Inserted;
    PairedFirst(kind, front, tail);
    ScannedWhole(kind, front);
    ReplaceAcross(kind, front, tail, Name(kind, front), 0);
  }

  lemma {:induction false} LooseHangs(kind: Kind, front: string, tail: string)
    requires Paired(kind, front)
    ensures Expand(kind, front + ("}" + tail)).None? <==> Opener(kind) <= Sweep(kind, front, tail)
    decreases Count(Opener(kind), front)
  {
    hide Find, Opener, Scan, Inserted, Rewrite, Count, Whole;
    var line := front + ("}" + tail);
    if Has(front, Opener(kind)) {
      PassParts(kind, front, tail);
      PassProgress(kind, front);
      PassProgress(kind, line);
      PassScanned(kind, front);
      LooseHangs(kind, Rewrite(kind, front),
          ReplaceAll(tail, Whole(kind, front), "\"" + Inserted(kind, Name(kind, front)) + "\""));
    } else {
      NothingInFront(kind, front, tail);
      if Open(kind, line) && CloseAt(line) + 1 < OpenAt(kind, line) { BehindEnds(kind, line); }
    }
  }

  /** With no opener in front, the loose brace is the first one, and the first opener stands behind it. */
  lemma NothingInFront(kind: Kind, front: string, tail: string)
    requires Paired(kind, front) && !Has(front, Opener(kind))
    ensures var line := front + ("}" + tail);
            && Has(line, "}") && CloseAt(line) == |front|
            && (Opener(kind) <= tail ==> Stuck(kind, line))
            && (!(Opener(kind) <= tail) && Open(kind, line) ==> CloseAt(line) + 1 < OpenAt(kind, line))
  {
    hide Find, Opener, Scan;
    QuoteOutside(kind);
    var op, line, p := Opener(kind), front + ("}" + tail), |front|;
    BraceIsFirst(kind, front, tail);
    assert line[p + 1..] == tail;
    forall k | 0 <= k <= p ensures !(op <= line[k..]) {
      assert line[k..] == front[k..] + (['}'] + tail);
      PrefixApart(op, front[k..], '}', tail);
      NotFound(front, op, k);
    }
    if op <= tail { FindIs(line, op, p + 1); }
    if Open(kind, line) { FoundAt(line, op); }
  }

  lemma FoundAt(s: string, pat: string)
    requires Has(s, pat)
    ensures Find(s, pat).value <= |s| && pat <= s[Find(s, pat).value..]
  {
  }

  lemma BraceIsFirst(kind: Kind, front: string, tail: string)
    requires Paired(kind, front) && !Has(front, Opener(kind))
    ensures Find(front + ("}" + tail), "}") == Some(|front|)
  {
    hide Find, Opener, Scan;
    var line, p := front + ("}" + tail), |front|;
    forall k | 0 <= k < p ensures !("}" <= line[k..]) {
      if front[k] == '}' { OpenerFirst(kind, front, k); }
      assert line[k..][0] == front[k];
    }
    assert line[p..] == "}" + tail && "}" <= line[p..];
    FindIs(line, "}", p);
  }

  lemma NotFound(s: string, pat: string, k: nat)
    requires !Has(s, pat) && k <= |s|
    ensures !(pat <= s[k..])
  {
  }

  /** On every line, well-formed or not: the rewriting loop never ends if and only if `Hangs` holds of the line. */
  lemma HangsIff(kind: Kind, line: string)
    ensures Expand(kind, line).None? <==> Hangs(kind, line)
  {
    match Loose(kind, line, 0)
    case None => ScannedEnds(kind, line);
    case Some(p) =>
      LooseParts(kind, line, 0);
      assert line == line[..p] + ("}" + line[p + 1..]);
      LooseHangs(kind, line[..p], line[p + 1..]);
  }
}
