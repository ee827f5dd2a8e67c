/**
 The same condition without running the loop: what decides is whether the placeholder behind the first loose
 brace stands in front of it too.
 */
module TemplateHangLine {
  import opened Common
  import opened TemplateText
  import opened TemplateExpand
  import opened TemplateHang

  lemma {:induction false} SweepStarts(kind: Kind, front: string, tail: string)
    requires Scan(kind, front, 0).Some?
    ensures Opener(kind) <= Sweep(kind, front, tail) ==> Opener(kind) <= tail
    decreases Count(Opener(kind), front)
  {
    hide Scan, Inserted, Rewrite, Count, Name, Opener;
    if Open(kind, front) {
      QuoteOutside(kind);
      ScannedWhole(kind, front);
      PassScanned(kind, front);
      PassProgress(kind, front);
      var pat, with := Whole(kind, front), "\"" + Inserted(kind, Name(kind, front)) + "\"";
      SweepStarts(kind, Rewrite(kind, front), ReplaceAll(tail, pat, with));
      if tail != "" {
        if pat <= tail {
          assert Opener(kind) <= pat;
          assert tail[..|Opener(kind)|] == pat[..|Opener(kind)|];
        } else {
          OpenerKept(kind, tail, pat, with);
        }
      }
    }
  }

  /** A line that hangs has an opener right behind its first loose brace. */
  lemma HangsAtLooseBrace(kind: Kind, line: string)
    requires Hangs(kind, line)
    ensures Loose(kind, line, 0).Some? && Opener(kind) <= line[Loose(kind, line, 0).value + 1..]
  {
    var p := Loose(kind, line, 0).value;
    LooseParts(kind, line, 0);
    SweepStarts(kind, line[..p], line[p + 1..]);
  }

  /** A name without an opener or a quote in it. */
  predicate PlainName(kind: Kind, name: string) { '"' !in name && '}' !in name && !Has(name, Opener(kind)) }

  /** Each quote but one at the very front stands behind a backslash. */
  predicate Slashed(q: string) { forall k :: 0 < k < |q| && q[k] == '"' ==> q[k - 1] == '\\' }

  /** No backslash stands right in front of a dollar sign. */
  predicate SlashFree(s: string) { forall k :: 0 <= k < |s| - 1 && s[k] == '\\' ==> s[k + 1] != '$' }

  /** Quotes that replacing placeholders of `s` puts in cannot be taken for quotes of `whole`. */
  predicate Calm(whole: string, s: string) { Slashed(whole) && ('"' in whole ==> SlashFree(s)) }

  /** The placeholder named `other` is not `whole`, nor does it end `whole`. */
  predicate Differs(kind: Kind, whole: string, other: string) {
    forall k :: 0 <= k < |whole| ==> whole[k..] != Opener(kind) + (other + "}")
  }

  /** No placeholder that ends `whole` stands in `front` behind paired text. */
  ghost predicate InnerFresh(kind: Kind, whole: string, front: string) {
    forall k :: 0 < k < |whole| && Opener(kind) <= whole[k..] ==> !AtTop(kind, whole[k..], front, 0)
  }

  /** `whole` stands in `s` where no opener is open, of `depth` openers open in front of `s`. */
  predicate AtTop(kind: Kind, whole: string, s: string, depth: nat) {
    s != "" && ((depth == 0 && whole <= s)
                || (if s[0] == '}' then depth > 0 && AtTop(kind, whole, s[1..], depth - 1)
                    else AtTop(kind, whole, s[1..], if Opener(kind) <= s then depth + 1 else depth)))
  }

  /** `whole` stands in `front` behind paired text: the loops come to it as to a placeholder of its own. */
  ghost predicate Repeated(kind: Kind, whole: string, front: string) {
    exists o :: 0 <= o <= |front| && Paired(kind, front[..o]) && whole <= front[o..]
  }

  /** The first placeholder of text that starts with an opener. */
  lemma StartsWith(kind: Kind, text: string) returns (more: string)
    requires Open(kind, text) && Opener(kind) <= text
    ensures OpenAt(kind, text) == 0 && '}' !in Name(kind, text)
    ensures Whole(kind, text) == Opener(kind) + (Name(kind, text) + "}") && text == Whole(kind, text) + more
  {
    hide Find, Opener, Substr;
    var op, c := Opener(kind), CloseAt(text);
    assert text[0..] == text;
    FindIs(text, op, 0);
    Marks(kind, text);
    NoBraceBefore(text, |op|, c);
    more := text[c + 1..];
    CutWhole(text, op, c);
  }

  lemma CutWhole(text: string, op: string, c: nat)
    requires op <= text && |op| <= c < |text| && text[c] == '}'
    ensures text[0..c + 1] == op + (text[|op|..c] + "}") && text == text[0..c + 1] + text[c + 1..]
    ensures Substr(text, 0, c + 1) == text[0..c + 1] && Substr(text, |op|, c - |op|) == text[|op|..c]
  {
    assert text[..|op|] == op;
  }

  /** Two placeholders at the same place are equal. */
  lemma SameWhole(kind: Kind, a: string, b: string, more: string)
    requires '}' !in a && '}' !in b && Opener(kind) + (a + "}") <= (Opener(kind) + (b + "}")) + more
    ensures a == b
  {
    hide Opener;
    var op := Opener(kind);
    var x, y, s := op + (a + "}"), op + (b + "}"), (op + (b + "}")) + more;
    QuoteOutside(kind);
    assert s[|op| + |b|] == '}' && x[|op| + |a|] == '}' && s[|op| + |a|] == '}';
    assert x == (op + a) + "}" && y == (op + b) + "}";
    ReachesNot(op + a, s, |op| + |b|);
    ReachesNot(op + b, s, |op| + |a|);
    assert x[|op|..|op| + |a|] == a && s[|op|..|op| + |b|] == b;
  }

  /** A placeholder that starts inside another one, and not behind it, ends it. */
  lemma EndsWhole(kind: Kind, name: string, more: string, other: string, k: nat)
    requires '}' !in name && '}' !in other && k < |Opener(kind) + (name + "}")|
    requires Opener(kind) + (other + "}") <= ((Opener(kind) + (name + "}")) + more)[k..]
    ensures (Opener(kind) + (name + "}"))[k..] == Opener(kind) + (other + "}")
  {
    hide Opener;
    QuoteOutside(kind);
    var op := Opener(kind);
    var whole, pat, head := op + (name + "}"), op + (other + "}"), op + other;
    var s := (whole + more)[k..];
    var n := |whole| - 1 - k;
    assert whole == (op + name) + "}" && pat == head + "}";
    assert s == whole[k..] + more && s[n] == '}';
    ReachesNot(head, s, n);
    assert s[|head|] == pat[|head|] == '}';
    assert forall i :: 0 <= i < |op + name| ==> whole[i] == (op + name)[i];
    assert s[..|pat|] == whole[k..];
  }

  /** Replacing another placeholder passes over one that it does not end. */
  lemma FreshSkipped(kind: Kind, name: string, more: string, other: string, with: string)
    requires '}' !in name && '}' !in other && Differs(kind, Opener(kind) + (name + "}"), other)
    ensures var whole, pat := Opener(kind) + (name + "}"), Opener(kind) + (other + "}");
            ReplaceAll(whole + more, pat, with) == whole + ReplaceAll(more, pat, with)
  {
    hide Opener, ReplaceAll;
    QuoteOutside(kind);
    var whole, pat := Opener(kind) + (name + "}"), Opener(kind) + (other + "}");
    forall k | 0 <= k < |whole| ensures !(pat <= (whole + more)[k..]) {
      if pat <= (whole + more)[k..] { EndsWhole(kind, name, more, other, k); }
    }
    ReplaceSkip(whole, more, pat, with);
  }

  lemma NoOpenerInside(kind: Kind, name: string, more: string, k: nat)
    requires Count(Opener(kind), name) == 0 && 0 < k <= |Opener(kind)| + |name|
    ensures !(Opener(kind) <= ((Opener(kind) + (name + "}")) + more)[k..])
  {
    hide Find, Count, Opener;
    QuoteOutside(kind);
    var op := Opener(kind);
    var s := (op + (name + "}")) + more;
    if k < |op| {
      OneDollar(kind, k);
      assert s[k..][0] == op[k];
    } else {
      CountFound(op, name);
      NotInName(op, name, more, k - |op|);
      assert s[k..] == (name + (['}'] + more))[k - |op|..];
    }
  }

  lemma NotInName(op: string, name: string, more: string, i: nat)
    requires !Has(name, op) && '}' !in op && i <= |name|
    ensures !(op <= (name + (['}'] + more))[i..])
  {
    hide Find;
    NotFound(name, op, i);
    assert (name + (['}'] + more))[i..] == name[i..] + (['}'] + more);
    PrefixApart(op, name[i..], '}', more);
  }

  lemma OneDollar(kind: Kind, k: nat)
    requires 0 < k < |Opener(kind)|
    ensures Opener(kind)[k] != '$'
  {
  }

  /** Text whose quotes stand behind backslashes is found before the replacing where it is found after it. */
  lemma {:induction false} FoundBefore(q: string, s: string, pat: string, with: string)
    requires pat != "" && pat[0] == '$' && with != "" && with[0] == '"' && Calm(q, s)
    requires q != "" && q[0] == '"' ==> !(pat <= s)
    ensures q <= ReplaceAll(s, pat, with) ==> q <= s
    decreases |q|
  {
    var r := ReplaceAll(s, pat, with);
    if q != "" && s != "" && !(pat <= s) && q[0] == s[0] {
      ReplacePassed(s, pat, with);
      if q[0] == '\\' && |q| > 1 && q[1] == '"' { assert '"' in q; }
      FoundBefore(q[1..], s[1..], pat, with);
      PrefixStep(q, s);
      PrefixStep(q, r);
    }
  }

  /** A placeholder that is not the one replaced is found where it was. */
  lemma WholeKept(kind: Kind, name: string, other: string, s: string, with: string)
    requires '}' !in name && '}' !in other && Differs(kind, Opener(kind) + (name + "}"), other)
    requires Calm(Opener(kind) + (name + "}"), s) && with != "" && with[0] == '"'
    ensures var whole, pat := Opener(kind) + (name + "}"), Opener(kind) + (other + "}");
            whole <= ReplaceAll(s, pat, with) <==> whole <= s
  {
    hide Opener, ReplaceAll, Calm, Differs;
    QuoteOutside(kind);
    var whole, pat := Opener(kind) + (name + "}"), Opener(kind) + (other + "}");
    assert whole[0] == '$' && pat[0] == '$';
    FoundBefore(whole, s, pat, with);
    if whole <= s {
      var more := s[|whole|..];
      assert s == whole + more;
      FreshSkipped(kind, name, more, other, with);
      assert (whole + ReplaceAll(more, pat, with))[..|whole|] == whole;
    }
  }

  /** Before a quote with no backslash in front of it no placeholder starts whose brace comes behind it. */
  lemma {:induction false} TopFree(kind: Kind, whole: string, a: string, b: string, depth: nat)
    requires '}' !in a && '}' in whole && Slashed(whole) && whole[0] == '$' && (a == "" || a[|a| - 1] != '\\')
    ensures AtTop(kind, whole, a + (['"'] + b), depth)
            <==> AtTop(kind, whole, b, depth + Count(Opener(kind), a))
    decreases |a|
  {
    hide Opener, Slashed;
    QuoteOutside(kind);
    var s := a + (['"'] + b);
    NoneOver(whole, a, b);
    if a == "" {
      assert s[1..] == b && s[0] == '"';
      OpenerApart(kind, a, '"', b);
    } else {
      OpenerApart(kind, a, '"', b);
      assert s[1..] == a[1..] + (['"'] + b) && s[0] == a[0];
      TopFree(kind, whole, a[1..], b, if Opener(kind) <= a then depth + 1 else depth);
    }
  }

  lemma NoneOver(whole: string, a: string, b: string)
    requires '}' !in a && '}' in whole && Slashed(whole) && whole[0] == '$' && (a == "" || a[|a| - 1] != '\\')
    ensures !(whole <= a + (['"'] + b))
  {
    var s := a + (['"'] + b);
    var k :| 0 <= k < |whole| && whole[k] == '}';
    assert k < |a| ==> s[k] == a[k] && a[k] in a;
    assert s[|a|] == '"' && (a != "" ==> s[|a| - 1] == a[|a| - 1]);
  }

  lemma TopInserted(kind: Kind, whole: string, name: string, rest: string, depth: nat)
    requires '}' !in name && '}' in whole && Slashed(whole) && whole[0] == '$'
    ensures AtTop(kind, whole, ("\"" + Inserted(kind, name) + "\"") + rest, depth)
            <==> AtTop(kind, whole, rest, depth + Count(Opener(kind), name))
  {
    hide AtTop, Inserted, Opener, Count, Slashed;
    QuoteOutside(kind);
    InsertedFree(kind, name);
    InsertedEnd(kind, name);
    var mid := Inserted(kind, name);
    assert ("\"" + mid + "\"") + rest == "" + (['"'] + (mid + (['"'] + rest)));
    TopFree(kind, whole, "", mid + (['"'] + rest), depth);
    NothingCounted(kind);
    TopFree(kind, whole, mid, rest, depth);
    CountInserted(Opener(kind), kind, name);
  }

  lemma InsertedEnd(kind: Kind, name: string)
    ensures var mid := Inserted(kind, name);
            |mid| > 4 && mid[0] == ' ' && mid[|mid| - 1] == ' '
  {
  }

  lemma NothingCounted(kind: Kind)
    ensures Count(Opener(kind), "") == 0
  {
  }

  /** Inside an open placeholder nothing stands at the top, up to its brace. */
  lemma {:induction false} TopInside(kind: Kind, whole: string, a: string, rest: string, depth: nat)
    requires '}' !in a && depth > 0
    ensures AtTop(kind, whole, a + (['}'] + rest), depth)
            <==> AtTop(kind, whole, rest, depth + Count(Opener(kind), a) - 1)
    decreases |a|
  {
    hide Opener;
    QuoteOutside(kind);
    var s := a + (['}'] + rest);
    if a == "" {
      assert s[1..] == rest;
    } else {
      OpenerApart(kind, a, '}', rest);
      assert s[1..] == a[1..] + (['}'] + rest) && s[0] == a[0];
      TopInside(kind, whole, a[1..], rest, if Opener(kind) <= a then depth + 1 else depth);
    }
  }

  /** A whole placeholder, other than `whole`, that stands at the front. */
  lemma TopOther(kind: Kind, whole: string, name: string, rest: string, depth: nat)
    requires '}' !in name && !(whole <= (Opener(kind) + (name + "}")) + rest)
    ensures AtTop(kind, whole, (Opener(kind) + (name + "}")) + rest, depth)
            <==> AtTop(kind, whole, rest, depth + Count(Opener(kind), name))
  {
    hide Opener, Count;
    QuoteOutside(kind);
    var op := Opener(kind);
    var s := (op + (name + "}")) + rest;
    assert op <= s && s[0] == op[0];
    assert s[1..] == (op[1..] + name) + (['}'] + rest);
    OneDollarOnly(kind);
    CountInto(kind, op[1..], name);
    TopInside(kind, whole, op[1..] + name, rest, depth + 1);
  }

  lemma OneDollarOnly(kind: Kind)
    ensures '$' !in Opener(kind)[1..] && '}' !in Opener(kind)[1..]
  {
  }

  /** Replacing other placeholders does not change what stands at the top. */
  lemma {:induction false} TopReplaced(kind: Kind, name: string, other: string, s: string, depth: nat)
    requires '}' !in name && '}' !in other && Differs(kind, Opener(kind) + (name + "}"), other)
    requires Calm(Opener(kind) + (name + "}"), s)
    ensures var whole, pat := Opener(kind) + (name + "}"), Opener(kind) + (other + "}");
            var with := "\"" + Inserted(kind, other) + "\"";
            AtTop(kind, whole, ReplaceAll(s, pat, with), depth) <==> AtTop(kind, whole, s, depth)
    decreases |s|
  {
    hide Opener, Inserted, ReplaceAll, Count, Find, Calm, Differs;
    var whole, pat := Opener(kind) + (name + "}"), Opener(kind) + (other + "}");
    var with := "\"" + Inserted(kind, other) + "\"";
    QuoteOutside(kind);
    if s == "" {
      ReplaceEmpty(pat, with);
    } else if pat <= s {
      assert s == pat + s[|pat|..];
      CalmBehind(whole, s, |pat|);
      TopOfOther(kind, name, other, s[|pat|..], depth);
      TopReplaced(kind, name, other, s[|pat|..], depth + Count(Opener(kind), other));
    } else {
      WholeKept(kind, name, other, s, with);
      ReplacePassed(s, pat, with);
      OpenerKept(kind, s, pat, with);
      CalmBehind(whole, s, 1);
      var r := ReplaceAll(s, pat, with);
      assert r[0] == s[0] && r[1..] == ReplaceAll(s[1..], pat, with);
      if s[0] != '}' {
        TopReplaced(kind, name, other, s[1..], if Opener(kind) <= s then depth + 1 else depth);
      } else if depth > 0 {
        TopReplaced(kind, name, other, s[1..], depth - 1);
      }
    }
  }

  lemma CalmBehind(whole: string, s: string, k: nat)
    requires Calm(whole, s) && k <= |s|
    ensures Calm(whole, s[k..]) && Slashed(whole)
  {
  }

  /** At a placeholder that is replaced, before and after. */
  lemma TopOfOther(kind: Kind, name: string, other: string, rest: string, depth: nat)
    requires '}' !in name && '}' !in other && Differs(kind, Opener(kind) + (name + "}"), other)
    requires Slashed(Opener(kind) + (name + "}"))
    ensures var whole, pat := Opener(kind) + (name + "}"), Opener(kind) + (other + "}");
            var with := "\"" + Inserted(kind, other) + "\"";
            var d, r := depth + Count(Opener(kind), other), ReplaceAll(rest, pat, with);
            && (AtTop(kind, whole, pat + rest, depth) <==> AtTop(kind, whole, rest, d))
            && ReplaceAll(pat + rest, pat, with) == with + r
            && (AtTop(kind, whole, with + r, depth) <==> AtTop(kind, whole, r, d))
  {
    hide Opener, Inserted, ReplaceAll, Count, AtTop, Slashed;
    var whole, pat := Opener(kind) + (name + "}"), Opener(kind) + (other + "}");
    var with := "\"" + Inserted(kind, other) + "\"";
    QuoteOutside(kind);
    assert whole[0..] == whole;
    if whole <= pat + rest { SameWhole(kind, name, other, rest); }
    ReplaceHere(pat, with, rest);
    TopOther(kind, whole, other, rest, depth);
    assert whole[|whole| - 1] == '}';
    TopInserted(kind, whole, other, ReplaceAll(rest, pat, with), depth);
  }

  /** The first placeholder of scanned text stands at the top. */
  lemma {:induction false} FirstAtTop(kind: Kind, whole: string, s: string)
    requires Scan(kind, s, 0).Some? && Has(s, Opener(kind)) && whole != ""
    requires whole <= s[Find(s, Opener(kind)).value..]
    ensures AtTop(kind, whole, s, 0)
    decreases |s|
  {
    hide Opener;
    QuoteOutside(kind);
    var op := Opener(kind);
    assert s[0..] == s;
    if !(op <= s) {
      assert s[Find(s, op).value..] == s[1..][Find(s[1..], op).value..];
      FirstAtTop(kind, whole, s[1..]);
    }
  }

  /** Without an opener nothing that starts with one stands anywhere. */
  lemma {:induction false} NothingAtTop(kind: Kind, whole: string, s: string, depth: nat)
    requires !Has(s, Opener(kind)) && Opener(kind) <= whole
    ensures !AtTop(kind, whole, s, depth)
    decreases |s|
  {
    if s != "" {
      PrefixOfPrefix(Opener(kind), whole, s);
      NothingAtTop(kind, whole, s[1..], if s[0] == '}' then (if depth > 0 then depth - 1 else 0) else depth);
      NothingAtTop(kind, whole, s[1..], depth + 1);
      NothingAtTop(kind, whole, s[1..], depth);
    }
  }

  /**
   A placeholder is swept exactly when it stands at the top of the text in front, if none of the placeholders
   that end it stands there.
   */
  lemma {:induction false} SweptIff(kind: Kind, front: string, name: string, more: string)
    requires Paired(kind, front) && '}' !in name
    requires Calm(Opener(kind) + (name + "}"), front) && InnerFresh(kind, Opener(kind) + (name + "}"), front)
    ensures var whole := Opener(kind) + (name + "}");
            Opener(kind) <= Sweep(kind, front, whole + more) <==> !AtTop(kind, whole, front, 0)
    decreases Count(Opener(kind), front)
  {
    hide Find, Scan, Inserted, Rewrite, Count, Name, Whole, Opener, AtTop, ReplaceAll, Calm, InnerFresh, Differs;
    var op, whole := Opener(kind), Opener(kind) + (name + "}");
    QuoteOutside(kind);
    if Open(kind, front) {
      ScannedWhole(kind, front);
      PassScanned(kind, front);
      PassProgress(kind, front);
      var other := Name(kind, front);
      var with := "\"" + Inserted(kind, other) + "\"";
      if other == name {
        SweptAway(kind, front, name, more);
      } else {
        OtherDiffers(kind, front, name);
        FreshSkipped(kind, name, more, other, with);
        RewriteIs(kind, front);
        TopReplaced(kind, name, other, front, 0);
        InnerKept(kind, front, name);
        CalmKept(kind, front, whole);
        SweptIff(kind, Rewrite(kind, front), name, ReplaceAll(more, Whole(kind, front), with));
      }
    } else {
      if Has(front, op) { PairedCloses(kind, front); }
      NothingAtTop(kind, whole, front, 0);
    }
  }

  /** The placeholder of a pass stands at the top, so it does not end this one. */
  lemma OtherDiffers(kind: Kind, front: string, name: string)
    requires Paired(kind, front) && Open(kind, front) && Name(kind, front) != name
    requires '}' !in name && InnerFresh(kind, Opener(kind) + (name + "}"), front)
    ensures Differs(kind, Opener(kind) + (name + "}"), Name(kind, front))
  {
    hide Find, Scan, Whole, Name, Opener, AtTop;
    QuoteOutside(kind);
    ScannedWhole(kind, front);
    WholeIsThere(kind, front);
    var op, whole, pat := Opener(kind), Opener(kind) + (name + "}"), Whole(kind, front);
    FirstAtTop(kind, pat, front);
    assert pat[..|op|] == op;
    forall k | 0 <= k < |whole| ensures whole[k..] != pat {
      if k == 0 {
        assert whole[0..] == whole;
        NameOfWhole(kind, name, Name(kind, front));
      }
    }
  }

  lemma NameOfWhole(kind: Kind, a: string, b: string)
    ensures Opener(kind) + (a + "}") == Opener(kind) + (b + "}") ==> a == b
  {
    hide Opener;
    var op := Opener(kind);
    var x, y := op + (a + "}"), op + (b + "}");
    assert x[|op|..|x| - 1] == a && y[|op|..|y| - 1] == b;
  }

  lemma EndOf(head: string, k: nat)
    requires k <= |head|
    ensures (head + "}")[k..] == head[k..] + "}" && (head + "}")[k..][..|head| - k] == head[k..]
    ensures (head + "}")[k..][|head| - k] == '}' && forall c :: c in head[k..] ==> c in head
  {
  }

  lemma OpenedBy(op: string, s: string)
    requires op <= s
    ensures s == op + s[|op|..] && forall c :: c in s[|op|..] ==> c in s
  {
  }

  /** The placeholder that ends another one, by its name. */
  lemma InnerName(kind: Kind, name: string, k: nat) returns (inner: string)
    requires '}' !in name && k < |Opener(kind) + (name + "}")|
    requires Opener(kind) <= (Opener(kind) + (name + "}"))[k..]
    ensures '}' !in inner && (Opener(kind) + (name + "}"))[k..] == Opener(kind) + (inner + "}")
  {
    hide Opener;
    QuoteOutside(kind);
    var op, head := Opener(kind), Opener(kind) + name;
    var whole := op + (name + "}");
    Assoc(op, name, "}");
    EndOf(head, k);
    ReachesNot(op, whole[k..], |head| - k);
    inner := head[k + |op|..];
    OpenedBy(op, head[k..]);
    assert head[k..][|op|..] == inner;
    Assoc(op, inner, "}");
  }

  /** A pass brings none of the placeholders that end this one to the top. */
  lemma InnerKept(kind: Kind, front: string, name: string)
    requires Paired(kind, front) && Open(kind, front) && '}' !in name
    requires Differs(kind, Opener(kind) + (name + "}"), Name(kind, front)) && Calm(Opener(kind) + (name + "}"), front)
    requires InnerFresh(kind, Opener(kind) + (name + "}"), front)
    ensures InnerFresh(kind, Opener(kind) + (name + "}"), Rewrite(kind, front))
  {
    hide Find, Scan, Whole, Name, Opener, AtTop, Inserted, Rewrite, Calm, Differs;
    ScannedWhole(kind, front);
    RewriteIs(kind, front);
    var whole := Opener(kind) + (name + "}");
    forall k | 0 < k < |whole| && Opener(kind) <= whole[k..] ensures !AtTop(kind, whole[k..], Rewrite(kind, front), 0) {
      var inner := InnerName(kind, name, k);
      DiffersBehind(kind, whole, Name(kind, front), k);
      CalmEnd(whole, front, k);
      TopReplaced(kind, inner, Name(kind, front), front, 0);
    }
  }

  lemma DiffersBehind(kind: Kind, whole: string, other: string, k: nat)
    requires Differs(kind, whole, other) && k <= |whole|
    ensures Differs(kind, whole[k..], other)
  {
    hide Opener;
    forall j | 0 <= j < |whole[k..]| ensures whole[k..][j..] != Opener(kind) + (other + "}") {
      assert whole[k..][j..] == whole[k + j..];
    }
  }

  lemma CalmEnd(whole: string, s: string, k: nat)
    requires Calm(whole, s) && k <= |whole|
    ensures Calm(whole[k..], s)
  {
  }

  lemma CalmKept(kind: Kind, front: string, whole: string)
    requires Paired(kind, front) && Open(kind, front) && Calm(whole, front)
    ensures Calm(whole, Rewrite(kind, front))
  {
    hide Find, Scan, Whole, Name, Opener, Inserted, Rewrite, SlashFree;
    ScannedWhole(kind, front);
    RewriteIs(kind, front);
    if '"' in whole {
      NameSlashFree(kind, front);
      SlashKept(kind, front, Name(kind, front));
    }
  }

  lemma NameSlashFree(kind: Kind, s: string)
    requires Open(kind, s) && SlashFree(s)
    ensures SlashFree(Name(kind, s))
  {
    hide Find, Opener;
    Marks(kind, s);
  }

  lemma InsertedSlashFree(kind: Kind, name: string)
    requires SlashFree(name)
    ensures SlashFree("\"" + Inserted(kind, name) + "\"")
  {
    hide SlashFree, Inserted;
    WordsSlashFree();
    QuotedInserted(kind, name);
    if kind == AsText {
      SlashThree("\" << std::to_string(", name, ") << \"");
    } else {
      SlashThree("\" << ", name, " << \"");
    }
  }

  lemma QuotedInserted(kind: Kind, name: string)
    ensures "\"" + Inserted(kind, name) + "\""
         == if kind == AsText then "\" << std::to_string(" + (name + ") << \"") else "\" << " + (name + " << \"")
  {
    if kind == AsText {
      Around("\"", " << std::to_string(", name, ") << ");
      assert "\"" + " << std::to_string(" == "\" << std::to_string(" && ") << " + "\"" == ") << \"";
    } else {
      Around("\"", " << ", name, " << ");
      assert "\"" + " << " == "\" << " && " << " + "\"" == " << \"";
    }
  }

  lemma Around(q: string, a: string, name: string, b: string)
    ensures q + (a + name + b) + q == (q + a) + (name + (b + q))
  {
  }

  lemma SlashJoin(a: string, b: string)
    requires SlashFree(a) && SlashFree(b) && (a == "" || a[|a| - 1] != '\\' || b == "" || b[0] != '$')
    ensures SlashFree(a + b)
  {
  }

  lemma WordsSlashFree()
    ensures SlashFree("\" << std::to_string(") && SlashFree("\" << ") && SlashFree(") << \"") && SlashFree(" << \"")
  {
  }

  /** Text in which no backslash is the last character, or no dollar sign is. */
  lemma SlashThree(a: string, b: string, c: string)
    requires SlashFree(a) && SlashFree(b) && SlashFree(c)
    requires a != "" && a[|a| - 1] != '\\' && c != "" && c[0] != '$'
    ensures SlashFree(a + (b + c))
  {
    hide SlashFree;
    SlashJoin(b, c);
    SlashJoin(a, b + c);
  }

  /** Replacing placeholders puts no backslash in front of a dollar sign. */
  lemma {:induction false} SlashKept(kind: Kind, s: string, name: string)
    requires SlashFree(s) && SlashFree(name)
    ensures SlashFree(ReplaceAll(s, Opener(kind) + (name + "}"), "\"" + Inserted(kind, name) + "\""))
    decreases |s|
  {
    hide Opener, Inserted, ReplaceAll, SlashFree;
    QuoteOutside(kind);
    var pat, with := Opener(kind) + (name + "}"), "\"" + Inserted(kind, name) + "\"";
    if s == "" {
      ReplaceEmpty(pat, with);
    } else if pat <= s {
      var rest := s[|pat|..];
      assert s == pat + rest;
      ReplaceHere(pat, with, rest);
      SlashBehind(s, |pat|);
      SlashKept(kind, rest, name);
      InsertedSlashFree(kind, name);
      SlashJoin(with, ReplaceAll(rest, pat, with));
    } else {
      ReplacePassed(s, pat, with);
      SlashBehind(s, 1);
      SlashKept(kind, s[1..], name);
      SlashOne(s, ReplaceAll(s[1..], pat, with));
      StartKept(s[1..], pat, with);
    }
  }

  lemma SlashBehind(s: string, k: nat)
    requires SlashFree(s) && k <= |s|
    ensures SlashFree(s[k..])
  {
  }

  lemma SlashOne(s: string, r: string)
    requires s != "" && SlashFree(s) && SlashFree(r)
    ensures (|s| > 1 && r != "" ==> r[0] == s[1] || r[0] == '"') && (|s| == 1 ==> r == "") ==> SlashFree([s[0]] + r)
  {
  }

  lemma StartKept(s: string, pat: string, with: string)
    requires pat != "" && with != "" && with[0] == '"'
    ensures var r := ReplaceAll(s, pat, with);
            (s == "" ==> r == "") && (s != "" && r != "" ==> r[0] == s[0] || r[0] == '"')
  {
  }

  lemma RewriteIs(kind: Kind, s: string)
    requires Open(kind, s)
    ensures Rewrite(kind, s) == ReplaceAll(s, Whole(kind, s), "\"" + Inserted(kind, Name(kind, s)) + "\"")
  {
  }

  /** When the pass at hand replaces this very placeholder. */
  lemma SweptAway(kind: Kind, front: string, name: string, more: string)
    requires Paired(kind, front) && Open(kind, front) && Name(kind, front) == name
    ensures var whole := Opener(kind) + (name + "}");
            !(Opener(kind) <= Sweep(kind, front, whole + more)) && AtTop(kind, whole, front, 0)
  {
    hide Find, Scan, Inserted, Rewrite, Count, Name, Whole, Opener, AtTop, ReplaceAll;
    var whole := Opener(kind) + (name + "}");
    QuoteOutside(kind);
    ScannedWhole(kind, front);
    PassScanned(kind, front);
    PassProgress(kind, front);
    var with := "\"" + Inserted(kind, name) + "\"";
    ReplaceHere(whole, with, more);
    SweepStarts(kind, Rewrite(kind, front), with + ReplaceAll(more, whole, with));
    WholeIsThere(kind, front);
    FirstAtTop(kind, whole, front);
  }

  lemma WholeIsThere(kind: Kind, s: string)
    requires Open(kind, s) && Scan(kind, s, 0).Some?
    ensures Whole(kind, s) <= s[OpenAt(kind, s)..] && Whole(kind, s) != ""
  {
    hide Find, Scan, Opener;
    ScannedWhole(kind, s);
    Marks(kind, s);
    var o, c := OpenAt(kind, s), CloseAt(s);
    assert s[o..][..c + 1 - o] == s[o..c + 1];
  }

  /** Standing at the top, said with a position. */
  lemma {:induction false} TopIff(kind: Kind, whole: string, s: string, depth: nat)
    requires whole != "" && whole[0] == '$'
    ensures AtTop(kind, whole, s, depth)
       <==> exists o :: 0 <= o <= |s| && Scan(kind, s[..o], depth) == Some(0) && whole <= s[o..]
    decreases |s|
  {
    hide Scan, Opener;
    if s == "" {
      assert forall o :: 0 <= o <= |s| ==> s[o..] == "";
    } else if depth == 0 && whole <= s {
      ScanNothing(kind, depth);
      assert s[..0] == "" && s[0..] == s;
    } else if s[0] == '}' && depth == 0 {
      forall o | 0 <= o <= |s| ensures !(Scan(kind, s[..o], depth) == Some(0) && whole <= s[o..]) {
        if o == 0 { assert s[0..] == s; } else { ScanLoose(kind, s[..o]); }
      }
    } else {
      TopIff(kind, whole, s[1..], if s[0] == '}' then depth - 1 else if Opener(kind) <= s then depth + 1 else depth);
      TopStep(kind, whole, s, depth);
    }
  }

  lemma ScanLoose(kind: Kind, s: string)
    requires s != "" && s[0] == '}'
    ensures Scan(kind, s, 0).None?
  {
  }

  lemma TopStep(kind: Kind, whole: string, s: string, depth: nat)
    requires whole != "" && whole[0] == '$' && s != "" && !(depth == 0 && whole <= s)
    requires s[0] == '}' ==> depth > 0
    ensures var d := if s[0] == '}' then depth - 1 else if Opener(kind) <= s then depth + 1 else depth;
            ((exists o :: 0 <= o <= |s| && Scan(kind, s[..o], depth) == Some(0) && whole <= s[o..])
             <==> exists o :: 0 <= o <= |s[1..]| && Scan(kind, s[1..][..o], d) == Some(0) && whole <= s[1..][o..])
  {
    hide Scan, Opener;
    var d := if s[0] == '}' then depth - 1 else if Opener(kind) <= s then depth + 1 else depth;
    forall o | 1 <= o <= |s| && whole <= s[o..]
      ensures Scan(kind, s[..o], depth) == Scan(kind, s[1..][..o - 1], d) && s[o..] == s[1..][o - 1..]
    {
      CutScan(kind, s, o, depth);
    }
    if o :| 0 <= o <= |s| && Scan(kind, s[..o], depth) == Some(0) && whole <= s[o..] {
      assert o != 0 by {
        assert s[0..] == s && s[..0] == "";
        ScanNothing(kind, depth);
      }
      assert Scan(kind, s[1..][..o - 1], d) == Some(0) && whole <= s[1..][o - 1..];
    }
    if o :| 0 <= o <= |s[1..]| && Scan(kind, s[1..][..o], d) == Some(0) && whole <= s[1..][o..] {
      assert s[1..][o..] == s[o + 1..];
      assert Scan(kind, s[..o + 1], depth) == Some(0) && whole <= s[o + 1..];
    }
  }

  lemma ScanNothing(kind: Kind, depth: nat)
    ensures Scan(kind, "", depth) == Some(depth)
  {
  }

  /** Cutting in front of a dollar sign cuts no opener. */
  lemma CutScan(kind: Kind, s: string, o: nat, depth: nat)
    requires 1 <= o < |s| && s[o] == '$' && (s[0] == '}' ==> depth > 0)
    ensures var d := if s[0] == '}' then depth - 1 else if Opener(kind) <= s then depth + 1 else depth;
            Scan(kind, s[..o], depth) == Scan(kind, s[1..][..o - 1], d)
  {
    assert s[..o][1..] == s[1..][..o - 1];
    var op := Opener(kind);
    assert op <= s <==> op <= s[..o] by {
      if o < |op| {
        OneDollar(kind, o);
      } else {
        assert |op| <= |s| && s[..o][..|op|] == s[..|op|];
      }
    }
  }

  lemma {:induction false} UnclosedSwept(kind: Kind, front: string, tail: string)
    requires Scan(kind, front, 0).Some? && !Has(tail, "}")
    ensures Sweep(kind, front, tail) == tail
    decreases Count(Opener(kind), front)
  {
    hide Find, Scan, Inserted, Rewrite, Count, Name, Whole, Opener;
    if Open(kind, front) {
      ScannedWhole(kind, front);
      PassScanned(kind, front);
      PassProgress(kind, front);
      var pat, with := Whole(kind, front), "\"" + Inserted(kind, Name(kind, front)) + "\"";
      forall k | 0 <= k < |tail| ensures !(pat <= (tail + "")[k..]) {
        assert pat[|pat| - 1] == '}';
        forall i | 0 <= i < |tail| ensures tail[i] != '}' { NotFound(tail, "}", i); assert tail[i..][0] == tail[i]; }
        if |pat| <= |tail| - k { assert tail[k..][|pat| - 1] == tail[k + |pat| - 1]; }
        assert tail + "" == tail;
      }
      ReplaceSkip(tail, "", pat, with);
      assert tail + "" == tail;
      UnclosedSwept(kind, Rewrite(kind, front), tail);
    }
  }

  /** The placeholder behind the brace, if it is closed, can be told from the text that replacing puts in front. */
  ghost predicate Tame(kind: Kind, front: string, tail: string) {
    Opener(kind) <= tail && Open(kind, tail)
    ==> Calm(Whole(kind, tail), front) && InnerFresh(kind, Whole(kind, tail), front)
  }

  /** It is so for every placeholder without another one and without a quote in its name. */
  lemma PlainTame(kind: Kind, front: string, name: string)
    requires PlainName(kind, name)
    ensures var whole := Opener(kind) + (name + "}"); Calm(whole, front) && InnerFresh(kind, whole, front)
  {
    hide Opener, Find, AtTop;
    QuoteOutside(kind);
    var op, whole := Opener(kind), Opener(kind) + (name + "}");
    assert '"' !in whole;
    forall k | 0 < k < |whole| ensures !(op <= whole[k..]) {
      CountFound(op, name);
      NoOpenerInside(kind, name, "", k);
      assert whole + "" == whole;
    }
  }

  /**
   For text `front` without a loose brace, a brace behind it and then `tail`: the loop never ends if and only if
   `tail` starts with an opener, and the placeholder this opens, if it is closed, does not stand in `front`
   behind paired text too.
   */
  lemma HangsIfGlued(kind: Kind, front: string, tail: string)
    requires Paired(kind, front) && Tame(kind, front, tail)
    ensures Expand(kind, front + ("}" + tail)).None?
       <==> Opener(kind) <= tail && (Open(kind, tail) ==> !Repeated(kind, Whole(kind, tail), front))
  {
    hide Find, Scan, Inserted, Count, Name, Whole, Opener, Expand, Sweep, AtTop, Calm, InnerFresh;
    LooseHangs(kind, front, tail);
    SweepStarts(kind, front, tail);
    QuoteOutside(kind);
    if Opener(kind) <= tail {
      if Open(kind, tail) {
        var more := StartsWith(kind, tail);
        SweptIff(kind, front, Name(kind, tail), more);
        TopIff(kind, Whole(kind, tail), front, 0);
      } else {
        assert tail[0..] == tail;
        FoundNoLater(tail, Opener(kind), 0);
        UnclosedSwept(kind, front, tail);
      }
    }
  }

  /** The same about the first loose brace of a line. */
  ghost predicate TameLine(kind: Kind, line: string) {
    match Loose(kind, line, 0)
    case None => true
    case Some(p) => Tame(kind, line[..p], line[p + 1..])
  }

  /** A brace is loose, an opener stands right behind it, and its placeholder, if closed, not in front of it too. */
  ghost predicate GluedLine(kind: Kind, line: string) {
    match Loose(kind, line, 0)
    case None => false
    case Some(p) =>
      var tail := line[p + 1..];
      Opener(kind) <= tail && (Open(kind, tail) ==> !Repeated(kind, Whole(kind, tail), line[..p]))
  }

  /** The same said of a line. */
  lemma LineHangsIff(kind: Kind, line: string)
    requires TameLine(kind, line)
    ensures Expand(kind, line).None? <==> GluedLine(kind, line)
  {
    hide Expand, Whole, Opener, Tame, Repeated;
    match Loose(kind, line, 0)
    case None => ScannedEnds(kind, line);
    case Some(p) =>
      LooseParts(kind, line, 0);
      assert line == line[..p] + ("}" + line[p + 1..]);
      HangsIfGlued(kind, line[..p], line[p + 1..]);
  }

  /** Quotes of a line as the generators prepare it stand behind backslashes. */
  lemma {:induction false} PreparedSlashed(s: string)
    ensures var e := EscapeQuotes(s); Slashed(e) && (e != "" ==> e[0] != '"')
    decreases |s|
  {
    hide EscapeQuotes;
    if s == "" {
      EscapeNothing("");
    } else {
      PreparedSlashed(s[1..]);
      EscapeStep(s[0], s[1..]);
      assert s == [s[0]] + s[1..];
    }
  }

  /**
   On a prepared line it takes no more than this: no backslash right in front of a dollar sign, and no placeholder
   that ends the one behind the loose brace in front of that brace, behind paired text.
   */
  lemma PreparedTame(kind: Kind, s: string)
    requires SlashFree(EscapeQuotes(s))
    requires match Loose(kind, EscapeQuotes(s), 0)
             case None => true
             case Some(p) =>
               var front, tail := EscapeQuotes(s)[..p], EscapeQuotes(s)[p + 1..];
               Opener(kind) <= tail && Open(kind, tail) ==> InnerFresh(kind, Whole(kind, tail), front)
    ensures TameLine(kind, EscapeQuotes(s))
  {
    hide EscapeQuotes, Loose, InnerFresh, Opener, Slashed, SlashFree, Whole;
    PreparedSlashed(s);
    var line := EscapeQuotes(s);
    match Loose(kind, line, 0)
    case None =>
    case Some(p) =>
      var tail := line[p + 1..];
      if Opener(kind) <= tail && Open(kind, tail) {
        var more := StartsWith(kind, tail);
        SlashedPart(line, p + 1, Whole(kind, tail), more);
        SlashFront(line, p);
      }
  }

  lemma SlashedPart(line: string, from: nat, whole: string, more: string)
    requires Slashed(line) && from <= |line| && line[from..] == whole + more
    ensures Slashed(whole)
  {
    assert forall k :: 0 <= k < |whole| ==> whole[k] == (whole + more)[k] == line[from + k];
  }

  lemma SlashFront(s: string, k: nat)
    requires SlashFree(s) && k <= |s|
    ensures SlashFree(s[..k])
  {
  }

  /** A line on which the first loop has nothing to do. */
  lemma WithoutTextSlots(line: string)
    requires !Open(AsText, line) && TameLine(AsIs, line)
    ensures ExpandLine(line).None? <==> GluedLine(AsIs, line)
  {
    hide TameLine, GluedLine;
    LineHangsIff(AsIs, line);
  }
}
