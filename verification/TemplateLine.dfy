/**
 Lines with well-formed placeholders: literal text without a closing brace or an opener, and placeholders,
 all `$_S{..}` before any `${..}`. On such lines both expansions are computed piece by piece.
 */
module TemplateLine {
  import opened Common
  import opened TemplateText
  import opened TemplateExpand

  /**
   A piece of a line; `Done` is a placeholder already rewritten, between the quotes that close and reopen the literal.
   */
  datatype Seg = Lit(text: string) | Slot(kind: Kind, name: string) | Done(code: string) {
    function Text(): string {
      match this
      case Lit(text) => text
      case Slot(kind, name) => Opener(kind) + (name + "}")
      case Done(code) => "\"" + code + "\""
    }

    predicate Ok() {
      match this
      case Lit(text) => '}' !in text && !Has(text, Opener(AsText)) && !Has(text, Opener(AsIs))
      case Slot(_, name) => NameOk(name)
      case Done(code) => '$' !in code && '}' !in code
    }
  }

  predicate NameOk(name: string) {
    '$' !in name && '}' !in name && '"' !in name && '\n' !in name
  }

  function Render(segs: seq<Seg>): string {
    if segs == [] then "" else segs[0].Text() + Render(segs[1..])
  }

  /** Every piece is in order, and no two literals touch. */
  predicate Neat(segs: seq<Seg>) {
    segs == [] || (segs[0].Ok() && (segs[0].Lit? && |segs| > 1 ==> !segs[1].Lit?) && Neat(segs[1..]))
  }

  predicate HasSlot(kind: Kind, segs: seq<Seg>) {
    segs != [] && ((segs[0].Slot? && segs[0].kind == kind) || HasSlot(kind, segs[1..]))
  }

  /** No `$_S{..}` behind a `${..}`. */
  predicate Sorted(segs: seq<Seg>) {
    segs == [] || ((segs[0].Slot? && segs[0].kind == AsIs ==> !HasSlot(AsText, segs[1..])) && Sorted(segs[1..]))
  }

  /** The first placeholder is of this kind. */
  predicate Leads(kind: Kind, segs: seq<Seg>) {
    segs != [] && if segs[0].Slot? then segs[0].kind == kind else Leads(kind, segs[1..])
  }

  // ---------- where openers start ----------

  ghost predicate NoStart(pat: string, x: string, rest: string) {
    forall k :: 0 <= k < |x| ==> !(pat <= (x + rest)[k..])
  }

  lemma NoStartOf(pat: string, x: string, rest: string)
    requires pat != "" && pat[0] !in x
    ensures NoStart(pat, x, rest)
  {
    forall k | 0 <= k < |x| ensures !(pat <= (x + rest)[k..]) {
      assert (x + rest)[k..][0] == x[k];
    }
  }

  lemma OpenerTail(kind: Kind, j: nat)
    requires 0 < j < |Opener(kind)|
    ensures Opener(kind)[j] != '$' && Opener(kind)[j] != '"'
  {
  }

  lemma LitNoStart(kind: Kind, t: string, rest: string)
    requires Lit(t).Ok() && (rest == "" || rest[0] == '$' || rest[0] == '"')
    ensures NoStart(Opener(kind), t, rest)
  {
    hide Find, Opener;
    var op := Opener(kind);
    forall k | 0 <= k < |t| ensures !(op <= (t + rest)[k..]) {
      var s := (t + rest)[k..];
      if |op| <= |t| - k {
        assert s[..|op|] == t[k..][..|op|];
        assert !(op <= t[k..]) by { assert Has(t, op) == false; }
      } else if rest != "" {
        OpenerTail(kind, |t| - k);
        assert (t + rest)[|t|] == rest[0];
        assert s[|t| - k] == (t + rest)[k + (|t| - k)];
      }
    }
  }

  lemma SegFirst(seg: Seg)
    requires !seg.Lit?
    ensures seg.Text() != "" && (seg.Text()[0] == '$' || seg.Text()[0] == '"')
  {
  }

  /** Behind a literal comes the end or a piece that starts with `$` or a quote. */
  lemma RestFirst(segs: seq<Seg>)
    requires Neat(segs) && segs != [] && segs[0].Lit?
    ensures var rest := Render(segs[1..]); rest == "" || rest[0] == '$' || rest[0] == '"'
  {
    if |segs| > 1 { SegFirst(segs[1]); }
  }

  lemma SlotNoStart(kind: Kind, k': Kind, name: string, rest: string)
    requires NameOk(name) && kind != k'
    ensures NoStart(Opener(kind), Slot(k', name).Text(), rest)
  {
    var op, x := Opener(kind), Slot(k', name).Text();
    var tail := x[1..];
    assert '$' !in tail by { SlotTail(k', name); }
    forall k | 0 <= k < |x| ensures !(op <= (x + rest)[k..]) {
      if k == 0 {
        assert (x + rest)[0..][1] == x[1] == Opener(k')[1];
      } else {
        assert (x + rest)[k..][0] == tail[k - 1];
      }
    }
  }

  lemma SlotTail(kind: Kind, name: string)
    requires NameOk(name)
    ensures var x := Slot(kind, name).Text(); |x| > 1 && x[0] == '$' && '$' !in x[1..]
  {
    var x := Slot(kind, name).Text();
    assert x[1..] == Opener(kind)[1..] + (name + "}");
  }

  /** An opener of a kind starts only at the placeholders of that kind. */
  lemma SegNoStart(kind: Kind, segs: seq<Seg>)
    requires Neat(segs) && segs != [] && !(segs[0].Slot? && segs[0].kind == kind)
    ensures NoStart(Opener(kind), segs[0].Text(), Render(segs[1..]))
  {
    hide Opener, NoStart;
    match segs[0]
    case Lit(t) => RestFirst(segs); LitNoStart(kind, t, Render(segs[1..]));
    case Slot(k', name) => SlotNoStart(kind, k', name, Render(segs[1..]));
    case Done(code) => NoStartOf(Opener(kind), segs[0].Text(), Render(segs[1..]));
  }

  lemma FindAfter(x: string, rest: string, pat: string)
    requires NoStart(pat, x, rest)
    ensures Find(x + rest, pat) == match Find(rest, pat) case None => None case Some(i) => Some(|x| + i)
  {
    hide Find;
    var s := x + rest;
    forall k | |x| <= k <= |s| ensures s[k..] == rest[k - |x|..] {}
    match Find(rest, pat)
    case None =>
      forall k | 0 <= k <= |s| ensures !(pat <= s[k..]) {
        if |x| <= k { assert !(pat <= rest[k - |x|..]); }
      }
    case Some(i) =>
      forall k | 0 <= k < |x| + i ensures !(pat <= s[k..]) {
        if |x| <= k { assert !(pat <= rest[k - |x|..]); }
      }
      assert s[|x| + i..] == rest[i..];
      FindIs(s, pat, |x| + i);
  }

  lemma {:induction false} NoSlotNoOpener(kind: Kind, segs: seq<Seg>)
    requires Neat(segs) && !HasSlot(kind, segs)
    ensures !Has(Render(segs), Opener(kind))
    decreases |segs|
  {
    hide Find, Opener, NoStart;
    if segs == [] {
      NoneInEmpty(Opener(kind));
    } else {
      NoSlotNoOpener(kind, segs[1..]);
      SegNoStart(kind, segs);
      FindAfter(segs[0].Text(), Render(segs[1..]), Opener(kind));
    }
  }

  lemma NoneInEmpty(pat: string)
    requires pat != ""
    ensures Find("", pat).None?
  {
  }

  // ---------- the first placeholder ----------

  /** Where the loops find the first placeholder, and what they take for it. */
  lemma SlotFound(kind: Kind, name: string, rest: string)
    requires NameOk(name)
    ensures var s := Slot(kind, name).Text() + rest;
            && Find(s, Opener(kind)) == Some(0) && Find(s, "}") == Some(|Opener(kind)| + |name|)
  {
    hide Find, Opener;
    var op := Opener(kind);
    var s := Slot(kind, name).Text() + rest;
    assert s[0..] == s && s[..|op|] == op;
    FindIs(s, op, 0);
    assert s == (op + name) + ("}" + rest);
    assert '}' !in op + name;
    NoStartOf("}", op + name, "}" + rest);
    FindAfter(op + name, "}" + rest, "}");
    assert ("}" + rest)[0..][..1] == "}";
    FindIs("}" + rest, "}", 0);
  }

  /** The same behind text that holds no opener and no closing brace. */
  lemma FirstSlot(kind: Kind, before: string, name: string, rest: string)
    requires NameOk(name) && '}' !in before && NoStart(Opener(kind), before, Slot(kind, name).Text() + rest)
    ensures var line := before + (Slot(kind, name).Text() + rest);
            && Open(kind, line) && !Stuck(kind, line) && OpenAt(kind, line) == |before|
            && Name(kind, line) == name && Whole(kind, line) == Slot(kind, name).Text()
            && CloseAt(line) + 1 <= |line| && line[CloseAt(line) + 1..] == rest && line[..|before|] == before
  {
    hide Find, Opener;
    var op, slot := Opener(kind), Slot(kind, name).Text();
    var line := before + (slot + rest);
    SlotFound(kind, name, rest);
    FindAfter(before, slot + rest, op);
    NoStartOf("}", before, slot + rest);
    FindAfter(before, slot + rest, "}");
    var o, c := |before|, |before| + |op| + |name|;
    assert line[o..c + 1] == slot;
    assert line[o + |op|..c] == name;
    assert line[c + 1..] == rest;
  }

  // ---------- rewriting, piece by piece ----------

  /** One pass: every placeholder with the same kind and name is done. */
  function Fill(kind: Kind, name: string, segs: seq<Seg>): (r: seq<Seg>)
    ensures |r| == |segs|
  {
    if segs == [] then []
    else [if segs[0] == Slot(kind, name) then Done(Inserted(kind, name)) else segs[0]] + Fill(kind, name, segs[1..])
  }

  /** All passes of one loop. */
  function FillAll(kind: Kind, segs: seq<Seg>): (r: seq<Seg>)
    ensures |r| == |segs|
  {
    if segs == [] then []
    else
      var first := if segs[0].Slot? && segs[0].kind == kind then Done(Inserted(kind, segs[0].name)) else segs[0];
      [first] + FillAll(kind, segs[1..])
  }

  lemma InsertedOk(kind: Kind, name: string)
    requires NameOk(name)
    ensures Done(Inserted(kind, name)).Ok()
  {
    var pre := if kind == AsText then " << std::to_string(" else " << ";
    var post := if kind == AsText then ") << " else " << ";
    WordsPlain();
    assert Inserted(kind, name) == (pre + name) + post;
    NotInJoin('$', pre, name, post);
    NotInJoin('}', pre, name, post);
  }

  lemma WordsPlain()
    ensures '$' !in " << std::to_string(" && '}' !in " << std::to_string(" && '$' !in " << " && '}' !in " << "
    ensures '$' !in ") << " && '}' !in ") << "
  {
  }

  lemma NotInJoin(c: char, a: string, b: string, d: string)
    requires c !in a && c !in b && c !in d
    ensures c !in (a + b) + d
  {
  }

  lemma {:induction false} FillKeeps(kind: Kind, name: string, segs: seq<Seg>)
    requires Neat(segs) && NameOk(name)
    ensures var r := Fill(kind, name, segs);
            && Neat(r) && FillAll(kind, r) == FillAll(kind, segs)
            && (Sorted(segs) ==> Sorted(r))
            && (forall k :: HasSlot(k, r) ==> HasSlot(k, segs))
            && (segs != [] ==> (r[0].Lit? ==> segs[0].Lit?))
    decreases |segs|
  {
    hide Inserted, Opener;
    if segs != [] {
      InsertedOk(kind, name);
      FillKeeps(kind, name, segs[1..]);
      var r := Fill(kind, name, segs);
      assert r[1..] == Fill(kind, name, segs[1..]);
      assert |segs| > 1 ==> r[1] == r[1..][0] && segs[1] == segs[1..][0];
    }
  }

  function Slots(kind: Kind, segs: seq<Seg>): nat {
    if segs == [] then 0 else (if segs[0].Slot? && segs[0].kind == kind then 1 else 0) + Slots(kind, segs[1..])
  }

  lemma {:induction false} FillDrops(kind: Kind, name: string, segs: seq<Seg>)
    ensures Slots(kind, Fill(kind, name, segs)) <= Slots(kind, segs)
    ensures Slot(kind, name) in segs ==> Slots(kind, Fill(kind, name, segs)) < Slots(kind, segs)
    decreases |segs|
  {
    if segs != [] {
      FillDrops(kind, name, segs[1..]);
      assert Fill(kind, name, segs)[1..] == Fill(kind, name, segs[1..]);
    }
  }

  lemma PrefixCons(c: char, x: string, y: string)
    ensures [c] + x <= [c] + y <==> x <= y
  {
    var p, s := [c] + x, [c] + y;
    assert p[1..] == x && s[1..] == y;
    if |x| <= |y| {
      assert s[..|p|] == [c] + y[..|x|];
      assert p <= s <==> p == s[..|p|];
      assert p == s[..|p|] <==> x == y[..|x|] by {
        assert s[..|p|][1..] == y[..|x|];
      }
    }
  }

  lemma {:induction false} SameName(a: string, b: string, rest: string)
    requires '}' !in a && '}' !in b
    ensures a + "}" <= b + ("}" + rest) <==> a == b
    decreases |a|
  {
    var p, s := a + "}", b + ("}" + rest);
    assert s[0] == if b == "" then '}' else b[0];
    if a == b {
      assert s[..|p|] == p;
    } else if a != "" && b != "" && a[0] == b[0] {
      SameName(a[1..], b[1..], rest);
      assert a == [a[0]] + a[1..] && b == [b[0]] + b[1..];
      assert p == [a[0]] + (a[1..] + "}") && s == [a[0]] + (b[1..] + ("}" + rest));
      PrefixCons(a[0], a[1..] + "}", b[1..] + ("}" + rest));
    } else {
      assert p[0] != s[0] by {
        assert p[0] == if a == "" then '}' else a[0];
        assert a != "" ==> a[0] in a;
        assert b != "" ==> b[0] in b;
      }
    }
  }

  /** The pattern of one placeholder stands at the front of another only if they are the same. */
  lemma SamePlaceholder(kind: Kind, name: string, name': string, rest: string)
    requires NameOk(name) && NameOk(name')
    ensures Slot(kind, name).Text() <= Slot(kind, name').Text() + rest <==> name == name'
  {
    hide Opener;
    var op := Opener(kind);
    var p, s := Slot(kind, name).Text(), Slot(kind, name').Text() + rest;
    var a, b := name + "}", name' + ("}" + rest);
    assert p == op + a && s == op + b;
    assert p[|op|..] == a && s[|op|..] == b;
    assert p <= s ==> a <= b;
    assert a <= b ==> s[..|p|] == op + b[..|a|];
    SameName(name, name', rest);
  }

  /** Replacing one placeholder in the text of a line is filling it in the pieces. */
  lemma {:induction false} ReplaceSegs(kind: Kind, name: string, segs: seq<Seg>)
    requires Neat(segs) && NameOk(name)
    ensures ReplaceAll(Render(segs), Slot(kind, name).Text(), Done(Inserted(kind, name)).Text())
            == Render(Fill(kind, name, segs))
    decreases |segs|
  {
    hide Opener, Inserted, Find, ReplaceAll;
    var pat, with := Slot(kind, name).Text(), Done(Inserted(kind, name)).Text();
    if segs == [] {
      ReplaceEmpty(pat, with);
    } else {
      ReplaceSegs(kind, name, segs[1..]);
      var x, rest := segs[0].Text(), Render(segs[1..]);
      assert Fill(kind, name, segs)[1..] == Fill(kind, name, segs[1..]);
      if segs[0] == Slot(kind, name) {
        ReplaceHere(pat, with, rest);
      } else {
        NotHere(kind, name, segs);
        ReplaceSkip(x, rest, pat, with);
      }
    }
  }

  /** The pattern does not start in any piece but its own placeholder. */
  lemma NotHere(kind: Kind, name: string, segs: seq<Seg>)
    requires Neat(segs) && segs != [] && NameOk(name) && segs[0] != Slot(kind, name)
    ensures NoStart(Slot(kind, name).Text(), segs[0].Text(), Render(segs[1..]))
  {
    hide Opener, Find;
    var op, pat := Opener(kind), Slot(kind, name).Text();
    var x, rest := segs[0].Text(), Render(segs[1..]);
    if segs[0].Slot? && segs[0].kind == kind {
      SlotTail(kind, segs[0].name);
      SlotTail(kind, name);
      SamePlaceholder(kind, name, segs[0].name, rest);
      forall k | 0 <= k < |x| ensures !(pat <= (x + rest)[k..]) {
        if k == 0 {
          assert (x + rest)[0..] == x + rest;
        } else {
          assert (x + rest)[k..][0] == x[1..][k - 1];
        }
      }
    } else {
      SegNoStart(kind, segs);
      assert op <= pat;
    }
  }

  /** The first placeholder of a kind, with no placeholder before it. */
  lemma {:induction false} SplitSlot(kind: Kind, segs: seq<Seg>) returns (before: string, name: string, rest: string)
    requires Neat(segs) && Leads(kind, segs)
    ensures NameOk(name) && Slot(kind, name) in segs && Render(segs) == before + (Slot(kind, name).Text() + rest)
    ensures '}' !in before && NoStart(Opener(kind), before, Slot(kind, name).Text() + rest)
    decreases |segs|
  {
    hide Opener, Find, NoStart, Leads, Neat, NameOk, Seg.Ok;
    FirstLeads(kind, segs);
    if segs[0].Slot? {
      before, name, rest := "", segs[0].name, Render(segs[1..]);
      NoStartEmpty(Opener(kind), Slot(kind, name).Text() + rest);
      assert "" + (Slot(kind, name).Text() + rest) == Slot(kind, name).Text() + rest;
    } else {
      var more;
      more, name, rest := SplitSlot(kind, segs[1..]);
      before := segs[0].Text() + more;
      SplitBehind(kind, segs, more, Slot(kind, name).Text() + rest);
    }
  }

  /** A piece that is no placeholder of the kind, in front of what was split. */
  lemma SplitBehind(kind: Kind, segs: seq<Seg>, more: string, line: string)
    requires Neat(segs) && segs != [] && !segs[0].Slot? && Render(segs[1..]) == more + line
    requires NoStart(Opener(kind), more, line)
    ensures Render(segs) == (segs[0].Text() + more) + line
    ensures NoStart(Opener(kind), segs[0].Text() + more, line)
  {
    hide Opener, NoStart, Neat, Seg.Text, Seg.Ok;
    var x := segs[0].Text();
    assert x + (more + line) == (x + more) + line;
    SegNoStart(kind, segs);
    NoStartBoth(Opener(kind), x, more, line);
  }

  lemma FirstLeads(kind: Kind, segs: seq<Seg>)
    requires Neat(segs) && Leads(kind, segs)
    ensures segs != [] && Neat(segs[1..])
    ensures segs[0].Slot? ==> segs[0] == Slot(kind, segs[0].name) && NameOk(segs[0].name)
    ensures !segs[0].Slot? ==> Leads(kind, segs[1..]) && '}' !in segs[0].Text()
  {
  }

  lemma {:induction false} SortedLeads(kind: Kind, segs: seq<Seg>)
    requires HasSlot(kind, segs) && Sorted(segs) && (kind == AsIs ==> !HasSlot(AsText, segs))
    ensures Leads(kind, segs)
    decreases |segs|
  {
    if !segs[0].Slot? { SortedLeads(kind, segs[1..]); }
  }

  /** A line that starts with a placeholder starts with one of the kind the loop looks for. */
  lemma FirstKind(kind: Kind, segs: seq<Seg>)
    requires Neat(segs) && HasSlot(kind, segs) && Sorted(segs) && (kind == AsIs ==> !HasSlot(AsText, segs))
    ensures segs[0].Slot? ==> segs[0] == Slot(kind, segs[0].name) && NameOk(segs[0].name)
    ensures !segs[0].Slot? ==> HasSlot(kind, segs[1..]) && '}' !in segs[0].Text()
  {
  }

  lemma NoStartEmpty(pat: string, rest: string)
    ensures NoStart(pat, "", rest)
  {
  }

  lemma NoStartBoth(pat: string, x: string, y: string, rest: string)
    requires NoStart(pat, x, y + rest) && NoStart(pat, y, rest)
    ensures NoStart(pat, x + y, rest)
  {
    assert x + y + rest == x + (y + rest);
    forall k | 0 <= k < |x + y| ensures !(pat <= (x + y + rest)[k..]) {
      if |x| <= k { assert (x + y + rest)[k..] == (y + rest)[k - |x|..]; }
    }
  }

  /** One loop of the rewriting generator fills in all placeholders of its kind, and ends. */
  lemma {:induction false} ExpandSegs(kind: Kind, segs: seq<Seg>)
    requires Neat(segs) && Sorted(segs) && (kind == AsIs ==> !HasSlot(AsText, segs))
    ensures Expand(kind, Render(segs)) == Some(Render(FillAll(kind, segs)))
    decreases Slots(kind, segs)
  {
    hide Opener, Find, Inserted, NoStart;
    if HasSlot(kind, segs) {
      SortedLeads(kind, segs);
      var before, name, rest := SplitSlot(kind, segs);
      FirstSlot(kind, before, name, rest);
      ReplaceSegs(kind, name, segs);
      FillKeeps(kind, name, segs);
      FillDrops(kind, name, segs);
      ExpandSegs(kind, Fill(kind, name, segs));
    } else {
      NoSlotNoOpener(kind, segs);
      FillNothing(kind, segs);
    }
  }

  lemma {:induction false} FillNothing(kind: Kind, segs: seq<Seg>)
    requires !HasSlot(kind, segs)
    ensures FillAll(kind, segs) == segs
    decreases |segs|
  {
    if segs != [] {
      FillNothing(kind, segs[1..]);
      assert segs == [segs[0]] + segs[1..];
    }
  }

  lemma {:induction false} FillAllKeeps(kind: Kind, segs: seq<Seg>)
    requires Neat(segs)
    ensures var r := FillAll(kind, segs);
            && Neat(r) && !HasSlot(kind, r) && (Sorted(segs) ==> Sorted(r))
            && (forall k :: HasSlot(k, r) ==> HasSlot(k, segs))
            && (segs != [] ==> (r[0].Lit? ==> segs[0].Lit?))
    decreases |segs|
  {
    hide Inserted, Opener;
    if segs != [] {
      if segs[0].Slot? { InsertedOk(kind, segs[0].name); }
      FillAllKeeps(kind, segs[1..]);
      var r := FillAll(kind, segs);
      assert r[1..] == FillAll(kind, segs[1..]);
      assert |segs| > 1 ==> r[1] == r[1..][0] && segs[1] == segs[1..][0];
    }
  }

  /** Both loops. */
  function Filled(segs: seq<Seg>): seq<Seg> { FillAll(AsIs, FillAll(AsText, segs)) }

  lemma ExpandLineSegs(segs: seq<Seg>)
    requires Neat(segs) && Sorted(segs)
    ensures ExpandLine(Render(segs)) == Some(Render(Filled(segs)))
  {
    ExpandSegs(AsText, segs);
    FillAllKeeps(AsText, segs);
    ExpandSegs(AsIs, FillAll(AsText, segs));
  }

  // ---------- cutting, piece by piece ----------

  predicate NoneDone(segs: seq<Seg>) { forall s :: s in segs ==> !s.Done? }

  /** The pieces of one cutting loop, and the pieces of the line it leaves. */
  function CutSegs(kind: Kind, segs: seq<Seg>): (seq<Piece>, seq<Seg>) {
    if !HasSlot(kind, segs) then ([], segs)
    else
      var (more, left) := CutSegs(kind, segs[1..]);
      match segs[0]
      case Lit(t) => ((if t != "" then [TextPiece(t)] else []) + more, left)
      case Slot(k, name) => ([CodePiece(Code(k, name))] + more, left)
      case Done(_) => (more, left)
  }

  lemma {:induction false} CutIsCutSegs(kind: Kind, segs: seq<Seg>)
    requires Neat(segs) && NoneDone(segs) && Sorted(segs) && (kind == AsIs ==> !HasSlot(AsText, segs))
    ensures Cut(kind, Render(segs)) == (CutSegs(kind, segs).0, Render(CutSegs(kind, segs).1))
    decreases |segs|
  {
    hide Opener, Find, Code, NoStart, Cut;
    if !HasSlot(kind, segs) {
      NoSlotNoOpener(kind, segs);
      CutEnds(kind, Render(segs));
    } else if segs[0].Lit? {
      SecondIsSlot(kind, segs);
      CutIsCutSegs(kind, segs[2..]);
      CutLit(kind, segs);
    } else {
      FirstKind(kind, segs);
      assert segs[0] in segs;
      CutIsCutSegs(kind, segs[1..]);
      CutFirst(kind, segs);
    }
  }

  /** Behind a literal before the first placeholder comes that placeholder. */
  lemma SecondIsSlot(kind: Kind, segs: seq<Seg>)
    requires Neat(segs) && NoneDone(segs) && HasSlot(kind, segs) && Sorted(segs)
            && (kind == AsIs ==> !HasSlot(AsText, segs))
    requires segs[0].Lit?
    ensures |segs| > 1 && segs[1] == Slot(kind, segs[1].name) && NameOk(segs[1].name)
    ensures Neat(segs[2..]) && NoneDone(segs[2..]) && Sorted(segs[2..])
            && (kind == AsIs ==> !HasSlot(AsText, segs[2..]))
  {
    assert segs[1] in segs && segs[1..][1..] == segs[2..];
    FirstKind(kind, segs[1..]);
  }

  lemma CutOne(kind: Kind, before: string, name: string, rest: string)
    requires NameOk(name) && '}' !in before && NoStart(Opener(kind), before, Slot(kind, name).Text() + rest)
    ensures Cut(kind, before + (Slot(kind, name).Text() + rest)) ==
            ((if before != "" then [TextPiece(before)] else []) + ([CodePiece(Code(kind, name))] + Cut(kind, rest).0),
                Cut(kind, rest).1)
  {
    hide Opener, Find, Code, NoStart, Cut, Front;
    var line := before + (Slot(kind, name).Text() + rest);
    FirstSlot(kind, before, name, rest);
    CutUnfolds(kind, line);
    Joined(before, CodePiece(Code(kind, name)), Cut(kind, rest).0);
  }

  lemma Joined(before: string, code: Piece, more: seq<Piece>)
    ensures (if |before| > 0 then [TextPiece(before)] + [code] else [code]) + more
         == (if before != "" then [TextPiece(before)] else []) + ([code] + more)
  {
  }

  lemma CutFirst(kind: Kind, segs: seq<Seg>)
    requires segs != [] && segs[0].Slot? && segs[0].kind == kind && NameOk(segs[0].name)
    requires Cut(kind, Render(segs[1..])) == (CutSegs(kind, segs[1..]).0, Render(CutSegs(kind, segs[1..]).1))
    ensures Cut(kind, Render(segs)) == (CutSegs(kind, segs).0, Render(CutSegs(kind, segs).1))
  {
    hide Opener, Find, Code, NoStart, Cut, CutSegs;
    var name, rest := segs[0].name, Render(segs[1..]);
    NoStartEmpty(Opener(kind), Slot(kind, name).Text() + rest);
    assert Render(segs) == "" + (Slot(kind, name).Text() + rest);
    CutOne(kind, "", name, rest);
    CutSlot(kind, segs);
    assert [] + ([CodePiece(Code(kind, name))] + Cut(kind, rest).0)
        == [CodePiece(Code(kind, name))] + Cut(kind, rest).0;
  }

  lemma CutLit(kind: Kind, segs: seq<Seg>)
    requires Neat(segs) && |segs| > 1 && segs[0].Lit? && segs[1].Slot? && segs[1].kind == kind && NameOk(segs[1].name)
    requires Cut(kind, Render(segs[2..])) == (CutSegs(kind, segs[2..]).0, Render(CutSegs(kind, segs[2..]).1))
    ensures Cut(kind, Render(segs)) == (CutSegs(kind, segs).0, Render(CutSegs(kind, segs).1))
  {
    hide Opener, Find, Code, NoStart, Cut, CutSegs;
    var t, name, rest := segs[0].text, segs[1].name, Render(segs[2..]);
    SegNoStart(kind, segs);
    assert segs[1..][1..] == segs[2..];
    CutOne(kind, t, name, rest);
    CutSlot(kind, segs[1..]);
    CutBehind(kind, segs);
  }

  lemma CutBehind(kind: Kind, segs: seq<Seg>)
    requires |segs| > 1 && segs[0].Lit? && segs[1].Slot? && segs[1].kind == kind
    ensures CutSegs(kind, segs) ==
            ((if segs[0].text != "" then [TextPiece(segs[0].text)] else []) + CutSegs(kind, segs[1..]).0,
                CutSegs(kind, segs[1..]).1)
  {
  }

  lemma CutSlot(kind: Kind, segs: seq<Seg>)
    requires segs != [] && segs[0].Slot? && segs[0].kind == kind
    ensures CutSegs(kind, segs)
            == ([CodePiece(Code(kind, segs[0].name))] + CutSegs(kind, segs[1..]).0, CutSegs(kind, segs[1..]).1)
  {
  }
}
