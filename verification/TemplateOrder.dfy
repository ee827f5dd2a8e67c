/**
 Lines of well-formed placeholders in any order: on which of them the rewriting generator never ends,
 read off the pieces of the line; and whole templates.
 */
module TemplateOrder {
  import opened Common
  import opened TemplateText
  import opened TemplateExpand
  import opened TemplateLine
  import opened TemplateHang
  import opened TemplateHangLine
  import opened TemplateGenerate

  // ---------- the condition ----------

  predicate IsSlot(kind: Kind, seg: Seg) { seg.Slot? && seg.kind == kind }

  predicate NoneEmpty(segs: seq<Seg>) { forall s :: s in segs ==> s != Lit("") }

  /** The place of the first placeholder of a kind, or the end. */
  function First(kind: Kind, segs: seq<Seg>): (i: nat)
    ensures i <= |segs| && (i < |segs| ==> IsSlot(kind, segs[i]))
    ensures forall k :: 0 <= k < i ==> !IsSlot(kind, segs[k])
  {
    if segs == [] || IsSlot(kind, segs[0]) then 0 else 1 + First(kind, segs[1..])
  }

  /** The place of the first `$_S{..}` from `from` on that is not among `seen`, or the end. */
  function FirstNew(segs: seq<Seg>, seen: seq<Seg>, from: nat): (j: nat)
    requires from <= |segs|
    ensures from <= j <= |segs| && (j < |segs| ==> IsSlot(AsText, segs[j]) && segs[j] !in seen)
    ensures forall k :: from <= k < j ==> !(IsSlot(AsText, segs[k]) && segs[k] !in seen)
    decreases |segs| - from
  {
    if from == |segs| || (IsSlot(AsText, segs[from]) && segs[from] !in seen) then from
    else FirstNew(segs, seen, from + 1)
  }

  /**
   Some `$_S{..}` stands behind the first `${..}` without an equal in front of that one, and the first such
   stands right behind it, or has right behind itself a `${..}` without an equal in front.
   */
  predicate HangsInOrder(segs: seq<Seg>) {
    var i := First(AsIs, segs);
    var j := FirstNew(segs, segs[..i], i);
    j < |segs| && (j == i + 1 || (j + 1 < |segs| && IsSlot(AsIs, segs[j + 1]) && segs[j + 1] !in segs[..j]))
  }

  // ---------- filling does not change the condition ----------

  lemma {:induction false} FillAt(kind: Kind, name: string, segs: seq<Seg>, k: nat)
    requires k < |segs|
    ensures Fill(kind, name, segs)[k] == if segs[k] == Slot(kind, name) then Done(Inserted(kind, name)) else segs[k]
    decreases |segs|
  {
    if k > 0 { FillAt(kind, name, segs[1..], k - 1); }
  }

  lemma HangsFill(name: string, segs: seq<Seg>)
    requires Slot(AsText, name) in segs[..First(AsIs, segs)]
    ensures HangsInOrder(Fill(AsText, name, segs)) <==> HangsInOrder(segs)
  {
    hide Fill, Inserted, First, FirstNew;
    var r, x := Fill(AsText, name, segs), Slot(AsText, name);
    forall k | 0 <= k < |segs| ensures r[k] == if segs[k] == x then Done(Inserted(AsText, name)) else segs[k] {
      FillAt(AsText, name, segs, k);
    }
    var i := First(AsIs, segs);
    FirstIs(r, segs, i);
    forall k | 0 <= k < |segs|
      ensures IsSlot(AsText, r[k]) && r[k] !in r[..i] <==> IsSlot(AsText, segs[k]) && segs[k] !in segs[..i]
    {
      MemberFilled(r, segs, x, Done(Inserted(AsText, name)), i, k);
    }
    var j := FirstNew(segs, segs[..i], i);
    if j + 1 < |segs| { MemberFilled(r, segs, x, Done(Inserted(AsText, name)), j, j + 1); }
  }

  lemma FillNoneEmpty(kind: Kind, name: string, segs: seq<Seg>)
    requires NoneEmpty(segs)
    ensures NoneEmpty(Fill(kind, name, segs))
  {
    hide Fill;
    var r := Fill(kind, name, segs);
    forall s | s in r ensures s != Lit("") {
      var k :| 0 <= k < |r| && r[k] == s;
      FillAt(kind, name, segs, k);
      assert segs[k] in segs;
    }
  }

  lemma FirstIs(r: seq<Seg>, segs: seq<Seg>, i: nat)
    requires |r| == |segs| && i == First(AsIs, segs)
    requires forall k :: 0 <= k < |segs| ==> IsSlot(AsIs, r[k]) == IsSlot(AsIs, segs[k])
    ensures First(AsIs, r) == i
  {
    hide First;
    var i' := First(AsIs, r);
  }

  /** Filling `x` keeps any other placeholder among the first pieces if it was there. */
  lemma MemberFilled(r: seq<Seg>, segs: seq<Seg>, x: Seg, done: Seg, i: nat, k: nat)
    requires |r| == |segs| && i <= |segs| && k < |segs| && x.Slot? && done.Done?
    requires forall m :: 0 <= m < |segs| ==> r[m] == if segs[m] == x then done else segs[m]
    ensures segs[k].Slot? && segs[k] != x ==> r[k] == segs[k] && (r[k] in r[..i] <==> segs[k] in segs[..i])
    ensures x in segs[..i] && segs[k] == x ==> !r[k].Slot? && segs[k] in segs[..i]
  {
    if segs[k].Slot? && segs[k] != x {
      if segs[k] in segs[..i] {
        var m :| 0 <= m < i && segs[..i][m] == segs[k];
        assert r[..i][m] == r[k];
      }
      if r[k] in r[..i] {
        var m :| 0 <= m < i && r[..i][m] == r[k];
        assert segs[..i][m] == segs[k];
      }
    }
  }

  // ---------- the text of pieces ----------

  lemma {:induction false} RenderConcat(a: seq<Seg>, b: seq<Seg>)
    ensures Render(a + b) == Render(a) + Render(b)
    decreases |a|
  {
    hide Seg.Text;
    if a == [] {
      assert a + b == b && "" + Render(b) == Render(b);
    } else {
      assert (a + b)[1..] == a[1..] + b;
      RenderConcat(a[1..], b);
      assert a[0].Text() + (Render(a[1..]) + Render(b)) == (a[0].Text() + Render(a[1..])) + Render(b);
    }
  }

  lemma {:induction false} NeatSuffix(segs: seq<Seg>, k: nat)
    requires k <= |segs| && Neat(segs)
    ensures Neat(segs[k..])
    decreases k
  {
    if k == 0 {
      assert segs[0..] == segs;
    } else {
      assert segs[1..][k - 1..] == segs[k..];
      NeatSuffix(segs[1..], k - 1);
    }
  }

  lemma {:induction false} NeatPrefix(segs: seq<Seg>, k: nat)
    requires k <= |segs| && Neat(segs)
    ensures Neat(segs[..k])
    decreases |segs|
  {
    hide Seg.Ok;
    if k > 0 {
      assert segs[..k][1..] == segs[1..][..k - 1];
      NeatPrefix(segs[1..], k - 1);
    }
  }

  lemma {:induction false} NoneHas(kind: Kind, segs: seq<Seg>)
    ensures HasSlot(kind, segs) <==> exists k :: 0 <= k < |segs| && IsSlot(kind, segs[k])
    decreases |segs|
  {
    if segs != [] {
      NoneHas(kind, segs[1..]);
      assert forall k :: 1 <= k < |segs| ==> segs[k] == segs[1..][k - 1];
      if k :| 0 <= k < |segs[1..]| && IsSlot(kind, segs[1..][k]) { assert IsSlot(kind, segs[k + 1]); }
    }
  }

  /** Text of non-empty pieces starts with an opener exactly when the first piece is such a placeholder. */
  lemma OpensWith(kind: Kind, segs: seq<Seg>)
    requires Neat(segs) && NoneEmpty(segs)
    ensures Opener(kind) <= Render(segs) <==> segs != [] && IsSlot(kind, segs[0])
  {
    hide Opener, Find, Seg.Ok;
    QuoteOutside(kind);
    if segs != [] {
      assert segs[0] in segs;
      var x, rest := segs[0].Text(), Render(segs[1..]);
      assert (x + rest)[0..] == x + rest;
      if IsSlot(kind, segs[0]) {
        assert (x + rest)[..|Opener(kind)|] == Opener(kind);
      } else {
        SegNoStart(kind, segs);
        if !segs[0].Lit? { SegFirst(segs[0]); }
      }
    }
  }

  /** Where the first opener of a kind stands. */
  lemma {:induction false} FindSlot(kind: Kind, segs: seq<Seg>)
    requires Neat(segs) && First(kind, segs) < |segs|
    ensures Find(Render(segs), Opener(kind)) == Some(|Render(segs[..First(kind, segs)])|)
    decreases |segs|
  {
    hide Find, Opener, NoStart, Seg.Text, Seg.Ok;
    var i := First(kind, segs);
    if i == 0 {
      NameOfSlot(segs[0]);
      SlotFound(kind, segs[0].name, Render(segs[1..]));
      assert segs[..0] == [];
    } else {
      SegNoStart(kind, segs);
      FindSlot(kind, segs[1..]);
      FindAfter(segs[0].Text(), Render(segs[1..]), Opener(kind));
      assert segs[..i][1..] == segs[1..][..i - 1];
    }
  }

  lemma NameOfSlot(seg: Seg)
    requires seg.Ok() && seg.Slot?
    ensures NameOk(seg.name) && seg == Slot(seg.kind, seg.name)
  {
  }

  /** Pieces without placeholders hold no brace. */
  lemma {:induction false} NoBraceIn(segs: seq<Seg>)
    requires Neat(segs) && forall k :: 0 <= k < |segs| ==> !segs[k].Slot?
    ensures '}' !in Render(segs)
    decreases |segs|
  {
    hide Find, Opener;
    if segs != [] { NoBraceIn(segs[1..]); }
  }

  // ---------- what the first loop makes of a `$_S{..}` behind a `${..}` ----------

  const BEFORE: string := "\" << std::to_string("
  const AFTER: string := ") << \""

  /** Each opener becomes a call that reaches to the end of the text. */
  function Wrap(t: string): string
    decreases |t|
  {
    var o := Find(t, Opener(AsText));
    if o.None? then t else t[..o.value] + (BEFORE + (Wrap(t[o.value + |Opener(AsText)|..]) + AFTER))
  }

  lemma NoWrap(t: string)
    requires !Has(t, Opener(AsText))
    ensures Wrap(t) == t
  {
  }

  lemma WrapAt(t: string, o: nat)
    requires Find(t, Opener(AsText)) == Some(o)
    ensures Wrap(t) == t[..o] + (BEFORE + (Wrap(t[o + |Opener(AsText)|..]) + AFTER))
  {
  }

  lemma WrapSkip(x: string, rest: string)
    requires NoStart(Opener(AsText), x, rest)
    ensures Wrap(x + rest) == x + Wrap(rest)
  {
    hide Find, Opener, Wrap;
    var op := Opener(AsText);
    FindAfter(x, rest, op);
    var o := Find(rest, op);
    if o.None? {
      NoWrap(rest);
      NoWrap(x + rest);
    } else {
      var n := o.value + |op|;
      WrapAt(rest, o.value);
      WrapAt(x + rest, |x| + o.value);
      assert (x + rest)[|x| + n..] == rest[n..] && (x + rest)[..|x| + o.value] == x + rest[..o.value];
      var w := BEFORE + (Wrap(rest[n..]) + AFTER);
      assert (x + rest[..o.value]) + w == x + (rest[..o.value] + w);
    }
  }

  lemma WrapOpener(rest: string)
    ensures Wrap(Opener(AsText) + rest) == BEFORE + (Wrap(rest) + AFTER)
  {
    hide Find, Opener;
    var op := Opener(AsText);
    var t := op + rest;
    assert t[0..] == t && t[|op|..] == rest;
    FindIs(t, op, 0);
    assert t[..0] == "";
  }

  /** No opener reaches into the end of a call. */
  lemma {:induction false} WrapEnd(t: string)
    ensures Wrap(t + AFTER) == Wrap(t) + AFTER
    decreases |t|
  {
    hide Find, Opener, Wrap, BEFORE, AFTER;
    var op := Opener(AsText);
    QuoteOutside(AsText);
    match Find(t, op)
    case None =>
      AfterHasNone(t);
      NoWrap(t);
      NoWrap(t + AFTER);
    case Some(i) =>
      FindFront(t, op, AFTER);
      var n := i + |op|;
      WrapEnd(t[n..]);
      WrapAt(t, i);
      WrapAt(t + AFTER, i);
      assert (t + AFTER)[n..] == t[n..] + AFTER && (t + AFTER)[..i] == t[..i];
      var w := Wrap(t[n..]) + AFTER;
      assert t[..i] + (BEFORE + (w + AFTER)) == (t[..i] + (BEFORE + w)) + AFTER;
  }

  lemma AfterHasNone(t: string)
    requires !Has(t, Opener(AsText))
    ensures !Has(t + AFTER, Opener(AsText))
  {
    hide Find, Opener;
    var op, s := Opener(AsText), t + AFTER;
    QuoteOutside(AsText);
    assert '$' !in AFTER;
    forall k | 0 <= k <= |s| ensures !(op <= s[k..]) {
      if k < |t| {
        NotFound(t, op, k);
        assert s[k..] == t[k..] + ([')'] + " << \"");
        PrefixApart(op, t[k..], ')', " << \"");
      } else if k < |s| {
        assert s[k..][0] == AFTER[k - |t|];
      }
    }
    if Has(s, op) { FoundAt(s, op); }
  }

  /** What is left of a line whose first brace stands clear in front of the first opener. */
  lemma {:induction false} BehindValue(line: string)
    requires Open(AsText, line) && CloseAt(line) + 1 < OpenAt(AsText, line)
    ensures Expand(AsText, line) == Some(line[..OpenAt(AsText, line)] + Wrap(line[OpenAt(AsText, line)..]))
    decreases Count(Opener(AsText), line)
  {
    hide Find, Opener, Inserted, Count, Rewrite, Whole, Wrap, Name, Expand, BEFORE, AFTER;
    var o := OpenAt(AsText, line);
    PassProgress(AsText, line);
    var name, next := Name(AsText, line), Rewrite(AsText, line);
    NextIs(line, name);
    BehindName(line);
    WrapOpener(name);
    OnePass(line);
    if Has(name, Opener(AsText)) {
      var k := Find(name, Opener(AsText)).value;
      BehindPass(AsText, line);
      Assoc("\"", Inserted(AsText, name), "\"");
      StillBehind(AsText, line, Inserted(AsText, name) + "\"");
      NextOpens(line, name);
      BehindValue(next);
      NextWrapped(line, name, k);
    } else {
      NextCloses(line, name);
      NoWrap(name);
      Unopened(AsText, next);
    }
  }

  lemma OnePass(line: string)
    requires Open(AsText, line) && !Stuck(AsText, line)
    ensures Expand(AsText, line) == Expand(AsText, Rewrite(AsText, line))
  {
    hide Find, Rewrite, Count, Opener;
    PassProgress(AsText, line);
  }

  /** The pass, with the text of the call written out. */
  lemma NextIs(line: string, name: string)
    requires Open(AsText, line) && CloseAt(line) + 1 < OpenAt(AsText, line) && name == Name(AsText, line)
    ensures Rewrite(AsText, line) == line[..OpenAt(AsText, line)] + (BEFORE + (name + AFTER))
  {
    hide Find, Opener, Rewrite, Name;
    BehindPass(AsText, line);
    assert "\"" + Inserted(AsText, name) + "\"" == BEFORE + (name + AFTER);
  }

  lemma BehindName(line: string)
    requires Open(AsText, line) && CloseAt(line) + 1 < OpenAt(AsText, line)
    ensures line[OpenAt(AsText, line)..] == Opener(AsText) + Name(AsText, line)
  {
    hide Find, Opener;
    Marks(AsText, line);
    var op, o := Opener(AsText), OpenAt(AsText, line);
    assert line[o..] == line[o..o + |op|] + line[o + |op|..];
  }

  /** Neither the text in front of the first opener nor the start of the call holds an opener. */
  lemma BeforeNone(line: string, more: string)
    requires Open(AsText, line)
    ensures NoStart(Opener(AsText), line[..OpenAt(AsText, line)] + BEFORE, more)
  {
    hide Find, Opener, BEFORE;
    QuoteOutside(AsText);
    CallStarts();
    var op, o := Opener(AsText), OpenAt(AsText, line);
    var x, b := line[..o] + BEFORE, BEFORE[1..];
    forall k | 0 <= k < |x| ensures !(op <= (x + more)[k..]) {
      if k < o {
        assert (x + more)[k..] == line[k..o] + (['"'] + (b + more));
        NoneBefore(line, op, o, k, b + more);
      } else {
        assert (x + more)[k..][0] == BEFORE[k - o];
      }
    }
  }

  lemma CallStarts()
    ensures BEFORE == ['"'] + BEFORE[1..] && '$' !in BEFORE
  {
  }

  lemma NextOpens(line: string, name: string)
    requires Open(AsText, line) && Has(name, Opener(AsText))
    ensures var next := line[..OpenAt(AsText, line)] + (BEFORE + (name + AFTER));
            && Has(next, Opener(AsText)) && (CloseAt(line) < OpenAt(AsText, line) ==> Has(next, "}"))
            && Find(next, Opener(AsText)).value
               == OpenAt(AsText, line) + |BEFORE| + Find(name, Opener(AsText)).value
  {
    hide Find, Opener;
    var op, o := Opener(AsText), OpenAt(AsText, line);
    var x, next := line[..o] + BEFORE, line[..o] + (BEFORE + (name + AFTER));
    Marks(AsText, line);
    BeforeNone(line, name + AFTER);
    FindFront(name, op, AFTER);
    assert next == x + (name + AFTER);
    FindAfter(x, name + AFTER, op);
    var c := CloseAt(line);
    if c < o {
      assert next[c..][0] == '}';
      FoundNoLater(next, "}", c);
    }
  }

  lemma NextCloses(line: string, name: string)
    requires Open(AsText, line) && !Has(name, Opener(AsText))
    ensures !Has(line[..OpenAt(AsText, line)] + (BEFORE + (name + AFTER)), Opener(AsText))
  {
    hide Find, Opener;
    var op, o := Opener(AsText), OpenAt(AsText, line);
    var x, next := line[..o] + BEFORE, line[..o] + (BEFORE + (name + AFTER));
    BeforeNone(line, name + AFTER);
    AfterHasNone(name);
    assert next == x + (name + AFTER);
    FindAfter(x, name + AFTER, op);
  }

  lemma NextWrapped(line: string, name: string, k: nat)
    requires Open(AsText, line) && Find(name, Opener(AsText)) == Some(k)
    ensures var o := OpenAt(AsText, line);
            var next := line[..o] + (BEFORE + (name + AFTER));
            var o' := o + |BEFORE| + k;
            next[..o'] + Wrap(next[o'..]) == line[..o] + (BEFORE + (Wrap(name) + AFTER))
  {
    hide Find, Opener, Wrap, BEFORE, AFTER;
    var front, head, tail := line[..OpenAt(AsText, line)], name[..k], name[k..];
    assert name == head + tail;
    WrapEnd(tail);
    FirstPart(name, k);
    WrapSkip(head, tail);
    CutCall(front, BEFORE, head, tail + AFTER);
    Assoc(head, tail, AFTER);
    Assoc(head, Wrap(tail), AFTER);
    Assoc(BEFORE, head, Wrap(tail) + AFTER);
    Assoc(front, BEFORE + head, Wrap(tail) + AFTER);
  }

  lemma CutCall(a: string, b: string, c: string, d: string)
    ensures var s, n := a + (b + (c + d)), |a| + |b| + |c|;
            s[..n] == a + (b + c) && s[n..] == d
  {
  }

  lemma FirstPart(s: string, k: nat)
    requires Find(s, Opener(AsText)) == Some(k)
    ensures NoStart(Opener(AsText), s[..k], s[k..])
  {
    hide Find, Opener;
    assert s[..k] + s[k..] == s;
    forall i | 0 <= i < k ensures !(Opener(AsText) <= s[i..]) { FirstFound(s, Opener(AsText), i); }
  }

  // ---------- the second loop on what the first one left ----------

  /** Text in which no opener starts and no brace stands changes nothing. */
  lemma {:induction false} ScanSkip(kind: Kind, x: string, rest: string, depth: nat)
    requires '}' !in x && NoStart(Opener(kind), x, rest)
    ensures Scan(kind, x + rest, depth) == Scan(kind, rest, depth)
    decreases |x|
  {
    hide Opener;
    if x == "" {
      assert x + rest == rest;
    } else {
      NoStartTail(Opener(kind), x, rest);
      assert (x + rest)[0..] == x + rest && (x + rest)[1..] == x[1..] + rest && (x + rest)[0] == x[0];
      ScanSkip(kind, x[1..], rest, depth);
    }
  }

  lemma {:induction false} TopSkip(kind: Kind, whole: string, x: string, rest: string, depth: nat)
    requires '}' !in x && NoStart(Opener(kind), x, rest) && Opener(kind) <= whole
    ensures AtTop(kind, whole, x + rest, depth) <==> AtTop(kind, whole, rest, depth)
    decreases |x|
  {
    hide Opener;
    if x == "" {
      assert x + rest == rest;
    } else {
      NoStartTail(Opener(kind), x, rest);
      assert (x + rest)[0..] == x + rest && (x + rest)[1..] == x[1..] + rest && (x + rest)[0] == x[0];
      PrefixOfPrefix(Opener(kind), whole, x + rest);
      TopSkip(kind, whole, x[1..], rest, depth);
    }
  }

  lemma NoStartTail(pat: string, x: string, rest: string)
    requires x != "" && NoStart(pat, x, rest)
    ensures NoStart(pat, x[1..], rest)
  {
    forall k | 0 <= k < |x[1..]| ensures !(pat <= (x[1..] + rest)[k..]) {
      assert (x[1..] + rest)[k..] == (x + rest)[k + 1..];
    }
  }

  /** Text that ends a line of pieces: it starts with a quote and holds no opener and no brace. */
  predicate Closing(x: string) { x != "" && x[0] == '"' && '$' !in x && '}' !in x }

  /** No opener starts in a piece that is no placeholder, in front of other pieces and a closing text. */
  lemma PieceNoStart(segs: seq<Seg>, x: string)
    requires Neat(segs) && segs != [] && !segs[0].Slot? && Closing(x)
    ensures NoStart(Opener(AsIs), segs[0].Text(), Render(segs[1..]) + x)
    ensures '}' !in segs[0].Text()
  {
    hide Opener, NoStart, Find;
    var rest := Render(segs[1..]) + x;
    match segs[0]
    case Lit(t) =>
      RestFirst(segs);
      assert rest[0] == '$' || rest[0] == '"';
      LitNoStart(AsIs, t, rest);
    case Done(code) =>
      QuoteOutside(AsIs);
      NoStartOf(Opener(AsIs), segs[0].Text(), rest);
  }

  /** Pieces without `$_S{..}` are paired for the second loop. */
  lemma {:induction false} PiecesPaired(segs: seq<Seg>, x: string)
    requires Neat(segs) && (forall k :: 0 <= k < |segs| ==> !IsSlot(AsText, segs[k])) && Closing(x)
    ensures Paired(AsIs, Render(segs) + x)
    decreases |segs|
  {
    hide Opener, Seg.Text, Scan, Seg.Ok, NoStart;
    if segs == [] {
      QuoteOutside(AsIs);
      NoStartOf(Opener(AsIs), x, "");
      ScanSkip(AsIs, x, "", 0);
      assert Render(segs) + x == x + "";
      ScanNothing(AsIs, 0);
    } else {
      var rest := Render(segs[1..]) + x;
      assert Render(segs) + x == segs[0].Text() + rest;
      PiecesPaired(segs[1..], x);
      if segs[0].Slot? {
        NameOfSlot(segs[0]);
        SlotScanned(segs[0].name, rest);
      } else {
        PieceNoStart(segs, x);
        ScanSkip(AsIs, segs[0].Text(), rest, 0);
      }
    }
  }

  lemma SlotScanned(name: string, rest: string)
    requires NameOk(name)
    ensures Scan(AsIs, Slot(AsIs, name).Text() + rest, 0) == Scan(AsIs, rest, 0)
  {
    hide Scan, Opener, Count;
    PlainIsFree(name);
    ScanWhole(AsIs, name, rest, 0);
  }

  lemma PlainIsFree(name: string)
    requires NameOk(name)
    ensures PlainName(AsIs, name) && Count(Opener(AsIs), name) == 0
  {
    CountZero(Opener(AsIs), name);
    CountFound(Opener(AsIs), name);
  }

  /** What stands at the top of a line of pieces is exactly its placeholders. */
  lemma {:induction false} PiecesTop(segs: seq<Seg>, x: string, name: string)
    requires Neat(segs) && (forall k :: 0 <= k < |segs| ==> !IsSlot(AsText, segs[k])) && Closing(x) && NameOk(name)
    ensures AtTop(AsIs, Slot(AsIs, name).Text(), Render(segs) + x, 0) <==> Slot(AsIs, name) in segs
    decreases |segs|
  {
    hide Opener, Seg.Text, Seg.Ok, NoStart, AtTop;
    var whole := Slot(AsIs, name).Text();
    SlotOpens(name);
    if segs == [] {
      QuoteOutside(AsIs);
      NoStartOf(Opener(AsIs), x, "");
      TopSkip(AsIs, whole, x, "", 0);
      assert Render(segs) + x == x + "";
      NothingTop(AsIs, whole);
    } else {
      var rest := Render(segs[1..]) + x;
      assert Render(segs) + x == segs[0].Text() + rest;
      PiecesTop(segs[1..], x, name);
      assert Slot(AsIs, name) in segs <==> segs[0] == Slot(AsIs, name) || Slot(AsIs, name) in segs[1..];
      if segs[0].Slot? {
        NameOfSlot(segs[0]);
        SlotTop(name, segs[0].name, rest);
      } else {
        PieceNoStart(segs, x);
        TopSkip(AsIs, whole, segs[0].Text(), rest, 0);
      }
    }
  }

  lemma SlotOpens(name: string)
    ensures Opener(AsIs) <= Slot(AsIs, name).Text()
  {
  }

  lemma NothingTop(kind: Kind, whole: string)
    ensures !AtTop(kind, whole, "", 0)
  {
  }

  lemma SlotTop(name: string, name': string, rest: string)
    requires NameOk(name) && NameOk(name')
    ensures AtTop(AsIs, Slot(AsIs, name).Text(), Slot(AsIs, name').Text() + rest, 0)
       <==> name == name' || AtTop(AsIs, Slot(AsIs, name).Text(), rest, 0)
  {
    hide Opener, Count;
    var whole, s := Slot(AsIs, name).Text(), Slot(AsIs, name').Text() + rest;
    SamePlaceholder(AsIs, name, name', rest);
    QuoteOutside(AsIs);
    assert s != "";
    if name != name' {
      hide AtTop;
      PlainIsFree(name');
      TopOther(AsIs, whole, name', rest, 0);
    }
  }

  /** The text behind the loose brace starts with an opener exactly when a `${..}` stands there. */
  lemma TailOpens(segs: seq<Seg>)
    requires Neat(segs) && NoneEmpty(segs)
    ensures Opener(AsIs) <= Wrap(Render(segs)) + AFTER <==> segs != [] && IsSlot(AsIs, segs[0])
    ensures segs != [] && IsSlot(AsIs, segs[0])
            ==> Wrap(Render(segs)) + AFTER == segs[0].Text() + (Wrap(Render(segs[1..])) + AFTER)
  {
    hide Opener, Find, Wrap, NoStart, Seg.Ok;
    QuoteOutside(AsIs);
    var op := Opener(AsIs);
    if segs == [] {
      NoneInEmpty(Opener(AsText));
      NoWrap("");
      assert AFTER[0] == ')' && op[0] == '$';
    } else if IsSlot(AsText, segs[0]) {
      TailOfText(segs);
      assert BEFORE[0] == '"';
    } else {
      var x, rest := segs[0].Text(), Wrap(Render(segs[1..])) + AFTER;
      assert segs[0] in segs;
      SegNoStart(AsText, segs);
      WrapSkip(x, Render(segs[1..]));
      assert Wrap(Render(segs)) + AFTER == x + rest;
      if segs[0].Slot? {
        SlotOpens(segs[0].name);
        assert (x + rest)[..|op|] == x[..|op|];
      } else {
        if segs[0].Lit? { LitThenTail(segs); } else { assert x[0] == '"'; }
      }
    }
  }

  lemma RenderSlot(segs: seq<Seg>)
    requires segs != [] && segs[0].Slot?
    ensures Render(segs) == Opener(segs[0].kind) + ((segs[0].name + "}") + Render(segs[1..]))
  {
    hide Opener;
    Assoc(Opener(segs[0].kind), segs[0].name + "}", Render(segs[1..]));
  }

  lemma TailOfText(segs: seq<Seg>)
    requires segs != [] && IsSlot(AsText, segs[0])
    ensures BEFORE <= Wrap(Render(segs)) + AFTER
  {
    hide Opener, Wrap, Render, BEFORE, AFTER;
    var rest := (segs[0].name + "}") + Render(segs[1..]);
    RenderSlot(segs);
    WrapOpener(rest);
    Assoc(BEFORE, Wrap(rest) + AFTER, AFTER);
  }

  lemma LitThenTail(segs: seq<Seg>)
    requires Neat(segs) && segs != [] && segs[0].Lit? && segs[0] != Lit("")
    ensures !(Opener(AsIs) <= segs[0].Text() + (Wrap(Render(segs[1..])) + AFTER))
  {
    hide Opener, Find, Wrap, NoStart;
    var op, t, rest := Opener(AsIs), segs[0].text, Wrap(Render(segs[1..])) + AFTER;
    QuoteOutside(AsIs);
    if |segs| == 1 {
      NoneInEmpty(Opener(AsText));
      NoWrap("");
      assert t + rest == t + ([')'] + AFTER[1..]);
      PrefixApart(op, t, ')', AFTER[1..]);
      NotFound(t, op, 0);
      assert t[0..] == t;
    } else {
      TailFirst(segs[1..]);
      LitNoStart(AsIs, t, rest);
      StartNot(op, t, rest);
    }
  }

  lemma StartNot(pat: string, x: string, rest: string)
    requires x != "" && NoStart(pat, x, rest)
    ensures !(pat <= x + rest)
  {
    assert (x + rest)[0..] == x + rest;
  }

  lemma TailFirst(segs: seq<Seg>)
    requires Neat(segs) && segs != [] && !segs[0].Lit?
    ensures var s := Wrap(Render(segs)) + AFTER; s != "" && (s[0] == '$' || s[0] == '"')
  {
    hide Opener, Find, Wrap, NoStart, Seg.Ok;
    if IsSlot(AsText, segs[0]) {
      TailOfText(segs);
      assert BEFORE[0] == '"';
    } else {
      SegNoStart(AsText, segs);
      WrapSkip(segs[0].Text(), Render(segs[1..]));
      SegFirst(segs[0]);
    }
  }

  // ---------- both loops ----------

  /** The first `$_S{..}` stands right behind the first `${..}`: the first loop never ends. */
  lemma GluedHangs(segs: seq<Seg>)
    requires Neat(segs) && NoneEmpty(segs)
    requires First(AsIs, segs) < First(AsText, segs) < |segs|
    ensures First(AsText, segs) == First(AsIs, segs) + 1 ==> Expand(AsText, Render(segs)).None?
    ensures First(AsText, segs) > First(AsIs, segs) + 1
            ==> var line := Render(segs); Open(AsText, line) && CloseAt(line) + 1 < OpenAt(AsText, line)
  {
    hide Find, Opener, First, Scan, Seg.Ok, Expand, Render, Neat, NoneEmpty, Stuck;
    var i := First(AsIs, segs);
    var front := LooseFront(segs);
    NeatSuffix(segs, i + 1);
    NoneEmptySuffix(segs, i + 1);
    OpensWith(AsText, segs[i + 1..]);
    NothingInFront(AsText, front, Render(segs[i + 1..]));
    HasFirst(segs);
    StuckNone(AsText, Render(segs));
  }

  lemma NoneEmptySuffix(segs: seq<Seg>, k: nat)
    requires NoneEmpty(segs) && k <= |segs|
    ensures NoneEmpty(segs[k..])
  {
    forall s | s in segs[k..] ensures s != Lit("") { assert s in segs; }
  }

  lemma HasFirst(segs: seq<Seg>)
    requires Neat(segs) && First(AsText, segs) < |segs|
    ensures Has(Render(segs), Opener(AsText))
  {
    hide Find, Opener;
    FindSlot(AsText, segs);
  }

  /** The text of a line up to a placeholder, up to its brace, and behind it. */
  lemma AroundSlot(segs: seq<Seg>, i: nat)
    requires i < |segs| && segs[i].Slot?
    ensures Render(segs)
         == (Render(segs[..i]) + (Opener(segs[i].kind) + segs[i].name)) + ("}" + Render(segs[i + 1..]))
  {
    hide Opener, Render;
    var pre, op, name, tail := Render(segs[..i]), Opener(segs[i].kind), segs[i].name, Render(segs[i + 1..]);
    assert segs == segs[..i] + segs[i..] && segs[i..][1..] == segs[i + 1..];
    RenderConcat(segs[..i], segs[i..]);
    RenderSlot(segs[i..]);
    Assoc(name, "}", tail);
    Assoc(op, name, "}" + tail);
    Assoc(pre, op + name, "}" + tail);
  }

  /** The text up to the brace of the first `${..}`. */
  lemma LooseFront(segs: seq<Seg>) returns (front: string)
    requires Neat(segs) && First(AsIs, segs) < First(AsText, segs) <= |segs|
    ensures Paired(AsText, front) && !Has(front, Opener(AsText))
    ensures Render(segs) == front + ("}" + Render(segs[First(AsIs, segs) + 1..]))
  {
    hide Find, Opener, First, Scan, Count, Render, Seg.Ok;
    var i := First(AsIs, segs);
    front := Render(segs[..i]) + (Opener(AsIs) + segs[i].name);
    AroundSlot(segs, i);
    FrontNoBrace(segs, i);
    FrontHasNone(segs, front);
    ScanAll(AsText, front, 0);
    CountFound(Opener(AsText), front);
  }

  lemma FrontNoBrace(segs: seq<Seg>, i: nat)
    requires Neat(segs) && i < |segs| && segs[i].Slot? && forall k :: 0 <= k < i ==> !segs[k].Slot?
    ensures '}' !in Render(segs[..i]) + (Opener(segs[i].kind) + segs[i].name)
  {
    hide Opener, Render, Seg.Ok;
    NeatPrefix(segs, i);
    NoBraceIn(segs[..i]);
    NeatSuffix(segs, i);
    NeatHead(segs[i..]);
    NameOfSlot(segs[i]);
    QuoteOutside(segs[i].kind);
  }

  lemma NeatHead(segs: seq<Seg>)
    requires Neat(segs) && segs != []
    ensures segs[0].Ok()
  {
  }

  lemma FrontHasNone(segs: seq<Seg>, front: string)
    requires Neat(segs) && First(AsIs, segs) < First(AsText, segs)
    requires front == Render(segs[..First(AsIs, segs)]) + (Opener(AsIs) + segs[First(AsIs, segs)].name)
    ensures !Has(front, Opener(AsText))
  {
    hide Find, Opener, First, Render, Neat;
    var i := First(AsIs, segs);
    var upTo := segs[..i + 1];
    NeatPrefix(segs, i + 1);
    NoneHas(AsText, upTo);
    NoSlotNoOpener(AsText, upTo);
    AroundSlot(upTo, i);
    assert upTo[..i] == segs[..i] && upTo[i + 1..] == [];
    if Has(front, Opener(AsText)) { FindFront(front, Opener(AsText), "}" + Render([])); }
  }

  /** Otherwise the second loop runs on the line the first one leaves. */
  lemma FirstLeaves(segs: seq<Seg>)
    requires Neat(segs) && NoneEmpty(segs)
    requires First(AsIs, segs) + 1 < First(AsText, segs) < |segs|
    ensures var j := First(AsText, segs);
            Expand(AsText, Render(segs)) == Some((Render(segs[..j]) + (BEFORE + segs[j].name))
              + ("}" + (Wrap(Render(segs[j + 1..])) + AFTER)))
  {
    hide Find, Opener, First, Seg.Ok, Expand, Wrap, Render, Neat, NoneEmpty, BEFORE, AFTER;
    var j := First(AsText, segs);
    GluedHangs(segs);
    BehindValue(Render(segs));
    FindSlot(AsText, segs);
    LeftLine(segs, j);
    assert Render(segs)[..|Render(segs[..j])|] == Render(segs[..j]);
  }

  /** The pieces say whether it ends. */
  lemma SecondLoop(segs: seq<Seg>)
    requires Neat(segs) && NoneEmpty(segs)
    requires First(AsIs, segs) + 1 < First(AsText, segs) < |segs|
    ensures var j := First(AsText, segs);
            ExpandLine(Render(segs)).None?
            <==> j + 1 < |segs| && IsSlot(AsIs, segs[j + 1]) && segs[j + 1] !in segs[..j]
  {
    hide Find, Opener, First, Scan, Seg.Ok, Expand, Wrap, AtTop, Paired, Closing, Render, Neat, NoneEmpty, Seg.Text,
      BEFORE, AFTER, NameOk;
    var j := First(AsText, segs);
    FirstLeaves(segs);
    var pre, more := segs[..j], segs[j + 1..];
    var x := BEFORE + segs[j].name;
    var front := Render(pre) + x;
    NeatPrefix(segs, j);
    NeatAt(segs, j);
    NameOfSlot(segs[j]);
    CallCloses(segs[j].name);
    PiecesPaired(pre, x);
    NeatSuffix(segs, j + 1);
    NoneEmptySuffix(segs, j + 1);
    TailOpens(more);
    if j + 1 < |segs| && IsSlot(AsIs, segs[j + 1]) {
      NeatHead(more);
      NameOfSlot(more[0]);
      PiecesTop(pre, x, more[0].name);
      TailFound(front, more[0].name, Wrap(Render(more[1..])) + AFTER);
    } else {
      NotOpened(front, Wrap(Render(more)) + AFTER);
    }
  }

  lemma NeatAt(segs: seq<Seg>, j: nat)
    requires Neat(segs) && j < |segs|
    ensures segs[j].Ok()
  {
    NeatSuffix(segs, j);
  }

  lemma CallCloses(name: string)
    requires NameOk(name)
    ensures Closing(BEFORE + name)
  {
  }

  lemma NotOpened(front: string, tail: string)
    requires Paired(AsIs, front) && !(Opener(AsIs) <= tail)
    ensures Expand(AsIs, front + ("}" + tail)).Some?
  {
    hide Expand, Opener, Scan;
    HangsIfGlued(AsIs, front, tail);
  }

  lemma TailFound(front: string, name: string, rest: string)
    requires Paired(AsIs, front) && NameOk(name)
    ensures Expand(AsIs, front + ("}" + (Slot(AsIs, name).Text() + rest))).None?
       <==> !AtTop(AsIs, Slot(AsIs, name).Text(), front, 0)
  {
    hide Expand, Opener, Scan, Find, AtTop, PlainName, Calm, InnerFresh;
    var whole := Slot(AsIs, name).Text();
    var tail := whole + rest;
    NoStartEmpty(Opener(AsIs), tail);
    FirstSlot(AsIs, "", name, rest);
    assert "" + tail == tail;
    SlotOpens(name);
    assert tail[..|whole|] == whole;
    PrefixOfPrefix(Opener(AsIs), whole, tail);
    PlainIsFree(name);
    PlainTame(AsIs, front, name);
    HangsIfGlued(AsIs, front, tail);
    QuoteOutside(AsIs);
    TopIff(AsIs, whole, front, 0);
  }

  /** The line the first loop leaves, cut at the brace of the first `$_S{..}`. */
  lemma LeftLine(segs: seq<Seg>, j: nat)
    requires Neat(segs) && j == First(AsText, segs) < |segs|
    ensures Render(segs[..j]) <= Render(segs)
    ensures Render(segs[..j]) + Wrap(Render(segs)[|Render(segs[..j])|..])
         == (Render(segs[..j]) + (BEFORE + segs[j].name)) + ("}" + (Wrap(Render(segs[j + 1..])) + AFTER))
  {
    hide Find, Opener, First, Seg.Ok, Wrap, NoStart, Render, Neat, BEFORE, AFTER;
    var pre, name, rest := Render(segs[..j]), segs[j].name, Render(segs[j + 1..]);
    assert segs == segs[..j] + segs[j..] && segs[j..][1..] == segs[j + 1..];
    RenderConcat(segs[..j], segs[j..]);
    RenderSlot(segs[j..]);
    assert Render(segs)[|pre|..] == Render(segs[j..]);
    WrapOpener((name + "}") + rest);
    NeatAt(segs, j);
    NameOfSlot(segs[j]);
    WrapName(name, rest);
    var w := Wrap(rest) + AFTER;
    Assoc(name + "}", Wrap(rest), AFTER);
    Assoc(name, "}", w);
    Assoc(BEFORE, name, "}" + w);
    Assoc(pre, BEFORE + name, "}" + w);
  }

  lemma WrapName(name: string, rest: string)
    requires NameOk(name)
    ensures Wrap((name + "}") + rest) == (name + "}") + Wrap(rest)
  {
    hide Wrap, Opener;
    QuoteOutside(AsText);
    NoStartOf(Opener(AsText), name + "}", rest);
    WrapSkip(name + "}", rest);
  }

  /** No `$_S{..}` before the first `${..}`: the condition looks for the first one behind it. */
  lemma NoneSeen(segs: seq<Seg>)
    requires First(AsIs, segs) <= First(AsText, segs)
    ensures FirstNew(segs, segs[..First(AsIs, segs)], First(AsIs, segs)) == First(AsText, segs)
  {
    hide First, FirstNew;
    var i, j := First(AsIs, segs), First(AsText, segs);
    assert forall k :: 0 <= k < i ==> !IsSlot(AsText, segs[..i][k]);
    assert forall s :: s in segs[..i] ==> !IsSlot(AsText, s);
  }

  /** Only `${..}`: both loops end. */
  lemma NoFirstLoop(segs: seq<Seg>)
    requires Neat(segs) && First(AsText, segs) == |segs|
    ensures ExpandLine(Render(segs)).Some?
  {
    hide Find, Opener, First, FillAll;
    NoneHas(AsText, segs);
    NoSlotNoOpener(AsText, segs);
    NothingSorted(segs);
    ExpandSegs(AsIs, segs);
  }

  lemma {:induction false} NothingSorted(segs: seq<Seg>)
    requires !HasSlot(AsText, segs)
    ensures Sorted(segs)
    decreases |segs|
  {
    if segs != [] { NothingSorted(segs[1..]); }
  }

  /** The first placeholder of a line that leads with a `$_S{..}` is seen before any `${..}`. */
  lemma {:induction false} SplitSeen(segs: seq<Seg>) returns (before: string, name: string, rest: string)
    requires Neat(segs) && First(AsText, segs) < First(AsIs, segs)
    ensures Slot(AsText, name) in segs[..First(AsIs, segs)] && NameOk(name)
    ensures Render(segs) == before + (Slot(AsText, name).Text() + rest)
    ensures '}' !in before && NoStart(Opener(AsText), before, Slot(AsText, name).Text() + rest)
  {
    hide Find, Opener, First, NoStart, Render, Neat, NameOk;
    var j := First(AsText, segs);
    name := segs[j].name;
    before, rest := Render(segs[..j]), Render(segs[j + 1..]);
    assert segs == segs[..j] + segs[j..] && segs[j..][1..] == segs[j + 1..];
    RenderConcat(segs[..j], segs[j..]);
    RenderSlot(segs[j..]);
    Assoc(Opener(AsText), name + "}", rest);
    NeatPrefix(segs, j);
    NoBraceIn(segs[..j]);
    NeatAt(segs, j);
    NameOfSlot(segs[j]);
    assert segs[..First(AsIs, segs)][j] == segs[j];
    FindSlot(AsText, segs);
    FoundNoStart(Opener(AsText), before, Slot(AsText, name).Text() + rest);
  }

  lemma FoundNoStart(pat: string, x: string, rest: string)
    requires Find(x + rest, pat) == Some(|x|)
    ensures NoStart(pat, x, rest)
  {
    hide Find;
    forall k | 0 <= k < |x| ensures !(pat <= (x + rest)[k..]) { FirstFound(x + rest, pat, k); }
  }

  /**
   A line of well-formed placeholders, in any order: the generator never ends on it if and only if its pieces say so.
   */
  lemma {:induction false} OrderHangs(segs: seq<Seg>)
    requires Neat(segs) && NoneEmpty(segs)
    ensures ExpandLine(Render(segs)).None? <==> HangsInOrder(segs)
    decreases Slots(AsText, segs)
  {
    hide Find, Opener, First, FirstNew, Inserted, NoStart, Fill, Slots, Seg.Ok, Seg.Text;
    var i, j := First(AsIs, segs), First(AsText, segs);
    if j < i {
      var before, name, rest := SplitSeen(segs);
      FirstSlot(AsText, before, name, rest);
      ReplaceSegs(AsText, name, segs);
      PlaceholderDone(AsText, name);
      FillKeeps(AsText, name, segs);
      FillDrops(AsText, name, segs);
      FillNoneEmpty(AsText, name, segs);
      HangsFill(name, segs);
      OrderHangs(Fill(AsText, name, segs));
    } else {
      NoneSeen(segs);
      if j == |segs| {
        NoFirstLoop(segs);
      } else if j == i + 1 {
        GluedHangs(segs);
      } else {
        SecondLoop(segs);
      }
    }
  }

  lemma PlaceholderDone(kind: Kind, name: string)
    ensures Done(Inserted(kind, name)).Text() == "\"" + Inserted(kind, name) + "\""
  {
  }
}
