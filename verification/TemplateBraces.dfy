/** The braces of the generated programs, counted outside string literals: none closes too early, all are closed. */
module TemplateBraces {
  import opened Common
  import opened TemplateText
  import opened TemplateExpand
  import opened TemplateLine
  import opened TemplateGenerate
  import opened TemplateKinds
  import opened TemplateDirective
  import opened TemplateMeaning
  import opened TemplateTheorem
  import opened TemplateSkeleton

  // ---------- counting ----------

  /**
   The blocks open behind `s`, of `depth` open in front of it; `None` if a brace closes none, or a literal none ends.
   */
  function Braces(s: string, depth: nat): Option<nat>
    decreases |s|
  {
    if s == "" then Some(depth)
    else if s[0] == '"' then InLiteral(s[1..], depth)
    else if s[0] == '{' then Braces(s[1..], depth + 1)
    else if s[0] != '}' then Braces(s[1..], depth)
    else if depth == 0 then None
    else Braces(s[1..], depth - 1)
  }

  /** The same, from inside a string literal. */
  function InLiteral(s: string, depth: nat): Option<nat>
    decreases |s|
  {
    var (_, rest) :- ReadLiteral(s);
    Braces(rest, depth)
  }

  /** Code that closes what it opens, and no more. */
  ghost predicate Even(code: string) { forall depth: nat :: Braces(code, depth) == Some(depth) }

  lemma {:induction false} LiteralJoin(a: string, b: string)
    requires ReadLiteral(a).Some?
    ensures ReadLiteral(a + b) == Some((ReadLiteral(a).value.0, ReadLiteral(a).value.1 + b))
    decreases |a|
  {
    assert (a + b)[0] == a[0] && (a + b)[1..] == a[1..] + b;
    if a[0] == '\\' {
      assert (a + b)[1] == a[1] && (a + b)[2..] == a[2..] + b;
      LiteralJoin(a[2..], b);
    } else if a[0] != '"' {
      LiteralJoin(a[1..], b);
    }
  }

  lemma {:induction false} BracesJoin(a: string, b: string, depth: nat)
    requires Braces(a, depth).Some?
    ensures Braces(a + b, depth) == Braces(b, Braces(a, depth).value)
    decreases |a|
  {
    hide ReadLiteral;
    if a == "" {
      assert a + b == b;
    } else {
      assert (a + b)[0] == a[0] && (a + b)[1..] == a[1..] + b;
      if a[0] == '"' {
        LiteralJoin(a[1..], b);
        BracesJoin(ReadLiteral(a[1..]).value.1, b, depth);
      } else {
        BracesJoin(a[1..], b, if a[0] == '{' then depth + 1 else if a[0] == '}' then depth - 1 else depth);
      }
    }
  }

  lemma EvenJoin(a: string, b: string)
    requires Even(a) && Even(b)
    ensures Even(a + b)
  {
    hide Braces;
    forall depth: nat ensures Braces(a + b, depth) == Some(depth) { BracesJoin(a, b, depth); }
  }

  lemma EvenSkip(a: string, b: string, depth: nat)
    requires Even(a)
    ensures Braces(a + b, depth) == Braces(b, depth)
  {
    hide Braces;
    BracesJoin(a, b, depth);
  }

  predicate BraceFree(s: string) { '{' !in s && '}' !in s && '"' !in s }

  lemma {:induction false} FreeIsEven(s: string)
    requires BraceFree(s)
    ensures Even(s)
    decreases |s|
  {
    if s != "" { FreeIsEven(s[1..]); }
  }

  // ---------- control statements ----------

  lemma ControlBraces(c: Control, more: string, depth: nat)
    requires Even(CodeOf(c))
    ensures Braces(c.Text() + more, depth) ==
            match c
            case Raw(_) => Braces(more, depth)
            case Begin(_) => Braces(more, depth + 1)
            case Turn(_) => if depth == 0 then None else Braces(more, depth)
            case End => if depth == 0 then None else Braces(more, depth - 1)
  {
    hide Braces, Even;
    FreeIsEven("\n");
    match c
    case Raw(code) =>
      Assoc(code, "\n", more);
      EvenSkip(code, "\n" + more, depth);
      EvenSkip("\n", more, depth);
    case Begin(head) =>
      BlockOpens(head, more, depth);
    case Turn(head) =>
      assert c.Text() + more == CLOSING + ((head + OPENING) + more);
      BlockCloses((head + OPENING) + more, depth);
      if depth > 0 { BlockOpens(head, more, depth - 1); }
    case End =>
      BlockCloses(more, depth);
  }

  lemma BlockOpens(head: string, more: string, depth: nat)
    requires Even(head)
    ensures Braces((head + OPENING) + more, depth) == Braces(more, depth + 1)
  {
    Assoc(head, OPENING, more);
    EvenSkip(head, OPENING + more, depth);
    var s := OPENING + more;
    assert s[1..] == "{\n" + more && ("{\n" + more)[1..] == "\n" + more && ("\n" + more)[1..] == more;
    assert Braces("\n" + more, depth + 1) == Braces(more, depth + 1);
    assert Braces("{\n" + more, depth) == Braces("\n" + more, depth + 1);
  }

  lemma BlockCloses(more: string, depth: nat)
    ensures Braces(CLOSING + more, depth) == if depth == 0 then None else Braces(more, depth - 1)
  {
    assert (CLOSING + more)[1..] == "\n" + more && ("\n" + more)[1..] == more;
  }

  /** The braces of control statements are balanced exactly when the statements are. */
  lemma {:induction false} BalancedText(controls: seq<Control>, depth: nat)
    requires forall c :: c in controls ==> Even(CodeOf(c))
    ensures Braces(TextOf(ControlChunks(controls)), depth) == Some(0) <==> Balanced(controls, depth)
    decreases |controls|
  {
    hide Control.Text, Even, Braces, CodeOf;
    if controls == [] {
      NothingOpen(depth);
    } else {
      var c, chunks := controls[0], ControlChunks(controls);
      assert chunks[1..] == ControlChunks(controls[1..]);
      ControlBraces(c, TextOf(chunks[1..]), depth);
      BalancedText(controls[1..], depth);
      BalancedText(controls[1..], depth + 1);
      if depth > 0 { BalancedText(controls[1..], depth - 1); }
    }
  }

  lemma NothingOpen(depth: nat)
    ensures Braces("", depth) == Some(depth)
  {
  }

  /**
   Properly nested directives whose code closes what it opens give, in both programs and whatever the other lines
   hold, control text in which no brace closes too early and all are closed at the end.
   */
  lemma ControlBalance(cutting: bool, lines: seq<string>)
    requires Nested(Keywords(lines), []) && Chunks(cutting, lines, "").Some?
    requires forall c :: c in LineControls(lines) ==> Even(CodeOf(c))
    ensures Braces(TextOf(ControlChunks(Skeleton(Chunks(cutting, lines, "").value))), 0) == Some(0)
  {
    hide Chunks, Nested, Even, Balanced, CodeOf;
    SkeletonIs(cutting, lines, "");
    NestedBalanced(lines, []);
    BalancedText(LineControls(lines), 0);
  }

  // ---------- statements that emit ----------

  /** A literal that holds escaped text is passed over. */
  lemma LiteralSkip(text: string, rest: string, depth: nat)
    requires '\\' !in text
    ensures InLiteral(EscapeQuotes(text) + rest, depth) == InLiteral(rest, depth)
  {
    hide EscapeQuotes, ReadLiteral, Braces;
    LiteralRead(text, rest);
  }

  lemma LiteralEnds(rest: string, depth: nat)
    ensures InLiteral("\"" + rest, depth) == Braces(rest, depth)
    ensures Braces("\"" + rest, depth) == InLiteral(rest, depth)
  {
    hide ReadLiteral;
    QuoteRead(rest);
    assert ("\"" + rest)[1..] == rest;
  }

  lemma EvenAppendText(text: string)
    requires '\\' !in text
    ensures Even(AppendText(EscapeQuotes(text)))
  {
    hide EscapeQuotes, Braces, InLiteral;
    var e := EscapeQuotes(text);
    FreeIsEven(APPEND);
    FreeIsEven(");\n");
    assert "\");\n" == "\"" + ");\n";
    forall depth: nat ensures Braces(AppendText(e), depth) == Some(depth) {
      EvenSkip(APPEND, "\"" + (e + "\");\n"), depth);
      LiteralEnds(e + "\");\n", depth);
      LiteralSkip(text, "\");\n", depth);
      LiteralEnds(");\n", depth);
    }
  }

  lemma EvenAppendCode(code: string)
    requires BraceFree(code)
    ensures Even(AppendCode(code))
  {
    hide Even;
    FreeIsEven(APPEND);
    FreeIsEven(code);
    FreeIsEven(");\n");
    EvenJoin(code, ");\n");
    EvenJoin(APPEND, code + ");\n");
  }

  /** No name of a placeholder holds an opening brace. */
  predicate PlainNames(segs: seq<Seg>) { forall s :: s in segs ==> s.Slot? ==> '{' !in s.name }

  lemma CodeIsFree(kind: Kind, name: string)
    requires NameOk(name) && '{' !in name
    ensures BraceFree(Code(kind, name))
  {
  }

  /** The rest of a `<<` statement, from inside its literal. */
  lemma {:induction false} StreamBraces(segs: seq<Seg>, depth: nat)
    requires Neat(segs) && NoneDone(segs) && NoBackslash(segs) && PlainNames(segs)
    ensures InLiteral(Render(Filled(Escaped(segs))) + "\";\n", depth) == Some(depth)
    decreases |segs|
  {
    hide EscapeQuotes, Inserted, Code, Opener, Find, Seg.Ok, Braces, InLiteral;
    if segs == [] {
      StreamCloses(depth);
    } else {
      var e := Escaped(segs);
      FilledCons(e);
      assert e[1..] == Escaped(segs[1..]);
      StreamBraces(segs[1..], depth);
      assert segs[0] in segs;
      var rest := Render(Filled(e[1..])) + "\";\n";
      var f := Filled(e);
      assert f[1..] == Filled(e[1..]);
      assert Render(f) + "\";\n" == f[0].Text() + rest;
      match segs[0]
      case Lit(text) => LiteralSkip(text, rest, depth);
      case Slot(kind, name) => SlotNameOk(segs[0]); SlotBraces(kind, name, rest, depth);
    }
  }

  lemma StreamCloses(depth: nat)
    ensures InLiteral(Render(Filled(Escaped([]))) + "\";\n", depth) == Some(depth)
  {
    hide Braces, InLiteral;
    assert Render(Filled(Escaped([]))) + "\";\n" == "\"" + ";\n";
    LiteralEnds(";\n", depth);
    FreeIsEven(";\n");
  }

  /** An expression between two literals of a `<<` statement. */
  lemma SlotBraces(kind: Kind, name: string, rest: string, depth: nat)
    requires NameOk(name) && '{' !in name
    ensures InLiteral(Done(Inserted(kind, name)).Text() + rest, depth) == InLiteral(rest, depth)
  {
    hide Braces, InLiteral, Inserted, Even;
    var mid := Inserted(kind, name);
    InsertedFree(kind, name);
    FreeIsEven(mid);
    assert Done(mid).Text() + rest == "\"" + (mid + ("\"" + rest));
    LiteralEnds(mid + ("\"" + rest), depth);
    EvenSkip(mid, "\"" + rest, depth);
    LiteralEnds(rest, depth);
  }

  lemma InsertedFree(kind: Kind, name: string)
    requires NameOk(name) && '{' !in name
    ensures BraceFree(Inserted(kind, name))
  {
  }

  lemma EvenStream(segs: seq<Seg>)
    requires Neat(segs) && NoneDone(segs) && NoBackslash(segs) && PlainNames(segs)
    ensures Even(StreamText(Render(Filled(Escaped(segs)))))
  {
    hide Braces, InLiteral, EscapeQuotes, Neat, NoneDone, NoBackslash, PlainNames, Render, Filled, Escaped;
    var text := Render(Filled(Escaped(segs)));
    var start := "_screen_i__ << ";
    FreeIsEven(start);
    assert STREAM == start + "\"";
    assert StreamText(text) == start + ("\"" + (text + "\";\n"));
    forall depth: nat ensures Braces(StreamText(text), depth) == Some(depth) {
      EvenSkip(start, "\"" + (text + "\";\n"), depth);
      LiteralEnds(text + "\";\n", depth);
      StreamBraces(segs, depth);
    }
  }

  lemma EvenPlainStream(text: string)
    requires '\\' !in text
    ensures Even(StreamText(EscapeQuotes(text)))
  {
    hide Braces, InLiteral, EscapeQuotes;
    var e, start := EscapeQuotes(text), "_screen_i__ << ";
    FreeIsEven(start);
    assert StreamText(e) == start + ("\"" + (e + "\";\n"));
    forall depth: nat ensures Braces(StreamText(e), depth) == Some(depth) {
      EvenSkip(start, "\"" + (e + "\";\n"), depth);
      LiteralEnds(e + "\";\n", depth);
      LiteralSkip(text, "\";\n", depth);
      StreamCloses(depth);
      assert Render(Filled(Escaped([]))) + "\";\n" == "\";\n";
    }
  }

  // ---------- lines ----------

  ghost predicate EvenPieces(pieces: seq<Piece>) { forall p :: p in pieces ==> Even(PieceChunk(p).Text()) }

  lemma EvenPiece(p: Piece, more: seq<Piece>)
    requires Even(PieceChunk(p).Text()) && EvenPieces(more)
    ensures EvenPieces([p] + more)
  {
    hide Even, PieceChunk, Chunk.Text;
  }

  lemma {:induction false} CutPieces(kind: Kind, segs: seq<Seg>)
    requires Neat(segs) && NoneDone(segs) && NoBackslash(segs) && PlainNames(segs)
    ensures EvenPieces(CutSegs(kind, Escaped(segs)).0)
    decreases |segs|
  {
    hide EscapeQuotes, Code, Seg.Ok, Even, AppendText, AppendCode, HasSlot, CutSegs, EvenPieces;
    var e := Escaped(segs);
    if !HasSlot(kind, e) {
      NothingCut(kind, e);
    } else {
      if segs == [] { NoSlotInNone(kind); }
      assert e[1..] == Escaped(segs[1..]);
      CutPieces(kind, segs[1..]);
      assert segs[0] in segs;
      CutSegsStep(kind, e);
      var more := CutSegs(kind, e[1..]).0;
      match segs[0]
      case Lit(t) =>
        EvenAppendText(t);
        EvenPiece(TextPiece(EscapeQuotes(t)), more);
        assert [] + more == more;
      case Slot(k, name) =>
        SlotNameOk(segs[0]);
        CodeIsFree(k, name);
        EvenAppendCode(Code(k, name));
        EvenPiece(CodePiece(Code(k, name)), more);
    }
  }

  lemma NothingCut(kind: Kind, segs: seq<Seg>)
    requires !HasSlot(kind, segs)
    ensures EvenPieces(CutSegs(kind, segs).0)
  {
    hide HasSlot, Even;
  }

  lemma {:induction false} EvenChunks(pieces: seq<Piece>)
    requires EvenPieces(pieces)
    ensures Even(TextOf(PieceChunks(pieces)))
    decreases |pieces|
  {
    hide Even, PieceChunk, Chunk.Text;
    if pieces == [] {
      FreeIsEven("");
    } else {
      assert PieceChunks(pieces)[1..] == PieceChunks(pieces[1..]);
      EvenChunks(pieces[1..]);
      EvenJoin(PieceChunk(pieces[0]).Text(), TextOf(PieceChunks(pieces[1..])));
    }
  }

  /** The statements of a line with placeholders close what they open. */
  lemma EvenLine(cutting: bool, line: string, segs: seq<Seg>)
    requires Neat(segs) && Sorted(segs) && NoneDone(segs) && NoBackslash(segs) && PlainNames(segs)
    requires line == EscapeQuotes(Render(segs))
    ensures SlotChunks(cutting, line).Some? && Even(TextOf(SlotChunks(cutting, line).value))
  {
    hide Even, EscapeQuotes, Neat, Sorted, NoneDone, NoBackslash, PlainNames, Render, ExpandLine, StreamText, CutLine;
    EscapedNeat(segs);
    if cutting {
      EvenCut(segs);
      var pieces, text := PieceChunks(CutLine(line).0), AppendText(CutLine(line).1);
      TextConcat(pieces, [Emission(text)]);
      OneText(text);
      EvenJoin(TextOf(pieces), text);
    } else {
      ExpandLineSegs(Escaped(segs));
      EvenStream(segs);
      OneText(StreamText(Render(Filled(Escaped(segs)))));
    }
  }

  lemma OneText(code: string)
    ensures TextOf([Emission(code)]) == code
  {
    assert [Emission(code)][1..] == [];
  }

  lemma EvenCut(segs: seq<Seg>)
    requires Neat(segs) && Sorted(segs) && NoneDone(segs) && NoBackslash(segs) && PlainNames(segs)
    ensures var (pieces, left) := CutLine(Render(Escaped(segs)));
            Even(TextOf(PieceChunks(pieces))) && Even(AppendText(left))
  {
    hide Even, EscapeQuotes, Cut, CutSegs, Opener, Find, Code, Neat, Sorted, NoneDone, NoBackslash, HasSlot, Render,
      Escaped, AppendText, PiecesText, SegsText;
    var val: Valuation := x => "";
    EscapedNeat(segs);
    var k, a := CutMeans(AsText, segs, val);
    CutIsCutSegs(AsText, Escaped(segs));
    CutPieces(AsText, segs);
    SuffixKeeps(segs, k);
    var segs' := segs[k..];
    EscapedNeat(segs');
    CutIsCutSegs(AsIs, Escaped(segs'));
    CutPieces(AsIs, segs');
    EvenChunks(CutLine(Render(Escaped(segs))).0);
    var text, left := CutLineText(segs, val);
    var t := LeftText(left);
    EvenAppendText(t);
  }

  /** What neither loop cuts off is one literal. */
  lemma LeftText(segs: seq<Seg>) returns (t: string)
    requires Neat(segs) && NoneDone(segs) && NoBackslash(segs) && !HasSlot(AsText, segs) && !HasSlot(AsIs, segs)
    ensures Render(Escaped(segs)) == EscapeQuotes(t) && '\\' !in t
  {
    hide EscapeQuotes;
    if segs == [] {
      t := "";
      EscapeNothing("");
    } else {
      assert segs[0] in segs && segs[0].Lit?;
      SecondHasKind(segs);
      assert segs[1..] == [];
      t := segs[0].text;
      assert Render(Escaped(segs)) == EscapeQuotes(t) + "" == EscapeQuotes(t);
    }
  }

  lemma EvenFlush(cutting: bool, pending: string)
    requires '\\' !in pending
    ensures Even(TextOf(Flush(cutting, EscapeQuotes(pending))))
  {
    hide Even, EscapeQuotes, AppendText, StreamText;
    EscapedEmpty(pending);
    FreeIsEven("");
    EvenAppendText(pending);
    EvenPlainStream(pending);
    OneText(AppendText(EscapeQuotes(pending)));
    OneText(StreamText(EscapeQuotes(pending)));
  }

  // ---------- whole programs ----------

  ghost predicate PlainLines(template: seq<TLine>) {
    forall k :: 0 <= k < |template| && template[k].SlotLine? ==> PlainNames(template[k].segs)
  }

  /** The braces of a program are those of its control statements. */
  lemma {:induction false} ProgramBraces(cutting: bool, raws: seq<string>, pending: string, template: seq<TLine>,
                                         depth: nat)
    requires ReadsAllAs(raws, template, false) && PlainLines(template) && '\\' !in pending
    requires forall c :: c in LineControls(raws) ==> Even(CodeOf(c))
    ensures var chunks := Chunks(cutting, raws, EscapeQuotes(pending));
            && chunks.Some?
            && Braces(TextOf(chunks.value), depth) == Braces(TextOf(ControlChunks(LineControls(raws))), depth)
    decreases |raws|
  {
    hide EscapeQuotes, IsText, KeywordOf, ControlOf, SlotChunks, Flush, Trim, Even, Braces, Neat, Sorted, TextOf,
      CodeOf, PlainNames, StepsOf, Control.Text;
    EvenFlush(cutting, pending);
    var flush := Flush(cutting, EscapeQuotes(pending));
    if raws == [] {
      EmptyText();
      EvenSkip(TextOf(flush), "", depth);
      assert TextOf(flush) + "" == TextOf(flush);
    } else {
      var t, line := template[0], Prepare(raws[0]);
      assert ReadsAs(raws[0], t, false);
      ReadsKind(raws[0], t);
      assert ReadsAllAs(raws[1..], template[1..], false);
      assert PlainLines(template[1..]);
      match t
      case TextLine(text) =>
        EscapeConcat(pending, text);
        assert LineControls(raws) == LineControls(raws[1..]);
        ProgramBraces(cutting, raws[1..], pending + text, template[1..], depth);
      case SlotLine(segs) =>
        EscapeNothing("");
        assert LineControls(raws) == LineControls(raws[1..]);
        ProgramBraces(cutting, raws[1..], "", template[1..], depth);
        EvenLine(cutting, line, segs);
        EvenBoth(flush, SlotChunks(cutting, line).value, Chunks(cutting, raws[1..], "").value, depth);
      case DirectiveLine(steps) =>
        EscapeNothing("");
        var controls := ControlOf(KeywordOf(line).value, line);
        assert LineControls(raws) == controls + LineControls(raws[1..]);
        ProgramSome(cutting, raws[1..], template[1..]);
        var chunks, more := ControlChunks(controls), Chunks(cutting, raws[1..], "").value;
        EvenParts(flush, chunks, more, depth);
        OneDirective(KeywordOf(line).value, line);
        if controls == [] {
          ProgramBraces(cutting, raws[1..], "", template[1..], depth);
          EmptyText();
          assert TextOf(chunks) + TextOf(more) == TextOf(more);
          assert controls + LineControls(raws[1..]) == LineControls(raws[1..]);
        } else {
          forall d: nat ensures Braces(TextOf(more), d) == Braces(TextOf(ControlChunks(LineControls(raws[1..]))), d) {
            ProgramBraces(cutting, raws[1..], "", template[1..], d);
          }
          assert controls[0] in LineControls(raws);
          ControlFirst(controls, more, LineControls(raws[1..]), depth);
        }
    }
  }

  lemma ControlFirst(controls: seq<Control>, more: seq<Chunk>, rest: seq<Control>, depth: nat)
    requires |controls| == 1 && Even(CodeOf(controls[0]))
    requires forall d: nat :: Braces(TextOf(more), d) == Braces(TextOf(ControlChunks(rest)), d)
    ensures Braces(TextOf(ControlChunks(controls)) + TextOf(more), depth)
            == Braces(TextOf(ControlChunks(controls + rest)), depth)
  {
    hide TextOf, Even, Braces, CodeOf, Control.Text;
    SplitControls(controls, rest);
    SameBehind(controls[0], TextOf(more), TextOf(ControlChunks(rest)), depth);
  }

  lemma EmptyText()
    ensures TextOf([]) == "" && TextOf(ControlChunks([])) == ""
  {
  }

  lemma ProgramSome(cutting: bool, raws: seq<string>, template: seq<TLine>)
    requires ReadsAllAs(raws, template, false)
    ensures Chunks(cutting, raws, "").Some?
  {
    hide Chunks, ReadsAllAs, Run, Behaviour, Meaning;
    EscapeNothing("");
    ProgramDoes(cutting, raws, "", template, x => "");
  }

  lemma ThreeTexts(a: seq<Chunk>, b: seq<Chunk>, c: seq<Chunk>)
    ensures TextOf(a + (b + c)) == TextOf(a) + (TextOf(b) + TextOf(c))
  {
    hide TextOf;
    TextConcat(b, c);
    TextConcat(a, b + c);
  }

  lemma EvenParts(a: seq<Chunk>, b: seq<Chunk>, c: seq<Chunk>, depth: nat)
    requires Even(TextOf(a))
    ensures Braces(TextOf(a + (b + c)), depth) == Braces(TextOf(b) + TextOf(c), depth)
  {
    hide TextOf, Even, Braces;
    ThreeTexts(a, b, c);
    EvenSkip(TextOf(a), TextOf(b) + TextOf(c), depth);
  }

  lemma EvenBoth(a: seq<Chunk>, b: seq<Chunk>, c: seq<Chunk>, depth: nat)
    requires Even(TextOf(a)) && Even(TextOf(b))
    ensures Braces(TextOf(a + (b + c)), depth) == Braces(TextOf(c), depth)
  {
    hide TextOf, Even, Braces;
    EvenParts(a, b, c, depth);
    EvenSkip(TextOf(b), TextOf(c), depth);
  }

  /** Texts with the same braces have the same braces behind a control statement. */
  lemma SameBehind(c: Control, more: string, rest: string, depth: nat)
    requires Even(CodeOf(c))
    requires forall d: nat :: d == depth || d == depth + 1 || d + 1 == depth ==> Braces(more, d) == Braces(rest, d)
    ensures Braces(c.Text() + more, depth) == Braces(c.Text() + rest, depth)
  {
    hide Even, Braces, CodeOf, Control.Text;
    ControlBraces(c, more, depth);
    ControlBraces(c, rest, depth);
  }

  lemma OneDirective(kw: Keyword, line: string)
    ensures |ControlOf(kw, line)| <= 1
  {
    hide ReplaceFirst, DropHash;
  }

  lemma SplitControls(controls: seq<Control>, more: seq<Control>)
    requires |controls| == 1
    ensures TextOf(ControlChunks(controls)) == controls[0].Text()
    ensures TextOf(ControlChunks(controls + more)) == controls[0].Text() + TextOf(ControlChunks(more))
  {
    hide Control.Text;
    assert ControlChunks(controls)[1..] == [] && ControlChunks(controls + more)[1..] == ControlChunks(more);
  }

  /**
   The whole generated body of a well-formed template with properly nested directives: outside string literals no
   brace closes too early and all are closed at the end, in both programs.
   */
  lemma BracesBalance(cutting: bool, raws: seq<string>, template: seq<TLine>)
    requires ReadsAllAs(raws, template, false) && PlainLines(template) && Nested(Keywords(raws), [])
    requires forall c :: c in LineControls(raws) ==> Even(CodeOf(c))
    ensures Chunks(cutting, raws, "").Some? && Braces(TextOf(Chunks(cutting, raws, "").value), 0) == Some(0)
  {
    hide ReadsAllAs, PlainLines, Chunks, Nested, Even, Balanced, CodeOf, Braces;
    EscapeNothing("");
    ProgramBraces(cutting, raws, "", template, 0);
    NestedBalanced(raws, []);
    BalancedText(LineControls(raws), 0);
  }

  /** Directive lines without braces and quotes have code that closes what it opens. */
  lemma {:induction false} FreeLinesEven(lines: seq<string>)
    requires forall k :: 0 <= k < |lines| && StartsDirective(Trim(lines[k])) ==> BraceFree(Trim(lines[k]))
    ensures forall c :: c in LineControls(lines) ==> Even(CodeOf(c))
    decreases |lines|
  {
    hide Prepare, Trim, IsText, PlainText, StartsDirective, KeywordOf, ControlOf, BraceFree, Even, CodeOf;
    if lines != [] {
      FreeLinesEven(lines[1..]);
      PreparedKind(lines[0]);
      if StartsDirective(Trim(lines[0])) {
        FreeStays(lines[0]);
        FreeHeads(KeywordOf(Prepare(lines[0])).value, Prepare(lines[0]));
      }
    }
  }

  lemma FreeStays(raw: string)
    requires BraceFree(Trim(raw))
    ensures BraceFree(Prepare(raw))
  {
    hide Trim, EscapeQuotes;
    EscapeNothing(Trim(raw));
  }

  lemma FreeHeads(kw: Keyword, line: string)
    requires BraceFree(line)
    ensures forall c :: c in ControlOf(kw, line) ==> Even(CodeOf(c))
  {
    hide ReplaceFirst, DropHash, Even, BraceFree;
    FreeReplaced(line, "#define ", "");
    FreeReplaced(line, "#for", "for");
    FreeReplaced(line, "#while", "while");
    FreeReplaced(line, "#if", "if");
    FreeReplaced(line, "elseif", "else if");
    FreeReplaced(line, "#else", "else");
    FreeIsEven("") by { BraceFreeWords(); }
  }

  lemma BraceFreeWords()
    ensures BraceFree("") && BraceFree("for") && BraceFree("while") && BraceFree("if")
    ensures BraceFree("else if") && BraceFree("else")
  {
  }

  lemma FreeReplaced(s: string, pat: string, with: string)
    requires BraceFree(s) && with in {"", "for", "while", "if", "else if", "else"}
    ensures Even(DropHash(ReplaceFirst(s, pat, with)))
  {
    hide ReplaceFirst, DropHash, Even;
    BraceFreeWords();
    ReplacedLacks('{', s, pat, with);
    ReplacedLacks('}', s, pat, with);
    ReplacedLacks('"', s, pat, with);
    FreeIsEven(DropHash(ReplaceFirst(s, pat, with)));
  }

  lemma ReplacedLacks(c: char, s: string, pat: string, with: string)
    requires c !in s && c !in with
    ensures c !in DropHash(ReplaceFirst(s, pat, with))
  {
    hide Find;
  }
}
