/** Both generators give programs that do what the template means. */
module TemplateTheorem {
  import opened Common
  import opened TemplateText
  import opened TemplateExpand
  import opened TemplateLine
  import opened TemplateGenerate
  import opened TemplateDirective
  import opened TemplateMeaning

  // ---------- joining emitted text ----------

  lemma EmitEmit(x: string, y: string, es: seq<Event>)
    ensures Emit(x, Emit(y, es)) == Emit(x + y, es)
  {
    if x == "" {
      assert x + y == y;
    } else if y == "" {
      assert x + y == x;
    } else if es != [] && es[0].Out? {
      assert x + (y + es[0].text) == (x + y) + es[0].text;
    }
  }

  function Both(a: Option<seq<Event>>, b: Option<seq<Event>>): Option<seq<Event>> {
    if a.None? || b.None? then None else Some(a.value + b.value)
  }

  lemma {:induction false} RunConcat(a: seq<Chunk>, b: seq<Chunk>, val: Valuation)
    ensures Run(a + b, val) == Both(Run(a, val), Run(b, val))
    decreases |a|
  {
    hide EventOf;
    var r := Run(b, val);
    if a == [] {
      assert a + b == b;
      if r.Some? { assert [] + r.value == r.value; }
    } else {
      assert (a + b)[1..] == a[1..] + b;
      RunConcat(a[1..], b, val);
      var e, more := EventOf(a[0], val), Run(a[1..], val);
      if e.Some? && more.Some? && r.Some? {
        assert [e.value] + (more.value + r.value) == ([e.value] + more.value) + r.value;
      }
    }
  }

  lemma RunOne(code: string, text: string, val: Valuation)
    requires RunEmission(code, val) == Some(text)
    ensures Run([Emission(code)], val) == Some([Out(text)])
  {
    assert [Emission(code)][1..] == [];
    assert [Out(text)] + [] == [Out(text)];
  }

  lemma BehaviourOut(text: string, es: seq<Event>)
    ensures Behaviour([Out(text)] + es) == Emit(text, Behaviour(es))
  {
    assert ([Out(text)] + es)[1..] == es;
  }

  // ---------- one line ----------

  lemma {:induction false} RunControls(controls: seq<Control>, val: Valuation)
    ensures Run(ControlChunks(controls), val) == Some(StepEvents(StepsOf(controls)))
    decreases |controls|
  {
    hide StepOf, ReadControl;
    if controls != [] {
      assert ControlChunks(controls)[1..] == ControlChunks(controls[1..]);
      RunControls(controls[1..], val);
      ControlRuns(controls[0], val);
      assert StepsOf(controls)[1..] == StepsOf(controls[1..]);
    }
  }

  lemma ControlRuns(c: Control, val: Valuation)
    ensures EventOf(ControlChunk(c), val) == Some(Ctl(StepOf(c)))
  {
    ControlReads(c);
  }

  lemma {:induction false} BehaviourSteps(steps: seq<Step>, es: seq<Event>, es': seq<Event>)
    requires Behaviour(es) == Behaviour(es')
    ensures Behaviour(StepEvents(steps) + es) == Behaviour(StepEvents(steps) + es')
    decreases |steps|
  {
    hide Behaviour;
    if steps == [] {
      assert [] + es == es && [] + es' == es';
    } else {
      var r := StepEvents(steps[1..]);
      BehaviourSteps(steps[1..], es, es');
      BehaviourStep(steps[0], r + es);
      BehaviourStep(steps[0], r + es');
      Assoc([Ctl(steps[0])], r, es);
      Assoc([Ctl(steps[0])], r, es');
    }
  }

  lemma BehaviourStep(step: Step, es: seq<Event>)
    ensures Behaviour([Ctl(step)] + es) == [Ctl(step)] + Behaviour(es)
  {
    hide Emit;
    assert ([Ctl(step)] + es)[1..] == es;
  }

  /** The text of the pieces cut off a line. */
  function PiecesText(pieces: seq<Piece>, val: Valuation): Option<string> {
    if pieces == [] then Some("")
    else
      var text :- RunEmission(PieceChunk(pieces[0]).code, val);
      var more :- PiecesText(pieces[1..], val);
      Some(text + more)
  }

  /** Running the statements for the pieces, and then others, emits the text of the pieces first. */
  lemma {:induction false} RunPieces(pieces: seq<Piece>, rest: seq<Chunk>, val: Valuation)
    requires PiecesText(pieces, val).Some? && Run(rest, val).Some?
    ensures var r := Run(PieceChunks(pieces) + rest, val);
            r.Some? && Behaviour(r.value) == Emit(PiecesText(pieces, val).value, Behaviour(Run(rest, val).value))
    decreases |pieces|
  {
    hide RunEmission, Emit, PieceChunk, Behaviour, EventOf, Run;
    if pieces == [] {
      assert PieceChunks(pieces) + rest == rest;
      EmitNothing(Behaviour(Run(rest, val).value));
    } else {
      PieceEmits(pieces[0], val);
      RunPieces(pieces[1..], rest, val);
      Assoc([PieceChunk(pieces[0])], PieceChunks(pieces[1..]), rest);
      var more := PieceChunks(pieces[1..]) + rest;
      var text := RunEmission(PieceChunk(pieces[0]).code, val).value;
      RunFirst(PieceChunk(pieces[0]), more, val);
      BehaviourOut(text, Run(more, val).value);
      EmitEmit(text, PiecesText(pieces[1..], val).value, Behaviour(Run(rest, val).value));
    }
  }

  lemma RunFirst(chunk: Chunk, more: seq<Chunk>, val: Valuation)
    requires EventOf(chunk, val).Some? && Run(more, val).Some?
    ensures Run([chunk] + more, val) == Some([EventOf(chunk, val).value] + Run(more, val).value)
  {
    hide EventOf;
    assert ([chunk] + more)[1..] == more;
  }

  lemma EmitNothing(es: seq<Event>)
    ensures Emit("", es) == es
  {
  }

  lemma PieceEmits(p: Piece, val: Valuation)
    ensures PieceChunk(p).Emission?
    ensures var text := RunEmission(PieceChunk(p).code, val);
            EventOf(PieceChunk(p), val) == if text.None? then None else Some(Out(text.value))
  {
    hide RunEmission;
  }

  lemma {:induction false} PiecesTextConcat(a: seq<Piece>, b: seq<Piece>, val: Valuation)
    requires PiecesText(a, val).Some? && PiecesText(b, val).Some?
    ensures PiecesText(a + b, val) == Some(PiecesText(a, val).value + PiecesText(b, val).value)
    decreases |a|
  {
    hide RunEmission;
    if a == [] {
      assert a + b == b;
      assert "" + PiecesText(b, val).value == PiecesText(b, val).value;
    } else {
      assert (a + b)[1..] == a[1..] + b;
      PiecesTextConcat(a[1..], b, val);
      var t := RunEmission(PieceChunk(a[0]).code, val).value;
      assert t + (PiecesText(a[1..], val).value + PiecesText(b, val).value)
          == (t + PiecesText(a[1..], val).value) + PiecesText(b, val).value;
    }
  }

  /** One piece at the front of a line, in front of pieces that emit `more` and leave `rest`. */
  lemma CutStepMeans(kind: Kind, segs: seq<Seg>, more: string, rest: string, val: Valuation) returns (text: string)
    requires segs != [] && !segs[0].Done? && (segs[0].Slot? ==> NameOk(segs[0].name))
            && (segs[0].Lit? ==> '\\' !in segs[0].text)
    requires HasSlot(kind, Escaped(segs))
    requires PiecesText(CutSegs(kind, Escaped(segs)[1..]).0, val) == Some(more)
            && more + rest == SegsText(segs[1..], val)
    ensures PiecesText(CutSegs(kind, Escaped(segs)).0, val) == Some(text) && text + rest == SegsText(segs, val)
    ensures CutSegs(kind, Escaped(segs)).1 == CutSegs(kind, Escaped(segs)[1..]).1
  {
    hide EscapeQuotes, Code, RunEmission, Opener, PieceChunk, HasSlot, CutSegs, PiecesText;
    var e := Escaped(segs);
    var pieces := CutSegs(kind, e[1..]).0;
    assert e[1..] == Escaped(segs[1..]);
    CutSegsStep(kind, e);
    match segs[0]
    case Lit(t) =>
      text := t + more;
      Assoc(t, more, rest);
      EscapedEmpty(t);
      if t == "" {
        assert [] + pieces == pieces && "" + more == more;
      } else {
        OneTextPiece(t, pieces, val);
      }
    case Slot(kd, name) =>
      text := val(Code(kd, name)) + more;
      Assoc(val(Code(kd, name)), more, rest);
      OneCodePiece(kd, name, pieces, val);
  }

  lemma CutSegsStep(kind: Kind, segs: seq<Seg>)
    requires segs != [] && HasSlot(kind, segs)
    ensures CutSegs(kind, segs).1 == CutSegs(kind, segs[1..]).1
    ensures CutSegs(kind, segs).0 ==
            (match segs[0]
             case Lit(t) => if t != "" then [TextPiece(t)] else []
             case Slot(k, name) => [CodePiece(Code(k, name))]
             case Done(_) => []) + CutSegs(kind, segs[1..]).0
  {
    hide Code, HasSlot;
    var more := CutSegs(kind, segs[1..]).0;
    assert [] + more == more;
  }

  /** The pieces one cutting loop takes off a line emit what that part of the line means; the rest is left. */
  lemma {:induction false} CutMeans(kind: Kind, segs: seq<Seg>, val: Valuation) returns (k: nat, text: string)
    requires Neat(segs) && NoneDone(segs) && NoBackslash(segs)
    ensures k <= |segs| && CutSegs(kind, Escaped(segs)).1 == Escaped(segs[k..]) && !HasSlot(kind, segs[k..])
    ensures PiecesText(CutSegs(kind, Escaped(segs)).0, val) == Some(text)
            && text + SegsText(segs[k..], val) == SegsText(segs, val)
    decreases |segs|
  {
    hide EscapeQuotes, Code, RunEmission, Opener, Find, PieceChunk, Seg.Ok, Seg.Text, HasSlot, SegsText;
    var e := Escaped(segs);
    EscapedNeat(segs);
    if !HasSlot(kind, e) {
      k, text := 0, "";
      assert segs[0..] == segs;
      assert "" + SegsText(segs, val) == SegsText(segs, val);
    } else {
      if segs == [] { NoSlotInNone(kind); }
      assert e[1..] == Escaped(segs[1..]);
      var j, more := CutMeans(kind, segs[1..], val);
      k := j + 1;
      assert segs[1..][j..] == segs[k..];
      assert segs[0] in segs;
      if segs[0].Slot? { SlotNameOk(segs[0]); }
      text := CutStepMeans(kind, segs, more, SegsText(segs[k..], val), val);
    }
  }

  lemma NoSlotInNone(kind: Kind)
    ensures !HasSlot(kind, Escaped([]))
  {
  }

  lemma EscapedEmpty(t: string)
    ensures EscapeQuotes(t) == "" <==> t == ""
  {
    if t != "" {
      assert t == [t[0]] + t[1..];
      EscapeStep(t[0], t[1..]);
    }
  }

  lemma OneTextPiece(t: string, pieces: seq<Piece>, val: Valuation)
    requires '\\' !in t && PiecesText(pieces, val).Some?
    ensures PiecesText([TextPiece(EscapeQuotes(t))] + pieces, val) == Some(t + PiecesText(pieces, val).value)
  {
    hide EscapeQuotes, RunEmission;
    RunAppendText(t, val);
    assert ([TextPiece(EscapeQuotes(t))] + pieces)[1..] == pieces;
  }

  lemma OneCodePiece(kind: Kind, name: string, pieces: seq<Piece>, val: Valuation)
    requires NameOk(name) && PiecesText(pieces, val).Some?
    ensures PiecesText([CodePiece(Code(kind, name))] + pieces, val)
            == Some(val(Code(kind, name)) + PiecesText(pieces, val).value)
  {
    hide Code, RunEmission;
    CodeHasNoQuote(kind, name);
    RunAppendCode(Code(kind, name), val);
    assert ([CodePiece(Code(kind, name))] + pieces)[1..] == pieces;
  }

  lemma {:induction false} SuffixKeeps(segs: seq<Seg>, k: nat)
    requires k <= |segs| && Neat(segs) && NoneDone(segs) && NoBackslash(segs) && Sorted(segs)
    ensures var r := segs[k..];
            && Neat(r) && NoneDone(r) && NoBackslash(r) && Sorted(r)
            && forall kd :: HasSlot(kd, r) ==> HasSlot(kd, segs)
    decreases k
  {
    if k == 0 {
      assert segs[0..] == segs;
    } else {
      assert segs[1..][k - 1..] == segs[k..];
      SuffixKeeps(segs[1..], k - 1);
    }
  }

  lemma SecondHasKind(segs: seq<Seg>)
    requires Neat(segs) && NoneDone(segs) && segs != [] && segs[0].Lit?
    ensures |segs| > 1 ==> HasSlot(AsText, segs) || HasSlot(AsIs, segs)
  {
    if |segs| > 1 {
      assert segs[1] in segs && segs[1..][0] == segs[1];
      assert HasSlot(segs[1].kind, segs[1..]);
    }
  }

  /** What neither loop cuts is a single literal, or nothing. */
  lemma OnlyText(segs: seq<Seg>, val: Valuation)
    requires Neat(segs) && NoneDone(segs) && NoBackslash(segs) && !HasSlot(AsText, segs) && !HasSlot(AsIs, segs)
    ensures RunEmission(AppendText(Render(Escaped(segs))), val) == Some(SegsText(segs, val))
  {
    hide EscapeQuotes, RunEmission, AppendText;
    if segs == [] {
      EscapeNothing("");
      RunAppendText("", val);
    } else {
      assert segs[0] in segs && segs[0].Lit?;
      SecondHasKind(segs);
      assert segs[1..] == [];
      var t := segs[0].text;
      assert Render(Escaped(segs)) == EscapeQuotes(t) + "" == EscapeQuotes(t);
      assert SegsText(segs, val) == t + "" == t;
      RunAppendText(t, val);
    }
  }

  /** The statements of a line with placeholders emit what the line means. */
  lemma SlotLineMeans(cutting: bool, line: string, segs: seq<Seg>, rest: seq<Chunk>, val: Valuation)
    requires Neat(segs) && Sorted(segs) && NoneDone(segs) && NoBackslash(segs) && line == EscapeQuotes(Render(segs))
    requires Run(rest, val).Some?
    ensures SlotChunks(cutting, line).Some?
    ensures var r := Run(SlotChunks(cutting, line).value + rest, val);
            r.Some? && Behaviour(r.value) == Emit(SegsText(segs, val), Behaviour(Run(rest, val).value))
  {
    EscapedNeat(segs);
    if cutting {
      CutLineMeans(line, segs, rest, val);
    } else {
      hide EscapeQuotes, RunEmission, StreamText, ExpandLine;
      var text := Render(Filled(Escaped(segs)));
      ExpandLineSegs(Escaped(segs));
      StreamSegs(segs, val);
      RunStreamText(text, val);
      RunOne(StreamText(text), SegsText(segs, val), val);
      RunConcat([Emission(StreamText(text))], rest, val);
      BehaviourOut(SegsText(segs, val), Run(rest, val).value);
    }
  }

  /** Both cutting loops of a line: the text of the pieces, then the text that is left. */
  lemma CutLineText(segs: seq<Seg>, val: Valuation) returns (text: string, left: seq<Seg>)
    requires Neat(segs) && Sorted(segs) && NoneDone(segs) && NoBackslash(segs)
    ensures Neat(left) && NoneDone(left) && NoBackslash(left) && !HasSlot(AsText, left) && !HasSlot(AsIs, left)
    ensures CutLine(Render(Escaped(segs))).1 == Render(Escaped(left))
    ensures PiecesText(CutLine(Render(Escaped(segs))).0, val) == Some(text)
            && text + SegsText(left, val) == SegsText(segs, val)
  {
    hide EscapeQuotes, RunEmission, Cut, CutSegs, Opener, Find, Code, PiecesText, SegsText, Neat, Sorted, NoneDone,
      NoBackslash, HasSlot, Render, Escaped;
    EscapedNeat(segs);
    var k, a := CutMeans(AsText, segs, val);
    CutIsCutSegs(AsText, Escaped(segs));
    SuffixKeeps(segs, k);
    var segs' := segs[k..];
    EscapedNeat(segs');
    var j, b := CutMeans(AsIs, segs', val);
    CutIsCutSegs(AsIs, Escaped(segs'));
    SuffixKeeps(segs', j);
    left, text := segs'[j..], a + b;
    PiecesTextConcat(CutSegs(AsText, Escaped(segs)).0, CutSegs(AsIs, Escaped(segs')).0, val);
    assert text + SegsText(left, val) == a + (b + SegsText(left, val));
  }

  lemma CutLineMeans(line: string, segs: seq<Seg>, rest: seq<Chunk>, val: Valuation)
    requires Neat(segs) && Sorted(segs) && NoneDone(segs) && NoBackslash(segs) && line == EscapeQuotes(Render(segs))
    requires Run(rest, val).Some?
    ensures var r := Run(SlotChunks(true, line).value + rest, val);
            r.Some? && Behaviour(r.value) == Emit(SegsText(segs, val), Behaviour(Run(rest, val).value))
  {
    hide EscapeQuotes, RunEmission, AppendText, CutLine, Neat, Sorted, NoneDone, NoBackslash, Run, Behaviour,
      PiecesText, PieceChunks;
    EscapedNeat(segs);
    var text, left := CutLineText(segs, val);
    OnlyText(left, val);
    var pieces, code := CutLine(line).0, AppendText(Render(Escaped(left)));
    RunOne(code, SegsText(left, val), val);
    RunConcat([Emission(code)], rest, val);
    RunPieces(pieces, [Emission(code)] + rest, val);
    BehaviourOut(SegsText(left, val), Run(rest, val).value);
    EmitEmit(text, SegsText(left, val), Behaviour(Run(rest, val).value));
    assert PieceChunks(pieces) + [Emission(code)] + rest == PieceChunks(pieces) + ([Emission(code)] + rest);
  }

  // ---------- whole templates ----------

  /** The collected text comes out in front of what follows. */
  lemma FlushMeans(cutting: bool, pending: string, rest: seq<Chunk>, val: Valuation)
    requires '\\' !in pending && Run(rest, val).Some?
    ensures var r := Run(Flush(cutting, EscapeQuotes(pending)) + rest, val);
            r.Some? && Behaviour(r.value) == Emit(pending, Behaviour(Run(rest, val).value))
  {
    hide EscapeQuotes, RunEmission, AppendText, StreamText;
    EscapedEmpty(pending);
    if pending == "" {
      assert [] + rest == rest;
    } else {
      var code := if cutting then AppendText(EscapeQuotes(pending)) else StreamText(EscapeQuotes(pending));
      if cutting { RunAppendText(pending, val); } else { RunPlainStream(pending, val); }
      RunOne(code, pending, val);
      RunConcat([Emission(code)], rest, val);
      BehaviourOut(pending, Run(rest, val).value);
    }
  }

  /** A program for the remaining lines does: first the collected text, then what the lines mean. */
  ghost predicate Does(cutting: bool, raws: seq<string>, pending: string, template: seq<TLine>, val: Valuation) {
    var chunks := Chunks(cutting, raws, EscapeQuotes(pending));
    chunks.Some? && Run(chunks.value, val).Some?
        && Behaviour(Run(chunks.value, val).value) == Emit(pending, Behaviour(Meaning(template, val)))
  }

  lemma ControlLineMeans(controls: seq<Control>, rest: seq<Chunk>, es: seq<Event>, val: Valuation)
    requires Run(rest, val).Some? && Behaviour(Run(rest, val).value) == Behaviour(es)
    ensures var r := Run(ControlChunks(controls) + rest, val);
            r.Some? && Behaviour(r.value) == Behaviour(StepEvents(StepsOf(controls)) + es)
  {
    RunControls(controls, val);
    RunConcat(ControlChunks(controls), rest, val);
    BehaviourSteps(StepsOf(controls), Run(rest, val).value, es);
  }

  lemma {:induction false} ProgramDoes(cutting: bool, raws: seq<string>, pending: string, template: seq<TLine>,
                                       val: Valuation)
    requires ReadsAllAs(raws, template, false) && '\\' !in pending
    ensures Does(cutting, raws, pending, template, val)
    decreases |raws|
  {
    hide EscapeQuotes, IsText, KeywordOf, ControlOf, SlotChunks, Flush, Trim, Run, Behaviour, SegsText, Neat, Sorted;
    if raws == [] {
      NothingRuns(val);
      FlushMeans(cutting, pending, [], val);
      assert Flush(cutting, EscapeQuotes(pending)) + [] == Flush(cutting, EscapeQuotes(pending));
    } else {
      var t, line := template[0], Prepare(raws[0]);
      assert ReadsAs(raws[0], t, false);
      ReadsKind(raws[0], t);
      assert ReadsAllAs(raws[1..], template[1..], false);
      var es := Meaning(template[1..], val);
      match t
      case TextLine(text) =>
        EscapeConcat(pending, text);
        ProgramDoes(cutting, raws[1..], pending + text, template[1..], val);
        BehaviourOut(text, es);
        EmitEmit(pending, text, Behaviour(es));
      case DirectiveLine(steps) =>
        var controls := ControlOf(KeywordOf(line).value, line);
        ProgramDoes(cutting, raws[1..], "", template[1..], val);
        EscapeNothing("");
        var more := Chunks(cutting, raws[1..], "").value;
        ControlLineMeans(controls, more, es, val);
        FlushMeans(cutting, pending, ControlChunks(controls) + more, val);
      case SlotLine(segs) =>
        ProgramDoes(cutting, raws[1..], "", template[1..], val);
        EscapeNothing("");
        var more := Chunks(cutting, raws[1..], "").value;
        SlotLineMeans(cutting, line, segs, more, val);
        FlushMeans(cutting, pending, SlotChunks(cutting, line).value + more, val);
        BehaviourOut(SegsText(segs, val), es);
    }
  }

  lemma NothingRuns(val: Valuation)
    ensures Run([], val) == Some([]) && Behaviour([]) == []
  {
  }

  /** On these templates both programs run, and do what the template lines say. */
  ghost predicate BothDo(raws: seq<string>, template: seq<TLine>, val: Valuation) {
    var slow, fast := Chunks(false, raws, ""), Chunks(true, raws, "");
    && slow.Some? && fast.Some? && Run(slow.value, val).Some? && Run(fast.value, val).Some?
    && Behaviour(Run(slow.value, val).value) == Behaviour(Meaning(template, val))
    && Behaviour(Run(fast.value, val).value) == Behaviour(Meaning(template, val))
  }

  /**
   On every well-formed template both generators end, their programs have the same control and emit the same text
   between it, for every valuation of the expressions, and both do what the template means.
   */
  lemma GeneratorsAgree(raws: seq<string>, template: seq<TLine>, val: Valuation)
    requires ReadsAllAs(raws, template, true)
    ensures BothDo(raws, template, val)
  {
    hide Says, Carries, Neat, Sorted, NoneDone, NoBackslash, IsText, KeywordOf, Trim, Prepare;
    forall k | 0 <= k < |raws| ensures ReadsAs(raws[k], template[k], false) {
      assert ReadsAs(raws[k], template[k], true);
      if template[k].DirectiveLine? { SaysCarries(raws[k], template[k].steps); }
    }
    AgreeOnAnyDirective(raws, template, val);
  }

  /** With any directives at all, `#elseif` and malformed ones included, the two programs still do the same. */
  lemma AgreeOnAnyDirective(raws: seq<string>, template: seq<TLine>, val: Valuation)
    requires ReadsAllAs(raws, template, false)
    ensures BothDo(raws, template, val)
  {
    hide ReadsAllAs, Chunks, Run, Behaviour, Meaning;
    EscapeNothing("");
    ProgramDoes(false, raws, "", template, val);
    ProgramDoes(true, raws, "", template, val);
    EmitNothing(Behaviour(Meaning(template, val)));
  }
}
