/** The control skeletons of the generated programs, on every template; and their nesting. */
module TemplateSkeleton {
  import opened Common
  import opened TemplateText
  import opened TemplateExpand
  import opened TemplateGenerate
  import opened TemplateKinds
  import opened TemplateDirective
  import opened TemplateMeaning

  function Skeleton(chunks: seq<Chunk>): seq<Control> {
    if chunks == [] then []
    else (if chunks[0].ControlChunk? then [chunks[0].control] else []) + Skeleton(chunks[1..])
  }

  lemma {:induction false} SkeletonConcat(a: seq<Chunk>, b: seq<Chunk>)
    ensures Skeleton(a + b) == Skeleton(a) + Skeleton(b)
    decreases |a|
  {
    if a == [] {
      assert a + b == b;
    } else {
      assert (a + b)[1..] == a[1..] + b;
      SkeletonConcat(a[1..], b);
      var first := if a[0].ControlChunk? then [a[0].control] else [];
      assert first + (Skeleton(a[1..]) + Skeleton(b)) == (first + Skeleton(a[1..])) + Skeleton(b);
    }
  }

  lemma {:induction false} NoControl(chunks: seq<Chunk>)
    requires forall c :: c in chunks ==> c.Emission?
    ensures Skeleton(chunks) == []
    decreases |chunks|
  {
    if chunks != [] {
      assert chunks[0] in chunks;
      NoControl(chunks[1..]);
      assert [] + Skeleton(chunks[1..]) == [];
    }
  }

  lemma {:induction false} PiecesEmit(pieces: seq<Piece>)
    ensures forall c :: c in PieceChunks(pieces) ==> c.Emission?
    decreases |pieces|
  {
    if pieces != [] { PiecesEmit(pieces[1..]); }
  }

  lemma {:induction false} SkeletonOfControls(controls: seq<Control>)
    ensures Skeleton(ControlChunks(controls)) == controls
    decreases |controls|
  {
    if controls != [] {
      assert ControlChunks(controls)[1..] == ControlChunks(controls[1..]);
      SkeletonOfControls(controls[1..]);
      assert controls == [controls[0]] + controls[1..];
    }
  }

  /** The control statements of the directive lines, in order. */
  function LineControls(lines: seq<string>): seq<Control> {
    if lines == [] then []
    else
      var line := Prepare(lines[0]);
      (if KeywordOf(line).None? then [] else ControlOf(KeywordOf(line).value, line))
          + LineControls(lines[1..])
  }

  lemma OneLineSkeleton(cutting: bool, line: string)
    requires LineChunks(cutting, line).Some?
    ensures Skeleton(LineChunks(cutting, line).value)
            == if KeywordOf(line).Some? then ControlOf(KeywordOf(line).value, line) else []
  {
    hide KeywordOf, ControlOf, CutLine, ExpandLine, AppendText, StreamText;
    if KeywordOf(line).Some? {
      SkeletonOfControls(ControlOf(KeywordOf(line).value, line));
    } else {
      if cutting { PiecesEmit(CutLine(line).0); }
      NoControl(LineChunks(cutting, line).value);
    }
  }

  lemma FlushIsText(cutting: bool, pending: string)
    ensures Skeleton(Flush(cutting, pending)) == []
  {
    NoControl(Flush(cutting, pending));
  }

  /**
   On every template, well-formed or not, the control statements are those of the directive lines, in both programs.
   */
  lemma {:induction false} SkeletonIs(cutting: bool, lines: seq<string>, pending: string)
    requires Chunks(cutting, lines, pending).Some?
    ensures Skeleton(Chunks(cutting, lines, pending).value) == LineControls(lines)
    decreases |lines|
  {
    hide Prepare, IsText, KeywordOf, ControlOf, LineChunks, Flush, Skeleton, PlainText, StartsDirective;
    FlushIsText(cutting, pending);
    if lines != [] {
      var line := Prepare(lines[0]);
      PreparedKind(lines[0]);
      if IsText(line) {
        SkeletonIs(cutting, lines[1..], pending + line);
      } else {
        var chunks, more := LineChunks(cutting, line).value, Chunks(cutting, lines[1..], "").value;
        OneLineSkeleton(cutting, line);
        SkeletonIs(cutting, lines[1..], "");
        SkeletonConcat(chunks, more);
        SkeletonConcat(Flush(cutting, pending), chunks + more);
      }
    }
  }

  // ---------- what the skeleton does ----------

  /** What the directive lines say, line by line; other lines say nothing. */
  ghost predicate AllSay(lines: seq<string>, steps: seq<seq<Step>>) {
    |steps| == |lines| && forall k :: 0 <= k < |lines| ==>
      if StartsDirective(Trim(lines[k])) then Says(lines[k], steps[k]) else steps[k] == []
  }

  lemma {:induction false} LinesSay(lines: seq<string>, steps: seq<seq<Step>>)
    requires AllSay(lines, steps)
    ensures StepsOf(LineControls(lines)) == Flatten(steps)
    decreases |lines|
  {
    hide Says, Prepare, Trim, IsText, PlainText, KeywordOf, ControlOf, StartsDirective;
    if lines == [] {
      NoSteps();
    } else {
      var line := Prepare(lines[0]);
      LinesSay(lines[1..], steps[1..]);
      PreparedKind(lines[0]);
      if StartsDirective(Trim(lines[0])) {
        assert Says(lines[0], steps[0]);
        SaysSteps(lines[0], steps[0]);
        StepsConcat(ControlOf(KeywordOf(line).value, line), LineControls(lines[1..]));
      } else {
        StepsConcat([], LineControls(lines[1..]));
        NoSteps();
      }
    }
  }

  lemma SaysSteps(raw: string, steps: seq<Step>)
    requires Says(raw, steps)
    ensures var line := Prepare(raw);
            KeywordOf(line).Some? && steps == StepsOf(ControlOf(KeywordOf(line).value, line))
  {
    hide Says, Carries, IsText, KeywordOf, ControlOf, StepsOf;
    SaysCarries(raw, steps);
    ReadsKind(raw, DirectiveLine(steps));
  }

  /**
   On every template with well-formed directives, whatever its other lines hold, the control of both programs
   does what the directives say, in order.
   */
  lemma SkeletonMeans(cutting: bool, lines: seq<string>, steps: seq<seq<Step>>)
    requires AllSay(lines, steps) && Chunks(cutting, lines, "").Some?
    ensures StepsOf(Skeleton(Chunks(cutting, lines, "").value)) == Flatten(steps)
  {
    SkeletonIs(cutting, lines, "");
    LinesSay(lines, steps);
  }

  // ---------- nesting ----------

  /** Blocks: never more closed than opened, and all closed at the end. */
  predicate Balanced(controls: seq<Control>, depth: nat) {
    if controls == [] then depth == 0
    else match controls[0]
      case Raw(_) => Balanced(controls[1..], depth)
      case Begin(_) => Balanced(controls[1..], depth + 1)
      case Turn(_) => depth > 0 && Balanced(controls[1..], depth)
      case End => depth > 0 && Balanced(controls[1..], depth - 1)
  }

  /** Directives are nested: each closer matches the innermost open directive, and turns stand inside an `#if`. */
  predicate Nested(kws: seq<Keyword>, open: seq<Keyword>) {
    if kws == [] then open == []
    else
      var rest := kws[1..];
      match kws[0]
      case KwDeclare => Nested(rest, open)
      case KwDefine => Nested(rest, open)
      case KwFor => Nested(rest, [KwFor] + open)
      case KwWhile => Nested(rest, [KwWhile] + open)
      case KwIf => Nested(rest, [KwIf] + open)
      case KwElseIf => open != [] && open[0] == KwIf && Nested(rest, open)
      case KwElse => open != [] && open[0] == KwIf && Nested(rest, [KwElse] + open[1..])
      case KwRof => open != [] && open[0] == KwFor && Nested(rest, open[1..])
      case KwElihw => open != [] && open[0] == KwWhile && Nested(rest, open[1..])
      case KwFi => open != [] && (open[0] == KwIf || open[0] == KwElse) && Nested(rest, open[1..])
      case KwEnd => open != [] && Nested(rest, open[1..])
  }

  /** The keywords of the directive lines, in order. */
  function Keywords(lines: seq<string>): seq<Keyword> {
    if lines == [] then []
    else
      var line := Prepare(lines[0]);
      (if KeywordOf(line).None? then [] else [KeywordOf(line).value]) + Keywords(lines[1..])
  }

  /** The directives open behind one more. */
  function OpenBehind(kw: Keyword, open: seq<Keyword>): seq<Keyword> {
    match kw
    case KwDeclare => open
    case KwDefine => open
    case KwElseIf => open
    case KwFor => [KwFor] + open
    case KwWhile => [KwWhile] + open
    case KwIf => [KwIf] + open
    case KwElse => if open == [] then open else [KwElse] + open[1..]
    case _ => if open == [] then open else open[1..]
  }

  /** Whether the directive may stand behind these. */
  predicate MayFollow(kw: Keyword, open: seq<Keyword>) {
    kw in {KwDeclare, KwDefine, KwFor, KwWhile, KwIf} || open != []
  }

  lemma NestedBehind(kw: Keyword, kws: seq<Keyword>, open: seq<Keyword>)
    requires Nested([kw] + kws, open)
    ensures MayFollow(kw, open) && Nested(kws, OpenBehind(kw, open))
  {
    assert ([kw] + kws)[1..] == kws;
  }

  lemma BalancedBehind(kw: Keyword, line: string, controls: seq<Control>, open: seq<Keyword>)
    requires MayFollow(kw, open) && Balanced(controls, |OpenBehind(kw, open)|)
    ensures Balanced(ControlOf(kw, line) + controls, |open|)
  {
    hide DropHash, ReplaceFirst;
    var cs := ControlOf(kw, line);
    if cs == [] {
      assert [] + controls == controls;
    } else {
      assert cs == [cs[0]] && (cs + controls)[1..] == controls;
    }
  }

  lemma {:induction false} NestedBalanced(lines: seq<string>, open: seq<Keyword>)
    requires Nested(Keywords(lines), open)
    ensures Balanced(LineControls(lines), |open|)
    decreases |lines|
  {
    hide Prepare, IsText, KeywordOf, ControlOf;
    if lines != [] {
      var line := Prepare(lines[0]);
      var kws, controls := Keywords(lines[1..]), LineControls(lines[1..]);
      if KeywordOf(line).None? {
        assert [] + kws == kws && [] + controls == controls;
        NestedBalanced(lines[1..], open);
      } else {
        var kw := KeywordOf(line).value;
        NestedBehind(kw, kws, open);
        NestedBalanced(lines[1..], OpenBehind(kw, open));
        BalancedBehind(kw, line, controls, open);
      }
    }
  }
}
