/** The two code generators, line by line; the statements they append to the function body. */
module TemplateGenerate {
  import opened Common
  import opened TemplateText
  import opened TemplateExpand

  /** The control statements generated for directive lines. */
  datatype Control = Raw(code: string) | Begin(head: string) | Turn(head: string) | End {
    function Text(): string {
      match this
      case Raw(code) => code + "\n"
      case Begin(head) => head + "\n{\n"
      case Turn(head) => "}\n" + head + "\n{\n"
      case End => "}\n"
    }
  }

  datatype Keyword = KwDeclare | KwDefine | KwFor | KwWhile | KwIf | KwElseIf | KwElse | KwRof | KwFi | KwElihw | KwEnd

  /** The directive a line starts with; the order of the tests is that of the generators. */
  function KeywordOf(line: string): Option<Keyword> {
    if "#declare" <= line then Some(KwDeclare)
    else if "#define" <= line then Some(KwDefine)
    else if "#for(" <= line then Some(KwFor)
    else if "#while(" <= line then Some(KwWhile)
    else if "#if(" <= line then Some(KwIf)
    else if "#elseif(" <= line then Some(KwElseIf)
    else if "#else" <= line then Some(KwElse)
    else if "#rof" <= line then Some(KwRof)
    else if "#fi" <= line then Some(KwFi)
    else if "#elihw" <= line then Some(KwElihw)
    else if "#end" <= line then Some(KwEnd)
    else None
  }

  function DropHash(line: string): string {
    if line != "" && line[|line| - 1] == '#' then line[..|line| - 1] else line
  }

  /** The control statement of a directive line; a declaration gives none here. */
  function ControlOf(kw: Keyword, line: string): seq<Control> {
    match kw
    case KwDeclare => []
    case KwDefine => [Raw(DropHash(ReplaceFirst(line, "#define ", "")))]
    case KwFor => [Begin(DropHash(ReplaceFirst(line, "#for", "for")))]
    case KwWhile => [Begin(DropHash(ReplaceFirst(line, "#while", "while")))]
    case KwIf => [Begin(DropHash(ReplaceFirst(line, "#if", "if")))]
    case KwElseIf => [Turn(DropHash(ReplaceFirst(line, "elseif", "else if")))]
    case KwElse => [Turn(DropHash(ReplaceFirst(line, "#else", "else")))]
    case _ => [End]
  }

  /** A generated statement: control, or code that emits text. */
  datatype Chunk = ControlChunk(control: Control) | Emission(code: string) {
    function Text(): string { if ControlChunk? then control.Text() else code }
  }

  function TextOf(chunks: seq<Chunk>): string {
    if chunks == [] then "" else chunks[0].Text() + TextOf(chunks[1..])
  }

  const STREAM: string := "_screen_i__ << \""
  const APPEND: string := "_screen_i__.append("

  function StreamText(text: string): string { STREAM + (text + "\";\n") }

  function AppendText(text: string): string { APPEND + ("\"" + (text + "\");\n")) }

  function AppendCode(code: string): string { APPEND + (code + ");\n") }

  /** Trimmed, and with its quotes escaped. */
  function Prepare(raw: string): string { EscapeQuotes(Trim(raw)) }

  /** A line that is only text. */
  predicate IsText(line: string) {
    !("#" <= line) && !Has(line, "${") && !Has(line, "$_S{")
  }

  function PieceChunk(p: Piece): Chunk {
    match p
    case TextPiece(text) => Emission(AppendText(text))
    case CodePiece(code) => Emission(AppendCode(code))
  }

  function PieceChunks(pieces: seq<Piece>): seq<Chunk> {
    if pieces == [] then [] else [PieceChunk(pieces[0])] + PieceChunks(pieces[1..])
  }

  function ControlChunks(controls: seq<Control>): (r: seq<Chunk>)
    ensures |r| == |controls| && forall k :: 0 <= k < |r| ==> r[k] == ControlChunk(controls[k])
  {
    seq(|controls|, i requires 0 <= i < |controls| => ControlChunk(controls[i]))
  }

  function SlotChunks(cutting: bool, line: string): Option<seq<Chunk>> {
    if cutting then Some(PieceChunks(CutLine(line).0) + [Emission(AppendText(CutLine(line).1))])
    else
      var text :- ExpandLine(line);
      Some([Emission(StreamText(text))])
  }

  function LineChunks(cutting: bool, line: string): Option<seq<Chunk>> {
    match KeywordOf(line)
    case Some(kw) => Some(ControlChunks(ControlOf(kw, line)))
    case None => SlotChunks(cutting, line)
  }

  /** Text lines are collected, and emitted in front of the next template line. */
  function Flush(cutting: bool, pending: string): seq<Chunk> {
    if pending == "" then [] else [Emission(if cutting then AppendText(pending) else StreamText(pending))]
  }

  /** The statements for the lines that remain; `None` if the rewriting loop never ends on one of them. */
  function Chunks(cutting: bool, lines: seq<string>, pending: string): Option<seq<Chunk>> {
    if lines == [] then Some(Flush(cutting, pending))
    else
      var line := Prepare(lines[0]);
      if IsText(line) then Chunks(cutting, lines[1..], pending + line)
      else
        var chunks :- LineChunks(cutting, line);
        var more :- Chunks(cutting, lines[1..], "");
        Some(Flush(cutting, pending) + (chunks + more))
  }

  lemma {:induction false} TextConcat(a: seq<Chunk>, b: seq<Chunk>)
    ensures TextOf(a + b) == TextOf(a) + TextOf(b)
    decreases |a|
  {
    if a == [] {
      assert a + b == b;
    } else {
      assert (a + b)[1..] == a[1..] + b;
      TextConcat(a[1..], b);
    }
  }

  function Onto(done: seq<Chunk>, more: Option<seq<Chunk>>): Option<seq<Chunk>> {
    if more.None? then None else Some(done + more.value)
  }

  /** One template line of the loop, by the specification. */
  lemma OneLine(cutting: bool, all: Option<seq<Chunk>>, done: seq<Chunk>, lines: seq<string>, i: nat, pending: string)
    requires i < |lines| && all == Onto(done, Chunks(cutting, lines[i..], pending))
    ensures var line := Prepare(lines[i]);
            var chunks := LineChunks(cutting, line);
            && (IsText(line) ==> all == Onto(done, Chunks(cutting, lines[i + 1..], pending + line)))
            && (!IsText(line) && chunks.None? ==> all.None?)
            && (!IsText(line) && chunks.Some?
                ==> all == Onto(done + Flush(cutting, pending) + chunks.value, Chunks(cutting, lines[i + 1..], "")))
  {
    hide LineChunks, Flush, Prepare, IsText;
    assert lines[i..][1..] == lines[i + 1..];
    var line := Prepare(lines[i]);
    var chunks, more := LineChunks(cutting, line), Chunks(cutting, lines[i + 1..], "");
    if !IsText(line) && chunks.Some? && more.Some? {
      assert done + (Flush(cutting, pending) + (chunks.value + more.value))
          == (done + Flush(cutting, pending) + chunks.value) + more.value;
    }
  }

  lemma OnlyControl(cutting: bool, line: string)
    requires KeywordOf(line).Some?
    ensures var cs := ControlOf(KeywordOf(line).value, line);
            && LineChunks(cutting, line) == Some(ControlChunks(cs)) && |cs| <= 1
            && TextOf(ControlChunks(cs)) == if cs == [] then "" else cs[0].Text()
  {
    hide KeywordOf, ReplaceFirst, DropHash, Control.Text;
    var cs := ControlOf(KeywordOf(line).value, line);
    var r := ControlChunks(cs);
    assert r == [] || r[1..] == [];
  }

  lemma FlushText(cutting: bool, pending: string)
    ensures TextOf(Flush(cutting, pending))
            == if |pending| > 0 then (if cutting then AppendText(pending) else StreamText(pending)) else ""
  {
    hide AppendText, StreamText;
    var f := Flush(cutting, pending);
    assert f == [] || f[1..] == [];
  }

  /** Appends one emission to the body. */
  lemma OneEmission(done: seq<Chunk>, code: string)
    ensures TextOf(done + [Emission(code)]) == TextOf(done) + code
  {
    TextConcat(done, [Emission(code)]);
    assert [Emission(code)][1..] == [];
  }

  /** The rewriting generator; `None` stands for never ending. */
  method GenerateTempCd(lines: seq<string>) returns (tempo: Option<string>)
    ensures match Chunks(false, lines, "")
            case None => tempo.None?
            case Some(chunks) => tempo == Some(TextOf(chunks))
  {
    hide Chunks, LineChunks, Flush, TextOf, Prepare, IsText, Onto, StreamText, ControlOf, KeywordOf, Expand,
      EscapeQuotes, Trim, ControlChunks, Control.Text;
    ghost var all := Chunks(false, lines, "");
    ghost var done: seq<Chunk> := [];
    var body, pending := "", "";
    var i := 0;
    StartOfLoop(false, lines);
    while i < |lines|
      invariant 0 <= i <= |lines| && body == TextOf(done)
      invariant all == Onto(done, Chunks(false, lines[i..], pending))
    {
      var temp := EscapeQuotes(Trim(lines[i]));
      PreparedIs(lines[i]);
      OneLine(false, all, done, lines, i, pending);
      if IsText(temp) {
        pending := pending + temp;
      } else {
        FlushText(false, pending);
        TextConcat(done, Flush(false, pending));
        done := done + Flush(false, pending);
        if |pending| > 0 {
          body := body + StreamText(pending);
        }
        pending := "";
        var kw := KeywordOf(temp);
        if kw.Some? {
          OnlyControl(false, temp);
          var controls := ControlOf(kw.value, temp);
          if |controls| > 0 {
            body := body + controls[0].Text();
          }
          TextConcat(done, ControlChunks(controls));
          done := done + ControlChunks(controls);
        } else {
          SlotIsStream(temp);
          var t := RunRewriting(AsText, temp);
          if t.None? { OntoNone(done); return None; }
          t := RunRewriting(AsIs, t.value);
          if t.None? { OntoNone(done); return None; }
          body := body + StreamText(t.value);
          OneEmission(done, StreamText(t.value));
          done := done + [Emission(StreamText(t.value))];
        }
      }
      i := i + 1;
    }
    EndOfLoop(false, lines, done, pending);
    FlushText(false, pending);
    TextConcat(done, Flush(false, pending));
    if |pending| > 0 {
      body := body + StreamText(pending);
    }
    assert body == TextOf(done + Flush(false, pending));
    tempo := Some(body);
  }

  /** The cutting generator. */
  method GenerateTempCdFast(lines: seq<string>) returns (tempo: string)
    ensures Chunks(true, lines, "").Some? && tempo == TextOf(Chunks(true, lines, "").value)
  {
    hide Chunks, LineChunks, Flush, TextOf, Prepare, IsText, Onto, AppendText, AppendCode, ControlOf, KeywordOf, Cut,
      PieceChunks, EscapeQuotes, Trim, ControlChunks, Control.Text;
    ghost var all := Chunks(true, lines, "");
    ghost var done: seq<Chunk> := [];
    tempo := "";
    var pending := "";
    var i := 0;
    StartOfLoop(true, lines);
    while i < |lines|
      invariant 0 <= i <= |lines| && tempo == TextOf(done)
      invariant all == Onto(done, Chunks(true, lines[i..], pending))
    {
      var temp := EscapeQuotes(Trim(lines[i]));
      PreparedIs(lines[i]);
      OneLine(true, all, done, lines, i, pending);
      if IsText(temp) {
        pending := pending + temp;
      } else {
        FlushText(true, pending);
        TextConcat(done, Flush(true, pending));
        done := done + Flush(true, pending);
        if |pending| > 0 {
          tempo := tempo + AppendText(pending);
        }
        pending := "";
        var kw := KeywordOf(temp);
        if kw.Some? {
          OnlyControl(true, temp);
          var controls := ControlOf(kw.value, temp);
          if |controls| > 0 {
            tempo := tempo + controls[0].Text();
          }
          TextConcat(done, ControlChunks(controls));
          done := done + ControlChunks(controls);
        } else {
          var code := CutSlots(temp);
          tempo := tempo + code;
          TextConcat(done, LineChunks(true, temp).value);
          done := done + LineChunks(true, temp).value;
        }
      }
      i := i + 1;
    }
    EndOfLoop(true, lines, done, pending);
    FlushText(true, pending);
    TextConcat(done, Flush(true, pending));
    if |pending| > 0 {
      tempo := tempo + AppendText(pending);
    }
    NeverNone(lines, "");
  }

  /** Both loops over a line with placeholders, and the text that is left. */
  method CutSlots(temp: string) returns (code: string)
    requires KeywordOf(temp).None?
    ensures LineChunks(true, temp).Some? && code == TextOf(LineChunks(true, temp).value)
  {
    hide LineChunks, TextOf, AppendText, KeywordOf, Cut, PieceChunks;
    var pieces, rest := RunCutting(AsText, temp);
    var pieces2, left := RunCutting(AsIs, rest);
    SlotIsCut(temp);
    var appended := AppendPieces(pieces + pieces2);
    OneEmission(PieceChunks(pieces + pieces2), AppendText(left));
    code := appended + AppendText(left);
  }

  /** The statements for the pieces cut off a line. */
  method AppendPieces(pieces: seq<Piece>) returns (code: string)
    ensures code == TextOf(PieceChunks(pieces))
  {
    hide AppendText, AppendCode;
    code := "";
    var i := 0;
    assert pieces[..0] == [];
    while i < |pieces|
      invariant 0 <= i <= |pieces| && code == TextOf(PieceChunks(pieces[..i]))
    {
      OnePiece(pieces, i);
      code := code + if pieces[i].TextPiece? then AppendText(pieces[i].text) else AppendCode(pieces[i].code);
      i := i + 1;
    }
    assert pieces[..i] == pieces;
  }

  lemma OnePiece(pieces: seq<Piece>, i: nat)
    requires i < |pieces|
    ensures TextOf(PieceChunks(pieces[..i + 1])) == TextOf(PieceChunks(pieces[..i])) + PieceChunk(pieces[i]).Text()
  {
    hide PieceChunk;
    assert pieces[..i + 1] == pieces[..i] + [pieces[i]];
    PiecesConcat(pieces[..i], [pieces[i]]);
    TextConcat(PieceChunks(pieces[..i]), PieceChunks([pieces[i]]));
    assert PieceChunks([pieces[i]]) == [PieceChunk(pieces[i])];
    assert [PieceChunk(pieces[i])][1..] == [];
  }

  lemma {:induction false} PiecesConcat(a: seq<Piece>, b: seq<Piece>)
    ensures PieceChunks(a + b) == PieceChunks(a) + PieceChunks(b)
    decreases |a|
  {
    if a == [] {
      assert a + b == b;
    } else {
      assert (a + b)[1..] == a[1..] + b;
      PiecesConcat(a[1..], b);
    }
  }

  lemma StartOfLoop(cutting: bool, lines: seq<string>)
    ensures Chunks(cutting, lines, "") == Onto([], Chunks(cutting, lines[0..], "")) && TextOf([]) == ""
  {
    hide LineChunks;
    assert lines[0..] == lines;
    var all := Chunks(cutting, lines, "");
    if all.Some? { assert [] + all.value == all.value; }
  }

  lemma EndOfLoop(cutting: bool, lines: seq<string>, done: seq<Chunk>, pending: string)
    ensures Onto(done, Chunks(cutting, lines[|lines|..], pending)) == Some(done + Flush(cutting, pending))
  {
  }

  lemma PreparedIs(raw: string)
    ensures EscapeQuotes(Trim(raw)) == Prepare(raw)
  {
  }

  lemma OntoNone(done: seq<Chunk>)
    ensures Onto(done, None) == None
  {
  }

  lemma SlotIsStream(line: string)
    requires KeywordOf(line).None?
    ensures LineChunks(false, line) ==
            match Expand(AsText, line)
            case None => None
            case Some(t) =>
              match Expand(AsIs, t)
              case None => None
              case Some(text) => Some([Emission(StreamText(text))])
  {
    hide Expand, KeywordOf;
  }

  lemma SlotIsCut(line: string)
    requires KeywordOf(line).None?
    ensures var (a, t) := Cut(AsText, line);
            var (b, left) := Cut(AsIs, t);
            LineChunks(true, line) == Some(PieceChunks(a + b) + [Emission(AppendText(left))])
  {
    hide Cut, KeywordOf;
  }

  /** The cutting generator ends on every template. */
  lemma {:induction false} NeverNone(lines: seq<string>, pending: string)
    ensures Chunks(true, lines, pending).Some?
    decreases |lines|
  {
    hide Prepare, IsText, KeywordOf, ControlOf;
    if lines != [] {
      NeverNone(lines[1..], pending + Prepare(lines[0]));
      NeverNone(lines[1..], "");
    }
  }
}
