/**
 What a template means, what the generated statements do, and that both generators give programs that do it.
 Expressions are opaque text with a value.
 */
module TemplateMeaning {
  import opened Common
  import opened TemplateText
  import opened TemplateExpand
  import opened TemplateLine
  import opened TemplateGenerate
  import opened TemplateKinds
  import opened TemplateDirective

  type Valuation = string -> string

  // ---------- running the generated statements ----------

  /** The value of a string literal behind its opening quote, and what follows it; `\"` is the only escape read. */
  function ReadLiteral(s: string): (r: Option<(string, string)>)
    ensures r.Some? ==> |r.value.1| < |s|
    decreases |s|
  {
    if s == "" then None
    else if s[0] == '"' then Some(("", s[1..]))
    else if s[0] == '\\' then
      if |s| < 2 || s[1] != '"' then None
      else
        var (text, rest) :- ReadLiteral(s[2..]);
        Some(("\"" + text, rest))
    else
      var (text, rest) :- ReadLiteral(s[1..]);
      Some(([s[0]] + text, rest))
  }

  /** What a `<<` chain emits, read behind an opening quote: a literal, and what follows it. */
  function RunStream(s: string, val: Valuation): Option<string>
    decreases |s|
  {
    var (text, rest) :- ReadLiteral(s);
    Prefixed(text, RunBehind(rest, val))
  }

  /** The end of the statement, or an expression between ` << ` and ` << ` and the next literal. */
  function RunBehind(rest: string, val: Valuation): Option<string>
    decreases |rest|
  {
    if rest == ";\n" then Some("")
    else if !(" << " <= rest) then None
    else
      var q :- Find(rest, "\"");
      if q < 8 || rest[q - 4..q] != " << " then None
      else Prefixed(val(rest[4..q - 4]), RunStream(rest[q + 1..], val))
  }

  function Prefixed(text: string, r: Option<string>): Option<string> {
    if r.None? then None else Some(text + r.value)
  }

  /** What one statement emits. */
  function RunEmission(code: string, val: Valuation): Option<string> {
    if STREAM <= code then RunStream(code[|STREAM|..], val)
    else if !(APPEND <= code) then None
    else
      var arg := code[|APPEND|..];
      if arg != "" && arg[0] == '"' then
        var (text, rest) :- ReadLiteral(arg[1..]);
        if rest == ");\n" then Some(text) else None
      else if |arg| >= 3 && arg[|arg| - 3..] == ");\n" then Some(val(arg[..|arg| - 3]))
      else None
  }

  /** What a program does: control, and emitted text. */
  datatype Event = Ctl(step: Step) | Out(text: string)

  function EventOf(chunk: Chunk, val: Valuation): Option<Event> {
    match chunk
    case ControlChunk(c) =>
      var step :- ReadControl(c.Text());
      Some(Ctl(step))
    case Emission(code) =>
      var text :- RunEmission(code, val);
      Some(Out(text))
  }

  function Run(chunks: seq<Chunk>, val: Valuation): Option<seq<Event>> {
    if chunks == [] then Some([])
    else
      var first :- EventOf(chunks[0], val);
      var more :- Run(chunks[1..], val);
      Some([first] + more)
  }

  /** Text emitted in front of other events joins the text that follows it. */
  function Emit(text: string, es: seq<Event>): seq<Event> {
    if text == "" then es
    else if es != [] && es[0].Out? then [Out(text + es[0].text)] + es[1..]
    else [Out(text)] + es
  }

  /** The behaviour: the control statements, and all text emitted between two of them taken together. */
  function Behaviour(es: seq<Event>): seq<Event> {
    if es == [] then []
    else match es[0]
      case Ctl(step) => [Ctl(step)] + Behaviour(es[1..])
      case Out(text) => Emit(text, Behaviour(es[1..]))
  }

  // ---------- templates ----------

  /** A template line: text, a directive with what it stands for, or text with placeholders. */
  datatype TLine = TextLine(text: string) | DirectiveLine(steps: seq<Step>) | SlotLine(segs: seq<Seg>)

  predicate NoBackslash(segs: seq<Seg>) {
    forall s :: s in segs ==> s.Lit? ==> '\\' !in s.text
  }

  /** The pieces as they stand once the quotes are escaped. */
  function Escaped(segs: seq<Seg>): (r: seq<Seg>)
    ensures |r| == |segs|
  {
    if segs == [] then []
    else [if segs[0].Lit? then Lit(EscapeQuotes(segs[0].text)) else segs[0]] + Escaped(segs[1..])
  }

  /** The raw line is a well-formed directive that stands for these steps. */
  ghost predicate Says(raw: string, steps: seq<Step>) {
    exists d: Directive, mark :: d.WellFormed(mark) && Trim(raw) == d.Text() + mark && steps == d.Steps()
  }

  /** The raw line is some directive, and these steps are what the text generated for it does. */
  ghost predicate Carries(raw: string, steps: seq<Step>) {
    exists kw: Keyword :: CarriesAs(raw, kw, steps)
  }

  ghost predicate CarriesAs(raw: string, kw: Keyword, steps: seq<Step>) {
    && Written(kw) <= Trim(raw) && (kw.KwElse? ==> !("#elseif(" <= Trim(raw)))
    && steps == StepsOf(ControlOf(kw, Prepare(raw)))
  }

  /** The raw line reads as the template line; `strict` asks for a well-formed directive. */
  ghost predicate ReadsAs(raw: string, t: TLine, strict: bool) {
    match t
    case TextLine(text) =>
      text == Trim(raw) && '\\' !in text && !("#" <= text) && !Has(text, "${") && !Has(text, "$_S{")
    case DirectiveLine(steps) => if strict then Says(raw, steps) else Carries(raw, steps)
    case SlotLine(segs) =>
      && Render(segs) == Trim(raw) && Neat(segs) && Sorted(segs) && NoneDone(segs) && NoBackslash(segs)
      && !StartsDirective(Render(segs)) && ("#" <= Render(segs) || exists seg :: seg in segs && seg.Slot?)
  }

  /** How the generators take the line. */
  lemma ReadsKind(raw: string, t: TLine)
    requires ReadsAs(raw, t, false)
    ensures var line := Prepare(raw);
            match t
            case TextLine(_) => IsText(line) && KeywordOf(line).None?
            case DirectiveLine(steps) =>
              !IsText(line) && KeywordOf(line).Some? && steps == StepsOf(ControlOf(KeywordOf(line).value, line))
            case SlotLine(_) => !IsText(line) && KeywordOf(line).None?
  {
    hide Find, KeywordOf, IsText, Trim, Prepare, Written, StepsOf, ControlOf, Neat, Sorted, NoneDone, NoBackslash,
      Render;
    PreparedKind(raw);
    match t
    case TextLine(_) =>
    case DirectiveLine(steps) =>
      var kw :| CarriesAs(raw, kw, steps);
      KeywordExactly(Trim(raw), kw);
    case SlotLine(segs) =>
      if !("#" <= Render(segs)) {
        var seg :| seg in segs && seg.Slot?;
        SlotThere(segs, seg);
      }
  }

  ghost predicate ReadsAllAs(raws: seq<string>, template: seq<TLine>, strict: bool) {
    |raws| == |template| && forall k :: 0 <= k < |raws| ==> ReadsAs(raws[k], template[k], strict)
  }

  /** The text generated for a well-formed directive does what the directive stands for. */
  lemma SaysCarries(raw: string, steps: seq<Step>)
    requires Says(raw, steps)
    ensures Carries(raw, steps)
  {
    hide KeywordOf, StepsOf, ControlOf, EscapeQuotes, Trim, Written, Directive.Text, Directive.Steps,
      Directive.WellFormed;
    var d: Directive, mark :| d.WellFormed(mark) && Trim(raw) == d.Text() + mark && steps == d.Steps();
    StartsSo(d, mark);
    EscapeNothing(Trim(raw));
    KeywordExactly(Trim(raw), KeywordFor(d));
    KeywordIs(d, Trim(raw));
    DirectiveMeans(d, mark);
    assert CarriesAs(raw, KeywordFor(d), steps);
  }

  /** What a line with placeholders emits. */
  function SegsText(segs: seq<Seg>, val: Valuation): string {
    if segs == [] then ""
    else
      (match segs[0]
       case Lit(text) => text
       case Slot(kind, name) => val(Code(kind, name))
       case Done(_) => "") + SegsText(segs[1..], val)
  }

  function StepEvents(steps: seq<Step>): seq<Event> {
    if steps == [] then [] else [Ctl(steps[0])] + StepEvents(steps[1..])
  }

  /** What a template means, line by line. */
  function Meaning(template: seq<TLine>, val: Valuation): seq<Event> {
    if template == [] then []
    else
      (match template[0]
       case TextLine(text) => [Out(text)]
       case DirectiveLine(steps) => StepEvents(steps)
       case SlotLine(segs) => [Out(SegsText(segs, val))]) + Meaning(template[1..], val)
  }

  // ---------- escaping keeps lines well-formed ----------

  lemma {:induction false} EscapedNoBrace(s: string)
    requires '}' !in s
    ensures '}' !in EscapeQuotes(s)
    decreases |s|
  {
    if s != "" {
      assert s == [s[0]] + s[1..];
      EscapeStep(s[0], s[1..]);
      EscapedNoBrace(s[1..]);
    }
  }

  lemma EscapedLit(text: string)
    requires Lit(text).Ok()
    ensures Lit(EscapeQuotes(text)).Ok()
  {
    hide EscapeQuotes, Find;
    EscapedNoBrace(text);
    assert '\\' !in Opener(AsText) && '\\' !in Opener(AsIs);
    EscapedLacks(Opener(AsText), text);
    EscapedLacks(Opener(AsIs), text);
  }

  lemma {:induction false} EscapedNeat(segs: seq<Seg>)
    requires Neat(segs) && NoneDone(segs)
    ensures var r := Escaped(segs);
            && Neat(r) && NoneDone(r) && (Sorted(segs) ==> Sorted(r))
            && (forall k :: HasSlot(k, r) <==> HasSlot(k, segs))
            && Render(r) == EscapeQuotes(Render(segs))
            && (segs != [] ==> (r[0].Lit? <==> segs[0].Lit?))
    decreases |segs|
  {
    hide EscapeQuotes, Find, Opener, Seg.Ok;
    if segs == [] {
      EscapeNothing("");
    } else {
      var r := Escaped(segs);
      EscapedNeat(segs[1..]);
      assert r[1..] == Escaped(segs[1..]);
      assert segs[0] in segs;
      assert |segs| > 1 ==> r[1] == r[1..][0] && segs[1] == segs[1..][0];
      EscapeConcat(segs[0].Text(), Render(segs[1..]));
      if segs[0].Lit? {
        EscapedLit(segs[0].text);
      } else {
        SlotHasNoQuote(segs[0]);
        EscapeNothing(segs[0].Text());
      }
    }
  }

  lemma SlotHasNoQuote(seg: Seg)
    requires seg.Slot? && seg.Ok()
    ensures '"' !in seg.Text()
  {
  }

  // ---------- reading back what was generated ----------

  function Before(text: string, r: Option<(string, string)>): Option<(string, string)> {
    if r.None? then None else Some((text + r.value.0, r.value.1))
  }

  /** An escaped text is read as itself, up to what follows it. */
  lemma {:induction false} LiteralRead(text: string, rest: string)
    requires '\\' !in text
    ensures ReadLiteral(EscapeQuotes(text) + rest) == Before(text, ReadLiteral(rest))
    decreases |text|
  {
    hide EscapeQuotes, ReadLiteral;
    var r := ReadLiteral(rest);
    if text == "" {
      EscapeNothing("");
      assert "" + rest == rest;
      if r.Some? { assert "" + r.value.0 == r.value.0; }
    } else {
      var c, t := text[0], text[1..];
      assert text == [c] + t;
      EscapeStep(c, t);
      LiteralRead(t, rest);
      Assoc(if c == '"' then "\\\"" else [c], EscapeQuotes(t), rest);
      CharRead(c, EscapeQuotes(t) + rest);
      if r.Some? { Assoc([c], t, r.value.0); }
    }
  }

  lemma CharRead(c: char, rest: string)
    requires c != '\\'
    ensures ReadLiteral((if c == '"' then "\\\"" else [c]) + rest) == Before([c], ReadLiteral(rest))
  {
    var s := (if c == '"' then "\\\"" else [c]) + rest;
    if c == '"' {
      assert s[2..] == rest && s[0] == '\\' && s[1] == '"';
    } else {
      assert s[1..] == rest;
    }
  }

  lemma QuoteRead(rest: string)
    ensures ReadLiteral("\"" + rest) == Some(("", rest))
  {
    assert ("\"" + rest)[1..] == rest;
  }

  lemma StreamLit(text: string, rest: string, val: Valuation)
    requires '\\' !in text
    ensures RunStream(EscapeQuotes(text) + rest, val) == Prefixed(text, RunStream(rest, val))
  {
    hide EscapeQuotes, ReadLiteral, RunBehind;
    LiteralRead(text, rest);
    var r := ReadLiteral(rest);
    if r.Some? {
      var more := RunBehind(r.value.1, val);
      if more.Some? { assert (text + r.value.0) + more.value == text + (r.value.0 + more.value); }
    }
  }

  lemma InsertedIsCode(kind: Kind, name: string)
    ensures Inserted(kind, name) == " << " + (Code(kind, name) + " << ")
  {
    if kind == AsText {
      assert " << std::to_string(" == " << " + "std::to_string(";
      assert ") << " == ")" + " << ";
    }
  }

  lemma CodeHasNoQuote(kind: Kind, name: string)
    requires NameOk(name)
    ensures '"' !in Code(kind, name)
  {
  }

  /** An empty literal, an expression, and what follows the next quote. */
  lemma StreamStep(r: string, q: nat, val: Valuation)
    requires " << " <= r && Find(r, "\"") == Some(q) && 8 <= q < |r| && r[q - 4..q] == " << "
    ensures RunStream("\"" + r, val) == Prefixed(val(r[4..q - 4]), RunStream(r[q + 1..], val))
  {
    hide ReadLiteral, RunBehind;
    QuoteRead(r);
    BehindStep(r, q, val);
    var more := RunBehind(r, val);
    if more.Some? { assert "" + more.value == more.value; }
  }

  lemma BehindStep(r: string, q: nat, val: Valuation)
    requires " << " <= r && Find(r, "\"") == Some(q) && 8 <= q < |r| && r[q - 4..q] == " << "
    ensures RunBehind(r, val) == Prefixed(val(r[4..q - 4]), RunStream(r[q + 1..], val))
  {
    hide Find, RunStream, Prefixed;
    assert r[0] == ' ' && ";\n"[0] == ';';
  }

  lemma StreamSlot(kind: Kind, name: string, rest: string, val: Valuation)
    requires NameOk(name)
    ensures RunStream(Done(Inserted(kind, name)).Text() + rest, val)
            == Prefixed(val(Code(kind, name)), RunStream(rest, val))
  {
    hide RunStream, Find, Code, Inserted, NameOk;
    var code := Code(kind, name);
    InsertedIsCode(kind, name);
    CodeHasNoQuote(kind, name);
    var mid := " << " + (code + " << ");
    Assoc("\"", mid, "\"");
    Assoc("\"", mid + "\"", rest);
    Assoc(mid, "\"", rest);
    BetweenQuotes(code, rest);
    StreamStep(mid + ("\"" + rest), |code| + 8, val);
  }

  /** The expression between two literals of a `<<` chain. */
  lemma BetweenQuotes(code: string, rest: string)
    requires '"' !in code
    ensures var r := (" << " + (code + " << ")) + ("\"" + rest);
            var q := |code| + 8;
            && " << " <= r && Find(r, "\"") == Some(q) && q < |r|
            && r[q - 4..q] == " << " && r[4..q - 4] == code && r[q + 1..] == rest
  {
    hide Find;
    var after := " << " + (code + " << ");
    var r := after + ("\"" + rest);
    assert r[..4] == " << ";
    assert '"' !in after;
    NoStartOf("\"", after, "\"" + rest);
    FindAfter(after, "\"" + rest, "\"");
    assert ("\"" + rest)[0..][..1] == "\"";
    FindIs("\"" + rest, "\"", 0);
    assert r[|code| + 4..|code| + 8] == after[|code| + 4..] == " << ";
  }

  lemma FilledCons(segs: seq<Seg>)
    requires segs != []
    ensures Filled(segs)
            == [if segs[0].Slot? then Done(Inserted(segs[0].kind, segs[0].name)) else segs[0]] + Filled(segs[1..])
  {
    hide Inserted;
    assert FillAll(AsText, segs)[1..] == FillAll(AsText, segs[1..]);
  }

  /** The rewritten line, read as the statement it becomes, emits what the line means. */
  lemma {:induction false} StreamSegs(segs: seq<Seg>, val: Valuation)
    requires Neat(segs) && NoneDone(segs) && NoBackslash(segs)
    ensures RunStream(Render(Filled(Escaped(segs))) + "\";\n", val) == Some(SegsText(segs, val))
    decreases |segs|
  {
    hide EscapeQuotes, Inserted, Code, Opener, Find, Seg.Ok, RunStream;
    if segs == [] {
      StreamEnd(val);
    } else {
      var e := Escaped(segs);
      FilledCons(e);
      assert e[1..] == Escaped(segs[1..]);
      StreamSegs(segs[1..], val);
      assert segs[0] in segs;
      var rest := Render(Filled(e[1..])) + "\";\n";
      var f := Filled(e);
      assert f[1..] == Filled(e[1..]);
      assert Render(f) + "\";\n" == f[0].Text() + rest;
      match segs[0]
      case Lit(text) => StreamLit(text, rest, val);
      case Slot(kind, name) => SlotNameOk(segs[0]); StreamSlot(kind, name, rest, val);
    }
  }

  lemma SlotNameOk(seg: Seg)
    requires seg.Slot? && seg.Ok()
    ensures NameOk(seg.name)
  {
  }

  lemma StreamEnd(val: Valuation)
    ensures RunStream(Render(Filled(Escaped([]))) + "\";\n", val) == Some("")
  {
    var s := "\"" + ";\n";
    assert Render(Filled(Escaped([]))) + "\";\n" == s;
    QuoteRead(";\n");
  }

  lemma RunStreamText(text: string, val: Valuation)
    ensures RunEmission(StreamText(text), val) == RunStream(text + "\";\n", val)
  {
    var s := text + "\";\n";
    assert StreamText(text)[|STREAM|..] == s && StreamText(text)[..|STREAM|] == STREAM;
  }

  lemma RunPlainStream(text: string, val: Valuation)
    requires '\\' !in text
    ensures RunEmission(StreamText(EscapeQuotes(text)), val) == Some(text)
  {
    hide EscapeQuotes, RunStream;
    RunStreamText(EscapeQuotes(text), val);
    StreamLit(text, "\";\n", val);
    StreamEnd(val);
    assert Render(Filled(Escaped([]))) + "\";\n" == "\";\n";
    assert text + "" == text;
  }

  lemma NotStream(arg: string)
    ensures !(STREAM <= APPEND + arg) && APPEND <= APPEND + arg && (APPEND + arg)[|APPEND|..] == arg
  {
    assert (APPEND + arg)[11] == APPEND[11] == '.';
    assert STREAM[11] == ' ';
  }

  lemma RunAppendText(text: string, val: Valuation)
    requires '\\' !in text
    ensures RunEmission(AppendText(EscapeQuotes(text)), val) == Some(text)
  {
    hide EscapeQuotes, STREAM, APPEND;
    var e := EscapeQuotes(text);
    var arg := "\"" + (e + "\");\n");
    NotStream(arg);
    assert "\");\n" == "\"" + ");\n";
    LiteralRead(text, "\");\n");
    QuoteRead(");\n");
    assert arg[1..] == e + "\");\n";
    assert text + "" == text;
  }

  lemma RunAppendCode(code: string, val: Valuation)
    requires '"' !in code
    ensures RunEmission(AppendCode(code), val) == Some(val(code))
  {
    hide STREAM, APPEND;
    var arg := code + ");\n";
    NotStream(arg);
    assert arg[|arg| - 3..] == ");\n" && arg[..|arg| - 3] == code;
    assert arg[0] != '"' by { assert code != "" ==> code[0] in code; }
  }
}
