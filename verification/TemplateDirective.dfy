/**
 Directives: what they say, what the generated control text does when it is read as C++, and that this is the same.
 `#elseif` is no part of it: the generated text keeps its `#`.
 */
module TemplateDirective {
  import opened Common
  import opened TemplateText
  import opened TemplateExpand
  import opened TemplateGenerate
  import opened TemplateKinds

  // ---------- what directives say ----------

  /** What control does: run code, open a block, close one block and open another, close a block. */
  datatype Step = Exec(code: string) | Enter(head: string) | Switch(head: string) | Leave

  datatype Directive =
    | Declare(rest: string)
    | Define(code: string)
    | For(arg: string)
    | While(arg: string)
    | If(arg: string)
    | Else
    | EndFor
    | EndIf
    | EndWhile
    | EndAny
  {
    /** How it is written; a `#` may follow. */
    function Text(): string {
      match this
      case Declare(rest) => "#declare" + rest
      case Define(code) => "#define " + code
      case For(arg) => "#for" + arg
      case While(arg) => "#while" + arg
      case If(arg) => "#if" + arg
      case Else => "#else"
      case EndFor => "#rof"
      case EndIf => "#fi"
      case EndWhile => "#elihw"
      case EndAny => "#end"
    }

    /** What it stands for in the generated function. */
    function Steps(): seq<Step> {
      match this
      case Declare(_) => []
      case Define(code) => [Exec(code)]
      case For(arg) => [Enter("for" + arg)]
      case While(arg) => [Enter("while" + arg)]
      case If(arg) => [Enter("if" + arg)]
      case Else => [Switch("else")]
      case _ => [Leave]
    }

    /** Code on one line, without quotes, and heads in parentheses; only the mark behind it is a final `#`. */
    predicate WellFormed(mark: string) {
      && (mark == "" || mark == "#")
      && match this
         case Declare(rest) => '"' !in rest
         case Define(code) => PlainCode(code) && (mark == "" ==> NoHash(code)) && code != "}"
         case For(arg) => PlainCode(arg) && arg[0] == '(' && (mark == "" ==> NoHash(arg))
         case While(arg) => PlainCode(arg) && arg[0] == '(' && (mark == "" ==> NoHash(arg))
         case If(arg) => PlainCode(arg) && arg[0] == '(' && (mark == "" ==> NoHash(arg))
         case _ => true
    }
  }

  predicate PlainCode(code: string) { code != "" && '\n' !in code && '"' !in code }

  predicate NoHash(code: string) { code != "" && code[|code| - 1] != '#' }

  // ---------- what generated control text does ----------

  const OPENING: string := "\n{\n"
  const CLOSING: string := "}\n"

  predicate Ends(s: string, end: string) { |end| <= |s| && s[|s| - |end|..] == end }

  /** Reads a generated control statement. */
  function ReadControl(s: string): Option<Step> {
    if s == CLOSING then Some(Leave)
    else if CLOSING <= s && Ends(s[2..], OPENING) then Some(Switch(s[2..|s| - 3]))
    else if Ends(s, OPENING) then Some(Enter(s[..|s| - 3]))
    else if Ends(s, "\n") then Some(Exec(s[..|s| - 1]))
    else None
  }

  lemma ControlReads(c: Control)
    ensures ReadControl(c.Text()).Some?
  {
    match c
    case Raw(code) => assert Ends(code + "\n", "\n");
    case Begin(head) => assert Ends(head + "\n{\n", OPENING);
    case Turn(head) => assert Ends("}\n" + head + "\n{\n", OPENING);
    case End =>
  }

  function StepOf(c: Control): Step {
    ControlReads(c);
    ReadControl(c.Text()).value
  }

  function StepsOf(controls: seq<Control>): (r: seq<Step>)
    ensures |r| == |controls|
  {
    if controls == [] then [] else [StepOf(controls[0])] + StepsOf(controls[1..])
  }

  lemma {:induction false} StepsConcat(a: seq<Control>, b: seq<Control>)
    ensures StepsOf(a + b) == StepsOf(a) + StepsOf(b)
    decreases |a|
  {
    if a == [] {
      assert a + b == b;
    } else {
      assert (a + b)[1..] == a[1..] + b;
      StepsConcat(a[1..], b);
    }
  }

  /** A head or code on one line is read as what it is. */
  lemma OneLineReads(code: string)
    requires '\n' !in code && code != ""
    ensures code != "}" ==> StepOf(Raw(code)) == Exec(code)
    ensures code[0] != '}' ==> StepOf(Begin(code)) == Enter(code)
    ensures StepOf(Turn(code)) == Switch(code) && StepOf(End) == Leave
  {
    hide ReadControl;
    if code != "}" { RawReads(code); }
    BeginReads(code);
    TurnReads(code);
    EndReads();
  }

  lemma BeginReads(code: string)
    requires '\n' !in code && code != ""
    ensures code[0] != '}' ==> ReadControl(code + "\n{\n") == Some(Enter(code))
  {
    var begin := code + "\n{\n";
    assert begin[|code|..] == OPENING && begin[..|code|] == code && begin[0] == code[0];
  }

  lemma TurnReads(code: string)
    requires '\n' !in code && code != ""
    ensures ReadControl("}\n" + code + "\n{\n") == Some(Switch(code))
  {
    var begin, turn := code + "\n{\n", "}\n" + code + "\n{\n";
    assert begin[|code|..] == OPENING;
    assert turn[2..] == begin && turn[2..|turn| - 3] == code && turn[..2] == CLOSING;
  }

  lemma EndReads()
    ensures ReadControl("}\n") == Some(Leave)
  {
  }

  lemma RawReads(code: string)
    requires '\n' !in code && code != "" && code != "}"
    ensures ReadControl(code + "\n") == Some(Exec(code))
  {
    var raw := code + "\n";
    assert raw[|code|..] == "\n" && raw[..|code|] == code;
    assert forall k :: 0 <= k < |code| ==> raw[k] != '\n';
    assert |raw| >= 3 ==> raw[|raw| - 3..][0] == raw[|raw| - 3] != '\n';
    assert !(CLOSING <= raw) by { assert |code| >= 2 ==> raw[1] != '\n'; }
    assert raw != CLOSING;
  }

  // ---------- the generated control text does what the directive says ----------

  lemma ReplaceFront(old_: string, new_: string, rest: string)
    ensures ReplaceFirst(old_ + rest, old_, new_) == new_ + rest
  {
    var s := old_ + rest;
    assert s[0..] == s && s[|old_|..] == rest;
    FindIs(s, old_, 0);
  }

  lemma DropMark(text: string, mark: string)
    requires mark == "#" || (mark == "" && NoHash(text))
    ensures DropHash(text + mark) == text
  {
    assert mark == "" ==> text + mark == text;
    assert mark == "#" ==> (text + mark)[..|text|] == text;
  }

  function KeywordFor(d: Directive): Keyword {
    match d
    case Declare(_) => KwDeclare
    case Define(_) => KwDefine
    case For(_) => KwFor
    case While(_) => KwWhile
    case If(_) => KwIf
    case Else => KwElse
    case EndFor => KwRof
    case EndIf => KwFi
    case EndWhile => KwElihw
    case EndAny => KwEnd
  }

  lemma StartsSo(d: Directive, mark: string)
    requires d.WellFormed(mark)
    ensures Written(KeywordFor(d)) <= d.Text() + mark && '"' !in d.Text() + mark
    ensures d.Else? ==> |d.Text() + mark| <= 6
  {
    NoQuoteIn(d, mark);
    var t := d.Text();
    Shorter(Written(KeywordFor(d)), t, mark);
    match d
    case For(arg) => assert t[..5] == "#for(";
    case While(arg) => assert t[..7] == "#while(";
    case If(arg) => assert t[..4] == "#if(";
    case Define(code) => assert t[..7] == "#define";
    case Declare(rest) => assert t[..8] == "#declare";
    case _ =>
  }

  lemma Shorter(a: string, b: string, mark: string)
    ensures a <= b ==> a <= b + mark
  {
  }

  lemma NoQuoteIn(d: Directive, mark: string)
    requires d.WellFormed(mark)
    ensures '"' !in d.Text() + mark
  {
    hide NoHash;
    assert '"' !in mark;
  }

  lemma KeywordIs(d: Directive, s: string)
    requires Written(KeywordFor(d)) <= s && (d.Else? ==> |s| <= 6)
    ensures KeywordOf(s) == Some(KeywordFor(d)) && "#" <= s
  {
    hide KeywordOf, Written;
    Letters(KeywordFor(d));
    StartsWithHash(s);
    KeywordExactly(s, KeywordFor(d));
  }

  /** The control statement generated for a well-formed directive does what the directive says. */
  lemma DirectiveMeans(d: Directive, mark: string)
    requires d.WellFormed(mark)
    ensures var line := d.Text() + mark;
            KeywordOf(line).Some? && StepsOf(ControlOf(KeywordOf(line).value, line)) == d.Steps()
  {
    hide KeywordOf, StepOf, ReplaceFirst, DropHash, Written;
    StartsSo(d, mark);
    KeywordIs(d, d.Text() + mark);
    OneHead(d, mark);
  }

  /** The one control statement, by its head. */
  lemma OneHead(d: Directive, mark: string)
    requires d.WellFormed(mark)
    ensures StepsOf(ControlOf(KeywordFor(d), d.Text() + mark)) == d.Steps()
  {
    hide KeywordOf, StepOf, ReplaceFirst, DropHash, StepsOf, NoHash;
    match d
    case Declare(rest) => NoSteps();
    case Define(code) => DefineHead(code, mark);
    case For(arg) =>
      HeadOf("#for", "for", arg, mark);
      BlockStep("for" + arg);
    case While(arg) =>
      HeadOf("#while", "while", arg, mark);
      BlockStep("while" + arg);
    case If(arg) =>
      HeadOf("#if", "if", arg, mark);
      BlockStep("if" + arg);
    case Else =>
      ElseHead(mark);
      OneLineReads("else");
      OneStep(Turn("else"));
    case _ =>
      OneLineReads("else");
      OneStep(End);
  }

  lemma HeadOf(old_: string, new_: string, arg: string, mark: string)
    requires PlainCode(arg) && (mark == "#" || (mark == "" && NoHash(arg)))
    ensures DropHash(ReplaceFirst((old_ + arg) + mark, old_, new_)) == new_ + arg
  {
    hide ReplaceFirst, DropHash;
    assert (new_ + arg)[|new_ + arg| - 1] == arg[|arg| - 1];
    HeadIs(old_, new_, arg, mark);
  }

  lemma ElseHead(mark: string)
    requires mark == "#" || mark == ""
    ensures DropHash(ReplaceFirst("#else" + mark, "#else", "else")) == "else"
  {
    hide ReplaceFirst, DropHash;
    assert "else" + "" == "else" && NoHash("else");
    HeadIs("#else", "else", "", mark);
  }

  lemma DefineHead(code: string, mark: string)
    requires PlainCode(code) && code != "}" && (mark == "#" || (mark == "" && NoHash(code)))
    ensures StepsOf(ControlOf(KwDefine, ("#define " + code) + mark)) == [Exec(code)]
  {
    hide StepOf, ReplaceFirst, DropHash, StepsOf, NoHash;
    assert "" + code == code;
    HeadOf("#define ", "", code, mark);
    OneLineReads(code);
    OneStep(Raw(code));
  }

  lemma NoSteps()
    ensures StepsOf([]) == []
  {
  }

  lemma OneStep(c: Control)
    ensures StepsOf([c]) == [StepOf(c)]
  {
    assert [c][1..] == [];
  }

  lemma BlockStep(head: string)
    requires head != "" && '\n' !in head && head[0] != '}'
    ensures StepsOf([Begin(head)]) == [Enter(head)]
  {
    hide StepOf, StepsOf;
    OneLineReads(head);
    OneStep(Begin(head));
  }

  lemma HeadIs(old_: string, new_: string, rest: string, mark: string)
    requires mark == "#" || (mark == "" && NoHash(new_ + rest))
    ensures DropHash(ReplaceFirst((old_ + rest) + mark, old_, new_)) == new_ + rest
    ensures rest == "" ==> DropHash(ReplaceFirst(old_ + mark, old_, new_)) == new_
  {
    assert (old_ + rest) + mark == old_ + (rest + mark);
    ReplaceFront(old_, new_, rest + mark);
    assert new_ + (rest + mark) == (new_ + rest) + mark;
    DropMark(new_ + rest, mark);
    if rest == "" { assert old_ + rest == old_ && new_ + rest == new_; }
  }

  // ---------- directives that keep their `#` ----------

  /** The code of a control statement: the head of a block, or the code itself. */
  function CodeOf(c: Control): string {
    match c
    case Raw(code) => code
    case Begin(head) => head
    case Turn(head) => head
    case End => ""
  }

  /** What is left of the line when the keyword and a final `#` are taken away. */
  function Behind(keyword: string, line: string): string
    requires keyword <= line
  {
    DropHash(line[|keyword|..])
  }

  /**
   The generated code starts with `#` exactly for `#elseif`, for a `#define` with no space behind it, and for a
   `#define` whose own code starts with `#`.
   */
  lemma HashExactly(line: string)
    requires KeywordOf(line).Some?
    ensures forall c :: c in ControlOf(KeywordOf(line).value, line) ==>
              ("#" <= CodeOf(c) <==>
                || KeywordOf(line) == Some(KwElseIf)
                || (KeywordOf(line) == Some(KwDefine) && !("#define " <= line))
                || (KeywordOf(line) == Some(KwDefine) && "#define " <= line && "#" <= Behind("#define ", line)))
  {
    hide ReplaceFirst, DropHash;
    match KeywordOf(line).value
    case KwDefine => DefineKeeps(line);
    case KwFor => HeadStarts(line, "#for", "for");
    case KwWhile => HeadStarts(line, "#while", "while");
    case KwIf => HeadStarts(line, "#if", "if");
    case KwElse => HeadStarts(line, "#else", "else");
    case KwElseIf => ElseIfStarts(line);
    case _ =>
  }

  /** With a space behind it the keyword goes; without one the code still starts with the whole keyword. */
  lemma DefineKeeps(line: string)
    requires "#define" <= line
    ensures ControlOf(KwDefine, line) == [Raw(DropHash(ReplaceFirst(line, "#define ", "")))]
    ensures "#define " <= line ==> DropHash(ReplaceFirst(line, "#define ", "")) == Behind("#define ", line)
    ensures !("#define " <= line) ==> "#define" <= DropHash(ReplaceFirst(line, "#define ", ""))
  {
    hide ReplaceFirst, DropHash, Behind;
    OneHash("#define");
    assert "#define" + " " == "#define ";
    KeywordKept(line, "#define");
  }

  /** What is generated for a declaration, with the keyword that is taken away. */
  function Declared(line: string): string {
    DropHash(ReplaceFirst(line, if "#declareref " <= line then "#declareref " else "#declare ", ""))
  }

  /** The same for `#declare`, whose text goes to the declarations. */
  lemma DeclareKeeps(line: string)
    requires "#declare" <= line
    ensures "#declareref " <= line ==> Declared(line) == Behind("#declareref ", line)
    ensures "#declare " <= line ==> Declared(line) == Behind("#declare ", line)
    ensures !("#declareref " <= line) && !("#declare " <= line) ==> "#declare" <= Declared(line)
  {
    hide ReplaceFirst, DropHash, Behind;
    OneHash("#declare");
    OneHash("#declareref");
    assert "#declare" + " " == "#declare " && "#declareref" + " " == "#declareref ";
    assert "#declareref " <= line ==> !("#declare " <= line) by {
      assert "#declareref "[8] == 'r' && "#declare "[8] == ' ';
    }
    if "#declareref " <= line {
      assert "#declareref" <= line by { assert line[..11] == "#declareref "[..11]; }
      KeywordKept(line, "#declareref");
    } else {
      KeywordKept(line, "#declare");
    }
  }

  /** A keyword that starts with its only `#`. */
  predicate HashFirst(keyword: string) {
    keyword != "" && keyword[0] == '#' && (forall k :: 0 < k < |keyword| ==> keyword[k] != '#') && |keyword| > 1
  }

  lemma OneHash(keyword: string)
    requires keyword in {"#define", "#declare", "#declareref"}
    ensures HashFirst(keyword)
  {
  }

  lemma Taken(line: string, old_: string)
    requires old_ <= line
    ensures ReplaceFirst(line, old_, "") == line[|old_|..]
  {
    ReplaceFront(old_, "", line[|old_|..]);
    assert line == old_ + line[|old_|..] && "" + line[|old_|..] == line[|old_|..];
  }

  /** The keyword goes if a space stands behind it; else it stays, whatever stands further on. */
  lemma KeywordKept(line: string, keyword: string)
    requires keyword <= line && HashFirst(keyword)
    ensures var old_ := keyword + " ";
            && (old_ <= line ==> DropHash(ReplaceFirst(line, old_, "")) == Behind(old_, line))
            && (!(old_ <= line) ==> keyword <= DropHash(ReplaceFirst(line, old_, "")))
  {
    hide Find, DropHash;
    var old_ := keyword + " ";
    if old_ <= line {
      Taken(line, old_);
    } else {
      NotInKeyword(line, keyword);
      var s := ReplaceFirst(line, old_, "");
      assert keyword <= s by { assert s[..|keyword|] == line[..|keyword|]; }
      DropKeeps(s, keyword);
    }
  }

  lemma DropKeeps(s: string, keyword: string)
    requires keyword <= s && HashFirst(keyword)
    ensures keyword <= DropHash(s)
  {
    assert |s| == |keyword| ==> s[|s| - 1] == keyword[|keyword| - 1];
    if |s| > |keyword| { assert s[..|s| - 1][..|keyword|] == s[..|keyword|]; }
  }

  lemma NotInKeyword(line: string, keyword: string)
    requires keyword <= line && HashFirst(keyword) && !(keyword + " " <= line)
    ensures var i := Find(line, keyword + " "); i.Some? ==> |keyword| <= i.value
  {
    hide Find;
    var old_ := keyword + " ";
    forall k | 0 <= k < |keyword| ensures !(old_ <= line[k..]) {
      if k == 0 { assert line[0..] == line; } else { assert line[k..][0] == keyword[k]; }
    }
  }

  /** `#define` with no space behind it, and with none at all: the preprocessor line stays what it was. */
  lemma DefineKeepsHash()
    ensures KeywordOf("#define") == Some(KwDefine) && ControlOf(KwDefine, "#define") == [Raw("#define")]
    ensures KeywordOf("#defineX 1") == Some(KwDefine) && ControlOf(KwDefine, "#defineX 1") == [Raw("#defineX 1")]
  {
    hide Find, KeywordOf;
    KeywordIs(Define("x"), "#define");
    KeywordIs(Define("x"), "#defineX 1") by { assert "#defineX 1"[..7] == "#define"; }
    NotDefine("#define");
    NotDefine("#defineX 1");
  }

  lemma NotDefine(line: string)
    requires line == "#define" || line == "#defineX 1"
    ensures DropHash(ReplaceFirst(line, "#define ", "")) == line
  {
    hide Find;
    var old_ := "#define ";
    assert old_[0] == '#' && old_[7] == ' ' && forall k :: 0 < k < |line| ==> line[k] != '#';
    forall k | 0 <= k <= |line| ensures !(old_ <= line[k..]) {
      if k == 0 { assert line[0..] == line; }
      else if k < |line| { assert line[k..][0] == line[k]; }
    }
  }

  lemma HeadStarts(line: string, old_: string, new_: string)
    requires old_ <= line && |new_| >= 2 && new_[0] != '#'
    ensures !("#" <= DropHash(ReplaceFirst(line, old_, new_)))
  {
    var rest := line[|old_|..];
    assert line == old_ + rest;
    ReplaceFront(old_, new_, rest);
    var s := new_ + rest;
    assert s[0] == new_[0] && |s| >= 2 && DropHash(s)[0] == s[0];
  }

  lemma ElseIfStarts(line: string)
    requires "#elseif(" <= line
    ensures "#" <= DropHash(ReplaceFirst(line, "elseif", "else if"))
  {
    assert line[1..][..6] == "elseif" && line[0] == '#';
    assert line[0..] == line;
    FindIs(line, "elseif", 1);
    assert ReplaceFirst(line, "elseif", "else if")[0] == '#';
  }

  /** For `#elseif(x)` the generated text is no C++: a `#` stands in front of the `else`. */
  lemma ElseIfKeepsHash()
    ensures KeywordOf("#elseif(x)") == Some(KwElseIf)
    ensures StepsOf(ControlOf(KwElseIf, "#elseif(x)")) == [Switch("#else if(x)")]
  {
    hide StepOf, KeywordOf, ReplaceFirst, DropHash, StepsOf;
    ElseIfText();
    OneLineReads("#else if(x)");
    OneStep(Turn("#else if(x)"));
  }

  lemma ElseIfText()
    ensures KeywordOf("#elseif(x)") == Some(KwElseIf)
    ensures DropHash(ReplaceFirst("#elseif(x)", "elseif", "else if")) == "#else if(x)"
  {
    hide Find, KeywordOf;
    var line := "#elseif(x)";
    ElseIfFound(line);
    assert line[..1] + "else if" + line[7..] == "#else if(x)";
    ElseIfKeyword(line);
  }

  lemma ElseIfFound(line: string)
    requires line == "#elseif(x)"
    ensures Find(line, "elseif") == Some(1)
  {
    hide Find;
    assert line[1..][..6] == "elseif";
    assert line[0..][0] == '#' && "elseif"[0] == 'e';
    FindIs(line, "elseif", 1);
  }

  lemma ElseIfKeyword(line: string)
    requires line == "#elseif(x)"
    ensures KeywordOf(line) == Some(KwElseIf)
  {
    hide KeywordOf;
    assert line[..8] == "#elseif(";
    KeywordExactly(line, KwElseIf);
  }
}
