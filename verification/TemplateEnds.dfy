/** On which templates the rewriting generator never ends. */
module TemplateEnds {
  import opened Common
  import opened TemplateText
  import opened TemplateExpand
  import opened TemplateLine
  import opened TemplateHang
  import opened TemplateGenerate
  import opened TemplateKinds
  import opened TemplateOrder

  /** One of the two loops never ends on this line. */
  predicate LineHangs(line: string) {
    Hangs(AsText, line) || match Expand(AsText, line) case None => false case Some(t) => Hangs(AsIs, t)
  }

  /** The rewriting generator never ends if and only if one of its loops never ends on one of the lines. */
  lemma {:induction false} NeverEndsIff(lines: seq<string>, pending: string)
    ensures Chunks(false, lines, pending).None?
       <==> exists i :: 0 <= i < |lines| && IsSlotLine(Trim(lines[i])) && LineHangs(Prepare(lines[i]))
    decreases |lines|
  {
    hide IsText, KeywordOf, Prepare, LineHangs, ExpandLine, ControlOf, Flush;
    if lines != [] {
      var line := Prepare(lines[0]);
      LineHangsIs(line);
      PreparedKind(lines[0]);
      if IsText(line) { NeverEndsIff(lines[1..], pending + line); } else { NeverEndsIff(lines[1..], ""); }
      forall i | 1 <= i < |lines| ensures lines[i] == lines[1..][i - 1] {}
    }
  }

  lemma LineHangsIs(line: string)
    ensures LineHangs(line) <==> ExpandLine(line).None?
  {
    hide Hangs, Expand;
    HangsIff(AsText, line);
    if Expand(AsText, line).Some? { HangsIff(AsIs, Expand(AsText, line).value); }
  }

  /**
   On a template whose lines hold well-formed placeholders in any order, it never ends if and only if the pieces of
   one of these lines say so.
   */
  lemma NeverEndsInOrder(lines: seq<string>, pieces: seq<seq<Seg>>)
    requires |pieces| == |lines|
    requires forall i :: 0 <= i < |lines| && IsSlotLine(Trim(lines[i]))
               ==> Neat(pieces[i]) && NoneEmpty(pieces[i]) && Render(pieces[i]) == Prepare(lines[i])
    ensures Chunks(false, lines, "").None?
       <==> exists i :: 0 <= i < |lines| && IsSlotLine(Trim(lines[i])) && HangsInOrder(pieces[i])
  {
    hide Chunks, IsSlotLine, Prepare, LineHangs, ExpandLine, HangsInOrder, Neat, NoneEmpty, Render;
    NeverEndsIff(lines, "");
    forall i | 0 <= i < |lines| && IsSlotLine(Trim(lines[i]))
      ensures LineHangs(Prepare(lines[i])) <==> HangsInOrder(pieces[i])
    {
      LineHangsIs(Prepare(lines[i]));
      OrderHangs(pieces[i]);
    }
  }

  /** The first loop never ends on `${a}$_S{b}`, a line on which every brace closes a placeholder. */
  lemma OutOfOrderHangs()
    ensures ExpandLine("${a}$_S{b}").None?
  {
    hide ExpandLine, Expand;
    var line := [Slot(AsIs, "a"), Slot(AsText, "b")];
    assert line[1..] == [line[1]] && line[1..][1..] == [];
    assert Render(line) == "${a}$_S{b}";
    OrderHangs(line);
  }

  /** The second loop never ends on `${a} $_S{b}${c}`; it does on `${a} $_S{b}${a}`. */
  lemma BehindCallHangs()
    ensures ExpandLine("${a} $_S{b}${c}").None? && ExpandLine("${a} $_S{b}${a}").Some?
  {
    hide ExpandLine, Expand;
    FourPieces("c");
    FourPieces("a");
    assert "${a} $_S{b}${c}" == "${a} $_S{b}" + ("${" + ("c" + "}"));
    assert "${a} $_S{b}${a}" == "${a} $_S{b}" + ("${" + ("a" + "}"));
  }

  lemma FourPieces(name: string)
    requires NameOk(name)
    ensures ExpandLine("${a} $_S{b}" + ("${" + (name + "}"))).None? <==> name != "a"
  {
    hide ExpandLine, Expand, First, FirstNew;
    var last := Slot(AsIs, name);
    var line := [Slot(AsIs, "a"), Lit(" "), Slot(AsText, "b"), last];
    FourTexts(last);
    var i := First(AsIs, line);
    assert i == 0 by { assert IsSlot(AsIs, line[0]); }
    var j := FirstNew(line, line[..0], 0);
    assert j == 2 by { assert IsSlot(AsText, line[2]) && line[2] !in line[..0]; }
    assert last in line[..2] <==> name == "a";
    OrderHangs(line);
  }

  lemma FourTexts(last: Seg)
    requires last.Slot? && NameOk(last.name)
    ensures var line := [Slot(AsIs, "a"), Lit(" "), Slot(AsText, "b"), last];
            Neat(line) && Render(line) == "${a} $_S{b}" + last.Text()
  {
    hide Find, Neat, Render, Seg.Ok, NameOk, Seg.Text;
    assert NameOk("a") && NameOk("b") by { PlainLetters(); }
    var c := [last];
    var b, a := [Slot(AsText, "b")] + c, [Lit(" ")] + ([Slot(AsText, "b")] + c);
    BlankOk();
    NeatCons(last, []);
    NeatCons(Slot(AsText, "b"), c);
    NeatCons(Lit(" "), b);
    NeatCons(Slot(AsIs, "a"), a);
    assert last.Ok() by { SlotOk(last); }
    SlotOk(Slot(AsText, "b"));
    SlotOk(Slot(AsIs, "a"));
    assert [last] + [] == c && [Slot(AsIs, "a")] + a == [Slot(AsIs, "a"), Lit(" "), Slot(AsText, "b"), last];
    FourPieceTexts();
    JoinFour("${a}", " ", "$_S{b}", last.Text());
  }

  lemma FourPieceTexts()
    ensures Slot(AsIs, "a").Text() == "${a}" && Slot(AsText, "b").Text() == "$_S{b}" && Lit(" ").Text() == " "
  {
    SlotIs("a");
    SlotIs("b");
    assert "${" + "a" + "}" == "${a}" && "$_S{" + "b" + "}" == "$_S{b}";
  }

  lemma PlainLetters()
    ensures NameOk("a") && NameOk("b")
  {
  }

  lemma JoinFour(a: string, b: string, c: string, d: string)
    ensures a + (b + (c + (d + ""))) == ((a + b) + c) + d
  {
  }

  lemma NeatCons(seg: Seg, rest: seq<Seg>)
    ensures Render([seg] + rest) == seg.Text() + Render(rest) && Neat([]) && Render([]) == ""
    ensures seg.Ok() && Neat(rest) && (seg.Lit? && rest != [] ==> !rest[0].Lit?) ==> Neat([seg] + rest)
  {
    hide Seg.Ok, Seg.Text;
    assert ([seg] + rest)[1..] == rest;
  }

  lemma SlotOk(seg: Seg)
    requires seg.Slot? && NameOk(seg.name)
    ensures seg.Ok()
  {
  }

  lemma BlankOk()
    ensures Lit(" ").Ok()
  {
    hide Find;
    NotThere(" ", Opener(AsText), 0);
    NotThere(" ", Opener(AsIs), 0);
  }
}
