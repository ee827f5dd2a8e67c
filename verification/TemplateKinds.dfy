/**
 Which kind a line is: text, a directive, or a line that goes through the placeholder loops; said on the trimmed line,
 before its quotes are escaped.
 */
module TemplateKinds {
  import opened Common
  import opened TemplateText
  import opened TemplateExpand
  import opened TemplateLine
  import opened TemplateGenerate

  /** How a directive starts. */
  function Written(kw: Keyword): string {
    match kw
    case KwDeclare => "#declare"
    case KwDefine => "#define"
    case KwFor => "#for("
    case KwWhile => "#while("
    case KwIf => "#if("
    case KwElseIf => "#elseif("
    case KwElse => "#else"
    case KwRof => "#rof"
    case KwFi => "#fi"
    case KwElihw => "#elihw"
    case KwEnd => "#end"
  }

  ghost predicate StartsDirective(line: string) { exists kw: Keyword :: Written(kw) <= line }

  /** Text, said by the characters. */
  ghost predicate PlainText(line: string) { !("#" <= line) && !Has(line, "${") && !Has(line, "$_S{") }

  /** A line that goes through the placeholder loops. */
  ghost predicate IsSlotLine(line: string) { !PlainText(line) && !StartsDirective(line) }

  /** How placeholders are written, and the code they stand for. */
  lemma SlotIs(name: string)
    ensures Slot(AsText, name).Text() == "$_S{" + name + "}" && Slot(AsIs, name).Text() == "${" + name + "}"
    ensures Code(AsText, name) == "std::to_string(" + name + ")" && Code(AsIs, name) == name
  {
  }

  /** The statements that emit text and code. */
  lemma EmissionsAre(x: string)
    ensures StreamText(x) == "_screen_i__ << \"" + x + "\";\n"
    ensures AppendText(x) == "_screen_i__.append(\"" + x + "\");\n"
    ensures AppendCode(x) == "_screen_i__.append(" + x + ");\n"
  {
    assert "_screen_i__.append(\"" == "_screen_i__.append(" + "\"";
  }

  lemma Letters(kw: Keyword)
    ensures var w := Written(kw);
            && |w| > 2 && w[0] == '#' && '"' !in w && '\\' !in w
            && (w[1] == match kw
                  case KwDeclare => 'd' case KwDefine => 'd' case KwFor => 'f' case KwFi => 'f'
                  case KwWhile => 'w' case KwIf => 'i' case KwRof => 'r' case _ => 'e')
            && (w[2] == match kw
                  case KwDeclare => 'e' case KwDefine => 'e' case KwFor => 'o' case KwFi => 'i'
                  case KwWhile => 'h' case KwIf => 'f' case KwRof => 'o' case KwEnd => 'n' case _ => 'l')
            && (kw.KwDeclare? || kw.KwDefine? || kw.KwElseIf? || kw.KwElse? || kw.KwElihw?
                ==> |w| > 3 && (w[3] == match kw case KwDeclare => 'c' case KwDefine => 'f' case KwElihw => 'i'
                    case _ => 's'))
  {
  }

  /** No line starts with two of them, except that `#else` is the beginning of `#elseif(`. */
  lemma OnlyOne(line: string, a: Keyword, b: Keyword)
    requires Written(a) <= line && Written(b) <= line && a != b
    ensures (a.KwElse? && b.KwElseIf?) || (a.KwElseIf? && b.KwElse?)
  {
    hide Written;
    Letters(a);
    Letters(b);
  }

  lemma KeywordHolds(line: string)
    ensures KeywordOf(line).Some? ==> Written(KeywordOf(line).value) <= line
    ensures KeywordOf(line) == Some(KwElse) ==> !("#elseif(" <= line)
    ensures KeywordOf(line).None? ==> forall kw: Keyword :: !(Written(kw) <= line)
  {
  }

  /** The directive of a line is the one it starts with; `#else` only where it is not `#elseif(`. */
  lemma KeywordExactly(line: string, kw: Keyword)
    ensures KeywordOf(line) == Some(kw) <==> Written(kw) <= line && (kw.KwElse? ==> !("#elseif(" <= line))
  {
    hide KeywordOf, Written;
    KeywordHolds(line);
    if Written(kw) <= line && KeywordOf(line) != Some(kw) {
      OnlyOne(line, kw, KeywordOf(line).value);
      assert Written(KwElseIf) == "#elseif(" by { ElseIfWritten(); }
    }
  }

  lemma ElseIfWritten()
    ensures Written(KwElseIf) == "#elseif("
  {
  }

  /** Escaping quotes changes nothing about how a line starts, and nothing about what it holds. */
  lemma {:induction false} EscapedPrefix(op: string, s: string)
    requires '"' !in op && '\\' !in op
    ensures op <= EscapeQuotes(s) <==> op <= s
    decreases |s|
  {
    hide EscapeQuotes;
    if s == "" {
      EscapeNothing("");
    } else if op != "" {
      var head, tail := if s[0] == '"' then "\\\"" else [s[0]], EscapeQuotes(s[1..]);
      assert s == [s[0]] + s[1..];
      EscapeStep(s[0], s[1..]);
      EscapedPrefix(op[1..], s[1..]);
      assert op[0] in op && op == [op[0]] + op[1..];
      PrefixStep(op, s[0], s[1..]);
      if s[0] != '"' { PrefixStep(op, s[0], tail); }
    }
  }

  lemma PrefixStep(op: string, c: char, s: string)
    requires op != ""
    ensures op <= [c] + s <==> op[0] == c && op[1..] <= s
  {
    assert ([c] + s)[1..] == s;
    if op[0] == c && op[1..] <= s { assert [c] + s == op + s[|op| - 1..]; }
  }

  lemma {:induction false} EscapedLacks(op: string, s: string)
    requires op != "" && '"' !in op && '\\' !in op && !Has(s, op)
    ensures !Has(EscapeQuotes(s), op)
    decreases |s|
  {
    hide EscapeQuotes, Find;
    var e := EscapeQuotes(s);
    if s == "" {
      EscapeNothing("");
    } else {
      var tail := EscapeQuotes(s[1..]);
      assert s == [s[0]] + s[1..];
      EscapeStep(s[0], s[1..]);
      LacksBehind(s, op);
      EscapedLacks(op, s[1..]);
      var head := if s[0] == '"' then "\\\"" else [s[0]];
      assert e == head + tail;
      if s[0] == '"' {
        assert op[0] in op;
        NoStartOf(op, head, tail);
      } else {
        if op <= e { EscapedPrefix(op, s); LacksFront(s, op); }
        OnlyStart(op, s[0], tail);
      }
      FindAfter(head, tail, op);
    }
  }

  lemma OnlyStart(op: string, c: char, tail: string)
    requires !(op <= [c] + tail)
    ensures NoStart(op, [c], tail)
  {
    assert ([c] + tail)[0..] == [c] + tail;
  }

  lemma LacksBehind(s: string, op: string)
    requires s != "" && !Has(s, op)
    ensures !Has(s[1..], op)
  {
  }

  lemma LacksFront(s: string, op: string)
    requires !Has(s, op)
    ensures !(op <= s)
  {
  }

  lemma {:induction false} EscapedHas(op: string, s: string)
    requires op != "" && '"' !in op && '\\' !in op
    ensures Has(EscapeQuotes(s), op) <==> Has(s, op)
    decreases |s|
  {
    hide EscapeQuotes, Find;
    EscapedPrefix(op, s);
    if !Has(s, op) {
      EscapedLacks(op, s);
    } else if op <= s {
      HasFrom(EscapeQuotes(s), 0, op);
    } else {
      HasFurther(s, op);
      var head := if s[0] == '"' then "\\\"" else [s[0]];
      assert s == [s[0]] + s[1..];
      EscapeStep(s[0], s[1..]);
      EscapedHas(op, s[1..]);
      HasBehindText(head, EscapeQuotes(s[1..]), op);
    }
  }

  lemma HasFrom(s: string, k: nat, op: string)
    requires k <= |s| && op <= s[k..]
    ensures Has(s, op)
  {
  }

  lemma HasFurther(s: string, op: string)
    requires op != "" && Has(s, op) && !(op <= s)
    ensures s != "" && Has(s[1..], op)
  {
  }

  lemma HasBehindText(x: string, s: string, op: string)
    requires Has(s, op)
    ensures Has(x + s, op)
  {
    var k := Find(s, op).value;
    assert (x + s)[|x| + k..] == s[k..];
    HasFrom(x + s, |x| + k, op);
  }

  /** What the generators make of a line, by the line as it was before its quotes were escaped. */
  lemma PreparedKind(raw: string)
    ensures IsText(Prepare(raw)) <==> PlainText(Trim(raw))
    ensures KeywordOf(Prepare(raw)) == KeywordOf(Trim(raw))
    ensures KeywordOf(Prepare(raw)).Some? <==> StartsDirective(Trim(raw))
    ensures IsText(Prepare(raw)) ==> KeywordOf(Prepare(raw)).None?
  {
    hide EscapeQuotes, Trim, Find, Written, KeywordOf;
    var t := Trim(raw);
    EscapedPrefix("#", t);
    EscapedHas("${", t);
    EscapedHas("$_S{", t);
    forall kw: Keyword ensures Written(kw) <= Prepare(raw) <==> Written(kw) <= t {
      Letters(kw);
      EscapedPrefix(Written(kw), t);
    }
    ElseIfWritten();
    KeywordHolds(t);
    KeywordHolds(Prepare(raw));
    forall kw: Keyword ensures KeywordOf(Prepare(raw)) == Some(kw) <==> KeywordOf(t) == Some(kw) {
      KeywordExactly(t, kw);
      KeywordExactly(Prepare(raw), kw);
    }
    assert KeywordOf(t).Some? ==> KeywordOf(Prepare(raw)) == Some(KeywordOf(t).value);
    if KeywordOf(t).Some? { Letters(KeywordOf(t).value); StartsWithHash(t); }
  }

  lemma StartsWithHash(line: string)
    requires line != "" && line[0] == '#'
    ensures "#" <= line
  {
  }

  /** A line with a placeholder is no text. */
  lemma SlotThere(segs: seq<Seg>, seg: Seg)
    requires seg in segs && seg.Slot?
    ensures !PlainText(Render(segs))
    decreases |segs|
  {
    hide Find;
    var op := Opener(seg.kind);
    assert op == "${" || op == "$_S{";
    assert Has(Render(segs), op) by { SlotHas(segs, seg); }
  }

  lemma {:induction false} SlotHas(segs: seq<Seg>, seg: Seg)
    requires seg in segs && seg.Slot?
    ensures Has(Render(segs), Opener(seg.kind))
    decreases |segs|
  {
    hide Find, Opener, Seg.Text;
    if seg == segs[0] {
      SlotStarts(seg, Render(segs[1..]));
      HasFrom(Render(segs), 0, Opener(seg.kind));
    } else {
      SlotHas(segs[1..], seg);
      HasBehindText(segs[0].Text(), Render(segs[1..]), Opener(seg.kind));
    }
  }

  lemma SlotStarts(seg: Seg, rest: string)
    requires seg.Slot?
    ensures Opener(seg.kind) <= (seg.Text() + rest)[0..]
  {
    hide Opener;
    assert (seg.Text() + rest)[0..] == Opener(seg.kind) + ((seg.name + "}") + rest);
  }
}
