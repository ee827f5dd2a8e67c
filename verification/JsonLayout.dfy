/**
 Where the printer breaks lines and how deep it indents them, said by the bracket depth on the list of compact
 tokens.
 */
module JsonLayout {
  import opened Common
  import opened JsonText
  import opened JsonPrint
  import opened JsonTokens

  predicate Opens(tok: Tok) { tok.Mark? && (tok.c == '[' as int || tok.c == '{' as int) }

  predicate Closes(tok: Tok) { tok.Mark? && (tok.c == ']' as int || tok.c == '}' as int) }

  predicate IsComma(tok: Tok) { tok.Mark? && tok.c == ',' as int }

  predicate IsColon(tok: Tok) { tok.Mark? && tok.c == ':' as int }

  function Change(tok: Tok): int { if Opens(tok) then 1 else if Closes(tok) then -1 else 0 }

  /** How many brackets the tokens open and do not close. */
  function Balance(toks: seq<Tok>): int {
    if toks == [] then 0 else Change(toks[0]) + Balance(toks[1..])
  }

  /** `n` indentations. */
  function Times(indent: Text, n: int): Text {
    if n <= 0 then [] else Times(indent, n - 1) + indent
  }

  function NewLine(indent: Text, n: int): seq<Tok> {
    [Blank('\n' as int)] + Blanks(Times(indent, n))
  }

  /**
   What stands between two neighbours, `depth` brackets being open behind the first: a new line behind an opening
   bracket that is not closed at once, behind a comma, and before a closing bracket, which stands one level further
   out than what it closes; a space behind a colon; nothing anywhere else.
   */
  function Gap(a: Tok, b: Tok, depth: int, indent: Text): seq<Tok> {
    if Opens(a) && Closes(b) then []
    else if Opens(a) || IsComma(a) then NewLine(indent, depth)
    else if Closes(b) then NewLine(indent, depth - 1)
    else if IsColon(a) then [Blank(' ' as int)]
    else []
  }

  /** The gap where two lists of tokens meet. */
  function Seam(a: seq<Tok>, b: seq<Tok>, depth: int, indent: Text): seq<Tok> {
    if a == [] || b == [] then [] else Gap(a[|a| - 1], b[0], depth, indent)
  }

  /** The tokens with the gaps between them, `depth` brackets being open in front. */
  function Layout(toks: seq<Tok>, depth: int, indent: Text): seq<Tok> {
    if toks == [] then []
    else
      var d := depth + Change(toks[0]);
      [toks[0]] + (Seam(toks[..1], toks[1..], d, indent) + Layout(toks[1..], d, indent))
  }

  lemma {:induction false} BalanceConcat(a: seq<Tok>, b: seq<Tok>)
    ensures Balance(a + b) == Balance(a) + Balance(b)
    decreases |a|
  {
    if a == [] {
      assert a + b == b;
    } else {
      assert (a + b)[1..] == a[1..] + b;
      BalanceConcat(a[1..], b);
    }
  }

  lemma LayoutStep(toks: seq<Tok>, depth: int, indent: Text)
    requires toks != []
    ensures var d := depth + Change(toks[0]);
            Layout(toks, depth, indent) ==
            [toks[0]] + (Seam(toks[..1], toks[1..], d, indent) + Layout(toks[1..], d, indent))
  {
  }

  lemma NothingLaidOut(b: seq<Tok>, depth: int, indent: Text)
    ensures Layout([], depth, indent) == [] && Seam([], b, depth, indent) == []
  {
  }

  lemma SeamMoves(a: seq<Tok>, b: seq<Tok>, depth: int, indent: Text)
    requires a != []
    ensures if a[1..] == [] then
              && Seam(a[..1], a[1..] + b, depth, indent) == Seam(a, b, depth, indent)
              && Seam(a[..1], a[1..], depth, indent) == []
            else
              && Seam(a[..1], a[1..] + b, depth, indent) == Seam(a[..1], a[1..], depth, indent)
              && forall d :: Seam(a[1..], b, d, indent) == Seam(a, b, d, indent)
  {
    hide Gap;
    assert a[1..] == [] ==> a[1..] + b == b && a[..1] == a;
  }

  lemma Regrouped<T>(a: seq<T>, b: seq<T>, c: seq<T>, d: seq<T>)
    ensures a + (b + (c + d)) == (a + (b + c)) + d
  {
  }

  lemma {:induction false} LayoutConcat(a: seq<Tok>, b: seq<Tok>, depth: int, indent: Text)
    ensures var d := depth + Balance(a);
            Layout(a + b, depth, indent) == Layout(a, depth, indent) + (Seam(a, b, d, indent) + Layout(b, d, indent))
    decreases |a|
  {
    hide Gap, Change, Layout, Seam;
    if a == [] {
      assert a + b == b;
      NothingLaidOut(b, depth, indent);
    } else {
      var rest := a[1..];
      var d, after := depth + Balance(a), depth + Change(a[0]);
      assert (a + b)[1..] == rest + b && (a + b)[..1] == a[..1];
      LayoutStep(a, depth, indent);
      LayoutStep(a + b, depth, indent);
      LayoutConcat(rest, b, after, indent);
      SeamMoves(a, b, after, indent);
      if rest == [] {
        assert rest + b == b;
        NothingLaidOut(b, after, indent);
      } else {
        Regrouped([a[0]], Seam(a[..1], rest, after, indent), Layout(rest, after, indent),
          Seam(a, b, d, indent) + Layout(b, d, indent));
      }
    }
  }

  /** Opens what it closes, and is no place for a gap at either end. */
  ghost predicate Whole(p: seq<Tok>) {
    && p != [] && Balance(p) == 0 && !Closes(p[0])
    && (var last := p[|p| - 1]; !Opens(last) && !IsComma(last) && !IsColon(last))
  }

  lemma WholeOne(tok: Tok)
    requires !tok.Mark?
    ensures Whole([tok]) && forall depth, indent :: Layout([tok], depth, indent) == [tok]
  {
    assert [tok][1..] == [];
  }

  /** The parts of an array or an object, laid out one by one. */
  ghost predicate LaidOut(parts: seq<seq<Tok>>, compact: seq<seq<Tok>>, depth: int, indent: Text) {
    && |parts| == |compact|
    && forall k :: 0 <= k < |parts| ==> Whole(compact[k]) && parts[k] == Layout(compact[k], depth, indent)
  }

  lemma LaidOutFirst(part: seq<Tok>, compact: seq<Tok>, parts: seq<seq<Tok>>, compacts: seq<seq<Tok>>, depth: int,
                     indent: Text)
    requires Whole(compact) && part == Layout(compact, depth, indent) && LaidOut(parts, compacts, depth, indent)
    ensures LaidOut([part] + parts, [compact] + compacts, depth, indent)
  {
    hide Whole, Layout;
  }

  lemma TokAlone(tok: Tok, depth: int, indent: Text)
    ensures Layout([tok], depth, indent) == [tok] && Balance([tok]) == Change(tok)
  {
    assert [tok][1..] == [];
  }

  lemma WholeJoined(a: seq<Tok>, b: seq<Tok>)
    requires Whole(a) && Whole(b)
    ensures Whole(a + ([Mark(COMMA)] + b))
  {
    hide Balance;
    var s := [Mark(COMMA)] + b;
    TokAlone(Mark(COMMA), 0, []);
    BalanceConcat([Mark(COMMA)], b);
    BalanceConcat(a, s);
    assert (a + s)[0] == a[0] && (a + s)[|a + s| - 1] == b[|b| - 1];
  }

  /** A comma breaks the line. */
  lemma LayoutJoined(a: seq<Tok>, b: seq<Tok>, depth: int, indent: Text)
    requires Whole(a) && Whole(b)
    ensures Layout(a + ([Mark(COMMA)] + b), depth, indent)
         == Layout(a, depth, indent) + (([Mark(COMMA)] + NewLine(indent, depth)) + Layout(b, depth, indent))
  {
    hide Balance, Layout, NewLine;
    var s := [Mark(COMMA)] + b;
    TokAlone(Mark(COMMA), depth, indent);
    LayoutConcat([Mark(COMMA)], b, depth, indent);
    LayoutConcat(a, s, depth, indent);
    assert Seam(a, s, depth, indent) == [];
    assert Seam([Mark(COMMA)], b, depth, indent) == NewLine(indent, depth);
  }

  lemma {:induction false} JoinLaidOut(parts: seq<seq<Tok>>, compact: seq<seq<Tok>>, depth: int, indent: Text)
    requires LaidOut(parts, compact, depth, indent) && parts != []
    ensures var j := JoinToks(compact, [Mark(COMMA)]);
            && Whole(j)
            && JoinToks(parts, [Mark(COMMA)] + NewLine(indent, depth)) == Layout(j, depth, indent)
    decreases |parts|
  {
    hide Whole, Layout, NewLine;
    if |parts| > 1 {
      JoinLaidOut(parts[1..], compact[1..], depth, indent);
      var j := JoinToks(compact[1..], [Mark(COMMA)]);
      assert Whole(compact[0]) && parts[0] == Layout(compact[0], depth, indent);
      WholeJoined(compact[0], j);
      LayoutJoined(compact[0], j, depth, indent);
    } else {
      assert Whole(compact[0]) && parts[0] == Layout(compact[0], depth, indent);
    }
  }

  /** Brackets around what stands one level further in. */
  lemma LayoutBracketed(open: Tok, body: seq<Tok>, close: Tok, depth: int, indent: Text)
    requires Opens(open) && Closes(close) && Whole(body)
    ensures var toks := [open] + (body + [close]);
            && Whole(toks)
            && Layout(toks, depth, indent)
               == [open] + (NewLine(indent, depth + 1)
                  + (Layout(body, depth + 1, indent) + (NewLine(indent, depth) + [close])))
  {
    hide Balance, Layout, NewLine;
    var e := body + [close];
    TokAlone(open, depth, indent);
    TokAlone(close, depth + 1, indent);
    BalanceConcat(body, [close]);
    BalanceConcat([open], e);
    LayoutConcat(body, [close], depth + 1, indent);
    LayoutConcat([open], e, depth, indent);
    assert Seam(body, [close], depth + 1, indent) == NewLine(indent, depth);
    assert Seam([open], e, depth + 1, indent) == NewLine(indent, depth + 1);
    Assoc(NewLine(indent, depth + 1), Layout(body, depth + 1, indent), NewLine(indent, depth) + [close]);
  }

  lemma LayoutEmpty(open: Tok, close: Tok, depth: int, indent: Text)
    requires Opens(open) && Closes(close)
    ensures Whole([open, close]) && Layout([open, close], depth, indent) == [open, close]
  {
    hide Balance, Layout;
    assert [open, close] == [open] + [close];
    TokAlone(open, depth, indent);
    TokAlone(close, depth + 1, indent);
    BalanceConcat([open], [close]);
    LayoutConcat([open], [close], depth, indent);
  }

  lemma BreakIsNewLine(indent: Text, depth: int, n: int)
    requires indent != [] && depth > 0
    ensures Times(indent, depth) != [] && Break(Times(indent, depth), Times(indent, n)) == NewLine(indent, n)
  {
  }

  lemma NoIndentation(open: unit, close: unit, parts: seq<seq<Tok>>)
    requires parts != []
    ensures Wrapped(open, close, parts, [], []) == [Mark(open)] + (JoinToks(parts, [Mark(COMMA)]) + [Mark(close)])
  {
    hide JoinToks;
    assert [Mark(COMMA)] + [] == [Mark(COMMA)];
    var j := JoinToks(parts, [Mark(COMMA)]);
    assert [] + (j + ([] + [Mark(close)])) == j + [Mark(close)];
  }

  lemma WrappedLaidOut(open: unit, close: unit, parts: seq<seq<Tok>>, compact: seq<seq<Tok>>, depth: nat, indent: Text)
    requires indent != [] && Opens(Mark(open)) && Closes(Mark(close)) && LaidOut(parts, compact, depth + 1, indent)
    ensures var toks := Wrapped(open, close, compact, [], []);
            && Whole(toks)
            && Wrapped(open, close, parts, Times(indent, depth + 1), Times(indent, depth))
               == Layout(toks, depth, indent)
  {
    hide Whole, Layout, NewLine, JoinToks, Break, Times;
    if parts == [] {
      LayoutEmpty(Mark(open), Mark(close), depth, indent);
    } else {
      JoinLaidOut(parts, compact, depth + 1, indent);
      NoIndentation(open, close, compact);
      LayoutBracketed(Mark(open), JoinToks(compact, [Mark(COMMA)]), Mark(close), depth, indent);
      BreakIsNewLine(indent, depth + 1, depth + 1);
      BreakIsNewLine(indent, depth + 1, depth);
    }
  }

  lemma Deeper(indent: Text, depth: nat)
    ensures Times(indent, depth) + indent == Times(indent, depth + 1)
  {
  }

  /** The printer's tokens are the compact ones, laid out by depth. */
  lemma {:induction false} TokensLaidOut(v: Json, depth: nat, indent: Text)
    requires indent != [] && !v.Undef?
    ensures Whole(Compact(v)) && Tokens(v, Times(indent, depth), indent) == Layout(Compact(v), depth, indent)
    decreases v
  {
    hide Whole, Layout, Wrapped, Times;
    Deeper(indent, depth);
    var none: Text := [];
    assert none + none == none;
    match v
    case Arr(items) =>
      ItemsLaidOut(items, depth + 1, indent);
      WrappedLaidOut(LBRACKET, RBRACKET, Items(items, Times(indent, depth + 1), indent), Items(items, [], []),
        depth, indent);
    case Obj(members) =>
      MembersLaidOut(members, depth + 1, indent);
      WrappedLaidOut(LBRACE, RBRACE, Members(members, Times(indent, depth + 1), indent), Members(members, [], []),
        depth, indent);
    case Undef =>
    case _ => WholeOne(Compact(v)[0]);
  }

  lemma {:induction false} ItemsLaidOut(items: seq<Json>, depth: nat, indent: Text)
    requires indent != []
    ensures LaidOut(Items(items, Times(indent, depth), indent), Items(items, [], []), depth, indent)
    decreases items
  {
    hide Whole, Layout, Times;
    if items != [] {
      var x := items[0];
      ItemsLaidOut(items[1..], depth, indent);
      var gap := Times(indent, depth);
      var part := if x.Undef? then [WordTok(NullWord)] else Tokens(x, gap, indent);
      var compact := if x.Undef? then [WordTok(NullWord)] else Compact(x);
      if x.Undef? { WholeOne(WordTok(NullWord)); } else { TokensLaidOut(x, depth, indent); }
      LaidOutFirst(part, compact, Items(items[1..], gap, indent), Items(items[1..], [], []), depth, indent);
    }
  }

  lemma {:induction false} MembersLaidOut(members: seq<Member>, depth: nat, indent: Text)
    requires indent != [] && depth > 0
    ensures LaidOut(Members(members, Times(indent, depth), indent), Members(members, [], []), depth, indent)
    decreases members
  {
    hide Whole, Layout, Times;
    if members != [] {
      var m := members[0];
      MembersLaidOut(members[1..], depth, indent);
      if !m.value.Undef? {
        var gap := Times(indent, depth);
        TokensLaidOut(m.value, depth, indent);
        MemberLaidOut(m, depth, indent);
        LaidOutFirst(MemberToks(m, gap, indent), MemberToks(m, [], []), Members(members[1..], gap, indent),
          Members(members[1..], [], []), depth, indent);
      }
    }
  }

  lemma MemberLaidOut(m: Member, depth: nat, indent: Text)
    requires indent != [] && depth > 0
    requires Whole(Compact(m.value)) && Tokens(m.value, Times(indent, depth), indent)
                                        == Layout(Compact(m.value), depth, indent)
    ensures Whole(MemberToks(m, [], []))
    ensures MemberToks(m, Times(indent, depth), indent) == Layout(MemberToks(m, [], []), depth, indent)
  {
    hide Layout, Tokens, Times, Balance;
    var t := Compact(m.value);
    var head := [Quoted(m.key), Mark(COLON)];
    assert [] + t == t;
    KeyAlone(m.key, depth, indent);
    BreakIsNewLine(indent, depth, depth);
    BalanceConcat(head, t);
    LayoutConcat(head, t, depth, indent);
    assert Seam(head, t, depth, indent) == [Blank(SPACE)];
    assert (head + t)[|head + t| - 1] == t[|t| - 1];
  }

  lemma KeyAlone(key: Text, depth: int, indent: Text)
    ensures var head := [Quoted(key), Mark(COLON)];
            Balance(head) == 0 && Layout(head, depth, indent) == head
  {
    hide Balance, Layout;
    var key', colon := Quoted(key), Mark(COLON);
    assert [key', colon] == [key'] + [colon];
    TokAlone(key', depth, indent);
    TokAlone(colon, depth, indent);
    BalanceConcat([key'], [colon]);
    LayoutConcat([key'], [colon], depth, indent);
  }

  lemma {:induction false} NoBlankLeft(toks: seq<Tok>, tok: Tok)
    ensures tok in NoBlanks(toks) ==> !tok.Blank?
    decreases |toks|
  {
    if toks != [] { NoBlankLeft(toks[1..], tok); }
  }

  /**
   The printed text is that of the compact tokens: as they are when there is no indentation, with a line for every
   item and an indentation for every open bracket when there is one. The compact tokens hold no blank.
   */
  lemma PrintLaidOut(v: Json, indent: Text)
    requires !v.Undef?
    ensures Print(v, [], indent)
         == Some(Render(if indent == [] then Compact(v) else Layout(Compact(v), 0, indent)))
    ensures forall tok :: tok in Compact(v) ==> !tok.Blank?
  {
    hide Layout;
    if indent != [] { TokensLaidOut(v, 0, indent); }
    NoBlanksTokens(v, [], []);
    forall tok | tok in Compact(v) ensures !tok.Blank? { NoBlankLeft(Compact(v), tok); }
  }
}
