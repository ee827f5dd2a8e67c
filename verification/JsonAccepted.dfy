/** Everything the printer emits passes the check that `parse` makes before it evaluates a text. */
module JsonAccepted {
  import opened Common
  import opened JsonText
  import opened JsonPrint
  import opened JsonTokens
  import opened JsonLex
  import opened JsonFilter

  // ---------- first stage ----------

  predicate NoCx(x: Text) { forall k :: 0 <= k < |x| ==> !InCx(x[k]) }

  lemma {:induction false} ReplaceCxNothing(x: Text)
    requires NoCx(x)
    ensures ReplaceCx(x) == x
    decreases |x|
  {
    if x != [] {
      ReplaceCxNothing(x[1..]);
      assert x == [x[0]] + x[1..];
    }
  }

  lemma MetaIsAscii(c: unit)
    requires Meta(c).Some?
    ensures !InCx(Meta(c).value)
  {
  }

  lemma CxIsEscapable(c: unit)
    ensures InCx(c) ==> Escapable(c)
  {
  }

  lemma NoCxLiteral(c: unit)
    ensures NoCx(Literal(c))
  {
    hide Escape, Digits, Meta, Escapable, Unescape;
    if Escapable(c) {
      EscapeForm(c);
      if Meta(c).Some? { MetaIsAscii(c); }
    } else {
      CxIsEscapable(c);
    }
  }

  lemma {:induction false} NoCxEscaped(s: Text)
    ensures NoCx(EscapeAll(s))
    decreases |s|
  {
    if s != [] {
      NoCxLiteral(s[0]);
      NoCxEscaped(s[1..]);
      LiteralFirst(s);
    }
  }

  lemma NoCxNumber(n: Number)
    requires n.WellFormed()
    ensures NoCx(n.Text())
  {
    assert NoCx(n.ExponentText());
    assert NoCx(n.FractionText());
    assert NoCx(n.digits);
  }

  lemma NoCxTok(tok: Tok)
    requires TokOk(tok)
    ensures NoCx(tok.Text())
  {
    match tok
    case Quoted(s) => hide EscapeAll; QuoteIsEscaped(s); NoCxEscaped(s);
    case NumberTok(n) => hide Number.Text; NoCxNumber(n);
    case _ =>
  }

  lemma {:induction false} NoCxRender(toks: seq<Tok>)
    requires Neat(toks)
    ensures NoCx(Render(toks))
    decreases |toks|
  {
    if toks != [] {
      NoCxTok(toks[0]);
      NoCxRender(toks[1..]);
    }
  }

  // ---------- tokens are pieces ----------

  function PartOf(c: unit): Part {
    if !Escapable(c) then Plain(c) else if Meta(c).Some? then Pair(Meta(c).value) else Hex(Digits(c, 4))
  }

  function PartsOf(s: Text): seq<Part> {
    if s == [] then [] else [PartOf(s[0])] + PartsOf(s[1..])
  }

  function PieceOf(tok: Tok): Piece {
    match tok
    case Mark(c) => Single(c)
    case Blank(w) => Single(w)
    case Quoted(s) => StringPiece(PartsOf(s))
    case WordTok(word) => WordPiece(word)
    case NumberTok(n) => NumberPiece(n)
  }

  function PiecesOf(toks: seq<Tok>): seq<Piece> {
    if toks == [] then [] else [PieceOf(toks[0])] + PiecesOf(toks[1..])
  }

  lemma PartIs(c: unit)
    ensures PartOf(c).WellFormed() && PartOf(c).Text() == Literal(c)
  {
    hide Escape, Digits, Meta, IsPairLetter, AllHexDigits, Unescape;
    if Escapable(c) {
      EscapeForm(c);
      if Meta(c).Some? {
        PairLetterIs(Meta(c).value);
        PairUnescaped(c);
      } else {
        DigitsAreHex(c);
      }
    }
  }

  lemma PairUnescaped(c: unit)
    requires Meta(c).Some? && Unescape(Meta(c).value).Some?
    ensures IsPairLetter(Meta(c).value)
  {
  }

  lemma DigitsAreHex(c: unit)
    ensures AllHexDigits(Digits(c, 4))
  {
    hide Digits;
    var x := Digits(c, 4);
    forall k | 0 <= k < |x| ensures HexValue(x[k]) >= 0 { assert IsDecimal(x[k]) || 97 <= x[k] <= 102; }
    HexTextIs(x);
  }

  lemma {:induction false} PartsAre(s: Text)
    ensures (forall p :: p in PartsOf(s) ==> p.WellFormed()) && PartsText(PartsOf(s)) == EscapeAll(s)
    decreases |s|
  {
    hide PartOf, Literal, Part.WellFormed, Part.Text;
    if s != [] {
      PartIs(s[0]);
      PartsAre(s[1..]);
      LiteralFirst(s);
    }
  }

  lemma PieceIs(tok: Tok)
    requires TokOk(tok)
    ensures PieceOf(tok).WellFormed() && PieceOf(tok).Text() == tok.Text() && PieceOf(tok).Mark() == ShapeOf(tok)
  {
    hide PartsOf, PartsText, EscapeAll, Quote, Part.WellFormed;
    if tok.Quoted? {
      PartsAre(tok.s);
      QuoteIsEscaped(tok.s);
      Assoc([QUOTE], EscapeAll(tok.s), [QUOTE]);
    }
  }

  lemma {:induction false} PiecesAre(toks: seq<Tok>)
    requires Neat(toks)
    ensures var ps := PiecesOf(toks);
            AllWellFormed(ps) && PiecesText(ps) == Render(toks) && Apart(ps) && Marks(ps) == Shapes(toks)
    decreases |toks|
  {
    hide TokOk, Piece.WellFormed, Piece.Text, Piece.Mark, ShapeOf, Tok.Text;
    if toks != [] {
      PieceIs(toks[0]);
      PiecesAre(toks[1..]);
      var ps := PiecesOf(toks);
      assert ps[1..] == PiecesOf(toks[1..]);
      if |ps| > 1 { assert ps[1] == PieceOf(toks[1]); }
    }
  }

  function ShapeOf(tok: Tok): unit {
    match tok
    case Mark(c) => c
    case Blank(w) => w
    case _ => RBRACKET
  }

  function Shapes(toks: seq<Tok>): Text {
    if toks == [] then [] else [ShapeOf(toks[0])] + Shapes(toks[1..])
  }

  // ---------- the printer's brackets are in place ----------

  /** Whether an opening bracket may follow the tokens. */
  function ReadyAfter(toks: seq<Tok>, ready: bool): bool {
    if toks == [] then ready
    else ReadyAfter(toks[1..], if toks[0].Blank? then ready else toks[0].Mark? && toks[0].c in {LBRACKET, COLON, COMMA})
  }

  lemma PlacedTok(tok: Tok, x: Text, ready: bool)
    requires TokOk(tok)
    ensures var next := if tok.Blank? then ready else tok.Mark? && tok.c in {LBRACKET, COLON, COMMA};
            Placed([ShapeOf(tok)] + x, ready)
            <==> (tok.Mark? && tok.c == LBRACKET ==> ready) && Placed(x, next)
  {
    hide IsSpacing, IsSpace;
    assert ([ShapeOf(tok)] + x)[1..] == x;
    MarksNoSpacing();
    SpaceIs(ShapeOf(tok));
    WhiteIsSpace(ShapeOf(tok));
  }

  lemma WhiteIsSpace(c: unit)
    ensures IsWhite(c) ==> IsSpace(c)
  {
  }

  lemma {:induction false} PlacedConcat(a: seq<Tok>, b: seq<Tok>, ready: bool)
    requires Neat(a) && Placed(Shapes(a), ready) && Placed(Shapes(b), ReadyAfter(a, ready))
    ensures Placed(Shapes(a + b), ready) && ReadyAfter(a + b, ready) == ReadyAfter(b, ReadyAfter(a, ready))
    decreases |a|
  {
    hide IsSpacing, TokOk;
    if a == [] {
      assert a + b == b;
    } else {
      var next := if a[0].Blank? then ready else a[0].Mark? && a[0].c in {LBRACKET, COLON, COMMA};
      assert (a + b)[1..] == a[1..] + b;
      assert Shapes(a)[1..] == Shapes(a[1..]) && Shapes(a + b)[1..] == Shapes(a[1..] + b);
      PlacedTok(a[0], Shapes(a[1..]), ready);
      PlacedTok(a[0], Shapes(a[1..] + b), ready);
      PlacedConcat(a[1..], b, next);
    }
  }

  lemma {:induction false} PlacedBlanks(x: Text, ready: bool)
    requires AllWhite(x)
    ensures Placed(Shapes(Blanks(x)), ready) && ReadyAfter(Blanks(x), ready) == ready
    decreases |x|
  {
    if x != [] {
      PlacedBlanks(x[1..], ready);
      assert Shapes(Blanks(x))[1..] == Shapes(Blanks(x[1..]));
    }
  }

  lemma PlacedBreak(inner: Text, gap: Text, ready: bool)
    requires AllWhite(gap)
    ensures Placed(Shapes(Break(inner, gap)), ready) && ReadyAfter(Break(inner, gap), ready) == ready
  {
    if inner != [] {
      var toks := Blanks([LF] + gap);
      assert ([LF] + gap)[1..] == gap;
      PlacedBlanks([LF] + gap, ready);
    }
  }

  lemma PlacedMark(c: unit, ready: bool)
    requires IsMark(c) && (c == LBRACKET ==> ready)
    ensures Placed(Shapes([Mark(c)]), ready) && ReadyAfter([Mark(c)], ready) == (c in {LBRACKET, COLON, COMMA})
    ensures Neat([Mark(c)])
  {
    assert Shapes([Mark(c)])[1..] == [];
  }

  /** In place from `ready` on, and nothing but a comma or the like lets another bracket follow. */
  ghost predicate Settled(p: seq<Tok>, ready: bool) {
    Neat(p) && Placed(Shapes(p), ready) && !ReadyAfter(p, ready)
  }

  lemma SettledConcat(a: seq<Tok>, b: seq<Tok>, ready: bool)
    requires Neat(a) && Placed(Shapes(a), ready) && Settled(b, ReadyAfter(a, ready)) && Neat(a + b)
    ensures Settled(a + b, ready)
  {
    PlacedConcat(a, b, ready);
  }

  lemma {:induction false} SettledJoin(parts: seq<seq<Tok>>, sep: seq<Tok>, ready: bool)
    requires parts != [] && forall p :: p in parts ==> Settled(p, true) && Settled(p, ready) && p != []
    requires Neat(sep) && sep != [] && Ends(sep) && !sep[|sep| - 1].NumberTok?
    requires Placed(Shapes(sep), false) && ReadyAfter(sep, false)
    ensures Settled(JoinToks(parts, sep), ready)
    decreases |parts|
  {
    hide Placed, ReadyAfter, Shapes;
    assert Settled(parts[0], ready) && parts[0] != [];
    if |parts| > 1 {
      var j := JoinToks(parts[1..], sep);
      forall p | p in parts[1..] ensures Settled(p, true) && p != [] { assert p in parts; }
      SettledJoin(parts[1..], sep, true);
      assert Neat(j);
      NeatConcat(sep, j);
      SettledConcat(sep, j, false);
      NeatConcat(parts[0], sep + j);
      SettledConcat(parts[0], sep + j, ready);
    }
  }

  lemma SettledWrapped(open: unit, close: unit, parts: seq<seq<Tok>>, inner: Text, outer: Text)
    requires (open == LBRACKET && close == RBRACKET) || (open == LBRACE && close == RBRACE)
    requires AllNeat(parts) && AllWhite(inner) && AllWhite(outer)
    requires forall p :: p in parts ==> Settled(p, true) && Settled(p, open == LBRACKET)
    ensures Settled(Wrapped(open, close, parts, inner, outer), true)
  {
    hide Placed, ReadyAfter, Shapes, JoinToks;
    NeatWrapped(open, close, parts, inner, outer);
    var ready := open == LBRACKET;
    PlacedMark(open, true);
    PlacedMark(close, ready);
    PlacedMark(close, false);
    if parts == [] {
      assert [Mark(open)] + [Mark(close)] == [Mark(open), Mark(close)];
      PlacedConcat([Mark(open)], [Mark(close)], true);
    } else {
      var b, sep, e := Break(inner, inner), [Mark(COMMA)] + Break(inner, inner), Break(inner, outer) + [Mark(close)];
      var j := JoinToks(parts, sep);
      NeatBreak(inner, inner);
      NeatBreak(inner, outer);
      BlanksLast(inner);
      PlacedMark(COMMA, false);
      PlacedBreak(inner, inner, true);
      PlacedBreak(inner, inner, ready);
      NeatConcat([Mark(COMMA)], b);
      PlacedConcat([Mark(COMMA)], b, false);
      SettledJoin(parts, sep, ready);
      PlacedBreak(inner, outer, false);
      NeatConcat(Break(inner, outer), [Mark(close)]);
      PlacedConcat(Break(inner, outer), [Mark(close)], false);
      NeatJoin(parts, sep, e);
      PlacedConcat(j, e, ready);
      PlacedConcat(b, j + e, ready);
      PlacedConcat([Mark(open)], b + (j + e), true);
    }
  }

  lemma {:induction false} SettledTokens(v: Json, gap: Text, indent: Text)
    requires NumbersWellFormed(v) && AllWhite(gap) && AllWhite(indent) && !v.Undef?
    ensures Settled(Tokens(v, gap, indent), true)
    decreases v
  {
    hide Placed, ReadyAfter, Shapes;
    AllWhiteConcat(gap, indent);
    NeatTokens(v, gap, indent);
    match v
    case Arr(items) =>
      NeatItems(items, gap + indent, indent);
      SettledItems(items, gap + indent, indent);
      SettledWrapped(LBRACKET, RBRACKET, Items(items, gap + indent, indent), gap + indent, gap);
    case Obj(members) =>
      NeatMembers(members, gap + indent, indent);
      SettledMembers(members, gap + indent, indent);
      SettledWrapped(LBRACE, RBRACE, Members(members, gap + indent, indent), gap + indent, gap);
    case Undef =>
    case _ => SettledOne(Tokens(v, gap, indent)[0], true);
  }

  lemma SettledOne(tok: Tok, ready: bool)
    requires TokOk(tok) && !tok.Mark? && !tok.Blank?
    ensures Settled([tok], ready)
  {
    assert Shapes([tok])[1..] == [];
  }

  lemma {:induction false} SettledItems(items: seq<Json>, gap: Text, indent: Text)
    requires (forall x :: x in items ==> NumbersWellFormed(x)) && AllWhite(gap) && AllWhite(indent)
    ensures forall p :: p in Items(items, gap, indent) ==> Settled(p, true)
    decreases items
  {
    hide Settled;
    if items != [] {
      if items[0].Undef? { SettledOne(WordTok(NullWord), true); } else { SettledTokens(items[0], gap, indent); }
      SettledItems(items[1..], gap, indent);
    }
  }

  lemma {:induction false} SettledMembers(members: seq<Member>, gap: Text, indent: Text)
    requires (forall m :: m in members ==> NumbersWellFormed(m.value)) && AllWhite(gap) && AllWhite(indent)
    ensures forall p :: p in Members(members, gap, indent) ==> Settled(p, true) && Settled(p, false)
    decreases members
  {
    hide Settled;
    if members != [] {
      var m := members[0];
      SettledMembers(members[1..], gap, indent);
      if !m.value.Undef? {
        SettledTokens(m.value, gap, indent);
        NeatTokens(m.value, gap, indent);
        NeatMember(m, gap, indent);
        SettledMember(m, gap, indent, true);
        SettledMember(m, gap, indent, false);
      }
    }
  }

  lemma SettledMember(m: Member, gap: Text, indent: Text, ready: bool)
    requires Settled(Tokens(m.value, gap, indent), true) && Neat(MemberToks(m, gap, indent))
    ensures Settled(MemberToks(m, gap, indent), ready)
  {
    hide Placed, ReadyAfter, Shapes, Tokens;
    var t := Tokens(m.value, gap, indent);
    var head := [Quoted(m.key), Mark(COLON)];
    SettledOne(Quoted(m.key), ready);
    PlacedMark(COLON, false);
    PlacedConcat([Quoted(m.key)], [Mark(COLON)], ready);
    assert [Quoted(m.key)] + [Mark(COLON)] == head;
    NeatConcat([Quoted(m.key)], [Mark(COLON)]);
    if gap != [] {
      PlacedBlanks([SPACE], true);
      assert Blanks([SPACE]) == [Blank(SPACE)];
      NeatConcat([Blank(SPACE)], t);
      PlacedConcat([Blank(SPACE)], t, true);
    } else {
      assert [] + t == t;
    }
    PlacedConcat(head, (if gap != [] then [Blank(SPACE)] else []) + t, ready);
  }

  /**
   Everything the printer emits, under any white-space indentation, passes the check of `parse`, and the first
   stage leaves it as it is.
   */
  lemma PrintAccepted(v: Json, indent: Text)
    requires NumbersWellFormed(v) && AllWhite(indent) && !v.Undef?
    ensures ReplaceCx(Print(v, [], indent).value) == Print(v, [], indent).value
    ensures Accepts(Print(v, [], indent).value)
  {
    hide Tokens, Accepts, Placed, Shapes, PiecesOf, Render, Apart, AllWellFormed;
    var toks := Tokens(v, [], indent);
    NeatTokens(v, [], indent);
    NoCxRender(toks);
    ReplaceCxNothing(Render(toks));
    PiecesAre(toks);
    SettledTokens(v, [], indent);
    assert Reads(PiecesOf(toks), Render(toks));
    FilterExactly(Render(toks));
  }
}
