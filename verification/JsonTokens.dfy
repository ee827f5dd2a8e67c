/** What the printer's tokens look like, whatever the value and the indentation. */
module JsonTokens {
  import opened Common
  import opened JsonText
  import opened JsonPrint

  predicate AllWhite(x: Text) { forall k :: 0 <= k < |x| ==> IsWhite(x[k]) }

  predicate IsMark(c: unit) {
    c == LBRACKET || c == RBRACKET || c == LBRACE || c == RBRACE || c == COMMA || c == COLON
  }

  predicate Ends(toks: seq<Tok>) {
    toks == [] || toks[0].Mark? || toks[0].Blank?
  }

  predicate TokOk(tok: Tok) {
    match tok
    case Mark(c) => IsMark(c)
    case Blank(w) => IsWhite(w)
    case NumberTok(n) => n.WellFormed()
    case _ => true
  }

  /** Every token is one of JSON, blanks are white space, and a number is followed by a mark, a blank or nothing. */
  predicate Neat(toks: seq<Tok>) {
    toks == [] || (TokOk(toks[0]) && (toks[0].NumberTok? ==> Ends(toks[1..])) && Neat(toks[1..]))
  }

  lemma {:induction false} NeatConcat(a: seq<Tok>, b: seq<Tok>)
    requires Neat(a) && Neat(b) && (Ends(b) || (a != [] && !a[|a| - 1].NumberTok?))
    ensures Neat(a + b)
    decreases |a|
  {
    if a == [] {
      assert a + b == b;
    } else {
      assert (a + b)[1..] == a[1..] + b;
      if |a| > 1 { NeatConcat(a[1..], b); } else { assert a[1..] + b == b; }
    }
  }

  lemma {:induction false} NeatBlanks(x: Text)
    requires AllWhite(x)
    ensures Neat(Blanks(x)) && Ends(Blanks(x))
    decreases |x|
  {
    if x != [] { NeatBlanks(x[1..]); }
  }

  lemma NeatBreak(inner: Text, gap: Text)
    requires AllWhite(gap)
    ensures Neat(Break(inner, gap)) && Ends(Break(inner, gap))
  {
    NeatBlanks(gap);
  }

  ghost predicate AllNeat(parts: seq<seq<Tok>>) {
    forall p :: p in parts ==> Neat(p) && p != []
  }

  lemma JoinStep(parts: seq<seq<Tok>>, sep: seq<Tok>, rest: seq<Tok>)
    requires |parts| > 1
    ensures JoinToks(parts, sep) + rest == parts[0] + (sep + (JoinToks(parts[1..], sep) + rest))
  {
    var j := JoinToks(parts[1..], sep);
    assert (parts[0] + (sep + j)) + rest == parts[0] + (sep + (j + rest));
  }

  lemma EndsFront(a: seq<Tok>, b: seq<Tok>)
    requires Ends(a) && a != []
    ensures Ends(a + b)
  {
  }

  lemma {:induction false} NeatJoin(parts: seq<seq<Tok>>, sep: seq<Tok>, rest: seq<Tok>)
    requires AllNeat(parts) && Neat(sep) && sep != [] && Ends(sep) && !sep[|sep| - 1].NumberTok?
    requires Neat(rest) && Ends(rest)
    ensures Neat(JoinToks(parts, sep) + rest)
    decreases |parts|
  {
    if |parts| == 0 {
      assert [] + rest == rest;
    } else if |parts| == 1 {
      NeatConcat(parts[0], rest);
    } else {
      hide JoinToks;
      assert AllNeat(parts[1..]) && Neat(parts[0]) && parts[0] != [];
      NeatJoin(parts[1..], sep, rest);
      JoinStep(parts, sep, rest);
      var more := JoinToks(parts[1..], sep) + rest;
      NeatConcat(sep, more);
      EndsFront(sep, more);
      NeatConcat(parts[0], sep + more);
    }
  }

  lemma {:induction false} BlanksLast(x: Text)
    ensures x != [] ==> Blanks(x) != [] && Blanks(x)[|Blanks(x)| - 1].Blank?
    decreases |x|
  {
    if |x| > 1 { BlanksLast(x[1..]); }
  }

  lemma NeatWrapped(open: unit, close: unit, parts: seq<seq<Tok>>, inner: Text, outer: Text)
    requires IsMark(open) && IsMark(close) && AllNeat(parts) && AllWhite(inner) && AllWhite(outer)
    ensures Neat(Wrapped(open, close, parts, inner, outer))
  {
    hide JoinToks;
    if parts == [] {
      NeatConcat([Mark(open)], [Mark(close)]);
      assert [Mark(open)] + [Mark(close)] == [Mark(open), Mark(close)];
    } else {
      var b, sep, e := Break(inner, inner), [Mark(COMMA)] + Break(inner, inner), Break(inner, outer) + [Mark(close)];
      NeatBreak(inner, inner);
      NeatBreak(inner, outer);
      BlanksLast(inner);
      NeatConcat([Mark(COMMA)], b);
      NeatConcat(Break(inner, outer), [Mark(close)]);
      NeatJoin(parts, sep, e);
      var body := JoinToks(parts, sep) + e;
      assert b != [] ==> b[|b| - 1].Blank?;
      if b == [] {
        assert b + body == body;
      } else {
        NeatConcat(b, body);
      }
      NeatConcat([Mark(open)], b + body);
    }
  }

  lemma AllWhiteConcat(a: Text, b: Text)
    requires AllWhite(a) && AllWhite(b)
    ensures AllWhite(a + b)
  {
  }

  /** The tokens of every printable value are neat, for every white-space indentation. */
  lemma {:induction false} NeatTokens(v: Json, gap: Text, indent: Text)
    requires NumbersWellFormed(v) && AllWhite(gap) && AllWhite(indent)
    ensures Neat(Tokens(v, gap, indent)) && (!v.Undef? ==> Tokens(v, gap, indent) != [])
    decreases v
  {
    AllWhiteConcat(gap, indent);
    match v
    case Arr(items) =>
      NeatItems(items, gap + indent, indent);
      NeatWrapped(LBRACKET, RBRACKET, Items(items, gap + indent, indent), gap + indent, gap);
    case Obj(members) =>
      NeatMembers(members, gap + indent, indent);
      NeatWrapped(LBRACE, RBRACE, Members(members, gap + indent, indent), gap + indent, gap);
    case _ =>
  }

  lemma {:induction false} NeatItems(items: seq<Json>, gap: Text, indent: Text)
    requires (forall x :: x in items ==> NumbersWellFormed(x)) && AllWhite(gap) && AllWhite(indent)
    ensures AllNeat(Items(items, gap, indent))
    decreases items
  {
    if items != [] {
      NeatTokens(items[0], gap, indent);
      NeatItems(items[1..], gap, indent);
    }
  }

  lemma {:induction false} NeatMembers(members: seq<Member>, gap: Text, indent: Text)
    requires (forall m :: m in members ==> NumbersWellFormed(m.value)) && AllWhite(gap) && AllWhite(indent)
    ensures AllNeat(Members(members, gap, indent))
    decreases members
  {
    if members != [] {
      var m := members[0];
      NeatMembers(members[1..], gap, indent);
      if !m.value.Undef? {
        NeatTokens(m.value, gap, indent);
        NeatMember(m, gap, indent);
      }
    }
  }

  lemma NeatMember(m: Member, gap: Text, indent: Text)
    requires Neat(Tokens(m.value, gap, indent))
    ensures Neat(MemberToks(m, gap, indent))
  {
    hide Tokens;
    var t := Tokens(m.value, gap, indent);
    var b := if gap != [] then [Blank(SPACE)] else [];
    if b == [] { assert b + t == t; } else { NeatConcat(b, t); }
    NeatConcat([Mark(COLON)], b + t);
    NeatConcat([Quoted(m.key)], [Mark(COLON)] + (b + t));
    assert [Quoted(m.key)] + ([Mark(COLON)] + (b + t)) == MemberToks(m, gap, indent);
  }

  // ---------- indentation ----------

  function NoBlanks(toks: seq<Tok>): seq<Tok> {
    if toks == [] then [] else (if toks[0].Blank? then [] else [toks[0]]) + NoBlanks(toks[1..])
  }

  lemma {:induction false} NoBlanksConcat(a: seq<Tok>, b: seq<Tok>)
    ensures NoBlanks(a + b) == NoBlanks(a) + NoBlanks(b)
    decreases |a|
  {
    if a == [] {
      assert a + b == b;
    } else {
      assert (a + b)[1..] == a[1..] + b;
      NoBlanksConcat(a[1..], b);
    }
  }

  lemma {:induction false} NoBlanksLeft(x: Text)
    ensures NoBlanks(Blanks(x)) == []
    decreases |x|
  {
    if x != [] { NoBlanksLeft(x[1..]); }
  }

  lemma NoBreak(inner: Text, gap: Text)
    ensures NoBlanks(Break(inner, gap)) == []
  {
    NoBlanksLeft(gap);
  }

  function Compacted(parts: seq<seq<Tok>>): seq<seq<Tok>> {
    seq(|parts|, i requires 0 <= i < |parts| => NoBlanks(parts[i]))
  }

  lemma {:induction false} NoBlanksJoin(parts: seq<seq<Tok>>, sep: seq<Tok>)
    ensures NoBlanks(JoinToks(parts, sep)) == JoinToks(Compacted(parts), NoBlanks(sep))
    decreases |parts|
  {
    if |parts| > 1 {
      NoBlanksJoin(parts[1..], sep);
      assert Compacted(parts)[1..] == Compacted(parts[1..]);
      NoBlanksConcat(sep, JoinToks(parts[1..], sep));
      NoBlanksConcat(parts[0], sep + JoinToks(parts[1..], sep));
    }
  }

  lemma NoBlanksWrapped(open: unit, close: unit, parts: seq<seq<Tok>>, inner: Text, outer: Text)
    ensures NoBlanks(Wrapped(open, close, parts, inner, outer)) == Wrapped(open, close, Compacted(parts), [], [])
  {
    if parts == [] {
      NoBlanksConcat([Mark(open)], [Mark(close)]);
      OneMark(open);
      OneMark(close);
      assert [Mark(open)] + [Mark(close)] == [Mark(open), Mark(close)];
    } else {
      hide JoinToks, Break, NoBlanks;
      var b, sep, e := Break(inner, inner), [Mark(COMMA)] + Break(inner, inner), Break(inner, outer) + [Mark(close)];
      var j := JoinToks(parts, sep);
      NoBreak(inner, inner);
      NoBreak(inner, outer);
      OneMark(COMMA);
      OneMark(open);
      OneMark(close);
      NoBlanksConcat([Mark(COMMA)], b);
      NoBlanksJoin(parts, sep);
      NoBlanksConcat(Break(inner, outer), [Mark(close)]);
      NoBlanksConcat(j, e);
      NoBlanksConcat(b, j + e);
      NoBlanksConcat([Mark(open)], b + (j + e));
      NoBreakAtAll();
      assert [Mark(COMMA)] + [] == [Mark(COMMA)];
    }
  }

  lemma OneMark(c: unit)
    ensures NoBlanks([Mark(c)]) == [Mark(c)]
  {
    assert [Mark(c)][1..] == [];
  }

  lemma NoBreakAtAll()
    ensures Break([], []) == []
  {
  }

  /** The tokens without indentation. */
  function Compact(v: Json): seq<Tok> { Tokens(v, [], []) }

  /** Taking the blanks out of the indented tokens gives the compact ones. */
  lemma {:induction false} NoBlanksTokens(v: Json, gap: Text, indent: Text)
    ensures NoBlanks(Tokens(v, gap, indent)) == Compact(v)
    decreases v
  {
    var none: Text := [];
    assert none + none == none;
    match v
    case Arr(items) =>
      NoBlanksItems(items, gap + indent, indent);
      NoBlanksWrapped(LBRACKET, RBRACKET, Items(items, gap + indent, indent), gap + indent, gap);
    case Obj(members) =>
      NoBlanksMembers(members, gap + indent, indent);
      NoBlanksWrapped(LBRACE, RBRACE, Members(members, gap + indent, indent), gap + indent, gap);
    case _ =>
  }

  lemma {:induction false} NoBlanksItems(items: seq<Json>, gap: Text, indent: Text)
    ensures Compacted(Items(items, gap, indent)) == Items(items, [], [])
    decreases items
  {
    if items != [] {
      NoBlanksTokens(items[0], gap, indent);
      NoBlanksItems(items[1..], gap, indent);
      var part := if items[0].Undef? then [WordTok(NullWord)] else Tokens(items[0], gap, indent);
      assert items[0].Undef? ==> NoBlanks(part) == part by { assert [WordTok(NullWord)][1..] == []; }
      CompactedCons(part, Items(items[1..], gap, indent));
    }
  }

  lemma CompactedCons(part: seq<Tok>, parts: seq<seq<Tok>>)
    ensures Compacted([part] + parts) == [NoBlanks(part)] + Compacted(parts)
  {
  }

  lemma {:induction false} NoBlanksMembers(members: seq<Member>, gap: Text, indent: Text)
    ensures Compacted(Members(members, gap, indent)) == Members(members, [], [])
    decreases members
  {
    if members != [] {
      var m := members[0];
      NoBlanksMembers(members[1..], gap, indent);
      if !m.value.Undef? {
        NoBlanksTokens(m.value, gap, indent);
        NoBlanksMember(m, gap, indent);
        CompactedCons(MemberToks(m, gap, indent), Members(members[1..], gap, indent));
      }
    }
  }

  lemma NoBlanksMember(m: Member, gap: Text, indent: Text)
    requires NoBlanks(Tokens(m.value, gap, indent)) == Compact(m.value)
    ensures NoBlanks(MemberToks(m, gap, indent)) == MemberToks(m, [], [])
  {
    hide Tokens;
    var t := Tokens(m.value, gap, indent);
    var b := if gap != [] then [Blank(SPACE)] else [];
    NoBlanksConcat(b, t);
    assert NoBlanks(b) == [];
    NoBlanksConcat([Quoted(m.key), Mark(COLON)], b + t);
    assert [Quoted(m.key), Mark(COLON)][1..] == [Mark(COLON)];
    assert NoBlanks([Quoted(m.key), Mark(COLON)]) == [Quoted(m.key), Mark(COLON)] by { OneMark(COLON); }
  }
}
