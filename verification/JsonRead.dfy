/** A reader for JSON texts (RFC 8259), and the round trip through the printer. */
module JsonRead {
  import opened Common
  import opened JsonText
  import opened JsonPrint
  import opened JsonTokens
  import opened JsonLex

  // ---------- the reader ----------

  /** The value at the front of the tokens, and the tokens behind it. */
  function ReadValue(t: seq<Tok>): (r: Option<(Json, seq<Tok>)>)
    ensures r.Some? ==> |r.value.1| < |t|
    decreases |t|, 0
  {
    if t == [] then None
    else
      match t[0]
      case WordTok(TrueWord) => Some((Bool(true), t[1..]))
      case WordTok(FalseWord) => Some((Bool(false), t[1..]))
      case WordTok(NullWord) => Some((Null, t[1..]))
      case NumberTok(n) => Some((Num(n), t[1..]))
      case Quoted(s) => Some((Str(s), t[1..]))
      case Blank(_) => None
      case Mark(c) =>
        if c == LBRACKET then
          if |t| > 1 && t[1] == Mark(RBRACKET) then Some((Arr([]), t[2..]))
          else
            var (items, rest) :- ReadItems(t[1..]);
            Some((Arr(items), rest))
        else if c == LBRACE then
          if |t| > 1 && t[1] == Mark(RBRACE) then Some((Obj([]), t[2..]))
          else
            var (members, rest) :- ReadMembers(t[1..]);
            Some((Obj(members), rest))
        else None
  }

  /** Values between commas, up to the closing bracket. */
  function ReadItems(t: seq<Tok>): (r: Option<(seq<Json>, seq<Tok>)>)
    ensures r.Some? ==> |r.value.1| < |t|
    decreases |t|, 1
  {
    var (v, rest) :- ReadValue(t);
    if rest == [] then None
    else if rest[0] == Mark(RBRACKET) then Some(([v], rest[1..]))
    else if rest[0] == Mark(COMMA) then
      var (more, end) :- ReadItems(rest[1..]);
      Some(([v] + more, end))
    else None
  }

  /** Members between commas, up to the closing brace. */
  function ReadMembers(t: seq<Tok>): (r: Option<(seq<Member>, seq<Tok>)>)
    ensures r.Some? ==> |r.value.1| < |t|
    decreases |t|, 1
  {
    if |t| < 2 || !t[0].Quoted? || t[1] != Mark(COLON) then None
    else
      var (v, rest) :- ReadValue(t[2..]);
      if rest == [] then None
      else if rest[0] == Mark(RBRACE) then Some(([Member(t[0].s, v)], rest[1..]))
      else if rest[0] == Mark(COMMA) then
        var (more, end) :- ReadMembers(rest[1..]);
        Some(([Member(t[0].s, v)] + more, end))
      else None
  }

  /** A JSON text holds one value. */
  function ReadText(text: Text): Option<Json> {
    var toks :- Lex(text);
    var (v, rest) :- ReadValue(toks);
    if rest == [] then Some(v) else None
  }

  // ---------- what survives printing ----------

  /** What printing keeps: no value that JSON has no form for. */
  function Clean(v: Json): Json
    decreases v
  {
    match v
    case NotFinite => Null
    case Undef => Null
    case Arr(items) => Arr(CleanItems(items))
    case Obj(members) => Obj(CleanMembers(members))
    case _ => v
  }

  function CleanItems(items: seq<Json>): seq<Json>
    decreases items
  {
    if items == [] then [] else [Clean(items[0])] + CleanItems(items[1..])
  }

  function CleanMembers(members: seq<Member>): seq<Member>
    decreases members
  {
    if members == [] then []
    else if members[0].value.Undef? then CleanMembers(members[1..])
    else [Member(members[0].key, Clean(members[0].value))] + CleanMembers(members[1..])
  }

  // ---------- the round trip ----------

  const COMMA_SEP: seq<Tok> := [Mark(COMMA)]

  lemma CompactWrapped(open: unit, close: unit, parts: seq<seq<Tok>>)
    ensures Wrapped(open, close, parts, [], []) ==
            [Mark(open)] + if parts == [] then [Mark(close)] else JoinToks(parts, COMMA_SEP) + [Mark(close)]
  {
    NoBreakAtAll();
    if parts != [] {
      assert COMMA_SEP + [] == COMMA_SEP;
      assert [] + [Mark(close)] == [Mark(close)];
      var j := JoinToks(parts, COMMA_SEP) + [Mark(close)];
      assert [] + j == j;
    }
  }

  /** An array or object with something inside, followed by `rest`. */
  lemma CompactInside(open: unit, close: unit, parts: seq<seq<Tok>>, rest: seq<Tok>)
    requires parts != []
    ensures var t := Wrapped(open, close, parts, [], []) + rest;
            t != [] && t[0] == Mark(open) && t[1..] == JoinToks(parts, COMMA_SEP) + ([Mark(close)] + rest)
  {
    CompactWrapped(open, close, parts);
    var j := JoinToks(parts, COMMA_SEP);
    assert Wrapped(open, close, parts, [], []) + rest == [Mark(open)] + (j + ([Mark(close)] + rest));
  }

  lemma CompactEmpty(open: unit, close: unit, rest: seq<Tok>)
    ensures var t := Wrapped(open, close, [], [], []) + rest;
            |t| > 1 && t[0] == Mark(open) && t[1] == Mark(close) && t[2..] == rest
  {
    assert (Wrapped(open, close, [], [], []) + rest)[2..] == rest;
  }

  /** No value starts with a closing bracket. */
  lemma FirstTok(v: Json, rest: seq<Tok>)
    requires !v.Undef?
    ensures Compact(v) != [] && (Compact(v) + rest)[0] != Mark(RBRACKET)
  {
    match v
    case Arr(items) => CompactWrapped(LBRACKET, RBRACKET, Items(items, [] + [], []));
    case Obj(members) => CompactWrapped(LBRACE, RBRACE, Members(members, [] + [], []));
    case _ =>
  }

  lemma CompactArr(items: seq<Json>)
    ensures Compact(Arr(items)) == Wrapped(LBRACKET, RBRACKET, Items(items, [], []), [], [])
  {
    var none: Text := [];
    assert none + none == none;
  }

  lemma CompactObj(members: seq<Member>)
    ensures Compact(Obj(members)) == Wrapped(LBRACE, RBRACE, Members(members, [], []), [], [])
  {
    var none: Text := [];
    assert none + none == none;
  }

  /** The compact tokens of a value, whatever follows them, read back as what printing keeps of it. */
  lemma {:induction false} ReadBack(v: Json, rest: seq<Tok>)
    requires !v.Undef?
    ensures ReadValue(Compact(v) + rest) == Some((Clean(v), rest))
    decreases v, 0
  {
    match v
    case Arr(items) =>
      CompactArr(items);
      if items == [] {
        CompactEmpty(LBRACKET, RBRACKET, rest);
      } else {
        var parts := Items(items, [], []);
        CompactInside(LBRACKET, RBRACKET, parts, rest);
        ItemsFirst(items, [Mark(RBRACKET)] + rest);
        ItemsBack(items, rest);
      }
    case Obj(members) =>
      CompactObj(members);
      var parts := Members(members, [], []);
      if parts == [] {
        CompactEmpty(LBRACE, RBRACE, rest);
        NothingKept(members);
      } else {
        CompactInside(LBRACE, RBRACE, parts, rest);
        MembersFirst(members, [Mark(RBRACE)] + rest);
        MembersBack(members, rest);
      }
    case Undef =>
    case _ => assert (Compact(v) + rest)[1..] == rest;
  }

  /** The tokens of an array item. */
  function ItemToks(x: Json): seq<Tok> {
    if x.Undef? then [WordTok(NullWord)] else Compact(x)
  }

  lemma ItemsFirst(items: seq<Json>, rest: seq<Tok>)
    requires items != []
    ensures var t := JoinToks(Items(items, [], []), COMMA_SEP) + rest; t != [] && t[0] != Mark(RBRACKET)
  {
    var first := ItemToks(items[0]);
    if !items[0].Undef? { FirstTok(items[0], []); }
    assert JoinToks(Items(items, [], []), COMMA_SEP)[0] == first[0];
  }

  /** The first item, and what stands behind it. */
  lemma ItemsSplit(items: seq<Json>, rest: seq<Tok>)
    requires items != []
    ensures var x, more := items[0], items[1..];
            var after := if more == [] then [Mark(RBRACKET)] + rest
                         else COMMA_SEP + (JoinToks(Items(more, [], []), COMMA_SEP) + ([Mark(RBRACKET)] + rest));
            JoinToks(Items(items, [], []), COMMA_SEP) + ([Mark(RBRACKET)] + rest) == ItemToks(x) + after
  {
    hide JoinToks, Items, Compact;
    ItemsParts(items);
    JoinFirst(ItemToks(items[0]), Items(items[1..], [], []), [Mark(RBRACKET)] + rest);
  }

  lemma ItemsParts(items: seq<Json>)
    requires items != []
    ensures Items(items, [], []) == [ItemToks(items[0])] + Items(items[1..], [], [])
    ensures Items(items[1..], [], []) == [] <==> items[1..] == []
  {
    hide Tokens;
  }

  /** The first of some parts, and what stands behind it. */
  lemma JoinFirst(part: seq<Tok>, more: seq<seq<Tok>>, rest: seq<Tok>)
    ensures JoinToks([part] + more, COMMA_SEP) + rest
            == part + if more == [] then rest else COMMA_SEP + (JoinToks(more, COMMA_SEP) + rest)
  {
    assert ([part] + more)[1..] == more;
    if more != [] {
      assert (part + (COMMA_SEP + JoinToks(more, COMMA_SEP))) + rest
          == part + (COMMA_SEP + (JoinToks(more, COMMA_SEP) + rest));
    }
  }

  lemma CleanFirst(items: seq<Json>)
    requires items != []
    ensures CleanItems(items) == [Clean(items[0])] + CleanItems(items[1..])
    ensures items[1..] == [] ==> CleanItems(items) == [Clean(items[0])]
  {
  }

  /** One item, null for a value that is not printed. */
  lemma ItemBack(x: Json, after: seq<Tok>)
    ensures ReadValue(ItemToks(x) + after) == Some((Clean(x), after))
    decreases x, 2
  {
    hide Compact;
    if x.Undef? {
      assert (ItemToks(x) + after)[1..] == after;
    } else {
      ReadBack(x, after);
    }
  }

  lemma {:induction false} ItemsBack(items: seq<Json>, rest: seq<Tok>)
    requires items != []
    ensures ReadItems(JoinToks(Items(items, [], []), COMMA_SEP) + ([Mark(RBRACKET)] + rest))
            == Some((CleanItems(items), rest))
    decreases items, 1
  {
    hide JoinToks, Items, Compact, CleanItems;
    var x, more := items[0], items[1..];
    var after := if more == [] then [Mark(RBRACKET)] + rest
                 else COMMA_SEP + (JoinToks(Items(more, [], []), COMMA_SEP) + ([Mark(RBRACKET)] + rest));
    ItemsSplit(items, rest);
    ItemBack(x, after);
    CleanFirst(items);
    if more == [] {
      assert after[1..] == rest;
    } else {
      assert after[1..] == JoinToks(Items(more, [], []), COMMA_SEP) + ([Mark(RBRACKET)] + rest);
      ItemsBack(more, rest);
    }
  }

  lemma {:induction false} NothingKept(members: seq<Member>)
    requires Members(members, [], []) == []
    ensures CleanMembers(members) == []
    decreases |members|
  {
    if members != [] { NothingKept(members[1..]); }
  }

  lemma {:induction false} MembersFirst(members: seq<Member>, rest: seq<Tok>)
    requires Members(members, [], []) != []
    ensures var t := JoinToks(Members(members, [], []), COMMA_SEP) + rest; t != [] && t[0].Quoted?
    decreases |members|
  {
    if members[0].value.Undef? {
      MembersFirst(members[1..], rest);
    } else {
      var first := MemberToks(members[0], [], []);
      assert JoinToks(Members(members, [], []), COMMA_SEP)[0] == first[0];
    }
  }

  lemma {:induction false} MembersBack(members: seq<Member>, rest: seq<Tok>)
    requires Members(members, [], []) != []
    ensures ReadMembers(JoinToks(Members(members, [], []), COMMA_SEP) + ([Mark(RBRACE)] + rest))
            == Some((CleanMembers(members), rest))
    decreases members, 1
  {
    hide JoinToks, Compact, MemberToks;
    var m := members[0];
    if m.value.Undef? {
      MembersBack(members[1..], rest);
      MembersDropped(members);
    } else {
      hide Members, CleanMembers;
      var parts := Members(members[1..], [], []);
      var after := if parts == [] then [Mark(RBRACE)] + rest
                   else COMMA_SEP + (JoinToks(parts, COMMA_SEP) + ([Mark(RBRACE)] + rest));
      MembersFirstKept(members);
      JoinFirst(MemberToks(m, [], []), parts, [Mark(RBRACE)] + rest);
      ReadBack(m.value, after);
      MemberTail(m, after);
      if parts == [] {
        assert after[1..] == rest;
        NothingKept(members[1..]);
        assert [Member(m.key, Clean(m.value))] + [] == [Member(m.key, Clean(m.value))];
      } else {
        assert after[1..] == JoinToks(parts, COMMA_SEP) + ([Mark(RBRACE)] + rest);
        MembersBack(members[1..], rest);
      }
    }
  }

  lemma MembersDropped(members: seq<Member>)
    requires members != [] && members[0].value.Undef?
    ensures Members(members, [], []) == Members(members[1..], [], [])
    ensures CleanMembers(members) == CleanMembers(members[1..])
  {
    hide MemberToks;
    assert [] + Members(members[1..], [], []) == Members(members[1..], [], []);
  }

  lemma MembersFirstKept(members: seq<Member>)
    requires members != [] && !members[0].value.Undef?
    ensures Members(members, [], []) == [MemberToks(members[0], [], [])] + Members(members[1..], [], [])
    ensures CleanMembers(members)
            == [Member(members[0].key, Clean(members[0].value))] + CleanMembers(members[1..])
  {
    hide MemberToks;
  }

  lemma MemberTail(m: Member, after: seq<Tok>)
    ensures var t := MemberToks(m, [], []) + after;
            |t| >= 2 && t[0] == Quoted(m.key) && t[1] == Mark(COLON) && t[2..] == Compact(m.value) + after
  {
    assert MemberToks(m, [], []) == [Quoted(m.key), Mark(COLON)] + Compact(m.value) by {
      assert [] + Compact(m.value) == Compact(m.value);
    }
  }

  /**
   Round trip: what is printed for a value, under any white-space indentation, reads back as the value without
   what JSON has no form for. Only a value that is not printed at all gives no text.
   */
  lemma RoundTrip(v: Json, indent: Text)
    requires NumbersWellFormed(v) && AllWhite(indent)
    ensures Print(v, [], indent).None? <==> v.Undef?
    ensures !v.Undef? ==> ReadText(Print(v, [], indent).value) == Some(Clean(v))
  {
    if !v.Undef? {
      NeatTokens(v, [], indent);
      LexRender(Tokens(v, [], indent));
      NoBlanksTokens(v, [], indent);
      ReadBack(v, []);
      assert Compact(v) + [] == Compact(v);
    }
  }

  /** Nothing is lost from a value that JSON has a form for. */
  predicate Plain(v: Json) {
    match v
    case NotFinite => false
    case Undef => false
    case Arr(items) => forall x :: x in items ==> Plain(x)
    case Obj(members) => forall m :: m in members ==> Plain(m.value)
    case _ => true
  }

  /** Printing keeps a value whole exactly when JSON has a form for all of it. */
  lemma {:induction false} CleanPlain(v: Json)
    ensures Clean(v) == v <==> Plain(v)
    decreases v
  {
    match v
    case Arr(items) => CleanPlainItems(items);
    case Obj(members) => CleanPlainMembers(members);
    case _ =>
  }

  lemma {:induction false} CleanPlainItems(items: seq<Json>)
    ensures CleanItems(items) == items <==> forall x :: x in items ==> Plain(x)
    decreases items
  {
    if items != [] {
      CleanPlain(items[0]);
      CleanPlainItems(items[1..]);
      assert items == [items[0]] + items[1..];
      assert CleanItems(items)[0] == Clean(items[0]) && CleanItems(items)[1..] == CleanItems(items[1..]);
    }
  }

  lemma {:induction false} CleanPlainMembers(members: seq<Member>)
    ensures |CleanMembers(members)| <= |members|
    ensures CleanMembers(members) == members <==> forall m :: m in members ==> Plain(m.value)
    decreases members
  {
    if members != [] {
      CleanPlain(members[0].value);
      CleanPlainMembers(members[1..]);
      assert members == [members[0]] + members[1..];
      if !members[0].value.Undef? {
        assert CleanMembers(members)[1..] == CleanMembers(members[1..]);
      }
    }
  }
}
