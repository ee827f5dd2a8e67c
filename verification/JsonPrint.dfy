/** The JSON printer: its specification as a list of tokens, and the recursive printer with its shared `gap`. */
module JsonPrint {
  import opened Common
  import opened JsonText

  /** A number as JavaScript prints a finite one: sign, digits, fraction, exponent with its `e` and sign. */
  datatype Number = Number(minus: bool, digits: Text, fraction: Option<Text>, exponent: Option<Exponent>) {
    predicate WellFormed() {
      && AllDigits(digits) && digits != [] && (|digits| > 1 ==> digits[0] != ZERO)
      && (fraction.Some? ==> AllDigits(fraction.value) && fraction.value != [])
      && (exponent.Some? ==> exponent.value.WellFormed())
    }

    function Text(): Text {
      (if minus then [MINUS] else []) + (digits + (FractionText() + ExponentText()))
    }

    function FractionText(): Text { if fraction.Some? then [DOT] + fraction.value else [] }

    function ExponentText(): Text { if exponent.Some? then exponent.value.Text() else [] }
  }

  datatype Exponent = Exponent(e: unit, sign: Option<unit>, digits: Text) {
    predicate WellFormed() {
      && (e == 101 || e == 69) && (sign.Some? ==> sign.value == PLUS || sign.value == MINUS)
      && AllDigits(digits) && digits != []
    }

    function Text(): Text { [e] + ((if sign.Some? then [sign.value] else []) + digits) }
  }

  predicate AllDigits(s: Text) { forall k :: 0 <= k < |s| ==> IsDecimal(s[k]) }

  /** A JavaScript value; `NotFinite` is a number JSON has no form for, `Undef` a value that is not printed. */
  datatype Json =
    | Null
    | Bool(b: bool)
    | Num(n: Number)
    | NotFinite
    | Str(s: Text)
    | Arr(items: seq<Json>)
    | Obj(members: seq<Member>)
    | Undef

  datatype Member = Member(key: Text, value: Json)

  predicate NumbersWellFormed(v: Json) {
    match v
    case Num(n) => n.WellFormed()
    case Arr(items) => forall x :: x in items ==> NumbersWellFormed(x)
    case Obj(members) => forall m :: m in members ==> NumbersWellFormed(m.value)
    case _ => true
  }

  datatype Word = TrueWord | FalseWord | NullWord {
    function Text(): Text {
      match this
      case TrueWord => [116, 114, 117, 101]
      case FalseWord => [102, 97, 108, 115, 101]
      case NullWord => [110, 117, 108, 108]
    }
  }

  lemma WordsAre()
    ensures TrueWord.Text() == Codes("true") && FalseWord.Text() == Codes("false") && NullWord.Text() == Codes("null")
  {
  }

  /** The tokens of RFC 8259, with white space. */
  datatype Tok = Mark(c: unit) | Blank(w: unit) | Quoted(s: Text) | WordTok(word: Word) | NumberTok(n: Number) {
    function Text(): Text {
      match this
      case Mark(c) => [c]
      case Blank(w) => [w]
      case Quoted(s) => Quote(s)
      case WordTok(word) => word.Text()
      case NumberTok(n) => n.Text()
    }
  }

  function Render(toks: seq<Tok>): Text {
    if toks == [] then [] else toks[0].Text() + Render(toks[1..])
  }

  lemma {:induction false} RenderConcat(a: seq<Tok>, b: seq<Tok>)
    ensures Render(a + b) == Render(a) + Render(b)
    decreases |a|
  {
    if a == [] {
      assert a + b == b;
    } else {
      assert (a + b)[1..] == a[1..] + b;
      RenderConcat(a[1..], b);
    }
  }

  lemma RenderOne(tok: Tok)
    ensures Render([tok]) == tok.Text()
  {
    assert [tok][1..] == [];
  }

  // ---------- the specification ----------

  function Blanks(x: Text): seq<Tok> {
    if x == [] then [] else [Blank(x[0])] + Blanks(x[1..])
  }

  lemma {:induction false} RenderBlanks(x: Text)
    ensures Render(Blanks(x)) == x
    decreases |x|
  {
    if x != [] { RenderBlanks(x[1..]); }
  }

  /** The line break before an item or a closing bracket; none when the inner gap is empty. */
  function Break(inner: Text, gap: Text): seq<Tok> {
    if inner == [] then [] else [Blank(LF)] + Blanks(gap)
  }

  function JoinToks(parts: seq<seq<Tok>>, sep: seq<Tok>): seq<Tok> {
    if parts == [] then []
    else if |parts| == 1 then parts[0]
    else parts[0] + (sep + JoinToks(parts[1..], sep))
  }

  function Wrapped(open: unit, close: unit, parts: seq<seq<Tok>>, inner: Text, outer: Text): seq<Tok> {
    if parts == [] then [Mark(open), Mark(close)]
    else
      [Mark(open)]
          + (Break(inner, inner)
          + (JoinToks(parts, [Mark(COMMA)] + Break(inner, inner)) + (Break(inner, outer) + [Mark(close)])))
  }

  function Tokens(v: Json, gap: Text, indent: Text): seq<Tok>
    decreases v
  {
    match v
    case Null => [WordTok(NullWord)]
    case Bool(b) => [WordTok(if b then TrueWord else FalseWord)]
    case Num(n) => [NumberTok(n)]
    case NotFinite => [WordTok(NullWord)]
    case Str(s) => [Quoted(s)]
    case Arr(items) => Wrapped(LBRACKET, RBRACKET, Items(items, gap + indent, indent), gap + indent, gap)
    case Obj(members) => Wrapped(LBRACE, RBRACE, Members(members, gap + indent, indent), gap + indent, gap)
    case Undef => []
  }

  /** In an array a value that is not printed becomes null. */
  function Items(items: seq<Json>, gap: Text, indent: Text): seq<seq<Tok>>
    decreases items
  {
    if items == [] then []
    else
      var first := if items[0].Undef? then [WordTok(NullWord)] else Tokens(items[0], gap, indent);
      [first] + Items(items[1..], gap, indent)
  }

  function MemberToks(m: Member, gap: Text, indent: Text): seq<Tok>
    decreases m
  {
    [Quoted(m.key), Mark(COLON)] + ((if gap != [] then [Blank(SPACE)] else []) + Tokens(m.value, gap, indent))
  }

  /** In an object a member whose value is not printed is dropped. */
  function Members(members: seq<Member>, gap: Text, indent: Text): seq<seq<Tok>>
    decreases members
  {
    if members == [] then []
    else if members[0].value.Undef? then Members(members[1..], gap, indent)
    else [MemberToks(members[0], gap, indent)] + Members(members[1..], gap, indent)
  }

  /** The printed text, for a value that is printed at all. */
  function Print(v: Json, gap: Text, indent: Text): Option<Text> {
    if v.Undef? then None else Some(Render(Tokens(v, gap, indent)))
  }

  // ---------- the printer ----------

  function RenderEach(parts: seq<seq<Tok>>): seq<Text> {
    seq(|parts|, i requires 0 <= i < |parts| => Render(parts[i]))
  }

  /** `join`. */
  function Join(texts: seq<Text>, sep: Text): Text {
    if texts == [] then []
    else if |texts| == 1 then texts[0]
    else texts[0] + (sep + Join(texts[1..], sep))
  }

  lemma {:induction false} RenderJoin(parts: seq<seq<Tok>>, sep: seq<Tok>)
    ensures Render(JoinToks(parts, sep)) == Join(RenderEach(parts), Render(sep))
    decreases |parts|
  {
    if |parts| > 1 {
      RenderJoin(parts[1..], sep);
      assert RenderEach(parts)[1..] == RenderEach(parts[1..]);
      RenderConcat(sep, JoinToks(parts[1..], sep));
      RenderConcat(parts[0], sep + JoinToks(parts[1..], sep));
    }
  }

  /** The text `str` puts together from the partial results. */
  function WrapText(open: unit, close: unit, texts: seq<Text>, gap: Text, mind: Text): Text {
    if texts == [] then [open, close]
    else if gap != [] then [open, LF] + gap + Join(texts, [COMMA, LF] + gap) + [LF] + mind + [close]
    else [open] + Join(texts, [COMMA]) + [close]
  }

  lemma RenderBreak(inner: Text, gap: Text)
    ensures Render(Break(inner, gap)) == if inner == [] then [] else [LF] + gap
  {
    RenderBlanks(gap);
    RenderConcat([Blank(LF)], Blanks(gap));
    assert Render([Blank(LF)]) == [LF];
  }

  lemma RenderWrapped(open: unit, close: unit, parts: seq<seq<Tok>>, inner: Text, outer: Text)
    ensures Render(Wrapped(open, close, parts, inner, outer)) == WrapText(open, close, RenderEach(parts), inner, outer)
  {
    NoneLost(parts);
    RenderOne(Mark(open));
    RenderOne(Mark(close));
    if parts == [] {
      RenderConcat([Mark(open)], [Mark(close)]);
      assert [Mark(open), Mark(close)] == [Mark(open)] + [Mark(close)];
    } else {
      hide JoinToks, Join, Break, RenderEach, Render;
      var b, sep, e := Break(inner, inner), [Mark(COMMA)] + Break(inner, inner), Break(inner, outer) + [Mark(close)];
      var j := JoinToks(parts, sep);
      RenderSep(inner);
      RenderBreak(inner, outer);
      RenderJoin(parts, sep);
      RenderConcat(Break(inner, outer), [Mark(close)]);
      RenderConcat(j, e);
      RenderConcat(b, j + e);
      RenderConcat([Mark(open)], b + (j + e));
      Regroup(open, close, inner, outer, Join(RenderEach(parts), Render(sep)));
    }
  }

  lemma RenderSep(inner: Text)
    ensures Render(Break(inner, inner)) == if inner == [] then [] else [LF] + inner
    ensures Render([Mark(COMMA)] + Break(inner, inner)) == if inner == [] then [COMMA] else [COMMA, LF] + inner
  {
    hide Render, Break;
    RenderOne(Mark(COMMA));
    RenderBreak(inner, inner);
    RenderConcat([Mark(COMMA)], Break(inner, inner));
    assert [COMMA] + ([LF] + inner) == [COMMA, LF] + inner;
  }

  lemma Regroup(open: unit, close: unit, inner: Text, outer: Text, t: Text)
    ensures [open] + (([LF] + inner) + (t + (([LF] + outer) + [close])))
            == [open, LF] + inner + t + [LF] + outer + [close]
    ensures [open] + ([] + (t + ([] + [close]))) == [open] + t + [close]
  {
  }

  lemma NoneLost(parts: seq<seq<Tok>>)
    ensures |RenderEach(parts)| == |parts|
  {
  }

  lemma {:induction false} ItemsSnoc(items: seq<Json>, x: Json, gap: Text, indent: Text)
    ensures Items(items + [x], gap, indent) == Items(items, gap, indent) + Items([x], gap, indent)
    decreases |items|
  {
    if items == [] {
      assert [] + [x] == [x];
    } else {
      assert (items + [x])[1..] == items[1..] + [x];
      ItemsSnoc(items[1..], x, gap, indent);
    }
  }

  lemma {:induction false} MembersSnoc(members: seq<Member>, m: Member, gap: Text, indent: Text)
    ensures Members(members + [m], gap, indent) == Members(members, gap, indent) + Members([m], gap, indent)
    decreases |members|
  {
    if members == [] {
      assert [] + [m] == [m];
    } else {
      assert (members + [m])[1..] == members[1..] + [m];
      MembersSnoc(members[1..], m, gap, indent);
    }
  }

  lemma RenderMember(m: Member, gap: Text, indent: Text)
    ensures Render(MemberToks(m, gap, indent)) ==
            Quote(m.key) + (if gap != [] then [COLON, SPACE] else [COLON]) + Render(Tokens(m.value, gap, indent))
  {
    hide Tokens, Render, Quote;
    var t := Tokens(m.value, gap, indent);
    var b := if gap != [] then [Blank(SPACE)] else [];
    RenderConcat(b, t);
    RenderConcat([Quoted(m.key), Mark(COLON)], b + t);
    RenderOne(Quoted(m.key));
    RenderOne(Mark(COLON));
    RenderOne(Blank(SPACE));
    assert [Quoted(m.key), Mark(COLON)] == [Quoted(m.key)] + [Mark(COLON)];
    RenderConcat([Quoted(m.key)], [Mark(COLON)]);
    RenderNone();
  }

  lemma RenderNone()
    ensures Render([]) == []
  {
  }

  datatype Space = NoSpace | Count(n: real) | Indent(text: Text)

  function Spaces(n: nat): Text { seq(n, _ => ' ' as int) }

  class Printer {
    var gap: Text
    var indent: Text

    constructor ()
    {
      gap, indent := [], [];
    }

    /** Prints `v`; the shared `gap` is longer while the items are printed, and is back when the call returns. */
    method Str(v: Json) returns (r: Option<Text>)
      modifies this
      ensures gap == old(gap) && indent == old(indent)
      ensures r == Print(v, gap, indent)
      decreases v
    {
      hide Quote, Wrapped, WrapText, IsDecimal, Word.Text, Number.Text;
      var mind := gap;
      LeafText(v, gap, indent);
      match v {
        case Null => r := Some(NullWord.Text());
        case Bool(b) => r := Some(if b then TrueWord.Text() else FalseWord.Text());
        case Num(n) => r := Some(n.Text());
        case NotFinite => r := Some(NullWord.Text());
        case Str(s) => r := Some(Quote(s));
        case Undef => r := None;
        case Arr(items) =>
          gap := gap + indent;
          var partial := [];
          var i := 0;
          while i < |items|
            invariant i <= |items| && gap == mind + indent && indent == old(indent)
            invariant partial == RenderEach(Items(items[..i], gap, indent))
          {
            var text := Str(items[i]);
            OneMoreItem(items, i, gap, indent);
            partial := partial + [if text.Some? then text.value else NullWord.Text()];
            i := i + 1;
          }
          assert items[..i] == items;
          RenderWrapped(LBRACKET, RBRACKET, Items(items, gap, indent), gap, mind);
          r := Some(WrapText(LBRACKET, RBRACKET, partial, gap, mind));
          gap := mind;
        case Obj(members) =>
          gap := gap + indent;
          var partial := [];
          var i := 0;
          while i < |members|
            invariant i <= |members| && gap == mind + indent && indent == old(indent)
            invariant partial == RenderEach(Members(members[..i], gap, indent))
          {
            var text := Str(members[i].value);
            OneMoreMember(members, i, gap, indent);
            if text.Some? {
              partial := partial
                  + [Quote(members[i].key) + (if gap != [] then [COLON, SPACE] else [COLON]) + text.value];
            }
            i := i + 1;
          }
          assert members[..i] == members;
          RenderWrapped(LBRACE, RBRACE, Members(members, gap, indent), gap, mind);
          r := Some(WrapText(LBRACE, RBRACE, partial, gap, mind));
          gap := mind;
      }
    }

    /** A number of spaces is rounded up, and a negative one is none. */
    method Stringify(v: Json, space: Space) returns (r: Option<Text>)
      modifies this
      ensures match space
              case NoSpace => r == Print(v, [], [])
              case Count(n) => exists k: nat ::
                k as real >= n && (k > 0 ==> (k - 1) as real < n) && r == Print(v, [], Spaces(k))
              case Indent(text) => r == Print(v, [], text)
    {
      gap := [];
      indent := [];
      match space {
        case NoSpace =>
        case Count(n) =>
          var i := 0;
          while i as real < n
            invariant 0 <= i && (i > 0 ==> (i - 1) as real < n) && indent == Spaces(i) && gap == []
            decreases n.Floor + 1 - i
          {
            assert Spaces(i) + [SPACE] == Spaces(i + 1);
            indent := indent + [SPACE];
            i := i + 1;
          }
        case Indent(text) => indent := text;
      }
      r := Str(v);
    }
  }

  lemma LeafText(v: Json, gap: Text, indent: Text)
    ensures match v
            case Null => Print(v, gap, indent) == Some(NullWord.Text())
            case Bool(b) => Print(v, gap, indent) == Some((if b then TrueWord else FalseWord).Text())
            case Num(n) => Print(v, gap, indent) == Some(n.Text())
            case NotFinite => Print(v, gap, indent) == Some(NullWord.Text())
            case Str(s) => Print(v, gap, indent) == Some(Quote(s))
            case _ => true
  {
    hide Quote, Word.Text, Number.Text;
    match v
    case Null => RenderOne(WordTok(NullWord));
    case Bool(b) => RenderOne(WordTok(if b then TrueWord else FalseWord));
    case Num(n) => RenderOne(NumberTok(n));
    case NotFinite => RenderOne(WordTok(NullWord));
    case Str(s) => RenderOne(Quoted(s));
    case _ =>
  }

  lemma OneMoreItem(items: seq<Json>, i: nat, gap: Text, indent: Text)
    requires i < |items|
    ensures RenderEach(Items(items[..i + 1], gap, indent)) ==
            RenderEach(Items(items[..i], gap, indent))
                + [if items[i].Undef? then NullWord.Text() else Render(Tokens(items[i], gap, indent))]
  {
    assert items[..i + 1] == items[..i] + [items[i]];
    ItemsSnoc(items[..i], items[i], gap, indent);
    assert Render([WordTok(NullWord)]) == NullWord.Text();
    assert Items([items[i]], gap, indent)
        == [if items[i].Undef? then [WordTok(NullWord)] else Tokens(items[i], gap, indent)];
  }

  lemma OneMoreMember(members: seq<Member>, i: nat, gap: Text, indent: Text)
    requires i < |members|
    ensures RenderEach(Members(members[..i + 1], gap, indent)) ==
            RenderEach(Members(members[..i], gap, indent)) +
            if members[i].value.Undef? then []
            else [Quote(members[i].key) + (if gap != [] then [COLON, SPACE] else [COLON])
                + Render(Tokens(members[i].value, gap, indent))]
  {
    assert members[..i + 1] == members[..i] + [members[i]];
    MembersSnoc(members[..i], members[i], gap, indent);
    RenderMember(members[i], gap, indent);
    assert Members([members[i]], gap, indent)
        == if members[i].value.Undef? then [] else [MemberToks(members[i], gap, indent)];
  }
}
