/**
 The heads the parsers accept as a grammar: section 3 of RFC 7230 with the liberties the parser takes
 (bare LF, runs of spaces, a line end before the request). A layout keeps every byte, so that it can be
 printed, and says where the parts lie.
 */
module HttpGrammar {
  import opened Bytes
  import opened HttpScan
  import opened HttpParse

  ghost predicate At(s: seq<byte>, i: nat, x: seq<byte>) {
    i + |x| <= |s| && s[i..i + |x|] == x
  }

  lemma AtConcat(s: seq<byte>, i: nat, a: seq<byte>, b: seq<byte>)
    ensures At(s, i, a + b) <==> At(s, i, a) && At(s, i + |a|, b)
  {
    if At(s, i, a + b) {
      assert s[i..i + |a|] == s[i..i + |a + b|][..|a|];
      assert s[i + |a|..i + |a + b|] == s[i..i + |a + b|][|a|..];
    }
    if At(s, i, a) && At(s, i + |a|, b) {
      assert s[i..i + |a| + |b|] == s[i..i + |a|] + s[i + |a|..i + |a| + |b|];
    }
  }

  lemma AtHead(s: seq<byte>, i: nat, x: seq<byte>)
    requires At(s, i, x) && x != []
    ensures i + |x| <= |s| && s[i] == x[0]
  {
    assert s[i..i + |x|][0] == s[i];
  }

  lemma AtLast(s: seq<byte>, i: nat, x: seq<byte>)
    requires At(s, i, x)
    ensures x != [] ==> i + |x| <= |s| && s[i + |x| - 1] == x[|x| - 1]
  {
    assert x != [] ==> s[i..i + |x|][|x| - 1] == s[i + |x| - 1];
  }

  lemma AtAll(p: byte -> bool, s: seq<byte>, i: nat, x: seq<byte>)
    requires At(s, i, x)
    ensures All(p, x) <==> AllIn(p, s, i, i + |x|)
  {
    assert forall k :: 0 <= k < |x| ==> x[k] == s[i + k];
    forall k | i <= k < i + |x| ensures s[k] == x[k - i] {}
  }

  lemma EolFound(s: seq<byte>, i: nat, eol: Eol)
    requires At(s, i, eol.Bytes())
    ensures EolAt(s, i) == Got(eol, i + |eol.Bytes()|)
  {
    assert s[i] == eol.Bytes()[0];
    if eol.CrLf? { assert s[i + 1] == s[i..i + 2][1]; }
  }

  lemma EolBack(s: seq<byte>, i: nat)
    requires EolAt(s, i).Got?
    ensures At(s, i, EolAt(s, i).value.Bytes())
  {
  }

  // ---------- values and header lines ----------

  /** A value, the blanks that are cut off behind it, and the line end. */
  datatype Rest = Rest(value: seq<byte>, trail: seq<byte>, eol: Eol) {
    predicate WellFormed() {
      All(IsText, value) && All(IsBlank, trail) && (value != [] ==> !IsBlank(value[|value| - 1]))
    }

    function Bytes(): seq<byte> { value + (trail + eol.Bytes()) }
  }

  lemma RestRead(s: seq<byte>, i: nat, rest: Rest)
    requires rest.WellFormed() && At(s, i, rest.Bytes())
    ensures ValueAt(s, i) == Got(Span(i, |rest.value|), i + |rest.Bytes()|)
  {
    hide At, EolAt, TextEnd, TrimEnd;
    var v, e := i + |rest.value|, i + |rest.value| + |rest.trail|;
    AtConcat(s, i, rest.value, rest.trail + rest.eol.Bytes());
    AtConcat(s, v, rest.trail, rest.eol.Bytes());
    AtAll(IsText, s, i, rest.value);
    AtAll(IsBlank, s, v, rest.trail);
    EolFound(s, e, rest.eol);
    TextEndAt(s, i, e);
    AtLast(s, i, rest.value);
    TrimEndAt(s, i, v, e);
  }

  lemma RestOf(s: seq<byte>, i: nat) returns (rest: Rest)
    requires ValueAt(s, i).Got?
    ensures rest.WellFormed() && At(s, i, rest.Bytes()) && i + |rest.Bytes()| == ValueAt(s, i).next
    ensures ValueAt(s, i).value == Span(i, |rest.value|)
  {
    hide IsText, IsBlank, TextEnd, TrimEnd, EolAt;
    var e := TextEnd(s, i).value;
    var v := TrimEnd(s, i, e);
    rest := Rest(s[i..v], s[v..e], EolAt(s, e).value);
    EolBack(s, e);
    AtConcat(s, v, rest.trail, rest.eol.Bytes());
    AtConcat(s, i, rest.value, rest.trail + rest.eol.Bytes());
    AtAll(IsText, s, i, rest.value);
    AtAll(IsBlank, s, v, rest.trail);
    assert rest.value != [] ==> s[v - 1] == rest.value[|rest.value| - 1];
  }

  datatype Line =
    | Field(name: seq<byte>, blank: seq<byte>, rest: Rest)
    | Fold(rest: Rest)
  {
    /** A continuation starts with a blank and is never the first line. */
    predicate WellFormed(first: bool) {
      rest.WellFormed() &&
      match this
      case Field(name, blank, rest) =>
        && name != [] && All(IsTokenChar, name) && All(IsBlank, blank)
        && (if rest.value != [] then !IsBlank(rest.value[0]) else rest.trail == [])
      case Fold(rest) => !first && IsBlank((rest.value + rest.trail + [0])[0])
    }

    function Bytes(): (r: seq<byte>)
      ensures r != []
    {
      match this
      case Field(name, blank, rest) => name + ([COLON] + (blank + rest.Bytes()))
      case Fold(rest) => rest.Bytes()
    }

    /** The header it gives when it starts at `i`. */
    function Parts(i: nat): Header {
      match this
      case Field(name, blank, rest) => Header(Named(Span(i, |name|)), Span(i + |name| + 1 + |blank|, |rest.value|))
      case Fold(rest) => Header(NoName, Span(i, |rest.value|))
    }
  }

  /** What the first byte of a line tells: a blank line, a continuation, or a field. */
  lemma LineHead(line: Line, first: bool)
    requires line.WellFormed(first)
    ensures line.Bytes()[0] != CR && line.Bytes()[0] != LF
    ensures IsBlank(line.Bytes()[0]) <==> line.Fold?
  {
    if line.Fold? {
      assert line.Bytes()[0] == (line.rest.value + line.rest.trail + [0])[0];
    } else {
      assert line.Bytes()[0] == line.name[0];
    }
  }

  /** The value of a field starts with the first byte that is not a blank. */
  lemma RestHead(line: Line, first: bool)
    requires line.Field? && line.WellFormed(first)
    ensures line.rest.Bytes() != [] && !IsBlank(line.rest.Bytes()[0])
  {
  }

  /** The pieces of a field that starts at `i`. */
  lemma FieldPieces(s: seq<byte>, i: nat, line: Line)
    requires line.Field?
    ensures var n := i + |line.name|;
            var b := n + 1 + |line.blank|;
            At(s, i, line.Bytes()) <==>
            At(s, i, line.name) && At(s, n, [COLON]) && At(s, n + 1, line.blank) && At(s, b, line.rest.Bytes())
    ensures |line.Bytes()| == |line.name| + 1 + |line.blank| + |line.rest.Bytes()|
  {
    hide At, Rest.Bytes;
    var n := i + |line.name|;
    AtConcat(s, i, line.name, [COLON] + (line.blank + line.rest.Bytes()));
    AtConcat(s, n, [COLON], line.blank + line.rest.Bytes());
    AtConcat(s, n + 1, line.blank, line.rest.Bytes());
  }

  lemma FieldRead(s: seq<byte>, i: nat, line: Line, first: bool)
    requires line.Field? && line.WellFormed(first) && At(s, i, line.Bytes())
    ensures HeaderAt(s, i, !first) == Got(line.Parts(i), i + |line.Bytes()|)
  {
    hide IsTokenChar, At, Rest.Bytes, Rest.WellFormed, Line.Bytes, IsBlank, ValueAt, NameEnd, BlankEnd;
    var n := i + |line.name|;
    var b := n + 1 + |line.blank|;
    FieldPieces(s, i, line);
    AtAll(IsTokenChar, s, i, line.name);
    AtAll(IsBlank, s, n + 1, line.blank);
    AtHead(s, n, [COLON]);
    NameEndAt(s, i, n);
    RestRead(s, b, line.rest);
    RestHead(line, first);
    AtHead(s, b, line.rest.Bytes());
    BlankEndAt(s, n + 1, b);
    LineHead(line, first);
    AtHead(s, i, line.Bytes());
  }

  lemma LineRead(s: seq<byte>, i: nat, line: Line, first: bool)
    requires line.WellFormed(first) && At(s, i, line.Bytes())
    ensures i < |s| && s[i] != CR && s[i] != LF && HeaderAt(s, i, !first) == Got(line.Parts(i), i + |line.Bytes()|)
  {
    LineHead(line, first);
    assert s[i] == line.Bytes()[0];
    if line.Field? {
      FieldRead(s, i, line, first);
    } else {
      RestRead(s, i, line.rest);
    }
  }

  lemma AtSlice(s: seq<byte>, i: nat, j: nat)
    requires i <= j <= |s|
    ensures At(s, i, s[i..j])
  {
  }

  /** The name and the blanks of a field, with the bytes behind them. */
  ghost predicate FieldAt(s: seq<byte>, i: nat, n: nat, b: nat) {
    && i < n < b < |s| && s[n] == COLON && !IsBlank(s[b])
    && AllIn(IsTokenChar, s, i, n) && AllIn(IsBlank, s, n + 1, b)
  }

  /** The scans of a field that is read. */
  lemma FieldScans(s: seq<byte>, i: nat, first: bool)
    requires i < |s| && (first || !IsBlank(s[i])) && HeaderAt(s, i, !first).Got?
    ensures NameEnd(s, i).Got? && BlankEnd(s, NameEnd(s, i).value + 1).Got?
    ensures NameEnd(s, i).next == NameEnd(s, i).value + 1
    ensures BlankEnd(s, NameEnd(s, i).value + 1).next == BlankEnd(s, NameEnd(s, i).value + 1).value
    ensures FieldAt(s, i, NameEnd(s, i).value, BlankEnd(s, NameEnd(s, i).value + 1).value)
    ensures ValueAt(s, BlankEnd(s, NameEnd(s, i).value + 1).value).Got?
    ensures HeaderAt(s, i, !first).next == ValueAt(s, BlankEnd(s, NameEnd(s, i).value + 1).value).next
  {
    hide ValueAt, NameEnd, BlankEnd, IsTokenChar, AllIn;
    NameFound(s, i);
    BlankFound(s, NameEnd(s, i).value + 1);
  }

  lemma NameFound(s: seq<byte>, i: nat)
    requires NameEnd(s, i).Got?
    ensures var n := NameEnd(s, i).value;
            NameEnd(s, i).next == n + 1 && i <= n < |s| && s[n] == COLON && AllIn(IsTokenChar, s, i, n)
  {
    hide NameEnd, IsTokenChar;
  }

  lemma BlankFound(s: seq<byte>, i: nat)
    requires BlankEnd(s, i).Got?
    ensures var b := BlankEnd(s, i).value;
            BlankEnd(s, i).next == b && i <= b < |s| && !IsBlank(s[b]) && AllIn(IsBlank, s, i, b)
  {
    hide BlankEnd;
  }

  lemma FieldOf(s: seq<byte>, i: nat, first: bool) returns (line: Line)
    requires i < |s| && (first || !IsBlank(s[i])) && HeaderAt(s, i, !first).Got?
    ensures line.WellFormed(first) && At(s, i, line.Bytes()) && i + |line.Bytes()| == HeaderAt(s, i, !first).next
  {
    hide IsTokenChar, Rest.Bytes, Rest.WellFormed, IsBlank, ValueAt, NameEnd, BlankEnd, Line.Bytes, At, AllIn;
    var n := NameEnd(s, i).value;
    var b := BlankEnd(s, n + 1).value;
    FieldScans(s, i, first);
    var rest := RestOf(s, b);
    line := Field(s[i..n], s[n + 1..b], rest);
    AtSlice(s, i, n);
    AtSlice(s, n, n + 1);
    AtSlice(s, n + 1, b);
    assert s[n..n + 1] == [COLON];
    FieldPieces(s, i, line);
    AtAll(IsTokenChar, s, i, line.name);
    AtAll(IsBlank, s, n + 1, line.blank);
    NoBlankFirst(s, b, rest);
  }

  lemma NoBlankFirst(s: seq<byte>, b: nat, rest: Rest)
    requires rest.WellFormed() && At(s, b, rest.Bytes()) && b < |s| && !IsBlank(s[b])
    ensures if rest.value != [] then !IsBlank(rest.value[0]) else rest.trail == []
  {
    assert s[b] == rest.Bytes()[0];
  }

  lemma FoldOf(s: seq<byte>, i: nat) returns (line: Line)
    requires i < |s| && IsBlank(s[i]) && HeaderAt(s, i, true).Got?
    ensures line.WellFormed(false) && At(s, i, line.Bytes()) && i + |line.Bytes()| == HeaderAt(s, i, true).next
  {
    var rest := RestOf(s, i);
    line := Fold(rest);
    assert s[i] == rest.Bytes()[0];
    assert rest.Bytes() == (rest.value + rest.trail) + rest.eol.Bytes();
    assert rest.Bytes()[0] == (rest.value + rest.trail + [0])[0];
  }

  lemma LineOf(s: seq<byte>, i: nat, first: bool) returns (line: Line)
    requires i < |s| && s[i] != CR && s[i] != LF && HeaderAt(s, i, !first).Got?
    ensures line.WellFormed(first) && At(s, i, line.Bytes()) && i + |line.Bytes()| == HeaderAt(s, i, !first).next
  {
    if !first && IsBlank(s[i]) {
      line := FoldOf(s, i);
    } else {
      line := FieldOf(s, i, first);
    }
  }

  // ---------- header blocks ----------

  predicate WellFormedLines(lines: seq<Line>, first: bool) {
    lines == [] || (lines[0].WellFormed(first) && WellFormedLines(lines[1..], false))
  }

  function BlockBytes(lines: seq<Line>, end: Eol): (r: seq<byte>)
    ensures r != []
  {
    if lines == [] then end.Bytes() else lines[0].Bytes() + BlockBytes(lines[1..], end)
  }

  function BlockParts(lines: seq<Line>, i: nat): seq<Header> {
    if lines == [] then [] else [lines[0].Parts(i)] + BlockParts(lines[1..], i + |lines[0].Bytes()|)
  }

  lemma EndRead(s: seq<byte>, i: nat, end: Eol, hs: seq<Header>, max: nat)
    requires At(s, i, end.Bytes())
    ensures Headers(s, i, hs, max) == Got(hs, i + |end.Bytes()|)
  {
    hide At, EolAt, HeaderAt;
    EolFound(s, i, end);
    AtHead(s, i, end.Bytes());
  }

  lemma OneHeader(s: seq<byte>, i: nat, hs: seq<Header>, max: nat)
    requires i < |s| && s[i] != CR && s[i] != LF && |hs| < max && HeaderAt(s, i, |hs| != 0).Got?
    ensures var h := HeaderAt(s, i, |hs| != 0);
            Headers(s, i, hs, max) == Headers(s, h.next, hs + [h.value], max)
  {
    hide HeaderAt;
  }

  lemma {:induction false} BlockRead(s: seq<byte>, i: nat, lines: seq<Line>, end: Eol, hs: seq<Header>, max: nat)
    requires WellFormedLines(lines, hs == []) && |hs| + |lines| <= max && At(s, i, BlockBytes(lines, end))
    ensures Headers(s, i, hs, max) == Got(hs + BlockParts(lines, i), i + |BlockBytes(lines, end)|)
    decreases |lines|
  {
    hide At, Line.WellFormed, Line.Bytes, Line.Parts, HeaderAt, EolAt, Headers, Eol.Bytes;
    if lines == [] {
      EndRead(s, i, end, hs, max);
      assert hs + [] == hs;
    } else {
      var next, h := i + |lines[0].Bytes()|, lines[0].Parts(i);
      AtConcat(s, i, lines[0].Bytes(), BlockBytes(lines[1..], end));
      LineRead(s, i, lines[0], hs == []);
      OneHeader(s, i, hs, max);
      BlockRead(s, next, lines[1..], end, hs + [h], max);
      assert hs + [h] + BlockParts(lines[1..], next) == hs + ([h] + BlockParts(lines[1..], next));
    }
  }

  lemma {:induction false} BlockOf(s: seq<byte>, i: nat, hs: seq<Header>, max: nat) returns (lines: seq<Line>, end: Eol)
    requires Headers(s, i, hs, max).Got? && |hs| <= max
    ensures WellFormedLines(lines, hs == []) && |hs| + |lines| <= max && At(s, i, BlockBytes(lines, end))
    decreases |s| - i
  {
    hide At, Line.WellFormed, Line.Bytes, Line.Parts, HeaderAt, EolAt;
    if s[i] == CR || s[i] == LF {
      lines, end := [], EolAt(s, i).value;
      EolBack(s, i);
    } else {
      var line := LineOf(s, i, hs == []);
      LineRead(s, i, line, hs == []);
      var next := i + |line.Bytes()|;
      var more;
      more, end := BlockOf(s, next, hs + [line.Parts(i)], max);
      lines := [line] + more;
      AtConcat(s, i, line.Bytes(), BlockBytes(more, end));
    }
  }

  /** The header parser accepts exactly the blocks of the grammar, and finds the parts where they were put. */
  lemma HeadersExactly(s: seq<byte>, hs: seq<Header>, n: nat, max: nat)
    ensures ParseHeaders(s, max) == Got(hs, n) <==> exists lines, end :: IsBlock(lines, end, s, hs, n, max)
  {
    if ParseHeaders(s, max) == Got(hs, n) {
      var lines, end := BlockOf(s, 0, [], max);
      BlockRead(s, 0, lines, end, [], max);
      assert [] + BlockParts(lines, 0) == BlockParts(lines, 0);
      assert IsBlock(lines, end, s, hs, n, max);
    }
    if exists lines, end :: IsBlock(lines, end, s, hs, n, max) {
      var lines, end :| IsBlock(lines, end, s, hs, n, max);
      BlockRead(s, 0, lines, end, [], max);
      assert [] + BlockParts(lines, 0) == BlockParts(lines, 0);
    }
  }

  ghost predicate IsBlock(lines: seq<Line>, end: Eol, s: seq<byte>, hs: seq<Header>, n: nat, max: nat) {
    && WellFormedLines(lines, true) && |lines| <= max
    && At(s, 0, BlockBytes(lines, end)) && n == |BlockBytes(lines, end)| && hs == BlockParts(lines, 0)
  }
}
