/** Whole request and response heads: the parsers accept exactly the grammar, and return exactly its parts. */
module HttpMessages {
  import opened Bytes
  import opened HttpScan
  import opened HttpParse
  import opened HttpGrammar

  function Spaces(n: nat): (r: seq<byte>)
    ensures |r| == n
  {
    Repeat(SP, n)
  }

  lemma SpacesAt(s: seq<byte>, i: nat, n: nat)
    ensures At(s, i, Spaces(n)) <==> AllIn(b => b == SP, s, i, i + n)
  {
    if AllIn(b => b == SP, s, i, i + n) {
      assert s[i..i + n] == Spaces(n);
    }
    if At(s, i, Spaces(n)) {
      AtAll(b => b == SP, s, i, Spaces(n));
    }
  }

  function VersionBytes(minor: nat): seq<byte>
    requires minor < 10
  {
    VERSION_PREFIX + [DIGIT_0 + minor]
  }

  lemma VersionRead(s: seq<byte>, i: nat, minor: nat)
    requires minor < 10 && At(s, i, VersionBytes(minor)) && i + 8 < |s|
    ensures Version(s, i) == Got(minor, i + 8)
  {
    assert s[i..i + 7] == s[i..i + 8][..7] == VERSION_PREFIX;
    assert s[i + 7] == s[i..i + 8][7];
  }

  lemma VersionOf(s: seq<byte>, i: nat)
    requires Version(s, i).Got?
    ensures Version(s, i).value < 10 && At(s, i, VersionBytes(Version(s, i).value))
  {
    assert s[i..i + 8] == s[i..i + 7] + [s[i + 7]];
  }

  datatype LeadText = NoLead | Lead(eol: Eol) {
    function Bytes(): seq<byte> { if NoLead? then [] else eol.Bytes() }
  }

  datatype RequestText = RequestText(lead: LeadText, verb: seq<byte>, gap1: nat, path: seq<byte>, gap2: nat, minor: nat,
                                     eol: Eol, lines: seq<Line>, end: Eol)
  {
    predicate WellFormed() {
      && verb != [] && All(IsVisible, verb) && 0 < gap1 && path != [] && All(IsVisible, path) && 0 < gap2
      && minor < 10 && WellFormedLines(lines, true)
    }

    function VerbAt(): nat { |lead.Bytes()| }
    function PathAt(): nat { VerbAt() + |verb| + gap1 }
    function VersionAt(): nat { PathAt() + |path| + gap2 }
    function LinesAt(): nat { VersionAt() + 8 + |eol.Bytes()| }

    function Bytes(): seq<byte>
      requires minor < 10
    {
      lead.Bytes()
          + (verb + (Spaces(gap1) + (path
          + (Spaces(gap2) + (VersionBytes(minor) + (eol.Bytes() + BlockBytes(lines, end)))))))
    }

    function Parts(): Request {
      Request(Span(VerbAt(), |verb|), Span(PathAt(), |path|), minor, BlockParts(lines, LinesAt()))
    }
  }

  /** The pieces of a first line up to the version stand in the input. */
  ghost predicate FrontIn(s: seq<byte>, t: RequestText) {
    && At(s, 0, t.lead.Bytes()) && At(s, t.VerbAt(), t.verb) && At(s, t.VerbAt() + |t.verb|, Spaces(t.gap1))
    && At(s, t.PathAt(), t.path) && At(s, t.PathAt() + |t.path|, Spaces(t.gap2))
  }

  ghost predicate PiecesAt(t: RequestText, s: seq<byte>)
    requires t.minor < 10
  {
    && FrontIn(s, t)
    && At(s, t.VersionAt(), VersionBytes(t.minor)) && At(s, t.VersionAt() + 8, t.eol.Bytes())
    && At(s, t.LinesAt(), BlockBytes(t.lines, t.end))
  }

  lemma RequestPieces(t: RequestText, s: seq<byte>)
    requires t.minor < 10
    ensures At(s, 0, t.Bytes()) <==> PiecesAt(t, s)
    ensures |t.Bytes()| == t.LinesAt() + |BlockBytes(t.lines, t.end)|
  {
    hide At, BlockBytes;
    var f := t.eol.Bytes() + BlockBytes(t.lines, t.end);
    var e := VersionBytes(t.minor) + f;
    var d := Spaces(t.gap2) + e;
    var c := t.path + d;
    var b := Spaces(t.gap1) + c;
    AtConcat(s, 0, t.lead.Bytes(), t.verb + b);
    AtConcat(s, t.VerbAt(), t.verb, b);
    AtConcat(s, t.VerbAt() + |t.verb|, Spaces(t.gap1), c);
    AtConcat(s, t.PathAt(), t.path, d);
    AtConcat(s, t.PathAt() + |t.path|, Spaces(t.gap2), e);
    AtConcat(s, t.VersionAt(), VersionBytes(t.minor), f);
    AtConcat(s, t.VersionAt() + 8, t.eol.Bytes(), BlockBytes(t.lines, t.end));
  }

  /** A token and at least one space behind it, as the scanner of the first line finds them. */
  lemma TokenRead(s: seq<byte>, i: nat, token: seq<byte>, gap: nat)
    requires At(s, i, token) && All(IsVisible, token) && gap > 0 && At(s, i + |token|, Spaces(gap))
    requires i + |token| + gap < |s| && s[i + |token| + gap] != SP
    ensures TokenEnd(s, i) == Got(i + |token|, i + |token|)
    ensures i + |token| + 1 <= |s| && SpaceEnd(s, i + |token| + 1) == i + |token| + gap
  {
    var e := i + |token|;
    AtAll(IsVisible, s, i, token);
    SpacesAt(s, e, gap);
    TokenEndAt(s, i, e);
    SpaceEndAt(s, e + 1, e + gap);
  }

  lemma LeadRead(s: seq<byte>, lead: LeadText)
    requires At(s, 0, lead.Bytes()) && |lead.Bytes()| < |s|
    requires lead.NoLead? ==> s[0] != CR && s[0] != LF
    ensures HttpParse.Lead(s) == Got(|lead.Bytes()|, |lead.Bytes()|)
  {
    if lead.Lead? {
      EolFound(s, 0, lead.eol);
      AtHead(s, 0, lead.eol.Bytes());
    }
  }

  lemma FrontScans(s: seq<byte>, t: RequestText)
    requires All(IsVisible, t.verb) && t.gap1 > 0 && All(IsVisible, t.path) && t.gap2 > 0 && FrontIn(s, t)
    requires t.VersionAt() < |s| && s[t.VersionAt()] != SP && s[t.PathAt()] != SP
    requires t.lead.NoLead? ==> s[0] != CR && s[0] != LF
    ensures HttpParse.Lead(s) == Got(t.VerbAt(), t.VerbAt())
    ensures TokenEnd(s, t.VerbAt()) == Got(t.VerbAt() + |t.verb|, t.VerbAt() + |t.verb|)
    ensures SpaceEnd(s, t.VerbAt() + |t.verb| + 1) == t.PathAt()
    ensures TokenEnd(s, t.PathAt()) == Got(t.PathAt() + |t.path|, t.PathAt() + |t.path|)
    ensures SpaceEnd(s, t.PathAt() + |t.path| + 1) == t.VersionAt()
  {
    hide LeadText.Bytes, Spaces, All, IsVisible, TokenEnd, SpaceEnd, HttpParse.Lead, At;
    LeadRead(s, t.lead);
    TokenRead(s, t.VerbAt(), t.verb, t.gap1);
    TokenRead(s, t.PathAt(), t.path, t.gap2);
  }

  /** The scans that make up the parse of a first line, for a head that is laid out as `t`. */
  ghost predicate FirstLineScans(s: seq<byte>, t: RequestText) {
    && HttpParse.Lead(s) == Got(t.VerbAt(), t.VerbAt())
    && t.LinesAt() <= |s|
    && TokenEnd(s, t.VerbAt()) == Got(t.VerbAt() + |t.verb|, t.VerbAt() + |t.verb|)
    && SpaceEnd(s, t.VerbAt() + |t.verb| + 1) == t.PathAt()
    && TokenEnd(s, t.PathAt()) == Got(t.PathAt() + |t.path|, t.PathAt() + |t.path|)
    && SpaceEnd(s, t.PathAt() + |t.path| + 1) == t.VersionAt()
    && Version(s, t.VersionAt()) == Got(t.minor, t.VersionAt() + 8)
    && EolAt(s, t.VersionAt() + 8) == Got(t.eol, t.LinesAt())
  }

  /** The bytes that end the pieces of a first line. */
  lemma NextBytes(s: seq<byte>, t: RequestText)
    requires t.WellFormed() && PiecesAt(t, s)
    ensures t.LinesAt() < |s| && t.VerbAt() < |s| && (t.lead.NoLead? ==> s[0] != CR && s[0] != LF)
    ensures t.PathAt() < |s| && s[t.PathAt()] != SP && t.VersionAt() < |s| && s[t.VersionAt()] != SP
    ensures EolAt(s, t.VersionAt() + 8) == Got(t.eol, t.LinesAt())
  {
    hide At, BlockBytes, EolAt, WellFormedLines, Spaces, Eol.Bytes;
    AtHead(s, t.LinesAt(), BlockBytes(t.lines, t.end));
    AtHead(s, t.VerbAt(), t.verb);
    AtHead(s, t.PathAt(), t.path);
    AtHead(s, t.VersionAt(), VersionBytes(t.minor));
    EolFound(s, t.VersionAt() + 8, t.eol);
  }

  lemma FirstLineRead(s: seq<byte>, t: RequestText)
    requires t.WellFormed() && PiecesAt(t, s)
    ensures t.gap1 > 0 && t.gap2 > 0 && t.LinesAt() <= |s| && FirstLineScans(s, t)
  {
    hide At, BlockBytes, TokenEnd, SpaceEnd, EolAt, Version, HttpParse.Lead, WellFormedLines, LeadText.Bytes, Eol.Bytes,
      VersionBytes, Spaces, All, AllIn, FrontIn;
    NextBytes(s, t);
    FrontScans(s, t);
    VersionRead(s, t.VersionAt(), t.minor);
    EolFound(s, t.VersionAt() + 8, t.eol);
  }

  lemma RequestLineRead(s: seq<byte>, t: RequestText)
    requires t.WellFormed() && t.LinesAt() <= |s| && FirstLineScans(s, t)
    ensures RequestLine(s)
            == Got((Span(t.VerbAt(), |t.verb|), Span(t.PathAt(), |t.path|), t.minor), t.LinesAt())
  {
    hide TokenEnd, SpaceEnd, EolAt, Version, HttpParse.Lead, WellFormedLines, Eol.Bytes, LeadText.Bytes, IsVisible;
  }

  lemma BlockAt(s: seq<byte>, t: RequestText)
    requires t.minor < 10 && PiecesAt(t, s)
    ensures At(s, t.LinesAt(), BlockBytes(t.lines, t.end))
  {
    hide At, BlockBytes;
  }

  lemma RequestRead(s: seq<byte>, t: RequestText, max: nat)
    requires t.WellFormed() && |t.lines| <= max && At(s, 0, t.Bytes())
    ensures ParseRequest(s, max) == Got(t.Parts(), |t.Bytes()|)
  {
    hide At, BlockBytes, Headers, RequestLine, WellFormedLines, BlockParts, RequestText.Bytes, PiecesAt;
    RequestPieces(t, s);
    FirstLineRead(s, t);
    RequestLineRead(s, t);
    BlockAt(s, t);
    BlockRead(s, t.LinesAt(), t.lines, t.end, [], max);
    assert [] + BlockParts(t.lines, t.LinesAt()) == BlockParts(t.lines, t.LinesAt());
  }

  lemma LeadOf(s: seq<byte>) returns (lead: LeadText)
    requires HttpParse.Lead(s).Got?
    ensures At(s, 0, lead.Bytes()) && HttpParse.Lead(s).value == |lead.Bytes()|
  {
    if s[0] == CR || s[0] == LF {
      lead := Lead(EolAt(s, 0).value);
      EolBack(s, 0);
    } else {
      lead := NoLead;
    }
  }

  lemma TokenOf(s: seq<byte>, i: nat) returns (token: seq<byte>, gap: nat)
    requires TokenEnd(s, i).Got?
    ensures All(IsVisible, token) && At(s, i, token) && TokenEnd(s, i).value == i + |token|
    ensures i + |token| < |s| && 0 < gap && SpaceEnd(s, i + |token| + 1) == i + |token| + gap
    ensures At(s, i + |token|, Spaces(gap))
  {
    var e := TokenEnd(s, i).value;
    token, gap := s[i..e], SpaceEnd(s, e + 1) - e;
    AtAll(IsVisible, s, i, token);
    SpacesAt(s, e, gap);
  }

  /** The pieces of a first line; the block behind it is left open. */
  lemma FirstLineOf(s: seq<byte>) returns (t: RequestText)
    requires RequestLine(s).Got?
    ensures t.verb != [] && All(IsVisible, t.verb) && 0 < t.gap1 && t.path != [] && All(IsVisible, t.path) && 0 < t.gap2
    ensures t.minor < 10 && RequestLine(s).next == t.LinesAt()
    ensures At(s, 0, t.lead.Bytes()) && At(s, t.VerbAt(), t.verb) && At(s, t.VerbAt() + |t.verb|, Spaces(t.gap1))
    ensures At(s, t.PathAt(), t.path) && At(s, t.PathAt() + |t.path|, Spaces(t.gap2))
    ensures At(s, t.VersionAt(), VersionBytes(t.minor)) && At(s, t.VersionAt() + 8, t.eol.Bytes())
  {
    hide At, TokenEnd, SpaceEnd, VersionLine, HttpParse.Lead, Eol.Bytes, LeadText.Bytes, IsVisible, VersionBytes,
      Spaces, All;
    var lead := LeadOf(s);
    var i := |lead.Bytes()|;
    var verb, gap1 := TokenOf(s, i);
    var path, gap2 := TokenOf(s, i + |verb| + gap1);
    var v := i + |verb| + gap1 + |path| + gap2;
    var eol := VersionLineOf(s, v);
    t := RequestText(lead, verb, gap1, path, gap2, VersionLine(s, v).value, eol, [], Lf);
  }

  lemma VersionLineOf(s: seq<byte>, v: nat) returns (eol: Eol)
    requires VersionLine(s, v).Got?
    ensures VersionLine(s, v).value < 10 && At(s, v, VersionBytes(VersionLine(s, v).value))
    ensures At(s, v + 8, eol.Bytes()) && VersionLine(s, v).next == v + 8 + |eol.Bytes()|
  {
    hide At, Version, EolAt, VersionBytes, Eol.Bytes;
    VersionOf(s, v);
    EolBack(s, v + 8);
    eol := EolAt(s, v + 8).value;
  }

  lemma RequestOf(s: seq<byte>, max: nat) returns (t: RequestText)
    requires ParseRequest(s, max).Got?
    ensures t.WellFormed() && |t.lines| <= max && At(s, 0, t.Bytes())
  {
    hide At, BlockBytes, Headers, RequestLine, WellFormedLines, RequestText.Bytes, All;
    var first := FirstLineOf(s);
    var lines, end := BlockOf(s, first.LinesAt(), [], max);
    t := first.(lines := lines, end := end);
    RequestPieces(t, s);
  }

  ghost predicate IsRequest(t: RequestText, s: seq<byte>, r: Request, n: nat, max: nat) {
    t.WellFormed() && |t.lines| <= max && At(s, 0, t.Bytes()) && r == t.Parts() && n == |t.Bytes()|
  }

  /**
   The request parser returns `r` and consumes `n` bytes exactly when the input starts with a head of the
   grammar, `n` bytes long and with at most `max` header lines, whose parts are `r`.
   */
  lemma RequestExactly(s: seq<byte>, r: Request, n: nat, max: nat)
    ensures ParseRequest(s, max) == Got(r, n) <==> exists t :: IsRequest(t, s, r, n, max)
  {
    if ParseRequest(s, max) == Got(r, n) {
      var t := RequestOf(s, max);
      RequestRead(s, t, max);
      assert IsRequest(t, s, r, n, max);
    }
    if exists t :: IsRequest(t, s, r, n, max) {
      var t :| IsRequest(t, s, r, n, max);
      RequestRead(s, t, max);
    }
  }

  ghost predicate Holds(span: Span, s: seq<byte>, x: seq<byte>) {
    span.In(s) && span.Of(s) == x
  }

  /** The header points at the name and the value of the line. */
  ghost predicate Shows(h: Header, s: seq<byte>, line: Line) {
    match line
    case Field(name, _, rest) => h.name.Named? && Holds(h.name.span, s, name) && Holds(h.value, s, rest.value)
    case Fold(rest) => h.name.NoName? && Holds(h.value, s, rest.value)
  }

  ghost predicate ShowsAll(hs: seq<Header>, s: seq<byte>, lines: seq<Line>) {
    |hs| == |lines| && forall k :: 0 <= k < |lines| ==> Shows(hs[k], s, lines[k])
  }

  lemma HoldsAt(s: seq<byte>, i: nat, x: seq<byte>)
    requires At(s, i, x)
    ensures Holds(Span(i, |x|), s, x)
  {
  }

  lemma LineShown(s: seq<byte>, i: nat, line: Line)
    requires At(s, i, line.Bytes())
    ensures Shows(line.Parts(i), s, line)
  {
    hide At, Eol.Bytes;
    var rest := line.rest;
    var r := i + |line.Bytes()| - |rest.Bytes()|;
    if line.Field? { FieldPieces(s, i, line); }
    AtConcat(s, r, rest.value, rest.trail + rest.eol.Bytes());
    if line.Field? { HoldsAt(s, i, line.name); }
    HoldsAt(s, r, rest.value);
  }

  lemma {:induction false} BlockShown(s: seq<byte>, i: nat, lines: seq<Line>, end: Eol)
    requires At(s, i, BlockBytes(lines, end))
    ensures ShowsAll(BlockParts(lines, i), s, lines)
    decreases |lines|
  {
    hide At, Line.Bytes, Line.Parts, Shows;
    if lines != [] {
      var next := i + |lines[0].Bytes()|;
      AtConcat(s, i, lines[0].Bytes(), BlockBytes(lines[1..], end));
      LineShown(s, i, lines[0]);
      BlockShown(s, next, lines[1..], end);
      forall k | 0 <= k < |lines|
        ensures |BlockParts(lines, i)| == |lines| && Shows(BlockParts(lines, i)[k], s, lines[k])
      {
        if k > 0 {
          assert BlockParts(lines, i)[k] == BlockParts(lines[1..], next)[k - 1] && lines[k] == lines[1..][k - 1];
        }
      }
    }
  }

  /** Round trip: printing a head and parsing it, whatever follows, gives the parts back and consumes the print. */
  lemma RequestRoundTrip(t: RequestText, tail: seq<byte>, max: nat)
    requires t.WellFormed() && |t.lines| <= max
    ensures var s := t.Bytes() + tail;
            && ParseRequest(s, max) == Got(t.Parts(), |t.Bytes()|)
            && Holds(t.Parts().verb, s, t.verb) && Holds(t.Parts().path, s, t.path)
            && ShowsAll(t.Parts().headers, s, t.lines)
  {
    hide RequestText.Bytes, BlockBytes, WellFormedLines, ParseRequest, BlockParts;
    var s := t.Bytes() + tail;
    assert s[0..|t.Bytes()|] == t.Bytes();
    RequestRead(s, t, max);
    RequestPieces(t, s);
    BlockShown(s, t.LinesAt(), t.lines, t.end);
  }

  // ---------- responses ----------

  predicate IsStatus(digits: seq<byte>) { |digits| == 3 && All(IsDigit, digits) }

  /** Version, spaces, three digits, then the reason phrase behind spaces; an empty reason needs no space. */
  datatype ResponseText = ResponseText(minor: nat, gap1: nat, digits: seq<byte>, gap2: nat, reason: seq<byte>,
                                       eol: Eol, lines: seq<Line>, end: Eol)
  {
    predicate WellFormed() {
      && minor < 10 && 0 < gap1 && IsStatus(digits) && All(IsText, reason)
      && (reason != [] ==> 0 < gap2 && reason[0] != SP) && WellFormedLines(lines, true)
    }

    function DigitsAt(): nat { 8 + gap1 }
    function ReasonAt(): nat { DigitsAt() + 3 + gap2 }
    function LinesAt(): nat { ReasonAt() + |reason| + |eol.Bytes()| }

    function Bytes(): seq<byte>
      requires minor < 10
    {
      VersionBytes(minor)
          + (Spaces(gap1) + (digits + (Spaces(gap2) + (reason + (eol.Bytes() + BlockBytes(lines, end))))))
    }

    function StatusCode(): nat
      requires IsStatus(digits)
    {
      (digits[0] - DIGIT_0) * 100 + (digits[1] - DIGIT_0) * 10 + (digits[2] - DIGIT_0)
    }

    function Parts(): Response
      requires IsStatus(digits)
    {
      Response(minor, StatusCode(), Span(ReasonAt(), |reason|), BlockParts(lines, LinesAt()))
    }
  }

  ghost predicate ResponsePiecesAt(t: ResponseText, s: seq<byte>)
    requires t.minor < 10
  {
    && At(s, 0, VersionBytes(t.minor)) && At(s, 8, Spaces(t.gap1)) && At(s, 8 + t.gap1, t.digits)
    && At(s, t.DigitsAt() + |t.digits|, Spaces(t.gap2)) && At(s, t.DigitsAt() + |t.digits| + t.gap2, t.reason)
    && At(s, t.DigitsAt() + |t.digits| + t.gap2 + |t.reason|, t.eol.Bytes())
    && At(s, t.DigitsAt() + |t.digits| + t.gap2 + |t.reason| + |t.eol.Bytes()|, BlockBytes(t.lines, t.end))
  }

  lemma ResponsePieces(t: ResponseText, s: seq<byte>)
    requires t.minor < 10
    ensures At(s, 0, t.Bytes()) <==> ResponsePiecesAt(t, s)
    ensures |t.Bytes()| == t.LinesAt() - 3 + |t.digits| + |BlockBytes(t.lines, t.end)|
  {
    hide At, BlockBytes;
    var e := t.eol.Bytes() + BlockBytes(t.lines, t.end);
    var d := t.reason + e;
    var c := Spaces(t.gap2) + d;
    var b := t.digits + c;
    var i := t.DigitsAt() + |t.digits|;
    AtConcat(s, 0, VersionBytes(t.minor), Spaces(t.gap1) + b);
    AtConcat(s, 8, Spaces(t.gap1), b);
    AtConcat(s, t.DigitsAt(), t.digits, c);
    AtConcat(s, i, Spaces(t.gap2), d);
    AtConcat(s, i + t.gap2, t.reason, e);
    AtConcat(s, i + t.gap2 + |t.reason|, t.eol.Bytes(), BlockBytes(t.lines, t.end));
  }

  lemma SpacesAreText(s: seq<byte>, i: nat, j: nat)
    requires AllIn(b => b == SP, s, i, j)
    ensures AllIn(IsText, s, i, j)
  {
  }

  lemma EolStarts(eol: Eol)
    ensures eol.Bytes() != [] && (eol.Bytes()[0] == CR || eol.Bytes()[0] == LF)
  {
  }

  lemma TextJoined(s: seq<byte>, i: nat, m: nat, e: nat)
    requires AllIn(IsText, s, i, m) && AllIn(IsText, s, m, e)
    ensures AllIn(IsText, s, i, e)
  {
    hide IsText;
  }

  lemma FirstSpace(s: seq<byte>, i: nat, m: nat)
    requires AllIn(b => b == SP, s, i, m) && i < m
    ensures s[i] == SP
  {
  }

  lemma ReasonRead(s: seq<byte>, i: nat, gap: nat, reason: seq<byte>, eol: Eol)
    requires All(IsText, reason) && (reason != [] ==> 0 < gap && reason[0] != SP)
    requires At(s, i, Spaces(gap)) && At(s, i + gap, reason) && At(s, i + gap + |reason|, eol.Bytes())
    ensures HttpParse.ReasonAt(s, i) == Got(Span(i + gap, |reason|), i + gap + |reason| + |eol.Bytes()|)
  {
    hide At, EolAt, AllIn, Eol.Bytes, Spaces, TextEnd, SpaceEnd, All, IsText;
    var m, e := i + gap, i + gap + |reason|;
    SpacesAt(s, i, gap);
    SpacesAreText(s, i, m);
    AtAll(IsText, s, m, reason);
    EolFound(s, e, eol);
    EolStarts(eol);
    AtHead(s, e, eol.Bytes());
    TextJoined(s, i, m, e);
    TextEndAt(s, i, e);
    if reason != [] { AtHead(s, m, reason); }
    if i < e {
      SpaceEndAt(s, i, m);
      if gap > 0 { FirstSpace(s, i, m); }
    }
  }

  lemma ReasonOf(s: seq<byte>, i: nat) returns (gap: nat, reason: seq<byte>, eol: Eol)
    requires i <= |s| && HttpParse.ReasonAt(s, i).Got?
    ensures All(IsText, reason) && (reason != [] ==> 0 < gap && reason[0] != SP)
    ensures At(s, i, Spaces(gap)) && At(s, i + gap, reason) && At(s, i + gap + |reason|, eol.Bytes())
    ensures HttpParse.ReasonAt(s, i).next == i + gap + |reason| + |eol.Bytes()|
  {
    var e := TextEnd(s, i).value;
    eol := EolAt(s, e).value;
    EolBack(s, e);
    if i < e { SpacesStop(s, i, e); }
    var m := if i < e then SpaceEnd(s, i) else i;
    gap, reason := m - i, s[m..e];
    SpacesAt(s, i, gap);
    AtAll(IsText, s, m, reason);
  }

  lemma DigitsRead(s: seq<byte>, i: nat, digits: seq<byte>)
    requires At(s, i, digits) && |digits| == 3
    ensures HasStatus(s, i) <==> IsStatus(digits)
    ensures HasStatus(s, i) ==>
            Status(s, i) == (digits[0] - DIGIT_0) * 100 + (digits[1] - DIGIT_0) * 10 + (digits[2] - DIGIT_0)
  {
    assert s[i] == digits[0] && s[i + 1] == digits[1] && s[i + 2] == digits[2];
  }

  /** Version and spaces in front of the status. */
  lemma BeforeStatusRead(s: seq<byte>, t: ResponseText)
    requires t.WellFormed() && ResponsePiecesAt(t, s)
    ensures Version(s, 0) == Got(t.minor, 8) && |s| > 8 && s[8] == SP && SpaceEnd(s, 8) == t.DigitsAt()
  {
    hide At, BlockBytes, Version, SpaceEnd, WellFormedLines, IsText, Eol.Bytes, VersionBytes;
    AtHead(s, 8, Spaces(t.gap1));
    AtHead(s, t.DigitsAt(), t.digits);
    VersionRead(s, 0, t.minor);
    SpacesAt(s, 8, t.gap1);
    DigitIsNoSpace(t.digits);
    SpaceEndAt(s, 8, t.DigitsAt());
  }

  lemma StatusLineRead(s: seq<byte>, t: ResponseText)
    requires t.WellFormed() && ResponsePiecesAt(t, s)
    ensures Version(s, 0) == Got(t.minor, 8) && |s| > 8 && s[8] == SP && SpaceEnd(s, 8) == t.DigitsAt()
    ensures |s| - t.DigitsAt() >= 4 && HasStatus(s, t.DigitsAt()) && Status(s, t.DigitsAt()) == t.StatusCode()
    ensures HttpParse.ReasonAt(s, t.DigitsAt() + 3) == Got(Span(t.ReasonAt(), |t.reason|), t.LinesAt())
  {
    hide At, BlockBytes, Version, SpaceEnd, EolAt, WellFormedLines, HttpParse.ReasonAt, IsText, Eol.Bytes,
      VersionBytes, HasStatus, Status, All, AllIn;
    BeforeStatusRead(s, t);
    AtHead(s, t.LinesAt(), BlockBytes(t.lines, t.end));
    DigitsRead(s, t.DigitsAt(), t.digits);
    ReasonRead(s, t.DigitsAt() + 3, t.gap2, t.reason, t.eol);
  }

  lemma DigitIsNoSpace(digits: seq<byte>)
    requires IsStatus(digits)
    ensures digits[0] != SP
  {
  }

  lemma ResponseRead(s: seq<byte>, t: ResponseText, max: nat)
    requires t.WellFormed() && |t.lines| <= max && At(s, 0, t.Bytes())
    ensures ParseResponse(s, max) == Got(t.Parts(), |t.Bytes()|)
  {
    hide At, BlockBytes, Headers, Version, SpaceEnd, HttpParse.ReasonAt, WellFormedLines, BlockParts, HasStatus, Status;
    hide ResponseText.Bytes, AllIn, Eol.Bytes, IsText;
    ResponsePieces(t, s);
    StatusLineRead(s, t);
    BlockRead(s, t.LinesAt(), t.lines, t.end, [], max);
    assert [] + BlockParts(t.lines, t.LinesAt()) == BlockParts(t.lines, t.LinesAt());
  }

  lemma ResponseOf(s: seq<byte>, max: nat) returns (t: ResponseText)
    requires ParseResponse(s, max).Got?
    ensures t.WellFormed() && |t.lines| <= max && At(s, 0, t.Bytes())
  {
    hide At, BlockBytes, Headers, Version, SpaceEnd, HttpParse.ReasonAt, WellFormedLines, BlockParts, HasStatus, Status;
    hide ResponseText.Bytes, Eol.Bytes, IsText, VersionBytes, All, IsStatus;
    VersionOf(s, 0);
    var d := SpaceEnd(s, 8);
    SpacesAt(s, 8, d - 8);
    var digits := s[d..d + 3];
    assert At(s, d, digits) by { Sliced(s, d, d + 3); }
    DigitsRead(s, d, digits);
    var gap2, reason, eol := ReasonOf(s, d + 3);
    var lines, end := BlockOf(s, HttpParse.ReasonAt(s, d + 3).next, [], max);
    t := ResponseText(Version(s, 0).value, d - 8, digits, gap2, reason, eol, lines, end);
    ResponsePieces(t, s);
    SpaceCount(s, d);
  }

  lemma Sliced(s: seq<byte>, i: nat, j: nat)
    requires i <= j <= |s|
    ensures At(s, i, s[i..j])
  {
  }

  lemma SpaceCount(s: seq<byte>, d: nat)
    requires 8 < |s| && s[8] == SP && d == SpaceEnd(s, 8)
    ensures d > 8
  {
  }

  ghost predicate IsResponse(t: ResponseText, s: seq<byte>, r: Response, n: nat, max: nat) {
    t.WellFormed() && |t.lines| <= max && At(s, 0, t.Bytes()) && r == t.Parts() && n == |t.Bytes()|
  }

  lemma ResponseExactly(s: seq<byte>, r: Response, n: nat, max: nat)
    ensures ParseResponse(s, max) == Got(r, n) <==> exists t :: IsResponse(t, s, r, n, max)
  {
    if ParseResponse(s, max) == Got(r, n) {
      var t := ResponseOf(s, max);
      ResponseRead(s, t, max);
      assert IsResponse(t, s, r, n, max);
    }
    if exists t :: IsResponse(t, s, r, n, max) {
      var t :| IsResponse(t, s, r, n, max);
      ResponseRead(s, t, max);
    }
  }

  lemma ResponseRoundTrip(t: ResponseText, tail: seq<byte>, max: nat)
    requires t.WellFormed() && |t.lines| <= max
    ensures var s := t.Bytes() + tail;
            && ParseResponse(s, max) == Got(t.Parts(), |t.Bytes()|) && t.Parts().status < 1000
            && Holds(t.Parts().reason, s, t.reason) && ShowsAll(t.Parts().headers, s, t.lines)
  {
    hide ResponseText.Bytes, BlockBytes, WellFormedLines, ParseResponse, BlockParts;
    var s := t.Bytes() + tail;
    assert s[0..|t.Bytes()|] == t.Bytes();
    ResponseRead(s, t, max);
    ResponsePieces(t, s);
    BlockShown(s, t.LinesAt(), t.lines, t.end);
  }
}
