/**
 When the parsers ask for more and when they report an error: an error means that no continuation of the input
 parses, and with few exceptions, said on the bytes, asking for more means that one does.
 */
module HttpVerdict {
  import opened Bytes
  import opened Common
  import opened HttpScan
  import opened HttpParse
  import opened HttpGrammar
  import opened HttpMessages

  // ---------- header blocks ----------

  /** A text that has not ended is ended by an LF. */
  lemma {:induction false} FinishText(s: seq<byte>, i: nat)
    requires TextEnd(s, i).Partial? && i <= |s|
    ensures TextEnd(s + [LF], i).Got? && TextEnd(s + [LF], i).next == |s| + 1
    decreases |s| - i
  {
    if i < |s| && IsText(s[i]) { FinishText(s, i + 1); }
  }

  lemma FinishValue(s: seq<byte>, i: nat)
    requires ValueAt(s, i).Partial? && i <= |s|
    ensures ValueAt(s + [LF], i).Got? && ValueAt(s + [LF], i).next == |s| + 1
  {
    hide TextEnd, TrimEnd;
    FinishText(s, i);
  }

  lemma {:induction false} PartialName(s: seq<byte>, i: nat)
    requires NameEnd(s, i).Partial? && i <= |s|
    ensures AllIn(IsTokenChar, s, i, |s|)
    decreases |s| - i
  {
    if i < |s| { PartialName(s, i + 1); }
  }

  lemma {:induction false} PartialBlank(s: seq<byte>, i: nat)
    requires BlankEnd(s, i).Partial? && i <= |s|
    ensures AllIn(IsBlank, s, i, |s|)
    decreases |s| - i
  {
    if i < |s| { PartialBlank(s, i + 1); }
  }

  /** A name that has not ended is completed by a colon and an LF. */
  lemma FinishName(s: seq<byte>, i: nat)
    requires NameEnd(s, i).Partial? && i < |s|
    ensures var s' := s + [COLON, LF];
            && NameEnd(s', i) == Got(|s|, |s| + 1) && BlankEnd(s', |s| + 1) == Got(|s| + 1, |s| + 1)
            && ValueAt(s', |s| + 1).Got? && ValueAt(s', |s| + 1).next == |s'|
  {
    hide NameEnd, BlankEnd, TrimEnd;
    var s' := s + [COLON, LF];
    PartialName(s, i);
    NameEndAt(s', i, |s|);
    BlankEndAt(s', |s| + 1, |s| + 1);
    assert TextEnd(s', |s| + 1) == Got(|s| + 1, |s| + 2);
  }

  lemma FinishHeader(s: seq<byte>, i: nat, mayFold: bool) returns (t: seq<byte>)
    requires i < |s| && HeaderAt(s, i, mayFold).Partial?
    ensures HeaderAt(s + t, i, mayFold).Got? && HeaderAt(s + t, i, mayFold).next == |s + t|
  {
    hide NameEnd, BlankEnd, ValueAt;
    if mayFold && IsBlank(s[i]) {
      FinishValue(s, i);
      t := [LF];
    } else if NameEnd(s, i).Partial? {
      FinishName(s, i);
      t := [COLON, LF];
    } else {
      var j := NameEnd(s, i).next;
      t := [LF];
      NameEndKept(s, s + t, i);
      if BlankEnd(s, j).Partial? {
        PartialBlank(s, j);
        BlankEndAt(s + t, j, |s|);
        assert ValueAt(s + t, |s|).Got? && ValueAt(s + t, |s|).next == |s| + 1 by { EmptyValue(s); }
      } else {
        BlankEndKept(s, s + t, j);
        FinishValue(s, BlankEnd(s, j).value);
      }
    }
  }

  lemma EmptyValue(s: seq<byte>)
    ensures ValueAt(s + [LF], |s|).Got? && ValueAt(s + [LF], |s|).next == |s| + 1
  {
    assert TextEnd(s + [LF], |s|) == Got(|s|, |s| + 1);
  }

  lemma BlankLineEnds(s: seq<byte>, i: nat, hs: seq<Header>, max: nat)
    requires i < |s| && s[i] == LF
    ensures Headers(s, i, hs, max).Got?
  {
  }

  /** A block that is waited for can be completed. */
  lemma {:induction false} FinishHeaders(s: seq<byte>, i: nat, hs: seq<Header>, max: nat) returns (t: seq<byte>)
    requires Headers(s, i, hs, max).Partial? && i <= |s|
    ensures Headers(s + t, i, hs, max).Got?
    decreases |s| - i
  {
    hide HeaderAt;
    if i == |s| {
      t := [LF];
      BlankLineEnds(s + t, i, hs, max);
    } else if s[i] == CR || s[i] == LF {
      t := [LF];
      assert (s + t)[i] == CR && (s + t)[i + 1] == LF;
    } else {
      var h := HeaderAt(s, i, |hs| != 0);
      if h.Got? {
        t := FinishHeaders(s, h.next, hs + [h.value], max);
        HeaderKept(s, s + t, i, |hs| != 0);
      } else {
        var u := FinishHeader(s, i, |hs| != 0);
        t := u + [LF];
        assert s + t == (s + u) + [LF];
        HeaderKept(s + u, s + t, i, |hs| != 0);
        var h' := HeaderAt(s + t, i, |hs| != 0);
        BlankLineEnds(s + t, h'.next, hs + [h'.value], max);
      }
    }
  }

  /** A header block is an error exactly when no continuation of it parses. */
  lemma HeadersVerdict(s: seq<byte>, max: nat)
    ensures ParseHeaders(s, max).Bad? <==> forall t :: !ParseHeaders(s + t, max).Got?
  {
    hide Headers;
    var r := ParseHeaders(s, max);
    if r.Bad? {
      forall t ensures !ParseHeaders(s + t, max).Got? { HeadersKept(s, s + t, 0, [], max); }
    } else if r.Partial? {
      var t := FinishHeaders(s, 0, [], max);
      assert ParseHeaders(s + t, max).Got?;
    } else {
      assert s + [] == s;
    }
  }

  // ---------- requests ----------

  /** Some continuation parses. */
  ghost predicate RequestCan(s: seq<byte>, max: nat) { exists t :: ParseRequest(s + t, max).Got? }

  /** What may stand where the version is looked for: the beginning of `HTTP/1.` and a digit. */
  ghost predicate VersionBegins(v: seq<byte>) { exists minor :: 0 <= minor < 10 && v <= VersionBytes(minor) }

  /** The method is missing, and the path has not ended. */
  ghost predicate MethodMissing(s: seq<byte>) {
    exists lead: LeadText, gap: nat, x :: NoMethod(s, lead, gap, x)
  }

  ghost predicate NoMethod(s: seq<byte>, lead: LeadText, gap: nat, x: seq<byte>) {
    gap > 0 && All(IsVisible, x) && s == lead.Bytes() + (Spaces(gap) + x)
  }

  /** Method and path, and behind them fewer than nine bytes that are no version. */
  ghost predicate VersionWrong(s: seq<byte>) {
    exists t: RequestText, v :: WrongVersion(s, t, v)
  }

  ghost predicate WrongVersion(s: seq<byte>, t: RequestText, v: seq<byte>) {
    && t.verb != [] && All(IsVisible, t.verb) && t.gap1 > 0 && t.path != [] && All(IsVisible, t.path) && t.gap2 > 0
    && s == Front(t) + v && 0 < |v| < 9 && v[0] != SP && !VersionBegins(v)
  }

  /** A first line up to the version. */
  function Front(t: RequestText): seq<byte> {
    t.lead.Bytes() + (t.verb + (Spaces(t.gap1) + (t.path + Spaces(t.gap2))))
  }

  /** The beginning of a well-formed head can be continued to one. */
  lemma RequestGoesOn(s: seq<byte>, t: RequestText, max: nat)
    requires t.WellFormed() && |t.lines| <= max && s <= t.Bytes()
    ensures RequestCan(s, max)
  {
    hide RequestText.Bytes, ParseRequest;
    var head := t.Bytes();
    var rest := head[|s|..];
    assert s + rest == head && head[0..|head|] == head;
    RequestRead(head, t, max);
  }

  /** A head without fields. */
  function Plain(lead: LeadText, verb: seq<byte>, gap1: nat, path: seq<byte>, gap2: nat, minor: nat,
                 eol: Eol): RequestText {
    RequestText(lead, verb, gap1, path, gap2, minor, eol, [], Lf)
  }

  /** It starts with its pieces, one by one. */
  lemma PlainStarts(t: RequestText)
    requires t.minor < 10
    ensures t.lead.Bytes() + t.verb <= t.Bytes()
    ensures t.lead.Bytes() + (t.verb + (Spaces(t.gap1) + t.path)) <= t.Bytes()
    ensures Front(t) + VersionBytes(t.minor) <= t.Bytes()
    ensures Front(t) + (VersionBytes(t.minor) + t.eol.Bytes()) <= t.Bytes()
  {
    hide VersionBytes, Spaces, Eol.Bytes, LeadText.Bytes, BlockBytes;
    var b := t.eol.Bytes() + BlockBytes(t.lines, t.end);
    var c := VersionBytes(t.minor) + b;
    var all := t.Bytes();
    StartsJoin(t.lead.Bytes(), t.verb, Spaces(t.gap1) + (t.path + (Spaces(t.gap2) + c)));
    assert all == (t.lead.Bytes() + (t.verb + (Spaces(t.gap1) + t.path))) + (Spaces(t.gap2) + c);
    assert all == (Front(t) + VersionBytes(t.minor)) + b;
    assert all == (Front(t) + (VersionBytes(t.minor) + t.eol.Bytes())) + BlockBytes(t.lines, t.end);
  }

  lemma StartsJoin(a: seq<byte>, b: seq<byte>, c: seq<byte>)
    ensures a + b <= a + (b + c)
  {
    assert a + (b + c) == (a + b) + c;
  }

  lemma TokenOpenTail(s: seq<byte>, i: nat)
    requires i <= |s|
    ensures TokenEnd(s, i).Partial? <==> All(IsVisible, s[i..])
  {
    hide IsVisible, All, AllIn, TokenEnd;
    assert At(s, i, s[i..]);
    AtAll(IsVisible, s, i, s[i..]);
    TokenOpen(s, i);
  }

  lemma Begins(s: seq<byte>, a: seq<byte>)
    requires At(s, 0, a)
    ensures s == a + s[|a|..]
  {
    assert s[0..|a|] == s[..|a|];
  }

  lemma Next(s: seq<byte>, i: nat, a: seq<byte>)
    requires At(s, i, a)
    ensures i + |a| <= |s| && s[i..] == a + s[i + |a|..]
  {
  }

  const LETTER: seq<byte> := [65]
  const SLASH: seq<byte> := [47]

  lemma Letters()
    ensures All(IsVisible, LETTER) && All(IsVisible, SLASH) && LETTER != [] && SLASH != []
  {
  }

  /** Nothing yet, or a CR: everything is still open. */
  lemma AtLead(s: seq<byte>, max: nat)
    requires HttpParse.Lead(s).Partial?
    ensures RequestCan(s, max)
  {
    Letters();
    if s == [] {
      var t := Plain(NoLead, LETTER, 1, SLASH, 1, 0, Lf);
      RequestGoesOn(s, t, max);
    } else {
      var t := Plain(LeadText.Lead(CrLf), LETTER, 1, SLASH, 1, 0, Lf);
      PlainStarts(t);
      assert s == [CR] && s <= t.lead.Bytes() <= t.Bytes();
      RequestGoesOn(s, t, max);
    }
  }

  /** In the method. */
  lemma AtMethod(s: seq<byte>, lead: LeadText, max: nat)
    requires |lead.Bytes()| <= |s| && At(s, 0, lead.Bytes()) && All(IsVisible, s[|lead.Bytes()|..])
    ensures RequestCan(s, max)
  {
    hide All, RequestText.Bytes, LeadText.Bytes, IsVisible, At;
    Letters();
    var x := s[|lead.Bytes()|..];
    Begins(s, lead.Bytes());
    var t := Plain(lead, if x == [] then LETTER else x, 1, SLASH, 1, 0, Lf);
    PlainStarts(t);
    StartsWithout(lead.Bytes(), x, t.verb, t.Bytes());
    RequestGoesOn(s, t, max);
  }

  lemma StartsWithout(a: seq<byte>, x: seq<byte>, y: seq<byte>, all: seq<byte>)
    requires a + y <= all && (x == [] || x == y)
    ensures a + x <= all
  {
    assert x == [] ==> a + x <= a + y;
  }

  /** In the path. */
  lemma AtPath(s: seq<byte>, lead: LeadText, verb: seq<byte>, gap: nat, x: seq<byte>, max: nat)
    requires verb != [] && All(IsVisible, verb) && gap > 0 && All(IsVisible, x)
    requires s == lead.Bytes() + (verb + (Spaces(gap) + x))
    ensures RequestCan(s, max)
  {
    hide All, RequestText.Bytes, LeadText.Bytes, IsVisible, Spaces;
    Letters();
    var path := if x == [] then SLASH else x;
    var t := Plain(lead, verb, gap, path, 1, 0, Lf);
    PlainStarts(t);
    var a := lead.Bytes() + (verb + Spaces(gap));
    assert s == a + x && t.lead.Bytes() + (t.verb + (Spaces(t.gap1) + t.path)) == a + path;
    StartsWithout(a, x, path, t.Bytes());
    RequestGoesOn(s, t, max);
  }

  /** Behind the path: the version, or what cannot become one. */
  lemma AtVersion(s: seq<byte>, t: RequestText, v: seq<byte>, max: nat)
    requires t.verb != [] && All(IsVisible, t.verb) && t.gap1 > 0 && t.path != [] && All(IsVisible, t.path)
            && t.gap2 > 0
    requires s == Front(t) + v && |v| < 9 && (v == [] || v[0] != SP)
    ensures RequestCan(s, max) || VersionWrong(s)
  {
    hide All, RequestText.Bytes, IsVisible, Front, VersionBytes;
    if VersionBegins(v) {
      var minor :| 0 <= minor < 10 && v <= VersionBytes(minor);
      var t' := Plain(t.lead, t.verb, t.gap1, t.path, t.gap2, minor, Lf);
      assert Front(t') == Front(t) by { SameFront(t, t'); }
      PlainStarts(t');
      StartsLonger(Front(t), v, VersionBytes(minor), t'.Bytes());
      RequestGoesOn(s, t', max);
    } else {
      if v == [] { EmptyBegins(); }
      assert WrongVersion(s, t, v);
    }
  }

  lemma SameFront(t: RequestText, t': RequestText)
    requires t.lead == t'.lead && t.verb == t'.verb && t.gap1 == t'.gap1 && t.path == t'.path && t.gap2 == t'.gap2
    ensures Front(t) == Front(t')
  {
  }

  lemma EmptyBegins()
    ensures VersionBegins([])
  {
    assert [] <= VersionBytes(0);
  }

  lemma StartsLonger(a: seq<byte>, x: seq<byte>, y: seq<byte>, all: seq<byte>)
    requires a + y <= all && x <= y
    ensures a + x <= all
  {
    assert a + x <= a + y;
  }

  /** Behind the version a CR has come. */
  lemma AtLineEnd(s: seq<byte>, t: RequestText, max: nat)
    requires t.WellFormed() && t.lines == [] && t.eol == CrLf && s == Front(t) + (VersionBytes(t.minor) + [CR])
    ensures RequestCan(s, max)
  {
    hide All, RequestText.Bytes, IsVisible, Front, VersionBytes;
    PlainStarts(t);
    assert VersionBytes(t.minor) + [CR] <= VersionBytes(t.minor) + t.eol.Bytes();
    StartsLonger(Front(t), VersionBytes(t.minor) + [CR], VersionBytes(t.minor) + t.eol.Bytes(), t.Bytes());
    RequestGoesOn(s, t, max);
  }

  /** In the header block. */
  lemma AtHeaders(s: seq<byte>, max: nat)
    requires RequestLine(s).Got? && Headers(s, RequestLine(s).next, [], max).Partial?
    ensures RequestCan(s, max)
  {
    hide RequestLine, Headers;
    var t := FinishHeaders(s, RequestLine(s).next, [], max);
    RequestLineKept(s, s + t);
    assert ParseRequest(s + t, max).Got?;
  }

  /** The pieces up to the path, or the reason why it is waited for before. */
  lemma FirstTokens(s: seq<byte>, max: nat) returns (lead: LeadText, verb: seq<byte>, gap: nat)
    requires ParseRequest(s, max).Partial?
    ensures RequestCan(s, max)
            || (&& At(s, 0, lead.Bytes()) && At(s, |lead.Bytes()|, verb) && At(s, |lead.Bytes()| + |verb|, Spaces(gap))
                && HttpParse.Lead(s) == Got(|lead.Bytes()|, |lead.Bytes()|) && All(IsVisible, verb) && gap > 0
                && TokenEnd(s, |lead.Bytes()|) == Got(|lead.Bytes()| + |verb|, |lead.Bytes()| + |verb|)
                && |lead.Bytes()| + |verb| < |s|
                && SpaceEnd(s, |lead.Bytes()| + |verb| + 1) == |lead.Bytes()| + |verb| + gap)
  {
    hide HttpParse.Lead, TokenEnd, SpaceEnd, Target, LeadText.Bytes, Spaces, All, IsVisible, At, Headers;
    lead, verb, gap := NoLead, [], 0;
    if HttpParse.Lead(s).Partial? {
      AtLead(s, max);
    } else {
      lead := LeadOf(s);
      var i := |lead.Bytes()|;
      if TokenEnd(s, i).Partial? {
        TokenOpenTail(s, i);
        AtMethod(s, lead, max);
      } else {
        verb, gap := TokenOf(s, i);
      }
    }
  }

  /** Why a request is waited for. */
  lemma WaitsFor(s: seq<byte>, max: nat)
    requires ParseRequest(s, max).Partial?
    ensures RequestCan(s, max) || MethodMissing(s) || VersionWrong(s)
  {
    hide HttpParse.Lead, TokenEnd, SpaceEnd, Target, LeadText.Bytes, Spaces, All, IsVisible, At, Headers, RequestCan;
    var lead, verb, gap := FirstTokens(s, max);
    if !RequestCan(s, max) {
      var i := |lead.Bytes()|;
      var j := i + |verb| + gap;
      if RequestLine(s).Got? {
        AtHeaders(s, max);
      } else {
        WaitsBehind(s, lead, verb, gap, max);
      }
    }
  }

  lemma WaitsBehind(s: seq<byte>, lead: LeadText, verb: seq<byte>, gap: nat, max: nat)
    requires At(s, 0, lead.Bytes()) && At(s, |lead.Bytes()|, verb) && At(s, |lead.Bytes()| + |verb|, Spaces(gap))
    requires All(IsVisible, verb) && gap > 0
    requires Target(s, Between(|lead.Bytes()|, |lead.Bytes()| + |verb|), |lead.Bytes()| + |verb| + gap).Partial?
    requires var j := |lead.Bytes()| + |verb| + gap; j < |s| ==> s[j] != SP
    ensures RequestCan(s, max) || MethodMissing(s) || VersionWrong(s)
  {
    hide TokenEnd, SpaceEnd, LeadText.Bytes, Spaces, All, IsVisible, RequestCan, VersionLine, At, MethodMissing;
    var j := |lead.Bytes()| + |verb| + gap;
    if TokenEnd(s, j).Partial? {
      InPath(s, lead, verb, gap, max);
    } else {
      var path, gap2 := TokenOf(s, j);
      WaitsForVersion(s, Plain(lead, verb, gap, path, gap2, 0, CrLf), max);
    }
  }

  lemma InPath(s: seq<byte>, lead: LeadText, verb: seq<byte>, gap: nat, max: nat)
    requires At(s, 0, lead.Bytes()) && At(s, |lead.Bytes()|, verb) && At(s, |lead.Bytes()| + |verb|, Spaces(gap))
    requires All(IsVisible, verb) && gap > 0 && TokenEnd(s, |lead.Bytes()| + |verb| + gap).Partial?
    ensures RequestCan(s, max) || MethodMissing(s)
  {
    hide TokenEnd, LeadText.Bytes, Spaces, All, IsVisible, RequestCan, At;
    var j := |lead.Bytes()| + |verb| + gap;
    Joined3(s, lead.Bytes(), verb, Spaces(gap));
    TokenOpenTail(s, j);
    if verb == [] {
      assert verb + (Spaces(gap) + s[j..]) == Spaces(gap) + s[j..];
      assert NoMethod(s, lead, gap, s[j..]);
    } else {
      AtPath(s, lead, verb, gap, s[j..], max);
    }
  }

  lemma Joined3(s: seq<byte>, a: seq<byte>, b: seq<byte>, c: seq<byte>)
    requires At(s, 0, a) && At(s, |a|, b) && At(s, |a| + |b|, c)
    ensures |a| + |b| + |c| <= |s| && s == a + (b + (c + s[|a| + |b| + |c|..]))
  {
    Begins(s, a);
    Next(s, |a|, b);
    Next(s, |a| + |b|, c);
  }

  lemma WaitsForVersion(s: seq<byte>, t: RequestText, max: nat)
    requires t.WellFormed() && t.lines == [] && t.eol == CrLf && FrontIn(s, t)
    requires t.VersionAt() < |s| ==> s[t.VersionAt()] != SP
    requires VersionLine(s, t.VersionAt()).Partial?
    ensures RequestCan(s, max) || VersionWrong(s)
  {
    hide RequestCan, VersionWrong, Version, EolAt, WellFormedLines, All, IsVisible, FrontIn, LeadText.Bytes,
      VersionBytes,
      Front, At;
    var k := t.VersionAt();
    FrontThere(s, t);
    if Version(s, k).Partial? {
      VersionExactly(s, k, 0);
      AtVersion(s, t, s[k..], max);
    } else {
      VersionOf(s, k);
      var minor := Version(s, k).value;
      CrPending(s, k, minor);
      var t' := t.(minor := minor);
      SameFront(t, t');
      AtLineEnd(s, t', max);
    }
  }

  lemma FrontThere(s: seq<byte>, t: RequestText)
    requires FrontIn(s, t)
    ensures t.VersionAt() <= |s| && s == Front(t) + s[t.VersionAt()..]
  {
    hide LeadText.Bytes, Spaces, At, Front, FrontIn;
    FrontPieces(s, t);
    Begins(s, Front(t));
  }

  lemma CrPending(s: seq<byte>, k: nat, minor: nat)
    requires minor < 10 && At(s, k, VersionBytes(minor)) && EolAt(s, k + 8).Partial? && k + 8 < |s|
    ensures s[k..] == VersionBytes(minor) + [CR]
  {
    assert s[k + 8..] == [CR];
    Next(s, k, VersionBytes(minor));
  }

  /** Without a method the parser waits for the end of the path. */
  lemma NoMethodWaits(s: seq<byte>, lead: LeadText, gap: nat, x: seq<byte>, max: nat)
    requires NoMethod(s, lead, gap, x)
    ensures ParseRequest(s, max).Partial?
  {
    hide All, IsVisible, LeadText.Bytes, TokenEnd, SpaceEnd, At, HttpParse.Lead;
    var i := |lead.Bytes()|;
    var j := i + gap;
    FirstIsSpace(s, lead, gap, x);
    LeadRead(s, lead);
    TokenEndAt(s, i, i);
    if x == [] {
      SpacesToEnd(s, i + 1);
      assert s[j..] == x;
    } else {
      VisibleFirst(x);
      SpaceEndAt(s, i + 1, j);
      assert s[j..] == x;
    }
    TokenOpenTail(s, j);
  }

  lemma FirstIsSpace(s: seq<byte>, lead: LeadText, gap: nat, x: seq<byte>)
    requires gap > 0 && s == lead.Bytes() + (Spaces(gap) + x)
    ensures var i := |lead.Bytes()|;
            && i + gap <= |s| && s[i] == SP && At(s, 0, lead.Bytes()) && (lead.NoLead? ==> s[0] == SP)
            && AllIn(b => b == SP, s, i, i + gap) && s[i + gap..] == x && (x != [] ==> s[i + gap] == x[0])
  {
    assert s[0..|lead.Bytes()|] == lead.Bytes();
  }

  lemma VisibleFirst(x: seq<byte>)
    requires x != [] && All(IsVisible, x)
    ensures x[0] != SP
  {
  }

  lemma {:induction false} SpacesToEnd(s: seq<byte>, i: nat)
    requires i <= |s| && AllIn(b => b == SP, s, i, |s|)
    ensures SpaceEnd(s, i) == |s|
    decreases |s| - i
  {
    if i < |s| { SpacesToEnd(s, i + 1); }
  }

  /** With fewer than nine bytes for the version the parser waits, whatever they are. */
  lemma WrongVersionWaits(s: seq<byte>, t: RequestText, v: seq<byte>, max: nat)
    requires WrongVersion(s, t, v)
    ensures ParseRequest(s, max).Partial?
  {
    hide LeadText.Bytes, Spaces, All, IsVisible, TokenEnd, SpaceEnd, HttpParse.Lead, VersionBegins, Version, At, Front,
      FrontIn, VersionLine, Headers;
    FrontAt(s, t, v);
    FrontScans(s, t);
    ShortVersion(s, t.VersionAt());
  }

  lemma ShortVersion(s: seq<byte>, k: nat)
    requires |s| < k + 9
    ensures VersionLine(s, k).Partial?
  {
  }

  lemma FrontAt(s: seq<byte>, t: RequestText, v: seq<byte>)
    requires t.verb != [] && All(IsVisible, t.verb) && t.path != [] && All(IsVisible, t.path)
    requires s == Front(t) + v && v != []
    ensures FrontIn(s, t)
    ensures |s| == t.VersionAt() + |v| && s[t.VersionAt()] == v[0]
    ensures s[t.PathAt()] != SP && (t.lead.NoLead? ==> s[0] != CR && s[0] != LF)
  {
    hide LeadText.Bytes, Spaces, All, IsVisible, At, Front;
    AtWhole(s);
    AtConcat(s, 0, Front(t), v);
    FrontPieces(s, t);
    AtHead(s, t.VersionAt(), v);
    FrontStarts(s, t);
    VisibleFirst(t.path);
    VerbFirst(t.verb);
  }

  lemma FrontStarts(s: seq<byte>, t: RequestText)
    requires FrontIn(s, t) && t.verb != [] && t.path != []
    ensures t.PathAt() < |s| && s[t.PathAt()] == t.path[0] && (t.lead.NoLead? ==> s[0] == t.verb[0])
  {
    hide At, Spaces, LeadText.Bytes;
    AtHead(s, t.VerbAt(), t.verb);
    AtHead(s, t.PathAt(), t.path);
    if t.lead.NoLead? { NoLeadBytes(t.lead); }
  }

  lemma FrontPieces(s: seq<byte>, t: RequestText)
    ensures At(s, 0, Front(t)) <==> FrontIn(s, t)
    ensures |Front(t)| == t.VersionAt()
  {
    hide LeadText.Bytes, Spaces, At;
    var c := t.path + Spaces(t.gap2);
    var b := Spaces(t.gap1) + c;
    AtConcat(s, 0, t.lead.Bytes(), t.verb + b);
    AtConcat(s, t.VerbAt(), t.verb, b);
    AtConcat(s, t.VerbAt() + |t.verb|, Spaces(t.gap1), c);
    AtConcat(s, t.PathAt(), t.path, Spaces(t.gap2));
  }

  lemma AtWhole(s: seq<byte>)
    ensures At(s, 0, s)
  {
    assert s[0..|s|] == s;
  }

  lemma VerbFirst(x: seq<byte>)
    requires x != [] && All(IsVisible, x)
    ensures x[0] != CR && x[0] != LF
  {
  }

  lemma NoLeadBytes(lead: LeadText)
    requires lead.NoLead?
    ensures lead.Bytes() == []
  {
  }

  /**
   A request is waited for exactly when it has not parsed and either some continuation of it parses, or the method is
   missing and the path has not ended, or fewer than nine bytes, which are no version, stand behind the path. In all
   other cases in which it does not parse it is an error.
   */
  lemma RequestVerdict(s: seq<byte>, max: nat)
    ensures ParseRequest(s, max).Partial?
       <==> !ParseRequest(s, max).Got? && (RequestCan(s, max) || MethodMissing(s) || VersionWrong(s))
    ensures ParseRequest(s, max).Bad? ==> forall t :: !ParseRequest(s + t, max).Got?
  {
    hide ParseRequest, NoMethod, WrongVersion;
    forall t ensures Kept(ParseRequest(s, max), ParseRequest(s + t, max)) { RequestKept(s, s + t, max); }
    if ParseRequest(s, max).Partial? { WaitsFor(s, max); }
    if MethodMissing(s) {
      var lead: LeadText, gap: nat, x :| NoMethod(s, lead, gap, x);
      NoMethodWaits(s, lead, gap, x, max);
    }
    if VersionWrong(s) {
      var t: RequestText, v :| WrongVersion(s, t, v);
      WrongVersionWaits(s, t, v, max);
    }
  }
}
