/** What the head parsers return, as functions on the bytes received so far; and: more input never changes an answer. */
module HttpParse {
  import opened Bytes
  import opened HttpScan

  /** A piece of the buffer: the pointer and length pairs of the parser. */
  datatype Span = Span(start: nat, len: nat) {
    predicate In(s: seq<byte>) { start + len <= |s| }

    function Of(s: seq<byte>): seq<byte>
      requires In(s)
    {
      s[start..start + len]
    }
  }

  function Between(i: nat, j: nat): Span
    requires i <= j
  {
    Span(i, j - i)
  }

  /** A continuation line has no name. */
  datatype Name = NoName | Named(span: Span)

  datatype Header = Header(name: Name, value: Span) {
    predicate Inside(s: seq<byte>) {
      value.In(s) && (name.Named? ==> name.span.In(s))
    }
  }

  predicate AllInside(hs: seq<Header>, s: seq<byte>) {
    forall h :: h in hs ==> h.Inside(s)
  }

  datatype Request = Request(verb: Span, path: Span, minor: nat, headers: seq<Header>)

  datatype Response = Response(minor: nat, status: nat, reason: Span, headers: seq<Header>)

  /** A header value, without the blanks it ends in. */
  function ValueAt(s: seq<byte>, i: nat): (r: Scan<Span>)
    ensures r.Got? ==> i <= r.value.start + r.value.len < r.next <= |s|
  {
    var (end, next) :- TextEnd(s, i);
    Got(Between(i, TrimEnd(s, i, end)), next)
  }

  function HeaderAt(s: seq<byte>, i: nat, mayFold: bool): (r: Scan<Header>)
    ensures r.Got? ==> i < r.next <= |s| && r.value.Inside(s)
  {
    if i < |s| && mayFold && IsBlank(s[i]) then
      var (value, next) :- ValueAt(s, i);
      Got(Header(NoName, value), next)
    else
      var (end, j) :- NameEnd(s, i);
      if end == i then Bad
      else
        var (k, _) :- BlankEnd(s, j);
        var (value, next) :- ValueAt(s, k);
        Got(Header(Named(Between(i, end)), value), next)
  }

  /** The header lines from `i` on, `hs` being those read before, up to the blank line. */
  function Headers(s: seq<byte>, i: nat, hs: seq<Header>, max: nat): (r: Scan<seq<Header>>)
    ensures r.Got? ==> i < r.next <= |s| && (|hs| <= max ==> |r.value| <= max)
    ensures r.Got? && AllInside(hs, s) ==> AllInside(r.value, s)
    decreases |s| - i
  {
    if i >= |s| then Partial
    else if s[i] == CR || s[i] == LF then
      var (_, next) :- EolAt(s, i);
      Got(hs, next)
    else if |hs| == max then Bad
    else
      var (h, next) :- HeaderAt(s, i, |hs| != 0);
      Headers(s, next, hs + [h], max)
  }

  /** A line end left over from the message before. */
  function Lead(s: seq<byte>): (r: Scan<nat>)
    ensures r.Got? ==> r.next == r.value <= |s|
  {
    if s == [] then Partial
    else if s[0] == CR || s[0] == LF then
      var (_, next) :- EolAt(s, 0);
      Got(next, next)
    else Got(0, 0)
  }

  /** Minor version and line end. */
  function VersionLine(s: seq<byte>, k: nat): (r: Scan<nat>)
    ensures r.Got? ==> k < r.next <= |s|
  {
    var (minor, v) :- Version(s, k);
    var (_, h) :- EolAt(s, v);
    Got(minor, h)
  }

  /** The first line of a request behind its method: path, minor version; it ends behind its line end. */
  function Target(s: seq<byte>, verb: Span, j: nat): (r: Scan<(Span, Span, nat)>)
    ensures r.Got? ==> r.next <= |s|
  {
    var (pathEnd, _) :- TokenEnd(s, j);
    if verb.len == 0 || pathEnd == j then Bad
    else
      var (minor, h) :- VersionLine(s, SpaceEnd(s, pathEnd + 1));
      Got((verb, Between(j, pathEnd), minor), h)
  }

  /** The first line of a request: method, path, minor version; it ends behind its line end. */
  function RequestLine(s: seq<byte>): (r: Scan<(Span, Span, nat)>)
    ensures r.Got? ==> r.next <= |s|
  {
    var (i, _) :- Lead(s);
    var (verbEnd, _) :- TokenEnd(s, i);
    Target(s, Between(i, verbEnd), SpaceEnd(s, verbEnd + 1))
  }

  function ParseRequest(s: seq<byte>, max: nat): Scan<Request> {
    var (line, h) :- RequestLine(s);
    var (headers, next) :- Headers(s, h, [], max);
    Got(Request(line.0, line.1, line.2, headers), next)
  }

  predicate HasStatus(s: seq<byte>, d: nat) {
    d + 3 <= |s| && IsDigit(s[d]) && IsDigit(s[d + 1]) && IsDigit(s[d + 2])
  }

  function Status(s: seq<byte>, d: nat): nat
    requires HasStatus(s, d)
  {
    (s[d] - DIGIT_0) * 100 + (s[d + 1] - DIGIT_0) * 10 + (s[d + 2] - DIGIT_0)
  }

  /** The reason phrase behind the status code, without the spaces before it. */
  function ReasonAt(s: seq<byte>, i: nat): (r: Scan<Span>)
    ensures r.Got? ==> i <= r.value.start && r.value.start + r.value.len < r.next <= |s|
  {
    var (end, next) :- TextEnd(s, i);
    if end == i then Got(Span(i, 0), next)
    else if s[i] != SP then Bad
    else
      // the byte at `end` is CR or LF, so the spaces end there at the latest
      var start := SpaceEnd(s, i);
      SpacesStop(s, i, end);
      Got(Between(start, end), next)
  }

  lemma SpacesStop(s: seq<byte>, i: nat, end: nat)
    requires i <= end < |s| && s[end] != SP
    ensures SpaceEnd(s, i) <= end
  {
  }

  /** The status line: minor version, status code, reason phrase. */
  function StatusLine(s: seq<byte>): (r: Scan<(nat, nat, Span)>)
    ensures r.Got? ==> r.next <= |s|
  {
    var (minor, v) :- Version(s, 0);
    if s[v] != SP then Bad
    else
      var d := SpaceEnd(s, v);
      if |s| - d < 4 then Partial
      else if !HasStatus(s, d) then Bad
      else
        var (reason, h) :- ReasonAt(s, d + 3);
        Got((minor, Status(s, d), reason), h)
  }

  function ParseResponse(s: seq<byte>, max: nat): Scan<Response> {
    var (line, h) :- StatusLine(s);
    var (headers, next) :- Headers(s, h, [], max);
    Got(Response(line.0, line.1, line.2, headers), next)
  }

  function ParseHeaders(s: seq<byte>, max: nat): Scan<seq<Header>> {
    Headers(s, 0, [], max)
  }

  // ---------- more input never changes an answer ----------

  lemma {:induction false} TrimEndKept(s: seq<byte>, s': seq<byte>, i: nat, j: nat)
    requires s <= s' && i <= j <= |s|
    ensures TrimEnd(s', i, j) == TrimEnd(s, i, j)
    decreases j
  {
    if j > i && IsBlank(s[j - 1]) { TrimEndKept(s, s', i, j - 1); }
  }

  lemma ValueKept(s: seq<byte>, s': seq<byte>, i: nat)
    requires s <= s'
    ensures Kept(ValueAt(s, i), ValueAt(s', i))
  {
    TextEndKept(s, s', i);
    var end := TextEnd(s, i);
    if end.Got? { TrimEndKept(s, s', i, end.value); }
  }

  lemma HeaderKept(s: seq<byte>, s': seq<byte>, i: nat, mayFold: bool)
    requires s <= s' && i < |s|
    ensures Kept(HeaderAt(s, i, mayFold), HeaderAt(s', i, mayFold))
  {
    if mayFold && IsBlank(s[i]) {
      ValueKept(s, s', i);
    } else {
      NameEndKept(s, s', i);
      var name := NameEnd(s, i);
      if name.Got? {
        BlankEndKept(s, s', name.next);
        var blank := BlankEnd(s, name.next);
        if blank.Got? { ValueKept(s, s', blank.value); }
      }
    }
  }

  lemma {:induction false} HeadersKept(s: seq<byte>, s': seq<byte>, i: nat, hs: seq<Header>, max: nat)
    requires s <= s'
    ensures Kept(Headers(s, i, hs, max), Headers(s', i, hs, max))
    decreases |s| - i
  {
    if i < |s| {
      TextEndKept(s, s', i);
      HeaderKept(s, s', i, |hs| != 0);
      var h := HeaderAt(s, i, |hs| != 0);
      if h.Got? { HeadersKept(s, s', h.next, hs + [h.value], max); }
    }
  }

  lemma LeadKept(s: seq<byte>, s': seq<byte>)
    requires s <= s'
    ensures Kept(Lead(s), Lead(s'))
  {
    if s != [] { TextEndKept(s, s', 0); }
  }

  /** Spaces and then a token, as one scan: `SpaceEnd` alone may stop at the end of the input. */
  lemma TokenAfterSpaceKept(s: seq<byte>, s': seq<byte>, i: nat)
    requires s <= s' && i <= |s|
    ensures Kept(TokenEnd(s, SpaceEnd(s, i)), TokenEnd(s', SpaceEnd(s', i)))
    ensures TokenEnd(s, SpaceEnd(s, i)).Got? ==> SpaceEnd(s', i) == SpaceEnd(s, i)
  {
    var j := SpaceEnd(s, i);
    if j < |s| {
      SpaceEndKept(s, s', i);
      TokenEndKept(s, s', j);
    }
  }

  lemma VersionAfterSpaceKept(s: seq<byte>, s': seq<byte>, i: nat)
    requires s <= s' && i <= |s|
    ensures Kept(Version(s, SpaceEnd(s, i)), Version(s', SpaceEnd(s', i)))
    ensures Version(s, SpaceEnd(s, i)).Got? ==> SpaceEnd(s', i) == SpaceEnd(s, i)
  {
    if SpaceEnd(s, i) < |s| {
      SpaceEndKept(s, s', i);
      VersionKept(s, s', SpaceEnd(s, i));
    }
  }

  lemma VersionLineKept(s: seq<byte>, s': seq<byte>, i: nat)
    requires s <= s' && i <= |s|
    ensures Kept(VersionLine(s, SpaceEnd(s, i)), VersionLine(s', SpaceEnd(s', i)))
  {
    hide SpaceEnd, Version, EolAt, AllIn, Eol.Bytes;
    VersionAfterSpaceKept(s, s', i);
    var version := Version(s, SpaceEnd(s, i));
    if version.Got? { TextEndKept(s, s', version.next); }
  }

  lemma TargetKept(s: seq<byte>, s': seq<byte>, verb: Span, i: nat)
    requires s <= s' && i <= |s|
    ensures Kept(Target(s, verb, SpaceEnd(s, i)), Target(s', verb, SpaceEnd(s', i)))
  {
    hide TokenEnd, SpaceEnd, VersionLine;
    TokenAfterSpaceKept(s, s', i);
    var path := TokenEnd(s, SpaceEnd(s, i));
    if path.Got? { VersionLineKept(s, s', path.value + 1); }
  }

  lemma RequestLineKept(s: seq<byte>, s': seq<byte>)
    requires s <= s'
    ensures Kept(RequestLine(s), RequestLine(s'))
  {
    hide Lead, TokenEnd, SpaceEnd, Target;
    LeadKept(s, s');
    var lead := Lead(s);
    if lead.Got? {
      TokenEndKept(s, s', lead.value);
      var verb := TokenEnd(s, lead.value);
      if verb.Got? { TargetKept(s, s', Between(lead.value, verb.value), verb.value + 1); }
    }
  }

  /** A request that is parsed or rejected stays so, with the same parts, whatever bytes follow. */
  lemma RequestKept(s: seq<byte>, s': seq<byte>, max: nat)
    requires s <= s'
    ensures Kept(ParseRequest(s, max), ParseRequest(s', max))
  {
    hide RequestLine, Headers, AllIn;
    RequestLineKept(s, s');
    var line := RequestLine(s);
    if line.Got? { HeadersKept(s, s', line.next, [], max); }
  }

  lemma ReasonKept(s: seq<byte>, s': seq<byte>, i: nat)
    requires s <= s' && i <= |s|
    ensures Kept(ReasonAt(s, i), ReasonAt(s', i))
  {
    TextEndKept(s, s', i);
    var end := TextEnd(s, i);
    if end.Got? && i < end.value {
      SpacesStop(s, i, end.value);
      SpaceEndKept(s, s', i);
    }
  }

  lemma StatusLineKept(s: seq<byte>, s': seq<byte>)
    requires s <= s'
    ensures Kept(StatusLine(s), StatusLine(s'))
  {
    hide SpaceEnd, Version, ReasonAt, AllIn;
    VersionKept(s, s', 0);
    var version := Version(s, 0);
    if version.Got? && s[version.next] == SP {
      var d := SpaceEnd(s, version.next);
      if |s| - d >= 4 {
        SpaceEndKept(s, s', version.next);
        if HasStatus(s, d) { ReasonKept(s, s', d + 3); }
      }
    }
  }

  /** A response that is parsed or rejected stays so, with the same parts, whatever bytes follow. */
  lemma ResponseKept(s: seq<byte>, s': seq<byte>, max: nat)
    requires s <= s'
    ensures Kept(ParseResponse(s, max), ParseResponse(s', max))
  {
    hide StatusLine, Headers, AllIn;
    StatusLineKept(s, s');
    var line := StatusLine(s);
    if line.Got? { HeadersKept(s, s', line.next, [], max); }
  }
}
