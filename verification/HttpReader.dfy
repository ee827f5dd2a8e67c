/**
 The head parsers as they run: cursors into the caller's buffer, with the block scans of either build.
 `sse` tells the build with 16-byte compares from the one without; no result depends on it.
 */
module HttpReader {
  import opened Bytes
  import opened HttpScan
  import opened HttpParse
  import opened HttpShortcut
  import opened HttpContentLength

  // ---------- block scans ----------

  datatype Range = Range(lo: byte, hi: byte)

  const TOKEN_RANGES: seq<Range> := [Range(0, 32), Range(127, 127)]
  const TEXT_RANGES: seq<Range> := [Range(0, 8), Range(10, 31), Range(127, 127)]
  const NAME_RANGES: seq<Range> :=
    [Range(0, 32), Range(34, 34), Range(40, 41), Range(44, 44), Range(47, 47), Range(58, 64), Range(91, 93),
        Range(123, 255)]

  predicate InRanges(ranges: seq<Range>, b: byte) {
    exists k :: 0 <= k < |ranges| && ranges[k].lo <= b <= ranges[k].hi
  }

  lemma TokenRanges(b: byte)
    ensures !InRanges(TOKEN_RANGES, b) ==> IsVisible(b)
  {
    assert TOKEN_RANGES[0] == Range(0, 32) && TOKEN_RANGES[1] == Range(127, 127);
  }

  lemma TextRanges(b: byte)
    ensures InRanges(TEXT_RANGES, b) <==> !IsText(b)
  {
    assert TEXT_RANGES[0] == Range(0, 8) && TEXT_RANGES[1] == Range(10, 31) && TEXT_RANGES[2] == Range(127, 127);
  }

  lemma NameRanges(b: byte)
    ensures !InRanges(NAME_RANGES, b) ==> IsTokenChar(b) && b != COLON
  {
    assert NAME_RANGES[0] == Range(0, 32) && NAME_RANGES[1] == Range(34, 34) && NAME_RANGES[2] == Range(40, 41);
    assert NAME_RANGES[3] == Range(44, 44) && NAME_RANGES[4] == Range(47, 47) && NAME_RANGES[5] == Range(58, 64);
    assert NAME_RANGES[6] == Range(91, 93) && NAME_RANGES[7] == Range(123, 255);
  }

  /** The index of the first of 16 bytes that is in the ranges, or 16. */
  method FirstInRanges(buf: array<byte>, i: nat, ranges: seq<Range>) returns (r: nat)
    requires i + 16 <= buf.Length
    ensures r <= 16 && (forall k :: i <= k < i + r ==> !InRanges(ranges, buf[k]))
    ensures r < 16 ==> InRanges(ranges, buf[i + r])
  {
    r := 0;
    while r < 16 && !InRanges(ranges, buf[i + r])
      invariant r <= 16 && (forall k :: i <= k < i + r ==> !InRanges(ranges, buf[k]))
    {
      r := r + 1;
    }
  }

  /** Skips whole blocks without a byte in the ranges; stops at such a byte if one is in a whole block. */
  method FindCharFast(sse: bool, buf: array<byte>, len: nat, i: nat, ranges: seq<Range>) returns (j: nat, found: bool)
    requires i <= len <= buf.Length
    ensures i <= j <= len && (forall k :: i <= k < j ==> !InRanges(ranges, buf[k]))
    ensures found ==> sse && j < len && InRanges(ranges, buf[j])
    ensures !found ==> j == if sse then i + ((len - i) - (len - i) % 16) else i
  {
    j, found := i, false;
    if sse && len - j >= 16 {
      ghost var whole := (len - i) - (len - i) % 16;
      var left := (len - j) - (len - j) % 16;
      assert left % 16 == 0 && left == whole;
      while left != 0
        invariant i <= j && 0 <= left && j + left == i + whole <= len && left % 16 == 0
        invariant forall k :: i <= k < j ==> !InRanges(ranges, buf[k])
        decreases left
      {
        var r := FirstInRanges(buf, j, ranges);
        if r != 16 {
          return j + r, true;
        }
        j := j + 16;
        left := left - 16;
      }
    }
  }

  predicate IsPrintable(b: byte) { (b - 32) % 256 < 95 }

  /** The scan of a token of the first line. */
  method AdvanceToken(sse: bool, buf: array<byte>, len: nat, i: nat) returns (r: Scan<nat>)
    requires i <= len <= buf.Length
    ensures r == TokenEnd(buf[..len], i)
  {
    ghost var s := buf[..len];
    var j, found := FindCharFast(sse, buf, len, i, TOKEN_RANGES);
    SkippedToken(s, i, j);
    if !found && j == len { return Partial; }
    while true
      invariant i <= j < len && TokenEnd(s, i) == TokenEnd(s, j)
      decreases len - j
    {
      if buf[j] == SP {
        break;
      } else if !IsPrintable(buf[j]) {
        if buf[j] < 32 || buf[j] == DEL { return Bad; }
      }
      j := j + 1;
      if j == len { return Partial; }
    }
    r := Got(j, j);
  }

  lemma {:induction false} SkippedToken(s: seq<byte>, i: nat, j: nat)
    requires i <= j <= |s| && forall k :: i <= k < j ==> !InRanges(TOKEN_RANGES, s[k])
    ensures TokenEnd(s, i) == TokenEnd(s, j)
    decreases j - i
  {
    if i < j {
      TokenRanges(s[i]);
      SkippedToken(s, i + 1, j);
    }
  }

  /** The scan of a header name and its colon. */
  method AdvanceName(sse: bool, buf: array<byte>, len: nat, i: nat) returns (r: Scan<nat>)
    requires i <= len <= buf.Length
    ensures r == NameEnd(buf[..len], i)
  {
    ghost var s := buf[..len];
    var j, found := FindCharFast(sse, buf, len, i, NAME_RANGES);
    SkippedName(s, i, j);
    if !found && j == len { return Partial; }
    while buf[j] != COLON
      invariant i <= j < len && NameEnd(s, i) == NameEnd(s, j)
      decreases len - j
    {
      if !IsTokenChar(buf[j]) { return Bad; }
      j := j + 1;
      if j == len { return Partial; }
    }
    r := Got(j, j + 1);
  }

  lemma {:induction false} SkippedName(s: seq<byte>, i: nat, j: nat)
    requires i <= j <= |s| && forall k :: i <= k < j ==> !InRanges(NAME_RANGES, s[k])
    ensures NameEnd(s, i) == NameEnd(s, j)
    decreases j - i
  {
    if i < j {
      NameRanges(s[i]);
      SkippedName(s, i + 1, j);
    }
  }

  lemma {:induction false} SkippedText(s: seq<byte>, i: nat, j: nat)
    requires i <= j <= |s| && forall k :: i <= k < j ==> !InRanges(TEXT_RANGES, s[k])
    ensures TextEnd(s, i) == TextEnd(s, j)
    decreases j - i
  {
    if i < j {
      TextRanges(s[i]);
      SkippedText(s, i + 1, j);
    }
  }

  /** How the tests of the text scans move on, and stop. */
  lemma TextStep(s: seq<byte>, j: nat)
    requires j < |s|
    ensures IsText(s[j]) <==> !((s[j] < 32 && s[j] != HT) || s[j] == DEL)
    ensures IsPrintable(s[j]) ==> IsText(s[j])
    ensures IsText(s[j]) ==> TextEnd(s, j) == TextEnd(s, j + 1)
    ensures !IsText(s[j]) ==> TextEnd(s, j) == EndOfText(s, j)
  {
    hide EolAt;
  }

  /** At a byte that is no text: a line end, or an error. */
  function EndOfText(s: seq<byte>, j: nat): Scan<nat> {
    var (_, next) :- EolAt(s, j);
    Got(j, next)
  }

  /** The 8-byte unrolled scan of the build without block compares; `found` at a byte that ends the text. */
  method UnrolledText(buf: array<byte>, len: nat, i: nat) returns (j: nat, found: bool)
    requires i <= len <= buf.Length
    ensures i <= j <= len && TextEnd(buf[..len], i) == TextEnd(buf[..len], j)
    ensures found ==> j < len && !IsText(buf[j])
    ensures !found ==> len - j < 8
  {
    hide TextEnd, IsText;
    ghost var s := buf[..len];
    j, found := i, false;
    while len - j >= 8
      invariant i <= j <= len && TextEnd(s, i) == TextEnd(s, j)
    {
      var k := 0;
      ghost var from := j;
      while k < 8 && IsPrintable(buf[j])
        invariant k <= 8 && j == from + k && from + 8 <= len && TextEnd(s, i) == TextEnd(s, j)
      {
        TextStep(s, j);
        j := j + 1;
        k := k + 1;
      }
      if k < 8 {
        TextStep(s, j);
        if (buf[j] < 32 && buf[j] != HT) || buf[j] == DEL { return j, true; }
        j := j + 1;
      }
    }
  }

  lemma NoTextLeft(s: seq<byte>, j: nat)
    requires j >= |s|
    ensures TextEnd(s, j).Partial?
  {
  }

  /** The scan to the end of a line, and over it. */
  method GetTokenToEol(sse: bool, buf: array<byte>, len: nat, i: nat) returns (r: Scan<nat>)
    requires i <= len <= buf.Length
    ensures r == TextEnd(buf[..len], i)
  {
    hide TextEnd, IsText;
    ghost var s := buf[..len];
    var j, found;
    if sse {
      j, found := FindCharFast(sse, buf, len, i, TEXT_RANGES);
      SkippedText(s, i, j);
      if found { TextRanges(buf[j]); }
    } else {
      j, found := UnrolledText(buf, len, i);
    }
    while !found
      invariant i <= j <= len && TextEnd(s, i) == TextEnd(s, j)
      invariant found ==> j < len && !IsText(buf[j])
      decreases len - j, if found then 0 else 1
    {
      if j == len {
        NoTextLeft(s, j);
        return Partial;
      }
      TextStep(s, j);
      if !IsPrintable(buf[j]) && ((buf[j] < 32 && buf[j] != HT) || buf[j] == DEL) {
        found := true;
      } else {
        j := j + 1;
      }
    }
    TextStep(s, j);
    var eol := ReadEol(buf, len, j);
    r := match eol case Got(_, next) => Got(j, next) case Partial => Partial case Bad => Bad;
  }

  // ---------- small scans ----------

  /** The line end at `i`, where the byte at `i` is CR or LF. */
  method ReadEol(buf: array<byte>, len: nat, i: nat) returns (r: Scan<Eol>)
    requires i < len <= buf.Length
    ensures r == EolAt(buf[..len], i)
  {
    if buf[i] == CR {
      if i + 1 == len { return Partial; }
      if buf[i + 1] != LF { return Bad; }
      r := Got(CrLf, i + 2);
    } else if buf[i] == LF {
      r := Got(Lf, i + 1);
    } else {
      r := Bad;
    }
  }

  /** `do ++buf; while (*buf == ' ')`: it may look at the byte behind the input, which must not be a space. */
  method SkipSpaces(buf: array<byte>, len: nat, i: nat) returns (j: nat)
    requires i < len < buf.Length && buf[len] != SP
    ensures j == SpaceEnd(buf[..len], i + 1)
  {
    ghost var s := buf[..len];
    j := i + 1;
    while buf[j] == SP
      invariant i < j <= len && SpaceEnd(s, i + 1) == SpaceEnd(s, j)
      decreases len - j
    {
      j := j + 1;
    }
  }

  method SkipBlanks(buf: array<byte>, len: nat, i: nat) returns (r: Scan<nat>)
    requires i <= len <= buf.Length
    ensures r == BlankEnd(buf[..len], i)
  {
    ghost var s := buf[..len];
    var j := i;
    while true
      invariant i <= j <= len && BlankEnd(s, i) == BlankEnd(s, j)
      decreases len - j
    {
      if j == len { return Partial; }
      if !(buf[j] == SP || buf[j] == HT) { return Got(j, j); }
      j := j + 1;
    }
  }

  method TrimBlanks(buf: array<byte>, len: nat, i: nat, j: nat) returns (e: nat)
    requires i <= j <= len <= buf.Length
    ensures e == TrimEnd(buf[..len], i, j)
  {
    ghost var s := buf[..len];
    e := j;
    while e != i && IsBlank(buf[e - 1])
      invariant i <= e <= j && TrimEnd(s, i, j) == TrimEnd(s, i, e)
      decreases e
    {
      e := e - 1;
    }
  }

  method ParseHttpVersion(buf: array<byte>, len: nat, i: nat) returns (r: Scan<nat>)
    requires i <= len <= buf.Length
    ensures r == Version(buf[..len], i)
  {
    if len - i < 9 { return Partial; }
    ghost var s := buf[..len];
    var k := 0;
    while k < 7
      invariant k <= 7 && forall j :: 0 <= j < k ==> s[i + j] == VERSION_PREFIX[j]
    {
      if buf[i + k] != VERSION_PREFIX[k] {
        assert s[i..i + 7][k] == s[i + k];
        return Bad;
      }
      k := k + 1;
    }
    assert s[i..i + 7] == VERSION_PREFIX;
    if !IsDigit(buf[i + 7]) { return Bad; }
    r := Got(buf[i + 7] - DIGIT_0, i + 8);
  }

  method CheckComplete(buf: array<byte>, len: nat, lastLen: nat) returns (r: Scan<()>)
    requires lastLen <= len <= buf.Length
    ensures r == IsComplete(buf[..len], lastLen)
  {
    ghost var s := buf[..len];
    var i, count := if lastLen < 3 then 0 else lastLen - 3, 0;
    while true
      invariant i <= len && 0 <= count < 2 && IsComplete(s, lastLen) == TwoEols(s, i, count == 1)
      decreases len - i
    {
      if i == len { return Partial; }
      if buf[i] == CR {
        if i + 1 == len { return Partial; }
        if buf[i + 1] != LF { return Bad; }
        i, count := i + 2, count + 1;
      } else if buf[i] == LF {
        i, count := i + 1, count + 1;
      } else {
        i, count := i + 1, 0;
      }
      if count == 2 { return Got((), i); }
    }
  }

  // ---------- the parsers ----------

  /** A value with the blanks behind it cut off. */
  method ReadValue(sse: bool, buf: array<byte>, len: nat, i: nat) returns (r: Scan<Span>)
    requires i <= len <= buf.Length
    ensures r == ValueAt(buf[..len], i)
  {
    var token := GetTokenToEol(sse, buf, len, i);
    if !token.Got? { return if token.Partial? then Partial else Bad; }
    var end := TrimBlanks(buf, len, i, token.value);
    r := Got(Between(i, end), token.next);
  }

  /** One header line; `mayFold` when a header came before. */
  method ReadHeader(sse: bool, buf: array<byte>, len: nat, i: nat, mayFold: bool) returns (r: Scan<Header>)
    requires i < len <= buf.Length
    ensures r == HeaderAt(buf[..len], i, mayFold)
  {
    hide NameEnd, BlankEnd, ValueAt;
    var name, j := NoName, i;
    if !(mayFold && (buf[i] == SP || buf[i] == HT)) {
      var n := AdvanceName(sse, buf, len, i);
      if !n.Got? { return if n.Partial? then Partial else Bad; }
      if n.value == i { return Bad; }
      name := Named(Between(i, n.value));
      var b := SkipBlanks(buf, len, n.next);
      if !b.Got? { return if b.Partial? then Partial else Bad; }
      j := b.next;
    }
    var v := ReadValue(sse, buf, len, j);
    if !v.Got? { return if v.Partial? then Partial else Bad; }
    r := Got(Header(name, v.value), v.next);
  }

  /** What a header-block parse leaves: the headers in the caller's array, their number, the content length. */
  ghost predicate HeadersLeft(s: seq<byte>, spec: Scan<seq<Header>>, r: Scan<nat>, hs: seq<Header>, before: int,
                              after: int) {
    && AllInside(hs, s) && after == ContentLength(s, hs, before)
    && match spec
       case Got(all, next) => hs == all && r == Got(|all|, next)
       case Partial => r == Partial
       case Bad => r == Bad
  }

  lemma SamePart(s: seq<byte>, len: nat, i: nat, n: nat)
    requires i + n <= len <= |s|
    ensures s[..len][i..i + n] == s[i..i + n]
  {
  }

  /** Reads the value of a content-length field into `contentLength`. */
  method UpdateLength(buf: array<byte>, len: nat, h: Header, contentLength: int, ghost hs: seq<Header>,
                      ghost before: int)
    returns (updated: int)
    requires len <= buf.Length && h.Inside(buf[..len]) && AllInside(hs, buf[..len])
    requires contentLength == ContentLength(buf[..len], hs, before)
    ensures AllInside(hs + [h], buf[..len]) && updated == ContentLength(buf[..len], hs + [h], before)
  {
    hide IsContentLength, LeadingDigits, Decimal, Int32;
    ghost var s := buf[..len];
    assert (hs + [h])[..|hs|] == hs && (hs + [h])[|hs|] == h;
    updated := contentLength;
    if h.name.Named? {
      var n := h.name.span;
      SamePart(buf[..], len, n.start, n.len);
      assert buf[..][n.start..n.start + n.len] == buf[n.start..n.start + n.len];
      var matches := NameMatches(buf, n.start, n.len);
      if matches {
        SamePart(buf[..], len, h.value.start, h.value.len);
        assert buf[..][h.value.start..h.value.start + h.value.len] == buf[h.value.start..h.value.start + h.value.len];
        updated := AddUpDigits(buf, h.value.start, h.value.len);
      }
    }
  }

  method ReadHeaders(sse: bool, buf: array<byte>, len: nat, start: nat, headers: array<Header>, max: nat,
                     contentLength: int)
    returns (r: Scan<nat>, count: nat, updated: int)
    requires start <= len <= buf.Length && max <= headers.Length
    modifies headers
    ensures count <= max && headers[max..] == old(headers[max..])
    ensures HeadersLeft(buf[..len], Headers(buf[..len], start, [], max), r, headers[..count], contentLength, updated)
  {
    ghost var s := buf[..len];
    ghost var spec := Headers(s, start, [], max);
    var i := start;
    count, updated := 0, contentLength;
    while true
      invariant start <= i <= len && count <= max && headers[max..] == old(headers[max..])
      invariant AllInside(headers[..count], s) && updated == ContentLength(s, headers[..count], contentLength)
      invariant spec == Headers(s, i, headers[..count], max)
      decreases len - i
    {
      hide HeaderAt, Header.Inside, ContentLength;
      if i == len { return Partial, count, updated; }
      if buf[i] == CR || buf[i] == LF {
        var end := ReadEol(buf, len, i);
        if !end.Got? { return if end.Partial? then Partial else Bad, count, updated; }
        return Got(count, end.next), count, updated;
      }
      if count == max { return Bad, count, updated; }
      var h := ReadHeader(sse, buf, len, i, count != 0);
      if !h.Got? { return if h.Partial? then Partial else Bad, count, updated; }
      ghost var hs := headers[..count];
      updated := UpdateLength(buf, len, h.value, updated, hs, contentLength);
      headers[count] := h.value;
      assert headers[..count + 1] == hs + [h.value];
      count := count + 1;
      i := h.next;
    }
  }

  method ReadLead(buf: array<byte>, len: nat) returns (r: Scan<nat>)
    requires len <= buf.Length
    ensures r == Lead(buf[..len])
  {
    if len == 0 { return Partial; }
    if buf[0] == CR || buf[0] == LF {
      var end := ReadEol(buf, len, 0);
      if !end.Got? { return if end.Partial? then Partial else Bad; }
      return Got(end.next, end.next);
    }
    r := Got(0, 0);
  }

  /** The first line of a request, up to its line end. */
  method ReadTarget(sse: bool, buf: array<byte>, len: nat, verb: Span, j: nat) returns (r: Scan<(Span, Span, nat)>)
    requires j <= len < buf.Length && buf[len] != SP
    ensures r == Target(buf[..len], verb, j)
  {
    hide TokenEnd, SpaceEnd, Version, EolAt;
    var path := AdvanceToken(sse, buf, len, j);
    if !path.Got? { return if path.Partial? then Partial else Bad; }
    var k := SkipSpaces(buf, len, path.value);
    if verb.len == 0 || path.value == j { return Bad; }
    var version := ParseHttpVersion(buf, len, k);
    if !version.Got? { return if version.Partial? then Partial else Bad; }
    var end := ReadEol(buf, len, version.next);
    if !end.Got? { return if end.Partial? then Partial else Bad; }
    r := Got((verb, Between(j, path.value), version.value), end.next);
  }

  method ReadRequestLine(sse: bool, buf: array<byte>, len: nat) returns (r: Scan<(Span, Span, nat)>)
    requires len < buf.Length && buf[len] != SP
    ensures r == RequestLine(buf[..len])
  {
    hide TokenEnd, SpaceEnd, Target, Lead;
    var lead := ReadLead(buf, len);
    if !lead.Got? { return if lead.Partial? then Partial else Bad; }
    var verb := AdvanceToken(sse, buf, len, lead.value);
    if !verb.Got? { return if verb.Partial? then Partial else Bad; }
    var j := SkipSpaces(buf, len, verb.value);
    r := ReadTarget(sse, buf, len, Between(lead.value, verb.value), j);
  }

  /** The reason phrase; the spaces before it are dropped from the front of the token. */
  method ReadReason(sse: bool, buf: array<byte>, len: nat, i: nat) returns (r: Scan<Span>)
    requires i <= len < buf.Length && buf[len] != SP
    ensures r == ReasonAt(buf[..len], i)
  {
    hide SpaceEnd, TextEnd;
    ghost var s := buf[..len];
    var text := GetTokenToEol(sse, buf, len, i);
    if !text.Got? { return if text.Partial? then Partial else Bad; }
    var reason := Between(i, text.value);
    if reason.len != 0 {
      if buf[i] != SP { return Bad; }
      SpaceEndStep(s, i);
      SpacesStop(s, i, text.value);
      var m := SkipSpaces(buf, len, i);
      reason := Between(m, text.value);
    }
    r := Got(reason, text.next);
  }

  /** The status line of a response, up to its line end. */
  method ReadStatusLine(sse: bool, buf: array<byte>, len: nat) returns (r: Scan<(nat, nat, Span)>)
    requires len < buf.Length && buf[len] != SP
    ensures r == StatusLine(buf[..len])
  {
    hide SpaceEnd, Version, ReasonAt, AllIn;
    ghost var s := buf[..len];
    var version := ParseHttpVersion(buf, len, 0);
    if !version.Got? { return if version.Partial? then Partial else Bad; }
    if buf[version.next] != SP { return Bad; }
    SpaceEndStep(s, version.next);
    var d := SkipSpaces(buf, len, version.next);
    if len - d < 4 { return Partial; }
    if !IsDigit(buf[d]) || !IsDigit(buf[d + 1]) || !IsDigit(buf[d + 2]) { return Bad; }
    var status := (buf[d] - DIGIT_0) * 100 + (buf[d + 1] - DIGIT_0) * 10 + (buf[d + 2] - DIGIT_0);
    var reason := ReadReason(sse, buf, len, d + 3);
    if !reason.Got? { return if reason.Partial? then Partial else Bad; }
    r := Got((version.value, status, reason.value), reason.next);
  }

  lemma SpaceEndStep(s: seq<byte>, i: nat)
    requires i < |s| && s[i] == SP
    ensures SpaceEnd(s, i) == SpaceEnd(s, i + 1)
  {
  }

  lemma NoFields(s: seq<byte>, before: int)
    ensures ContentLength(s, [], before) == before
  {
  }

  method ReadRequest(sse: bool, buf: array<byte>, len: nat, headers: array<Header>, max: nat, contentLength: int)
    returns (r: Scan<()>, verb: Span, path: Span, minor: int, count: nat, updated: int)
    requires len < buf.Length && buf[len] != SP && max <= headers.Length
    modifies headers
    ensures count <= max && headers[max..] == old(headers[max..])
    ensures AllInside(headers[..count], buf[..len])
            && updated == ContentLength(buf[..len], headers[..count], contentLength)
    ensures match ParseRequest(buf[..len], max)
            case Got(head, next) =>
              && r == Got((), next) && head.verb == verb && head.path == path && head.minor == minor
              && head.headers == headers[..count]
            case Partial => r == Partial
            case Bad => r == Bad
  {
    hide RequestLine, Headers, Header.Inside, ContentLength;
    verb, path, minor, count, updated := Span(0, 0), Span(0, 0), -1, 0, contentLength;
    NoFields(buf[..len], contentLength);
    var line := ReadRequestLine(sse, buf, len);
    if !line.Got? {
      r := if line.Partial? then Partial else Bad;
      return;
    }
    verb, path, minor := line.value.0, line.value.1, line.value.2;
    var end;
    end, count, updated := ReadHeaders(sse, buf, len, line.next, headers, max, contentLength);
    r := if end.Got? then Got((), end.next) else if end.Partial? then Partial else Bad;
  }

  method PhrParseRequest(sse: bool, buf: array<byte>, len: nat, headers: array<Header>, max: nat, lastLen: nat,
                         contentLength: int)
    returns (ret: int, verb: Span, path: Span, minor: int, count: nat, updated: int)
    requires lastLen <= len < buf.Length && buf[len] != SP && max <= headers.Length
    modifies headers
    ensures count <= max && headers[max..] == old(headers[max..])
    ensures AllInside(headers[..count], buf[..len])
            && updated == ContentLength(buf[..len], headers[..count], contentLength)
    ensures var r := Guarded(buf[..len], lastLen, ParseRequest(buf[..len], max));
            && ret == (if r.Partial? then -2 else if r.Bad? then -1 else Int32(r.next))
            && (r.Got? ==> r.value.verb == verb && r.value.path == path && r.value.minor == minor)
            && (r.Got? ==> r.value.headers == headers[..count])
    ensures lastLen != 0 && !IsComplete(buf[..len], lastLen).Got?
            ==> count == 0 && minor == -1 && headers[..] == old(headers[..])
  {
    hide IsComplete, ParseRequest, Header.Inside, ContentLength, Int32;
    verb, path, minor, count, updated := Span(0, 0), Span(0, 0), -1, 0, contentLength;
    NoFields(buf[..len], contentLength);
    if lastLen != 0 {
      var complete := CheckComplete(buf, len, lastLen);
      if !complete.Got? {
        ret := if complete.Partial? then -2 else -1;
        return;
      }
    }
    var r;
    r, verb, path, minor, count, updated := ReadRequest(sse, buf, len, headers, max, contentLength);
    ret := if r.Got? then Int32(r.next) else if r.Partial? then -2 else -1;
  }

  method ReadResponse(sse: bool, buf: array<byte>, len: nat, headers: array<Header>, max: nat, contentLength: int)
    returns (r: Scan<()>, minor: int, status: int, reason: Span, count: nat, updated: int)
    requires len < buf.Length && buf[len] != SP && max <= headers.Length
    modifies headers
    ensures count <= max && headers[max..] == old(headers[max..])
    ensures AllInside(headers[..count], buf[..len])
            && updated == ContentLength(buf[..len], headers[..count], contentLength)
    ensures match ParseResponse(buf[..len], max)
            case Got(head, next) =>
              && r == Got((), next) && head.minor == minor && head.status == status && head.reason == reason
              && head.headers == headers[..count]
            case Partial => r == Partial
            case Bad => r == Bad
  {
    hide StatusLine, Headers, Header.Inside, ContentLength;
    minor, status, reason, count, updated := -1, 0, Span(0, 0), 0, contentLength;
    NoFields(buf[..len], contentLength);
    var line := ReadStatusLine(sse, buf, len);
    if !line.Got? {
      r := if line.Partial? then Partial else Bad;
      return;
    }
    minor, status, reason := line.value.0, line.value.1, line.value.2;
    var end;
    end, count, updated := ReadHeaders(sse, buf, len, line.next, headers, max, contentLength);
    r := if end.Got? then Got((), end.next) else if end.Partial? then Partial else Bad;
  }

  method PhrParseResponse(sse: bool, buf: array<byte>, len: nat, headers: array<Header>, max: nat, lastLen: nat,
                          contentLength: int)
    returns (ret: int, minor: int, status: int, reason: Span, count: nat, updated: int)
    requires lastLen <= len < buf.Length && buf[len] != SP && max <= headers.Length
    modifies headers
    ensures count <= max && headers[max..] == old(headers[max..])
    ensures AllInside(headers[..count], buf[..len])
            && updated == ContentLength(buf[..len], headers[..count], contentLength)
    ensures var r := Guarded(buf[..len], lastLen, ParseResponse(buf[..len], max));
            && ret == (if r.Partial? then -2 else if r.Bad? then -1 else Int32(r.next))
            && (r.Got? ==> r.value.minor == minor && r.value.status == status && r.value.reason == reason)
            && (r.Got? ==> r.value.headers == headers[..count])
    ensures lastLen != 0 && !IsComplete(buf[..len], lastLen).Got?
            ==> count == 0 && minor == -1 && status == 0 && headers[..] == old(headers[..])
  {
    hide IsComplete, ParseResponse, Header.Inside, ContentLength, Int32;
    minor, status, reason, count, updated := -1, 0, Span(0, 0), 0, contentLength;
    NoFields(buf[..len], contentLength);
    if lastLen != 0 {
      var complete := CheckComplete(buf, len, lastLen);
      if !complete.Got? {
        ret := if complete.Partial? then -2 else -1;
        return;
      }
    }
    var r;
    r, minor, status, reason, count, updated := ReadResponse(sse, buf, len, headers, max, contentLength);
    ret := if r.Got? then Int32(r.next) else if r.Partial? then -2 else -1;
  }

  method PhrParseHeaders(sse: bool, buf: array<byte>, len: nat, headers: array<Header>, max: nat, lastLen: nat,
                         contentLength: int)
    returns (ret: int, count: nat, updated: int)
    requires lastLen <= len <= buf.Length && max <= headers.Length
    modifies headers
    ensures count <= max && headers[max..] == old(headers[max..])
    ensures var s := buf[..len];
            var r := Guarded(s, lastLen, ParseHeaders(s, max));
            && ret == (if r.Partial? then -2 else if r.Bad? then -1 else Int32(r.next))
                && AllInside(headers[..count], s)
            && updated == ContentLength(s, headers[..count], contentLength)
            && (r.Got? ==> headers[..count] == r.value)
    ensures lastLen != 0 && !IsComplete(buf[..len], lastLen).Got? ==> count == 0 && headers[..] == old(headers[..])
  {
    hide IsComplete, Headers, Header.Inside, ContentLength, Int32;
    count, updated := 0, contentLength;
    NoFields(buf[..len], contentLength);
    if lastLen != 0 {
      var complete := CheckComplete(buf, len, lastLen);
      if !complete.Got? {
        ret := if complete.Partial? then -2 else -1;
        return;
      }
    }
    var r;
    r, count, updated := ReadHeaders(sse, buf, len, 0, headers, max, contentLength);
    ret := if r.Got? then Int32(r.next) else if r.Partial? then -2 else -1;
  }
}
