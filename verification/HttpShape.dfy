/** What every successful parse looks like: where the pieces lie, and what they hold. */
module HttpShape {
  import opened Bytes
  import opened HttpScan
  import opened HttpParse

  /** Names and values lie one behind the other between `lo` and `hi`, and no two touch. */
  ghost predicate InOrder(hs: seq<Header>, lo: nat, hi: nat) {
    if hs == [] then lo <= hi
    else
      var h := hs[0];
      && lo <= h.value.start
      && (h.name.Named? ==> lo <= h.name.span.start && h.name.span.start + h.name.span.len < h.value.start)
      && InOrder(hs[1..], h.value.start + h.value.len + 1, hi)
  }

  /** A name is a non-empty token; a value is text and ends in no blank. */
  ghost predicate Clean(h: Header, s: seq<byte>) {
    && h.Inside(s)
    && All(IsText, h.value.Of(s)) && (h.value.len > 0 ==> !IsBlank(s[h.value.start + h.value.len - 1]))
    && (h.name.Named? ==> h.name.span.len > 0 && All(IsTokenChar, h.name.span.Of(s)))
  }

  ghost predicate AllClean(hs: seq<Header>, s: seq<byte>) {
    forall h :: h in hs ==> Clean(h, s)
  }

  lemma ValueShape(s: seq<byte>, i: nat)
    requires ValueAt(s, i).Got?
    ensures var v, n := ValueAt(s, i).value, ValueAt(s, i).next;
            && i == v.start && v.In(s) && v.start + v.len + 1 <= n
            && All(IsText, v.Of(s)) && (v.len > 0 ==> !IsBlank(s[v.start + v.len - 1]))
  {
    hide TextEnd, TrimEnd, EolAt;
  }

  lemma NameShape(s: seq<byte>, i: nat)
    requires NameEnd(s, i).Got?
    ensures var end := NameEnd(s, i).value;
            i <= end && NameEnd(s, i).next == end + 1 <= |s| && All(IsTokenChar, s[i..end])
  {
    hide NameEnd, IsTokenChar;
  }

  lemma BlankShape(s: seq<byte>, i: nat)
    requires BlankEnd(s, i).Got?
    ensures i <= BlankEnd(s, i).value
  {
    hide BlankEnd;
  }

  lemma HeaderShape(s: seq<byte>, i: nat, mayFold: bool)
    requires i < |s| && HeaderAt(s, i, mayFold).Got?
    ensures var r := HeaderAt(s, i, mayFold);
            && Clean(r.value, s) && (r.value.name.NoName? ==> mayFold)
            && i <= r.value.value.start && r.value.value.start + r.value.value.len + 1 <= r.next
            && (r.value.name.Named? ==> r.value.name.span.start == i && i + r.value.name.span.len < r.value.value.start)
  {
    hide ValueAt, NameEnd, BlankEnd, TextEnd, TrimEnd, AllIn;
    if mayFold && IsBlank(s[i]) {
      ValueShape(s, i);
    } else {
      var end, j := NameEnd(s, i).value, NameEnd(s, i).next;
      NameShape(s, i);
      BlankShape(s, j);
      ValueShape(s, BlankEnd(s, j).value);
    }
  }

  lemma {:induction false} InOrderLower(hs: seq<Header>, lo: nat, lo': nat, hi: nat)
    requires InOrder(hs, lo, hi) && lo' <= lo
    ensures InOrder(hs, lo', hi)
  {
  }

  lemma {:induction false} BlockShape(s: seq<byte>, i: nat, hs: seq<Header>, max: nat) returns (more: seq<Header>)
    requires Headers(s, i, hs, max).Got?
    ensures var r := Headers(s, i, hs, max);
            && r.value == hs + more && InOrder(more, i, r.next - 1) && AllClean(more, s)
            && (hs == [] && more != [] ==> more[0].name.Named?)
    decreases |s| - i
  {
    hide HeaderAt, Clean;
    if s[i] == CR || s[i] == LF {
      more := [];
      assert hs + [] == hs;
    } else {
      var r := HeaderAt(s, i, |hs| != 0);
      HeaderShape(s, i, |hs| != 0);
      var rest := BlockShape(s, r.next, hs + [r.value], max);
      InOrderLower(rest, r.next, r.value.value.start + r.value.value.len + 1, Headers(s, i, hs, max).next - 1);
      more := [r.value] + rest;
      assert hs + [r.value] + rest == hs + more;
    }
  }

  /** The method, the path and the headers of a parsed request, in this order inside the bytes consumed. */
  lemma RequestShape(s: seq<byte>, max: nat)
    requires ParseRequest(s, max).Got?
    ensures var r, n := ParseRequest(s, max).value, ParseRequest(s, max).next;
            && 0 < r.verb.len && r.verb.start + r.verb.len < r.path.start
            && 0 < r.path.len && r.minor < 10
            && InOrder(r.headers, r.path.start + r.path.len + 1, n - 1) && n <= |s|
            && AllClean(r.headers, s) && |r.headers| <= max
            && (r.headers != [] ==> r.headers[0].name.Named?)
  {
    hide Clean, Headers, RequestLine, Header.Inside;
    var line := RequestLine(s);
    LineShape(s);
    var more := BlockShape(s, line.next, [], max);
    assert [] + more == more;
    InOrderLower(more, line.next, line.value.1.start + line.value.1.len + 1, ParseRequest(s, max).next - 1);
  }

  lemma LineShape(s: seq<byte>)
    requires RequestLine(s).Got?
    ensures var line, h := RequestLine(s).value, RequestLine(s).next;
            && 0 < line.0.len && line.0.start + line.0.len < line.1.start && 0 < line.1.len && line.2 < 10
            && line.1.start + line.1.len + 8 < h <= |s|
  {
    hide TokenEnd, Version, EolAt;
  }

  /** A parsed response: a status of three digits, and a reason that lies in its line and starts with no space. */
  lemma ResponseShape(s: seq<byte>, max: nat)
    requires ParseResponse(s, max).Got?
    ensures var r, n := ParseResponse(s, max).value, ParseResponse(s, max).next;
            && r.minor < 10 && r.status < 1000 && r.reason.In(s) && All(IsText, r.reason.Of(s))
            && (r.reason.len > 0 ==> s[r.reason.start] != SP)
            && InOrder(r.headers, r.reason.start + r.reason.len + 1, n - 1) && n <= |s|
            && AllClean(r.headers, s) && |r.headers| <= max
            && (r.headers != [] ==> r.headers[0].name.Named?)
  {
    hide Clean, Headers, StatusLine, Header.Inside;
    var line := StatusLine(s);
    StatusShape(s);
    var more := BlockShape(s, line.next, [], max);
    assert [] + more == more;
    InOrderLower(more, line.next, line.value.2.start + line.value.2.len + 1, ParseResponse(s, max).next - 1);
  }

  lemma StatusShape(s: seq<byte>)
    requires StatusLine(s).Got?
    ensures var line, h := StatusLine(s).value, StatusLine(s).next;
            && line.0 < 10 && line.1 < 1000 && line.2.In(s) && All(IsText, line.2.Of(s))
            && (line.2.len > 0 ==> s[line.2.start] != SP) && line.2.start + line.2.len + 1 <= h
  {
    hide Version, EolAt;
  }
}
