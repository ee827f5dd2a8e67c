/**
 The shortcut for growing buffers: before parsing again, look for two line ends in a row from shortly before
 the old end of the input. It must not lose an answer.
 */
module HttpShortcut {
  import opened Bytes
  import opened HttpScan
  import opened HttpParse
  import opened HttpGrammar
  import opened HttpMessages

  /** Looks for two line ends in a row; `seen` says that one ends right before `i`. */
  function TwoEols(s: seq<byte>, i: nat, seen: bool): (r: Scan<()>)
    decreases |s| - i
  {
    if i >= |s| then Partial
    else if s[i] == CR || s[i] == LF then
      var (_, next) :- EolAt(s, i);
      if seen then Got((), next) else TwoEols(s, next, true)
    else TwoEols(s, i + 1, false)
  }

  function IsComplete(s: seq<byte>, lastLen: nat): Scan<()> {
    TwoEols(s, ScanFrom(lastLen), false)
  }

  /** A parse behind the shortcut; `lastLen` is 0 on the first call. */
  function Guarded<T>(s: seq<byte>, lastLen: nat, parse: Scan<T>): Scan<T> {
    if lastLen == 0 then parse else var (_, _) :- IsComplete(s, lastLen); parse
  }

  // ---------- the scan, said on the bytes ----------

  /** A line ends at `k`, and the next one right behind it. */
  predicate TwoEnds(s: seq<byte>, k: nat) {
    && k + 1 < |s| && s[k] == LF
    && (s[k + 1] == LF || (s[k + 1] == CR && k + 2 < |s| && s[k + 2] == LF))
  }

  /** A CR with another byte than LF behind it. */
  predicate BareCr(s: seq<byte>, k: nat) { k + 1 < |s| && s[k] == CR && s[k + 1] != LF }

  ghost predicate NoTwoEnds(s: seq<byte>, from: nat, to: nat) { forall k :: from <= k < to ==> !TwoEnds(s, k) }

  ghost predicate NoneBare(s: seq<byte>, from: nat, to: nat) { forall k :: from <= k < to ==> !BareCr(s, k) }

  /** Two line ends in a row, with no bare CR before them. */
  ghost predicate Ended(s: seq<byte>, from: nat) {
    exists k :: from <= k < |s| && TwoEnds(s, k) && NoneBare(s, from, k)
  }

  /** A bare CR, with no two line ends in a row before it. */
  ghost predicate Broken(s: seq<byte>, from: nat) {
    exists k :: from <= k < |s| && BareCr(s, k) && NoTwoEnds(s, from, k)
  }

  /** Neither of the two. */
  ghost predicate Waiting(s: seq<byte>, from: nat) { NoTwoEnds(s, from, |s|) && NoneBare(s, from, |s|) }

  /** Where the scan starts. */
  function ScanFrom(lastLen: nat): nat { if lastLen < 3 then 0 else lastLen - 3 }

  lemma EndedFrom(s: seq<byte>, from: nat, to: nat)
    requires from <= to && forall k :: from <= k < to ==> !TwoEnds(s, k) && !BareCr(s, k)
    ensures Ended(s, from) <==> Ended(s, to)
    ensures Broken(s, from) <==> Broken(s, to)
    ensures Waiting(s, from) <==> Waiting(s, to)
  {
    hide TwoEnds, BareCr;
    if k :| from <= k < |s| && TwoEnds(s, k) && NoneBare(s, from, k) { assert NoneBare(s, to, k) && to <= k; }
    if k :| to <= k < |s| && TwoEnds(s, k) && NoneBare(s, to, k) { assert NoneBare(s, from, k); }
    if k :| from <= k < |s| && BareCr(s, k) && NoTwoEnds(s, from, k) { assert NoTwoEnds(s, to, k) && to <= k; }
    if k :| to <= k < |s| && BareCr(s, k) && NoTwoEnds(s, to, k) { assert NoTwoEnds(s, from, k); }
  }

  /** The scan finds the first of the two events; `seen` says that a line ends right before `i`. */
  lemma {:induction false} TwoEolsIs(s: seq<byte>, i: nat, seen: bool)
    requires seen ==> 0 < i <= |s| && s[i - 1] == LF
    ensures var from, r := if seen then i - 1 else i, TwoEols(s, i, seen);
            (r.Got? <==> Ended(s, from)) && (r.Bad? <==> Broken(s, from)) && (r.Partial? <==> Waiting(s, from))
    decreases |s| - i
  {
    hide Ended, Broken, Waiting;
    var from := if seen then i - 1 else i;
    if i >= |s| {
      NothingLeft(s, from);
    } else if s[i] == CR || s[i] == LF {
      var eol := EolAt(s, i);
      if eol.Partial? {
        NothingLeft(s, from);
      } else if eol.Bad? {
        BareThere(s, from, i);
      } else if seen {
        TwoThere(s, from);
      } else {
        TwoEolsIs(s, eol.next, true);
        EndedFrom(s, from, eol.next - 1);
      }
    } else {
      TwoEolsIs(s, i + 1, false);
      EndedFrom(s, from, i + 1);
    }
  }

  lemma NothingLeft(s: seq<byte>, from: nat)
    requires forall k :: from <= k < |s| ==> !TwoEnds(s, k) && !BareCr(s, k)
    ensures !Ended(s, from) && !Broken(s, from) && Waiting(s, from)
  {
  }

  lemma BareThere(s: seq<byte>, from: nat, i: nat)
    requires from <= i < |s| && BareCr(s, i) && NoTwoEnds(s, from, i)
    ensures !Ended(s, from) && Broken(s, from) && !Waiting(s, from)
  {
    hide TwoEnds, BareCr;
    NotBoth(s, i);
    forall k | from <= k < |s| && TwoEnds(s, k) ensures !NoneBare(s, from, k) {
      assert k > i;
    }
  }

  lemma NotBoth(s: seq<byte>, k: nat)
    ensures !(TwoEnds(s, k) && BareCr(s, k))
  {
  }

  lemma TwoThere(s: seq<byte>, from: nat)
    requires TwoEnds(s, from)
    ensures Ended(s, from) && !Broken(s, from) && !Waiting(s, from)
  {
    assert NoneBare(s, from, from);
    NotBoth(s, from);
    forall k | from <= k < |s| && BareCr(s, k) ensures !NoTwoEnds(s, from, k) {
      assert k > from;
    }
  }

  /** What `is_complete` answers, by the bytes from three before the old end on. */
  lemma CompleteIs(s: seq<byte>, lastLen: nat)
    ensures var from, r := if lastLen < 3 then 0 else lastLen - 3, IsComplete(s, lastLen);
            (r.Got? <==> Ended(s, from)) && (r.Bad? <==> Broken(s, from)) && (r.Partial? <==> Waiting(s, from))
  {
    hide TwoEols, Ended, Broken, Waiting;
    TwoEolsIs(s, ScanFrom(lastLen), false);
  }

  // ---------- what a complete head looks like from outside ----------

  ghost predicate NoBareCr(x: seq<byte>) {
    forall k :: 0 <= k < |x| && x[k] == CR ==> k + 1 < |x| && x[k + 1] == LF
  }

  ghost predicate EndsLine(x: seq<byte>) {
    x != [] && x[|x| - 1] == LF
  }

  /** No bare CR, and at the end one line end behind another. */
  ghost predicate Terminated(x: seq<byte>, end: Eol) {
    NoBareCr(x) && |end.Bytes()| < |x| && x[|x| - |end.Bytes()|..] == end.Bytes() && EndsLine(x[..|x| - |end.Bytes()|])
  }

  lemma NoBareCrConcat(a: seq<byte>, b: seq<byte>)
    requires NoBareCr(a) && NoBareCr(b)
    ensures NoBareCr(a + b)
  {
  }

  lemma NoCr(p: byte -> bool, x: seq<byte>)
    requires All(p, x) && !p(CR)
    ensures NoBareCr(x)
  {
    forall k | 0 <= k < |x| ensures x[k] != CR { assert p(x[k]); }
  }

  lemma LineClosed(line: Line, first: bool)
    requires line.WellFormed(first)
    ensures NoBareCr(line.Bytes()) && EndsLine(line.Bytes())
  {
    var rest := line.rest;
    NoCr(IsText, rest.value);
    NoCr(IsBlank, rest.trail);
    NoBareCrConcat(rest.trail, rest.eol.Bytes());
    NoBareCrConcat(rest.value, rest.trail + rest.eol.Bytes());
    if line.Field? {
      NoCr(IsTokenChar, line.name);
      NoCr(IsBlank, line.blank);
      NoBareCrConcat(line.blank, rest.Bytes());
      NoBareCrConcat([COLON], line.blank + rest.Bytes());
      NoBareCrConcat(line.name, [COLON] + (line.blank + rest.Bytes()));
    }
  }

  lemma {:induction false} BlockTerminated(prefix: seq<byte>, lines: seq<Line>, end: Eol, first: bool)
    requires NoBareCr(prefix) && WellFormedLines(lines, first)
    requires lines == [] ==> EndsLine(prefix)
    ensures Terminated(prefix + BlockBytes(lines, end), end)
    decreases |lines|
  {
    hide Line.WellFormed, Line.Bytes;
    if lines == [] {
      NoBareCrConcat(prefix, end.Bytes());
      assert (prefix + end.Bytes())[..|prefix|] == prefix;
    } else {
      LineClosed(lines[0], first);
      NoBareCrConcat(prefix, lines[0].Bytes());
      BlockTerminated(prefix + lines[0].Bytes(), lines[1..], end, false);
      assert prefix + lines[0].Bytes() + BlockBytes(lines[1..], end) == prefix + BlockBytes(lines, end);
    }
  }

  lemma RequestTerminated(t: RequestText)
    requires t.WellFormed()
    ensures Terminated(t.Bytes(), t.end)
  {
    hide WellFormedLines, BlockBytes, Terminated, NoBareCr, All, VersionBytes, Spaces, Eol.Bytes, LeadText.Bytes;
    NoCr(IsVisible, t.verb);
    NoCr(IsVisible, t.path);
    SmallClosed(t);
    var f := t.eol.Bytes();
    var e := VersionBytes(t.minor) + f;
    var d := Spaces(t.gap2) + e;
    var c := t.path + d;
    var b := Spaces(t.gap1) + c;
    NoBareCrConcat(VersionBytes(t.minor), f);
    NoBareCrConcat(Spaces(t.gap2), e);
    NoBareCrConcat(t.path, d);
    NoBareCrConcat(Spaces(t.gap1), c);
    NoBareCrConcat(t.verb, b);
    NoBareCrConcat(t.lead.Bytes(), t.verb + b);
    var first := t.lead.Bytes() + (t.verb + b);
    var front := t.verb + (Spaces(t.gap1) + (t.path + (Spaces(t.gap2) + VersionBytes(t.minor))));
    EndsInEol(t, t.lead.Bytes() + front, first);
    BlockTerminated(first, t.lines, t.end, true);
    assert t.Bytes() == first + BlockBytes(t.lines, t.end);
  }

  lemma SmallClosed(t: RequestText)
    requires t.minor < 10
    ensures NoBareCr(VersionBytes(t.minor)) && NoBareCr(t.eol.Bytes()) && NoBareCr(t.lead.Bytes())
    ensures NoBareCr(Spaces(t.gap1)) && NoBareCr(Spaces(t.gap2))
  {
  }

  lemma EndsInEol(t: RequestText, front: seq<byte>, first: seq<byte>)
    requires first == front + t.eol.Bytes()
    ensures EndsLine(first)
  {
  }

  lemma ResponseTerminated(t: ResponseText)
    requires t.WellFormed()
    ensures Terminated(t.Bytes(), t.end)
  {
    hide WellFormedLines, BlockBytes, Terminated;
    NoCr(IsDigit, t.digits);
    NoCr(IsText, t.reason);
    var e := t.eol.Bytes();
    var d := t.reason + e;
    var c := Spaces(t.gap2) + d;
    var b := t.digits + c;
    NoBareCrConcat(t.reason, e);
    NoBareCrConcat(Spaces(t.gap2), d);
    NoBareCrConcat(t.digits, c);
    NoBareCrConcat(Spaces(t.gap1), b);
    NoBareCrConcat(VersionBytes(t.minor), Spaces(t.gap1) + b);
    BlockTerminated(VersionBytes(t.minor) + (Spaces(t.gap1) + b), t.lines, t.end, true);
    assert t.Bytes() == VersionBytes(t.minor) + (Spaces(t.gap1) + b) + BlockBytes(t.lines, t.end);
  }

  // ---------- the shortcut finds it ----------

  /** The two line ends that end what is terminated. */
  lemma LastTwoEnds(s: seq<byte>, n: nat, end: Eol)
    requires n <= |s| && Terminated(s[..n], end)
    ensures var p := n - |end.Bytes()| - 1;
            0 <= p && s[p] == LF && At(s, p + 1, end.Bytes()) && EolAt(s, p + 1).Got?
  {
    hide NoBareCr, EolAt, Eol.Bytes;
    var p := n - |end.Bytes()| - 1;
    assert s[..n][..p + 1][p] == LF && s[..n][p + 1..] == s[p + 1..n];
    EolFound(s, p + 1, end);
  }

  lemma CrThenLf(s: seq<byte>, n: nat, end: Eol, i: nat)
    requires n <= |s| && Terminated(s[..n], end) && i < n && s[i] == CR
    ensures i + 1 < n && s[i + 1] == LF
  {
    assert s[..n][i] == CR;
  }

  lemma TwoEolsAtCr(s: seq<byte>, i: nat, seen: bool)
    requires i + 1 < |s| && s[i] == CR && s[i + 1] == LF
    ensures TwoEols(s, i, seen) == if seen then Got((), i + 2) else TwoEols(s, i + 2, true)
  {
  }

  lemma TwoEolsAtLf(s: seq<byte>, i: nat, seen: bool)
    requires i < |s| && s[i] == LF
    ensures TwoEols(s, i, seen) == if seen then Got((), i + 1) else TwoEols(s, i + 1, true)
  {
  }

  lemma TwoEolsPast(s: seq<byte>, i: nat, seen: bool)
    requires i < |s| && s[i] != CR && s[i] != LF
    ensures TwoEols(s, i, seen) == TwoEols(s, i + 1, false)
  {
  }

  lemma SecondEol(s: seq<byte>, i: nat)
    requires EolAt(s, i).Got?
    ensures TwoEols(s, i, true).Got?
  {
  }

  lemma {:induction false} TwoEolsFound(s: seq<byte>, n: nat, end: Eol, i: nat, seen: bool)
    requires n <= |s| && Terminated(s[..n], end) && i + |end.Bytes()| < n
    ensures TwoEols(s, i, seen).Got?
    decreases n - i
  {
    hide TwoEols, EolAt, At, Terminated, Eol.Bytes;
    var p := n - |end.Bytes()| - 1;
    LastTwoEnds(s, n, end);
    if s[i] == CR {
      CrThenLf(s, n, end, i);
      TwoEolsAtCr(s, i, seen);
      if !seen {
        if i + 1 < p { TwoEolsFound(s, n, end, i + 2, true); } else { SecondEol(s, i + 2); }
      }
    } else if s[i] == LF {
      TwoEolsAtLf(s, i, seen);
      if !seen {
        if i < p { TwoEolsFound(s, n, end, i + 1, true); } else { SecondEol(s, i + 1); }
      }
    } else {
      TwoEolsPast(s, i, seen);
      TwoEolsFound(s, n, end, i + 1, false);
    }
  }

  /** The scan that resumes 3 bytes before the old end still sees both line ends of a head that ends behind it. */
  lemma CompleteFound(s: seq<byte>, n: nat, end: Eol, lastLen: nat)
    requires n <= |s| && Terminated(s[..n], end) && lastLen < n
    ensures IsComplete(s, lastLen).Got?
  {
    TwoEolsFound(s, n, end, ScanFrom(lastLen), false);
  }

  lemma {:induction false} TwoEolsKept(s: seq<byte>, s': seq<byte>, i: nat, seen: bool)
    requires s <= s'
    ensures Kept(TwoEols(s, i, seen), TwoEols(s', i, seen))
    decreases |s| - i
  {
    if i < |s| {
      TextEndKept(s, s', i);
      if s[i] != CR && s[i] != LF {
        TwoEolsKept(s, s', i + 1, false);
      } else if EolAt(s, i).Got? {
        TwoEolsKept(s, s', EolAt(s, i).next, true);
      }
    }
  }

  // ---------- requests and responses ----------

  datatype Head = RequestHead(request: Request) | ResponseHead(response: Response)

  datatype Kind = ForRequest | ForResponse

  /** Either parser. */
  function ParseHead(kind: Kind, s: seq<byte>, max: nat): Scan<Head> {
    match kind
    case ForRequest => var (r, n) :- ParseRequest(s, max); Got(RequestHead(r), n)
    case ForResponse => var (r, n) :- ParseResponse(s, max); Got(ResponseHead(r), n)
  }

  lemma HeadKept(kind: Kind, s: seq<byte>, s': seq<byte>, max: nat)
    requires s <= s'
    ensures Kept(ParseHead(kind, s, max), ParseHead(kind, s', max))
  {
    hide ParseRequest, ParseResponse;
    RequestKept(s, s', max);
    ResponseKept(s, s', max);
  }

  /** An answer depends on the bytes of the head alone, and they are terminated. */
  lemma HeadClosed(kind: Kind, s: seq<byte>, max: nat) returns (end: Eol)
    requires ParseHead(kind, s, max).Got?
    ensures var r := ParseHead(kind, s, max);
            r.next <= |s| && Terminated(s[..r.next], end) && ParseHead(kind, s[..r.next], max) == r
  {
    hide ParseRequest, ParseResponse, BlockBytes, WellFormedLines, RequestText.Bytes, ResponseText.Bytes, Terminated;
    match kind
    case ForRequest =>
      var t := RequestOf(s, max);
      RequestRead(s, t, max);
      var head := t.Bytes();
      assert s[..|head|] == head == head[0..|head|];
      RequestRead(head, t, max);
      RequestTerminated(t);
      end := t.end;
    case ForResponse =>
      var t := ResponseOf(s, max);
      ResponseRead(s, t, max);
      var head := t.Bytes();
      assert s[..|head|] == head == head[0..|head|];
      ResponseRead(head, t, max);
      ResponseTerminated(t);
      end := t.end;
  }

  /** What was not complete after `lastLen` bytes ends behind them. */
  lemma EndsLater(kind: Kind, s: seq<byte>, lastLen: nat, max: nat)
    requires lastLen <= |s| && ParseHead(kind, s, max).Got? && !ParseHead(kind, s[..lastLen], max).Got?
    ensures lastLen < ParseHead(kind, s, max).next
  {
    hide ParseHead, Terminated;
    var end := HeadClosed(kind, s, max);
    var n := ParseHead(kind, s, max).next;
    if n <= lastLen {
      HeadKept(kind, s[..n], s[..lastLen], max);
    }
  }

  /**
   The shortcut is lossless: if the first `lastLen` bytes gave no head, the guarded call succeeds exactly when
   the plain one does, with the same parts and the same length.
   */
  lemma ShortcutLossless(kind: Kind, s: seq<byte>, lastLen: nat, max: nat)
    requires lastLen <= |s| && !ParseHead(kind, s[..lastLen], max).Got?
    ensures var plain, guarded := ParseHead(kind, s, max), Guarded(s, lastLen, ParseHead(kind, s, max));
            (plain.Got? <==> guarded.Got?) && (plain.Got? ==> guarded == plain)
  {
    hide ParseHead, Terminated, IsComplete;
    if ParseHead(kind, s, max).Got? {
      var end := HeadClosed(kind, s, max);
      EndsLater(kind, s, lastLen, max);
      CompleteFound(s, ParseHead(kind, s, max).next, end, lastLen);
    }
  }

  /** An error the guarded call reports is final: no continuation of the input ever parses. */
  lemma ShortcutErrorFinal(kind: Kind, s: seq<byte>, lastLen: nat, max: nat, s': seq<byte>)
    requires lastLen <= |s| && !ParseHead(kind, s[..lastLen], max).Got? && s <= s'
    requires Guarded(s, lastLen, ParseHead(kind, s, max)).Bad?
    ensures !ParseHead(kind, s', max).Got?
  {
    hide ParseHead, Terminated, TwoEols;
    HeadKept(kind, s, s', max);
    TwoEolsKept(s, s', ScanFrom(lastLen), false);
    assert s'[..lastLen] == s[..lastLen];
    if ParseHead(kind, s', max).Got? {
      ShortcutLossless(kind, s', lastLen, max);
    }
  }

  /** The two calls differ exactly on errors: one of them has seen the error, the other still asks for input. */
  lemma ShortcutDiffers(kind: Kind, s: seq<byte>, lastLen: nat, max: nat)
    requires lastLen <= |s| && !ParseHead(kind, s[..lastLen], max).Got?
    ensures var plain, from := ParseHead(kind, s, max), if lastLen < 3 then 0 else lastLen - 3;
            Guarded(s, lastLen, plain) != plain
            <==> lastLen != 0 && ((plain.Bad? && Waiting(s, from)) || (plain.Partial? && Broken(s, from)))
  {
    hide ParseHead, IsComplete, Broken, Waiting;
    ShortcutLossless(kind, s, lastLen, max);
    CompleteIs(s, lastLen);
  }

  /** `G` and a control byte: the parser rejects it, the guarded call still waits for two line ends. */
  lemma ErrorLater(max: nat)
    ensures var s := [71, 1];
            && ParseHead(ForRequest, s[..1], max).Partial? && ParseHead(ForRequest, s, max).Bad?
            && Guarded(s, 1, ParseHead(ForRequest, s, max)).Partial?
  {
    var s: seq<byte> := [71, 1];
    assert TokenEnd(s, 1).Bad? && TokenEnd(s[..1], 1).Partial?;
    assert TwoEols(s, 2, false).Partial?;
    assert TwoEols(s, 1, false).Partial?;
  }

  /** `GET / `, CR and another byte: the parser still waits for a version, the guarded call rejects the CR. */
  lemma ErrorEarlier(max: nat)
    ensures var s := [71, 69, 84, 32, 47, 32, 13, 88];
            && ParseHead(ForRequest, s[..3], max).Partial? && ParseHead(ForRequest, s, max).Partial?
            && Guarded(s, 3, ParseHead(ForRequest, s, max)).Bad?
  {
    hide TwoEols, Headers, TokenEnd, SpaceEnd, IsComplete;
    var s: seq<byte> := [71, 69, 84, 32, 47, 32, 13, 88];
    TokenEndAt(s, 0, 3);
    TokenEndAt(s, 4, 5);
    SpaceEndAt(s, 4, 4);
    SpaceEndAt(s, 6, 6);
    assert VersionLine(s, 6).Partial?;
    assert s[..3] == [71, 69, 84];
    TokenOpen(s[..3], 0);
    BareCrRejected(s);
  }

  lemma BareCrRejected(s: seq<byte>)
    requires s == [71, 69, 84, 32, 47, 32, 13, 88]
    ensures IsComplete(s, 3).Bad?
  {
    assert TwoEols(s, 6, false).Bad?;
    assert TwoEols(s, 4, false).Bad?;
    assert TwoEols(s, 2, false).Bad?;
    assert TwoEols(s, 0, false).Bad?;
  }

  // ---------- a whole connection ----------

  /** The caller's loop: parse what has arrived after each read, telling how much was there before, until an answer. */
  function Poll(kind: Kind, s: seq<byte>, cuts: seq<nat>, lastLen: nat, max: nat): Scan<Head>
    requires forall k :: 0 <= k < |cuts| ==> cuts[k] <= |s|
    decreases |cuts|
  {
    if cuts == [] then Partial
    else
      var got := s[..cuts[0]];
      var r := Guarded(got, lastLen, ParseHead(kind, got, max));
      if r.Partial? then Poll(kind, s, cuts[1..], cuts[0], max) else r
  }

  ghost predicate Growing(lastLen: nat, cuts: seq<nat>, len: nat) {
    && (forall k :: 0 <= k < |cuts| ==> lastLen <= cuts[k] <= len)
    && (forall j, k :: 0 <= j < k < |cuts| ==> cuts[j] <= cuts[k])
  }

  lemma EarlierRead(s: seq<byte>, i: nat, j: nat)
    requires i <= j <= |s|
    ensures s[..j][..i] == s[..i] && s[..i] <= s[..j]
  {
  }

  lemma {:induction false} PollFrom(kind: Kind, s: seq<byte>, cuts: seq<nat>, lastLen: nat, max: nat)
    requires lastLen <= |s| && Growing(lastLen, cuts, |s|) && (cuts == [] ==> lastLen == |s|)
    requires cuts != [] ==> cuts[|cuts| - 1] == |s|
    requires !ParseHead(kind, s[..lastLen], max).Got?
    ensures var polled, whole := Poll(kind, s, cuts, lastLen, max), ParseHead(kind, s, max);
            (polled.Got? <==> whole.Got?) && (whole.Got? ==> polled == whole)
    decreases |cuts|
  {
    hide ParseHead;
    assert s[..|s|] == s;
    if cuts != [] {
      var n := cuts[0];
      var got := s[..n];
      EarlierRead(s, lastLen, n);
      HeadKept(kind, got, s, max);
      ShortcutLossless(kind, got, lastLen, max);
      var r := Guarded(got, lastLen, ParseHead(kind, got, max));
      if r.Bad? {
        ShortcutErrorFinal(kind, got, lastLen, max, s);
      } else if r.Partial? {
        LastRead(cuts, |s|);
        PollFrom(kind, s, cuts[1..], n, max);
      }
    }
  }

  lemma LastRead(cuts: seq<nat>, len: nat)
    requires cuts != [] && cuts[|cuts| - 1] == len
    ensures if cuts[1..] == [] then cuts[0] == len else cuts[1..][|cuts[1..]| - 1] == len
  {
  }

  /**
   However a stream arrives, reading it with the shortcut finds a head exactly when one parse of the whole
   stream does, and the same head; pipelined bytes behind it change nothing.
   */
  lemma PollIsParse(kind: Kind, s: seq<byte>, cuts: seq<nat>, max: nat)
    requires cuts != [] && Growing(0, cuts, |s|) && cuts[|cuts| - 1] == |s|
    ensures var polled, whole := Poll(kind, s, cuts, 0, max), ParseHead(kind, s, max);
            (polled.Got? <==> whole.Got?) && (whole.Got? ==> polled == whole)
  {
    PollFrom(kind, s, cuts, 0, max);
  }

  // ---------- header blocks alone ----------

  lemma HeadersLossless(s: seq<byte>, lastLen: nat, max: nat)
    requires s != [] && s[0] != CR && lastLen <= |s| && !ParseHeaders(s[..lastLen], max).Got?
    requires ParseHeaders(s, max).Got?
    ensures Guarded(s, lastLen, ParseHeaders(s, max)).Got?
  {
    hide Headers, Terminated, WellFormedLines, Line.WellFormed, Line.Bytes;
    var lines, end := BlockOf(s, 0, [], max);
    var block := BlockBytes(lines, end);
    assert s[..|block|] == block == block[0..|block|];
    BlockRead(s, 0, lines, end, [], max);
    BlockRead(block, 0, lines, end, [], max);
    if |block| <= lastLen {
      HeadersKept(block, s[..lastLen], 0, [], max);
      assert false;
    }
    if lines == [] {
      assert block[0] == s[0];
      assert lastLen == 0;
    } else {
      BlockTerminated([], lines, end, true);
      assert [] + block == block;
      CompleteFound(s, |block|, end, lastLen);
    }
  }

  /** A block that is longer than one line end cannot have been complete when the first two bytes came. */
  lemma BlankLineWasThere(s: seq<byte>, lastLen: nat, max: nat)
    requires 2 <= lastLen <= |s| && s[0] == CR && ParseHeaders(s, max).Got?
    ensures ParseHeaders(s[..lastLen], max).Got?
  {
    assert s[..lastLen][1] == s[1];
  }

  /** What the scan makes of a block that starts with a whole line end. */
  lemma ScanBehindCrLf(s: seq<byte>)
    requires |s| >= 2 && s[0] == CR && s[1] == LF
    ensures IsComplete(s, 1) == TwoEols(s, 2, true)
  {
  }

  /**
   For a header block parsed alone the shortcut loses an answer exactly when the CR of a blank line CR LF came as
   the only byte of the earlier reads and the bytes from that LF on do not hold two line ends in a row before a
   bare CR. A bare CR makes it an error, else it is reported as incomplete.
   */
  lemma HeadersShortcut(s: seq<byte>, lastLen: nat, max: nat)
    requires lastLen <= |s| && !ParseHeaders(s[..lastLen], max).Got?
    ensures var plain, guarded := ParseHeaders(s, max), Guarded(s, lastLen, ParseHeaders(s, max));
            && (guarded.Got? <==> plain.Got? && !(lastLen == 1 && s[0] == CR && !Ended(s, 1)))
            && (guarded.Got? ==> guarded == plain)
            && (plain.Got? && !guarded.Got?
                ==> (guarded.Bad? <==> Broken(s, 1)) && (guarded.Partial? <==> Waiting(s, 1)))
  {
    hide TwoEols, Headers, IsComplete, Ended, Broken, Waiting;
    if ParseHeaders(s, max).Got? {
      HeadNotEmpty(s, max);
      if s[0] != CR {
        HeadersLossless(s, lastLen, max);
      } else if lastLen >= 2 {
        BlankLineWasThere(s, lastLen, max);
      } else if lastLen == 1 {
        ScanBehindCrLf(s);
        TwoEolsIs(s, 2, true);
      }
    }
  }

  lemma HeadNotEmpty(s: seq<byte>, max: nat)
    requires ParseHeaders(s, max).Got?
    ensures s != [] && (s[0] == CR ==> |s| >= 2 && s[1] == LF)
  {
  }

  /** The lost answer: a blank line CR LF that comes byte by byte. */
  lemma BlankLineLost(max: nat)
    ensures var s := [CR, LF];
            && ParseHeaders(s[..1], max).Partial? && ParseHeaders(s, max) == Got([], 2)
            && Guarded(s, 1, ParseHeaders(s, max)).Partial?
  {
    var s := [CR, LF];
    assert s[..1] == [CR];
    assert TwoEols(s, 2, true).Partial?;
  }

  /** The same line lost to an error: behind it stands a bare CR. */
  lemma BlankLineRejected(max: nat)
    ensures var s := [CR, LF, CR, 88];
            && ParseHeaders(s[..1], max).Partial? && ParseHeaders(s, max) == Got([], 2)
            && Guarded(s, 1, ParseHeaders(s, max)).Bad?
  {
    var s := [CR, LF, CR, 88];
    assert s[..1] == [CR];
    assert TwoEols(s, 2, true).Bad?;
  }

  /** And saved by two line ends that come later. */
  lemma BlankLineSaved(max: nat)
    ensures var s := [CR, LF, 88, LF, LF];
            && ParseHeaders(s[..1], max).Partial? && ParseHeaders(s, max) == Got([], 2)
            && Guarded(s, 1, ParseHeaders(s, max)) == Got([], 2)
  {
    hide Headers;
    var s := [CR, LF, 88, LF, LF];
    assert s[..1] == [CR];
    BlankLineRead(s, max);
    BlankLineRead(s[..1], max);
    assert TwoEnds(s, 3) && NoneBare(s, 0, 3);
    CompleteIs(s, 1);
  }

  lemma BlankLineRead(s: seq<byte>, max: nat)
    requires s != [] && s[0] == CR
    ensures |s| == 1 ==> ParseHeaders(s, max).Partial?
    ensures |s| > 1 && s[1] == LF ==> ParseHeaders(s, max) == Got([], 2)
  {
  }
}
