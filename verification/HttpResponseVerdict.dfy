/** When the response parser asks for more and when it reports an error, said on the bytes. */
module HttpResponseVerdict {
  import opened Bytes
  import opened HttpScan
  import opened HttpParse
  import opened HttpGrammar
  import opened HttpMessages
  import opened HttpVerdict

  /** Some continuation parses. */
  ghost predicate ResponseCan(s: seq<byte>, max: nat) { exists t :: ParseResponse(s + t, max).Got? }

  /** Fewer than nine bytes that are no version. */
  ghost predicate NoVersion(s: seq<byte>) { |s| < 9 && !VersionBegins(s) }

  /** Behind the version come spaces and then `x`. */
  ghost predicate Behind(s: seq<byte>, minor: nat, gap: nat, x: seq<byte>) {
    minor < 10 && gap > 0 && s == VersionBytes(minor) + (Spaces(gap) + x) && x != [] && x[0] != SP
  }

  /** Fewer than four bytes stand where the status is looked for, and they are not all digits. */
  ghost predicate StatusWrong(s: seq<byte>) {
    exists minor: nat, gap: nat, u :: Behind(s, minor, gap, u) && |u| < 4 && !All(IsDigit, u)
  }

  /** Text with no space in front stands right behind the status, and its line has not ended. */
  ghost predicate ReasonWrong(s: seq<byte>) {
    exists minor: nat, gap: nat, digits, y, cr :: WrongReason(s, minor, gap, digits, y, cr)
  }

  ghost predicate WrongReason(s: seq<byte>, minor: nat, gap: nat, digits: seq<byte>, y: seq<byte>, cr: seq<byte>) {
    && IsStatus(digits) && y != [] && y[0] != SP && All(IsText, y) && (cr == [] || cr == [CR])
    && Behind(s, minor, gap, digits + (y + cr))
  }

  /** Text that has not ended: all that is left, or all but a CR at the end. */
  lemma {:induction false} TextOpen(s: seq<byte>, i: nat)
    requires i <= |s|
    ensures TextEnd(s, i).Partial?
       <==> AllIn(IsText, s, i, |s|) || (i < |s| && s[|s| - 1] == CR && AllIn(IsText, s, i, |s| - 1))
    decreases |s| - i
  {
    hide IsText;
    CrLfNoText();
    if i < |s| { TextOpen(s, i + 1); }
  }

  lemma CrLfNoText()
    ensures !IsText(CR) && !IsText(LF)
  {
  }

  // ---------- what can be continued ----------

  lemma ResponseGoesOn(s: seq<byte>, t: ResponseText, max: nat)
    requires t.WellFormed() && |t.lines| <= max && s <= t.Bytes()
    ensures ResponseCan(s, max)
  {
    hide ResponseText.Bytes, ParseResponse;
    var head := t.Bytes();
    assert s + head[|s|..] == head && head[0..|head|] == head;
    ResponseRead(head, t, max);
  }

  /** A response without fields and reason. */
  function Bare(minor: nat, gap: nat, digits: seq<byte>): ResponseText {
    ResponseText(minor, gap, digits, 0, [], Lf, [], Lf)
  }

  lemma BareStarts(t: ResponseText)
    requires t.minor < 10
    ensures VersionBytes(t.minor) <= t.Bytes()
    ensures VersionBytes(t.minor) + (Spaces(t.gap1) + t.digits) <= t.Bytes()
  {
    hide VersionBytes, Spaces, Eol.Bytes, BlockBytes;
    var rest := Spaces(t.gap2) + (t.reason + (t.eol.Bytes() + BlockBytes(t.lines, t.end)));
    assert t.Bytes() == (VersionBytes(t.minor) + (Spaces(t.gap1) + t.digits)) + rest;
  }

  const ZEROS: seq<byte> := [DIGIT_0, DIGIT_0, DIGIT_0]

  lemma ZerosAreStatus()
    ensures IsStatus(ZEROS)
  {
  }

  lemma InVersion(s: seq<byte>, max: nat)
    requires VersionBegins(s)
    ensures ResponseCan(s, max)
  {
    hide VersionBytes, ResponseText.Bytes, IsStatus;
    var minor :| 0 <= minor < 10 && s <= VersionBytes(minor);
    ZerosAreStatus();
    BareStarts(Bare(minor, 1, ZEROS));
    ResponseGoesOn(s, Bare(minor, 1, ZEROS), max);
  }

  lemma InStatus(s: seq<byte>, minor: nat, gap: nat, u: seq<byte>, max: nat)
    requires minor < 10 && gap > 0 && s == VersionBytes(minor) + (Spaces(gap) + u) && |u| < 4 && All(IsDigit, u)
    ensures ResponseCan(s, max)
  {
    hide VersionBytes, Spaces, ResponseText.Bytes, All, IsDigit, ResponseText.WellFormed;
    var t := Bare(minor, gap, Padded(u));
    BareStarts(t);
    PaddedStatus(u);
    BareWell(t);
    StartsLonger3(VersionBytes(minor), Spaces(gap), u, Padded(u));
    assert VersionBytes(minor) + (Spaces(gap) + Padded(u)) <= t.Bytes();
    ResponseGoesOn(s, t, max);
  }

  /** Three digits that start with these. */
  function Padded(u: seq<byte>): seq<byte>
    requires |u| < 4
  {
    u + ZEROS[|u|..]
  }

  lemma PaddedStatus(u: seq<byte>)
    requires |u| < 4 && All(IsDigit, u)
    ensures IsStatus(Padded(u)) && u <= Padded(u)
  {
  }

  lemma BareWell(t: ResponseText)
    requires t == Bare(t.minor, t.gap1, t.digits) && t.minor < 10 && 0 < t.gap1 && IsStatus(t.digits)
    ensures t.WellFormed()
  {
  }

  lemma StartsLonger3(a: seq<byte>, b: seq<byte>, x: seq<byte>, y: seq<byte>)
    requires x <= y
    ensures a + (b + x) <= a + (b + y)
  {
    var c := y[|x|..];
    assert x + c == y;
    assert a + (b + (x + c)) == (a + (b + x)) + c;
  }

  /** The line is ended, and the block behind it. */
  lemma InReason(s: seq<byte>, d: nat, max: nat)
    requires Version(s, 0).Got? && s[8] == SP && d == SpaceEnd(s, 8) && |s| >= d + 4 && HasStatus(s, d)
    requires TextEnd(s, d + 3).Partial? && (s[d + 3] == SP || s[d + 3] == CR)
    ensures ResponseCan(s, max)
  {
    hide StatusLine, Headers;
    LineEnds(s, d);
    var s1, s2 := s + [LF], s + [LF, LF];
    assert s2 == s1 + [LF];
    StatusLineKept(s1, s2);
    BlankLineEnds(s2, |s| + 1, [], max);
    assert ParseResponse(s2, max).Got?;
  }

  lemma LineEnds(s: seq<byte>, d: nat)
    requires Version(s, 0).Got? && s[8] == SP && d == SpaceEnd(s, 8) && |s| >= d + 4 && HasStatus(s, d)
    requires TextEnd(s, d + 3).Partial? && (s[d + 3] == SP || s[d + 3] == CR)
    ensures StatusLine(s + [LF]).Got? && StatusLine(s + [LF]).next == |s| + 1
  {
    hide SpaceEnd, Version, TextEnd, HttpParse.ReasonAt, Status;
    var s1 := s + [LF];
    ReasonEnds(s, d + 3);
    VersionKept(s, s1, 0);
    SpaceEndKept(s, s1, 8);
    assert HasStatus(s1, d);
  }

  lemma ReasonEnds(s: seq<byte>, i: nat)
    requires i < |s| && TextEnd(s, i).Partial? && (s[i] == SP || s[i] == CR)
    ensures HttpParse.ReasonAt(s + [LF], i).Got? && HttpParse.ReasonAt(s + [LF], i).next == |s| + 1
  {
    hide TextEnd, SpaceEnd;
    FinishText(s, i);
    if s[i] == CR { TextEndAtCr(s + [LF], i); }
  }

  lemma TextEndAtCr(s: seq<byte>, i: nat)
    requires TextEnd(s, i).Got? && i < |s| && s[i] == CR
    ensures TextEnd(s, i).value == i
  {
  }

  /** In the header block. */
  lemma InHeaders(s: seq<byte>, max: nat)
    requires StatusLine(s).Got? && Headers(s, StatusLine(s).next, [], max).Partial?
    ensures ResponseCan(s, max)
  {
    hide StatusLine, Headers;
    var t := FinishHeaders(s, StatusLine(s).next, [], max);
    StatusLineKept(s, s + t);
    assert ParseResponse(s + t, max).Got?;
  }

  // ---------- why a response is waited for ----------

  lemma BehindThere(s: seq<byte>, d: nat)
    requires Version(s, 0).Got? && s[8] == SP && d == SpaceEnd(s, 8)
    ensures Version(s, 0).value < 10 && 8 < d <= |s|
    ensures s == VersionBytes(Version(s, 0).value) + (Spaces(d - 8) + s[d..])
  {
    hide VersionBytes, Version, At, Spaces, SpaceEnd;
    var minor := Version(s, 0).value;
    VersionOf(s, 0);
    VersionLength(minor);
    SpaceCount(s, d);
    Begins(s, VersionBytes(minor));
    SpacesAt(s, 8, d - 8);
    Next(s, 8, Spaces(d - 8));
  }

  lemma WaitsForStatus(s: seq<byte>, d: nat, max: nat)
    requires Version(s, 0).Got? && s[8] == SP && d == SpaceEnd(s, 8) && |s| < d + 4
    ensures ResponseCan(s, max) || StatusWrong(s)
  {
    hide VersionBytes, Spaces, ResponseCan, SpaceEnd, Version, All, IsDigit;
    BehindThere(s, d);
    var minor, u := Version(s, 0).value, s[d..];
    if All(IsDigit, u) {
      InStatus(s, minor, d - 8, u, max);
    } else {
      EmptyAll();
      assert Behind(s, minor, d - 8, u);
    }
  }

  lemma EmptyAll()
    ensures All(IsDigit, [])
  {
  }

  lemma WaitsForReason(s: seq<byte>, d: nat, max: nat)
    requires Version(s, 0).Got? && s[8] == SP && d == SpaceEnd(s, 8) && |s| >= d + 4 && HasStatus(s, d)
    requires HttpParse.ReasonAt(s, d + 3).Partial?
    ensures ResponseCan(s, max) || ReasonWrong(s)
  {
    hide VersionBytes, Spaces, ResponseCan, SpaceEnd, Version, IsDigit, IsText, IsStatus, HasStatus, TextEnd;
    if s[d + 3] == SP || s[d + 3] == CR {
      InReason(s, d, max);
    } else {
      TextOpen(s, d + 3);
      BehindThere(s, d);
      ReasonIsWrong(s, d);
    }
  }

  lemma ReasonIsWrong(s: seq<byte>, d: nat)
    requires HasStatus(s, d) && |s| >= d + 4 && s[d + 3] != SP && s[d + 3] != CR && d > 8
    requires AllIn(IsText, s, d + 3, |s|) || (s[|s| - 1] == CR && AllIn(IsText, s, d + 3, |s| - 1))
    requires Version(s, 0).Got? && s[d] != SP && s == VersionBytes(Version(s, 0).value) + (Spaces(d - 8) + s[d..])
    ensures ReasonWrong(s)
  {
    hide VersionBytes, Spaces, Version, IsText, AllIn, All;
    var minor, digits, i := Version(s, 0).value, s[d..d + 3], d + 3;
    VersionOf(s, 0);
    var e := if AllIn(IsText, s, i, |s|) then |s| else |s| - 1;
    SplitReason(s, d, e);
    StatusThere(s, d);
    IsWrong(s, minor, d - 8, digits, s[i..e], s[e..]);
  }

  lemma IsWrong(s: seq<byte>, minor: nat, gap: nat, digits: seq<byte>, y: seq<byte>, cr: seq<byte>)
    requires WrongReason(s, minor, gap, digits, y, cr)
    ensures ReasonWrong(s)
  {
    hide WrongReason;
  }

  lemma SplitReason(s: seq<byte>, d: nat, e: nat)
    requires d + 3 <= e <= |s| && AllIn(IsText, s, d + 3, e)
    ensures All(IsText, s[d + 3..e]) && s[d..] == s[d..d + 3] + (s[d + 3..e] + s[e..])
  {
    hide IsText;
    AtAll(IsText, s, d + 3, s[d + 3..e]);
  }

  lemma StatusThere(s: seq<byte>, d: nat)
    requires HasStatus(s, d)
    ensures IsStatus(s[d..d + 3])
  {
  }

  lemma ResponseWaits(s: seq<byte>, max: nat)
    requires ParseResponse(s, max).Partial?
    ensures ResponseCan(s, max) || NoVersion(s) || StatusWrong(s) || ReasonWrong(s)
  {
    hide Headers, HttpParse.ReasonAt, SpaceEnd, HasStatus, Status, ResponseCan, StatusWrong, ReasonWrong;
    var version := Version(s, 0);
    if version.Partial? {
      if VersionBegins(s) { InVersion(s, max); }
    } else if StatusLine(s).Got? {
      InHeaders(s, max);
    } else {
      var d := SpaceEnd(s, 8);
      if |s| - d < 4 { WaitsForStatus(s, d, max); } else { WaitsForReason(s, d, max); }
    }
  }

  // ---------- and why it is waited for in vain ----------

  lemma BehindScans(s: seq<byte>, minor: nat, gap: nat, x: seq<byte>)
    requires Behind(s, minor, gap, x)
    ensures Version(s, 0) == Got(minor, 8) && |s| == 8 + gap + |x| && s[8] == SP && SpaceEnd(s, 8) == 8 + gap
    ensures s[8 + gap..] == x
  {
    hide VersionBytes, Spaces, At, Version, SpaceEnd;
    VersionLength(minor);
    AtWhole(s);
    AtConcat(s, 0, VersionBytes(minor), Spaces(gap) + x);
    AtConcat(s, 8, Spaces(gap), x);
    AtHead(s, 8 + gap, x);
    Next(s, 8 + gap, x);
    assert s[|s|..] == [] && x + [] == x;
    VersionRead(s, 0, minor);
    SpacesAt(s, 8, gap);
    FirstSpace(s, 8, 8 + gap);
    SpaceEndAt(s, 8, 8 + gap);
  }

  lemma VersionLength(minor: nat)
    requires minor < 10
    ensures |VersionBytes(minor)| == 8
  {
  }

  lemma WrongReasonWaits(s: seq<byte>, minor: nat, gap: nat, digits: seq<byte>, y: seq<byte>, cr: seq<byte>, max: nat)
    requires WrongReason(s, minor, gap, digits, y, cr)
    ensures ParseResponse(s, max).Partial?
  {
    hide VersionBytes, Spaces, Version, SpaceEnd, IsText, Headers, TextEnd, Behind, All, IsDigit;
    var x := digits + (y + cr);
    var d := 8 + gap;
    BehindScans(s, minor, gap, x);
    DigitsFirst(s, d, digits, y + cr);
    TextStays(s, d + 3, y, cr);
  }

  lemma DigitsFirst(s: seq<byte>, d: nat, digits: seq<byte>, rest: seq<byte>)
    requires d <= |s| && s[d..] == digits + rest && IsStatus(digits)
    ensures d + 3 <= |s| && HasStatus(s, d) && s[d + 3..] == rest
  {
    assert s[d..][..3] == digits && s[d..][3..] == rest;
    assert s[d] == digits[0] && s[d + 1] == digits[1] && s[d + 2] == digits[2];
  }

  lemma TextStays(s: seq<byte>, i: nat, y: seq<byte>, cr: seq<byte>)
    requires i <= |s| && s[i..] == y + cr && All(IsText, y) && y != [] && (cr == [] || cr == [CR])
    ensures TextEnd(s, i).Partial? && s[i] == y[0]
  {
    hide IsText, TextEnd;
    assert s[i..i + |y|] == s[i..][..|y|] == y;
    AtAll(IsText, s, i, y);
    assert cr != [] ==> s[|s| - 1] == s[i..][|y|];
    assert s[i..][0] == y[0];
    TextOpen(s, i);
  }

  /**
   A response is waited for exactly when it has not parsed and either some continuation of it parses, or the bytes are
   fewer than nine and no version, or fewer than four bytes stand for the status and are not all digits, or text
   stands right behind the status and its line has not ended. In all other cases in which it does not parse it is an
   error.
   */
  lemma ResponseVerdict(s: seq<byte>, max: nat)
    ensures ParseResponse(s, max).Partial?
       <==> !ParseResponse(s, max).Got? && (ResponseCan(s, max) || NoVersion(s) || StatusWrong(s) || ReasonWrong(s))
    ensures ParseResponse(s, max).Bad? ==> forall t :: !ParseResponse(s + t, max).Got?
  {
    hide ParseResponse, Behind, WrongReason, VersionBegins;
    forall t ensures Kept(ParseResponse(s, max), ParseResponse(s + t, max)) { ResponseKept(s, s + t, max); }
    if ParseResponse(s, max).Partial? { ResponseWaits(s, max); }
    if NoVersion(s) { assert ParseResponse(s, max).Partial? by { ShortWaits(s, max); } }
    if StatusWrong(s) {
      var minor: nat, gap: nat, u :| Behind(s, minor, gap, u) && |u| < 4 && !All(IsDigit, u);
      ShortStatusWaits(s, minor, gap, u, max);
    }
    if ReasonWrong(s) {
      var minor: nat, gap: nat, digits, y, cr :| WrongReason(s, minor, gap, digits, y, cr);
      WrongReasonWaits(s, minor, gap, digits, y, cr, max);
    }
  }

  lemma ShortWaits(s: seq<byte>, max: nat)
    requires |s| < 9
    ensures ParseResponse(s, max).Partial?
  {
  }

  lemma ShortStatusWaits(s: seq<byte>, minor: nat, gap: nat, u: seq<byte>, max: nat)
    requires Behind(s, minor, gap, u) && |u| < 4
    ensures ParseResponse(s, max).Partial?
  {
    hide Behind, Version, SpaceEnd, HasStatus, Headers;
    BehindScans(s, minor, gap, u);
  }
}
