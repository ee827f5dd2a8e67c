/**
 Placeholder expansion in both generators: one rewrites the line until no placeholder is left,
 the other cuts pieces off its front. When each of them ends, and when the first does not.
 */
module TemplateExpand {
  import opened Common
  import opened TemplateText

  /** `$_S{..}` goes through `std::to_string`, `${..}` is taken as it is. */
  datatype Kind = AsText | AsIs

  function Opener(kind: Kind): (op: string)
    ensures op != "" && op[0] == '$' && '"' !in op && '}' !in op && ' ' !in op && '(' !in op && ')' !in op
  {
    if kind == AsText then "$_S{" else "${"
  }

  function Code(kind: Kind, name: string): string {
    if kind == AsText then "std::to_string(" + name + ")" else name
  }

  /** What stands between the closing and the reopening quote. */
  function Inserted(kind: Kind, name: string): string {
    if kind == AsText then " << std::to_string(" + name + ") << " else " << " + name + " << "
  }

  /** The condition of the loops. */
  predicate Open(kind: Kind, line: string) {
    Has(line, Opener(kind)) && Has(line, "}")
  }

  function OpenAt(kind: Kind, line: string): nat
    requires Open(kind, line)
  {
    Find(line, Opener(kind)).value
  }

  function CloseAt(line: string): nat
    requires Has(line, "}")
  {
    Find(line, "}").value
  }

  /** The text taken for the expression: from the first opener to the first closing brace, wherever that is. */
  function Name(kind: Kind, line: string): string
    requires Open(kind, line)
  {
    var start := OpenAt(kind, line) + |Opener(kind)|;
    Substr(line, start, CloseAt(line) - start)
  }

  /** The text taken for the placeholder. */
  function Whole(kind: Kind, line: string): string
    requires Open(kind, line)
  {
    Substr(line, OpenAt(kind, line), CloseAt(line) + 1 - OpenAt(kind, line))
  }

  /** One pass of the rewriting loop. */
  function Rewrite(kind: Kind, line: string): string
    requires Open(kind, line)
  {
    ReplaceAll(line, Whole(kind, line), "\"" + Inserted(kind, Name(kind, line)) + "\"")
  }

  /** The first closing brace stands right before the first opener. */
  predicate Stuck(kind: Kind, line: string) {
    Open(kind, line) && CloseAt(line) + 1 == OpenAt(kind, line)
  }

  // ---------- when the rewriting loop gets on ----------

  lemma {:induction false} CountZero(g: string, s: string)
    requires g != "" && g[0] !in s
    ensures Count(g, s) == 0
    decreases |s|
  {
    if s != "" { CountZero(g, s[1..]); }
  }

  /** The text put in holds exactly the occurrences the expression holds. */
  lemma CountInserted(g: string, kind: Kind, name: string)
    requires g != "" && (g[0] == '$' || g[0] == '}') && ' ' !in g && '(' !in g && ')' !in g
    ensures Count(g, Inserted(kind, name)) == Count(g, name)
  {
    hide Count;
    if kind == AsText { CountInCall(g, name); } else { CountAsIs(g, name); }
  }

  lemma CountInCall(g: string, name: string)
    requires g != "" && (g[0] == '$' || g[0] == '}') && ' ' !in g && '(' !in g && ')' !in g
    ensures Count(g, Inserted(AsText, name)) == Count(g, name)
  {
    hide Count;
    assert Inserted(AsText, name) == " << std::to_string" + (['('] + (name + ([')'] + " << ")));
    CountZero(g, " << std::to_string");
    CountZero(g, " << ");
    CountApart(g, " << std::to_string", '(', name + ([')'] + " << "));
    CountApart(g, name, ')', " << ");
  }

  lemma CountAsIs(g: string, name: string)
    requires g != "" && (g[0] == '$' || g[0] == '}') && ' ' !in g
    ensures Count(g, Inserted(AsIs, name)) == Count(g, name)
  {
    hide Count;
    assert Inserted(AsIs, name) == " <<" + ([' '] + (name + ([' '] + "<< ")));
    CountZero(g, " <<");
    CountZero(g, "<< ");
    CountApart(g, " <<", ' ', name + ([' '] + "<< "));
    CountApart(g, name, ' ', "<< ");
  }

  /** Where the first opener and the first closing brace stand. */
  lemma Marks(kind: Kind, line: string)
    requires Open(kind, line)
    ensures var op, o, c := Opener(kind), OpenAt(kind, line), CloseAt(line);
            && o + |op| <= |line| && line[o..o + |op|] == op
            && c < |line| && line[c] == '}' && (c < o || o + |op| <= c)
  {
    hide Find;
    var op, o, c := Opener(kind), OpenAt(kind, line), CloseAt(line);
    assert line[o..][..|op|] == line[o..o + |op|];
    assert line[c..][0] == '}';
    NotInside(line, o, op, c);
  }

  lemma NotInside(line: string, o: nat, op: string, c: nat)
    requires o + |op| <= |line| && line[o..o + |op|] == op && c < |line| && line[c] !in op
    ensures c < o || o + |op| <= c
  {
    forall k | o <= k < o + |op| ensures line[k] in op {
      assert line[k] == line[o..o + |op|][k - o];
    }
  }

  /** A placeholder that is not stuck starts with its opener and holds its expression. */
  lemma WholeShape(kind: Kind, line: string) returns (tail: string)
    requires Open(kind, line) && !Stuck(kind, line)
    ensures Whole(kind, line) == Opener(kind) + (Name(kind, line) + tail) && Has(line, Whole(kind, line))
  {
    hide Find, Opener, Substr, Whole, Name;
    var op, o, c := Opener(kind), OpenAt(kind, line), CloseAt(line);
    Marks(kind, line);
    tail := if c >= o then "}" else "";
    WholeSlice(line, op, o, c);
    TakenIs(kind, line);
    FoundSomewhere(line, Whole(kind, line), o);
  }

  lemma TakenIs(kind: Kind, line: string)
    requires Open(kind, line) && OpenAt(kind, line) + |Opener(kind)| <= |line|
    ensures var o, c, n := OpenAt(kind, line), CloseAt(line), |Opener(kind)|;
            Whole(kind, line) == Substr(line, o, c + 1 - o) && Name(kind, line) == Substr(line, o + n, c - (o + n))
  {
    hide Find, Opener, Substr;
  }

  /** What the two `substr` calls take. */
  lemma WholeSlice(line: string, op: string, o: nat, c: nat)
    requires o + |op| <= |line| && line[o..o + |op|] == op && c < |line| && line[c] == '}'
    requires c + 1 < o || o + |op| <= c
    ensures var whole := Substr(line, o, c + 1 - o);
            && whole == op + (Substr(line, o + |op|, c - (o + |op|)) + if c >= o then "}" else "")
            && whole <= line[o..]
  {
    hide Substr;
    var p := o + |op|;
    if c >= o {
      SubstrIs(line, o, c + 1);
      SubstrIs(line, p, c);
      Slices(line, o, p, c);
    } else {
      SubstrToEnd(line, o, c + 1 - o);
      SubstrToEnd(line, p, c - p);
      Slices(line, o, p, |line|);
    }
  }

  lemma SubstrIs(s: string, from: nat, to: nat)
    requires from <= to <= |s|
    ensures Substr(s, from, to - from) == s[from..to]
  {
  }

  lemma SubstrToEnd(s: string, from: nat, len: int)
    requires from <= |s| && len < 0
    ensures Substr(s, from, len) == s[from..]
  {
  }

  lemma FoundSomewhere(s: string, pat: string, k: nat)
    requires k <= |s| && pat <= s[k..]
    ensures Has(s, pat)
  {
  }

  lemma Slices(line: string, o: nat, p: nat, c: nat)
    requires o <= p <= c <= |line|
    ensures c < |line| && line[c] == '}'
            ==> line[o..c + 1] == line[o..p] + (line[p..c] + "}") && line[o..c + 1] <= line[o..]
    ensures c == |line| ==> line[o..] == line[o..p] + (line[p..] + "")
  {
    if c < |line| {
      assert line[o..c + 1] == line[o..p] + (line[p..c] + [line[c]]);
      assert line[o..][..c + 1 - o] == line[o..c + 1];
    }
  }

  lemma CountSelf(g: string)
    requires g != ""
    ensures Count(g, g) >= 1
  {
  }

  /** A stuck pass changes nothing; any other pass takes at least one opener away. */
  lemma PassProgress(kind: Kind, line: string)
    requires Open(kind, line)
    ensures Stuck(kind, line) ==> Rewrite(kind, line) == line
    ensures !Stuck(kind, line) ==> Count(Opener(kind), Rewrite(kind, line)) < Count(Opener(kind), line)
  {
    if !Stuck(kind, line) {
      hide Find, Count, Inserted, Opener, Name, Whole;
      var op, name := Opener(kind), Name(kind, line);
      var tail := WholeShape(kind, line);
      CountInserted(op, kind, name);
      CountSelf(op);
      CountConcat(op, name, tail);
      CountConcat(op, op, name + tail);
      CountReplaced(op, "", line, Whole(kind, line), Inserted(kind, name), 1);
      assert "" + line == line && "" + Rewrite(kind, line) == Rewrite(kind, line);
    }
  }

  /**
   A pass gets on, taking an opener away, exactly when the first closing brace does not stand right before the
   first opener; otherwise it leaves the line as it is, and the loop never ends.
   */
  lemma HangsExactly(kind: Kind, line: string)
    requires Open(kind, line)
    ensures Count(Opener(kind), Rewrite(kind, line)) < Count(Opener(kind), line)
            <==> CloseAt(line) + 1 != OpenAt(kind, line)
    ensures Rewrite(kind, line) == line <==> CloseAt(line) + 1 == OpenAt(kind, line)
  {
    PassProgress(kind, line);
  }

  /** The line the rewriting loop ends with, or `None` if it comes to a stuck line and so never ends. */
  function Expand(kind: Kind, line: string): Option<string>
    decreases Count(Opener(kind), line)
  {
    if !Open(kind, line) then Some(line)
    else if Stuck(kind, line) then None
    else
      PassProgress(kind, line);
      Expand(kind, Rewrite(kind, line))
  }

  /** Both loops of the rewriting generator. */
  function ExpandLine(line: string): Option<string> {
    var t :- Expand(AsText, line);
    Expand(AsIs, t)
  }

  /** A closing brace right before an opener. */
  predicate Glued(line: string) {
    Has(line, "}" + Opener(AsText)) || Has(line, "}" + Opener(AsIs))
  }

  lemma StuckIsGlued(kind: Kind, line: string)
    requires Stuck(kind, line)
    ensures Has(line, "}" + Opener(kind))
  {
    hide Find, Opener;
    var op, o, c := Opener(kind), OpenAt(kind, line), CloseAt(line);
    Marks(kind, line);
    assert line[c..][..1 + |op|] == [line[c]] + line[o..o + |op|];
    assert "}" + op <= line[c..];
  }

  lemma RewriteKeepsApart(kind: Kind, line: string, glue: Kind)
    requires Open(kind, line) && !Stuck(kind, line) && !Has(line, "}" + Opener(glue))
    ensures !Has(Rewrite(kind, line), "}" + Opener(glue))
  {
    var g, name := "}" + Opener(glue), Name(kind, line);
    var tail := WholeShape(kind, line);
    CountInserted(g, kind, name);
    CountConcat(g, name, tail);
    CountConcat(g, Opener(kind), name + tail);
    CountReplaced(g, "", line, Whole(kind, line), Inserted(kind, name), 0);
    assert "" + line == line && "" + Rewrite(kind, line) == Rewrite(kind, line);
    CountFound(g, line);
    CountFound(g, Rewrite(kind, line));
  }

  lemma {:induction false} ExpandEnds(kind: Kind, line: string)
    requires !Glued(line)
    ensures Expand(kind, line).Some? && !Glued(Expand(kind, line).value)
    decreases Count(Opener(kind), line)
  {
    if Open(kind, line) {
      if Stuck(kind, line) { StuckIsGlued(kind, line); }
      PassProgress(kind, line);
      RewriteKeepsApart(kind, line, AsText);
      RewriteKeepsApart(kind, line, AsIs);
      ExpandEnds(kind, Rewrite(kind, line));
    }
  }

  /** On every line, well-formed or not, with no closing brace right before an opener, the rewriting ends. */
  lemma RewritingEnds(line: string)
    requires !Has(line, "}$_S{") && !Has(line, "}${")
    ensures ExpandLine(line).Some?
  {
    hide Find, Expand;
    assert !Glued(line) by { assert "}" + "$_S{" == "}$_S{" && "}" + "${" == "}${"; }
    ExpandEnds(AsText, line);
    ExpandEnds(AsIs, Expand(AsText, line).value);
  }

  /** It is not so on every line: this one keeps the rewriting generator in its loop for ever. */
  lemma RewritingHangs()
    ensures ExpandLine("}${x}").None? && Stuck(AsIs, "}${x}")
  {
    hide Find, Expand;
    var line := "}${x}";
    BraceThenOpener(line);
    NotThere(line, "$_S{", 1);
    Unopened(AsText, line);
    StuckNone(AsIs, line);
  }

  lemma BraceThenOpener(line: string)
    requires line == "}${x}"
    ensures Find(line, "}") == Some(0) && Find(line, "${") == Some(1)
  {
    hide Find;
    assert line[0..] == line && line[1..] == "${x}";
    assert "}" <= line[0..] && "${" <= line[1..];
    assert !("${" <= line[0..]) by { assert line[0] == '}'; }
    FindIs(line, "}", 0);
    FindIs(line, "${", 1);
  }

  lemma Unopened(kind: Kind, line: string)
    requires !Open(kind, line)
    ensures Expand(kind, line) == Some(line)
  {
    hide Find;
  }

  lemma StuckNone(kind: Kind, line: string)
    ensures Stuck(kind, line) ==> Expand(kind, line).None?
  {
    hide Find, Rewrite, Count, Opener;
  }

  lemma {:induction false} NotThere(s: string, pat: string, i: nat)
    requires i < |pat| && pat[i] !in s
    ensures Find(s, pat).None?
    decreases |s|
  {
    assert |pat| <= |s| ==> s[i] != pat[i];
    if s != "" { NotThere(s[1..], pat, i); }
  }

  /** The loop as it runs; `None` stands for never ending. */
  method RunRewriting(kind: Kind, line: string) returns (r: Option<string>)
    ensures r == Expand(kind, line)
  {
    var temp := line;
    while Has(temp, Opener(kind)) && Has(temp, "}")
      invariant Expand(kind, line) == Expand(kind, temp)
      decreases Count(Opener(kind), temp)
    {
      var reps := Name(kind, temp);
      var oreps := Whole(kind, temp);
      var next := ReplaceAll(temp, oreps, "\"" + Inserted(kind, reps) + "\"");
      PassProgress(kind, temp);
      if next == temp { return None; }
      temp := next;
    }
    r := Some(temp);
  }

  // ---------- cutting ----------

  /** What the cutting generator appends: literal text or an expression. */
  datatype Piece = TextPiece(text: string) | CodePiece(code: string)

  /** What one pass cuts off. */
  function Front(kind: Kind, line: string): seq<Piece>
    requires Open(kind, line)
  {
    var before := line[..OpenAt(kind, line)];
    (if before != "" then [TextPiece(before)] else []) + [CodePiece(Code(kind, Name(kind, line)))]
  }

  /** The pieces cut off, and the line that is left; each pass leaves a shorter line, so cutting always ends. */
  function Cut(kind: Kind, line: string): (seq<Piece>, string)
    decreases |line|
  {
    if !Open(kind, line) then ([], line)
    else
      var (more, left) := Cut(kind, line[CloseAt(line) + 1..]);
      (Front(kind, line) + more, left)
  }

  function CutLine(line: string): (seq<Piece>, string) {
    var (a, t) := Cut(AsText, line);
    var (b, left) := Cut(AsIs, t);
    (a + b, left)
  }

  method RunCutting(kind: Kind, line: string) returns (pieces: seq<Piece>, left: string)
    ensures (pieces, left) == Cut(kind, line)
  {
    hide Find, Opener, Code, Name, Cut, Front;
    pieces, left := [], line;
    assert [] + Cut(kind, line).0 == Cut(kind, line).0;
    while Has(left, Opener(kind)) && Has(left, "}")
      invariant Cut(kind, line).0 == pieces + Cut(kind, left).0 && Cut(kind, line).1 == Cut(kind, left).1
      decreases |left|
    {
      ghost var was, done := left, pieces;
      CutStep(kind, left, pieces);
      var reps := Name(kind, left);
      var before := left[..OpenAt(kind, left)];
      left := left[CloseAt(left) + 1..];
      if |before| > 0 {
        pieces := pieces + [TextPiece(before)];
      }
      pieces := pieces + [CodePiece(Code(kind, reps))];
    }
    CutEnds(kind, left);
    assert pieces + [] == pieces;
  }

  lemma CutEnds(kind: Kind, line: string)
    requires !Open(kind, line)
    ensures Cut(kind, line) == ([], line)
  {
  }

  lemma CutStep(kind: Kind, line: string, done: seq<Piece>)
    requires Open(kind, line)
    ensures var rest := line[CloseAt(line) + 1..];
            var before := line[..OpenAt(kind, line)];
            var code := [CodePiece(Code(kind, Name(kind, line)))];
            && Cut(kind, line).1 == Cut(kind, rest).1
            && done + Cut(kind, line).0
                == (if |before| > 0 then done + [TextPiece(before)] + code else done + code) + Cut(kind, rest).0
  {
    hide Find, Opener, Code, Name;
    var rest, before := line[CloseAt(line) + 1..], line[..OpenAt(kind, line)];
    var code := [CodePiece(Code(kind, Name(kind, line)))];
    hide Cut, Front;
    CutUnfolds(kind, line);
    Regroup(done, [TextPiece(before)], code, Cut(kind, rest).0);
  }

  lemma CutUnfolds(kind: Kind, line: string)
    requires Open(kind, line)
    ensures var rest := line[CloseAt(line) + 1..];
            Cut(kind, line) == (Front(kind, line) + Cut(kind, rest).0, Cut(kind, rest).1)
    ensures var before, code := line[..OpenAt(kind, line)], CodePiece(Code(kind, Name(kind, line)));
            Front(kind, line) == if |before| > 0 then [TextPiece(before)] + [code] else [code]
  {
    hide Find, Opener, Code, Name;
  }

  lemma Regroup(done: seq<Piece>, a: seq<Piece>, b: seq<Piece>, more: seq<Piece>)
    ensures done + ((a + b) + more) == ((done + a) + b) + more
    ensures done + (b + more) == (done + b) + more
  {
  }
}
