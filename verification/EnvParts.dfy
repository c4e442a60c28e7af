/** A name, its `=` and its content: where an assignment is found in two texts that agree. */
module EnvParts {
  import opened Wrappers
  import opened Utf8
  import opened Scanner
  import opened Patterns
  import opened ScanOutput
  import T = Text

  // ---------- The parts of a match ----------

  /** The `=` after a name at `i`. */
  function Assign(s: string, i: nat): (r: Option<nat>)
    ensures r.Some? ==> i + 2 <= r.value < |s| && EnvStart(s, i) && s[r.value] == '='
  {
    if !EnvStart(s, i) then None
    else
      var keyEnd := RunEnd(s, i, EnvName);
      var separator := RunEnd(s, keyEnd, Blank);
      if keyEnd - i < 2 || separator == |s| || s[separator] != '=' then None else Some(separator)
  }

  function Content(s: string, y: nat): (nat, nat, nat)
    requires y < |s|
  {
    ContentEnd(s, RunEnd(s, y + 1, Blank))
  }

  lemma MatchParts(s: string, i: nat)
    ensures EnvMatch(s, i) ==
            if Assign(s, i).None? then None
            else
              var content := Content(s, Assign(s, i).value);
              if content.1 - content.0 >= 4 then Some(Cut(Assign(s, i).value + 1, content.2, MARK)) else None
  {
    hide RunEnd, ContentEnd, EnvStart;
  }

  /** A name and its separator: no bracket, and no name starts inside. */
  lemma AssignShape(s: string, i: nat, y: nat)
    requires Assign(s, i) == Some(y)
    ensures forall x :: i <= x <= y ==> s[x] != '[' && s[x] != '"' && s[x] != '\''
    ensures forall x: nat :: i < x <= y ==> !EnvStart(s, x)
    ensures var e := RunEnd(s, i, EnvName);
            i + 2 <= e <= y && (forall x :: i <= x < e ==> In(EnvName, s[x]))
              && (forall x :: e <= x < y ==> In(Blank, s[x]))
  {
    hide RunEnd;
    var e := RunEnd(s, i, EnvName);
    assert RunEnd(s, e, Blank) == y;
    forall x: nat | i < x <= y
      ensures !EnvStart(s, x)
    {
      if x < e {
        assert In(EnvName, s[x - 1]);
      } else if x < y {
        assert In(Blank, s[x]);
      }
    }
  }

  /** They are found wherever the same bytes stand at the start of a word. */
  lemma AssignMoves(s: string, i: nat, o: string, p: nat, y: nat)
    requires Assign(s, i) == Some(y) && Same(s, i, o, p, y + 1 - i) && p < |o| && EnvStart(o, p)
    ensures Assign(o, p) == Some(y - i + p)
  {
    hide RunEnd, Same, EnvStart;
    var n := y + 1 - i;
    SameBounds(s, i, o, p, n);
    AssignShape(s, i, y);
    RunMoves(s, i, o, p, n, i, EnvName);
    RunMoves(s, i, o, p, n, RunEnd(s, i, EnvName), Blank);
    SameAt(s, i, o, p, n, y);
  }

  /** The value that starts at `v`, as a run. */
  function ContentClass(s: string, v: nat): Class {
    if v < |s| && IsQuote(s[v]) then Until(s[v]) else EnvValue
  }

  lemma ContentRun(s: string, v: nat)
    requires v <= |s|
    ensures var c, e, k := ContentEnd(s, v).0, ContentEnd(s, v).1, ContentClass(s, v);
            && c == (if k.Until? then v + 1 else v) <= |s| && e == RunEnd(s, c, k)
            && (e < |s| ==> !EnvStart(s, e))
  {
    hide RunEnd;
  }

  // ---------- Short contents ----------

  /** A content that holds an assignment after its start has four bytes. */
  lemma AssignInside(s: string, v: nat, j: nat, z: nat)
    requires v <= |s| && ContentEnd(s, v).0 < j < ContentEnd(s, v).1 && Assign(s, j) == Some(z)
    ensures ContentEnd(s, v).1 >= ContentEnd(s, v).0 + 4
  {
    hide RunEnd, ContentEnd;
    ContentRun(s, v);
    var c, k := ContentEnd(s, v).0, ContentClass(s, v);
    AssignShape(s, j, z);
    assert In(k, s[j - 1]);
    if k.Until? {
      RunReaches(s, c, j, z + 1, k);
    } else {
      assert IsQuote(s[j - 1]) && !IsQuote(s[v]);
      RunReaches(s, c, j, j + 2, k);
    }
  }

  /** A content of fewer than four bytes holds no whole assignment but at its start. */
  lemma NoMatchInside(s: string, v: nat, j: nat)
    requires v <= |s| && ContentEnd(s, v).1 < ContentEnd(s, v).0 + 4
    requires ContentEnd(s, v).0 < j <= ContentEnd(s, v).1 && j < |s|
    ensures EnvMatch(s, j).None?
  {
    hide RunEnd, ContentEnd, EnvMatch, Assign;
    MatchParts(s, j);
    ContentRun(s, v);
    NoStartNoAssign(s, j);
    if j < ContentEnd(s, v).1 && Assign(s, j).Some? {
      AssignInside(s, v, j, Assign(s, j).value);
    }
  }

  lemma NoStartNoAssign(s: string, j: nat)
    ensures !EnvStart(s, j) ==> Assign(s, j).None?
  {
  }

  /** A run that reaches j and whose class holds on to n reaches n. */
  lemma RunReaches(s: string, c: nat, j: nat, n: nat, k: Class)
    requires c <= j <= n <= |s| && j <= RunEnd(s, c, k) && forall x :: j <= x < n ==> In(k, s[x])
    ensures RunEnd(s, c, k) >= n
  {
    hide RunEnd;
    RunEndCovers(s, c, k, n);
  }

  /** Before its content an assignment holds no other. */
  lemma NoMatchBefore(s: string, i: nat, y: nat, j: nat)
    requires Assign(s, i) == Some(y) && EnvMatch(s, i).None? && i <= j < Content(s, y).0 && j < |s|
    ensures EnvMatch(s, j).None?
  {
    hide RunEnd, ContentEnd, EnvMatch, Assign;
    if j != i {
      MatchParts(s, j);
      NoStartNoAssign(s, j);
      AssignShape(s, i, y);
      var v := RunEnd(s, y + 1, Blank);
      ContentRun(s, v);
      assert y < j < v ==> In(Blank, s[j]);
    }
  }

  /** An assignment right at the start of a short content: a longer name, or two bytes and the `=`. */
  lemma MatchAtStart(s: string, v: nat, z: nat)
    requires v <= |s| && ContentEnd(s, v).1 < ContentEnd(s, v).0 + 4
    requires Assign(s, ContentEnd(s, v).0) == Some(z)
    ensures var c, e := ContentEnd(s, v).0, ContentEnd(s, v).1;
            if ContentClass(s, v).Until? || RunEnd(s, c, EnvName) == z then
              z == c + 2 && In(EnvName, s[c]) && In(EnvName, s[c + 1])
            else e < z
  {
    hide RunEnd, ContentEnd;
    ContentRun(s, v);
    var c, e, k := ContentEnd(s, v).0, ContentEnd(s, v).1, ContentClass(s, v);
    AssignShape(s, c, z);
    if k.Until? || RunEnd(s, c, EnvName) == z {
      RunReaches(s, c, c, z + 1, k);
    } else {
      assert In(Blank, s[z - 1]);
    }
  }

  /** The content starts alike wherever the same bytes stand, and ends alike if its end is among them. */
  lemma ContentMoves(s: string, i: nat, o: string, p: nat, n: nat, y: nat)
    requires Same(s, i, o, p, n) && i <= y < i + n
    requires RunEnd(s, y + 1, Blank) < i + n || BothEnd(s, i, o, p, n)
    ensures y - i + p < |o| && RunEnd(o, y - i + p + 1, Blank) == RunEnd(s, y + 1, Blank) - i + p
    ensures Content(o, y - i + p).0 == Content(s, y).0 - i + p
    ensures ContentClass(o, RunEnd(o, y - i + p + 1, Blank)) == ContentClass(s, RunEnd(s, y + 1, Blank))
    ensures Content(s, y).1 < i + n || BothEnd(s, i, o, p, n) ==> Content(o, y - i + p).1 == Content(s, y).1 - i + p
  {
    hide RunEnd, ContentEnd, Same;
    SameBounds(s, i, o, p, n);
    RunMoves(s, i, o, p, n, y + 1, Blank);
    var v := RunEnd(s, y + 1, Blank);
    if v < i + n {
      SameAt(s, i, o, p, n, v);
    }
    ContentRun(s, v);
    ContentRun(o, v - i + p);
    if Content(s, y).1 < i + n || BothEnd(s, i, o, p, n) {
      RunMoves(s, i, o, p, n, Content(s, y).0, ContentClass(s, v));
    }
  }

  lemma ContentOrder(s: string, y: nat)
    requires y < |s|
    ensures y < RunEnd(s, y + 1, Blank) <= Content(s, y).0 <= Content(s, y).1 <= |s|
  {
    hide RunEnd;
  }

  lemma ContentStops(s: string, y: nat)
    requires Valid(s) && y < |s|
    ensures var e := Content(s, y).1; if e < |s| then Boundary(s, e + 1) else Boundary(s, |s|)
  {
    hide Valid, RunEnd, ContentEnd;
    var v := RunEnd(s, y + 1, Blank);
    ContentRun(s, v);
    var k := ContentClass(s, v);
    StoppedBoundary(s, ContentEnd(s, v).0, k);
    var e := ContentEnd(s, v).1;
    if e < |s| {
      AfterAscii(s, e + 1);
    }
  }

  lemma ShortContent(s: string, i: nat, y: nat)
    requires Assign(s, i) == Some(y)
    ensures EnvMatch(s, i).None? <==> Content(s, y).1 < Content(s, y).0 + 4
  {
    hide RunEnd, ContentEnd, EnvMatch, Assign;
    MatchParts(s, i);
    ContentOrder(s, y);
  }

  lemma NoMatchInContent(s: string, y: nat, j: nat)
    requires y < |s| && Content(s, y).1 < Content(s, y).0 + 4 && Content(s, y).0 < j <= Content(s, y).1 && j < |s|
    ensures EnvMatch(s, j).None?
  {
    hide EnvMatch, ContentEnd, RunEnd;
    NoMatchInside(s, RunEnd(s, y + 1, Blank), j);
  }

  lemma MatchIsAscii(s: string, c: nat)
    requires EnvMatch(s, c).Some?
    ensures c < |s| && Boundary(s, c)
  {
    hide RunEnd, ContentEnd;
  }

  lemma MarkNoName(o: string, k: nat, q: nat)
    requires T.OccursAt(o, MARK, k) && k <= q < k + 10
    ensures q < |o| && !EnvStart(o, q) && o[k + 9] == ']'
  {
    var mark := MARK;
    assert |mark| == 10 && mark[0] == '[' && mark[9] == ']';
    assert mark[1] == 'R' && mark[2] == 'E' && mark[3] == 'D' && mark[4] == 'A';
    assert mark[5] == 'C' && mark[6] == 'T' && mark[7] == 'E' && mark[8] == 'D';
    forall x | k <= x < k + 10
      ensures o[x] == mark[x - k]
    {
      assert o[k..k + 10][x - k] == mark[x - k];
    }
  }

  lemma NoNameNoMatch(o: string, q: nat)
    requires !EnvStart(o, q)
    ensures EnvMatch(o, q).None?
  {
  }

  lemma HeadNoName(s: string, i: nat, o: string, p: nat, n: nat, y: nat, q: nat)
    requires Assign(s, i) == Some(y) && Same(s, i, o, p, n) && n == y + 1 - i && p < q < p + n
    ensures q < |o| && !EnvStart(o, q)
  {
    hide RunEnd, Same;
    AssignShape(s, i, y);
    var x := q - p + i;
    SameAt(s, i, o, p, n, x);
    SameAt(s, i, o, p, n, x - 1);
    assert !EnvStart(s, x);
  }

  // ---------- An assignment beside a scan ----------

  lemma StartBack(m: Matcher, s: string, i: nat, o: string, p: nat)
    requires Aligned(m, s, i, o, p) && EnvStart(o, p) && i < |s| && s[i] == o[p]
    ensures EnvStart(s, i)
  {
    hide Valid, Rest, Suits;
  }

  /** A name with its separator in the output is one in the text. */
  lemma AssignBack(m: Matcher, s: string, i: nat, o: string, p: nat, y: nat)
    requires Aligned(m, s, i, o, p) && Assign(o, p) == Some(y)
    ensures i < |s| && Same(o, p, s, i, y + 1 - p) && Assign(s, i) == Some(y - p + i)
  {
    hide Aligned, RunEnd, Assign, EnvStart, Same;
    AssignShape(o, p, y);
    LeadAligned(m, s, i, o, p, y + 1 - p);
    SameAt(o, p, s, i, y + 1 - p, p);
    StartBack(m, s, i, o, p);
    AssignMoves(o, p, s, i, y);
  }

  /** Nothing matches from a name to the end of its content, the byte that ends it included. */
  ghost predicate QuietContent(m: Matcher, s: string, i: nat) {
    Assign(s, i).Some? ==>
      forall j: nat :: i <= j <= Content(s, Assign(s, i).value).1 && j < |s| ==> m(s, j).None?
  }

  /** The scan copies such a name with the whole of its short content, and the byte that ends it. */
  lemma ContentCopied(m: Matcher, s: string, i: nat, o: string, p: nat, y: nat) returns (n: nat)
    requires Aligned(m, s, i, o, p) && i < |s| && EnvMatch(s, i).None? && QuietContent(m, s, i)
    requires Assign(s, i) == Some(y)
    ensures i <= y < i + n && Same(s, i, o, p, n) && (Content(s, y).1 < i + n || BothEnd(s, i, o, p, n))
    ensures RunEnd(s, y + 1, Blank) <= Content(s, y).1 < Content(s, y).0 + 4
  {
    hide Valid, Boundary, RunEnd, ContentEnd, EnvMatch, Assign, Aligned, Content, Same;
    AlignedStart(m, s, i, o, p);
    ShortContent(s, i, y);
    ContentOrder(s, y);
    ContentStops(s, y);
    AssignAfter(s, i, y);
    var e := Content(s, y).1;
    n := (if e < |s| then e + 1 else |s|) - i;
    AlignedRun(m, s, i, o, p, n);
    AlignedStart(m, s, i + n, o, p + n);
    RestAtEnd(m, s);
  }

  lemma AssignAfter(s: string, i: nat, y: nat)
    requires Assign(s, i) == Some(y)
    ensures i < y < |s|
  {
    hide RunEnd, EnvStart;
    AssignShape(s, i, y);
  }

  /** A short content that the scan copies is short in the output. */
  lemma StillShort(m: Matcher, s: string, i: nat, o: string, p: nat, y: nat)
    requires Aligned(m, s, i, o, p) && i < |s| && EnvMatch(s, i).None? && QuietContent(m, s, i)
    requires Assign(s, i) == Some(y) && Assign(o, p) == Some(y - i + p)
    ensures EnvMatch(o, p).None?
  {
    hide RunEnd, ContentEnd, EnvMatch, Assign, Aligned, Content, Same, BothEnd, QuietContent, ContentClass;
    var n := ContentCopied(m, s, i, o, p, y);
    ContentMoves(s, i, o, p, n, y);
    ShortContent(o, p, y - i + p);
  }

  /** A text without an assignment where the scan stands gives an output without one, if the scan is quiet there. */
  lemma NoMatchMoves(m: Matcher, s: string, i: nat, o: string, p: nat)
    requires Aligned(m, s, i, o, p) && i < |s| && EnvMatch(s, i).None? && QuietContent(m, s, i)
    ensures EnvMatch(o, p).None?
  {
    hide Aligned, EnvMatch, Assign, QuietContent, Content;
    MatchParts(o, p);
    if Assign(o, p).Some? {
      var y := Assign(o, p).value;
      AssignBack(m, s, i, o, p, y);
      StillShort(m, s, i, o, p, y - p + i);
    }
  }
}
