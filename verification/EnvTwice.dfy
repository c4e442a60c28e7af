/** The assignment scanner on its own output: what still matches there, and when a second pass changes nothing. */
module EnvTwice {
  import opened Wrappers
  import opened Utf8
  import opened Scanner
  import opened Patterns
  import opened Sanitizer
  import opened ScanOutput
  import opened EnvParts
  import T = Text

  // ---------- The scanner ----------

  lemma Matches(s: string, i: nat)
    ensures EnvMatcher(s, i) == EnvMatch(s, i)
  {
  }

  lemma EnvSuits()
    ensures Suits(EnvMatcher)
  {
    hide Valid, Fits;
    forall s | Valid(s)
      ensures Fits(EnvMatcher, s)
    {
      EnvFits(s);
    }
  }

  lemma RestOfAll(s: string)
    requires Valid(s)
    ensures Suits(EnvMatcher) && Boundary(s, 0) && EnvPass(s) == Rest(EnvMatcher, s, 0)
    ensures Aligned(EnvMatcher, s, 0, EnvPass(s), 0)
  {
    EnvSuits();
    EnvFits(s);
    StartScan(EnvMatcher, s);
    hide Valid, Suits, Fits, Rewrite;
    StartsAligned(EnvMatcher, s);
  }

  lemma Keeps(s: string, i: nat)
    requires Valid(s)
    ensures EnvMatcher(s, i).Some? ==> i < EnvMatcher(s, i).value.keep && EnvMatcher(s, i).value.mark == MARK
  {
    hide Valid, EnvMatch;
    Matches(s, i);
    if EnvMatch(s, i).Some? {
      EnvCuts(s, i);
    }
  }

  lemma AlignedAfterMatch(s: string, i: nat, o: string, p: nat) returns (q: nat)
    requires Aligned(EnvMatcher, s, i, o, p) && i < |s| && EnvMatch(s, i).Some?
    ensures var cut := EnvMatch(s, i).value;
            && i < cut.keep <= cut.next <= |s| && q == p + (cut.keep - i) + 10 <= |o|
            && Same(s, i, o, p, cut.keep - i) && T.OccursAt(o, MARK, q - 10)
            && Aligned(EnvMatcher, s, cut.next, o, q)
  {
    hide EnvMatch, Aligned, MARK, Same, Valid, T.OccursAt;
    AlignedStart(EnvMatcher, s, i, o, p);
    Matches(s, i);
    Keeps(s, i);
    q := AlignedMark(EnvMatcher, s, i, o, p);
  }

  // ---------- Contents that start with an assignment ----------

  /** The content of the assignment at `i` starts with another one that matches. */
  predicate Nested(s: string, i: nat) {
    Assign(s, i).Some? && Content(s, Assign(s, i).value).0 < |s| && EnvMatch(s, Content(s, Assign(s, i).value).0).Some?
  }

  /** It runs through to the `=` of that one: it is quoted, or no blank comes after the inner name. */
  predicate RunsThrough(s: string, i: nat)
    requires Nested(s, i)
  {
    var v := RunEnd(s, Assign(s, i).value + 1, Blank);
    var c := ContentEnd(s, v).0;
    ContentClass(s, v).Until? || Some(RunEnd(s, c, EnvName)) == Assign(s, c)
  }

  lemma QuietUnlessNested(s: string, i: nat)
    requires EnvMatch(s, i).None? && !Nested(s, i)
    ensures QuietContent(EnvMatcher, s, i)
  {
    hide EnvMatch, RunEnd, ContentEnd, Assign;
    if Assign(s, i).Some? {
      var y := Assign(s, i).value;
      ShortContent(s, i, y);
      forall j: nat | i <= j <= Content(s, y).1 && j < |s|
        ensures EnvMatcher(s, j).None?
      {
        Matches(s, j);
        if j < Content(s, y).0 {
          NoMatchBefore(s, i, y, j);
        } else if j > Content(s, y).0 {
          NoMatchInContent(s, y, j);
        }
      }
    }
  }

  /** The output up to and with the inner name and `=`, and the mark after it. */
  lemma NestedWritten(s: string, i: nat, o: string, p: nat) returns (n: nat)
    requires Aligned(EnvMatcher, s, i, o, p) && i < |s| && EnvMatch(s, i).None? && Nested(s, i)
    ensures var c := Content(s, Assign(s, i).value).0;
            && i + n == EnvMatch(s, c).value.keep && c - i < n && Same(s, i, o, p, n) && T.OccursAt(o, MARK, p + n)
  {
    hide EnvMatch, Aligned, RunEnd, ContentEnd, Assign, Boundary, MARK;
    var y := Assign(s, i).value;
    var c := Content(s, y).0;
    ContentOrder(s, y);
    forall j: nat | i <= j < c
      ensures EnvMatcher(s, j).None?
    {
      Matches(s, j);
      NoMatchBefore(s, i, y, j);
    }
    MatchIsAscii(s, c);
    AlignedRun(EnvMatcher, s, i, o, p, c - i);
    var q := AlignedAfterMatch(s, c, o, p + (c - i));
    n := EnvMatch(s, c).value.keep - i;
    SameJoins(s, i, o, p, c - i, n);
  }

  lemma SameJoins(s: string, i: nat, o: string, p: nat, a: nat, n: nat)
    requires Same(s, i, o, p, a) && a <= n && Same(s, i + a, o, p + a, n - a)
    ensures Same(s, i, o, p, n)
  {
    assert s[i..i + n] == s[i..i + a] + s[i + a..i + n] && o[p..p + n] == o[p..p + a] + o[p + a..p + n];
  }

  /** The value of a match in the output is hidden, or is a two-byte name with a hidden value. */
  ghost predicate Hidden(o: string, from: nat) {
    from <= |o|
    && var c := ContentEnd(o, RunEnd(o, from, Blank)).0;
       || T.OccursAt(o, MARK, c)
       || (T.OccursAt(o, MARK, c + 3) && In(EnvName, o[c]) && In(EnvName, o[c + 1]) && o[c + 2] == '=')
  }

  lemma NameThenMark(o: string, y: nat, c: nat)
    requires y < |o| && Content(o, y).0 == c && T.OccursAt(o, MARK, c + 3)
    requires In(EnvName, o[c]) && In(EnvName, o[c + 1]) && o[c + 2] == '='
    ensures Hidden(o, y + 1)
  {
    hide RunEnd, ContentEnd;
  }

  lemma MarkIsValue(o: string, from: nat)
    requires T.OccursAt(o, MARK, from)
    ensures Hidden(o, from)
  {
    assert MARK[0] == '[' && |MARK| == 10;
    assert o[from..from + |MARK|][0] == o[from];
  }

  lemma MarkInContent(o: string, k: nat)
    requires T.OccursAt(o, MARK, k)
    ensures k + 10 <= |o| && o[k] == '[' && forall x :: k <= x < k + 10 ==> In(EnvValue, o[x]) && !IsQuote(o[x])
  {
    var mark := MARK;
    assert |mark| == 10 && mark[0] == '[' && mark[9] == ']';
    assert mark[1] == 'R' && mark[2] == 'E' && mark[3] == 'D' && mark[4] == 'A';
    assert mark[5] == 'C' && mark[6] == 'T' && mark[7] == 'E' && mark[8] == 'D';
    forall x | k <= x < k + 10
      ensures o[x] == mark[x - k]
    {
      assert o[k..k + 10][x - k] == mark[x - k];
    }
  }

  /** Two name bytes, `=` and the mark are long enough for a match. */
  lemma NameThenMarkMatches(o: string, p: nat, y: nat)
    requires Assign(o, p) == Some(y)
    requires var c := Content(o, y).0;
             T.OccursAt(o, MARK, c + 3) && In(EnvName, o[c]) && In(EnvName, o[c + 1]) && o[c + 2] == '='
    ensures EnvMatch(o, p).Some? && EnvMatch(o, p).value.keep == y + 1
  {
    hide RunEnd, ContentEnd, EnvMatch, Assign, MARK;
    MatchParts(o, p);
    var v := RunEnd(o, y + 1, Blank);
    var c := Content(o, y).0;
    ContentRun(o, v);
    MarkInContent(o, c + 3);
    NameInClass(o, v, c);
    RunReaches(o, c, c, c + 13, ContentClass(o, v));
  }

  lemma NameInClass(o: string, v: nat, c: nat)
    requires c + 2 < |o| && In(EnvName, o[c]) && In(EnvName, o[c + 1]) && o[c + 2] == '='
    ensures forall x :: c <= x < c + 3 ==> In(ContentClass(o, v), o[x])
  {
  }

  /** After the separator the text goes on with a blank, a quote or the content. */
  lemma AfterSeparator(s: string, y: nat)
    requires y < |s| && Content(s, y).0 < |s| && EnvStart(s, Content(s, y).0)
    ensures y + 1 < |s| && s[y + 1] != '['
  {
    hide RunEnd, ContentEnd;
    ContentOrder(s, y);
    var v := RunEnd(s, y + 1, Blank);
    ContentRun(s, v);
    assert v > y + 1 ==> In(Blank, s[y + 1]);
  }

  /** A short content that starts with an assignment: the two bytes and the `=` it runs through, or a longer name. */
  lemma NestedShape(s: string, i: nat)
    requires i < |s| && EnvMatch(s, i).None? && Nested(s, i)
    ensures var y := Assign(s, i).value;
            var c, e := Content(s, y).0, Content(s, y).1;
            var keep := EnvMatch(s, c).value.keep;
            && i <= y < RunEnd(s, y + 1, Blank) <= c <= e < c + 4 && y + 1 < |s| && s[y + 1] != '['
            && if RunsThrough(s, i) then
                 keep == c + 3 <= |s| && In(EnvName, s[c]) && In(EnvName, s[c + 1]) && s[c + 2] == '='
               else e < keep
  {
    hide RunEnd, ContentEnd, EnvMatch, Assign, EnvStart;
    var y := Assign(s, i).value;
    ShortContent(s, i, y);
    ContentOrder(s, y);
    AssignAfter(s, i, y);
    var v, c := RunEnd(s, y + 1, Blank), Content(s, y).0;
    MatchParts(s, c);
    AfterSeparator(s, y);
    MatchAtStart(s, v, Assign(s, c).value);
  }

  /** Such a content is long in the output exactly when it runs through. */
  lemma NestedMoves(s: string, i: nat, o: string, p: nat)
    requires Aligned(EnvMatcher, s, i, o, p) && i < |s| && EnvMatch(s, i).None? && Nested(s, i)
    requires Assign(o, p) == Some(Assign(s, i).value - i + p)
    ensures if RunsThrough(s, i) then
              && EnvMatch(o, p).Some? && EnvMatch(o, p).value.keep < |o| && o[EnvMatch(o, p).value.keep] != '['
              && p < EnvMatch(o, p).value.keep && Hidden(o, EnvMatch(o, p).value.keep)
            else EnvMatch(o, p).None?
  {
    hide RunEnd, ContentEnd, EnvMatch, Assign, Aligned, Hidden, T.OccursAt, EnvStart, Content, Same, RunsThrough,
         ContentClass, MARK, In;
    var y := Assign(s, i).value;
    var c := Content(s, y).0;
    NestedShape(s, i);
    var n := NestedWritten(s, i, o, p);
    ContentMoves(s, i, o, p, n, y);
    if RunsThrough(s, i) {
      NestedName(s, i, o, p, n, c);
      NameThenMarkMatches(o, p, y - i + p);
      NameThenMark(o, y - i + p, c - i + p);
      SameAt(s, i, o, p, n, y + 1);
    } else {
      ShortContent(o, p, y - i + p);
    }
  }

  lemma NestedName(s: string, i: nat, o: string, p: nat, n: nat, c: nat)
    requires Same(s, i, o, p, n) && i <= c && c + 3 == i + n
    requires c + 2 < |s| && In(EnvName, s[c]) && In(EnvName, s[c + 1]) && s[c + 2] == '='
    ensures c - i + p + 2 < |o| && In(EnvName, o[c - i + p]) && In(EnvName, o[c - i + p + 1]) && o[c - i + p + 2] == '='
  {
    hide Same, In;
    SameAt(s, i, o, p, n, c);
    SameAt(s, i, o, p, n, c + 1);
    SameAt(s, i, o, p, n, c + 2);
  }

  // ---------- What still matches ----------

  /** Where both match, the output has the mark in place of the value. */
  lemma MatchMoves(s: string, i: nat, o: string, p: nat)
    requires Aligned(EnvMatcher, s, i, o, p) && i < |s| && EnvMatch(s, i).Some? && p < |o| && EnvStart(o, p)
    ensures EnvMatch(o, p).Some? && EnvMatch(o, p).value.keep == p + (EnvMatch(s, i).value.keep - i)
    ensures var from := EnvMatch(o, p).value.keep;
            T.OccursAt(o, MARK, from) && EnvMatch(o, p).value.next == RunEnd(o, from, EnvValue) >= from + 10
  {
    hide EnvMatch, Assign, Aligned, Content, Same, T.OccursAt, EnvStart, RunEnd, MARK;
    var q := AlignedAfterMatch(s, i, o, p);
    MatchParts(s, i);
    AssignMoves(s, i, o, p, Assign(s, i).value);
    MarkedMatches(o, p, q - 11);
  }

  lemma MarkedMatches(o: string, p: nat, y: nat)
    requires Assign(o, p) == Some(y) && T.OccursAt(o, MARK, y + 1)
    ensures EnvMatch(o, p) == Some(Cut(y + 1, RunEnd(o, y + 1, EnvValue), MARK)) && RunEnd(o, y + 1, EnvValue) >= y + 11
  {
    hide EnvMatch, Assign;
    MatchParts(o, p);
    MarkInContent(o, y + 1);
    hide MARK;
    assert RunEnd(o, y + 1, Blank) == y + 1;
    hide RunEnd;
    RunReaches(o, y + 1, y + 1, y + 11, EnvValue);
  }

  /** No match starts inside what is written for one. */
  lemma NoMatchInPiece(s: string, i: nat, o: string, p: nat, q: nat)
    requires Aligned(EnvMatcher, s, i, o, p) && i < |s| && EnvMatch(s, i).Some?
    requires p < q < p + (EnvMatch(s, i).value.keep - i) + 10 && q < |o|
    ensures EnvMatch(o, q).None?
  {
    hide EnvMatch, Assign, MARK, Aligned, Same, T.OccursAt;
    var r := AlignedAfterMatch(s, i, o, p);
    var n := EnvMatch(s, i).value.keep - i;
    MatchParts(s, i);
    if q < p + n {
      HeadNoName(s, i, o, p, n, Assign(s, i).value, q);
    } else {
      MarkNoName(o, p + n, q);
    }
    NoNameNoMatch(o, q);
  }

  lemma TailNoName(s: string, i: nat, o: string, p: nat, n: nat, q: nat)
    requires i < n && Same(s, i, o, p, n - i) && p < q < p + (n - i) && forall x :: i < x < n ==> IsTail(s[x])
    ensures q < |o| && EnvMatch(o, q).None?
  {
    hide EnvMatch, Same;
    SameAt(s, i, o, p, n - i, q - p + i);
    assert IsTail(o[q]);
    NoNameNoMatch(o, q);
  }

  /**
   * Completeness: an assignment still found in the output of the pass has the mark for its value, or a two-byte name,
   * `=` and the mark.
   */
  lemma RemainingAreHidden(s: string, q: nat)
    requires Valid(s) && q < |EnvPass(s)| && EnvMatch(EnvPass(s), q).Some?
    ensures Hidden(EnvPass(s), EnvMatch(EnvPass(s), q).value.keep)
  {
    hide Valid, Rest, EnvMatch, EnvPass, Hidden, Aligned, Step, Same, MARK, Suits, Assign, QuietContent, Nested,
         RunsThrough,
         EnvStart, T.OccursAt;
    RestOfAll(s);
    var o := EnvPass(s);
    var i, p := Locate(EnvMatcher, s, 0, o, 0, q);
    AlignedStart(EnvMatcher, s, i, o, p);
    Matches(s, i);
    Keeps(s, i);
    MarkLength();
    if EnvMatch(s, i).None? {
      var n := AlignedCopy(EnvMatcher, s, i, o, p);
      if p < q {
        TailNoName(s, i, o, p, n, q);
      } else {
        UnmatchedHidden(s, i, o, p);
      }
    } else if p < q {
      NoMatchInPiece(s, i, o, p, q);
    } else {
      MatchStarts(o, p);
      MatchMoves(s, i, o, p);
      MarkIsValue(o, EnvMatch(o, p).value.keep);
    }
  }

  lemma MatchStarts(o: string, p: nat)
    requires EnvMatch(o, p).Some?
    ensures p < |o| && EnvStart(o, p)
  {
  }

  lemma UnmatchedHidden(s: string, i: nat, o: string, p: nat)
    requires Aligned(EnvMatcher, s, i, o, p) && i < |s| && EnvMatch(s, i).None? && EnvMatch(o, p).Some?
    ensures Hidden(o, EnvMatch(o, p).value.keep)
  {
    hide EnvMatch, Hidden, Aligned, Assign, QuietContent, Content, RunsThrough, Same;
    if Nested(s, i) {
      MatchParts(o, p);
      AssignBack(EnvMatcher, s, i, o, p, Assign(o, p).value);
      NestedMoves(s, i, o, p);
    } else {
      QuietUnlessNested(s, i);
      NoMatchMoves(EnvMatcher, s, i, o, p);
    }
  }

  // ---------- When a second pass changes nothing ----------

  /** What the cut hides ends where a content ends. */
  predicate Settled(s: string, cut: Cut) {
    cut.next >= |s| || !In(EnvValue, s[cut.next])
  }

  /** No match at `i`, and none in the output either. */
  predicate StaysUnmatched(s: string, i: nat) {
    Nested(s, i) ==> !RunsThrough(s, i)
  }

  /** From `i` on every cut the scan takes is settled, and no assignment it passes over runs through one it takes. */
  ghost predicate SettledFrom(s: string, i: nat)
    requires Valid(s) && Boundary(s, i)
    decreases |s| - i
  {
    if i == |s| then true
    else if EnvMatch(s, i).Some? then
      EnvCuts(s, i);
      Settled(s, EnvMatch(s, i).value) && SettledFrom(s, EnvMatch(s, i).value.next)
    else
      StepFrom(s, i);
      StaysUnmatched(s, i) && SettledFrom(s, i + Step(s[i..]))
  }

  /** A name at i starts a word in the output too, unless a settled cut ends there. */
  ghost predicate NamesAlign(s: string, i: nat, o: string, p: nat) {
    || i >= |s| || !In(EnvValue, s[i]) || (i == 0 && p == 0)
    || (0 < i && 0 < p <= |o| && s[i - 1] == o[p - 1])
  }

  lemma NamesStart(s: string, i: nat, o: string, p: nat)
    requires NamesAlign(s, i, o, p) && i < |s| && p < |o| && s[i] == o[p] && EnvStart(s, i)
    ensures EnvStart(o, p)
  {
  }

  lemma NamesAlignAfter(s: string, i: nat, o: string, p: nat, n: nat)
    requires Same(s, i, o, p, n) && n > 0
    ensures NamesAlign(s, i + n, o, p + n)
  {
    SameAt(s, i, o, p, n, i + n - 1);
  }

  /** After a mark the run goes on just when the text did. */
  lemma RunAfterMark(o: string, from: nat, q: nat)
    requires q == from + 10 <= |o| && T.OccursAt(o, MARK, from)
    ensures if q == |o| || !In(EnvValue, o[q]) then RunEnd(o, from, EnvValue) == q else RunEnd(o, from, EnvValue) > q
  {
    MarkInContent(o, from);
    hide MARK, In;
    if q == |o| || !In(EnvValue, o[q]) {
      RunEndCovers(o, from, EnvValue, q);
    } else {
      RunEndCovers(o, from, EnvValue, q + 1);
    }
  }

  /** A run that reaches past q leaves a rest that does not start like the one from q. */
  lemma RunGoesOn(o: string, q: nat, next: nat)
    requires Suits(EnvMatcher) && Valid(o) && q < next <= |o| && In(EnvValue, o[q]) && Boundary(o, next)
    requires next < |o| ==> !In(EnvValue, o[next])
    ensures Rest(EnvMatcher, o, next) != o[q..]
  {
    hide Valid, Rest;
    assert o[q..][0] == o[q];
    if next < |o| {
      Keeps(o, next);
      RestStartsAlike(EnvMatcher, o, next);
    } else {
      RestAtEnd(EnvMatcher, o);
    }
  }

  /** At a match the output matches too, and what it would hide is a run that starts with the mark. */
  lemma MatchAgain(s: string, i: nat, o: string, p: nat) returns (q: nat)
    requires Aligned(EnvMatcher, s, i, o, p) && NamesAlign(s, i, o, p) && i < |s| && EnvMatch(s, i).Some?
    ensures p < |o| && EnvMatch(o, p).Some?
    ensures var cut, m := EnvMatch(s, i).value, EnvMatch(o, p).value;
            && p < m.keep && m.keep == p + (cut.keep - i) && q == m.keep + 10 <= |o| && T.OccursAt(o, MARK, m.keep)
            && m.next == RunEnd(o, m.keep, EnvValue)
            && i < cut.next <= |s| && Aligned(EnvMatcher, s, cut.next, o, q)
            && (cut.next == |s| <==> q == |o|) && (cut.next < |s| ==> s[cut.next] == o[q])
  {
    hide EnvMatch, Aligned, Same, RunEnd, MARK, NamesAlign, EnvStart, T.OccursAt;
    var cut := EnvMatch(s, i).value;
    AlignedStart(EnvMatcher, s, i, o, p);
    MatchStarts(s, i);
    Keeps(s, i);
    Keeps(s, cut.next);
    Matches(s, i);
    NextByte(EnvMatcher, s, i, o, p);
    NamesStart(s, i, o, p);
    MatchMoves(s, i, o, p);
    q := AlignedAfterMatch(s, i, o, p);
    NextByte(EnvMatcher, s, cut.next, o, q);
  }

  /** The second pass at a match: the same piece again, or another text. */
  lemma SecondPassAtMatch(s: string, i: nat, o: string, p: nat) returns (q: nat)
    requires Valid(o) && Boundary(o, p) && Aligned(EnvMatcher, s, i, o, p) && NamesAlign(s, i, o, p)
    requires i < |s| && EnvMatch(s, i).Some?
    ensures i < EnvMatch(s, i).value.next <= |s| && q <= |o|
    ensures if Settled(s, EnvMatch(s, i).value) then
              && Boundary(o, q) && Aligned(EnvMatcher, s, EnvMatch(s, i).value.next, o, q)
              && NamesAlign(s, EnvMatch(s, i).value.next, o, q)
              && (Rest(EnvMatcher, o, p) == o[p..] <==> Rest(EnvMatcher, o, q) == o[q..])
            else Rest(EnvMatcher, o, p) != o[p..]
  {
    hide Valid, Rest, EnvMatch, Aligned, Boundary, RunEnd, MARK, T.OccursAt, Suits;
    AlignedStart(EnvMatcher, s, i, o, p);
    q := MatchAgain(s, i, o, p);
    hide NamesAlign;
    var cut, m := EnvMatch(s, i).value, EnvMatch(o, p).value;
    Matches(o, p);
    Keeps(o, p);
    RestCuts(EnvMatcher, o, p);
    RunAfterMark(o, m.keep, q);
    MarkedRest(o, p, m.keep);
    Peel(o[p..m.keep] + MARK + Rest(EnvMatcher, o, m.next), o[p..], o[p..m.keep] + MARK, Rest(EnvMatcher, o, m.next), o[q..]);
    if Settled(s, cut) {
      NamesAlignSettled(s, cut.next, o, q);
    } else {
      RunGoesOn(o, q, m.next);
    }
  }

  lemma NamesAlignSettled(s: string, i: nat, o: string, p: nat)
    requires i >= |s| || !In(EnvValue, s[i])
    ensures NamesAlign(s, i, o, p)
  {
  }

  /** The second pass where the first found nothing: nothing again, or another text. */
  lemma SecondPassAtNone(s: string, i: nat, o: string, p: nat)
    requires Valid(o) && Boundary(o, p) && Aligned(EnvMatcher, s, i, o, p) && NamesAlign(s, i, o, p)
    requires i < |s| && p < |o| && s[i] == o[p] && EnvMatch(s, i).None?
    ensures if StaysUnmatched(s, i) then EnvMatch(o, p).None? else Rest(EnvMatcher, o, p) != o[p..]
  {
    hide Valid, Rest, EnvMatch, Aligned, Boundary, MARK, NamesAlign, EnvStart, RunsThrough, Assign, QuietContent,
         Content, Same;
    if Nested(s, i) {
      NestedInOutput(s, i, o, p);
      NestedMoves(s, i, o, p);
      if RunsThrough(s, i) {
        AlignedStart(EnvMatcher, s, i, o, p);
        Matches(o, p);
        Keeps(o, p);
        RestCuts(EnvMatcher, o, p);
        MarkDiffers(o, p, EnvMatch(o, p).value.keep, Rest(EnvMatcher, o, EnvMatch(o, p).value.next));
      }
    } else {
      QuietUnlessNested(s, i);
      NoMatchMoves(EnvMatcher, s, i, o, p);
    }
  }

  lemma NestedInOutput(s: string, i: nat, o: string, p: nat)
    requires Aligned(EnvMatcher, s, i, o, p) && NamesAlign(s, i, o, p)
    requires i < |s| && p < |o| && s[i] == o[p] && EnvMatch(s, i).None? && Nested(s, i)
    ensures Assign(o, p) == Some(Assign(s, i).value - i + p)
  {
    hide EnvMatch, Aligned, NamesAlign, EnvStart, Assign, Content, Same;
    var y := Assign(s, i).value;
    NamesStart(s, i, o, p);
    var n := NestedWritten(s, i, o, p);
    NestedBehind(s, i);
    Shorter(s, i, o, p, n, y + 1 - i);
    AssignMoves(s, i, o, p, y);
  }

  lemma NestedBehind(s: string, i: nat)
    requires Nested(s, i)
    ensures Assign(s, i).value < Content(s, Assign(s, i).value).0
  {
    hide EnvMatch, Assign;
    ContentOrder(s, Assign(s, i).value);
  }

  /** From two aligned indices on, a second pass changes nothing exactly when the first is settled. */
  lemma {:induction false} SecondPassFrom(s: string, i: nat, o: string, p: nat)
    requires Valid(o) && Boundary(o, p) && Aligned(EnvMatcher, s, i, o, p) && NamesAlign(s, i, o, p)
    ensures Valid(s) && Boundary(s, i) && (Rest(EnvMatcher, o, p) == o[p..] <==> SettledFrom(s, i))
    decreases |s| - i
  {
    hide Valid, Rest, EnvMatch, Aligned, Boundary, Step, Same, StaysUnmatched;
    AlignedStart(EnvMatcher, s, i, o, p);
    Keeps(s, i);
    NextByte(EnvMatcher, s, i, o, p);
    Matches(s, i);
    Matches(o, p);
    if i == |s| {
      RestAtEnd(EnvMatcher, o);
    } else if EnvMatch(s, i).None? {
      SecondPassAtNone(s, i, o, p);
      if StaysUnmatched(s, i) {
        var n := AlignedCopy(EnvMatcher, s, i, o, p);
        var m := RestCopies(EnvMatcher, o, p);
        NamesAlignAfter(s, i, o, p, n - i);
        SecondPassFrom(s, n, o, m);
        Peel(Rest(EnvMatcher, o, p), o[p..], o[p..m], Rest(EnvMatcher, o, m), o[m..]);
      }
    } else {
      var q := SecondPassAtMatch(s, i, o, p);
      if Settled(s, EnvMatch(s, i).value) {
        SecondPassFrom(s, EnvMatch(s, i).value.next, o, q);
      }
    }
  }

  /**
   * Running the pass twice is running it once if and only if every cut it takes ends where a content ends, and no
   * assignment with a content too short to hide starts with one it takes and runs through to its `=`.
   */
  lemma SecondPassExactly(s: string)
    requires Valid(s)
    ensures Boundary(s, 0) && (EnvPass(EnvPass(s)) == EnvPass(s) <==> SettledFrom(s, 0))
  {
    hide Valid, Rest, EnvMatch, EnvPass, Aligned, Suits;
    RestOfAll(s);
    var o := EnvPass(s);
    RestOfAll(o);
    assert o[0..] == o;
    SecondPassFrom(s, 0, o, 0);
  }

  // ---------- The texts the pass leaves alone ----------

  /** The cut replaces a mark by itself. */
  ghost predicate Marked(s: string, cut: Cut) {
    T.OccursAt(s, MARK, cut.keep) && cut.next == cut.keep + 10
  }

  ghost predicate AllMarked(s: string) {
    forall q: nat :: q < |s| && EnvMatch(s, q).Some? ==> Marked(s, EnvMatch(s, q).value)
  }

  /** A match with the mark right after what it keeps hides a run. */
  lemma MarkedIsBare(s: string, i: nat)
    requires EnvMatch(s, i).Some? && T.OccursAt(s, MARK, EnvMatch(s, i).value.keep)
    ensures EnvMatch(s, i).value.next == RunEnd(s, EnvMatch(s, i).value.keep, EnvValue)
  {
    hide EnvMatch, MARK, Assign, T.OccursAt, RunEnd;
    MatchParts(s, i);
    MarkedMatches(s, i, Assign(s, i).value);
  }

  /** A match that is left as it is hides a mark already. */
  lemma FixedCut(s: string, i: nat)
    requires Suits(EnvMatcher) && Valid(s) && Boundary(s, i) && i < |s| && EnvMatch(s, i).Some?
    requires Rest(EnvMatcher, s, i) == s[i..]
    ensures var cut := EnvMatch(s, i).value;
            && Marked(s, cut) && i < cut.keep <= cut.next <= |s| && Boundary(s, cut.next)
            && Rest(EnvMatcher, s, cut.next) == s[cut.next..]
  {
    hide EnvMatch, Rest, MARK, Valid, Suits, Boundary, T.OccursAt, RunEnd;
    Matches(s, i);
    Keeps(s, i);
    MarkWritten(EnvMatcher, s, i);
    CutIsMark(s, i);
  }

  lemma CutIsMark(s: string, i: nat)
    requires Suits(EnvMatcher) && Valid(s) && EnvMatch(s, i).Some? && T.OccursAt(s, MARK, EnvMatch(s, i).value.keep)
    requires var cut := EnvMatch(s, i).value;
             && cut.keep + 10 <= |s| && cut.next <= |s| && Boundary(s, cut.next)
             && Rest(EnvMatcher, s, cut.next) == s[cut.keep + 10..]
    ensures EnvMatch(s, i).value.next == EnvMatch(s, i).value.keep + 10
  {
    hide EnvMatch, Rest, MARK, Valid, Suits, Boundary, T.OccursAt, RunEnd;
    MarkedIsBare(s, i);
    RunIsMark(s, EnvMatch(s, i).value.keep, EnvMatch(s, i).value.next);
  }

  /** A run from a mark whose rest is that of the text ends with the mark. */
  lemma RunIsMark(s: string, keep: nat, next: nat)
    requires Suits(EnvMatcher) && Valid(s) && T.OccursAt(s, MARK, keep) && keep + 10 <= |s|
    requires next == RunEnd(s, keep, EnvValue) && Boundary(s, next) && Rest(EnvMatcher, s, next) == s[keep + 10..]
    ensures next == keep + 10
  {
    hide Rest, MARK, Valid, Suits, Boundary, T.OccursAt, RunEnd, In;
    RunAfterMark(s, keep, keep + 10);
    if next > keep + 10 {
      RunGoesOn(s, keep + 10, next);
    }
  }

  /** From an index on where the pass writes the text itself, all matches hide a mark. */
  lemma {:induction false} FixedMarks(s: string, i: nat, q: nat)
    requires Suits(EnvMatcher) && Valid(s) && Boundary(s, i) && Rest(EnvMatcher, s, i) == s[i..]
    requires i <= q < |s| && EnvMatch(s, q).Some?
    ensures Marked(s, EnvMatch(s, q).value)
    decreases |s| - i
  {
    hide EnvMatch, Rest, MARK, Valid, Suits, Boundary, Marked, Step;
    Matches(s, i);
    if EnvMatch(s, i).None? {
      var n := RestCopies(EnvMatcher, s, i);
      OutputHead(s, i, s[i..n], Rest(EnvMatcher, s, n));
      if q < n {
        TailHere(s, i, n, q);
      } else {
        FixedMarks(s, n, q);
      }
    } else {
      FixedCut(s, i);
      var cut := EnvMatch(s, i).value;
      if q >= cut.next {
        FixedMarks(s, cut.next, q);
      } else if q > i {
        NoNameInMarked(s, i, q);
      }
    }
  }

  lemma TailHere(s: string, i: nat, n: nat, q: nat)
    requires i < q < n <= |s| && forall x :: i < x < n ==> IsTail(s[x])
    ensures EnvMatch(s, q).None?
  {
    hide EnvMatch;
    assert IsTail(s[q]);
    NoNameNoMatch(s, q);
  }

  lemma NoNameInMarked(s: string, i: nat, q: nat)
    requires EnvMatch(s, i).Some? && Marked(s, EnvMatch(s, i).value)
    requires i < q < EnvMatch(s, i).value.next
    ensures EnvMatch(s, q).None?
  {
    hide EnvMatch, MARK, Assign, T.OccursAt;
    var cut := EnvMatch(s, i).value;
    MatchParts(s, i);
    if q < cut.keep {
      AssignShape(s, i, Assign(s, i).value);
    } else {
      MarkNoName(s, cut.keep, q);
    }
    NoNameNoMatch(s, q);
  }

  lemma {:induction false} MarksFixed(s: string, i: nat)
    requires Suits(EnvMatcher) && Valid(s) && Boundary(s, i) && AllMarked(s)
    ensures Rest(EnvMatcher, s, i) == s[i..]
    decreases |s| - i
  {
    hide EnvMatch, Rest, MARK, Valid, Suits, Boundary, Step;
    RestAtEnd(EnvMatcher, s);
    BoundaryInside(s, i);
    if i < |s| {
      Matches(s, i);
      if EnvMatch(s, i).None? {
        var n := RestCopies(EnvMatcher, s, i);
        MarksFixed(s, n);
        assert s[i..] == s[i..n] + s[n..];
      } else {
        var cut := EnvMatch(s, i).value;
        Keeps(s, i);
        RestCuts(EnvMatcher, s, i);
        MarksFixed(s, cut.next);
        MarkLength();
        assert s[i..] == s[i..cut.keep] + (s[cut.keep..cut.keep + 10] + s[cut.next..]);
      }
    }
  }

  /** The pass leaves a text alone if and only if all it would hide is marks. */
  lemma FixedExactly(s: string)
    requires Valid(s)
    ensures EnvPass(s) == s <==> AllMarked(s)
  {
    hide EnvMatch, Rest, Valid, Suits, Marked, EnvPass, Aligned;
    RestOfAll(s);
    assert s[0..] == s;
    if EnvPass(s) == s {
      forall q: nat | q < |s| && EnvMatch(s, q).Some?
        ensures Marked(s, EnvMatch(s, q).value)
      {
        FixedMarks(s, 0, q);
      }
    }
    if AllMarked(s) {
      MarksFixed(s, 0);
    }
  }
}
