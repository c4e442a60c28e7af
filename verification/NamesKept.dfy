/** A text whose assignments have nothing but marks for values stays one under the high-entropy scanner. */
module NamesKept {
  import opened Wrappers
  import opened Utf8
  import opened Scanner
  import opened Patterns
  import opened HighEntropy
  import opened SanitizeLine
  import opened ScanOutput
  import opened EnvParts
  import opened MarksKept
  import Env = EnvTwice
  import T = Text

  /** No run starts inside a name and its blanks. */
  lemma NameRuns(s: string, i: nat, y: nat)
    requires Assign(s, i) == Some(y)
    ensures forall x :: i < x < y ==> !IsEntropic(s[x]) || IsEntropic(s[x - 1])
  {
    hide Assign, RunEnd, IsEntropic;
    AssignShape(s, i, y);
    BlanksEndRuns();
  }

  /** Between the `=` and the content are blanks and at most a quote; the content stops where a run stops. */
  lemma ContentRuns(s: string, y: nat)
    requires y < |s|
    ensures forall x :: y < x < Content(s, y).0 ==> !IsEntropic(s[x])
    ensures Content(s, y).1 < |s| ==> !IsEntropic(s[Content(s, y).1])
  {
    hide RunEnd, IsEntropic;
    BlanksEndRuns();
    assert forall x :: y < x < RunEnd(s, y + 1, Blank) ==> In(Blank, s[x]);
  }

  lemma EntropyQuietContent(s: string, i: nat)
    requires EnvMatch(s, i).None? && EntropyMatcher(s, i).None?
    ensures QuietContent(EntropyMatcher, s, i)
  {
    hide EnvMatch, Assign, RunEnd, EntropyMatcher, Content, IsEntropic;
    if Assign(s, i).Some? {
      var y := Assign(s, i).value;
      var c, e := Content(s, y).0, Content(s, y).1;
      ShortContent(s, i, y);
      ContentOrder(s, y);
      NameRuns(s, i, y);
      ContentRuns(s, y);
      forall j: nat | i <= j <= e && j < |s|
        ensures EntropyMatcher(s, j).None?
      {
        if i < j < y {
          NotAStart(s, j);
        } else if j == y && c > y + 1 {
          EntropyNotNear(s, j, y + 1);
        } else if y < j < c {
          EntropyNotNear(s, j, j);
        } else if j > i {
          EntropyNotNear(s, j, e);
        }
      }
    }
  }

  /** Nothing matches from a name to the end of its mark, the byte after it included. */
  lemma EntropyQuietMarked(s: string, i: nat)
    requires EntropyMatcher(s, i).None? && EnvMatch(s, i).Some? && Env.Marked(s, EnvMatch(s, i).value)
    ensures forall j: nat :: i <= j <= EnvMatch(s, i).value.next && j < |s| ==> EntropyMatcher(s, j).None?
  {
    hide EnvMatch, Assign, RunEnd, EntropyMatcher, MARK, T.OccursAt, IsEntropic;
    var cut := EnvMatch(s, i).value;
    MatchParts(s, i);
    Env.MarkedIsBare(s, i);
    MarkBrackets(s, cut.keep);
    var y := Assign(s, i).value;
    NameRuns(s, i, y);
    BlanksEndRuns();
    forall j: nat | i <= j <= cut.next && j < |s|
      ensures EntropyMatcher(s, j).None?
    {
      if i < j < y {
        NotAStart(s, j);
      } else if j == y {
        EntropyNotNear(s, j, y + 1);
      } else if y < j < cut.next {
        EntropyNotNear(s, j, cut.next - 1);
      } else if j == cut.next {
        EntropyNotNear(s, j, j);
      }
    }
  }

  lemma MarkBrackets(s: string, k: nat)
    requires T.OccursAt(s, MARK, k)
    ensures k + 10 <= |s| && s[k] == '[' && s[k + 9] == ']'
  {
    assert |MARK| == 10 && MARK[0] == '[' && MARK[9] == ']';
    assert s[k..k + 10][0] == s[k] && s[k..k + 10][9] == s[k + 9];
  }

  /** The mark of a name is copied with the byte after it, and hides no more in the output. */
  lemma MarkedMoves(s: string, i: nat, o: string, p: nat)
    requires Aligned(EntropyMatcher, s, i, o, p) && i < |s| && EntropyMatcher(s, i).None?
    requires EnvMatch(s, i).Some? && Env.Marked(s, EnvMatch(s, i).value) && p < |o| && EnvStart(o, p)
    ensures EnvMatch(o, p).Some? && Env.Marked(o, EnvMatch(o, p).value)
  {
    hide EnvMatch, Aligned, Assign, EntropyMatcher, Same, Valid, T.OccursAt, Boundary, Suits, MARK, RunEnd, EnvStart, In;
    AlignedStart(EntropyMatcher, s, i, o, p);
    var cut := EnvMatch(s, i).value;
    EnvCuts(s, i);
    MatchParts(s, i);
    Env.MarkedIsBare(s, i);
    EntropyQuietMarked(s, i);
    var n, y := cut.next - i, Assign(s, i).value;
    CopiedPast(EntropyMatcher, s, i, o, p, n);
    Shorter(s, i, o, p, n, y + 1 - i);
    AssignMoves(s, i, o, p, y);
    MarkLength();
    OccursMoves(s, i, o, p, n, MARK, cut.keep);
    MarkAgain(o, p, y - i + p);
  }

  lemma MarkAgain(o: string, p: nat, y: nat)
    requires Assign(o, p) == Some(y) && T.OccursAt(o, MARK, y + 1)
    requires y + 11 < |o| ==> !In(EnvValue, o[y + 11])
    ensures EnvMatch(o, p).Some? && Env.Marked(o, EnvMatch(o, p).value)
  {
    hide EnvMatch, Assign, MARK, RunEnd, In;
    Env.MarkedMatches(o, p, y);
    MarkLength();
    Env.RunAfterMark(o, y + 1, y + 11);
  }

  /** No name starts in a mark. */
  lemma NoNameInMark(o: string, k: nat, q: nat)
    requires T.OccursAt(o, ENTROPY_MARK, k) && k <= q < k + |ENTROPY_MARK|
    ensures q < |o| && EnvMatch(o, q).None?
  {
    hide EnvMatch;
    EntropyMarkAt(o, k);
    hide ENTROPY_MARK;
    NoNameNoMatch(o, q);
  }

  lemma KeptMarkedAt(s: string, q: nat)
    requires Suits(EntropyMatcher) && Valid(s) && Boundary(s, 0) && Env.AllMarked(s)
    requires q < |Rest(EntropyMatcher, s, 0)| && EnvMatch(Rest(EntropyMatcher, s, 0), q).Some?
    ensures Env.Marked(Rest(EntropyMatcher, s, 0), EnvMatch(Rest(EntropyMatcher, s, 0), q).value)
  {
    hide Suits, Valid, EnvMatch, Rest, Env.Marked, Aligned, QuietContent, Step, Same, IsMark, EntropyMatcher, ENTROPY_MARK,
         EnvStart, Boundary, T.OccursAt, RunEnd;
    var m, o := EntropyMatcher, Rest(EntropyMatcher, s, 0);
    StartsAligned(m, s);
    var i, p := Locate(m, s, 0, o, 0, q);
    if m(s, i).None? {
      var n := AlignedCopy(m, s, i, o, p);
      if p < q {
        Env.TailNoName(s, i, o, p, n, q);
      } else if EnvMatch(s, i).None? {
        EntropyQuietContent(s, i);
        NoMatchMoves(m, s, i, o, p);
      } else {
        Env.MatchStarts(o, p);
        MarkedMoves(s, i, o, p);
      }
    } else {
      EntropyIsLong(s, i);
      var r := AlignedCut(m, s, i, o, p);
      NoNameInMark(o, p, q);
    }
  }

  lemma EntropyKeepsNames(s: string)
    requires Valid(s) && Env.AllMarked(s)
    ensures Env.AllMarked(HighEntropyPass(s))
  {
    hide Valid, Suits, EnvMatch, Rest, Env.Marked;
    EntropySuits();
    EntropyPassIsRest(s);
    var o := HighEntropyPass(s);
    forall q: nat | q < |o| && EnvMatch(o, q).Some?
      ensures Env.Marked(o, EnvMatch(o, q).value)
    {
      KeptMarkedAt(s, q);
    }
  }
}
