/** The output of a scanner beside its input: what it starts with, where each byte of it comes from. */
module ScanOutput {
  import opened Utf8
  import opened Scanner
  import opened Patterns
  import T = Text

  // ---------- Two texts that agree ----------

  ghost predicate Same(s: string, i: nat, o: string, p: nat, n: nat) {
    i + n <= |s| && p + n <= |o| && s[i..i + n] == o[p..p + n]
  }

  lemma SameAt(s: string, i: nat, o: string, p: nat, n: nat, y: int)
    requires Same(s, i, o, p, n) && i <= y < i + n
    ensures y < |s| && 0 <= y - i + p < |o|
    ensures s[y] == o[y - i + p]
  {
    assert s[i..i + n][y - i] == o[p..p + n][y - i];
  }

  lemma SameBounds(s: string, i: nat, o: string, p: nat, n: nat)
    requires Same(s, i, o, p, n)
    ensures i + n <= |s| && p + n <= |o|
  {
  }

  /** Both texts end where they stop agreeing. */
  predicate BothEnd(s: string, i: nat, o: string, p: nat, n: nat) {
    i + n == |s| && p + n == |o|
  }

  lemma {:induction false} RunMoves(s: string, i: nat, o: string, p: nat, n: nat, x: nat, k: Class)
    requires Same(s, i, o, p, n) && i <= x <= i + n
    requires RunEnd(s, x, k) < i + n || BothEnd(s, i, o, p, n)
    ensures RunEnd(o, x - i + p, k) == RunEnd(s, x, k) - i + p
    decreases i + n - x
  {
    hide Same, In;
    if x < i + n {
      SameAt(s, i, o, p, n, x);
      if In(k, s[x]) {
        RunMoves(s, i, o, p, n, x + 1, k);
      }
    }
  }

  lemma Shorter(s: string, i: nat, o: string, p: nat, n: nat, m: nat)
    requires Same(s, i, o, p, n) && m <= n
    ensures Same(s, i, o, p, m)
  {
    assert s[i..i + m] == s[i..i + n][..m] && o[p..p + m] == o[p..p + n][..m];
  }

  lemma StepByFirst(s: string, t: string)
    requires s != [] && t != [] && s[0] == t[0]
    ensures Step(s) == Step(t)
  {
  }

  // ---------- The output from an index on ----------

  lemma NextCopies(m: Matcher, s: string, i: nat)
    requires Valid(s) && Boundary(s, i) && i < |s| && Fits(m, s) && m(s, i).None?
    ensures Next(m, s, i) == i + Step(s[i..])
  {
    hide Valid, Step, Boundary, Fits;
  }

  lemma CopiesFrom(m: Matcher, s: string, i: nat) returns (n: nat)
    requires Valid(s) && Boundary(s, i) && i < |s| && Fits(m, s) && m(s, i).None?
    ensures n == i + Step(s[i..]) && i < n <= |s| && Boundary(s, n)
    ensures Rewrite(m, s, i) == s[i..n] + Rewrite(m, s, n)
    ensures forall x :: i < x < n ==> IsTail(s[x])
  {
    hide Valid, Step, Boundary, Fits, Rewrite;
    StepFrom(s, i);
    n := i + Step(s[i..]);
    NextCopies(m, s, i);
    CopySplit(m, s, i);
  }

  /** Bytes are written as they are as long as nothing matches. */
  lemma {:induction false} CopiesRun(m: Matcher, s: string, i: nat, n: nat)
    requires Valid(s) && Boundary(s, i) && Boundary(s, n) && i <= n && Fits(m, s)
    requires forall j :: i <= j < n ==> m(s, j).None?
    ensures Rewrite(m, s, i) == s[i..n] + Rewrite(m, s, n)
    decreases n - i
  {
    hide Valid, Fits, Rewrite;
    if i < n {
      var j := CopiesFrom(m, s, i);
      CopiesRun(m, s, j, n);
      assert s[i..n] == s[i..j] + s[j..n];
    } else {
      assert s[i..n] == [];
    }
  }

  /** The output starts like the text, if a match keeps something. */
  lemma StartsAlike(m: Matcher, s: string, i: nat)
    requires Valid(s) && Boundary(s, i) && i < |s| && Fits(m, s) && (m(s, i).Some? ==> i < m(s, i).value.keep)
    ensures Rewrite(m, s, i) != [] && Rewrite(m, s, i)[0] == s[i]
  {
    hide Valid, Fits, Rewrite;
    if m(s, i).Some? {
      var head, mark, rest := MatchSplit(m, s, i);
    } else {
      var n := CopiesFrom(m, s, i);
    }
  }

  /** The text starts like the output up to the first bracket. */
  lemma Leads(m: Matcher, s: string, i: nat, w: string)
    requires Valid(s) && Boundary(s, i) && Fits(m, s) && w <= Rewrite(m, s, i) && '[' !in w
    ensures i + |w| <= |s| && s[i..i + |w|] == w
  {
    hide Valid, Boundary, Rewrite, Fits;
    LeadAgrees(m, s, i, w);
  }

  /** A matcher that fits every valid text. */
  ghost predicate Suits(m: Matcher) {
    forall s: string :: Valid(s) ==> Fits(m, s)
  }

  /** What the scanner writes from `i` on. */
  ghost function Rest(m: Matcher, s: string, i: nat): string {
    if Suits(m) && Valid(s) && Boundary(s, i) then Rewrite(m, s, i) else ""
  }

  lemma RestAtEnd(m: Matcher, s: string)
    ensures Boundary(s, |s|) && Rest(m, s, |s|) == []
  {
    hide Valid, Suits;
  }

  lemma RestCopies(m: Matcher, s: string, i: nat) returns (n: nat)
    requires Suits(m) && Valid(s) && Boundary(s, i) && i < |s| && m(s, i).None?
    ensures n == i + Step(s[i..]) && i < n <= |s| && Boundary(s, n)
    ensures Rest(m, s, i) == s[i..n] + Rest(m, s, n)
    ensures forall x :: i < x < n ==> IsTail(s[x])
  {
    hide Valid, Boundary, Fits, Rewrite, Step;
    n := CopiesFrom(m, s, i);
  }

  lemma RestCopiesRun(m: Matcher, s: string, i: nat, n: nat)
    requires Suits(m) && Valid(s) && Boundary(s, i) && Boundary(s, n) && i <= n
    requires forall j :: i <= j < n ==> m(s, j).None?
    ensures Rest(m, s, i) == s[i..n] + Rest(m, s, n)
  {
    hide Valid, Fits, Rewrite;
    CopiesRun(m, s, i, n);
  }

  lemma RestCuts(m: Matcher, s: string, i: nat)
    requires Suits(m) && Valid(s) && Boundary(s, i) && i < |s| && m(s, i).Some?
    ensures var cut := m(s, i).value;
            && i <= cut.keep <= cut.next <= |s| && i < cut.next && Boundary(s, cut.next) && IsMark(cut.mark)
            && Rest(m, s, i) == s[i..cut.keep] + (cut.mark + Rest(m, s, cut.next))
  {
    hide Valid, IsMark;
    CutBounds(m, s, i);
    hide Fits;
    var head, mark, rest := MatchSplit(m, s, i);
  }

  lemma CutBounds(m: Matcher, s: string, i: nat)
    requires Valid(s) && Boundary(s, i) && i < |s| && Fits(m, s) && m(s, i).Some?
    ensures var cut := m(s, i).value;
            && i <= cut.keep <= cut.next <= |s| && i < cut.next && Boundary(s, cut.next) && IsMark(cut.mark)
            && Next(m, s, i) == cut.next
  {
    hide Valid;
  }

  lemma RestLeads(m: Matcher, s: string, i: nat, w: string)
    requires Suits(m) && Valid(s) && Boundary(s, i) && w <= Rest(m, s, i) && '[' !in w
    ensures i + |w| <= |s| && s[i..i + |w|] == w
  {
    hide Valid, Boundary, Rewrite, Fits;
    Leads(m, s, i, w);
  }

  /** The output starts like the text, if a match there keeps something. */
  lemma RestStartsAlike(m: Matcher, s: string, i: nat)
    requires Suits(m) && Valid(s) && Boundary(s, i) && i < |s| && (m(s, i).Some? ==> i < m(s, i).value.keep)
    ensures Rest(m, s, i) != [] && Rest(m, s, i)[0] == s[i]
  {
    hide Valid, Boundary, Rewrite, Fits;
    StartsAlike(m, s, i);
  }

  // ---------- The output beside the text ----------

  ghost predicate EndsCut(m: Matcher, s: string, i: nat) {
    exists h: nat :: h < i && h < |s| && m(s, h).Some? && m(s, h).value.next == i
  }

  /** The same byte comes before both indices, or a mark before p where a cut of the text ends at i. */
  ghost predicate SameBefore(m: Matcher, s: string, i: nat, o: string, p: nat) {
    || (i == 0 && p == 0)
    || (0 < i <= |s| && 0 < p <= |o| && s[i - 1] == o[p - 1])
    || (0 < p <= |o| && o[p - 1] == ']' && EndsCut(m, s, i))
  }

  /** The output has reached p where the text has reached i. */
  ghost predicate Aligned(m: Matcher, s: string, i: nat, o: string, p: nat) {
    Suits(m) && Valid(s) && Boundary(s, i) && p <= |o| && o[p..] == Rest(m, s, i) && SameBefore(m, s, i, o, p)
  }

  lemma StartsAligned(m: Matcher, s: string)
    requires Suits(m) && Valid(s) && Boundary(s, 0)
    ensures Aligned(m, s, 0, Rest(m, s, 0), 0)
  {
    hide Valid, Suits, Rest;
    assert Rest(m, s, 0)[0..] == Rest(m, s, 0);
  }

  lemma AlignedStart(m: Matcher, s: string, i: nat, o: string, p: nat)
    requires Aligned(m, s, i, o, p)
    ensures Suits(m) && Valid(s) && Boundary(s, i) && i <= |s| && p <= |o| && o[p..] == Rest(m, s, i)
    ensures SameBefore(m, s, i, o, p)
  {
  }

  lemma AlignedMakes(m: Matcher, s: string, i: nat, o: string, p: nat)
    requires Suits(m) && Valid(s) && Boundary(s, i) && p <= |o| && o[p..] == Rest(m, s, i) && SameBefore(m, s, i, o, p)
    ensures Aligned(m, s, i, o, p)
  {
  }

  /** What the output starts with there. */
  lemma OutputHead(o: string, p: nat, head: string, rest: string)
    requires p <= |o| && o[p..] == head + rest
    ensures p + |head| <= |o| && o[p..p + |head|] == head && o[p + |head|..] == rest
  {
    assert o[p..][..|head|] == head && o[p..][|head|..] == rest;
  }

  lemma EqualBefore(m: Matcher, s: string, i: nat, o: string, p: nat, n: nat)
    requires SameBefore(m, s, i, o, p) && Same(s, i, o, p, n)
    ensures SameBefore(m, s, i + n, o, p + n)
  {
    hide EndsCut;
    if n > 0 {
      SameAt(s, i, o, p, n, i + n - 1);
    }
  }

  /** Where nothing matches up to a boundary, both go on alike. */
  lemma AlignedRun(m: Matcher, s: string, i: nat, o: string, p: nat, n: nat)
    requires Aligned(m, s, i, o, p) && Boundary(s, i + n) && forall j :: i <= j < i + n ==> m(s, j).None?
    ensures Same(s, i, o, p, n) && Aligned(m, s, i + n, o, p + n)
  {
    hide Valid, Suits, Rest, SameBefore, Boundary;
    AlignedStart(m, s, i, o, p);
    RestCopiesRun(m, s, i, i + n);
    BoundaryInside(s, i + n);
    OutputHead(o, p, s[i..i + n], Rest(m, s, i + n));
    EqualBefore(m, s, i, o, p, n);
  }

  lemma BoundaryInside(s: string, i: nat)
    requires Boundary(s, i)
    ensures i <= |s|
  {
  }

  /** Where nothing matches, one character is copied. */
  lemma AlignedCopy(m: Matcher, s: string, i: nat, o: string, p: nat) returns (n: nat)
    requires Aligned(m, s, i, o, p) && i < |s| && m(s, i).None?
    ensures i < n <= |s| && Same(s, i, o, p, n - i) && Aligned(m, s, n, o, p + (n - i))
    ensures forall x :: i < x < n ==> IsTail(s[x])
    ensures n == i + Step(s[i..]) && p < |o| && Step(o[p..]) == n - i
  {
    hide Valid, Suits, Rest, SameBefore, Boundary;
    AlignedStart(m, s, i, o, p);
    n := RestCopies(m, s, i);
    OutputHead(o, p, s[i..n], Rest(m, s, n));
    EqualBefore(m, s, i, o, p, n - i);
    SameAt(s, i, o, p, n - i, i);
    StepByFirst(s[i..], o[p..]);
  }

  /** What is written for a match, and where the output goes on. */
  lemma AlignedCut(m: Matcher, s: string, i: nat, o: string, p: nat) returns (q: nat)
    requires Aligned(m, s, i, o, p) && i < |s| && m(s, i).Some?
    ensures var cut := m(s, i).value;
            && i <= cut.keep <= cut.next <= |s| && i < cut.next && IsMark(cut.mark)
            && q == p + (cut.keep - i) + |cut.mark| && Same(s, i, o, p, cut.keep - i)
            && T.OccursAt(o, cut.mark, p + (cut.keep - i)) && Aligned(m, s, cut.next, o, q)
  {
    hide Valid, Suits, Rest, IsMark;
    AlignedStart(m, s, i, o, p);
    RestCuts(m, s, i);
    var cut := m(s, i).value;
    var rest := Rest(m, s, cut.next);
    OutputHead(o, p, s[i..cut.keep], cut.mark + rest);
    OutputHead(o, p + (cut.keep - i), cut.mark, rest);
    q := p + (cut.keep - i) + |cut.mark|;
    MarkShape(cut.mark);
    assert o[q - |cut.mark|..q][|cut.mark| - 1] == o[q - 1];
    assert EndsCut(m, s, cut.next);
  }

  /** A start of the output without a bracket is one of the text. */
  lemma LeadAligned(m: Matcher, s: string, i: nat, o: string, p: nat, n: nat)
    requires Aligned(m, s, i, o, p) && p + n <= |o| && forall x :: p <= x < p + n ==> o[x] != '['
    ensures Same(o, p, s, i, n)
  {
    hide Valid, Suits, Rest, Boundary, SameBefore;
    AlignedStart(m, s, i, o, p);
    SharedStart(o, p, n, Rest(m, s, i));
    RestLeads(m, s, i, o[p..p + n]);
  }

  lemma NextByte(m: Matcher, s: string, i: nat, o: string, p: nat)
    requires Aligned(m, s, i, o, p) && (i < |s| && m(s, i).Some? ==> i < m(s, i).value.keep)
    ensures i <= |s| && p <= |o| && (i == |s| <==> p == |o|) && (i < |s| ==> s[i] == o[p])
  {
    hide Valid, Suits, Rest, SameBefore;
    AlignedStart(m, s, i, o, p);
    if i < |s| {
      RestStartsAlike(m, s, i);
      assert o[p..][0] == o[p];
    } else {
      RestAtEnd(m, s);
    }
  }

  /** Every byte of the output is in a character copied, or in what is written for a match. */
  lemma {:induction false} Locate(m: Matcher, s: string, i: nat, o: string, p: nat, q: nat) returns (j: nat, r: nat)
    requires Aligned(m, s, i, o, p) && p <= q < |o|
    ensures i <= j < |s| && Aligned(m, s, j, o, r) && r <= q
    ensures m(s, j).None? ==> q < r + Step(s[j..])
    ensures m(s, j).Some? ==>
              j <= m(s, j).value.keep && q < r + (m(s, j).value.keep - j) + |m(s, j).value.mark|
    decreases |s| - i
  {
    hide Valid, Suits, Rest, SameBefore, Boundary, Step, Same, Aligned;
    AlignedStart(m, s, i, o, p);
    RestAtEnd(m, s);
    NotAtEnd(o, p, q);
    if m(s, i).Some? {
      var n := AlignedCut(m, s, i, o, p);
      if q < n {
        j, r := i, p;
      } else {
        j, r := Locate(m, s, m(s, i).value.next, o, n, q);
      }
    } else {
      var n := AlignedCopy(m, s, i, o, p);
      if q < p + (n - i) {
        j, r := i, p;
      } else {
        j, r := Locate(m, s, n, o, p + (n - i), q);
      }
    }
  }

  lemma NotAtEnd(o: string, p: nat, q: nat)
    requires p <= q < |o|
    ensures o[p..] != []
  {
  }

  lemma SharedStart(o: string, p: nat, n: nat, rest: string)
    requires p + n <= |o| && o[p..] == rest
    ensures o[p..p + n] <= rest
  {
    assert o[p..p + n] == o[p..][..n];
  }

  lemma MarkLength()
    ensures |MARK| == 10
  {
  }

  lemma MarkDiffers(o: string, p: nat, from: nat, rest: string)
    requires p <= from < |o| && o[from] != '['
    ensures o[p..from] + (MARK + rest) != o[p..]
  {
    MarkLength();
    assert MARK[0] == '[';
    assert (o[p..from] + (MARK + rest))[from - p] == '[' && o[p..][from - p] == o[from];
  }

  lemma Peel(x: string, y: string, head: string, xs: string, ys: string)
    requires x == head + xs && y == head + ys
    ensures x == y <==> xs == ys
  {
    assert x[|head|..] == xs && y[|head|..] == ys;
  }

  lemma WrittenAt(s: string, i: nat, keep: nat, rest: string)
    requires i <= keep <= |s| && s[i..] == s[i..keep] + (MARK + rest)
    ensures T.OccursAt(s, MARK, keep) && keep + 10 <= |s| && rest == s[keep + 10..]
  {
    MarkLength();
    OutputHead(s, i, s[i..keep], MARK + rest);
    OutputHead(s, keep, MARK, rest);
  }

  /** The same for a scanner that writes the mark of ten bytes. */
  lemma AlignedMark(m: Matcher, s: string, i: nat, o: string, p: nat) returns (q: nat)
    requires Aligned(m, s, i, o, p) && i < |s| && m(s, i).Some? && m(s, i).value.mark == MARK
    ensures var cut := m(s, i).value;
            && i <= cut.keep <= cut.next <= |s| && i < cut.next && q == p + (cut.keep - i) + 10 <= |o|
            && Same(s, i, o, p, cut.keep - i) && T.OccursAt(o, MARK, q - 10) && Aligned(m, s, cut.next, o, q)
  {
    hide Aligned, MARK, Same, IsMark, T.OccursAt;
    MarkLength();
    q := AlignedCut(m, s, i, o, p);
    AlignedStart(m, s, m(s, i).value.next, o, q);
  }

  /** Where the output is the text, a cut that writes the mark finds it there. */
  lemma MarkWritten(m: Matcher, s: string, i: nat)
    requires Suits(m) && Valid(s) && Boundary(s, i) && i < |s| && m(s, i).Some? && m(s, i).value.mark == MARK
    requires Rest(m, s, i) == s[i..]
    ensures var cut := m(s, i).value;
            && cut.keep <= cut.next <= |s| && Boundary(s, cut.next)
            && T.OccursAt(s, MARK, cut.keep) && cut.keep + 10 <= |s| && Rest(m, s, cut.next) == s[cut.keep + 10..]
  {
    hide Suits, Valid, Rest, MARK, Boundary;
    RestCuts(m, s, i);
    WrittenAt(s, i, m(s, i).value.keep, Rest(m, s, m(s, i).value.next));
  }

  /** Two rests behind the same start and the mark agree just when the wholes do. */
  lemma MarkedRest(o: string, p: nat, from: nat)
    requires p <= from && T.OccursAt(o, MARK, from)
    ensures from + 10 <= |o| && o[p..] == o[p..from] + MARK + o[from + 10..]
    ensures forall rest :: o[p..from] + (MARK + rest) == o[p..from] + MARK + rest
  {
    MarkLength();
    hide MARK;
    assert o[p..] == o[p..from] + o[from..from + 10] + o[from + 10..];
  }
}
