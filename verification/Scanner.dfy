/**
 * The shape the line scanners share: walk the text; where a pattern matches, keep the head of the match, write
 * a mark for the rest, and jump past it; elsewhere copy one character.
 */
module Scanner {
  import opened Wrappers
  import opened Utf8
  import T = Text

  const MARK: string := "[REDACTED]"
  const ENTROPY_MARK: string := "[REDACTED_HIGH_ENTROPY]"

  predicate IsMark(mark: string) {
    mark == MARK || mark == ENTROPY_MARK
  }

  /** A match at `i`: the text up to `keep` stays, and the mark stands for the text up to `next`. */
  datatype Cut = Cut(keep: nat, next: nat, mark: string)

  type Matcher = (string, nat) -> Option<Cut>

  /** At every boundary a match makes progress and cuts the text at boundaries inside it. */
  ghost predicate Fits(m: Matcher, s: string) {
    forall i: nat {:trigger m(s, i)} :: i < |s| && Boundary(s, i) && m(s, i).Some? ==>
      var cut := m(s, i).value;
      && i <= cut.keep <= cut.next <= |s| && i < cut.next && Boundary(s, cut.keep) && Boundary(s, cut.next)
      && IsMark(cut.mark)
  }

  /** The index the scanner goes to from a boundary `i`. */
  function Next(m: Matcher, s: string, i: nat): (n: nat)
    requires Valid(s) && Boundary(s, i) && i < |s| && Fits(m, s)
    ensures i < n <= |s| && Boundary(s, n)
  {
    StepFrom(s, i);
    if m(s, i).Some? then m(s, i).value.next else i + Step(s[i..])
  }

  /** What it writes meanwhile. */
  function Piece(m: Matcher, s: string, i: nat): (out: string)
    requires Valid(s) && Boundary(s, i) && i < |s| && Fits(m, s)
  {
    if m(s, i).Some? then s[i..m(s, i).value.keep] + m(s, i).value.mark else s[i..Next(m, s, i)]
  }

  /** What the scanner writes from index `i` on. */
  ghost function Rewrite(m: Matcher, s: string, i: nat): string
    requires Valid(s) && Boundary(s, i) && Fits(m, s)
    decreases |s| - i
  {
    if i == |s| then [] else Piece(m, s, i) + Rewrite(m, s, Next(m, s, i))
  }

  lemma MarkShape(mark: string)
    requires IsMark(mark)
    ensures |mark| >= 2 && mark[0] == '[' && mark[|mark| - 1] == ']' && Valid(mark)
  {
    hide Valid;
    AsciiValid(mark);
  }

  lemma {:induction false} PieceValid(m: Matcher, s: string, i: nat)
    requires Valid(s) && Boundary(s, i) && i < |s| && Fits(m, s)
    ensures Valid(Piece(m, s, i))
  {
    hide Valid;
    if m(s, i).Some? {
      SliceValid(s, i, m(s, i).value.keep);
      MarkShape(m(s, i).value.mark);
      ValidConcat(s[i..m(s, i).value.keep], m(s, i).value.mark);
    } else {
      SliceValid(s, i, Next(m, s, i));
    }
  }

  /** Every scanner of this shape turns a valid text into a valid text. */
  lemma {:induction false} RewriteValid(m: Matcher, s: string, i: nat)
    requires Valid(s) && Boundary(s, i) && Fits(m, s)
    ensures Valid(Rewrite(m, s, i))
    decreases |s| - i
  {
    if i < |s| {
      PieceValid(m, s, i);
      RewriteValid(m, s, Next(m, s, i));
      ValidConcat(Piece(m, s, i), Rewrite(m, s, Next(m, s, i)));
    }
  }

  /** A text in which nothing matches is left as it is. */
  lemma {:induction false} RewriteNothing(m: Matcher, s: string, i: nat)
    requires Valid(s) && Boundary(s, i) && Fits(m, s)
    requires forall j :: i <= j < |s| ==> m(s, j).None?
    ensures Rewrite(m, s, i) == s[i..]
    decreases |s| - i
  {
    if i < |s| {
      RewriteNothing(m, s, Next(m, s, i));
      assert s[i..] == s[i..Next(m, s, i)] + s[Next(m, s, i)..];
    }
  }

  /** An occurrence cannot cover a byte it does not hold. */
  lemma {:induction false} Avoids(text: string, w: string, k: nat, p: nat)
    requires T.OccursAt(text, w, k) && p < |text| && text[p] !in w
    ensures p < k || k + |w| <= p
  {
    forall y | k <= y < k + |w|
      ensures text[y] in w
    {
      assert text[k..k + |w|][y - k] == text[y];
    }
  }

  lemma {:induction false} OccursInHead(head: string, rest: string, w: string, k: nat)
    requires T.OccursAt(head + rest, w, k) && k + |w| <= |head|
    ensures T.OccursAt(head, w, k)
  {
    assert head[k..k + |w|] == (head + rest)[k..k + |w|];
  }

  lemma {:induction false} OccursInRest(head: string, rest: string, w: string, k: nat)
    requires T.OccursAt(head + rest, w, k) && k >= |head|
    ensures T.OccursAt(rest, w, k - |head|)
  {
    assert rest[k - |head|..k - |head| + |w|] == (head + rest)[k..k + |w|];
  }

  lemma {:induction false} OccursAcross(head: string, rest: string, w: string)
    requires T.OccursAt(head + rest, w, 0) && |w| > |head|
    ensures w == head + w[|head|..] && T.OccursAt(rest, w[|head|..], 0)
  {
    var all := head + rest;
    assert w == all[..|w|];
    assert rest[..|w| - |head|] == w[|head|..];
  }

  lemma {:induction false} OccursGlued(s: string, i: nat, n: nat, tail: string)
    requires i <= n <= |s| && T.OccursAt(s, tail, n)
    ensures T.OccursAt(s, s[i..n] + tail, i)
  {
    assert s[i..n + |tail|] == s[i..n] + s[n..n + |tail|];
  }

  lemma {:induction false} OccursInSlice(s: string, i: nat, n: nat, w: string, k: nat)
    requires i <= n <= |s| && T.OccursAt(s[i..n], w, k)
    ensures T.OccursAt(s, w, i + k)
  {
    var part := s[i..n];
    assert forall x :: 0 <= x < n - i ==> part[x] == s[i + x];
    assert s[i + k..i + k + |w|] == part[k..k + |w|];
  }

  lemma {:induction false} MatchSplit(m: Matcher, s: string, i: nat) returns (head: string, mark: string, rest: string)
    requires Valid(s) && Boundary(s, i) && Fits(m, s) && i < |s| && m(s, i).Some?
    ensures i <= m(s, i).value.keep <= |s|
    ensures head == s[i..m(s, i).value.keep] && rest == Rewrite(m, s, Next(m, s, i))
    ensures mark == m(s, i).value.mark && IsMark(mark)
    ensures Rewrite(m, s, i) == head + (mark + rest)
  {
    head, mark, rest := s[i..m(s, i).value.keep], m(s, i).value.mark, Rewrite(m, s, Next(m, s, i));
    assert head + mark + rest == head + (mark + rest);
  }

  lemma {:induction false} CopySplit(m: Matcher, s: string, i: nat)
    requires Valid(s) && Boundary(s, i) && Fits(m, s) && i < |s| && m(s, i).None?
    ensures Rewrite(m, s, i) == s[i..Next(m, s, i)] + Rewrite(m, s, Next(m, s, i))
  {
  }

  /** The output agrees with the input up to the first bracket. */
  lemma {:induction false} LeadAgrees(m: Matcher, s: string, i: nat, w: string)
    requires Valid(s) && Boundary(s, i) && Fits(m, s)
    requires T.OccursAt(Rewrite(m, s, i), w, 0) && '[' !in w
    ensures T.OccursAt(s, w, i)
    decreases |s| - i
  {
    hide Valid, Fits, Piece, Next;
    if i < |s| {
      var n := Next(m, s, i);
      if m(s, i).Some? {
        var head, mark, rest := MatchSplit(m, s, i);
        MarkShape(mark);
        assert (head + (mark + rest))[|head|] == '[';
        Avoids(head + (mark + rest), w, 0, |head|);
        OccursInHead(head, mark + rest, w, 0);
        OccursInSlice(s, i, m(s, i).value.keep, w, 0);
      } else if |w| > n - i {
        CopySplit(m, s, i);
        OccursAcross(s[i..n], Rewrite(m, s, n), w);
        LeadAgrees(m, s, n, w[n - i..]);
        OccursGlued(s, i, n, w[n - i..]);
      } else {
        CopySplit(m, s, i);
        OccursInHead(s[i..n], Rewrite(m, s, n), w, 0);
        OccursInSlice(s, i, n, w, 0);
      }
    }
  }

  /** A text that cannot overlap a mark: no bracket in it, and not part of a mark. */
  ghost predicate Plain(w: string) {
    && w != [] && '[' !in w && ']' !in w && !IsTail(w[0])
    && !T.Contains(MARK, w) && !T.Contains(ENTROPY_MARK, w)
  }

  /** A plain text beside a mark is before it or after it. */
  lemma {:induction false} PlainAroundMark(head: string, mark: string, rest: string, w: string, k: nat)
    requires Plain(w) && IsMark(mark) && T.OccursAt(head + (mark + rest), w, k)
    ensures if k < |head| then T.OccursAt(head, w, k)
            else k >= |head| + |mark| && T.OccursAt(rest, w, k - |head| - |mark|)
  {
    var text, last := head + (mark + rest), |head| + |mark| - 1;
    MarkShape(mark);
    assert text[|head|] == mark[0] && text[last] == mark[|mark| - 1];
    Avoids(text, w, k, |head|);
    Avoids(text, w, k, last);
    if k < |head| {
      OccursInHead(head, mark + rest, w, k);
    } else {
      OccursInRest(head, mark + rest, w, k);
      if k + |w| <= last {
        OccursInHead(mark, rest, w, k - |head|);
      }
      OccursInRest(mark, rest, w, k - |head|);
    }
  }

  /** Where nothing matches, an occurrence in the output is at this very character or after it. */
  lemma PlainAtStep(m: Matcher, s: string, i: nat, w: string, k: nat)
    requires Valid(s) && Boundary(s, i) && Fits(m, s) && i < |s| && m(s, i).None? && Plain(w)
    requires T.OccursAt(Rewrite(m, s, i), w, k) && k > 0
    ensures var n := Next(m, s, i); n - i <= k && T.OccursAt(Rewrite(m, s, n), w, k - (n - i))
  {
    hide Valid;
    StepFrom(s, i);
    var n := Next(m, s, i);
    var head, rest := s[i..n], Rewrite(m, s, n);
    assert (head + rest)[k..k + |w|][0] == (head + rest)[k];
    assert forall x :: 0 < x < n - i ==> head[x] == s[i + x];
    assert forall x :: 0 < x < n - i ==> IsTail(head[x]);
    assert n - i <= k;
    OccursInRest(head, rest, w, k);
  }

  lemma {:induction false} NotAtEnd(m: Matcher, s: string, i: nat, w: string, k: nat)
    requires Valid(s) && Boundary(s, i) && Fits(m, s) && Plain(w)
    requires T.OccursAt(Rewrite(m, s, i), w, k)
    ensures i < |s| && '[' !in w
  {
  }

  /**
   * A scanner writes no plain text of its own: one found in the output stands in the input, either where nothing
   * matched (`at == j`) or inside the kept head of a match (at `at`).
   */
  lemma {:induction false} PlainTextIsOld(m: Matcher, s: string, i: nat, w: string, k: nat) returns (j: nat, at: nat)
    requires Valid(s) && Boundary(s, i) && Fits(m, s) && Plain(w)
    requires T.OccursAt(Rewrite(m, s, i), w, k)
    ensures T.OccursAt(s, w, j) && at < |s| && Boundary(s, at)
    ensures if m(s, at).None? then at == j else at <= j && j + |w| <= m(s, at).value.keep
    decreases |s| - i
  {
    hide Valid, Plain, Fits, Piece, Next;
    NotAtEnd(m, s, i, w, k);
    var n := Next(m, s, i);
    if m(s, i).Some? {
      var head, mark, rest := MatchSplit(m, s, i);
      PlainAroundMark(head, mark, rest, w, k);
      if k < |head| {
        OccursInSlice(s, i, m(s, i).value.keep, w, k);
        j, at := i + k, i;
      } else {
        j, at := PlainTextIsOld(m, s, n, w, k - |head| - |mark|);
      }
    } else if k == 0 {
      LeadAgrees(m, s, i, w);
      j, at := i, i;
    } else {
      PlainAtStep(m, s, i, w, k);
      j, at := PlainTextIsOld(m, s, n, w, k - (n - i));
    }
  }
}
