/** What the scanners remove: no byte outside the marks is ever added, and a text left alone loses none. */
module Removals {
  import opened Utf8
  import opened Scanner
  import opened Patterns
  import opened Sanitizer
  import opened PrefixedTokens
  import opened HighEntropy
  import opened SanitizeLine
  import opened ScanOutput
  import opened MarksKept
  import opened Pem
  import KV = KeyValueTwice
  import Env = EnvTwice

  /** How often a byte occurs. */
  function Count(s: string, c: char): nat {
    multiset(s)[c]
  }

  lemma CountConcat(s: string, t: string, c: char)
    ensures Count(s + t, c) == Count(s, c) + Count(t, c)
  {
  }

  lemma CountZero(s: string, c: char)
    ensures Count(s, c) == 0 <==> c !in s
  {
    assert c in multiset(s) <==> c in s;
  }

  lemma CountParts(s: string, i: nat, j: nat, k: nat, c: char)
    requires i <= j <= k <= |s|
    ensures Count(s[i..], c) == Count(s[i..j], c) + Count(s[j..k], c) + Count(s[k..], c)
  {
    assert s[i..] == s[i..j] + s[j..k] + s[k..];
    CountConcat(s[i..j] + s[j..k], s[k..], c);
    CountConcat(s[i..j], s[j..k], c);
  }

  // ---------- A scanner ----------

  /** Some cut the scan takes from `i` on hides the byte. */
  ghost predicate Removes(m: Matcher, s: string, i: nat, c: char)
    decreases |s| - i
  {
    if !(Suits(m) && Valid(s) && Boundary(s, i) && i < |s|) then false
    else if m(s, i).Some? then
      RestCuts(m, s, i);
      c in s[m(s, i).value.keep..m(s, i).value.next] || Removes(m, s, m(s, i).value.next, c)
    else
      StepFrom(s, i);
      Removes(m, s, i + Step(s[i..]), c)
  }

  lemma {:induction false} RestCount(m: Matcher, s: string, i: nat, c: char)
    requires Suits(m) && Valid(s) && Boundary(s, i)
    requires forall j: nat :: j < |s| && m(s, j).Some? ==> c !in m(s, j).value.mark
    ensures Count(Rest(m, s, i), c) <= Count(s[i..], c)
    ensures Removes(m, s, i, c) ==> Count(Rest(m, s, i), c) < Count(s[i..], c)
    decreases |s| - i
  {
    hide Suits, Valid, Rest, Boundary, Count, Step;
    RestAtEnd(m, s);
    BoundaryInside(s, i);
    if i < |s| {
      if m(s, i).Some? {
        RestCuts(m, s, i);
        var cut := m(s, i).value;
        RestCount(m, s, cut.next, c);
        CountParts(s, i, cut.keep, cut.next, c);
        CountConcat(s[i..cut.keep], cut.mark + Rest(m, s, cut.next), c);
        CountConcat(cut.mark, Rest(m, s, cut.next), c);
        CountZero(cut.mark, c);
        CountZero(s[cut.keep..cut.next], c);
      } else {
        var n := RestCopies(m, s, i);
        RestCount(m, s, n, c);
        CountParts(s, i, n, n, c);
        CountZero(s[n..n], c);
        CountConcat(s[i..n], Rest(m, s, n), c);
      }
    } else {
      assert s[i..] == [];
    }
  }

  /** From `i` on the output is the text up to what the cut at `j` keeps, and there it differs. */
  ghost predicate ChangesAt(m: Matcher, s: string, i: nat, j: nat) {
    && i <= j < |s| && m(s, j).Some?
    && var cut := m(s, j).value;
       && j <= cut.keep <= cut.next <= |s| && Boundary(s, cut.next) && s[cut.keep..cut.next] != cut.mark
       && Rest(m, s, i) == s[i..cut.keep] + (cut.mark + Rest(m, s, cut.next))
  }

  /** The bytes the cut hides are removed by the scan. */
  ghost predicate HiddenRemoved(m: Matcher, s: string, i: nat, j: nat) {
    j < |s| && m(s, j).Some? && m(s, j).value.keep <= m(s, j).value.next <= |s|
    ==> forall c :: c in s[m(s, j).value.keep..m(s, j).value.next] ==> Removes(m, s, i, c)
  }

  lemma ChangeLater(m: Matcher, s: string, i: nat, k: nat, n: nat, j: nat, written: string)
    requires i <= k <= n <= |s| && ChangesAt(m, s, n, j)
    requires Rest(m, s, i) == s[i..k] + written && written == s[k..n] + Rest(m, s, n)
    ensures ChangesAt(m, s, i, j)
  {
    hide Rest, Boundary;
    var cut := m(s, j).value;
    var tail := cut.mark + Rest(m, s, cut.next);
    assert s[i..cut.keep] == s[i..k] + s[k..n] + s[n..cut.keep];
    assert s[i..k] + (s[k..n] + (s[n..cut.keep] + tail)) == s[i..k] + s[k..n] + s[n..cut.keep] + tail;
  }

  lemma NotAtTheEnd(m: Matcher, s: string, i: nat)
    requires Boundary(s, i) && i <= |s| && Rest(m, s, i) != s[i..]
    ensures i < |s|
  {
    hide Rest;
    RestAtEnd(m, s);
  }

  /** The first cut that changes something. */
  lemma {:induction false} FirstChange(m: Matcher, s: string, i: nat) returns (j: nat)
    requires Suits(m) && Valid(s) && Boundary(s, i) && Rest(m, s, i) != s[i..]
    ensures ChangesAt(m, s, i, j) && HiddenRemoved(m, s, i, j)
    decreases |s| - i
  {
    hide Suits, Valid, Rest, Boundary, Step, ChangesAt;
    BoundaryInside(s, i);
    NotAtTheEnd(m, s, i);
    if m(s, i).Some? {
      RestCuts(m, s, i);
      var cut := m(s, i).value;
      if s[cut.keep..cut.next] != cut.mark {
        j := i;
        ChangesHere(m, s, i);
      } else {
        assert s[i..] == s[i..cut.keep] + (cut.mark + s[cut.next..]);
        j := FirstChange(m, s, cut.next);
        ChangeLater(m, s, i, cut.keep, cut.next, j, cut.mark + Rest(m, s, cut.next));
      }
    } else {
      var n := RestCopies(m, s, i);
      assert s[i..] == s[i..n] + s[n..];
      j := FirstChange(m, s, n);
      assert s[n..n] + Rest(m, s, n) == Rest(m, s, n);
      ChangeLater(m, s, i, n, n, j, Rest(m, s, n));
    }
  }

  lemma ChangesHere(m: Matcher, s: string, i: nat)
    requires Suits(m) && Valid(s) && Boundary(s, i) && i < |s| && m(s, i).Some?
    requires m(s, i).value.keep <= m(s, i).value.next <= |s|
    requires s[m(s, i).value.keep..m(s, i).value.next] != m(s, i).value.mark
    ensures ChangesAt(m, s, i, i)
  {
    hide Suits, Valid, Rest;
    RestCuts(m, s, i);
  }

  // ---------- The rewriters ----------

  predicate InMarks(c: char) {
    c in MARK || c in ENTROPY_MARK || c in PEM_MARK
  }

  /** A scanner that cuts only at boundaries adds no byte outside the marks. */
  lemma RestLoses(m: Matcher, s: string, c: char)
    requires Suits(m) && Valid(s) && Boundary(s, 0) && !InMarks(c)
    requires forall j: nat :: j < |s| && m(s, j).Some? ==> IsMark(m(s, j).value.mark)
    ensures Count(Rest(m, s, 0), c) <= Count(s, c)
    ensures Removes(m, s, 0, c) ==> Count(Rest(m, s, 0), c) < Count(s, c)
  {
    hide Suits, Valid, Rest, Count, Removes, MARK, ENTROPY_MARK, PEM_MARK;
    RestCount(m, s, 0, c);
    assert s[0..] == s;
  }

  lemma RunSuits(prefix: string, minRun: nat)
    requires AsciiText(prefix)
    ensures Suits(RunMatcher(prefix, minRun))
  {
    hide Valid, Fits, AsciiText;
    forall s | Valid(s)
      ensures Fits(RunMatcher(prefix, minRun), s)
    {
      RunFits(prefix, minRun, s);
    }
  }

  lemma RunPassLoses(s: string, prefix: string, minRun: nat, c: char)
    requires Valid(s) && AsciiText(prefix) && !InMarks(c)
    ensures Count(RunPass(s, prefix, minRun), c) <= Count(s, c)
  {
    hide Suits, Valid, Rewrite, Fits, Count, MARK, ENTROPY_MARK, PEM_MARK, AsciiText, RunEnd, Starts;
    RunSuits(prefix, minRun);
    StartBoundary(s);
    RestLoses(RunMatcher(prefix, minRun), s, c);
  }

  lemma {:induction false} PassesLose(s: string, ps: seq<Pass>, c: char)
    requires Valid(s) && AllUsable(ps) && !InMarks(c)
    ensures Count(RunPasses(s, ps), c) <= Count(s, c)
    decreases |ps|
  {
    hide Valid, Count, InMarks, RunPass;
    if ps != [] {
      OnePass(s, ps);
      RunPassLoses(s, ps[0].prefix, ps[0].minRun, c);
      PassesLose(RunPass(s, ps[0].prefix, ps[0].minRun), ps[1..], c);
    }
  }

  lemma PrefixedLoses(s: string, c: char)
    requires Valid(s) && !InMarks(c)
    ensures Count(PrefixedPass(s), c) <= Count(s, c)
  {
    hide Valid, Count, InMarks, PASSES, RunPasses;
    ListedPassesUsable();
    PassesLose(s, PASSES, c);
  }

  lemma KeyValueLoses(s: string, c: char)
    requires Valid(s) && c !in MARK
    ensures Count(KeyValuePass(s), c) <= Count(s, c)
    ensures Removes(KeyValueMatcher, s, 0, c) ==> Count(KeyValuePass(s), c) < Count(s, c)
  {
    hide Suits, Valid, Rest, Count, KeyValuePass, Aligned, Removes, KeyValueMatch, MARK;
    KV.RestOfAll(s);
    forall j: nat | j < |s| && KeyValueMatcher(s, j).Some?
      ensures KeyValueMatcher(s, j).value.mark == MARK
    {
      KV.Keeps(s, j);
    }
    RestCount(KeyValueMatcher, s, 0, c);
    assert s[0..] == s;
  }

  lemma BearerLoses(s: string, c: char)
    requires Valid(s) && !InMarks(c)
    ensures Count(BearerPass(s), c) <= Count(s, c)
  {
    hide Suits, Valid, Rest, Count, InMarks, BearerPass, RunEnd, LowerStarts, MARK;
    BearerSuits();
    BearerPassIsRest(s);
    RestLoses(BearerMatcher, s, c);
  }

  lemma EnvLoses(s: string, c: char)
    requires Valid(s) && c !in MARK
    ensures Count(EnvPass(s), c) <= Count(s, c)
    ensures Removes(EnvMatcher, s, 0, c) ==> Count(EnvPass(s), c) < Count(s, c)
  {
    hide Suits, Valid, Rest, Count, EnvPass, Aligned, Removes, EnvMatch, MARK;
    Env.RestOfAll(s);
    forall j: nat | j < |s| && EnvMatcher(s, j).Some?
      ensures EnvMatcher(s, j).value.mark == MARK
    {
      Env.Keeps(s, j);
    }
    RestCount(EnvMatcher, s, 0, c);
    assert s[0..] == s;
  }

  lemma EntropyLoses(s: string, c: char)
    requires Valid(s) && !InMarks(c)
    ensures Count(HighEntropyPass(s), c) <= Count(s, c)
    ensures Removes(EntropyMatcher, s, 0, c) ==> Count(HighEntropyPass(s), c) < Count(s, c)
  {
    hide Suits, Valid, Rest, Count, InMarks, HighEntropyPass, Removes, RunEnd, Flagged;
    EntropySuits();
    EntropyPassIsRest(s);
    forall j: nat | j < |s| && EntropyMatcher(s, j).Some?
      ensures IsMark(EntropyMatcher(s, j).value.mark)
    {
      EntropyIsLong(s, j);
    }
    RestLoses(EntropyMatcher, s, c);
  }

  predicate SpanHas(s: string, span: Span, c: char) {
    span.from <= span.to <= |s| && c in s[span.from..span.to]
  }

  lemma {:induction false} SpliceLoses(mark: string, s: string, i: nat, spans: seq<Span>, c: char)
    requires Ordered(s, i, spans) && c !in mark
    ensures i <= |s| && Count(Splice(mark, s, i, spans), c) <= Count(s[i..], c)
    ensures forall n :: 0 <= n < |spans| && SpanHas(s, spans[n], c) ==>
              Count(Splice(mark, s, i, spans), c) < Count(s[i..], c)
    decreases |spans|
  {
    hide Count;
    if spans != [] {
      var span, rest := spans[0], Splice(mark, s, spans[0].to, spans[1..]);
      SpliceLoses(mark, s, span.to, spans[1..], c);
      OneBody(mark, s, i, spans, rest);
      hide Splice, Ordered;
      CountParts(s, i, span.from, span.to, c);
      CountConcat(s[i..span.from] + mark, rest, c);
      CountConcat(s[i..span.from], mark, c);
      CountZero(mark, c);
      CountZero(s[span.from..span.to], c);
      forall n | 0 < n < |spans|
        ensures spans[n] == spans[1..][n - 1]
      {
      }
    }
  }

  lemma PemLoses(s: string, c: char)
    requires Valid(s) && !InMarks(c)
    ensures Boundary(s, 0) && Count(RedactPem(s), c) <= Count(s, c)
    ensures forall n :: 0 <= n < |Bodies(s, 0)| && SpanHas(s, Bodies(s, 0)[n], c) ==>
              Count(RedactPem(s), c) < Count(s, c)
  {
    hide Valid, Bodies, RedactPem, Splice, Count, MARK, ENTROPY_MARK, PEM_MARK, AreBodies, Ordered;
    PemIsSplice(s);
    SpliceLoses(PEM_MARK, s, 0, Bodies(s, 0), c);
    assert s[0..] == s;
  }

  // ---------- A line that is left alone ----------

  /** The stages of a line that ends as it began remove no byte outside the marks. */
  lemma NothingRemoved(t: string, c: char)
    requires Valid(t) && Sanitized(t) == t && !InMarks(c)
    ensures Boundary(t, 0)
    ensures forall n :: 0 <= n < |Bodies(t, 0)| ==> !SpanHas(t, Bodies(t, 0)[n], c)
    ensures Valid(RedactPem(t))
    ensures var a := PrefixedPass(RedactPem(t));
            var u := KeyValuePass(a);
            var w := EnvPass(BearerPass(u));
            && !Removes(KeyValueMatcher, a, 0, c) && !Removes(EnvMatcher, BearerPass(u), 0, c)
            && !Removes(EntropyMatcher, w, 0, c)
  {
    hide Valid, RedactPem, PrefixedPass, KeyValuePass, BearerPass, EnvPass, HighEntropyPass, Count, InMarks, Bodies,
         Removes,
         SpanHas;
    OutsideMark(c);
    PemValid(t);
    var p := RedactPem(t);
    var a := PrefixedPass(p);
    var u := KeyValuePass(a);
    var x := BearerPass(u);
    var w := EnvPass(x);
    PemLoses(t, c);
    PrefixedLoses(p, c);
    KeyValueLoses(a, c);
    BearerLoses(u, c);
    EnvLoses(x, c);
    EntropyLoses(w, c);
  }

  lemma OutsideMark(c: char)
    ensures !InMarks(c) ==> c !in MARK
  {
  }
}
