/** The lines that `sanitize_line` leaves alone, and when a second run changes nothing. */
module SanitizeTwice {
  import opened Utf8
  import opened Scanner
  import opened Patterns
  import opened Sanitizer
  import opened PrefixedTokens
  import opened HighEntropy
  import opened SanitizeLine
  import opened ScanOutput
  import opened MarksKept
  import opened NamesKept
  import opened Pem
  import opened Removals
  import opened MarkBlocks
  import opened PemEnds
  import Entropy
  import KV = KeyValueTwice
  import Env = EnvTwice
  import T = Text

  // ---------- No run of mark bytes is flagged ----------

  predicate MarkByte(c: char) {
    'A' <= c <= 'E' || 'G' <= c <= 'I' || 'M' <= c <= 'P' || c == 'R' || c == 'T' || c == 'Y' || c == '_'
  }

  lemma MarkBytes(c: char)
    requires IsEntropic(c)
    ensures (c in MARK || c in ENTROPY_MARK ==> MarkByte(c)) && (c in PEM_MARK ==> MarkByte(c))
  {
  }

  function MarkBelow(k: nat): nat {
    Entropy.Clamp(k - 65, 5) + Entropy.Clamp(k - 71, 3) + Entropy.Clamp(k - 77, 4) + Entropy.Clamp(k - 82, 1)
    + Entropy.Clamp(k - 84, 1) + Entropy.Clamp(k - 89, 1) + Entropy.Clamp(k - 95, 1)
  }

  lemma {:induction false} MarkDistinct(run: string, k: nat)
    requires forall i :: 0 <= i < |run| ==> MarkByte(run[i])
    ensures Entropy.Distinct(run, k) <= MarkBelow(k)
  {
    if k > 0 {
      MarkDistinct(run, k - 1);
      if Entropy.Count(run, k - 1) > 0 {
        Entropy.CountedOccurs(run, k - 1);
      }
    }
  }

  lemma MarkBytesNotFlagged(run: string)
    requires forall i :: 0 <= i < |run| ==> IsEntropic(run[i]) && InMarks(run[i])
    ensures !Flagged(run)
  {
    hide IsEntropic, MarkByte, MARK, ENTROPY_MARK, PEM_MARK, Entropy.EntropyAbove;
    forall i | 0 <= i < |run|
      ensures MarkByte(run[i])
    {
      MarkBytes(run[i]);
    }
    MarkDistinct(run, 256);
    MarkByteCodes(run);
    Entropy.FewDistinctNeverAbove(run);
  }

  lemma MarkByteCodes(run: string)
    requires forall i :: 0 <= i < |run| ==> MarkByte(run[i])
    ensures Entropy.IsBytes(run) && MarkBelow(256) == 16
  {
  }

  /** The last stage of a line that ends as it began changes nothing. */
  lemma LastStage(t: string, w: string)
    requires Valid(t) && Valid(w) && HighEntropyPass(w) == t
    requires forall c :: !InMarks(c) ==> !Removes(EntropyMatcher, w, 0, c)
    ensures w == t
  {
    hide Valid, HighEntropyPass, EntropyMatcher, Rest, Suits, Flagged, RunEnd, InMarks, IsEntropic, Removes, ENTROPY_MARK;
    EntropySuits();
    EntropyPassIsRest(w);
    assert w[0..] == w;
    if Rest(EntropyMatcher, w, 0) != w {
      var j := FirstChange(EntropyMatcher, w, 0);
      EntropyIsLong(w, j);
      FlaggedRun(w, j);
      MarkBytesNotFlagged(w[j..RunEnd(w, j, Entropic)]);
    }
  }

  lemma FlaggedRun(w: string, j: nat)
    requires EntropyMatcher(w, j).Some?
    ensures j < |w| && Flagged(w[j..RunEnd(w, j, Entropic)])
    ensures var run := w[j..RunEnd(w, j, Entropic)]; forall i :: 0 <= i < |run| ==> IsEntropic(run[i])
  {
    hide Flagged;
    assert EntropyMatcher(w, j) == EntropyMatch(w, j);
  }

  // ---------- The lines left alone ----------

  /** The middle of a line that ends as it began: two passes that undo each other, so neither does anything. */
  lemma MiddleStages(t: string)
    requires Valid(t) && EnvPass(KeyValuePass(t)) == t && !BearerExposed(t)
    ensures KeyValuePass(t) == t && EnvPass(t) == t
  {
    hide Valid, EnvPass, KeyValuePass, Removes, Count, MARK, BlockChange, BearerExposed;
    var u := KeyValuePass(t);
    forall c | c !in MARK
      ensures !Removes(KeyValueMatcher, t, 0, c) && !Removes(EnvMatcher, u, 0, c)
    {
      KeyValueLoses(t, c);
      EnvLoses(u, c);
    }
    if u != t {
      var x, v := KeyValueChange(t);
      var y, z := EnvChange(u);
      NoWayBack(t, u, x, v, y, z);
    }
  }

  /** The text after the PEM stage goes through the token and bearer stages unchanged. */
  lemma QuietStages(t: string, p: string, from: nat)
    requires Valid(t) && Valid(p) && (p == t || EndReplaced(t, p, from))
    requires Clean(t, PASSES) && !BearerExposed(t)
    ensures PrefixedPass(p) == p && BearerPass(KeyValuePass(p)) == KeyValuePass(p)
  {
    hide Valid, PrefixedPass, KeyValuePass, BearerPass, PASSES, Exposed, BearerExposed, EndReplaced, Usable, Fits, Rewrite;
    ListedPassesUsable();
    forall i | 0 <= i < |PASSES|
      ensures !Exposed(p, PASSES[i])
    {
      if p != t && Exposed(p, PASSES[i]) {
        ReplacedIsClean(t, p, from, PASSES[i]);
      }
    }
    PrefixedPassIsComplete(p);
    if p != t && BearerExposed(p) {
      ReplacedHasNoBearer(t, p, from);
    }
    KeyValueExposesNoBearer(p);
    BearerPassIsComplete(KeyValuePass(p));
  }

  lemma KeyValueExposesNoBearer(p: string)
    requires Valid(p) && !BearerExposed(p)
    ensures !BearerExposed(KeyValuePass(p))
  {
    hide Valid, BearerExposed, Fits, Rewrite;
    KeyValueFits(p);
    StartBoundary(p);
    if BearerExposed(KeyValuePass(p)) {
      ScannerExposesNoBearer(KeyValueMatcher, p);
    }
  }

  /** A mark at the end, behind a line break, is still there after the middle stages. */
  lemma EndStays(p: string, from: nat, t: string)
    requires Valid(p) && EndReplaced(t, p, from) && EnvPass(KeyValuePass(p)) == t
    requires !Removes(KeyValueMatcher, p, 0, '\n') && !Removes(EnvMatcher, KeyValuePass(p), 0, '\n')
    ensures exists b :: t == b + "\n" + PEM_MARK
  {
    hide Valid, EnvPass, KeyValuePass, Removes, PEM_MARK, Rest, Suits, Aligned, KeepsEnd;
    MarkHasNoBreak();
    var u := KeyValuePass(p);
    KV.RestOfAll(p);
    assert p[from..] == PEM_MARK && p[from - 1] == t[from - 1];
    KeyValueKeepsEnd(p, from);
    var b := EndsAlike(KeyValueMatcher, p, 0, from);
    var a := |b| + 1;
    assert u == b + "\n" + PEM_MARK;
    assert u[a..] == PEM_MARK && u[a - 1] == '\n';
    Env.RestOfAll(u);
    EnvKeepsEnd(u, a);
    var c := EndsAlike(EnvMatcher, u, 0, a);
  }

  /** The PEM stage of a line that ends as it began changes nothing. */
  lemma FirstStage(t: string, p: string, from: nat)
    requires Valid(t) && Valid(p) && EndReplaced(t, p, from) && EnvPass(KeyValuePass(p)) == t && '\n' !in t[from..]
    requires !Removes(KeyValueMatcher, p, 0, '\n') && !Removes(EnvMatcher, KeyValuePass(p), 0, '\n')
    ensures p == t
  {
    hide Valid, EnvPass, KeyValuePass, Removes, PEM_MARK;
    EndStays(p, from, t);
    var b :| t == b + "\n" + PEM_MARK;
    MarkHasNoBreak();
    assert t == t[..from - 1] + "\n" + t[from..];
    SameLastLine(t[..from - 1], t[from..], b, PEM_MARK);
  }

  lemma DashAndBreak()
    ensures !InMarks('-') && !InMarks('\n')
  {
  }

  /** A line that ends as it began is left alone by the stages that hide values. */
  lemma FixedStages(t: string)
    requires Valid(t) && Sanitized(t) == t && Clean(t, PASSES) && !BearerExposed(t)
    ensures RedactPem(t) == t && KeyValuePass(t) == t && EnvPass(t) == t
  {
    hide Valid, RedactPem, PrefixedPass, KeyValuePass, BearerPass, EnvPass, HighEntropyPass, InMarks, Bodies,
         Removes, SpanHas,
         Clean, BearerExposed, EndReplaced, PASSES;
    forall c | !InMarks(c)
      ensures Boundary(t, 0) && Valid(RedactPem(t))
      ensures forall n :: 0 <= n < |Bodies(t, 0)| ==> !SpanHas(t, Bodies(t, 0)[n], c)
      ensures var a := PrefixedPass(RedactPem(t));
              var u := KeyValuePass(a);
              && !Removes(KeyValueMatcher, a, 0, c) && !Removes(EnvMatcher, BearerPass(u), 0, c)
              && !Removes(EntropyMatcher, EnvPass(BearerPass(u)), 0, c)
    {
      NothingRemoved(t, c);
    }
    DashAndBreak();
    DashlessPem(t);
    var p := RedactPem(t);
    var from := if Bodies(t, 0) == [] then 0 else Bodies(t, 0)[0].from;
    QuietStages(t, p, from);
    LastStage(t, EnvPass(KeyValuePass(p)));
    if p != t {
      BodyBreak(t, Bodies(t, 0)[0], p);
      FirstStage(t, p, from);
    }
    MiddleStages(t);
  }

  lemma BodyBreak(t: string, span: Span, p: string)
    requires EndReplaced(t, p, span.from) && span.to == |t| && !SpanHas(t, span, '\n')
    ensures '\n' !in t[span.from..]
  {
    assert t[span.from..span.to] == t[span.from..];
  }

  // ---------- The PEM stage ----------

  /** Every body is the mark already. */
  ghost predicate PemMarked(s: string)
    requires Valid(s)
  {
    Boundary(s, 0) && forall n :: 0 <= n < |Bodies(s, 0)| ==> BodyIsMark(s, Bodies(s, 0)[n])
  }

  predicate BodyIsMark(s: string, span: Span) {
    span.from <= span.to <= |s| && s[span.from..span.to] == PEM_MARK
  }

  lemma {:induction false} MarksSplice(s: string, i: nat, spans: seq<Span>)
    requires Ordered(s, i, spans) && forall n :: 0 <= n < |spans| ==> BodyIsMark(s, spans[n])
    ensures i <= |s| && Splice(PEM_MARK, s, i, spans) == s[i..]
    decreases |spans|
  {
    hide PEM_MARK;
    if spans != [] {
      var span := spans[0];
      assert forall n :: 0 <= n < |spans| - 1 ==> spans[1..][n] == spans[n + 1];
      MarksSplice(s, span.to, spans[1..]);
      OneBody(PEM_MARK, s, i, spans, s[span.to..]);
      hide Splice, Ordered;
      assert BodyIsMark(s, spans[0]);
      assert s[i..] == s[i..span.from] + s[span.from..span.to] + s[span.to..];
    }
  }

  /** The PEM stage leaves a text alone if and only if every body it would hide is the mark. */
  lemma PemFixedExactly(s: string)
    requires Valid(s)
    ensures RedactPem(s) == s <==> PemMarked(s)
  {
    hide Valid, RedactPem, Bodies, Splice, Ordered, AreBodies, SpanHas, PEM_MARK, InMarks, Count, BodyIsMark;
    PemIsSplice(s);
    assert s[0..] == s;
    if PemMarked(s) {
      MarksSplice(s, 0, Bodies(s, 0));
    }
    if RedactPem(s) == s {
      DashAndBreak();
      PemLoses(s, '-');
      DashlessPem(s);
      forall n | 0 <= n < |Bodies(s, 0)|
        ensures BodyIsMark(s, Bodies(s, 0)[n])
      {
        EndIsMark(s, Bodies(s, 0)[n]);
      }
    }
  }

  lemma EndIsMark(s: string, span: Span)
    requires EndReplaced(s, s, span.from) && span.to == |s|
    ensures BodyIsMark(s, span)
  {
    hide PEM_MARK;
    assert s[span.from..span.to] == (s[..span.from] + PEM_MARK)[span.from..];
  }

  // ---------- A second run ----------

  /**
   * `sanitize_line` leaves a line alone if and only if each of its six rewriters does, that is, if the bodies of its
   * PEM blocks and the values of its secret keys and assignments are marks, and it has no token and no secret run.
   */
  lemma SanitizedFixedExactly(t: string)
    requires Valid(t)
    ensures Sanitized(t) == t <==>
            && PemMarked(t) && Clean(t, PASSES) && KV.AllMarked(t) && !BearerExposed(t) && Env.AllMarked(t) && NoSecret(t)
  {
    hide Valid, PemMarked, Clean, KV.AllMarked, BearerExposed, Env.AllMarked, NoSecret, PASSES, RedactPem, PrefixedPass,
         KeyValuePass, BearerPass, EnvPass, HighEntropyPass;
    PemFixedExactly(t);
    PrefixedPassIsComplete(t);
    KV.FixedExactly(t);
    BearerPassIsComplete(t);
    Env.FixedExactly(t);
    RewritingIsIdempotent(t);
    SanitizedIsClean(t);
    if Sanitized(t) == t {
      FixedStages(t);
    }
  }

  /**
   * A second run changes nothing if and only if all that is left to hide in the sanitized line is marks: the bodies of
   * PEM blocks, the values of secret keys and the values of assignments.
   */
  lemma SecondRunExactly(line: string)
    requires Valid(line)
    ensures var t := Sanitized(line);
            Sanitized(t) == t <==> PemMarked(t) && KV.AllMarked(t) && Env.AllMarked(t)
  {
    hide Valid, PemMarked, Clean, KV.AllMarked, BearerExposed, Env.AllMarked, NoSecret, PASSES, Sanitized;
    SanitizedIsClean(line);
    SanitizedFixedExactly(Sanitized(line));
  }

  // ---------- Lines on which a second run changes nothing ----------

  /** A begin marker with an end marker behind its start. */
  ghost predicate PemPair(s: string) {
    exists b: nat, e: nat :: b <= e && T.OccursAt(s, PEM_BEGIN, b) && T.OccursAt(s, PEM_END, e)
  }

  lemma NoPairNoBody(s: string)
    requires Valid(s) && !PemPair(s)
    ensures Boundary(s, 0) && PemMarked(s) && RedactPem(s) == s
  {
    hide Valid, RedactPem, Bodies, AreBodies, BodyFrom, ClosesAt, PEM_BEGIN, PEM_END, DASHES, PEM_MARK, T.OccursAt;
    PemIsSplice(s);
    NoBodies(s, Bodies(s, 0));
    PemFixedExactly(s);
  }

  lemma NoBodies(s: string, spans: seq<Span>)
    requires AreBodies(s, 0, spans) && !PemPair(s)
    ensures spans == []
  {
    hide IsBody, PemPair;
    if spans != [] {
      var b: nat :| IsBody(s, 0, b, spans[0]) && AreBodies(s, spans[0].to, spans[1..]);
      BodyMakesPair(s, b, spans[0]);
    }
  }

  lemma BodyMakesPair(s: string, b: nat, span: Span)
    requires IsBody(s, 0, b, span)
    ensures PemPair(s)
  {
    hide BodyFrom, ClosesAt, PEM_BEGIN, PEM_END, T.OccursAt;
    var e: nat :| FirstFrom(s, b, PEM_END, e) && ClosesAt(s, e + |PEM_END|, span.to);
  }

  /** A marker in the output of the last rewriter stands in the text, no earlier than where the scan has come from. */
  lemma MarkerIsOld(s: string, i: nat, o: string, p: nat, w: string, q: nat) returns (j: nat)
    requires Aligned(EntropyMatcher, s, i, o, p) && p <= q && T.OccursAt(o, w, q)
    requires w == PEM_BEGIN || w == PEM_END
    ensures i <= j && T.OccursAt(s, w, j) && Aligned(EntropyMatcher, s, j, o, q)
  {
    hide Aligned, EntropyMatcher, PEM_BEGIN, PEM_END, ENTROPY_MARK, RunEnd, Step;
    MarkerDash(o, w, q);
    var r;
    j, r := Locate(EntropyMatcher, s, i, o, p, q);
    if EntropyMatcher(s, j).Some? {
      EntropyIsLong(s, j);
      var n := AlignedCut(EntropyMatcher, s, j, o, r);
      NoDashInMark(o, r, q);
    } else {
      var n := AlignedCopy(EntropyMatcher, s, j, o, r);
      if r < q {
        SameAt(s, j, o, r, n - j, q - r + j);
      }
      LeadAligned(EntropyMatcher, s, j, o, q, |w|);
      assert s[j..j + |w|] == w;
    }
  }

  lemma MarkerDash(o: string, w: string, q: nat)
    requires T.OccursAt(o, w, q) && (w == PEM_BEGIN || w == PEM_END)
    ensures q < |o| && o[q] == '-' && !IsTail('-') && q + |w| <= |o| && forall x :: q <= x < q + |w| ==> o[x] != '['
  {
    MarkerBytes(w);
    hide PEM_BEGIN, PEM_END;
    forall x | q <= x < q + |w|
      ensures o[x] == w[x - q]
    {
      assert o[q..q + |w|][x - q] == o[x];
    }
  }

  lemma MarkerBytes(w: string)
    requires w == PEM_BEGIN || w == PEM_END
    ensures |w| > 0 && w[0] == '-' && forall x :: 0 <= x < |w| ==> w[x] != '['
  {
  }

  lemma NoDashInMark(o: string, k: nat, q: nat)
    requires T.OccursAt(o, ENTROPY_MARK, k) && k <= q < k + |ENTROPY_MARK|
    ensures q < |o| && o[q] != '-'
  {
    assert '-' !in ENTROPY_MARK;
    hide ENTROPY_MARK;
    assert o[k..k + |ENTROPY_MARK|][q - k] == o[q];
  }

  /** The last rewriter puts no pair of markers together. */
  lemma EntropyMakesNoPair(s: string)
    requires Valid(s) && PemPair(HighEntropyPass(s))
    ensures PemPair(s)
  {
    hide Valid, HighEntropyPass, EntropyMatcher, Rest, Suits, T.OccursAt, PEM_BEGIN, PEM_END, Aligned;
    EntropySuits();
    EntropyPassIsRest(s);
    StartsAligned(EntropyMatcher, s);
    var o := HighEntropyPass(s);
    var b: nat, e: nat :| b <= e && T.OccursAt(o, PEM_BEGIN, b) && T.OccursAt(o, PEM_END, e);
    var i := MarkerIsOld(s, 0, o, 0, PEM_BEGIN, b);
    var j := MarkerIsOld(s, i, o, b, PEM_END, e);
  }

  /** The line before its last stage. */
  ghost function BeforeLast(line: string): (e: string)
    requires Valid(line)
    ensures Valid(e)
  {
    PemValid(line);
    EnvPass(BearerPass(KeyValuePass(PrefixedPass(RedactPem(line)))))
  }

  /** It is enough that all that is left to hide before the last stage is marks: that stage brings nothing back. */
  lemma SecondRunWhenMarked(line: string)
    requires Valid(line) && !PemPair(BeforeLast(line)) && KV.AllMarked(BeforeLast(line)) && Env.AllMarked(BeforeLast(line))
    ensures Sanitized(Sanitized(line)) == Sanitized(line)
  {
    hide Valid, PemPair, KV.AllMarked, Env.AllMarked, PemMarked, HighEntropyPass, Sanitized, BeforeLast;
    var e := BeforeLast(line);
    LastOfLine(line);
    EntropyKeepsMarks(e);
    EntropyKeepsNames(e);
    if PemPair(HighEntropyPass(e)) {
      EntropyMakesNoPair(e);
    }
    NoPairNoBody(HighEntropyPass(e));
    SecondRunExactly(line);
  }

  lemma LastOfLine(line: string)
    requires Valid(line)
    ensures Sanitized(line) == HighEntropyPass(BeforeLast(line))
  {
    hide Valid, PrefixedPass, KeyValuePass, BearerPass, EnvPass, HighEntropyPass, RedactPem;
    PemValid(line);
  }

  lemma BeginIsPlain()
    ensures Plain(PEM_BEGIN)
  {
    assert PEM_BEGIN[0] == '-' && |PEM_BEGIN| == 10;
    forall k
      ensures !T.OccursAt(MARK, PEM_BEGIN, k) && !T.OccursAt(ENTROPY_MARK, PEM_BEGIN, k)
    {
      NoDashes(MARK, k);
      NoDashes(ENTROPY_MARK, k);
    }
  }

  lemma NoDashes(mark: string, k: int)
    requires mark == MARK || mark == ENTROPY_MARK
    ensures !T.OccursAt(mark, PEM_BEGIN, k)
  {
    assert '-' !in MARK && '-' !in ENTROPY_MARK && PEM_BEGIN[0] == '-';
    hide MARK, ENTROPY_MARK, PEM_BEGIN;
    if T.OccursAt(mark, PEM_BEGIN, k) {
      SliceStart(mark, PEM_BEGIN, k);
    }
  }

  lemma SliceStart(s: string, w: string, k: int)
    requires T.OccursAt(s, w, k) && w != []
    ensures 0 <= k < |s| && s[k] == w[0] && s[k] in s
  {
    assert s[k..k + |w|][0] == s[k];
  }

  /** No scanner writes a begin marker. */
  lemma NoBeginWritten(m: Matcher, s: string)
    requires Valid(s) && Boundary(s, 0) && Fits(m, s) && !T.Contains(s, PEM_BEGIN)
    ensures !T.Contains(Rewrite(m, s, 0), PEM_BEGIN)
  {
    hide Valid, Fits, Rewrite, PEM_BEGIN, Plain, T.OccursAt;
    BeginIsPlain();
    if T.Contains(Rewrite(m, s, 0), PEM_BEGIN) {
      var k :| T.OccursAt(Rewrite(m, s, 0), PEM_BEGIN, k);
      OccursNonNegative(Rewrite(m, s, 0), PEM_BEGIN, k);
      var j, at := PlainTextIsOld(m, s, 0, PEM_BEGIN, k);
    }
  }

  lemma OccursNonNegative(s: string, w: string, k: int)
    requires T.OccursAt(s, w, k)
    ensures k >= 0
  {
  }

  lemma {:induction false} NoBeginInPasses(s: string, ps: seq<Pass>)
    requires Valid(s) && AllUsable(ps) && !T.Contains(s, PEM_BEGIN)
    ensures !T.Contains(RunPasses(s, ps), PEM_BEGIN)
    decreases |ps|
  {
    hide Valid, Fits, Rewrite, PEM_BEGIN, T.Contains;
    if ps != [] {
      var p := ps[0];
      OnePass(s, ps);
      RunFits(p.prefix, p.minRun, s);
      StartBoundary(s);
      NoBeginWritten(RunMatcher(p.prefix, p.minRun), s);
      NoBeginInPasses(RunPass(s, p.prefix, p.minRun), ps[1..]);
    }
  }

  lemma NoBeginNoPair(s: string)
    requires !T.Contains(s, PEM_BEGIN)
    ensures !PemPair(s)
  {
    hide PEM_BEGIN, PEM_END, T.OccursAt;
  }

  /**
   * In terms of the line: it holds no begin marker, the cuts its key-value stage takes are settled, and its assignment
   * stage changes nothing.
   */
  lemma SecondRunWhenSettled(line: string)
    requires Valid(line) && !T.Contains(line, PEM_BEGIN)
    requires Boundary(PrefixedPass(line), 0) && KV.SettledFrom(PrefixedPass(line), 0)
    requires var b := BearerPass(KeyValuePass(PrefixedPass(line))); EnvPass(b) == b
    ensures Sanitized(Sanitized(line)) == Sanitized(line)
  {
    hide Valid, PemPair, KV.AllMarked, Env.AllMarked, PemMarked, T.Contains, PEM_BEGIN, KeyValuePass, BearerPass, EnvPass,
         RedactPem, Fits, Rewrite, Sanitized, KV.SettledFrom, PASSES, RunPasses;
    NoBeginNoPair(line);
    NoPairNoBody(line);
    var s := PrefixedPass(line);
    ListedPassesUsable();
    NoBeginInPasses(line, PASSES);
    var k := KeyValuePass(s);
    var b := BearerPass(k);
    NoBeginInStages(s);
    NoBeginNoPair(b);
    KV.SecondPassExactly(s);
    KV.FixedExactly(k);
    BearerKeepsMarks(k);
    Env.FixedExactly(b);
    SecondRunWhenMarked(line);
  }

  lemma NoBeginInStages(s: string)
    requires Valid(s) && !T.Contains(s, PEM_BEGIN)
    ensures !T.Contains(KeyValuePass(s), PEM_BEGIN) && !T.Contains(BearerPass(KeyValuePass(s)), PEM_BEGIN)
  {
    hide Valid, Fits, Rewrite, PEM_BEGIN, T.Contains;
    StartBoundary(s);
    KeyValueFits(s);
    NoBeginWritten(KeyValueMatcher, s);
    var k := KeyValuePass(s);
    StartBoundary(k);
    BearerFits(k);
    NoBeginWritten(BearerMatcher, k);
  }
}
