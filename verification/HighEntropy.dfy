/** The two scanners for high-entropy runs: one rewrites the text, the other masks a byte slice in place. */
module HighEntropy {
  import opened Utf8
  import opened Scanner
  import opened Patterns
  import opened Entropy

  // ---------- Which runs are secret ----------

  predicate AllHex(run: string) {
    forall i :: 0 <= i < |run| ==> IsHexDigit(run[i])
  }

  predicate IsUuid(run: string) {
    |run| == 36 &&
    forall i :: 0 <= i < |run| ==>
      if i == 8 || i == 13 || i == 18 || i == 23 then run[i] == '-' else IsHexDigit(run[i])
  }

  predicate AllIn(run: string, low: char, high: char) {
    forall i :: 0 <= i < |run| ==> low <= run[i] <= high
  }

  /** Known hash lengths, UUIDs, digits, and lower-case words below 4.6 bits. */
  predicate Whitelisted(run: string) {
    || (AllHex(run) && |run| in {32, 40, 64, 128})
    || IsUuid(run)
    || AllIn(run, '0', '9')
    || (AllIn(run, 'a', 'z') && EntropyBelow(run, 23, 5))
  }

  /** A run that is replaced: 20 bytes or more, not whitelisted, above 4.5 bits. */
  predicate Flagged(run: string) {
    |run| >= 20 && !Whitelisted(run) && EntropyAbove(run, 9, 2)
  }

  predicate IsEntropic(c: char) {
    In(Entropic, c)
  }

  /** `[a, e)` is a maximal run of entropy characters. */
  predicate IsRun(s: string, a: nat, e: nat) {
    && a < e <= |s|
    && (forall x :: a <= x < e ==> IsEntropic(s[x]))
    && (a == 0 || !IsEntropic(s[a - 1]))
    && (e == |s| || !IsEntropic(s[e]))
  }

  predicate SecretRun(s: string, a: nat, e: nat) {
    IsRun(s, a, e) && Flagged(s[a..e])
  }

  /** Byte `k` lies in a run that is secret. */
  ghost predicate Secret(s: string, k: nat) {
    exists a: nat, e: nat :: a <= k < e && SecretRun(s, a, e)
  }

  ghost predicate NoSecret(s: string) {
    forall a: nat, e: nat :: !SecretRun(s, a, e)
  }

  lemma EntropicIsAscii(c: char)
    requires IsEntropic(c)
    ensures IsAscii(c) && c != '*' && c != '[' && c != ']'
  {
  }

  /** Two maximal runs that share a byte are the same run. */
  lemma RunsMeetOnce(s: string, a: nat, e: nat, b: nat, f: nat, k: nat)
    requires IsRun(s, a, e) && IsRun(s, b, f) && a <= k < e && b <= k < f
    ensures a == b && e == f
  {
    assert a < b ==> a <= b - 1 < e;
    assert b < a ==> b <= a - 1 < f;
    assert e < f ==> b <= e < f;
    assert f < e ==> a <= f < e;
  }

  // ---------- Deciding one run ----------

  method Decide(run: string) returns (flagged: bool)
    requires forall i :: 0 <= i < |run| ==> IsEntropic(run[i])
    ensures flagged == Flagged(run)
  {
    hide EntropyAbove, EntropyBelow;
    assert IsBytes(run) by {
      forall i | 0 <= i < |run|
        ensures run[i] as int < 256
      {
        EntropicIsAscii(run[i]);
      }
    }
    if |run| < 20 {
      return false;
    }
    if (AllHex(run) && |run| in {32, 40, 64, 128}) || IsUuid(run) || AllIn(run, '0', '9') {
      return false;
    }
    if AllIn(run, 'a', 'z') {
      var _, low := EntropyExceeds(run, 23, 5);
      if low {
        return false;
      }
    }
    var high, _ := EntropyExceeds(run, 9, 2);
    flagged := high;
  }

  // ---------- Masking in place ----------

  /** What masking makes of a text. */
  ghost function Masked(s: string): (t: string)
    ensures |t| == |s|
    ensures forall k :: 0 <= k < |s| ==> t[k] == if Secret(s, k) then '*' else s[k]
  {
    seq(|s|, k requires 0 <= k < |s| => if Secret(s, k) then '*' else s[k])
  }

  /** A position past a maximal run, or on a byte that is none, starts a run or is none. */
  ghost predicate Fresh(s: string, i: nat) {
    i <= |s| && (i == 0 || i == |s| || !IsEntropic(s[i - 1]) || !IsEntropic(s[i]))
  }

  lemma RunFrom(s: string, i: nat, e: nat)
    requires Fresh(s, i) && i < |s| && IsEntropic(s[i]) && e == RunEnd(s, i, Entropic)
    ensures i < e && IsRun(s, i, e) && Fresh(s, e)
  {
  }

  lemma SecretInRun(s: string, a: nat, e: nat, k: nat)
    requires IsRun(s, a, e) && a <= k < e
    ensures Secret(s, k) <==> Flagged(s[a..e])
  {
    if Secret(s, k) {
      var b: nat, f: nat :| b <= k < f && SecretRun(s, b, f);
      RunsMeetOnce(s, a, e, b, f, k);
    }
    if Flagged(s[a..e]) {
      assert SecretRun(s, a, e);
    }
  }

  lemma NotSecret(s: string, k: nat)
    requires k < |s| && !IsEntropic(s[k])
    ensures !Secret(s, k)
  {
  }

  /** Masks every byte of a secret run, and no other, in place. */
  method MaskSecretsInPlace(bytes: array<char>)
    modifies bytes
    ensures bytes[..] == Masked(old(bytes[..]))
  {
    hide RunEnd, Flagged, IsRun, Secret, Masked;
    ghost var s := bytes[..];
    MaskedLength(s);
    var i := 0;
    while i < bytes.Length
      invariant i <= bytes.Length && Fresh(s, i)
      invariant forall k :: 0 <= k < i ==> bytes[k] == Masked(s)[k]
      invariant forall k :: i <= k < bytes.Length ==> bytes[k] == s[k]
    {
      if In(Entropic, bytes[i]) {
        var start := i;
        i := SkipRun(bytes[..], start, Entropic);
        RestOfRun(s, bytes[..], start);
        RunFrom(s, start, i);
        MaskRun(bytes, start, i, s);
      } else {
        NotSecret(s, i);
        UnmaskedAt(s, i);
        i := i + 1;
      }
    }
    assert bytes[..] == Masked(s);
  }

  /** One run: masked as a whole, or left alone. */
  method MaskRun(bytes: array<char>, start: nat, end: nat, ghost s: string)
    requires |s| == bytes.Length && IsRun(s, start, end) && start <= end <= |s| && |Masked(s)| == |s|
    requires forall k :: start <= k < bytes.Length ==> bytes[k] == s[k]
    modifies bytes
    ensures forall k :: start <= k < end ==> bytes[k] == Masked(s)[k]
    ensures forall k :: 0 <= k < bytes.Length && !(start <= k < end) ==> bytes[k] == old(bytes[k])
  {
    hide Flagged, IsRun, Secret, Masked;
    var candidate := bytes[start..end];
    assert candidate == s[start..end];
    RunBytes(s, start, end);
    MaskedRun(s, start, end);
    var flagged := Decide(candidate);
    if flagged {
      for k := start to end
        invariant forall x :: start <= x < k ==> bytes[x] == '*'
        invariant forall x :: 0 <= x < bytes.Length && !(start <= x < k) ==> bytes[x] == old(bytes[x])
      {
        bytes[k] := '*';
      }
    }
  }

  lemma MaskedLength(s: string)
    ensures |Masked(s)| == |s|
  {
  }

  lemma UnmaskedAt(s: string, k: nat)
    requires k < |s| && !Secret(s, k)
    ensures k < |Masked(s)| && Masked(s)[k] == s[k]
  {
  }

  lemma MaskedRun(s: string, a: nat, e: nat)
    requires IsRun(s, a, e) && e <= |s|
    ensures |Masked(s)| == |s|
    ensures forall k :: a <= k < e ==> Masked(s)[k] == if Flagged(s[a..e]) then '*' else s[k]
  {
    hide Flagged, IsRun, Secret;
    forall k | a <= k < e
      ensures Masked(s)[k] == if Flagged(s[a..e]) then '*' else s[k]
    {
      SecretInRun(s, a, e, k);
    }
  }

  lemma RunBytes(s: string, a: nat, e: nat)
    requires IsRun(s, a, e)
    ensures e <= |s| && forall x :: 0 <= x < e - a ==> IsEntropic(s[a..e][x])
  {
  }

  /** A run is found by the bytes from its start on. */
  lemma {:induction false} RestOfRun(s: string, t: string, i: nat)
    requires i <= |s| == |t| && forall k :: i <= k < |s| ==> s[k] == t[k]
    ensures RunEnd(s, i, Entropic) == RunEnd(t, i, Entropic)
    decreases |s| - i
  {
    if i < |s| {
      RestOfRun(s, t, i + 1);
    }
  }

  // ---------- Rewriting ----------

  ghost function RedactRuns(s: string, i: nat): string
    requires Valid(s) && Boundary(s, i)
    decreases |s| - i
  {
    if i == |s| then []
    else
      RunStep(s, i);
      RunPiece(s, i) + RedactRuns(s, RunNext(s, i))
  }

  /** Where the scanner goes from `i`. */
  function RunNext(s: string, i: nat): nat
    requires i < |s|
  {
    if IsEntropic(s[i]) then RunEnd(s, i, Entropic) else i + Step(s[i..])
  }

  lemma RunStep(s: string, i: nat)
    requires Valid(s) && Boundary(s, i) && i < |s|
    ensures i < RunNext(s, i) <= |s| && Boundary(s, RunNext(s, i)) && Fresh(s, RunNext(s, i))
    ensures !IsEntropic(s[i]) ==> forall k :: i <= k < RunNext(s, i) ==> !IsEntropic(s[k])
    ensures IsEntropic(s[i]) && RunNext(s, i) < |s| ==> !IsEntropic(s[RunNext(s, i)])
  {
    hide Valid;
    if IsEntropic(s[i]) {
      EntropicIsAscii(s[i]);
      RunEndBoundary(s, i + 1, Entropic);
    } else {
      StepFrom(s, i);
      forall k | i < k < RunNext(s, i)
        ensures !IsEntropic(s[k])
      {
        assert IsTail(s[k]);
      }
    }
  }

  function RunPiece(s: string, i: nat): string
    requires Valid(s) && Boundary(s, i) && i < |s|
  {
    RunStep(s, i);
    var piece := s[i..RunNext(s, i)];
    if IsEntropic(s[i]) && Flagged(piece) then ENTROPY_MARK else piece
  }

  method RedactHighEntropyRuns(s: string) returns (out: string)
    requires Valid(s)
    ensures out == HighEntropyPass(s) && Valid(out)
  {
    hide Valid, RunEnd, Flagged, RedactRuns, Boundary, Step;
    var i := 0;
    out := [];
    StartBoundary(s);
    assert [] + RedactRuns(s, 0) == RedactRuns(s, 0);
    while i < |s|
      invariant i <= |s| && Boundary(s, i)
      invariant out + RedactRuns(s, i) == RedactRuns(s, 0)
    {
      RunStep(s, i);
      RedactUnfold(s, i);
      assert out + (RunPiece(s, i) + RedactRuns(s, RunNext(s, i))) == out + RunPiece(s, i) + RedactRuns(s, RunNext(s, i));
      EndBoundary(s);
      if IsEntropic(s[i]) {
        var start := i;
        i := SkipRun(s, start, Entropic);
        var flagged := Decide(s[start..i]);
        out := out + if flagged then ENTROPY_MARK else Slice(s, start, i);
      } else {
        var step := Step(Slice(s, i, |s|));
        out := out + Slice(s, i, i + step);
        i := i + step;
      }
    }
    RedactNothing(s);
    assert out + [] == out;
  }

  lemma RedactUnfold(s: string, i: nat)
    requires Valid(s) && Boundary(s, i) && i < |s|
    ensures i < RunNext(s, i) <= |s| && Boundary(s, RunNext(s, i))
    ensures RedactRuns(s, i) == RunPiece(s, i) + RedactRuns(s, RunNext(s, i))
  {
    hide Valid;
    RunStep(s, i);
  }

  lemma RedactNothing(s: string)
    requires Valid(s) && Boundary(s, |s|)
    ensures RedactRuns(s, |s|) == []
  {
  }

  lemma StartBoundary(s: string)
    requires Valid(s)
    ensures Boundary(s, 0)
  {
    if s != [] {
      StepIsCharLen(s);
    }
  }

  lemma EndBoundary(s: string)
    ensures Boundary(s, |s|)
  {
  }

  ghost function HighEntropyPass(s: string): (out: string)
    requires Valid(s)
    ensures Valid(out)
  {
    StartBoundary(s);
    RedactValid(s, 0);
    RedactRuns(s, 0)
  }

  lemma RunPieceValid(s: string, i: nat)
    requires Valid(s) && Boundary(s, i) && i < |s|
    ensures Valid(RunPiece(s, i))
  {
    hide Valid, Flagged, RunEnd, Boundary, Step;
    RunStep(s, i);
    SliceValid(s, i, RunNext(s, i));
    AsciiValid(ENTROPY_MARK);
  }

  lemma {:induction false} RedactValid(s: string, i: nat)
    requires Valid(s) && Boundary(s, i)
    ensures Valid(RedactRuns(s, i))
    decreases |s| - i
  {
    hide RedactRuns, RunPiece, RunNext;
    if i < |s| {
      RedactUnfold(s, i);
      RunPieceValid(s, i);
      RedactValid(s, RunNext(s, i));
      ValidConcat(RunPiece(s, i), RedactRuns(s, RunNext(s, i)));
    } else {
      RedactNothing(s);
    }
  }

  // ---------- The two scanners agree ----------

  datatype Span = Span(from: nat, to: nat)

  /** The runs the rewriter replaces, in order. */
  ghost function Replaced(s: string, i: nat): seq<Span>
    requires Valid(s) && Boundary(s, i)
    decreases |s| - i
  {
    if i == |s| then []
    else
      RunStep(s, i);
      var rest := Replaced(s, RunNext(s, i));
      if IsEntropic(s[i]) && Flagged(s[i..RunNext(s, i)]) then [Span(i, RunNext(s, i))] + rest else rest
  }

  /** `s` from `i` on, with every listed span replaced by the mark. */
  function Splice(mark: string, s: string, i: nat, spans: seq<Span>): string
    decreases |spans|
  {
    if spans == [] then (if i <= |s| then s[i..] else [])
    else
      var span := spans[0];
      (if i <= span.from <= |s| then s[i..span.from] else []) + mark + Splice(mark, s, span.to, spans[1..])
  }

  predicate Covers(spans: seq<Span>, k: nat) {
    exists n :: 0 <= n < |spans| && spans[n].from <= k < spans[n].to
  }

  /** Spans start at or after `i`, one after the other, inside the text. */
  predicate Ordered(s: string, i: nat, spans: seq<Span>)
    decreases |spans|
  {
    if spans == [] then i <= |s|
    else i <= spans[0].from <= spans[0].to <= |s| && Ordered(s, spans[0].to, spans[1..])
  }

  lemma Join(a: string, b: string, c: string, d: string)
    ensures (a + b) + c + d == a + (b + c + d)
  {
  }

  lemma SpliceSkips(mark: string, s: string, i: nat, n: nat, spans: seq<Span>)
    requires i <= n <= |s| && Ordered(s, n, spans)
    ensures Ordered(s, i, spans) && Splice(mark, s, i, spans) == s[i..n] + Splice(mark, s, n, spans)
  {
    if spans == [] {
      assert s[i..] == s[i..n] + s[n..];
    } else {
      var from, rest := spans[0].from, Splice(mark, s, spans[0].to, spans[1..]);
      hide Splice, Ordered;
      assert s[i..from] == s[i..n] + s[n..from];
      Join(s[i..n], s[n..from], mark, rest);
    }
  }

  lemma {:induction false} SpliceStarts(s: string, i: nat, n: nat, rest: seq<Span>)
    requires i < n <= |s| && Ordered(s, n, rest)
    ensures Ordered(s, i, [Span(i, n)] + rest)
    ensures Splice(ENTROPY_MARK, s, i, [Span(i, n)] + rest) == ENTROPY_MARK + Splice(ENTROPY_MARK, s, n, rest)
  {
    var spans, tail := [Span(i, n)] + rest, Splice(ENTROPY_MARK, s, n, rest);
    assert spans[1..] == rest && spans[0] == Span(i, n);
    assert Ordered(s, i, spans) && Splice(ENTROPY_MARK, s, i, spans) == s[i..i] + ENTROPY_MARK + tail;
    hide Splice, Ordered;
    assert s[i..i] == [] && [] + ENTROPY_MARK == ENTROPY_MARK;
  }

  lemma {:induction false} ReplacedUnfold(s: string, i: nat)
    requires Valid(s) && Boundary(s, i) && i < |s|
    ensures i < RunNext(s, i) <= |s| && Boundary(s, RunNext(s, i))
    ensures Replaced(s, i) == (if IsEntropic(s[i]) && Flagged(s[i..RunNext(s, i)]) then [Span(i, RunNext(s, i))] else [])
                              + Replaced(s, RunNext(s, i))
    ensures RunPiece(s, i) == if IsEntropic(s[i]) && Flagged(s[i..RunNext(s, i)]) then ENTROPY_MARK else s[i..RunNext(s, i)]
  {
    hide Valid, Flagged, Boundary, RunNext;
    RunStep(s, i);
  }

  /** The rewriter replaces exactly these spans and copies everything between them. */
  lemma {:induction false} RedactIsSplice(s: string, i: nat)
    requires Valid(s) && Boundary(s, i)
    ensures Ordered(s, i, Replaced(s, i)) && RedactRuns(s, i) == Splice(ENTROPY_MARK, s, i, Replaced(s, i))
    decreases |s| - i
  {
    hide Valid, Flagged, RunNext, RunPiece, Replaced, Ordered, Splice, RedactRuns;
    if i < |s| {
      var n := RunNext(s, i);
      ReplacedUnfold(s, i);
      RedactUnfold(s, i);
      RedactIsSplice(s, n);
      if IsEntropic(s[i]) && Flagged(s[i..n]) {
        SpliceStarts(s, i, n, Replaced(s, n));
      } else {
        SpliceSkips(ENTROPY_MARK, s, i, n, Replaced(s, n));
        assert [] + Replaced(s, n) == Replaced(s, n);
      }
    } else {
      RedactNothing(s);
      NothingReplaced(s);
    }
  }

  lemma NothingReplaced(s: string)
    requires Valid(s) && Boundary(s, |s|)
    ensures Replaced(s, |s|) == [] && Ordered(s, |s|, []) && Splice(ENTROPY_MARK, s, |s|, []) == []
  {
  }

  lemma CoversFirst(span: Span, rest: seq<Span>, k: nat)
    ensures Covers([span] + rest, k) <==> (span.from <= k < span.to) || Covers(rest, k)
  {
    var all := [span] + rest;
    assert forall n :: 0 <= n < |rest| ==> all[n + 1] == rest[n];
    if span.from <= k < span.to {
      assert all[0] == span;
    }
    if Covers(rest, k) {
      var n :| 0 <= n < |rest| && rest[n].from <= k < rest[n].to;
      assert all[n + 1].from <= k < all[n + 1].to;
    }
  }

  lemma {:induction false} OrderedStartAfter(s: string, i: nat, spans: seq<Span>, k: nat)
    requires Ordered(s, i, spans) && Covers(spans, k)
    ensures i <= k < |s|
    decreases |spans|
  {
    assert spans == [spans[0]] + spans[1..];
    CoversFirst(spans[0], spans[1..], k);
    if !(spans[0].from <= k < spans[0].to) {
      OrderedStartAfter(s, spans[0].to, spans[1..], k);
    }
  }

  /** A byte is in a replaced span exactly when it is secret. */
  lemma {:induction false} ReplacedIsSecret(s: string, i: nat, k: nat)
    requires Valid(s) && Boundary(s, i) && Fresh(s, i) && i <= k < |s|
    ensures Covers(Replaced(s, i), k) <==> Secret(s, k)
    decreases |s| - i
  {
    hide Valid, Flagged, Boundary, Secret;
    var n := RunNext(s, i);
    RunStep(s, i);
    RedactIsSplice(s, n);
    var rest := Replaced(s, n);
    if k >= n {
      ReplacedIsSecret(s, n, k);
    } else {
      if Covers(rest, k) {
        OrderedStartAfter(s, n, rest, k);
      }
      if IsEntropic(s[i]) {
        RunFrom(s, i, n);
        SecretInRun(s, i, n, k);
      } else {
        NotSecret(s, k);
      }
    }
    if IsEntropic(s[i]) && Flagged(s[i..n]) {
      CoversFirst(Span(i, n), rest, k);
    }
  }

  /**
   * On the same text, masking changes a byte exactly when the rewriter replaces the run it lies in; what the
   * rewriter copies is what masking leaves alone.
   */
  lemma {:induction false} MaskingMatchesRewriting(s: string)
    requires Valid(s)
    ensures Boundary(s, 0) && HighEntropyPass(s) == Splice("[REDACTED_HIGH_ENTROPY]", s, 0, Replaced(s, 0))
    ensures forall k :: 0 <= k < |s| ==> (Masked(s)[k] != s[k] <==> Covers(Replaced(s, 0), k))
  {
    hide Valid, Replaced, Splice, Covers;
    StartBoundary(s);
    RedactIsSplice(s, 0);
    forall k | 0 <= k < |s|
      ensures Masked(s)[k] != s[k] <==> Covers(Replaced(s, 0), k)
    {
      ReplacedIsSecret(s, 0, k);
      SecretIsEntropic(s, k);
    }
  }

  lemma SecretIsEntropic(s: string, k: nat)
    ensures Secret(s, k) ==> k < |s| && s[k] != '*'
  {
    if Secret(s, k) {
      var a: nat, e: nat :| a <= k < e && SecretRun(s, a, e);
      EntropicIsAscii(s[k]);
    }
  }

  // ---------- Both are idempotent ----------

  /** A secret run of the masked text would be one of the text itself, and that one is masked. */
  lemma MaskedHasNoSecret(s: string)
    ensures NoSecret(Masked(s))
  {
    hide Flagged;
    var t := Masked(s);
    forall a: nat, e: nat
      ensures !SecretRun(t, a, e)
    {
      if IsRun(t, a, e) {
        UnmaskedRun(s, a, e);
        assert t[a..e] == s[a..e];
        SecretInRun(s, a, e, a);
      }
    }
  }

  lemma UnmaskedRun(s: string, a: nat, e: nat)
    requires IsRun(Masked(s), a, e)
    ensures IsRun(s, a, e) && !Secret(s, a)
    ensures forall x :: a <= x < e ==> Masked(s)[x] == s[x]
  {
    hide Flagged, Secret;
    var t := Masked(s);
    forall x | a <= x < e
      ensures t[x] == s[x] && IsEntropic(s[x]) && !Secret(s, x)
    {
      EntropicIsAscii(t[x]);
    }
    if a > 0 && IsEntropic(s[a - 1]) {
      SecretSpreads(s, a - 1, a);
    }
    if e < |s| && IsEntropic(s[e]) {
      SecretSpreads(s, e, e - 1);
    }
  }

  /** Neighbouring entropy characters are secret together. */
  lemma SecretSpreads(s: string, k: nat, j: nat)
    requires k < |s| && j < |s| && (j == k + 1 || k == j + 1) && IsEntropic(s[k]) && IsEntropic(s[j])
    ensures Secret(s, k) ==> Secret(s, j)
  {
    hide Flagged;
    if Secret(s, k) {
      var a: nat, e: nat :| a <= k < e && SecretRun(s, a, e);
      assert a <= j < e;
    }
  }

  /** Masking twice masks nothing more. */
  lemma MaskingIsIdempotent(s: string)
    ensures Masked(Masked(s)) == Masked(s)
  {
    MaskedHasNoSecret(s);
    assert forall k :: 0 <= k < |s| ==> !Secret(Masked(s), k);
  }

  lemma {:induction false} CleanPieceKept(s: string, i: nat)
    requires Valid(s) && Boundary(s, i) && Fresh(s, i) && i < |s| && NoSecret(s)
    ensures i < RunNext(s, i) <= |s| && RunPiece(s, i) == s[i..RunNext(s, i)]
  {
    hide Valid, Flagged, Boundary;
    ReplacedUnfold(s, i);
    if IsEntropic(s[i]) {
      RunFrom(s, i, RunNext(s, i));
      assert !SecretRun(s, i, RunNext(s, i));
    }
  }

  lemma {:induction false} RewritingFixesClean(s: string, i: nat)
    requires Valid(s) && Boundary(s, i) && Fresh(s, i) && NoSecret(s)
    ensures RedactRuns(s, i) == s[i..]
    decreases |s| - i
  {
    hide Valid, Flagged, RunPiece, RunNext, RedactRuns, NoSecret, Fresh;
    if i < |s| {
      var n := RunNext(s, i);
      RunStep(s, i);
      RewritingFixesClean(s, n);
      RedactUnfold(s, i);
      CleanPieceKept(s, i);
      assert s[i..] == s[i..n] + s[n..];
    } else {
      RedactNothing(s);
    }
  }

  lemma RunInHead(u: string, v: string, a: nat, e: nat)
    requires IsRun(u + v, a, e) && e <= |u|
    ensures IsRun(u, a, e) && (u + v)[a..e] == u[a..e]
  {
    assert forall x :: 0 <= x < |u| ==> (u + v)[x] == u[x];
  }

  lemma RunInTail(u: string, v: string, a: nat, e: nat)
    requires IsRun(u + v, a, e) && |u| <= a
    ensures IsRun(v, a - |u|, e - |u|) && (u + v)[a..e] == v[a - |u|..e - |u|]
  {
    var t := u + v;
    assert forall x :: 0 <= x < |v| ==> v[x] == t[x + |u|];
  }

  lemma RunsStayApart(u: string, v: string, a: nat, e: nat)
    requires u == [] || v == [] || !IsEntropic(u[|u| - 1]) || !IsEntropic(v[0])
    requires IsRun(u + v, a, e)
    ensures e <= |u| || |u| <= a
  {
    var t := u + v;
    if u != [] && v != [] {
      assert t[|u| - 1] == u[|u| - 1] && t[|u|] == v[0];
    }
  }

  /** Two texts apart from each other have the runs of the one and of the other. */
  lemma ApartNoSecret(u: string, v: string)
    requires NoSecret(u) && NoSecret(v)
    requires u == [] || v == [] || !IsEntropic(u[|u| - 1]) || !IsEntropic(v[0])
    ensures NoSecret(u + v)
  {
    hide Flagged, IsRun;
    forall a: nat, e: nat
      ensures !SecretRun(u + v, a, e)
    {
      if IsRun(u + v, a, e) {
        RunsStayApart(u, v, a, e);
        if e <= |u| {
          RunInHead(u, v, a, e);
          assert !SecretRun(u, a, e);
        } else {
          RunInTail(u, v, a, e);
          assert !SecretRun(v, a - |u|, e - |u|);
        }
      }
    }
  }

  /** The mark holds one run, and it is too short to be secret. */
  lemma MarkNoSecret()
    ensures NoSecret(ENTROPY_MARK)
  {
    hide EntropyAbove, EntropyBelow, IsUuid, Whitelisted;
    var t := ENTROPY_MARK;
    assert |t| == 23 && t[0] == '[' && t[22] == ']';
    forall a: nat, e: nat
      ensures !SecretRun(t, a, e)
    {
      if IsRun(t, a, e) {
        EntropicIsAscii(t[a]);
        EntropicIsAscii(t[e - 1]);
        assert 0 < a && e <= 22;
        forall x | 0 <= x < e - a
          ensures t[a..e][x] as int < 256
        {
          EntropicIsAscii(t[a + x]);
        }
        ShortNeverAbove(t[a..e]);
      }
    }
  }

  lemma NoneEntropic(u: string)
    requires forall x :: 0 <= x < |u| ==> !IsEntropic(u[x])
    ensures NoSecret(u)
  {
    hide IsEntropic;
    forall a: nat, e: nat
      ensures !IsRun(u, a, e)
    {
      assert a < |u| ==> !IsEntropic(u[a]);
    }
  }

  lemma PieceNoSecret(s: string, i: nat)
    requires Valid(s) && Boundary(s, i) && i < |s|
    ensures NoSecret(RunPiece(s, i))
    ensures !IsEntropic(s[i]) ==> RunPiece(s, i) != [] && !IsEntropic(RunPiece(s, i)[|RunPiece(s, i)| - 1])
  {
    hide Valid, Boundary, Flagged;
    RunStep(s, i);
    var n := RunNext(s, i);
    var piece := s[i..n];
    if IsEntropic(s[i]) {
      MarkNoSecret();
      if !Flagged(piece) {
        forall a: nat, e: nat
          ensures !SecretRun(piece, a, e)
        {
          if IsRun(piece, a, e) {
            assert a > 0 ==> IsEntropic(piece[a - 1]);
            assert e < |piece| ==> IsEntropic(piece[e]);
            assert piece[a..e] == piece;
          }
        }
      }
    } else {
      assert forall x :: 0 <= x < n - i ==> !IsEntropic(piece[x]);
      NoneEntropic(piece);
      ReplacedUnfold(s, i);
    }
  }

  lemma FirstOfRest(s: string, i: nat)
    requires Valid(s) && Boundary(s, i) && i < |s| && !IsEntropic(s[i])
    ensures RedactRuns(s, i) != [] && !IsEntropic(RedactRuns(s, i)[0])
  {
    hide Valid, Flagged, Boundary;
    RedactUnfold(s, i);
    ReplacedUnfold(s, i);
    assert RunPiece(s, i)[0] == s[i];
  }

  lemma {:induction false} RewrittenHasNoSecret(s: string, i: nat)
    requires Valid(s) && Boundary(s, i)
    ensures NoSecret(RedactRuns(s, i))
    decreases |s| - i
  {
    hide Valid, Flagged, RunPiece, NoSecret, RedactRuns, RunNext;
    if i < |s| {
      var n := RunNext(s, i);
      RunStep(s, i);
      RedactUnfold(s, i);
      PieceNoSecret(s, i);
      RewrittenHasNoSecret(s, n);
      if n == |s| {
        RedactNothing(s);
      } else if IsEntropic(s[i]) {
        FirstOfRest(s, n);
      }
      ApartNoSecret(RunPiece(s, i), RedactRuns(s, n));
    } else {
      RedactNothing(s);
      EmptyNoSecret();
    }
  }

  lemma EmptyNoSecret()
    ensures NoSecret([])
  {
  }

  /** The rewriter leaves nothing secret, so running it again changes nothing. */
  lemma {:induction false} RewritingIsIdempotent(s: string)
    requires Valid(s)
    ensures NoSecret(HighEntropyPass(s))
    ensures HighEntropyPass(HighEntropyPass(s)) == HighEntropyPass(s)
    ensures HighEntropyPass(s) == s <==> NoSecret(s)
  {
    hide Valid, NoSecret, RedactRuns;
    var t := HighEntropyPass(s);
    StartBoundary(s);
    StartBoundary(t);
    RewrittenHasNoSecret(s, 0);
    RewritingFixesClean(t, 0);
    assert t[0..] == t && s[0..] == s;
    if NoSecret(s) {
      RewritingFixesClean(s, 0);
    }
  }
}
