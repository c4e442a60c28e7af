/** The whole line sanitizer: the scanners one after the other, and what holds of its output. */
module SanitizeLine {
  import opened Wrappers
  import opened Utf8
  import opened Scanner
  import opened Patterns
  import opened Sanitizer
  import opened PrefixedTokens
  import opened HighEntropy
  import opened Pem
  import T = Text

  // ---------- Bearer tokens ----------

  /** "bearer " in any letter case, followed by eight characters of a value. */
  predicate BearerAt(s: string, k: nat) {
    && k + |BEARER| + 8 <= |s| && LowerStarts(s, k, BEARER)
    && forall x :: k + |BEARER| <= x < k + |BEARER| + 8 ==> In(BearerValue, s[x])
  }

  predicate BearerExposed(s: string) {
    exists k: nat | k < |s| :: BearerAt(s, k)
  }

  lemma BearerIsMatch(s: string, k: nat)
    ensures BearerAt(s, k) <==> BearerMatch(s, k).Some?
  {
    if BearerAt(s, k) {
      RunEndCovers(s, k + |BEARER|, BearerValue, k + |BEARER| + 8);
    }
  }

  function BearerWindow(s: string, k: nat): string
    requires BearerAt(s, k)
  {
    s[k..k + |BEARER| + 8]
  }

  lemma BearerWindowIsPlain(s: string, k: nat)
    requires BearerAt(s, k)
    ensures Plain(BearerWindow(s, k)) && T.OccursAt(s, BearerWindow(s, k), k)
  {
    var w := BearerWindow(s, k);
    forall x | 0 <= x < |w|
      ensures w[x] != '[' && w[x] != ']'
    {
      assert w[x] == s[k + x];
      if x < |BEARER| {
        assert Lower(s[k + x]) == BEARER[x];
      }
    }
    assert Lower(s[k + 0]) == BEARER[0] && Lower(s[k + 6]) == BEARER[6] == ' ';
    assert w[6] == ' ';
    if T.Contains(ENTROPY_MARK, w) {
      var j :| T.OccursAt(ENTROPY_MARK, w, j);
      assert w[6] == ENTROPY_MARK[j..j + |w|][6] == ENTROPY_MARK[j + 6];
      MarkHasNoSpace();
    }
  }

  lemma MarkHasNoSpace()
    ensures forall x :: 0 <= x < |ENTROPY_MARK| ==> ENTROPY_MARK[x] != ' '
  {
  }

  lemma BearerMoves(s: string, k: nat, t: string, j: nat)
    requires BearerAt(s, k) && T.OccursAt(t, BearerWindow(s, k), j)
    ensures BearerAt(t, j)
  {
    var w := BearerWindow(s, k);
    forall y | j <= y < j + |w|
      ensures t[y] == s[y - j + k]
    {
      assert t[j..j + |w|][y - j] == w[y - j];
    }
    forall x | 0 <= x < |BEARER|
      ensures Lower(t[j + x]) == BEARER[x]
    {
      assert Lower(s[k + x]) == BEARER[x];
    }
  }

  lemma ScannerExposesNoBearer(m: Matcher, s: string)
    requires Valid(s) && Fits(m, s) && Boundary(s, 0)
    requires BearerExposed(Rewrite(m, s, 0))
    ensures BearerExposed(s)
  {
    hide Valid, Fits, Rewrite, Plain;
    var out := Rewrite(m, s, 0);
    var k: nat :| k < |out| && BearerAt(out, k);
    BearerWindowIsPlain(out, k);
    var j, at := PlainTextIsOld(m, s, 0, BearerWindow(out, k), k);
    BearerMoves(out, k, s, j);
  }

  /** The bearer pass leaves no bearer token, and running it again changes nothing. */
  lemma BearerPassIsComplete(s: string)
    requires Valid(s)
    ensures !BearerExposed(BearerPass(s))
    ensures BearerPass(BearerPass(s)) == BearerPass(s)
    ensures BearerPass(s) == s <==> !BearerExposed(s)
  {
    hide Valid, Fits, Rewrite, Plain, BearerAt;
    var out := BearerPass(s);
    BearerFits(s);
    StartScan(BearerMatcher, s);
    if BearerExposed(out) {
      var k: nat :| k < |out| && BearerAt(out, k);
      BearerWindowIsPlain(out, k);
      var w := BearerWindow(out, k);
      assert |w| == |BEARER| + 8 by {
        BearerLength(out, k);
      }
      var j, at := PlainTextIsOld(BearerMatcher, s, 0, w, k);
      BearerMoves(out, k, s, j);
      BearerIsMatch(s, j);
    }
    BearerFixesClean(out);
    if !BearerExposed(s) {
      BearerFixesClean(s);
    }
  }

  lemma BearerLength(s: string, k: nat)
    requires BearerAt(s, k)
    ensures |BearerWindow(s, k)| == |BEARER| + 8
  {
  }

  lemma BearerFixesClean(s: string)
    requires Valid(s) && !BearerExposed(s)
    ensures BearerPass(s) == s
  {
    hide Valid, BearerAt, BearerMatch;
    BearerFits(s);
    StartScan(BearerMatcher, s);
    forall j: nat | j < |s|
      ensures BearerMatcher(s, j).None?
    {
      BearerIsMatch(s, j);
    }
    RewriteNothing(BearerMatcher, s, 0);
  }

  // ---------- The high-entropy rewriter is a scanner ----------

  /** A match only where a maximal run starts; nothing of it is kept. */
  function EntropyMatch(s: string, i: nat): Option<Cut> {
    if i < |s| && IsEntropic(s[i]) && (i == 0 || !IsEntropic(s[i - 1])) && Flagged(s[i..RunEnd(s, i, Entropic)])
    then Some(Cut(i, RunEnd(s, i, Entropic), ENTROPY_MARK))
    else None
  }

  const EntropyMatcher: Matcher := (s: string, i: nat) => EntropyMatch(s, i)

  lemma EntropyFits(s: string)
    requires Valid(s)
    ensures Fits(EntropyMatcher, s)
  {
    hide Valid, Flagged, Boundary;
    forall i: nat | i < |s| && Boundary(s, i) && IsEntropic(s[i])
      ensures i < RunEnd(s, i, Entropic) && Boundary(s, RunEnd(s, i, Entropic))
    {
      RunStep(s, i);
    }
  }

  lemma {:induction false} CopiesOne(s: string, i: nat, j: nat, e: nat)
    requires Valid(s) && Fits(EntropyMatcher, s) && i <= j < e <= |s| && Boundary(s, j) && Boundary(s, e)
    requires forall x :: i <= x < e ==> IsEntropic(s[x])
    requires i < j || (i == j && !EntropyMatch(s, i).Some?)
    ensures Boundary(s, j + 1) && Rewrite(EntropyMatcher, s, j) == s[j..j + 1] + Rewrite(EntropyMatcher, s, j + 1)
  {
    hide Valid, Fits, Flagged, RunEnd, Rewrite;
    EntropicIsAscii(s[j]);
    assert EntropyMatcher(s, j).None?;
    CopySplit(EntropyMatcher, s, j);
    assert Next(EntropyMatcher, s, j) == j + 1;
  }

  /** Inside a run that is not replaced, the scanner copies byte by byte. */
  lemma {:induction false} CopiesRest(s: string, i: nat, j: nat, e: nat)
    requires Valid(s) && Fits(EntropyMatcher, s) && i <= j <= e <= |s| && Boundary(s, j) && Boundary(s, e)
    requires forall x :: i <= x < e ==> IsEntropic(s[x])
    requires i < j || (i == j && !EntropyMatch(s, i).Some?)
    ensures Rewrite(EntropyMatcher, s, j) == s[j..e] + Rewrite(EntropyMatcher, s, e)
    decreases e - j
  {
    hide Valid, Fits, Flagged, RunEnd, Rewrite, EntropyMatch, EntropyMatcher;
    if j < e {
      CopiesOne(s, i, j, e);
      CopiesRest(s, i, j + 1, e);
      assert s[j..e] == s[j..j + 1] + s[j + 1..e];
    } else {
      assert s[j..e] == [];
    }
  }

  lemma {:induction false} HighEntropyIsScanner(s: string, i: nat)
    requires Valid(s) && Fits(EntropyMatcher, s) && Boundary(s, i) && Fresh(s, i)
    ensures RedactRuns(s, i) == Rewrite(EntropyMatcher, s, i)
    decreases |s| - i
  {
    hide Valid, Fits, Flagged, RunEnd, RedactRuns, Rewrite;
    if i < |s| {
      var n := RunNext(s, i);
      RunStep(s, i);
      RedactUnfold(s, i);
      ReplacedUnfold(s, i);
      HighEntropyIsScanner(s, n);
      OneRun(s, i);
    } else {
      RedactNothing(s);
      NothingLeft(s);
    }
  }

  lemma NothingLeft(s: string)
    requires Valid(s) && Fits(EntropyMatcher, s) && Boundary(s, |s|)
    ensures Rewrite(EntropyMatcher, s, |s|) == []
  {
  }

  lemma OneRun(s: string, i: nat)
    requires Valid(s) && Fits(EntropyMatcher, s) && Boundary(s, i) && Fresh(s, i) && i < |s|
    ensures i < RunNext(s, i) <= |s| && Boundary(s, RunNext(s, i))
    ensures Rewrite(EntropyMatcher, s, i) == RunPiece(s, i) + Rewrite(EntropyMatcher, s, RunNext(s, i))
  {
    hide Valid, Fits, Flagged;
    var n := RunNext(s, i);
    RunStep(s, i);
    ReplacedUnfold(s, i);
    if IsEntropic(s[i]) && Flagged(s[i..n]) {
      var head, mark, rest := MatchSplit(EntropyMatcher, s, i);
      assert head == [] && mark == ENTROPY_MARK;
    } else if IsEntropic(s[i]) {
      CopiesRest(s, i, i, n);
    } else {
      CopySplit(EntropyMatcher, s, i);
    }
  }

  // ---------- The composition ----------

  ghost function Sanitized(line: string): (out: string)
    requires Valid(line)
    ensures Valid(out)
  {
    PemValid(line);
    HighEntropyPass(EnvPass(BearerPass(KeyValuePass(PrefixedPass(RedactPem(line))))))
  }

  method Sanitize(line: string) returns (out: string)
    requires Valid(line)
    ensures out == Sanitized(line) && Valid(out)
  {
    hide Valid;
    PemValid(line);
    out := RedactPem(line);
    out := RedactPrefixedTokens(out);
    out := RedactKeyValues(out);
    out := RedactBearerTokens(out);
    out := RedactEnvAssignments(out);
    out := RedactHighEntropyRuns(out);
  }

  /** The scanners after the prefix passes expose no listed token again. */
  lemma {:induction false} LaterScannersExposeNothing(s: string, p: Pass)
    requires Valid(s) && Usable(p) && !Exposed(s, p)
    ensures !Exposed(KeyValuePass(s), p) && !Exposed(BearerPass(s), p)
    ensures !Exposed(EnvPass(s), p) && !Exposed(HighEntropyPass(s), p)
  {
    hide Valid, Fits, Rewrite, Usable, Exposed, RedactRuns;
    KeyValueFits(s);
    BearerFits(s);
    EnvFits(s);
    EntropyFits(s);
    StartBoundary(s);
    HighEntropyIsScanner(s, 0);
    if Exposed(KeyValuePass(s), p) {
      ScannerExposesNothing(KeyValueMatcher, s, p);
    }
    if Exposed(BearerPass(s), p) {
      ScannerExposesNothing(BearerMatcher, s, p);
    }
    if Exposed(EnvPass(s), p) {
      ScannerExposesNothing(EnvMatcher, s, p);
    }
    if Exposed(HighEntropyPass(s), p) {
      ScannerExposesNothing(EntropyMatcher, s, p);
    }
  }

  lemma {:induction false} LaterScannersExposeNoBearer(s: string)
    requires Valid(s) && !BearerExposed(s)
    ensures !BearerExposed(EnvPass(s)) && !BearerExposed(HighEntropyPass(s))
  {
    hide Valid, Fits, Rewrite, BearerExposed, RedactRuns;
    EnvFits(s);
    EntropyFits(s);
    StartBoundary(s);
    HighEntropyIsScanner(s, 0);
    if BearerExposed(EnvPass(s)) {
      ScannerExposesNoBearer(EnvMatcher, s);
    }
    if BearerExposed(HighEntropyPass(s)) {
      ScannerExposesNoBearer(EntropyMatcher, s);
    }
  }

  /**
   * A sanitized line is valid UTF-8 and holds none of the thirteen token shapes, no bearer token and no secret
   * run: what one scanner removes, no later scanner brings back.
   */
  lemma SanitizedIsClean(line: string)
    requires Valid(line)
    ensures var out := Sanitized(line); Valid(out) && Clean(out, PASSES) && !BearerExposed(out) && NoSecret(out)
  {
    hide Valid, Usable, Exposed, BearerExposed, NoSecret, PASSES;
    PemValid(line);
    var a := PrefixedPass(RedactPem(line));
    var b := KeyValuePass(a);
    var c := BearerPass(b);
    var d := EnvPass(c);
    PrefixedPassIsComplete(RedactPem(line));
    ListedPassesUsable();
    forall i | 0 <= i < |PASSES|
      ensures !Exposed(HighEntropyPass(d), PASSES[i])
    {
      assert Usable(PASSES[i]);
      LaterScannersExposeNothing(a, PASSES[i]);
      LaterScannersExposeNothing(b, PASSES[i]);
      LaterScannersExposeNothing(c, PASSES[i]);
      LaterScannersExposeNothing(d, PASSES[i]);
    }
    BearerPassIsComplete(b);
    LaterScannersExposeNoBearer(c);
    LaterScannersExposeNoBearer(d);
    RewritingIsIdempotent(d);
  }
}
