/** The thirteen token passes together, and what no later scanner can undo. */
module PrefixedTokens {
  import opened Utf8
  import opened Scanner
  import opened Patterns
  import opened Sanitizer
  import T = Text

  datatype Pass = Pass(prefix: string, minRun: nat)

  const PASSES: seq<Pass> := [
    Pass("AKIA", 16), Pass("ASIA", 16), Pass("ghp_", 20), Pass("github_pat_", 20), Pass("gho_", 20),
    Pass("ghu_", 20), Pass("ghs_", 20), Pass("ghr_", 20), Pass("sk-", 24), Pass("xoxb-", 20),
    Pass("xoxp-", 20), Pass("xoxa-", 20), Pass("xoxs-", 20)]

  /** A prefix of token characters whose run cannot be part of a mark. */
  predicate Usable(p: Pass) {
    && p.prefix != [] && p.minRun > 0 && |p.prefix| + p.minRun >= 20
    && p.prefix[0] != 'R' && p.prefix[0] != 'E'
    && forall k :: 0 <= k < |p.prefix| ==> IsTokenChar(p.prefix[k])
  }

  /** The prefix stands at `k`, followed by at least its minimum run of token characters. */
  predicate TokenAt(s: string, k: nat, p: Pass) {
    && k + |p.prefix| + p.minRun <= |s| && Starts(s, k, p.prefix)
    && forall x :: k + |p.prefix| <= x < k + |p.prefix| + p.minRun ==> IsTokenChar(s[x])
  }

  predicate Exposed(s: string, p: Pass) {
    exists k: nat | k < |s| :: TokenAt(s, k, p)
  }

  lemma TokenIsMatch(s: string, k: nat, p: Pass)
    requires Usable(p)
    ensures TokenAt(s, k, p) <==> RunMatch(p.prefix, p.minRun, s, k).Some?
  {
    var from := k + |p.prefix|;
    if TokenAt(s, k, p) {
      RunEndCovers(s, from, Token, from + p.minRun);
    }
  }

  /** The bytes of a token, prefix and minimum run. */
  function Window(s: string, k: nat, p: Pass): string
    requires TokenAt(s, k, p)
  {
    s[k..k + |p.prefix| + p.minRun]
  }

  lemma WindowIsPlain(s: string, k: nat, p: Pass)
    requires Usable(p) && TokenAt(s, k, p)
    ensures Plain(Window(s, k, p)) && T.OccursAt(s, Window(s, k, p), k)
    ensures forall x :: 0 <= x < |Window(s, k, p)| ==> IsTokenChar(Window(s, k, p)[x])
  {
    var w := Window(s, k, p);
    forall x | 0 <= x < |w|
      ensures IsTokenChar(w[x])
    {
      assert w[x] == s[k + x];
      if x < |p.prefix| {
        assert s[k..k + |p.prefix|][x] == p.prefix[x];
      }
    }
    assert w[0] == p.prefix[0] by {
      assert s[k..k + |p.prefix|][0] == p.prefix[0];
    }
    LongTokenNotInMark(w);
  }

  lemma LongTokenNotInMark(w: string)
    requires |w| >= 20 && w[0] != 'R' && w[0] != 'E' && '[' !in w && ']' !in w
    ensures !T.Contains(MARK, w) && !T.Contains(ENTROPY_MARK, w)
  {
    assert |MARK| == 10 && |ENTROPY_MARK| == 23;
    assert ENTROPY_MARK[0] == '[' && ENTROPY_MARK[1] == 'R' && ENTROPY_MARK[2] == 'E' && ENTROPY_MARK[22] == ']';
    if T.Contains(ENTROPY_MARK, w) {
      var k :| T.OccursAt(ENTROPY_MARK, w, k);
      assert w[0] == ENTROPY_MARK[k..k + |w|][0] == ENTROPY_MARK[k];
      Avoids(ENTROPY_MARK, w, k, 0);
      Avoids(ENTROPY_MARK, w, k, 22);
    }
  }

  /** Wherever the same bytes stand, there is the same token. */
  lemma WindowMoves(s: string, k: nat, t: string, j: nat, p: Pass)
    requires TokenAt(s, k, p) && T.OccursAt(t, Window(s, k, p), j)
    ensures TokenAt(t, j, p)
  {
    var w := Window(s, k, p);
    assert forall x :: 0 <= x < |w| ==> w[x] == s[k + x];
    assert forall x :: j <= x < j + |w| ==> t[x] == t[j..j + |w|][x - j];
    assert t[j..j + |p.prefix|] == w[..|p.prefix|] == s[k..k + |p.prefix|];
  }

  /** No scanner exposes a token that was not exposed before. */
  lemma ScannerExposesNothing(m: Matcher, s: string, p: Pass)
    requires Valid(s) && Fits(m, s) && Boundary(s, 0) && Usable(p)
    requires Exposed(Rewrite(m, s, 0), p)
    ensures Exposed(s, p)
  {
    hide Valid, Fits, Rewrite, Usable, Plain;
    var out := Rewrite(m, s, 0);
    var k: nat :| k < |out| && TokenAt(out, k, p);
    WindowIsPlain(out, k, p);
    var j, at := PlainTextIsOld(m, s, 0, Window(out, k, p), k);
    WindowMoves(out, k, s, j, p);
    NonEmpty(p);
  }

  lemma NonEmpty(p: Pass)
    requires Usable(p)
    ensures |p.prefix| > 0 && p.minRun > 0
  {
  }

  /** A pass leaves no token of its own kind. */
  lemma {:induction false} PassRemovesItsOwn(s: string, p: Pass)
    requires Valid(s) && Usable(p) && AsciiText(p.prefix)
    ensures !Exposed(RunPass(s, p.prefix, p.minRun), p)
  {
    hide Valid, Rewrite, Usable, Plain, Fits;
    var m, out := RunMatcher(p.prefix, p.minRun), RunPass(s, p.prefix, p.minRun);
    RunFits(p.prefix, p.minRun, s);
    StartScan(m, s);
    if Exposed(out, p) {
      var k: nat :| k < |out| && TokenAt(out, k, p);
      WindowIsPlain(out, k, p);
      var j, at := PlainTextIsOld(m, s, 0, Window(out, k, p), k);
      WindowMoves(out, k, s, j, p);
      TokenIsMatch(s, j, p);
      NonEmpty(p);
    }
  }

  // ---------- All passes ----------

  ghost predicate AllUsable(ps: seq<Pass>) {
    forall i :: 0 <= i < |ps| ==> Usable(ps[i]) && AsciiText(ps[i].prefix)
  }

  ghost function RunPasses(s: string, ps: seq<Pass>): (out: string)
    requires Valid(s) && AllUsable(ps)
    ensures Valid(out)
    decreases |ps|
  {
    if ps == [] then s else RunPasses(RunPass(s, ps[0].prefix, ps[0].minRun), ps[1..])
  }

  ghost predicate Clean(s: string, ps: seq<Pass>) {
    forall i :: 0 <= i < |ps| ==> !Exposed(s, ps[i])
  }

  lemma PassKeepsClean(s: string, p: Pass, q: Pass)
    requires Valid(s) && Usable(p) && AsciiText(p.prefix) && Usable(q) && !Exposed(s, q)
    ensures !Exposed(RunPass(s, p.prefix, p.minRun), q)
  {
    hide Valid, Rewrite, Usable, Fits, Exposed;
    var m := RunMatcher(p.prefix, p.minRun);
    RunFits(p.prefix, p.minRun, s);
    StartScan(m, s);
    if Exposed(RunPass(s, p.prefix, p.minRun), q) {
      ScannerExposesNothing(m, s, q);
    }
  }

  lemma {:induction false} PassesKeepClean(s: string, ps: seq<Pass>, q: Pass)
    requires Valid(s) && AllUsable(ps) && Usable(q) && !Exposed(s, q)
    ensures !Exposed(RunPasses(s, ps), q)
    decreases |ps|
  {
    hide Valid, Usable, Exposed;
    if ps != [] {
      PassKeepsClean(s, ps[0], q);
      PassesKeepClean(RunPass(s, ps[0].prefix, ps[0].minRun), ps[1..], q);
    }
  }

  /** After all passes no prefix is followed by its minimum run. */
  lemma {:induction false} PassesClean(s: string, ps: seq<Pass>)
    requires Valid(s) && AllUsable(ps)
    ensures Clean(RunPasses(s, ps), ps)
    decreases |ps|
  {
    hide Valid, Usable, Exposed;
    if ps != [] {
      var first := RunPass(s, ps[0].prefix, ps[0].minRun);
      PassRemovesItsOwn(s, ps[0]);
      PassesKeepClean(first, ps[1..], ps[0]);
      PassesClean(first, ps[1..]);
      assert forall i :: 0 < i < |ps| ==> ps[i] == ps[1..][i - 1];
    }
  }

  /** A text without tokens goes through all passes unchanged. */
  lemma {:induction false} PassesFixClean(s: string, ps: seq<Pass>)
    requires Valid(s) && AllUsable(ps) && Clean(s, ps)
    ensures RunPasses(s, ps) == s
    decreases |ps|
  {
    if ps != [] {
      var m := RunMatcher(ps[0].prefix, ps[0].minRun);
      RunFits(ps[0].prefix, ps[0].minRun, s);
      StartScan(m, s);
      forall j: nat | j < |s|
        ensures m(s, j).None?
      {
        TokenIsMatch(s, j, ps[0]);
        assert !Exposed(s, ps[0]);
      }
      RewriteNothing(m, s, 0);
      PassesFixClean(s, ps[1..]);
    }
  }

  lemma ListedPassesUsable()
    ensures AllUsable(PASSES)
  {
    CloudPassesUsable();
    HubPassesUsable();
    HubUserPassesUsable();
    ChatPassesUsable();
    hide Usable;
  }

  lemma CloudPassesUsable()
    ensures Usable(Pass("AKIA", 16)) && Usable(Pass("ASIA", 16)) && Usable(Pass("sk-", 24))
  {
  }

  lemma HubPassesUsable()
    ensures Usable(Pass("ghp_", 20)) && Usable(Pass("github_pat_", 20)) && Usable(Pass("gho_", 20))
  {
  }

  lemma HubUserPassesUsable()
    ensures Usable(Pass("ghu_", 20)) && Usable(Pass("ghs_", 20)) && Usable(Pass("ghr_", 20))
  {
  }

  lemma ChatPassesUsable()
    ensures Usable(Pass("xoxb-", 20)) && Usable(Pass("xoxp-", 20))
    ensures Usable(Pass("xoxa-", 20)) && Usable(Pass("xoxs-", 20))
  {
  }

  // ---------- The program's loop over the passes ----------

  ghost function PrefixedPass(s: string): (out: string)
    requires Valid(s)
    ensures Valid(out)
  {
    ListedPassesUsable();
    RunPasses(s, PASSES)
  }

  method RedactPrefixedTokens(s: string) returns (out: string)
    requires Valid(s)
    ensures out == PrefixedPass(s) && Valid(out)
  {
    hide Valid, PASSES, RunPasses, Usable, AsciiText;
    ListedPassesUsable();
    out := s;
    assert PASSES[0..] == PASSES;
    for n := 0 to |PASSES|
      invariant Valid(out) && RunPasses(out, PASSES[n..]) == RunPasses(s, PASSES)
    {
      assert PASSES[n..][0] == PASSES[n] && PASSES[n..][1..] == PASSES[n + 1..];
      OnePass(out, PASSES[n..]);
      out := RedactRun(out, PASSES[n].prefix, PASSES[n].minRun);
    }
    NoPass(out);
    assert PASSES[|PASSES|..] == [];
  }

  lemma OnePass(s: string, ps: seq<Pass>)
    requires Valid(s) && AllUsable(ps) && ps != []
    ensures AsciiText(ps[0].prefix) && AllUsable(ps[1..])
    ensures RunPasses(s, ps) == RunPasses(RunPass(s, ps[0].prefix, ps[0].minRun), ps[1..])
  {
    hide Valid;
  }

  lemma NoPass(s: string)
    requires Valid(s)
    ensures RunPasses(s, []) == s
  {
  }

  /**
   * After the thirteen passes no listed prefix is followed by its minimum run; running them again changes nothing;
   * and a text without such a token is not touched.
   */
  lemma PrefixedPassIsComplete(s: string)
    requires Valid(s)
    ensures Clean(PrefixedPass(s), PASSES)
    ensures PrefixedPass(PrefixedPass(s)) == PrefixedPass(s)
    ensures PrefixedPass(s) == s <==> Clean(s, PASSES)
  {
    hide Valid, PASSES, Clean;
    ListedPassesUsable();
    PassesClean(s, PASSES);
    PassesFixClean(PrefixedPass(s), PASSES);
    if Clean(s, PASSES) {
      PassesFixClean(s, PASSES);
    }
  }
}
