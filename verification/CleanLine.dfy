/** What the sanitizer leaves of a line, with every shape spelled out in bytes. */
module CleanLine {
  import opened Utf8
  import opened Patterns
  import opened Sanitizer
  import opened PrefixedTokens
  import opened SanitizeLine
  import opened HighEntropy
  import opened Entropy
  import opened SecretShapes
  import opened SanitizeTwice
  import EntropyDecides
  import KV = KeyValueTwice
  import Env = EnvTwice

  // ---------- Prefixed tokens ----------

  /** The prefix at `k`, and n letters, digits, `_` or `-` behind it. */
  predicate TokenAfter(s: string, k: nat, prefix: string, n: nat) {
    && k + |prefix| + n <= |s| && s[k..k + |prefix|] == prefix
    && forall x :: k + |prefix| <= x < k + |prefix| + n ==> Word(s[x])
  }

  predicate Prefixed(s: string, k: nat) {
    || TokenAfter(s, k, "AKIA", 16) || TokenAfter(s, k, "ASIA", 16)
    || TokenAfter(s, k, "ghp_", 20) || TokenAfter(s, k, "github_pat_", 20) || TokenAfter(s, k, "gho_", 20)
    || TokenAfter(s, k, "ghu_", 20) || TokenAfter(s, k, "ghs_", 20) || TokenAfter(s, k, "ghr_", 20)
    || TokenAfter(s, k, "sk-", 24)
    || TokenAfter(s, k, "xoxb-", 20) || TokenAfter(s, k, "xoxp-", 20)
    || TokenAfter(s, k, "xoxa-", 20) || TokenAfter(s, k, "xoxs-", 20)
  }

  lemma TokenIsAfter(s: string, k: nat, p: Pass)
    ensures TokenAt(s, k, p) <==> TokenAfter(s, k, p.prefix, p.minRun)
  {
  }

  lemma ThirteenPasses()
    ensures |PASSES| == 13
    ensures PASSES[0] == Pass("AKIA", 16) && PASSES[1] == Pass("ASIA", 16) && PASSES[2] == Pass("ghp_", 20)
    ensures PASSES[3] == Pass("github_pat_", 20) && PASSES[4] == Pass("gho_", 20) && PASSES[5] == Pass("ghu_", 20)
    ensures PASSES[6] == Pass("ghs_", 20) && PASSES[7] == Pass("ghr_", 20) && PASSES[8] == Pass("sk-", 24)
    ensures PASSES[9] == Pass("xoxb-", 20) && PASSES[10] == Pass("xoxp-", 20) && PASSES[11] == Pass("xoxa-", 20)
    ensures PASSES[12] == Pass("xoxs-", 20)
  {
  }

  lemma PrefixedIsToken(s: string, k: nat)
    ensures Prefixed(s, k) <==> exists n: nat :: n < 13 && n < |PASSES| && TokenAt(s, k, PASSES[n])
  {
    hide TokenAfter, TokenAt, PASSES;
    ThirteenPasses();
    forall n: nat | n < 13
      ensures TokenAt(s, k, PASSES[n]) <==> TokenAfter(s, k, PASSES[n].prefix, PASSES[n].minRun)
    {
      TokenIsAfter(s, k, PASSES[n]);
    }
  }

  ghost predicate NonePrefixed(s: string) {
    forall k: nat :: !Prefixed(s, k)
  }

  lemma TokenExposes(s: string, k: nat, p: Pass)
    requires Usable(p)
    ensures TokenAt(s, k, p) ==> Exposed(s, p)
  {
    hide IsTokenChar;
  }

  lemma ExposedAt(s: string, p: Pass) returns (k: nat)
    requires Exposed(s, p)
    ensures TokenAt(s, k, p)
  {
    k :| TokenAt(s, k, p);
  }

  lemma CleanMeansNone(s: string)
    ensures Clean(s, PASSES) <==> NonePrefixed(s)
  {
    hide Prefixed, TokenAt, PASSES, Usable, Exposed;
    ThirteenPasses();
    ListedPassesUsable();
    forall k: nat
      ensures Prefixed(s, k) ==> exists n: nat :: n < 13 && Exposed(s, PASSES[n])
    {
      PrefixedIsToken(s, k);
      forall n: nat | n < 13
        ensures TokenAt(s, k, PASSES[n]) ==> Exposed(s, PASSES[n])
      {
        TokenExposes(s, k, PASSES[n]);
      }
    }
    forall n: nat | n < 13
      ensures Exposed(s, PASSES[n]) ==> exists k: nat :: Prefixed(s, k)
    {
      if Exposed(s, PASSES[n]) {
        var k := ExposedAt(s, PASSES[n]);
        PrefixedIsToken(s, k);
      }
    }
  }

  // ---------- Bearer tokens ----------

  ghost predicate NoneBearer(s: string) {
    forall k: nat :: !BearerToken(s, k)
  }

  lemma BearerMeansToken(s: string)
    ensures !BearerExposed(s) <==> NoneBearer(s)
  {
    hide BearerAt, BearerToken;
    forall k: nat
      ensures k <= |s| ==> (BearerToken(s, k) <==> BearerAt(s, k))
      ensures BearerToken(s, k) ==> k < |s|
    {
      if k <= |s| {
        HeaderIsBearer(s, k);
        BearerIsMatch(s, k);
      }
      TokenHasRoom(s, k);
    }
  }

  lemma TokenHasRoom(s: string, k: nat)
    ensures BearerToken(s, k) ==> k < |s|
  {
  }

  // ---------- High-entropy runs ----------

  predicate RunByte(c: char) {
    Word(c) || c == '+' || c == '/' || c == '='
  }

  /** A longest run of letters, digits and `_-+/=` above 4.5 bits that is no lower-case word below 4.6. */
  predicate DenseRun(s: string, a: nat, e: nat) {
    && a < e <= |s| && (forall x :: a <= x < e ==> RunByte(s[x]))
    && (a == 0 || !RunByte(s[a - 1])) && (e == |s| || !RunByte(s[e]))
    && EntropyAbove(s[a..e], 9, 2)
    && !((forall x :: a <= x < e ==> 'a' <= s[x] <= 'z') && EntropyBelow(s[a..e], 23, 5))
  }

  ghost predicate NoneDense(s: string) {
    forall a, e :: !DenseRun(s, a, e)
  }

  lemma RunBytes(c: char)
    ensures IsEntropic(c) <==> RunByte(c)
    ensures RunByte(c) ==> c as int < 256
  {
  }

  lemma DenseIsSecret(s: string, a: nat, e: nat)
    ensures SecretRun(s, a, e) <==> DenseRun(s, a, e)
  {
    hide Flagged, EntropyAbove, EntropyBelow, RunByte, IsEntropic;
    forall c
      ensures IsEntropic(c) <==> RunByte(c)
      ensures RunByte(c) ==> c as int < 256
    {
      RunBytes(c);
    }
    if IsRun(s, a, e) {
      var run := s[a..e];
      assert forall x :: 0 <= x < e - a ==> run[x] == s[a + x];
      EntropyDecides.FlaggedExactly(run);
      assert (forall x :: a <= x < e ==> 'a' <= s[x] <= 'z') <==> forall i :: 0 <= i < |run| ==> 'a' <= run[i] <= 'z';
    }
  }

  lemma SecretMeansDense(s: string)
    ensures NoSecret(s) <==> NoneDense(s)
  {
    hide SecretRun, DenseRun;
    forall a: nat, e: nat
      ensures SecretRun(s, a, e) <==> DenseRun(s, a, e)
    {
      DenseIsSecret(s, a, e);
    }
  }

  // ---------- The whole line ----------

  /**
   * A sanitized line has no listed prefix with its token, no bearer token and no dense run, whatever the line and
   * whichever stage would have brought them about.
   */
  lemma SanitizedShowsNone(line: string)
    requires Valid(line)
    ensures NonePrefixed(Sanitized(line)) && NoneBearer(Sanitized(line)) && NoneDense(Sanitized(line))
  {
    hide Valid, Sanitized, Clean, NonePrefixed, NoneBearer, BearerExposed, NoSecret, NoneDense, PASSES;
    var out := Sanitized(line);
    SanitizedIsClean(line);
    CleanMeansNone(out);
    BearerMeansToken(out);
    SecretMeansDense(out);
  }

  /** A line is given back as it is exactly when it has nothing but marks to hide, of whichever shape. */
  lemma LineLeftAlone(line: string)
    requires Valid(line)
    ensures Sanitized(line) == line <==>
            && PemMarked(line) && NonePrefixed(line) && NoneBearer(line) && NoneDense(line)
            && (forall i, e, k, v :: KeyValue(line, i, e, k, v) ==> OnlyMark(line, k))
            && (forall i, e, k, v :: Assignment(line, i, e, k, v) ==> OnlyMarkContent(line, k))
  {
    hide Valid, Sanitized, PemMarked, Clean, NonePrefixed, NoneBearer, BearerExposed, NoSecret, NoneDense, PASSES,
         KeyValue, OnlyMark, Assignment, OnlyMarkContent, KeyValuePass, EnvPass, KV.AllMarked, Env.AllMarked;
    SanitizedFixedExactly(line);
    CleanMeansNone(line);
    BearerMeansToken(line);
    SecretMeansDense(line);
    KV.FixedExactly(line);
    KeyValuesLeftAlone(line);
    Env.FixedExactly(line);
    AssignmentsLeftAlone(line);
  }
}
