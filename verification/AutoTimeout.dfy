/** The automatic session timeout: twice the 95th percentile of past durations, with a floor. */
module AutoTimeout {
  import opened Wrappers
  import opened Sorting

  const MIN_AUTO_TIMEOUT: nat := 300

  predicate NatLe(a: nat, b: nat) {
    a <= b
  }

  lemma NatOrder()
    ensures TotalOrder(NatLe) && Antisymmetric(NatLe)
  {
  }

  /** `((n - 1) * 0.95).round()`, rounding halves up, in exact arithmetic. */
  function PercentileIndex(n: nat): (i: nat)
    requires n > 0
    ensures i < n && 20 * i <= 19 * (n - 1) + 10 < 20 * (i + 1)
  {
    (19 * (n - 1) + 10) / 20
  }

  /** `saturating_mul(2)`. */
  function Doubled(d: nat): nat {
    if 2 * d > MAX_U64 then MAX_U64 else 2 * d
  }

  function Max(a: nat, b: nat): nat {
    if a < b then b else a
  }

  function ComputeAutoTimeout(samples: seq<nat>): Option<nat> {
    if samples == [] then None
    else Some(Max(Doubled(Sort(NatLe, samples)[PercentileIndex(|samples|)]), MIN_AUTO_TIMEOUT))
  }

  // ---------- Order statistics by counting ----------

  /** How many samples are at most `v`. */
  function AtMost(s: seq<nat>, v: nat): (n: nat)
    ensures n <= |s|
  {
    if s == [] then 0 else (if s[0] <= v then 1 else 0) + AtMost(s[1..], v)
  }

  lemma {:induction false} AtMostInsert(x: nat, s: seq<nat>, v: nat)
    ensures AtMost(Insert(NatLe, x, s), v) == AtMost([x] + s, v)
  {
    assert ([x] + s)[1..] == s;
    if s != [] && !NatLe(x, s[0]) {
      AtMostInsert(x, s[1..], v);
      assert ([x] + s[1..])[1..] == s[1..];
    }
  }

  lemma {:induction false} AtMostSort(s: seq<nat>, v: nat)
    ensures AtMost(Sort(NatLe, s), v) == AtMost(s, v)
  {
    if s != [] {
      AtMostSort(s[1..], v);
      AtMostInsert(s[0], Sort(NatLe, s[1..]), v);
      assert ([s[0]] + Sort(NatLe, s[1..]))[1..] == Sort(NatLe, s[1..]);
    }
  }

  lemma {:induction false} AtMostNone(s: seq<nat>, v: nat)
    requires forall i :: 0 <= i < |s| ==> v < s[i]
    ensures AtMost(s, v) == 0
  {
    if s != [] {
      AtMostNone(s[1..], v);
    }
  }

  /** In a sorted list the element at `k` is at most `v` exactly when more than `k` elements are. */
  lemma {:induction false} RankInSorted(s: seq<nat>, k: nat, v: nat)
    requires Sorted(NatLe, s) && k < |s|
    ensures s[k] <= v <==> AtMost(s, v) > k
  {
    if s[0] > v {
      assert forall i :: 0 < i < |s| ==> NatLe(s[0], s[i]);
      AtMostNone(s, v);
    } else if k > 0 {
      assert forall i, j :: 0 <= i < j < |s| - 1 ==> NatLe(s[1..][i], s[1..][j]) by {
        assert forall i :: 0 <= i < |s| - 1 ==> s[1..][i] == s[i + 1];
      }
      RankInSorted(s[1..], k - 1, v);
    }
  }

  /** The k-th smallest sample is at most `v` exactly when more than `k` samples are. */
  lemma Rank(s: seq<nat>, k: nat, v: nat)
    requires k < |s|
    ensures Sort(NatLe, s)[k] <= v <==> AtMost(s, v) > k
  {
    NatOrder();
    SortSorts(NatLe, s);
    RankInSorted(Sort(NatLe, s), k, v);
    AtMostSort(s, v);
  }

  // ---------- What the timeout promises ----------

  /** The timeout does not depend on the order of the samples. */
  lemma TimeoutIgnoresOrder(a: seq<nat>, b: seq<nat>)
    requires multiset(a) == multiset(b)
    ensures ComputeAutoTimeout(a) == ComputeAutoTimeout(b)
  {
    NatOrder();
    assert |multiset(a)| == |a| && |multiset(b)| == |b|;
    SortIgnoresOrder(NatLe, a, b);
  }

  lemma {:induction false} AtMostMonotone(a: seq<nat>, b: seq<nat>, v: nat)
    requires |a| == |b| && forall i :: 0 <= i < |a| ==> a[i] <= b[i]
    ensures AtMost(a, v) >= AtMost(b, v)
  {
    if a != [] {
      AtMostMonotone(a[1..], b[1..], v);
    }
  }

  /** It never drops when samples grow. */
  lemma TimeoutMonotone(a: seq<nat>, b: seq<nat>)
    requires a != [] && |a| == |b| && forall i :: 0 <= i < |a| ==> a[i] <= b[i]
    ensures MIN_AUTO_TIMEOUT <= ComputeAutoTimeout(a).value <= ComputeAutoTimeout(b).value
  {
    var k := PercentileIndex(|a|);
    var v := Sort(NatLe, b)[k];
    Rank(b, k, v);
    AtMostMonotone(a, b, v);
    Rank(a, k, v);
  }

  /** How many samples fit twice into the timeout, or would if the doubling did not saturate. */
  function Covered(s: seq<nat>, timeout: nat): nat {
    if s == [] then 0
    else (if 2 * s[0] <= timeout || timeout >= 0xFFFF_FFFF_FFFF_FFFF then 1 else 0) + Covered(s[1..], timeout)
  }

  lemma {:induction false} CoveredAtMost(s: seq<nat>, v: nat, timeout: nat)
    requires Doubled(v) <= timeout
    ensures Covered(s, timeout) >= AtMost(s, v)
  {
    if s != [] {
      CoveredAtMost(s[1..], v, timeout);
    }
  }

  /** At least (19n - 9)/20 of n samples fit twice into the timeout. */
  lemma {:induction false} TimeoutCovers(s: seq<nat>)
    requires s != []
    ensures 20 * Covered(s, ComputeAutoTimeout(s).value) >= 19 * |s| - 9
  {
    var k := PercentileIndex(|s|);
    var v := Sort(NatLe, s)[k];
    Rank(s, k, v);
    CoveredAtMost(s, v, ComputeAutoTimeout(s).value);
  }

  /** How many samples reach the timeout when doubled. */
  function Reaching(s: seq<nat>, timeout: nat): nat {
    if s == [] then 0 else (if 2 * s[0] >= timeout then 1 else 0) + Reaching(s[1..], timeout)
  }

  lemma {:induction false} ReachingAbove(s: seq<nat>, v: nat, timeout: nat)
    requires 2 * (v + 1) >= timeout
    ensures Reaching(s, timeout) + AtMost(s, v) >= |s|
  {
    if s != [] {
      ReachingAbove(s[1..], v, timeout);
    }
  }

  /** How many samples are below `v`. */
  function Below(s: seq<nat>, v: nat): nat {
    if s == [] then 0 else (if s[0] < v then 1 else 0) + Below(s[1..], v)
  }

  lemma {:induction false} BelowIsAtMost(s: seq<nat>, v: nat)
    ensures Below(s, v) == if v == 0 then 0 else AtMost(s, v - 1)
  {
    if s != [] {
      BelowIsAtMost(s[1..], v);
    }
  }

  lemma RankIsBetween(s: seq<nat>, i: nat)
    requires i < |s|
    ensures var q := Sort(NatLe, s)[i]; q in s && Below(s, q) <= i < AtMost(s, q)
  {
    hide AtMost, Below, Sort;
    var q := Sort(NatLe, s)[i];
    Rank(s, i, q);
    BelowIsAtMost(s, q);
    if q > 0 {
      Rank(s, i, q - 1);
    }
    SortKeeps(NatLe, s);
    assert q in multiset(Sort(NatLe, s));
  }

  /**
   * The timeout, exactly: twice the sample of rank i, up to the largest `u64` and from 300 seconds on, where i is
   * 0.95 (n - 1) rounded to the nearest integer, halves up.
   */
  lemma TimeoutExactly(s: seq<nat>) returns (i: nat, q: nat)
    requires s != []
    ensures 20 * i <= 19 * (|s| - 1) + 10 < 20 * (i + 1)
    ensures q in s && Below(s, q) <= i < AtMost(s, q)
    ensures ComputeAutoTimeout(s).Some?
    ensures var doubled := if 2 * q > 0xFFFF_FFFF_FFFF_FFFF then 0xFFFF_FFFF_FFFF_FFFF else 2 * q;
            ComputeAutoTimeout(s).value == if doubled < 300 then 300 else doubled
  {
    hide AtMost, Below, PercentileIndex, Sort;
    i := PercentileIndex(|s|);
    q := Sort(NatLe, s)[i];
    RankIsBetween(s, i);
  }

  /** A timeout above the floor is reached by at least (n + 9)/20 of n samples, doubled. */
  lemma TimeoutIsReached(s: seq<nat>)
    requires s != [] && ComputeAutoTimeout(s).value > 300
    ensures 20 * Reaching(s, ComputeAutoTimeout(s).value) >= |s| + 9
  {
    hide AtMost, Below, Reaching, ComputeAutoTimeout;
    var i, q := TimeoutExactly(s);
    BelowIsAtMost(s, q);
    ReachingAbove(s, q - 1, ComputeAutoTimeout(s).value);
  }
}
