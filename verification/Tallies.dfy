/** Counters kept in maps, and the sum of a map's values. */
module Tallies {
  /** The sum over the entries of a map. */
  ghost function MapSum<K(!new)>(m: map<K, nat>): nat
    decreases |m|
  {
    if m == map[] then 0
    else
      var k :| k in m;
      m[k] + MapSum(m - {k})
  }

  /** Any entry can be summed first. */
  lemma {:induction false} MapSumPick<K(!new)>(m: map<K, nat>, k: K)
    requires k in m
    ensures MapSum(m) == m[k] + MapSum(m - {k})
    decreases |m|
  {
    var p :| p in m && MapSum(m) == m[p] + MapSum(m - {p});
    if p != k {
      MapSumPick(m - {p}, k);
      MapSumPick(m - {k}, p);
      assert m - {p} - {k} == m - {k} - {p};
    }
  }

  /** `*map.entry(k).or_insert(0) += 1`. */
  function Bump<K>(m: map<K, nat>, k: K): map<K, nat> {
    m[k := if k in m then m[k] + 1 else 1]
  }

  /** A counter; absent keys count nothing. */
  function Lookup<K>(m: map<K, nat>, k: K): nat {
    if k in m then m[k] else 0
  }

  lemma BumpLookup<K(!new)>(m: map<K, nat>, k: K)
    ensures forall x :: Lookup(Bump(m, k), x) == Lookup(m, x) + if x == k then 1 else 0
    ensures forall x :: x in Bump(m, k) <==> x in m || x == k
    ensures (forall x :: x in m ==> m[x] > 0) ==> forall x :: x in Bump(m, k) ==> Bump(m, k)[x] > 0
  {
  }

  lemma BumpAddsOne<K(!new)>(m: map<K, nat>, k: K)
    ensures MapSum(Bump(m, k)) == MapSum(m) + 1
  {
    MapSumPick(Bump(m, k), k);
    if k in m {
      MapSumPick(m, k);
      assert Bump(m, k) - {k} == m - {k};
    } else {
      assert Bump(m, k) - {k} == m;
    }
  }

  /** The values of a map added up, in any order. */
  method SumValues<K(!new, ==)>(m: map<K, nat>) returns (sum: nat)
    ensures sum == MapSum(m)
  {
    var rest := m;
    sum := 0;
    while rest != map[]
      invariant sum + MapSum(rest) == MapSum(m)
      decreases |rest|
    {
      var k :| k in rest;
      MapSumPick(rest, k);
      sum := sum + rest[k];
      rest := rest - {k};
    }
  }
}
