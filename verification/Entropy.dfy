/** The entropy of a run of bytes, compared with a rational bound in exact integers. */
module Entropy {
  import opened Means

  /** The number of times the byte value `v` occurs. */
  function Count(run: string, v: nat): (n: nat)
    ensures n <= |run|
  {
    if run == [] then 0
    else Count(run[..|run| - 1], v) + if run[|run| - 1] as nat == v then 1 else 0
  }

  /** Counts of the byte values below `k`: their sum, how many are not zero, and the product of c^c. */
  function Total(run: string, k: nat): nat {
    if k == 0 then 0 else Total(run, k - 1) + Count(run, k - 1)
  }

  function Distinct(run: string, k: nat): nat {
    if k == 0 then 0 else Distinct(run, k - 1) + if Count(run, k - 1) > 0 then 1 else 0
  }

  function Product(run: string, k: nat): (r: nat)
    ensures r > 0
  {
    if k == 0 then 1
    else
      PowSelf(Count(run, k - 1));
      Times(Product(run, k - 1), Pow(Count(run, k - 1), Count(run, k - 1)));
      Product(run, k - 1) * Pow(Count(run, k - 1), Count(run, k - 1))
  }

  lemma PowSelf(c: nat)
    ensures Pow(c, c) > 0
  {
  }

  lemma Times(a: nat, b: nat)
    requires a > 0 && b > 0
    ensures a * b > 0
  {
  }

  predicate IsBytes(run: string) {
    forall i :: 0 <= i < |run| ==> run[i] as int < 256
  }

  /**
   * Entropy above num/den bits: with H = log2 n - (1/n) * sum of c * log2 c over the counts c of a run of n bytes,
   * H > num/den exactly when n^(den*n) > 2^(num*n) * (product of c^c)^den.
   */
  predicate EntropyAbove(run: string, num: nat, den: nat) {
    Pow(|run|, den * |run|) > Pow(2, num * |run|) * Pow(Product(run, 256), den)
  }

  predicate EntropyBelow(run: string, num: nat, den: nat) {
    Pow(|run|, den * |run|) < Pow(2, num * |run|) * Pow(Product(run, 256), den)
  }

  // ---------- The counts as the program takes them ----------

  lemma {:induction false} TotalStep(run: string, c: char, k: nat)
    ensures Total(run + [c], k) == Total(run, k) + if c as nat < k then 1 else 0
  {
    if k > 0 {
      TotalStep(run, c, k - 1);
      assert (run + [c])[..|run|] == run;
    }
  }

  /** The counts of all byte values add up to the length. */
  lemma {:induction false} TotalIsLength(run: string)
    requires IsBytes(run)
    ensures Total(run, 256) == |run|
  {
    if run == [] {
      TotalEmpty(256);
    } else {
      var init := run[..|run| - 1];
      TotalIsLength(init);
      TotalStep(init, run[|run| - 1], 256);
      assert run == init + [run[|run| - 1]];
    }
  }

  lemma {:induction false} TotalEmpty(k: nat)
    ensures Total([], k) == 0
  {
    if k > 0 {
      TotalEmpty(k - 1);
    }
  }

  /** `shannon_entropy` against a bound: fill the counts, then combine them. */
  method EntropyExceeds(run: string, num: nat, den: nat) returns (above: bool, below: bool)
    requires IsBytes(run)
    ensures above == EntropyAbove(run, num, den) && below == EntropyBelow(run, num, den)
  {
    hide Pow;
    var counts := new nat[256](_ => 0);
    for i := 0 to |run|
      invariant forall v :: 0 <= v < 256 ==> counts[v] == Count(run[..i], v)
    {
      assert run[..i + 1][..i] == run[..i];
      counts[run[i] as int] := counts[run[i] as int] + 1;
    }
    assert run[..|run|] == run;
    var product := 1;
    for v := 0 to 256
      invariant product == Product(run, v)
      invariant forall u :: 0 <= u < 256 ==> counts[u] == Count(run, u)
    {
      product := product * Pow(counts[v], counts[v]);
    }
    var left, right := Pow(|run|, den * |run|), Pow(2, num * |run|) * Pow(product, den);
    above, below := left > right, left < right;
  }

  // ---------- Entropy is at most the logarithm of the number of distinct bytes ----------

  lemma LogSumStep(s: nat, d: nat, p: nat, c: nat)
    requires s > 0 && d > 0 && c > 0 && Pow(s, s) <= Pow(d, s) * p
    ensures Pow(s + c, s + c) <= Pow(d + 1, s + c) * (p * Pow(c, c))
  {
    hide Pow;
    LogSum(s, d, c);
    var lhs, top, cc, ds := Pow(s + c, s + c), Pow(d + 1, s + c), Pow(c, c), Pow(d, s);
    assert ds > 0;
    MulMonotone(Pow(s, s), ds * p, cc, cc);
    MulMonotone(top, top, Pow(s, s) * cc, (ds * p) * cc);
    calc {
      top * ((ds * p) * cc);
      { Assoc(ds, p, cc); }
      top * (ds * (p * cc));
      { Assoc(top, ds, p * cc); Assoc(ds, top, p * cc); }
      ds * (top * (p * cc));
    }
    Cancel(ds, lhs, top * (p * cc));
  }

  /** n^n is at most d^n times the product of c^c, for d distinct values. */
  lemma {:induction false} DistinctBound(run: string, k: nat)
    ensures Pow(Total(run, k), Total(run, k)) <= Pow(Distinct(run, k), Total(run, k)) * Product(run, k)
    ensures Distinct(run, k) <= Total(run, k)
    ensures Total(run, k) > 0 ==> Distinct(run, k) > 0
  {
    if k > 0 {
      DistinctBound(run, k - 1);
      var s, d, p, c := Total(run, k - 1), Distinct(run, k - 1), Product(run, k - 1), Count(run, k - 1);
      if c == 0 {
        assert Pow(0, 0) == 1;
      } else if s == 0 {
        FirstValue(run, k);
      } else {
        LogSumStep(s, d, p, c);
      }
    }
  }

  lemma FirstValue(run: string, k: nat)
    requires k > 0 && Total(run, k - 1) == 0 && Count(run, k - 1) > 0
    ensures Distinct(run, k) == 1
    ensures Pow(Total(run, k), Total(run, k)) <= Pow(Distinct(run, k), Total(run, k)) * Product(run, k)
  {
    NothingBelow(run, k - 1);
    PowOne(Count(run, k - 1));
  }

  lemma {:induction false} NothingBelow(run: string, k: nat)
    requires Total(run, k) == 0
    ensures Distinct(run, k) == 0 && Product(run, k) == 1
  {
    if k > 0 {
      NothingBelow(run, k - 1);
    }
  }

  lemma {:induction false} PowTwice(b: nat, e: nat)
    ensures Pow(b, 2 * e) == Pow(b, e) * Pow(b, e)
  {
    PowAdd(b, e, e);
  }

  /** At most 22 distinct byte values never reach 4.5 bits, however long the run. */
  lemma FewDistinctNeverAbove(run: string)
    requires IsBytes(run) && Distinct(run, 256) <= 22
    ensures !EntropyAbove(run, 9, 2)
  {
    hide Pow, Product, Distinct, Total;
    var n, d, p := |run|, Distinct(run, 256), Product(run, 256);
    TotalIsLength(run);
    DistinctBound(run, 256);
    PowMonotone(d, 22, n);
    MulMonotone(Pow(d, n), Pow(22, n), p, p);
    var x, y := Pow(n, n), Pow(22, n) * p;
    MulMonotone(x, y, x, y);
    PowTwice(n, n);
    Shuffle(Pow(22, n), p, Pow(22, n), p);
    SquareBound(n);
    MulMonotone(Pow(22, n) * Pow(22, n), Pow(2, 9 * n), p * p, p * p);
    PowTwo(p);
    assert y * y == (Pow(22, n) * Pow(22, n)) * (p * p) by {
      Shuffle(Pow(22, n), Pow(22, n), p, p);
    }
  }

  lemma {:induction false} PowTwo(p: nat)
    ensures Pow(p, 2) == p * p
  {
    assert Pow(p, 2) == p * Pow(p, 1);
    assert Pow(p, 1) == p * Pow(p, 0);
  }

  /** 22 squared is below two to the ninth. */
  lemma SquareBound(n: nat)
    ensures Pow(22, n) * Pow(22, n) <= Pow(2, 9 * n)
  {
    PowMul(22, 22, n);
    assert Pow(2, 9) == 512;
    PowMonotone(484, 512, n);
    PowPow(2, 9, n);
  }

  // ---------- Consequences ----------

  predicate IsHexDigit(c: char) {
    '0' <= c <= '9' || 'a' <= c <= 'f' || 'A' <= c <= 'F'
  }

  function Clamp(x: int, high: nat): nat {
    if x < 0 then 0 else if x > high then high else x
  }

  /** The number of hex digits, of either case, with a code below `k`. */
  function HexBelow(k: nat): nat {
    Clamp(k - 48, 10) + Clamp(k - 65, 6) + Clamp(k - 97, 6)
  }

  lemma {:induction false} CountedOccurs(run: string, v: nat)
    requires Count(run, v) > 0
    ensures exists i :: 0 <= i < |run| && run[i] as nat == v
  {
    if run[|run| - 1] as nat != v {
      CountedOccurs(run[..|run| - 1], v);
      var i :| 0 <= i < |run| - 1 && run[..|run| - 1][i] as nat == v;
      assert run[i] as nat == v;
    }
  }

  lemma {:induction false} HexDistinct(run: string, k: nat)
    requires forall i :: 0 <= i < |run| ==> IsHexDigit(run[i])
    ensures Distinct(run, k) <= HexBelow(k)
  {
    if k > 0 {
      HexDistinct(run, k - 1);
      if Count(run, k - 1) > 0 {
        CountedOccurs(run, k - 1);
      }
    }
  }

  /** No string of hex digits is ever above the threshold, whatever its length or letter case. */
  lemma HexNeverAbove(run: string)
    requires forall i :: 0 <= i < |run| ==> IsHexDigit(run[i])
    ensures !EntropyAbove(run, 9, 2)
  {
    HexDistinct(run, 256);
    FewDistinctNeverAbove(run);
  }

  /** No run of fewer than 23 bytes is ever above the threshold. */
  lemma ShortNeverAbove(run: string)
    requires IsBytes(run) && |run| < 23
    ensures !EntropyAbove(run, 9, 2)
  {
    TotalIsLength(run);
    DistinctBound(run, 256);
    FewDistinctNeverAbove(run);
  }

  /** 23 is exact: a run of different bytes is above the threshold as soon as it has 23 of them. */
  lemma DifferentBytesAbove(run: string)
    requires IsBytes(run) && forall i, j :: 0 <= i < j < |run| ==> run[i] != run[j]
    ensures EntropyAbove(run, 9, 2) <==> |run| >= 23
  {
    if |run| < 23 {
      ShortNeverAbove(run);
    } else {
      hide Product;
      var n := |run|;
      ProductOfDifferent(run, 256);
      PowOne(2);
      PowPow(n, 2, n);
      PowPow(2, 9, n);
      assert Pow(2, 9) == 512;
      PowTwo(n);
      MulMonotone(23, n, 23, n);
      PowStrict(512, n * n, n);
    }
  }

  lemma {:induction false} OccursOnce(run: string, v: nat)
    requires forall i, j :: 0 <= i < j < |run| ==> run[i] != run[j]
    ensures Count(run, v) <= 1
  {
    if run != [] {
      var init := run[..|run| - 1];
      OccursOnce(init, v);
      if Count(init, v) > 0 {
        CountedOccurs(init, v);
      }
    }
  }

  lemma {:induction false} ProductOfDifferent(run: string, k: nat)
    requires forall i, j :: 0 <= i < j < |run| ==> run[i] != run[j]
    ensures Product(run, k) == 1
  {
    if k > 0 {
      ProductOfDifferent(run, k - 1);
      OccursOnce(run, k - 1);
      assert Pow(0, 0) == 1 && Pow(1, 1) == 1;
    }
  }
}
