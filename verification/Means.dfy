/** Powers, and the inequality between a weighted geometric and arithmetic mean, in exact arithmetic. */
module Means {
  function Pow(b: nat, e: nat): (r: nat)
    ensures b > 0 ==> r > 0
  {
    if e == 0 then 1 else b * Pow(b, e - 1)
  }

  lemma Assoc(a: nat, b: nat, c: nat)
    ensures a * (b * c) == (a * b) * c
  {
  }

  lemma RAssoc(a: real, b: real, c: real)
    ensures a * (b * c) == (a * b) * c
  {
  }

  lemma {:induction false} PowAdd(b: nat, x: nat, y: nat)
    ensures Pow(b, x + y) == Pow(b, x) * Pow(b, y)
  {
    if x > 0 {
      PowAdd(b, x - 1, y);
      Assoc(b, Pow(b, x - 1), Pow(b, y));
    }
  }

  lemma {:induction false} PowMul(a: nat, b: nat, e: nat)
    ensures Pow(a * b, e) == Pow(a, e) * Pow(b, e)
  {
    if e > 0 {
      PowMul(a, b, e - 1);
      Shuffle(a, b, Pow(a, e - 1), Pow(b, e - 1));
    }
  }

  lemma Shuffle(a: nat, b: nat, x: nat, y: nat)
    ensures (a * b) * (x * y) == (a * x) * (b * y)
  {
    calc {
      (a * b) * (x * y);
      a * (b * (x * y));
      { assert b * (x * y) == x * (b * y); }
      a * (x * (b * y));
      (a * x) * (b * y);
    }
  }

  /** A power of a power. */
  lemma {:induction false} PowPow(b: nat, k: nat, e: nat)
    ensures Pow(Pow(b, k), e) == Pow(b, k * e)
  {
    if e == 0 {
      assert k * e == 0;
    } else {
      PowPow(b, k, e - 1);
      PowAdd(b, k, k * (e - 1));
      assert k + k * (e - 1) == k * e;
    }
  }

  lemma {:induction false} PowMonotone(a: nat, b: nat, e: nat)
    requires a <= b
    ensures Pow(a, e) <= Pow(b, e)
  {
    if e > 0 {
      PowMonotone(a, b, e - 1);
      MulMonotone(a, b, Pow(a, e - 1), Pow(b, e - 1));
    }
  }

  lemma {:induction false} PowStrict(a: nat, b: nat, e: nat)
    requires a < b && e > 0
    ensures Pow(a, e) < Pow(b, e)
  {
    PowMonotone(a, b, e - 1);
    var x, y := Pow(a, e - 1), Pow(b, e - 1);
    assert y > 0;
    MulMonotone(a, a, x, y);
    assert a * y < b * y;
  }

  lemma MulMonotone(a: nat, b: nat, x: nat, y: nat)
    requires a <= b && x <= y
    ensures a * x <= b * y
  {
    assert a * x <= a * y;
    assert a * y <= b * y;
  }

  lemma Cancel(k: nat, x: nat, y: nat)
    requires k > 0 && k * x <= k * y
    ensures x <= y
  {
  }

  // ---------- Real powers ----------

  function RPow(b: real, e: nat): real {
    if e == 0 then 1.0 else b * RPow(b, e - 1)
  }

  lemma {:induction false} RPowPositive(b: real, e: nat)
    requires b > 0.0
    ensures RPow(b, e) > 0.0
  {
    if e > 0 {
      RPowPositive(b, e - 1);
    }
  }

  lemma {:induction false} RPowMul(a: real, b: real, z: real, e: nat)
    requires z == a * b
    ensures RPow(z, e) == RPow(a, e) * RPow(b, e)
  {
    if e > 0 {
      RPowMul(a, b, z, e - 1);
      RShuffle(a, b, RPow(a, e - 1), RPow(b, e - 1));
    }
  }

  lemma RShuffle(a: real, b: real, x: real, y: real)
    ensures (a * b) * (x * y) == (a * x) * (b * y)
  {
    calc {
      (a * b) * (x * y);
      a * (b * (x * y));
      { assert b * (x * y) == x * (b * y); }
      a * (x * (b * y));
      (a * x) * (b * y);
    }
  }

  lemma {:induction false} RPowOfNat(b: nat, e: nat)
    ensures RPow(b as real, e) == Pow(b, e) as real
  {
    if e > 0 {
      RPowOfNat(b, e - 1);
      RealProduct(b, Pow(b, e - 1));
    }
  }

  lemma RealProduct(a: nat, b: nat)
    ensures (a * b) as real == a as real * b as real
  {
  }

  lemma RMulMonotone(x: real, y: real, k: real)
    requires x <= y && k >= 0.0
    ensures k * x <= k * y
  {
  }

  /** Bernoulli's inequality. */
  lemma {:induction false} Bernoulli(t: real, n: nat)
    requires t >= -1.0
    ensures RPow(1.0 + t, n) >= 1.0 + n as real * t
  {
    if n > 0 {
      Bernoulli(t, n - 1);
      var k, p := (n - 1) as real, RPow(1.0 + t, n - 1);
      RMulMonotone(1.0 + k * t, p, 1.0 + t);
      assert t * t >= 0.0;
      RMulMonotone(0.0, t * t, k);
      assert (1.0 + t) * (1.0 + k * t) == 1.0 + t + k * t + k * (t * t);
      assert n as real * t == k * t + t;
    }
  }

  lemma RPowSame(x: real, y: real, e: nat)
    requires x == y
    ensures RPow(x, e) == RPow(y, e)
  {
  }

  lemma RPowNext(b: real, e: nat)
    ensures RPow(b, e + 1) == b * RPow(b, e) && RPow(b, 0) == 1.0
  {
  }

  /** The mean of `n` numbers with mean `a` and one more number. */
  function NextMean(a: real, x: real, n: nat): real {
    (n as real * a + x) / (n as real + 1.0)
  }

  /** Taking one more number into a mean: the power of the new mean is at least the old power times the number. */
  lemma MeanStep(a: real, x: real, n: nat)
    requires a > 0.0 && x > 0.0
    ensures RPow(NextMean(a, x, n), n + 1) >= RPow(a, n) * x
  {
    hide RPow;
    var k := n as real + 1.0;
    var t, p := (x - a) / (k * a), RPow(a, n);
    ProductPositive(k, a);
    assert t * (k * a) == x - a;
    StepRatio(a, x, k, t);
    Bernoulli(t, n + 1);
    RPowPositive(a, n + 1);
    RPowMul(a, 1.0 + t, NextMean(a, x, n), n + 1);
    assert (n + 1) as real == k;
    RMulMonotone(1.0 + k * t, RPow(1.0 + t, n + 1), RPow(a, n + 1));
    RPowNext(a, n);
    ScaleRatio(a, p, x, 1.0 + k * t);
  }

  lemma ProductPositive(x: real, y: real)
    requires x > 0.0 && y > 0.0
    ensures x * y > 0.0
  {
  }

  lemma ScaleRatio(a: real, p: real, x: real, r: real)
    requires r * a == x
    ensures (a * p) * r == p * x
  {
    calc {
      (a * p) * r;
      { RAssoc(p, a, r); }
      p * (a * r);
      p * x;
    }
  }

  lemma StepRatio(a: real, x: real, k: real, t: real)
    requires a > 0.0 && x > 0.0 && k >= 1.0 && t * (k * a) == x - a
    ensures t >= -1.0 && (1.0 + k * t) * a == x && a * (1.0 + t) == ((k - 1.0) * a + x) / k
  {
    RAssoc(t, k, a);
    assert (1.0 + k * t) * a == a + (t * k) * a;
    StepMean(a, x, k, t);
    StepBound(a, x, k, t);
  }

  lemma StepMean(a: real, x: real, k: real, t: real)
    requires a > 0.0 && k >= 1.0 && t * (k * a) == x - a
    ensures a * (1.0 + t) == ((k - 1.0) * a + x) / k
  {
    var lhs, rhs := a * (1.0 + t), ((k - 1.0) * a + x) / k;
    assert rhs * k == (k - 1.0) * a + x;
    calc {
      lhs * k;
      (a + a * t) * k;
      a * k + (a * t) * k;
      { assert (a * t) * k == t * (k * a); }
      a * k + (x - a);
    }
    DivideOut(lhs, rhs, k);
  }

  lemma StepBound(a: real, x: real, k: real, t: real)
    requires a > 0.0 && x > 0.0 && k >= 1.0 && t * (k * a) == x - a
    ensures t >= -1.0
  {
    RMulMonotone(1.0, k, a);
    assert k * a >= a;
    assert (1.0 + t) * (k * a) == k * a + (x - a);
    assert (1.0 + t) * (k * a) > 0.0;
    Positive(1.0 + t, k * a);
  }

  lemma Positive(u: real, v: real)
    requires v > 0.0 && u * v > 0.0
    ensures u > 0.0
  {
    if u <= 0.0 {
      RMulMonotone(u, 0.0, v);
    }
  }

  lemma DivideOut(x: real, y: real, k: real)
    requires k > 0.0 && x * k == y * k
    ensures x == y
  {
    assert (x - y) * k == 0.0;
  }

  function Mean(x: real, y: real, m: nat, c: nat): real
    requires m > 0
  {
    (m as real * x + c as real * y) / (m + c) as real
  }

  /** The weighted mean of two numbers bounds their weighted product. */
  lemma {:induction false} TwoMeans(x: real, y: real, m: nat, c: nat)
    requires x > 0.0 && y > 0.0 && m > 0
    ensures RPow(Mean(x, y, m, c), m + c) >= RPow(x, m) * RPow(y, c)
  {
    hide RPow, Mean;
    if c == 0 {
      OneMean(x, y, m);
    } else {
      TwoMeans(x, y, m, c - 1);
      AddOne(x, y, m, c);
    }
  }

  lemma OneMean(x: real, y: real, m: nat)
    requires m > 0
    ensures RPow(Mean(x, y, m, 0), m) == RPow(x, m) * RPow(y, 0)
  {
    hide RPow;
    RPowNext(y, 0);
    RPowSame(Mean(x, y, m, 0), x, m);
  }

  lemma {:induction false} AddOne(x: real, y: real, m: nat, c: nat)
    requires x > 0.0 && y > 0.0 && m > 0 && c > 0
    requires RPow(Mean(x, y, m, c - 1), m + (c - 1)) >= RPow(x, m) * RPow(y, c - 1)
    ensures RPow(Mean(x, y, m, c), m + c) >= RPow(x, m) * RPow(y, c)
  {
    hide RPow;
    var n := m + c - 1;
    var sum := m as real * x + (c - 1) as real * y;
    var a := Mean(x, y, m, c - 1);
    SumPositive(x, y, m as real, (c - 1) as real);
    QuotientPositive(sum, n as real);
    MeanStep(a, y, n);
    assert n as real * a == sum;
    OneMore(c, y);
    RPowSame(NextMean(a, y, n), Mean(x, y, m, c), m + c);
    TakeOne(x, y, m, c, RPow(a, n));
  }

  lemma OneMore(c: nat, y: real)
    requires c > 0
    ensures c as real * y == (c - 1) as real * y + y
  {
  }

  lemma QuotientPositive(x: real, y: real)
    requires x > 0.0 && y > 0.0
    ensures x / y > 0.0
  {
  }

  lemma TakeOne(x: real, y: real, m: nat, c: nat, p: real)
    requires y > 0.0 && c > 0 && p >= RPow(x, m) * RPow(y, c - 1)
    ensures p * y >= RPow(x, m) * RPow(y, c)
  {
    hide RPow;
    RPowNext(y, c - 1);
    RMulMonotone(RPow(x, m) * RPow(y, c - 1), p, y);
    RAssoc(RPow(x, m), y, RPow(y, c - 1));
    RAssoc(y, RPow(x, m), RPow(y, c - 1));
  }

  lemma SumPositive(x: real, y: real, m: real, c: real)
    requires x > 0.0 && y > 0.0 && m > 0.0 && c >= 0.0
    ensures m * x + c * y > 0.0
  {
    assert m * x > 0.0;
    assert c * y >= 0.0;
  }

  function Quotient(a: nat, b: nat): real
    requires b > 0
  {
    a as real / b as real
  }

  lemma Ratio(a: nat, b: nat, e: nat)
    requires b > 0
    ensures RPow(Quotient(a, b), e) * Pow(b, e) as real == Pow(a, e) as real
  {
    hide RPow, Pow;
    RPowMul(Quotient(a, b), b as real, a as real, e);
    RPowOfNat(a, e);
    RPowOfNat(b, e);
  }

  /** The two-way log-sum inequality without logarithms. */
  lemma LogSum(m: nat, d: nat, c: nat)
    requires m > 0 && d > 0 && c > 0
    ensures Pow(m + c, m + c) * Pow(d, m) <= Pow(d + 1, m + c) * (Pow(m, m) * Pow(c, c))
  {
    hide RPow, Pow;
    var x, y := Quotient(d, m), Quotient(1, c);
    TwoMeans(x, y, m, c);
    MeanOfQuotients(m, d, c);
    Ratio(d + 1, m + c, m + c);
    Ratio(d, m, m);
    Ratio(1, c, c);
    PowOne(c);
    LogSumIntegers(RPow(Quotient(d + 1, m + c), m + c), RPow(x, m), RPow(y, c),
                   Pow(m + c, m + c), Pow(m, m), Pow(c, c), Pow(d + 1, m + c), Pow(d, m));
  }

  lemma MeanOfQuotients(m: nat, d: nat, c: nat)
    requires m > 0 && c > 0
    ensures Mean(Quotient(d, m), Quotient(1, c), m, c) == Quotient(d + 1, m + c)
  {
    QuotientTimes(d, m);
    QuotientTimes(1, c);
  }

  lemma QuotientTimes(a: nat, b: nat)
    requires b > 0
    ensures b as real * Quotient(a, b) == a as real
  {
  }

  lemma LogSumIntegers(a: real, b: real, g: real, n: nat, m: nat, c: nat, top: nat, d: nat)
    requires a >= b * g && n > 0 && m > 0 && c > 0
    requires a * n as real == top as real && b * m as real == d as real && g * c as real == 1.0
    ensures n * d <= top * (m * c)
  {
    Combine(a, b, g, n as real, m as real, c as real, top as real, d as real);
    RealProduct(n, d);
    RealProduct(m, c);
    RealProduct(top, m * c);
  }

  lemma {:induction false} PowOne(e: nat)
    ensures Pow(1, e) == 1
  {
    if e > 0 {
      PowOne(e - 1);
    }
  }

  lemma Combine(a: real, b: real, g: real, n: real, m: real, c: real, top: real, d: real)
    requires a >= b * g && n > 0.0 && m > 0.0 && c > 0.0
    requires a * n == top && b * m == d && g * c == 1.0
    ensures n * d <= top * (m * c)
  {
    var k := n * (m * c);
    assert m * c > 0.0;
    assert k > 0.0;
    RMulMonotone(b * g, a, k);
    assert k * a == (a * n) * (m * c);
    calc {
      k * (b * g);
      n * ((m * c) * (b * g));
      { RShuffle(m, c, b, g); }
      n * ((m * b) * (c * g));
      { assert m * b == d && c * g == 1.0; }
      n * d;
    }
  }
}
