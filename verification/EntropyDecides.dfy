/** The entropy alone decides which runs are secret: all of the white list but words is below the threshold anyway. */
module EntropyDecides {
  import opened Means
  import opened Entropy
  import opened HighEntropy

  // ---------- Counting in pieces ----------

  lemma {:induction false} CountConcat(a: string, b: string, v: nat)
    ensures Count(a + b, v) == Count(a, v) + Count(b, v)
  {
    if b == [] {
      assert a + b == a;
    } else {
      var n := |b| - 1;
      assert (a + b)[..|a + b| - 1] == a + b[..n];
      CountConcat(a, b[..n], v);
    }
  }

  lemma CountOne(c: char, v: nat)
    ensures Count([c], v) == if c as nat == v then 1 else 0
  {
    assert [c][..0] == [];
  }

  /** The hex digits of an identifier. */
  function Digits(run: string): string
    requires |run| == 36
  {
    run[..8] + (run[9..13] + (run[14..18] + (run[19..23] + run[24..])))
  }

  lemma UuidPieces(run: string)
    requires IsUuid(run)
    ensures |run| == 36
    ensures run == run[..8] + (['-'] + (run[9..13] + (['-'] + (run[14..18] + (['-'] + (run[19..23]
                   + (['-'] + run[24..])))))))
  {
  }

  lemma UuidCounts(run: string, v: nat)
    requires IsUuid(run)
    ensures Count(run, v) == Count(Digits(run), v) + if v == 45 then 4 else 0
  {
    hide Count, IsUuid;
    UuidPieces(run);
    var a, b, c, d, e := run[..8], run[9..13], run[14..18], run[19..23], run[24..];
    var s4 := ['-'] + e;
    var s3 := ['-'] + (d + s4);
    var s2 := ['-'] + (c + s3);
    var s1 := ['-'] + (b + s2);
    CountConcat(a, s1, v);
    CountConcat(['-'], b + s2, v);
    CountConcat(b, s2, v);
    CountConcat(['-'], c + s3, v);
    CountConcat(c, s3, v);
    CountConcat(['-'], d + s4, v);
    CountConcat(d, s4, v);
    CountConcat(['-'], e, v);
    CountConcat(a, b + (c + (d + e)), v);
    CountConcat(b, c + (d + e), v);
    CountConcat(c, d + e, v);
    CountConcat(d, e, v);
    CountOne('-', v);
  }

  lemma DigitsAreHex(run: string)
    requires IsUuid(run)
    ensures |Digits(run)| == 32 && forall i :: 0 <= i < 32 ==> IsHexDigit(Digits(run)[i])
  {
  }

  lemma NoDash(run: string)
    requires forall i :: 0 <= i < |run| ==> IsHexDigit(run[i])
    ensures Count(run, 45) == 0
  {
    if Count(run, 45) > 0 {
      CountedOccurs(run, 45);
    }
  }

  lemma {:induction false} UuidProduct(run: string, k: nat)
    requires IsUuid(run)
    ensures Product(run, k) == Product(Digits(run), k) * if k > 45 then 256 else 1
  {
    if k > 0 {
      hide IsUuid, Count, Digits;
      UuidProduct(run, k - 1);
      UuidCounts(run, k - 1);
      DigitsAreHex(run);
      NoDash(Digits(run));
      var p, c := Product(Digits(run), k - 1), Pow(Count(Digits(run), k - 1), Count(Digits(run), k - 1));
      if k == 46 {
        assert Pow(0, 0) == 1;
        assert Pow(4, 4) == 256;
      } else {
        Swap(p, if k > 46 then 256 else 1, c);
      }
    }
  }

  lemma Swap(a: nat, b: nat, c: nat)
    ensures (a * b) * c == (a * c) * b
  {
    Assoc(a, b, c);
    Assoc(a, c, b);
  }

  // ---------- The identifiers ----------

  lemma SmallPowers(b: nat)
    ensures Pow(b, 2) == b * b && Pow(b, 3) == b * (b * b) && Pow(b, 5) == b * (b * (b * (b * b)))
  {
    assert Pow(b, 2) == b * Pow(b, 1) && Pow(b, 3) == b * Pow(b, 2) && Pow(b, 4) == b * Pow(b, 3);
  }

  lemma Steps()
    ensures Pow(36, 6) == 2176782336 && Pow(22, 4) == 234256 && Pow(2, 11) == 2048 && Pow(2, 5) == 32 && Pow(2, 8) == 256
  {
  }

  /** A fourth of the exponents: 36^18 * 22^16 is below 2^165. */
  lemma UuidQuarter()
    ensures Pow(36, 18) * Pow(22, 16) <= Pow(2, 165)
  {
    Steps();
    hide Pow;
    PowPow(36, 6, 3);
    PowPow(22, 4, 2);
    PowPow(22, 8, 2);
    PowPow(2, 11, 3);
    PowPow(2, 33, 5);
    SmallPowers(2176782336);
    SmallPowers(234256);
    SmallPowers(54875873536);
    SmallPowers(2048);
    SmallPowers(8589934592);
  }

  /** 36^36 to the second power against what 22 different digits and four dashes leave. */
  lemma UuidNumbers()
    ensures Pow(36, 72) * Pow(22, 64) <= Pow(2, 340) * Pow(2, 320)
  {
    hide Pow;
    UuidQuarter();
    PowPow(36, 18, 4);
    PowPow(22, 16, 4);
    PowPow(2, 165, 4);
    PowMul(Pow(36, 18), Pow(22, 16), 4);
    PowMonotone(Pow(36, 18) * Pow(22, 16), Pow(2, 165), 4);
    PowAdd(2, 340, 320);
  }

  /** The digits of an identifier, squared. */
  lemma DigitsBound(run: string) returns (q: nat)
    requires IsUuid(run)
    ensures q == Product(Digits(run), 256) && Pow(2, 320) <= Pow(22, 64) * (q * q)
  {
    hide Pow, Product, Distinct, Total, IsUuid, Digits;
    UuidPieces(run);
    var hex := Digits(run);
    q := Product(hex, 256);
    DigitsAreHex(run);
    TotalIsLength(hex);
    DistinctBound(hex, 256);
    HexDistinct(hex, 256);
    var d := Distinct(hex, 256);
    PowMonotone(d, 22, 32);
    MulMonotone(Pow(d, 32), Pow(22, 32), q, q);
    var x, y := Pow(32, 32), Pow(22, 32);
    MulMonotone(x, y * q, x, y * q);
    Shuffle(y, q, y, q);
    PowAdd(32, 32, 32);
    PowAdd(22, 32, 32);
    Steps();
    PowPow(2, 5, 64);
  }

  /** No identifier is above the threshold, whatever its digits. */
  lemma UuidNeverAbove(run: string)
    requires IsUuid(run)
    ensures !EntropyAbove(run, 9, 2)
  {
    hide Pow, Product, IsUuid, Digits;
    var q := DigitsBound(run);
    UuidProduct(run, 256);
    UuidNumbers();
    UuidPieces(run);
    var p := Product(run, 256);
    PowTwo(p);
    Shuffle(q, 256, q, 256);
    assert p * p == (q * q) * 65536;
    UuidCompare(Pow(36, 72), Pow(22, 64), Pow(2, 324), q * q, Pow(2, 320));
  }

  lemma UuidCompare(top: nat, t: nat, base: nat, q: nat, digits: nat)
    requires top * t <= Pow(2, 340) * digits && digits <= t * q && t == Pow(22, 64) && base == Pow(2, 324)
    ensures top <= base * (q * 65536)
  {
    hide Pow;
    var b := Pow(2, 340);
    assert b == base * 65536 by {
      PowAdd(2, 324, 16);
      Steps();
      PowPow(2, 8, 2);
      SmallPowers(256);
    }
    MulMonotone(b, b, digits, t * q);
    calc {
      b * (t * q);
      { Assoc(b, t, q); Assoc(t, b, q); }
      t * (b * q);
      { Assoc(base, 65536, q); }
      t * (base * (q * 65536));
    }
    Cancel(t, top, base * (q * 65536));
  }

  // ---------- What is flagged ----------

  /**
   * A run is secret exactly when its entropy is above 4.5 bits and it is no lower-case word below 4.6: the length
   * and the rest of the white list never decide.
   */
  lemma FlaggedExactly(run: string)
    requires IsBytes(run)
    ensures Flagged(run) <==>
            && EntropyAbove(run, 9, 2)
            && !((forall i :: 0 <= i < |run| ==> 'a' <= run[i] <= 'z') && EntropyBelow(run, 23, 5))
  {
    hide EntropyAbove, EntropyBelow, IsUuid;
    if |run| < 20 {
      ShortNeverAbove(run);
    }
    if AllHex(run) || AllIn(run, '0', '9') {
      HexNeverAbove(run);
    }
    if IsUuid(run) {
      UuidNeverAbove(run);
    }
  }
}
