/** Facts about strings: substring search, decimal numbers and colon-separated fields. */
module Text {
  import opened Wrappers

  // ---------- Substring search (str::find, str::contains) ----------

  ghost predicate OccursAt<T>(text: seq<T>, needle: seq<T>, k: int) {
    0 <= k <= |text| - |needle| && text[k..k + |needle|] == needle
  }

  ghost predicate Contains<T(!new)>(text: seq<T>, needle: seq<T>) {
    exists k :: OccursAt(text, needle, k)
  }

  /** The index of the first occurrence of `needle`, as `str::find` reports it. */
  function Find<T(==)>(text: seq<T>, needle: seq<T>): (r: Option<nat>)
    ensures r.Some? ==> OccursAt(text, needle, r.value)
    ensures r.Some? ==> forall k :: 0 <= k < r.value ==> !OccursAt(text, needle, k)
    ensures r.None? ==> forall k :: !OccursAt(text, needle, k)
  {
    FindFrom(text, needle, 0)
  }

  function FindFrom<T(==)>(text: seq<T>, needle: seq<T>, start: nat): (r: Option<nat>)
    requires start <= |text|
    ensures r.Some? ==> start <= r.value && OccursAt(text, needle, r.value)
    ensures r.Some? ==> forall k :: start <= k < r.value ==> !OccursAt(text, needle, k)
    ensures r.None? ==> forall k :: start <= k ==> !OccursAt(text, needle, k)
    decreases |text| - start
  {
    if start + |needle| > |text| then None
    else if text[start..start + |needle|] == needle then Some(start)
    else if start == |text| then None
    else FindFrom(text, needle, start + 1)
  }

  /** Only the first occurrence can be the answer of a search. */
  lemma FindIs<T>(text: seq<T>, needle: seq<T>, k: nat)
    requires OccursAt(text, needle, k)
    requires forall j :: 0 <= j < k ==> !OccursAt(text, needle, j)
    ensures Find(text, needle) == Some(k)
  {
  }

  // ---------- Decimal numbers ----------

  predicate IsDigit(c: char) {
    '0' <= c <= '9'
  }

  /** The decimal digits of `n`, as `format!("{}", n)` prints them. */
  function Decimal(n: nat): (s: string)
    ensures |s| >= 1
    ensures forall i :: 0 <= i < |s| ==> IsDigit(s[i])
  {
    var last := [('0' as int + n % 10) as char];
    if n < 10 then last else Decimal(n / 10) + last
  }

  lemma {:induction false} DecimalLength(n: nat, width: nat)
    requires width >= 1
    requires n < TenTo(width)
    ensures |Decimal(n)| <= width
  {
    assert TenTo(width) == 10 * TenTo(width - 1);
    if n >= 10 {
      DecimalLength(n / 10, width - 1);
    }
  }

  function TenTo(k: nat): nat {
    if k == 0 then 1 else 10 * TenTo(k - 1)
  }

  lemma TenToSum(a: nat, b: nat)
    ensures TenTo(a + b) == TenTo(a) * TenTo(b)
  {
    if a > 0 {
      TenToSum(a - 1, b);
    }
  }

  lemma {:induction false} DecimalInjective(a: nat, b: nat)
    requires Decimal(a) == Decimal(b)
    ensures a == b
  {
    var x, y := Decimal(a), Decimal(b);
    assert x[|x| - 1] as int == '0' as int + a % 10;
    assert y[|y| - 1] as int == '0' as int + b % 10;
    if a >= 10 && b >= 10 {
      assert Decimal(a / 10) == x[..|x| - 1];
      assert Decimal(b / 10) == y[..|y| - 1];
      DecimalInjective(a / 10, b / 10);
    }
  }

  /** The number that decimal digits stand for. */
  function ValueOf(digits: string): (n: nat)
    requires forall i :: 0 <= i < |digits| ==> IsDigit(digits[i])
  {
    if digits == "" then 0
    else
      assert IsDigit(digits[|digits| - 1]);
      10 * ValueOf(digits[..|digits| - 1]) + (digits[|digits| - 1] as int - '0' as int)
  }

  /** The digits read back as the number, and start with 0 only when they are all there is. */
  lemma {:induction false} DecimalReads(n: nat)
    ensures ValueOf(Decimal(n)) == n && (Decimal(n)[0] == '0' ==> n == 0)
  {
    var d := Decimal(n);
    if n >= 10 {
      DecimalReads(n / 10);
      assert d[..|d| - 1] == Decimal(n / 10) && d[0] == Decimal(n / 10)[0];
    } else {
      assert d[..|d| - 1] == "";
    }
  }

  // ---------- Colon-separated fields ----------

  /** A text is split at its first colon in one way only. */
  lemma SplitAtColon(a: string, b: string, x: string, y: string)
    requires ':' !in a && ':' !in b
    requires a + ":" + x == b + ":" + y
    ensures a == b && x == y
  {
    var s, t := a + ":" + x, b + ":" + y;
    assert s[|a|] == ':' && t[|b|] == ':';
    assert forall i :: 0 <= i < |a| ==> s[i] == a[i];
    assert forall i :: 0 <= i < |b| ==> t[i] == b[i];
    assert s[|b|] == ':' && t[|a|] == ':';
    assert a == s[..|a|] && b == t[..|b|];
    assert x == s[|a| + 1..] && y == t[|b| + 1..];
  }
}
