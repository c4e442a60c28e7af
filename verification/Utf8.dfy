/**
 * UTF-8 (RFC 3629 section 4). A byte is a `char` below 256, so that ASCII texts can be written as string literals;
 * a Rust `str` is a byte sequence that satisfies `Valid`.
 */
module Utf8 {
  predicate IsAscii(b: char) {
    b as int < 0x80
  }

  predicate IsTail(b: char) {
    0x80 <= b as int <= 0xBF
  }

  predicate Between(b: char, low: int, high: int) {
    low <= b as int <= high
  }

  /** The length of the well-formed character `s` starts with; 0 if it starts with none. */
  function CharLen(s: string): (n: nat)
    ensures n <= |s|
  {
    if |s| >= 1 && IsAscii(s[0]) then 1
    else if |s| >= 2 && Between(s[0], 0xC2, 0xDF) && IsTail(s[1]) then 2
    else if |s| >= 3 && IsTail(s[1]) && IsTail(s[2]) &&
            (|| (s[0] as int == 0xE0 && Between(s[1], 0xA0, 0xBF))
             || Between(s[0], 0xE1, 0xEC)
             || (s[0] as int == 0xED && Between(s[1], 0x80, 0x9F))
             || Between(s[0], 0xEE, 0xEF)) then 3
    else if |s| >= 4 && IsTail(s[1]) && IsTail(s[2]) && IsTail(s[3]) &&
            (|| (s[0] as int == 0xF0 && Between(s[1], 0x90, 0xBF))
             || Between(s[0], 0xF1, 0xF3)
             || (s[0] as int == 0xF4 && Between(s[1], 0x80, 0x8F))) then 4
    else 0
  }

  predicate Valid(s: string)
    decreases |s|
  {
    s == [] || (CharLen(s) > 0 && Valid(s[CharLen(s)..]))
  }

  /** `utf8_step`: how far the scanners advance, read off the first byte alone. */
  function Step(s: string): (n: nat)
    requires s != []
    ensures 1 <= n <= 4
  {
    var b := s[0] as int;
    if b < 0x80 then 1
    else if b / 32 == 6 then 2
    else if b / 16 == 14 then 3
    else if b / 8 == 30 then 4
    else 1
  }

  /** `is_char_boundary`: the indices at which slicing a `str` does not panic. */
  predicate Boundary(s: string, i: int) {
    0 <= i <= |s| && (i == |s| || !IsTail(s[i]))
  }

  /** Slicing a `str`: its precondition is the one whose violation panics. */
  function Slice(s: string, i: nat, j: nat): (r: string)
    requires i <= j && Boundary(s, i) && Boundary(s, j)
    ensures i <= j <= |s| && r == s[i..j] && |r| == j - i
    ensures j == |s| ==> r == s[i..]
  {
    s[i..j]
  }

  // ---------- Laws ----------

  lemma StepIsCharLen(s: string)
    requires Valid(s) && s != []
    ensures Step(s) == CharLen(s) && Valid(s[Step(s)..]) && Boundary(s, Step(s))
    ensures forall k :: 0 < k < Step(s) ==> IsTail(s[k])
    ensures !IsTail(s[0])
  {
    if |s| > CharLen(s) {
      assert s[CharLen(s)..][0] == s[CharLen(s)];
    }
  }

  lemma CharLenShorter(s: string, i: nat)
    requires CharLen(s) > 0 && CharLen(s) <= i <= |s|
    ensures CharLen(s[..i]) == CharLen(s)
  {
  }

  /** Cutting a valid text at a boundary gives two valid texts. */
  lemma {:induction false} ValidSplit(s: string, i: nat)
    requires Valid(s) && Boundary(s, i)
    ensures Valid(s[..i]) && Valid(s[i..])
    decreases |s|
  {
    hide CharLen, Step;
    if i > 0 {
      var n := CharLen(s);
      StepIsCharLen(s);
      assert n <= i;
      assert i < |s| ==> s[n..][i - n] == s[i];
      ValidSplit(s[n..], i - n);
      assert s[n..][i - n..] == s[i..] && s[n..][..i - n] == s[..i][n..];
      CharLenShorter(s, i);
    } else {
      assert s[..0] == [] && s[0..] == s;
    }
  }

  /** The first character is read off its own bytes. */
  lemma CharLenLocal(s: string, longer: string)
    requires CharLen(s) > 0 && s <= longer
    ensures CharLen(longer) == CharLen(s)
  {
  }

  lemma {:induction false} ValidConcat(s: string, t: string)
    requires Valid(s) && Valid(t)
    ensures Valid(s + t)
    decreases |s|
  {
    hide CharLen;
    if s == [] {
      assert s + t == t;
    } else {
      var n := CharLen(s);
      ValidConcat(s[n..], t);
      CharLenLocal(s, s + t);
      assert (s + t)[n..] == s[n..] + t;
    }
  }

  lemma {:induction false} AsciiValid(s: string)
    requires forall i :: 0 <= i < |s| ==> IsAscii(s[i])
    ensures Valid(s)
    decreases |s|
  {
    if s != [] {
      AsciiValid(s[1..]);
    }
  }

  /** The index after an ASCII byte is a boundary. */
  lemma {:induction false} AfterAscii(s: string, i: nat)
    requires Valid(s) && 0 < i <= |s| && IsAscii(s[i - 1])
    ensures Boundary(s, i)
    decreases |s|
  {
    var n := CharLen(s);
    StepIsCharLen(s);
    if n < i {
      assert s[n..][i - n - 1] == s[i - 1];
      AfterAscii(s[n..], i - n);
      assert i < |s| ==> s[n..][i - n] == s[i];
    } else {
      assert !IsTail(s[i - 1]);
      assert i == 1;
    }
  }

  /** One character further is a boundary again, and the bytes skipped are continuation bytes. */
  lemma StepFrom(s: string, i: nat)
    requires Valid(s) && Boundary(s, i) && i < |s|
    ensures i + Step(s[i..]) <= |s| && Boundary(s, i + Step(s[i..]))
    ensures forall k :: i < k < i + Step(s[i..]) ==> IsTail(s[k])
  {
    ValidSplit(s, i);
    StepIsCharLen(s[i..]);
    var n := Step(s[i..]);
    assert forall k :: 0 <= k < |s| - i ==> s[i..][k] == s[i + k];
    forall k | i < k < i + n
      ensures IsTail(s[k])
    {
      assert s[i..][k - i] == s[k];
    }
  }

  /** A slice between boundaries is valid. */
  lemma {:induction false} SliceValid(s: string, i: nat, j: nat)
    requires Valid(s) && i <= j && Boundary(s, i) && Boundary(s, j)
    ensures Valid(s[i..j])
  {
    ValidSplit(s, j);
    assert Boundary(s[..j], i);
    ValidSplit(s[..j], i);
    assert s[..j][i..] == s[i..j];
  }
}
