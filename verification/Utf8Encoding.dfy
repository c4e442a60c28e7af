/** The texts that pass for UTF-8 are the encodings of Unicode scalar values (RFC 3629, section 3). */
module Utf8Encoding {
  import opened Utf8

  /** Every code point but the surrogates. */
  predicate Scalar(cp: nat) {
    cp < 0xD800 || 0xE000 <= cp < 0x110000
  }

  /** A continuation byte with these six bits. */
  function Tail(bits: nat): char {
    (0x80 + bits % 64) as char
  }

  function Encode(cp: nat): (s: string)
    requires Scalar(cp)
  {
    if cp < 0x80 then [cp as char]
    else if cp < 0x800 then [(0xC0 + cp / 64) as char, Tail(cp)]
    else if cp < 0x10000 then [(0xE0 + cp / 4096) as char, Tail(cp / 64), Tail(cp)]
    else [(0xF0 + cp / 262144) as char, Tail(cp / 4096), Tail(cp / 64), Tail(cp)]
  }

  predicate Scalars(cps: seq<nat>) {
    forall i :: 0 <= i < |cps| ==> Scalar(cps[i])
  }

  function EncodeAll(cps: seq<nat>): string
    requires Scalars(cps)
  {
    if cps == [] then "" else Encode(cps[0]) + EncodeAll(cps[1..])
  }

  /** The scalar value of the first character. */
  function Decode(s: string): nat
    requires CharLen(s) > 0
  {
    var n := CharLen(s);
    if n == 1 then s[0] as nat
    else if n == 2 then (s[0] as nat - 0xC0) * 64 + (s[1] as nat - 0x80)
    else if n == 3 then (s[0] as nat - 0xE0) * 4096 + (s[1] as nat - 0x80) * 64 + (s[2] as nat - 0x80)
    else (s[0] as nat - 0xF0) * 262144 + (s[1] as nat - 0x80) * 4096 + (s[2] as nat - 0x80) * 64 + (s[3] as nat - 0x80)
  }

  // ---------- One character ----------

  lemma TailBits(b: char, high: nat)
    requires IsTail(b)
    ensures Tail(high * 64 + (b as nat - 0x80)) == b && (high * 64 + (b as nat - 0x80)) / 64 == high
  {
  }

  lemma DecodeTwo(s: string)
    requires CharLen(s) == 2
    ensures 0x80 <= Decode(s) < 0x800 && Encode(Decode(s)) == s[..2]
  {
    TailBits(s[1], s[0] as nat - 0xC0);
  }

  lemma DecodeThree(s: string)
    requires CharLen(s) == 3
    ensures 0x800 <= Decode(s) < 0x10000 && Scalar(Decode(s)) && Encode(Decode(s)) == s[..3]
  {
    var a, b, c := s[0] as nat - 0xE0, s[1] as nat - 0x80, s[2] as nat - 0x80;
    TailBits(s[1], a);
    TailBits(s[2], a * 64 + b);
    var cp := Decode(s);
    assert cp == (a * 64 + b) * 64 + c;
    assert cp / 64 == a * 64 + b && cp / 4096 == cp / 64 / 64;
  }

  lemma DecodeFour(s: string)
    requires CharLen(s) == 4
    ensures 0x10000 <= Decode(s) < 0x110000 && Encode(Decode(s)) == s[..4]
  {
    var a, b, c, d := s[0] as nat - 0xF0, s[1] as nat - 0x80, s[2] as nat - 0x80, s[3] as nat - 0x80;
    TailBits(s[1], a);
    TailBits(s[2], a * 64 + b);
    TailBits(s[3], (a * 64 + b) * 64 + c);
    var cp := Decode(s);
    assert cp == ((a * 64 + b) * 64 + c) * 64 + d;
    assert cp / 64 == (a * 64 + b) * 64 + c && cp / 4096 == cp / 64 / 64 && cp / 262144 == cp / 4096 / 64;
  }

  lemma DecodeEncodes(s: string)
    requires CharLen(s) > 0
    ensures Scalar(Decode(s)) && Encode(Decode(s)) == s[..CharLen(s)]
  {
    match CharLen(s) {
      case 2 => DecodeTwo(s);
      case 3 => DecodeThree(s);
      case 4 => DecodeFour(s);
      case _ =>
    }
  }

  lemma TailIsTail(bits: nat)
    ensures IsTail(Tail(bits))
  {
  }

  lemma EncodeThree(cp: nat)
    requires 0x800 <= cp < 0x10000 && Scalar(cp)
    ensures var e := Encode(cp); |e| == 3 == CharLen(e)
  {
    TailIsTail(cp);
    TailIsTail(cp / 64);
    var lead, next := cp / 4096, cp / 64 % 64;
    assert cp / 64 == 64 * lead + next;
    assert 32 <= 64 * lead + next && (64 * lead + next < 0x360 || 0x380 <= 64 * lead + next < 1024);
    assert Tail(cp / 64) as int == 0x80 + next;
  }

  lemma EncodeFour(cp: nat)
    requires 0x10000 <= cp < 0x110000
    ensures var e := Encode(cp); |e| == 4 == CharLen(e)
  {
    TailIsTail(cp);
    TailIsTail(cp / 64);
    TailIsTail(cp / 4096);
    var lead, next := cp / 262144, cp / 4096 % 64;
    assert cp / 4096 == 64 * lead + next;
    assert 16 <= 64 * lead + next < 0x110;
    assert Tail(cp / 4096) as int == 0x80 + next;
  }

  lemma EncodeShort(cp: nat)
    requires cp < 0x800
    ensures var e := Encode(cp); CharLen(e) == |e| > 0
  {
    TailIsTail(cp);
  }

  lemma EncodeShape(cp: nat)
    requires Scalar(cp)
    ensures var e := Encode(cp); CharLen(e) == |e| > 0
  {
    hide Encode, CharLen;
    if cp < 0x800 {
      EncodeShort(cp);
    } else if cp < 0x10000 {
      EncodeThree(cp);
    } else {
      EncodeFour(cp);
    }
  }

  lemma EncodeFirst(cp: nat, rest: string)
    requires Scalar(cp)
    ensures CharLen(Encode(cp) + rest) == |Encode(cp)| > 0
  {
    EncodeShape(cp);
    hide Encode;
    CharLenLocal(Encode(cp), Encode(cp) + rest);
  }

  // ---------- Whole texts ----------

  lemma {:induction false} EncodingIsValid(cps: seq<nat>)
    requires Scalars(cps)
    ensures Valid(EncodeAll(cps))
  {
    if cps != [] {
      hide Encode, CharLen;
      EncodingIsValid(cps[1..]);
      EncodeFirst(cps[0], EncodeAll(cps[1..]));
      var s := EncodeAll(cps);
      assert s[|Encode(cps[0])|..] == EncodeAll(cps[1..]);
    }
  }

  lemma {:induction false} ValidIsEncoding(s: string) returns (cps: seq<nat>)
    requires Valid(s)
    ensures Scalars(cps) && EncodeAll(cps) == s
    decreases |s|
  {
    if s == "" {
      cps := [];
    } else {
      hide Encode, CharLen, Decode;
      var n := CharLen(s);
      var rest := ValidIsEncoding(s[n..]);
      DecodeEncodes(s);
      cps := [Decode(s)] + rest;
      assert cps[1..] == rest && s == s[..n] + s[n..];
    }
  }

  /** A text passes for UTF-8 exactly when it is the encoding of scalar values. */
  lemma ValidExactly(s: string)
    ensures Valid(s) <==> exists cps :: Scalars(cps) && EncodeAll(cps) == s
  {
    if Valid(s) {
      var cps := ValidIsEncoding(s);
    }
    if cps :| Scalars(cps) && EncodeAll(cps) == s {
      EncodingIsValid(cps);
    }
  }

  /** An index is one to slice at exactly when what comes before it is well-formed on its own. */
  lemma BoundaryExactly(s: string, i: nat)
    requires Valid(s) && i <= |s|
    ensures Boundary(s, i) <==> Valid(s[..i])
  {
    if Boundary(s, i) {
      ValidSplit(s, i);
    }
    if Valid(s[..i]) {
      CutIsBoundary(s, i);
    }
  }

  lemma {:induction false} CutIsBoundary(s: string, i: nat)
    requires Valid(s) && i <= |s| && Valid(s[..i])
    ensures Boundary(s, i)
    decreases |s|
  {
    if i == 0 {
      if s != "" {
        StepIsCharLen(s);
      }
    } else {
      var n := CharLen(s[..i]);
      CharLenLocal(s[..i], s);
      hide CharLen;
      assert s[..i][n..] == s[n..][..i - n];
      CutIsBoundary(s[n..], i - n);
      assert i < |s| ==> s[n..][i - n] == s[i];
    }
  }
}
