/** What a review looks at in a file, spelled out: its bytes, the twelve bits of its mode, its place in the list. */
module ReviewedFiles {
  import opened Utf8
  import opened Utf8Encoding
  import opened Sorting
  import opened Review

  // ---------- Binary files ----------

  /** A file is binary exactly when one of its first 8192 bytes is null or it encodes no scalar values. */
  lemma BinaryExactly(bytes: string)
    ensures IsBinary(bytes) <==>
            || (exists i :: 0 <= i < |bytes| && i < 8192 && bytes[i] as int == 0)
            || !exists cps :: Scalars(cps) && EncodeAll(cps) == bytes
  {
    hide Valid, Scalars, EncodeAll;
    ValidExactly(bytes);
    var probe := bytes[..if |bytes| < 8192 then |bytes| else 8192];
    assert forall i :: 0 <= i < |probe| ==> probe[i] == bytes[i];
    assert '\0' in probe <==> exists i :: 0 <= i < |probe| && probe[i] == '\0';
  }

  // ---------- Modes ----------

  function PowerOfTwo(k: nat): (p: nat)
    ensures p > 0
  {
    if k == 0 then 1 else 2 * PowerOfTwo(k - 1)
  }

  predicate Bit(mode: nat, k: nat) {
    mode / PowerOfTwo(k) % 2 == 1
  }

  ghost predicate SameBits(m: nat, n: nat, count: nat) {
    forall k: nat :: k < count ==> Bit(m, k) == Bit(n, k)
  }

  lemma LowBits(m: nat, p: nat)
    requires p > 0
    ensures m % (2 * p) == m % p + (if m / p % 2 == 1 then p else 0)
  {
    var q, r := m / p, m % p;
    assert m == p * q + r;
    var h, b := q / 2, q % 2;
    assert q == 2 * h + b;
    assert m == (2 * p) * h + (p * b + r) by {
      assert p * q == p * (2 * h) + p * b;
    }
    assert 0 <= p * b + r < 2 * p;
    Remainder(m, 2 * p, h, p * b + r);
  }

  lemma Remainder(m: nat, p: nat, q: nat, r: nat)
    requires m == p * q + r && r < p
    ensures m % p == r
  {
    var x, y := m / p, m % p;
    assert m == p * x + y && y < p;
    if q < x {
      MoreTimes(p, q, x);
    } else if x < q {
      MoreTimes(p, x, q);
    }
  }

  lemma {:induction false} MoreTimes(p: nat, q: nat, x: nat)
    requires q < x
    ensures p * x >= p * q + p
  {
    NextTimes(p, x - 1);
    if q < x - 1 {
      MoreTimes(p, q, x - 1);
    }
  }

  lemma NextTimes(p: nat, x: nat)
    ensures p * (x + 1) == p * x + p
  {
  }

  lemma {:induction false} BitsTellRemainder(m: nat, n: nat, count: nat)
    ensures SameBits(m, n, count) <==> m % PowerOfTwo(count) == n % PowerOfTwo(count)
  {
    if count > 0 {
      var p := PowerOfTwo(count - 1);
      BitsTellRemainder(m, n, count - 1);
      LowBits(m, p);
      LowBits(n, p);
      hide PowerOfTwo;
      assert m % p < p && n % p < p;
      assert SameBits(m, n, count) <==> SameBits(m, n, count - 1) && Bit(m, count - 1) == Bit(n, count - 1);
    }
  }

  /** Two masked modes agree exactly when the modes agree in their twelve lowest bits. */
  lemma MaskExactly(m: nat, n: nat)
    ensures Mask(m) == Mask(n) <==> SameBits(m, n, 12)
  {
    BitsTellRemainder(m, n, 12);
    assert PowerOfTwo(12) == 4096;
  }

  /** With the same bytes a file is listed exactly when its mode on disk can be read and differs in those bits. */
  lemma ModeListed(s: Snapshot, d: Disk, path: string)
    requires path in s && path in d && s[path].bytes == d[path].bytes
    ensures Differs(s, d, path) <==> d[path].mode.Some? && !SameBits(s[path].mode, d[path].mode.value, 12)
  {
    hide Mask, SameBits;
    if d[path].mode.Some? {
      MaskExactly(s[path].mode, d[path].mode.value);
    }
  }

  // ---------- The buckets ----------

  /** The bucket of a kind has for each file of that kind its path, counts and binary flag, and nothing else. */
  lemma {:induction false} BucketEntries(files: seq<FileChange>, kind: ChangeType, x: Stat)
    ensures x in Bucket(files, kind) <==>
            exists f :: f in files && f.changeType == kind
                        && x.path == f.path && x.linesAdded == f.linesAdded && x.linesDeleted == f.linesDeleted
                        && x.isBinary == f.isBinary
  {
    if files != [] {
      var n := |files| - 1;
      BucketEntries(files[..n], kind, x);
      assert files == files[..n] + [files[n]];
      assert forall f :: f in files <==> f in files[..n] || f == files[n];
    }
  }

  // ---------- The order of the list ----------

  /** The paths of a review are in strictly increasing order, by the first byte in which two of them differ. */
  lemma PathsRise(s: Snapshot, d: Disk, filter: string -> bool, files: seq<FileChange>, i: nat, j: nat)
    requires IsReview(s, d, filter, files) && i < j < |files|
    ensures files[i].path != files[j].path && exists p :: LessAt(files[i].path, files[j].path, p)
  {
    hide Describes, Differs, LessAt, StringLe;
    assert PathLe(files[i], files[j]);
    OrderExactly(files[i].path, files[j].path);
  }
}
