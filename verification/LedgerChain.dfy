/** What it means for a file to chain, said without a loop. */
module LedgerChain {
  import opened Wrappers
  import opened Json
  import opened LedgerFormat

  /** The lines that are not blank, in order. */
  function Items(lines: seq<Line>): (items: seq<Line>)
    ensures |items| <= |lines|
    ensures forall i :: 0 <= i < |items| ==> items[i] != Blank
  {
    if lines == [] then []
    else
      var rest := Items(lines[..|lines| - 1]);
      if lines[|lines| - 1] == Blank then rest else rest + [lines[|lines| - 1]]
  }

  /** The `hash` member of a line, where it has one. */
  function HashOf(line: Line): string {
    if line.Parsed? && line.value.Object? && AsStr(Get(line.value.members, HASH)).Some?
    then AsStr(Get(line.value.members, HASH)).value else ""
  }

  /** The link that item `i` has to carry: the hash of the item before it. */
  function Head(items: seq<Line>, i: nat): string
    requires i <= |items|
  {
    if i == 0 then GENESIS else HashOf(items[i - 1])
  }

  /** `o` is the record number `seqNo` on top of the link `prev`, hashed in either order. */
  ghost predicate RecordOn(c: Codec, prev: string, seqNo: nat, o: Members) {
    && AsU64(Get(o, SEQ)) == Some(seqNo)
    && AsStr(Get(o, PREV)) == Some(prev)
    && AsStr(Get(o, HASH)).Some?
    && var h := AsStr(Get(o, HASH)).value;
       (h == c.digest(Canonical(c, prev, seqNo, Payload(o))) || h == c.digest(Alternate(c, prev, seqNo, Payload(o))))
  }

  ghost predicate SignatureOn(c: Codec, prev: string, seqNo: nat, o: Members) {
    && AsU64(Get(o, SEQ)) == Some(seqNo)
    && AsStr(Get(o, PREV)) == Some(prev)
    && AsStr(Get(o, SIGNATURE)) == Some(c.digest(ClosingText(prev)))
  }

  ghost predicate RecordAt(c: Codec, items: seq<Line>, i: nat)
    requires i < |items|
  {
    var line := items[i];
    line.Parsed? && line.value.Object? && !IsSignature(line) &&
    RecordOn(c, Head(items, i), i % TWO_TO_64, line.value.members)
  }

  ghost predicate SignatureAt(c: Codec, items: seq<Line>, i: nat)
    requires i < |items|
  {
    var line := items[i];
    IsSignature(line) && SignatureOn(c, Head(items, i), i % TWO_TO_64, line.value.members)
  }

  /** Every item is a record on the one before it; the last may be a signature instead. */
  ghost predicate Chained(c: Codec, items: seq<Line>) {
    forall i :: 0 <= i < |items| ==>
      RecordAt(c, items, i) || (i == |items| - 1 && SignatureAt(c, items, i))
  }

  predicate Sealed(items: seq<Line>) {
    |items| > 0 && IsSignature(items[|items| - 1])
  }

  function RecordCount(items: seq<Line>): (n: nat)
    ensures n <= |items|
  {
    if Sealed(items) then |items| - 1 else |items|
  }

  predicate HasVerdict(items: seq<Line>) {
    exists i :: 0 <= i < |items| && IsVerdict(items[i])
  }

  /** A closed ledger carries a signature or a verdict. */
  predicate Closed(items: seq<Line>) {
    Sealed(items) || HasVerdict(items)
  }

  /** The link a further record would have to carry. */
  function HeadOf(items: seq<Line>): string {
    Head(items, RecordCount(items))
  }

  // ---------- Growing and cutting ----------

  lemma ItemsStep(lines: seq<Line>, line: Line)
    ensures Items(lines + [line]) == if line == Blank then Items(lines) else Items(lines) + [line]
  {
    assert (lines + [line])[..|lines|] == lines;
  }

  lemma {:induction false} ItemsConcat(a: seq<Line>, b: seq<Line>)
    ensures Items(a + b) == Items(a) + Items(b)
  {
    if b == [] {
      assert a + b == a;
    } else {
      var n := |b| - 1;
      assert (a + b)[..|a + b| - 1] == a + b[..n];
      ItemsConcat(a, b[..n]);
    }
  }

  lemma {:induction false} ItemsOfSolid(lines: seq<Line>)
    requires forall i :: 0 <= i < |lines| ==> lines[i] != Blank
    ensures Items(lines) == lines
  {
    if lines != [] {
      ItemsOfSolid(lines[..|lines| - 1]);
    }
  }

  /** A chain grows by a record or a signature on its head, and only while it is unsealed. */
  lemma ChainStep(c: Codec, items: seq<Line>, line: Line)
    requires line != Blank
    ensures Chained(c, items + [line]) <==>
            && Chained(c, items) && !Sealed(items)
            && line.Parsed? && line.value.Object?
            && var o := line.value.members;
               if IsSignature(line) then SignatureOn(c, HeadOf(items), |items| % TWO_TO_64, o)
               else RecordOn(c, HeadOf(items), |items| % TWO_TO_64, o)
  {
    var all := items + [line];
    assert forall i :: 0 <= i <= |items| ==> Head(all, i) == Head(items, i);
    assert forall i :: 0 <= i < |items| ==> RecordAt(c, all, i) == RecordAt(c, items, i);
    assert forall i :: 0 <= i < |items| ==> SignatureAt(c, all, i) == SignatureAt(c, items, i);
    if Chained(c, all) {
      assert |items| > 0 ==> RecordAt(c, all, |items| - 1);
      assert RecordAt(c, all, |items|) || SignatureAt(c, all, |items|);
    }
    if Chained(c, items) && !Sealed(items) {
      assert forall i :: 0 <= i < |items| ==> RecordAt(c, items, i);
    }
  }

  lemma ChainPrefix(c: Codec, items: seq<Line>, k: nat)
    requires Chained(c, items) && k <= |items|
    ensures Chained(c, items[..k])
    ensures k < |items| ==> !Sealed(items[..k])
  {
    var part := items[..k];
    assert forall i :: 0 <= i <= k ==> Head(part, i) == Head(items, i);
    forall i | 0 <= i < k
      ensures RecordAt(c, part, i) || (i == k - 1 && SignatureAt(c, part, i))
    {
      assert RecordAt(c, items, i) || SignatureAt(c, items, i);
      assert RecordAt(c, items, i) ==> RecordAt(c, part, i);
    }
    assert 0 < k < |items| ==> RecordAt(c, items, k - 1);
  }

  /** The link before any record of a chain is the genesis word or a digest. */
  lemma HeadIsLink(c: Codec, items: seq<Line>, i: nat)
    requires c.Lawful() && Chained(c, items) && i <= RecordCount(items)
    ensures IsLink(Head(items, i))
    ensures i == 0 <==> Head(items, i) == GENESIS
  {
    if i > 0 {
      assert RecordAt(c, items, i - 1);
    }
  }
}
