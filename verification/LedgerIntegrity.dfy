/** What a verdict of the verifier says about the file, and what no edited file can get past it. */
module LedgerIntegrity {
  import opened Wrappers
  import opened Json
  import opened LedgerFormat
  import opened LedgerChain
  import opened LedgerVerifier

  // ---------- The longest chaining prefix ----------

  /** The number of leading lines that chain, found from the end. */
  ghost function ChainedPrefix(c: Codec, lines: seq<Line>): (k: nat)
    ensures k <= |lines|
    ensures Chained(c, Items(lines[..k]))
  {
    assert lines[..|lines|] == lines;
    if Chained(c, Items(lines)) then |lines|
    else
      assert forall k :: 0 <= k < |lines| ==> lines[..|lines| - 1][..k] == lines[..k];
      ChainedPrefix(c, lines[..|lines| - 1])
  }

  lemma {:induction false} ItemsPrefix(lines: seq<Line>, k: nat)
    requires k <= |lines|
    ensures |Items(lines[..k])| <= |Items(lines)| && Items(lines[..k]) == Items(lines)[..|Items(lines[..k])|]
  {
    assert lines == lines[..k] + lines[k..];
    ItemsConcat(lines[..k], lines[k..]);
  }

  /** `ChainedPrefix` separates the prefixes that chain from those that do not. */
  lemma {:induction false} ChainedPrefixIsLongest(c: Codec, lines: seq<Line>, k: nat)
    requires k <= |lines|
    ensures Chained(c, Items(lines[..k])) <==> k <= ChainedPrefix(c, lines)
  {
    assert lines[..|lines|] == lines;
    if k <= ChainedPrefix(c, lines) {
      var longest := lines[..ChainedPrefix(c, lines)];
      assert longest[..k] == lines[..k];
      ItemsPrefix(longest, k);
      ChainPrefix(c, Items(longest), |Items(lines[..k])|);
    } else {
      assert !Chained(c, Items(lines));
      var shorter := lines[..|lines| - 1];
      if k < |lines| {
        assert shorter[..k] == lines[..k];
        ChainedPrefixIsLongest(c, shorter, k);
      }
    }
  }

  /** A line that stops the pass leaves the counters alone and is reported by its number. */
  lemma HaltReport(c: Codec, p: Progress, n: nat, line: Line)
    requires ScanLine(c, p, n, line).Halted?
    ensures var r := ScanLine(c, p, n, line).result;
            && !r.isValid && r.recordsVerified == p.verified && r.lastSeq == LastSeq(p.seqNo)
            && (p.lastHash == Some(p.prev) ==> r.lastHash == p.lastHash)
            && r.corruption.Some? && r.corruption.value.lineNumber == n
            && !r.corruption.value.reason.MissingTerminal? && !r.corruption.value.reason.EmptyLedger?
  {
    hide Canonical, Alternate, Payload;
  }

  /** Where the pass stops, and with what. */
  lemma {:induction false} PassStops(c: Codec, lines: seq<Line>)
    requires c.Lawful() && ChainedPrefix(c, lines) < |lines|
    ensures var k := ChainedPrefix(c, lines);
            var stop := ScanLine(c, ProgressOf(Items(lines[..k])), k + 1, lines[k]);
            stop.Halted? && Verify(c, Some(lines)) == stop.result
  {
    var k := ChainedPrefix(c, lines);
    var next := lines[..k + 1];
    assert next[..k] == lines[..k];
    PassIsChain(c, lines[..k]);
    PassIsChain(c, next);
    ChainedPrefixIsLongest(c, lines, k + 1);
    HaltedStays(c, lines, k + 1);
  }

  /**
   * The verifier reports the longest chaining prefix: how many records it holds, its last sequence number and
   * its head hash; and it blames the line after it.
   */
  lemma {:induction false} VerifierReportsLongestPrefix(c: Codec, lines: seq<Line>)
    requires c.Lawful()
    ensures var r := Verify(c, Some(lines));
            var k := ChainedPrefix(c, lines);
            var kept := Items(lines[..k]);
            var n := RecordCount(kept);
            && r.recordsVerified == n % TWO_TO_64
            && r.lastSeq == (if n % TWO_TO_64 == 0 then None else Some(n % TWO_TO_64 - 1))
            && (n > 0 ==> r.lastHash == Some(HeadOf(kept)))
            && (k < |lines| ==> !r.isValid && r.corruption.Some? && r.corruption.value.lineNumber == k + 1
                                && !r.corruption.value.reason.MissingTerminal? && !r.corruption.value.reason.EmptyLedger?)
  {
    hide Chained, ScanLine, ScanLines, Items, ChainedPrefix, HeadOf, Head, Sealed, HasVerdict, Verify;
    var k := ChainedPrefix(c, lines);
    if k < |lines| {
      PassStops(c, lines);
      HaltReport(c, ProgressOf(Items(lines[..k])), k + 1, lines[k]);
    } else {
      assert lines[..k] == lines;
      VerdictOnChain(c, lines);
    }
  }

  /** A file is valid exactly when all of it chains, it counts a record, and it is closed. */
  lemma {:induction false} ValidMeansClosedChain(c: Codec, lines: seq<Line>)
    requires c.Lawful()
    ensures var r := Verify(c, Some(lines));
            var items := Items(lines);
            && (r.isValid <==> Chained(c, items) && RecordCount(items) % TWO_TO_64 > 0 && Closed(items))
            && (r.corruption.None? <==> r.isValid)
            && (Chained(c, items) ==> r.hasSignature == Sealed(items) && r.hasTerminal == HasVerdict(items))
  {
    PassIsChain(c, lines);
    if !Chained(c, Items(lines)) {
      assert lines[..|lines|] == lines;
      ChainedPrefixIsLongest(c, lines, |lines|);
      VerifierReportsLongestPrefix(c, lines);
    }
  }

  // ---------- The head hash fixes the history ----------

  function MembersOf(line: Line): Members {
    if line.Parsed? && line.value.Object? then line.value.members else map[]
  }

  /** The two texts a record may have been hashed from. */
  ghost function TextsAt(c: Codec, items: seq<Line>, i: nat): set<string>
    requires i < |items|
  {
    var payload := Payload(MembersOf(items[i]));
    {Canonical(c, Head(items, i), i % TWO_TO_64, payload), Alternate(c, Head(items, i), i % TWO_TO_64, payload)}
  }

  /** Every text the verifier hashes for a record of the chain. */
  ghost function HashedTexts(c: Codec, items: seq<Line>): set<string> {
    set i, t | 0 <= i < |items| && t in TextsAt(c, items, i) :: t
  }

  lemma RecordHash(c: Codec, items: seq<Line>, i: nat)
    requires i < |items| && RecordAt(c, items, i)
    ensures exists t :: t in TextsAt(c, items, i) && t in HashedTexts(c, items) && HashOf(items[i]) == c.digest(t)
  {
    var o := items[i].value.members;
    var payload := Payload(o);
    var canonical := Canonical(c, Head(items, i), i % TWO_TO_64, payload);
    var alternate := Alternate(c, Head(items, i), i % TWO_TO_64, payload);
    assert canonical in TextsAt(c, items, i) && alternate in TextsAt(c, items, i);
    if HashOf(items[i]) == c.digest(canonical) {
      assert canonical in HashedTexts(c, items);
    } else {
      assert alternate in HashedTexts(c, items);
    }
  }

  /** A record is its three envelope members on top of its payload. */
  lemma RecordMembers(c: Codec, items: seq<Line>, i: nat)
    requires i < |items| && RecordAt(c, items, i)
    ensures items[i].value.members ==
            Payload(items[i].value.members)
              [SEQ := Number(i % TWO_TO_64)][PREV := Text(Head(items, i))][HASH := Text(HashOf(items[i]))]
  {
    var o := items[i].value.members;
    var p := Payload(o)[SEQ := Number(i % TWO_TO_64)][PREV := Text(Head(items, i))][HASH := Text(HashOf(items[i]))];
    assert forall k :: k in o <==> k in p;
    assert forall k :: k in o ==> o[k] == p[k];
  }

  /** Two records with the same hash carry the same link, number and payload. */
  lemma SameHashSameRecord(c: Codec, a: seq<Line>, m: nat, b: seq<Line>, n: nat)
    requires c.Lawful() && m < |a| && n < |b| && RecordAt(c, a, m) && RecordAt(c, b, n)
    requires c.CollisionFree(HashedTexts(c, a) + HashedTexts(c, b))
    requires IsLink(Head(a, m)) && IsLink(Head(b, n)) && HashOf(a[m]) == HashOf(b[n])
    ensures Head(a, m) == Head(b, n) && m % TWO_TO_64 == n % TWO_TO_64
    ensures Payload(MembersOf(a[m])) == Payload(MembersOf(b[n]))
  {
    hide RecordAt, IsDigest, HashedTexts, Head, HashOf, MembersOf, Canonical, Alternate;
    RecordHash(c, a, m);
    RecordHash(c, b, n);
    var s :| s in TextsAt(c, a, m) && s in HashedTexts(c, a) && HashOf(a[m]) == c.digest(s);
    var t :| t in TextsAt(c, b, n) && t in HashedTexts(c, b) && HashOf(b[n]) == c.digest(t);
    assert s == t;
    var x, y := Payload(MembersOf(a[m])), Payload(MembersOf(b[n]));
    HashedTextInjective(c, Head(a, m), m % TWO_TO_64, x, Head(b, n), n % TWO_TO_64, y);
    HashedTextInjective(c, Head(b, n), n % TWO_TO_64, y, Head(a, m), m % TWO_TO_64, x);
  }

  lemma EqualRecords(c: Codec, a: seq<Line>, b: seq<Line>, i: nat)
    requires i < |a| && i < |b| && RecordAt(c, a, i) && RecordAt(c, b, i)
    requires Head(a, i) == Head(b, i) && HashOf(a[i]) == HashOf(b[i])
    requires Payload(MembersOf(a[i])) == Payload(MembersOf(b[i]))
    ensures a[i] == b[i]
  {
    RecordMembers(c, a, i);
    RecordMembers(c, b, i);
  }

  /** Two chains that meet in one link are the same up to it. */
  lemma {:induction false} LinkFixesPrefix(c: Codec, a: seq<Line>, i: nat, b: seq<Line>, j: nat)
    requires c.Lawful() && Chained(c, a) && Chained(c, b)
    requires c.CollisionFree(HashedTexts(c, a) + HashedTexts(c, b))
    requires i <= RecordCount(a) && j <= RecordCount(b) && Head(a, i) == Head(b, j)
    ensures i == j && a[..i] == b[..j]
    decreases i
  {
    hide HashedTexts, IsDigest;
    HeadIsLink(c, a, i);
    HeadIsLink(c, b, j);
    if i > 0 {
      var m, n := i - 1, j - 1;
      assert RecordAt(c, a, m) && RecordAt(c, b, n);
      HeadIsLink(c, a, m);
      HeadIsLink(c, b, n);
      SameHashSameRecord(c, a, m, b, n);
      LinkFixesPrefix(c, a, m, b, n);
      EqualRecords(c, a, b, m);
      assert a[..i] == a[..m] + [a[m]] && b[..j] == b[..n] + [b[n]];
    }
  }

  /** The records of a chain, without the signature. */
  function Records(items: seq<Line>): seq<Line> {
    items[..RecordCount(items)]
  }

  lemma SameRecordsSameHead(x: seq<Line>, y: seq<Line>)
    requires Records(x) == Records(y)
    ensures HeadOf(x) == HeadOf(y)
  {
    var n := |Records(x)|;
    if n > 0 {
      assert x[n - 1] == Records(x)[n - 1] && y[n - 1] == Records(y)[n - 1];
    }
  }

  /**
   * The head hash determines the whole history: two files that chain and end in the same hash hold the same
   * records, whichever hash order each record used, unless the two files exhibit a collision.
   */
  lemma {:induction false} HeadHashFixesHistory(c: Codec, a: seq<Line>, b: seq<Line>)
    requires c.Lawful() && Chained(c, Items(a)) && Chained(c, Items(b))
    requires c.CollisionFree(HashedTexts(c, Items(a)) + HashedTexts(c, Items(b)))
    ensures HeadOf(Items(a)) == HeadOf(Items(b)) <==> Records(Items(a)) == Records(Items(b))
  {
    hide Items, Chained, HashedTexts;
    var x, y := Items(a), Items(b);
    if HeadOf(x) == HeadOf(y) {
      LinkFixesPrefix(c, x, RecordCount(x), y, RecordCount(y));
    }
    if Records(x) == Records(y) {
      SameRecordsSameHead(x, y);
    }
  }

  // ---------- Edits ----------

  lemma PayloadDiffers(o: Members, edited: Members)
    requires forall key :: key in RESERVED ==> Get(edited, key) == Get(o, key)
    requires Payload(edited) == Payload(o)
    ensures edited == o
  {
    forall key
      ensures key in edited <==> key in o
      ensures key in o ==> key in edited && edited[key] == o[key]
    {
      if key in RESERVED {
        assert Get(edited, key) == Get(o, key);
      } else {
        assert key in Payload(edited) <==> key in Payload(o);
        assert key in o ==> Payload(edited)[key] == Payload(o)[key];
      }
    }
  }

  /** The texts hashed for one record object on a given link. */
  ghost function TextsOn(c: Codec, prev: string, seqNo: nat, o: Members): set<string> {
    {Canonical(c, prev, seqNo, Payload(o)), Alternate(c, prev, seqNo, Payload(o))}
  }

  /** A record under another payload no longer matches its hash, in either order. */
  lemma EditedRecordHalts(c: Codec, p: Progress, n: nat, o: Members, edited: Members)
    requires c.Lawful() && IsLink(p.prev) && p.seqNo < TWO_TO_64
    requires RecordOn(c, p.prev, p.seqNo, o) && edited != o
    requires forall key :: key in RESERVED ==> Get(edited, key) == Get(o, key)
    requires c.CollisionFree(TextsOn(c, p.prev, p.seqNo, o) + TextsOn(c, p.prev, p.seqNo, edited))
    ensures ScanRecord(c, p, n, edited)
         == Halt(p, Corruption(n, Some(p.seqNo), Some(c.digest(Canonical(c, p.prev, p.seqNo, Payload(edited)))),
                               AsStr(Get(o, HASH)), HashMismatch))
  {
    var x, y := Payload(o), Payload(edited);
    if x == y {
      PayloadDiffers(o, edited);
    }
    HashedTextInjective(c, p.prev, p.seqNo, x, p.prev, p.seqNo, y);
    HashedTextInjective(c, p.prev, p.seqNo, y, p.prev, p.seqNo, x);
    assert Get(edited, SEQ) == Get(o, SEQ) && Get(edited, PREV) == Get(o, PREV) && Get(edited, HASH) == Get(o, HASH);
    var texts := TextsOn(c, p.prev, p.seqNo, o) + TextsOn(c, p.prev, p.seqNo, edited);
    assert Canonical(c, p.prev, p.seqNo, x) in texts && Alternate(c, p.prev, p.seqNo, x) in texts;
    assert Canonical(c, p.prev, p.seqNo, y) in texts && Alternate(c, p.prev, p.seqNo, y) in texts;
  }

  /** The pass over a file whose first `k` lines chain is decided by the line after them, if that line halts it. */
  lemma FirstBadLine(c: Codec, lines: seq<Line>, k: nat)
    requires c.Lawful() && k < |lines| && Chained(c, Items(lines[..k]))
    requires ScanLine(c, ProgressOf(Items(lines[..k])), k + 1, lines[k]).Halted?
    ensures Verify(c, Some(lines)) == ScanLine(c, ProgressOf(Items(lines[..k])), k + 1, lines[k]).result
  {
    PassIsChain(c, lines[..k]);
    assert lines[..k + 1][..k] == lines[..k];
    HaltedStays(c, lines, k + 1);
  }

  /** A line of a chain is a record or a signature on the head of the items before it. */
  lemma LineOnHead(c: Codec, lines: seq<Line>, k: nat)
    requires Chained(c, Items(lines)) && k < |lines| && lines[k] != Blank
    ensures var before := Items(lines[..k]);
            && Chained(c, before) && !Sealed(before) && lines[k].Parsed? && lines[k].value.Object?
            && var o := lines[k].value.members;
               if IsSignature(lines[k]) then SignatureOn(c, HeadOf(before), |before| % TWO_TO_64, o)
               else RecordOn(c, HeadOf(before), |before| % TWO_TO_64, o)
  {
    assert lines[..k + 1] == lines[..k] + [lines[k]];
    ItemsStep(lines[..k], lines[k]);
    ItemsPrefix(lines, k + 1);
    ChainPrefix(c, Items(lines), |Items(lines[..k + 1])|);
    ChainStep(c, Items(lines[..k]), lines[k]);
  }

  /**
   * Changing the payload of one record, and nothing of its envelope, is caught at that line: the records before
   * it are counted, and the reason is the hash.
   */
  lemma PayloadEditIsCaught(c: Codec, lines: seq<Line>, k: nat, edited: Members)
    requires c.Lawful() && Chained(c, Items(lines)) && k < |lines|
    requires lines[k].Parsed? && lines[k].value.Object? && !IsSignature(lines[k])
    requires forall key :: key in RESERVED ==> Get(edited, key) == Get(lines[k].value.members, key)
    requires edited != lines[k].value.members
    requires var prev, n := HeadOf(Items(lines[..k])), |Items(lines[..k])| % TWO_TO_64;
             c.CollisionFree(TextsOn(c, prev, n, lines[k].value.members) + TextsOn(c, prev, n, edited))
    ensures var r := Verify(c, Some(lines[k := Parsed(Object(edited))]));
            && !r.isValid && r.recordsVerified == |Items(lines[..k])| % TWO_TO_64
            && r.corruption.Some? && r.corruption.value.lineNumber == k + 1
            && r.corruption.value.seqNo == Some(|Items(lines[..k])| % TWO_TO_64)
            && r.corruption.value.reason == HashMismatch
  {
    var before, o, forged := Items(lines[..k]), lines[k].value.members, Parsed(Object(edited));
    hide ScanLines, ScanRecord, ScanSignature, Chained, Items, Canonical, Alternate, IsDigest, TextsOn, Verify;
    var all, p := lines[k := forged], ProgressOf(before);
    assert all[..k] == lines[..k];
    LineOnHead(c, lines, k);
    HeadIsLink(c, before, |before|);
    assert Get(edited, HASH) == Get(o, HASH);
    EditedRecordHalts(c, p, k + 1, o, edited);
    EditedRecordHalts(c, p.(terminal := p.terminal || IsVerdict(forged)), k + 1, o, edited);
    FirstBadLine(c, all, k);
  }

  /** A record or signature numbered past the one expected stops the pass. */
  lemma WrongNumberHalts(c: Codec, p: Progress, n: nat, line: Line)
    requires !p.signed && line.Parsed? && line.value.Object?
    requires AsU64(Get(line.value.members, SEQ)).Some? && AsU64(Get(line.value.members, SEQ)).value != p.seqNo
    requires AsStr(Get(line.value.members, PREV)).Some?
    requires IsSignature(line) || AsStr(Get(line.value.members, HASH)).Some?
    ensures var s := ScanLine(c, p, n, line);
            && s.Halted? && !s.result.isValid && s.result.recordsVerified == p.verified
            && s.result.corruption.Some? && s.result.corruption.value.lineNumber == n
            && (s.result.corruption.value.reason.SequenceBreak? || s.result.corruption.value.reason.SignatureMismatch?)
  {
  }

  lemma {:induction false} BlanksAddNothing(lines: seq<Line>, blanks: seq<Line>)
    requires forall i :: 0 <= i < |blanks| ==> blanks[i] == Blank
    ensures Items(lines + blanks) == Items(lines)
    decreases |blanks|
  {
    hide Items;
    if blanks == [] {
      assert lines + blanks == lines;
    } else {
      var init := blanks[..|blanks| - 1];
      BlanksAddNothing(lines, init);
      ItemsStep(lines + init, Blank);
      assert lines + blanks == lines + init + [Blank];
    }
  }

  /**
   * Deleting a line of a chain is caught at the next line that is not blank by its sequence number, without any
   * hashing.
   */
  lemma DeletionIsCaught(c: Codec, lines: seq<Line>, k: nat, next: nat)
    requires c.Lawful() && Chained(c, Items(lines)) && k < next < |lines|
    requires lines[k] != Blank && lines[next] != Blank && forall i :: k < i < next ==> lines[i] == Blank
    ensures var r := Verify(c, Some(lines[..k] + lines[k + 1..]));
            && !r.isValid && r.recordsVerified == |Items(lines[..k])| % TWO_TO_64
            && r.corruption.Some? && r.corruption.value.lineNumber == next
            && (r.corruption.value.reason.SequenceBreak? || r.corruption.value.reason.SignatureMismatch?)
  {
    hide ScanLine, ScanLines, Chained, Canonical, Alternate, Verify, Items, RecordOn, SignatureOn;
    var cut, before := lines[..k] + lines[k + 1..], Items(lines[..k]);
    LineOnHead(c, lines, k);
    LineOnHead(c, lines, next);
    ItemsAround(lines, k, next);
    NumbersDiffer(|before|);
    assert cut[next - 1] == lines[next];
    WrongNumberHalts(c, ProgressOf(before), next, lines[next]);
    FirstBadLine(c, cut, next - 1);
  }

  lemma ItemsAround(lines: seq<Line>, k: nat, next: nat)
    requires k < next < |lines| && lines[k] != Blank && forall i :: k < i < next ==> lines[i] == Blank
    ensures Items(lines[..next]) == Items(lines[..k]) + [lines[k]]
    ensures Items((lines[..k] + lines[k + 1..])[..next - 1]) == Items(lines[..k])
  {
    hide Items;
    var blanks := lines[k + 1..next];
    assert lines[..next] == lines[..k] + [lines[k]] + blanks;
    assert (lines[..k] + lines[k + 1..])[..next - 1] == lines[..k] + blanks;
    ItemsStep(lines[..k], lines[k]);
    BlanksAddNothing(lines[..k] + [lines[k]], blanks);
    BlanksAddNothing(lines[..k], blanks);
  }

  lemma NumbersDiffer(n: nat)
    ensures (n + 1) % TWO_TO_64 != n % TWO_TO_64
  {
  }

  /** Cutting off the only closing mark of a file makes it invalid, and the verifier says which mark is missing. */
  lemma TruncationIsCaught(c: Codec, lines: seq<Line>, k: nat)
    requires c.Lawful() && Chained(c, Items(lines)) && k <= |lines| && !Closed(Items(lines[..k]))
    ensures var r := Verify(c, Some(lines[..k]));
            var n := |Items(lines[..k])| % TWO_TO_64;
            && !r.isValid
            && r.corruption == Some(if n == 0 then Corruption(0, None, None, None, EmptyLedger)
                                    else Corruption(k, Some(n - 1), None, None, MissingTerminal))
  {
    ItemsPrefix(lines, k);
    ChainPrefix(c, Items(lines), |Items(lines[..k])|);
    PassIsChain(c, lines[..k]);
  }
}
