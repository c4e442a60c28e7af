/** What the signature of a ledger signs, and the lines of a session byte for byte. */
module LedgerSignatures {
  import opened Wrappers
  import opened Json
  import opened LedgerFormat
  import opened LedgerChain
  import opened LedgerIntegrity
  import opened AuditLedgers
  import opened LedgerRuns
  import T = Text

  // ---------- The closing text ----------

  /** A closing text fixes its link, and is no text hashed for a record, in either order. */
  lemma ClosingTextApart(c: Codec, p: string, q: string, seqNo: nat, payload: Members)
    requires IsLink(q) && seqNo < TWO_TO_64
    ensures ClosingText(p) == ClosingText(q) ==> p == q
    ensures ClosingText(p) != Canonical(c, q, seqNo, payload)
    ensures ClosingText(p) != Alternate(c, q, seqNo, payload)
  {
    var x, y := ClosingText(p), ClosingText(q);
    assert x[6..] == p && y[6..] == q;
    CloseIsNoField(q, seqNo);
    assert x == "CLOSE" + ":" + p;
    var d, printed := T.Decimal(seqNo), c.print_(payload);
    if x == Canonical(c, q, seqNo, payload) {
      T.SplitAtColon("CLOSE", q, p, d + ":" + printed);
    }
    if x == Alternate(c, q, seqNo, payload) {
      T.SplitAtColon("CLOSE", d, p, q + ":" + printed);
    }
  }

  lemma CloseIsNoField(q: string, seqNo: nat)
    requires IsLink(q) && seqNo < TWO_TO_64
    ensures ':' !in "CLOSE" && ':' !in q && ':' !in T.Decimal(seqNo)
    ensures "CLOSE" != q && "CLOSE" != T.Decimal(seqNo)
  {
    LinkShape(q);
    SeqWidth(seqNo);
    var close := "CLOSE";
    assert close[0] == 'C' && |close| == 5;
    assert |GENESIS| == 7;
  }

  // ---------- Signatures of chains ----------

  /** The `signature` member of the last line. */
  function SignatureOf(items: seq<Line>): string
    requires Sealed(items)
  {
    var v := AsStr(Get(items[|items| - 1].value.members, SIGNATURE));
    if v.Some? then v.value else ""
  }

  lemma SealSigns(c: Codec, items: seq<Line>)
    requires Chained(c, items) && Sealed(items)
    ensures SignatureOf(items) == c.digest(ClosingText(HeadOf(items)))
  {
    var n := |items| - 1;
    assert RecordAt(c, items, n) || SignatureAt(c, items, n);
  }

  /** Every text hashed for the records of a sealed chain and for its signature. */
  ghost function SignedTexts(c: Codec, items: seq<Line>): set<string> {
    HashedTexts(c, items) + {ClosingText(HeadOf(items))}
  }

  lemma HashedForRecord(c: Codec, items: seq<Line>, t: string)
    requires t in HashedTexts(c, items)
    ensures exists i: nat :: i < |items| && t in TextsAt(c, items, i)
  {
  }

  /** No record carries a hash that is a signature of one of the two chains. */
  lemma NoRecordSigns(c: Codec, x: seq<Line>, i: nat, y: seq<Line>)
    requires c.Lawful() && Chained(c, x) && Chained(c, y) && i < RecordCount(x)
    requires c.CollisionFree(SignedTexts(c, x) + SignedTexts(c, y))
    ensures HashOf(x[i]) != c.digest(ClosingText(HeadOf(y)))
  {
    hide HashedTexts, Canonical, Alternate, ClosingText, Payload, IsDigest;
    assert RecordAt(c, x, i);
    RecordHash(c, x, i);
    var t :| t in TextsAt(c, x, i) && t in HashedTexts(c, x) && HashOf(x[i]) == c.digest(t);
    HeadIsLink(c, x, i);
    ClosingTextApart(c, HeadOf(y), Head(x, i), i % TWO_TO_64, Payload(MembersOf(x[i])));
  }

  /**
   * The signature determines the whole history: two closed ledgers carry the same signature exactly when they hold
   * the same records, and no hash of a record passes as a signature, unless the two exhibit a collision.
   */
  lemma SignatureFixesHistory(c: Codec, a: seq<Line>, b: seq<Line>)
    requires c.Lawful() && Chained(c, Items(a)) && Chained(c, Items(b)) && Sealed(Items(a)) && Sealed(Items(b))
    requires c.CollisionFree(SignedTexts(c, Items(a)) + SignedTexts(c, Items(b)))
    ensures SignatureOf(Items(a)) == SignatureOf(Items(b)) <==> Records(Items(a)) == Records(Items(b))
    ensures forall i :: 0 <= i < RecordCount(Items(a)) ==>
              HashOf(Items(a)[i]) != SignatureOf(Items(a)) && HashOf(Items(a)[i]) != SignatureOf(Items(b))
  {
    hide Items, Chained, HashedTexts, ClosingText, IsDigest, HeadOf;
    var x, y := Items(a), Items(b);
    SealSigns(c, x);
    SealSigns(c, y);
    HeadHashFixesHistory(c, a, b);
    HeadOfIsLink(c, y);
    ClosingTextApart(c, HeadOf(x), HeadOf(y), 0, map[]);
    assert ClosingText(HeadOf(x)) in SignedTexts(c, x) && ClosingText(HeadOf(y)) in SignedTexts(c, y);
    forall i: nat | i < RecordCount(x)
      ensures HashOf(x[i]) != SignatureOf(x) && HashOf(x[i]) != SignatureOf(y)
    {
      NoRecordSigns(c, x, i, x);
      NoRecordSigns(c, x, i, y);
    }
  }

  lemma HeadOfIsLink(c: Codec, items: seq<Line>)
    requires c.Lawful() && Chained(c, items)
    ensures IsLink(HeadOf(items))
  {
    HeadIsLink(c, items, RecordCount(items));
  }

  // ---------- The lines of a session, spelled out ----------

  /** The hash before event k: over the hash before that, the number of the last event and its printed payload. */
  function EventHash(c: Codec, payloads: seq<Members>, k: nat): string
    requires k <= |payloads|
  {
    if k == 0 then "GENESIS"
    else
      var number := T.Decimal((k - 1) % 0x1_0000_0000_0000_0000);
      c.digest(EventHash(c, payloads, k - 1) + ":" + (number + ":" + c.print_(payloads[k - 1])))
  }

  function EventLine(c: Codec, payloads: seq<Members>, k: nat): Line
    requires k < |payloads|
  {
    Parsed(Object(map[
      "seq" := Number(k % 0x1_0000_0000_0000_0000),
      "prev_hash" := Text(EventHash(c, payloads, k)),
      "hash" := Text(EventHash(c, payloads, k + 1))] + payloads[k]))
  }

  function EventLines(c: Codec, payloads: seq<Members>): seq<Line> {
    seq(|payloads|, k requires 0 <= k < |payloads| => EventLine(c, payloads, k))
  }

  function SealLine(c: Codec, payloads: seq<Members>): Line {
    var n := |payloads|;
    Parsed(Object(map[
      "seq" := Number(n % 0x1_0000_0000_0000_0000),
      "prev_hash" := Text(EventHash(c, payloads, n)),
      "signature" := Text(c.digest("CLOSE:" + EventHash(c, payloads, n)))]))
  }

  lemma {:induction false} HashOfPrefix(c: Codec, payloads: seq<Members>, p: Members, k: nat)
    requires k <= |payloads|
    ensures EventHash(c, payloads + [p], k) == EventHash(c, payloads, k)
  {
    if k > 0 {
      HashOfPrefix(c, payloads, p, k - 1);
    }
  }

  lemma LinesOfPrefix(c: Codec, payloads: seq<Members>, p: Members)
    ensures EventLines(c, payloads + [p]) == EventLines(c, payloads) + [EventLine(c, payloads + [p], |payloads|)]
  {
    hide EventHash;
    forall k: nat | k < |payloads|
      ensures EventLine(c, payloads + [p], k) == EventLine(c, payloads, k)
    {
      HashOfPrefix(c, payloads, p, k);
      HashOfPrefix(c, payloads, p, k + 1);
    }
  }

  lemma {:induction false} RecordingsAppend(payloads: seq<Members>, p: Members)
    ensures Recordings(payloads + [p]) == Recordings(payloads) + [Op.Record(p)]
  {
    if payloads != [] {
      assert (payloads + [p])[1..] == payloads[1..] + [p];
      RecordingsAppend(payloads[1..], p);
    }
  }

  lemma RunOne(c: Codec, w: World, op: Op)
    ensures Run(c, w, [op]) == Step(c, w, op)
  {
    assert [op][1..] == [];
    assert Run(c, Step(c, w, op), []) == Step(c, w, op);
  }

  lemma HashWritten(c: Codec, payloads: seq<Members>, p: Members)
    ensures var n := |payloads|;
            EventHash(c, payloads + [p], n + 1) == c.digest(Canonical(c, EventHash(c, payloads, n), n % TWO_TO_64, p))
  {
    HashOfPrefix(c, payloads, p, |payloads|);
  }

  lemma LineWritten(c: Codec, payloads: seq<Members>, p: Members)
    ensures var n := |payloads|;
            EventLine(c, payloads + [p], n) == RecordLine(c, EventHash(c, payloads, n), n % TWO_TO_64, p)
  {
    hide EventHash, Canonical;
    HashWritten(c, payloads, p);
    HashOfPrefix(c, payloads, p, |payloads|);
  }

  lemma NextNumber(n: nat)
    ensures Next(n % TWO_TO_64) == (n + 1) % TWO_TO_64
  {
  }

  lemma RecordWritten(c: Codec, payloads: seq<Members>, p: Members)
    ensures var n := |payloads|;
            Step(c, World(EventLines(c, payloads), Some(Handle(n % TWO_TO_64, EventHash(c, payloads, n)))), Op.Record(p)) ==
            World(EventLines(c, payloads + [p]),
                  Some(Handle((n + 1) % TWO_TO_64, EventHash(c, payloads + [p], n + 1))))
  {
    hide EventLines, EventLine, EventHash, RecordLine, Canonical, Next;
    LinesOfPrefix(c, payloads, p);
    LineWritten(c, payloads, p);
    HashWritten(c, payloads, p);
    NextNumber(|payloads|);
  }

  lemma {:induction false} RecordingsWrite(c: Codec, payloads: seq<Members>)
    ensures var n := |payloads|;
            Run(c, FRESH, Recordings(payloads)) ==
            World(EventLines(c, payloads), Some(Handle(n % TWO_TO_64, EventHash(c, payloads, n))))
  {
    if payloads != [] {
      hide EventLines, EventHash, Run, Recordings, Step;
      var n := |payloads| - 1;
      var init, p := payloads[..n], payloads[n];
      assert payloads == init + [p];
      RecordingsWrite(c, init);
      RecordingsAppend(init, p);
      RunConcat(c, FRESH, Recordings(init), [Op.Record(p)]);
      RunOne(c, Run(c, FRESH, Recordings(init)), Op.Record(p));
      RecordWritten(c, init, p);
    }
  }

  /** Every line a session writes, with its members spelled out: the events in order, and the signature on the last. */
  lemma SessionLines(c: Codec, payloads: seq<Members>, sign: bool)
    ensures Session(c, payloads, sign) == EventLines(c, payloads) + if sign then [SealLine(c, payloads)] else []
  {
    hide EventLines, EventHash, Run, Recordings;
    RecordingsWrite(c, payloads);
    RunConcat(c, FRESH, Recordings(payloads), if sign then [Op.Sign] else []);
    if sign {
      RunOne(c, Run(c, FRESH, Recordings(payloads)), Op.Sign);
    } else {
      assert Recordings(payloads) + [] == Recordings(payloads);
      assert EventLines(c, payloads) + [] == EventLines(c, payloads);
    }
  }
}
