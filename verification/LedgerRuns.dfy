/** Whole runs of a ledger: recording, dropping and reopening the handle, and closing. */
module LedgerRuns {
  import opened Wrappers
  import opened Json
  import opened LedgerFormat
  import opened LedgerChain
  import opened LedgerVerifier
  import opened LedgerIntegrity
  import opened AuditLedgers
  import T = Text

  // ---------- What `new` recovers ----------

  /** A mark of closure, once the pass has seen it, is in whatever verdict the pass ends with. */
  lemma MarkReachesVerdict(c: Codec, p: Progress, n: nat, line: Line)
    requires (p.terminal || p.signed) && ScanLine(c, p, n, line).Halted?
    ensures var r := ScanLine(c, p, n, line).result; r.hasTerminal || r.hasSignature
  {
  }

  lemma ClosedGrows(c: Codec, items: seq<Line>, k: nat)
    requires Chained(c, items) && k <= |items| && Closed(items[..k])
    ensures Closed(items)
  {
    ChainPrefix(c, items, k);
    if Sealed(items[..k]) {
      assert items[..k] == items;
    } else {
      var i :| 0 <= i < k && IsVerdict(items[..k][i]);
      assert IsVerdict(items[i]);
    }
  }

  /**
   * Closing freezes the ledger: whatever follows a chained prefix that holds a verdict or a signature, `new`
   * refuses the file as closed.
   */
  lemma ClosedStaysClosed(c: Codec, lines: seq<Line>, k: nat)
    requires c.Lawful() && k <= |lines| && Chained(c, Items(lines[..k])) && Closed(Items(lines[..k]))
    ensures Recover(c, Some(lines)) == Failure(LedgerClosed)
  {
    var m := ChainedPrefix(c, lines);
    ChainedPrefixIsLongest(c, lines, k);
    var longest := lines[..m];
    assert longest[..k] == lines[..k];
    ItemsPrefix(longest, k);
    ClosedGrows(c, Items(longest), |Items(lines[..k])|);
    if m < |lines| {
      PassStops(c, lines);
      MarkReachesVerdict(c, ProgressOf(Items(longest)), m + 1, lines[m]);
    } else {
      assert longest == lines;
      PassIsChain(c, lines);
    }
  }

  /** An open chain gives back the number and the link its next record needs. */
  lemma RecoverFromChain(c: Codec, lines: seq<Line>)
    requires c.Lawful() && Chained(c, Items(lines)) && !Closed(Items(lines))
    ensures var n := |Items(lines)| % TWO_TO_64;
            Recover(c, Some(lines)) ==
            if lines != [] && n == 0 then Failure(Corrupted(EmptyLedger))
            else Success(Handle(n, HeadOf(Items(lines))))
  {
    hide Chained, ScanLines;
    VerdictOnChain(c, lines);
    NextOfLast(|Items(lines)| % TWO_TO_64);
  }

  lemma NextOfLast(n: nat)
    requires n < TWO_TO_64
    ensures n > 0 ==> Next(n - 1) == n
  {
  }

  /**
   * A line whose diagnosis quotes the words `new` looks for: its parse error does, or it is a signature with a
   * number and a link, not those expected, whose link holds the words.
   */
  ghost predicate QuotesMark(line: Line, prev: string, seqNo: nat) {
    match line
    case Malformed(message) => T.Contains(message, "Missing terminal record")
    case Parsed(Object(o)) =>
      && IsSignature(line)
      && AsStr(Get(o, PREV)).Some? && AsU64(Get(o, SEQ)).Some?
      && (AsStr(Get(o, PREV)).value != prev || AsU64(Get(o, SEQ)).value != seqNo)
      && T.Contains(AsStr(Get(o, PREV)).value, "Missing terminal record")
    case _ => false
  }

  lemma FoundMeansContained(text: string, needle: string)
    ensures T.Find(text, needle).Some? <==> T.Contains(text, needle)
  {
    hide T.OccursAt, T.FindFrom;
  }

  lemma MarkMeansContained(text: string)
    ensures T.Find(text, MISSING_MARK).Some? <==> T.Contains(text, "Missing terminal record")
  {
    FoundMeansContained(text, MISSING_MARK);
  }

  /** Which lines on top of an unclosed chain stop the pass with such a diagnosis. */
  lemma StopQuotes(c: Codec, p: Progress, n: nat, line: Line)
    requires ScanLine(c, p, n, line).Halted? && !p.signed && !p.terminal
    ensures var r := ScanLine(c, p, n, line).result;
            && r.corruption.Some? && !r.isValid
            && (MentionsMark(r.corruption.value.reason) <==> QuotesMark(line, p.prev, p.seqNo))
            && (r.hasTerminal <==> IsVerdict(line)) && !r.hasSignature
            && (QuotesMark(line, p.prev, p.seqNo) ==>
                  !r.hasTerminal && r.lastSeq == LastSeq(p.seqNo) && r.lastHash == p.lastHash)
  {
    hide T.Find, T.Contains, MISSING_MARK, Canonical, Alternate;
    match line {
      case Malformed(message) => MarkMeansContained(message);
      case Parsed(Object(o)) =>
        if AsStr(Get(o, PREV)).Some? {
          MarkMeansContained(AsStr(Get(o, PREV)).value);
        }
      case _ =>
    }
  }

  /**
   * A file that breaks is opened all the same exactly when the part that chains is not closed and the line after it
   * quotes the words; the handle then stands on the part that chains. Otherwise it is refused as closed when that part
   * is closed or the line is a verdict, and as corrupted, with the reason of the verifier, when not.
   */
  lemma BrokenFileOpens(c: Codec, lines: seq<Line>)
    requires c.Lawful() && !Chained(c, Items(lines))
    ensures var k := ChainedPrefix(c, lines);
            && k < |lines|
            && var kept := Items(lines[..k]);
               var n := |kept| % TWO_TO_64;
               if !Closed(kept) && QuotesMark(lines[k], HeadOf(kept), n)
               then Recover(c, Some(lines)) == Success(Handle(n, HeadOf(kept)))
               else if Closed(kept) || IsVerdict(lines[k]) then Recover(c, Some(lines)) == Failure(LedgerClosed)
               else
                 && Verify(c, Some(lines)).corruption.Some?
                 && Recover(c, Some(lines)) == Failure(Corrupted(Verify(c, Some(lines)).corruption.value.reason))
  {
    hide Chained, ScanLine, ScanLines, Items, ChainedPrefix, HeadOf, Head, Verify, QuotesMark, MentionsMark;
    assert lines[..|lines|] == lines;
    ChainedPrefixIsLongest(c, lines, |lines|);
    PassStops(c, lines);
    var k := ChainedPrefix(c, lines);
    var kept := Items(lines[..k]);
    var p := ProgressOf(kept);
    NextOfLast(|kept| % TWO_TO_64);
    if Closed(kept) {
      MarkReachesVerdict(c, p, k + 1, lines[k]);
    } else {
      HeadWhenEmpty(kept);
      StopQuotes(c, p, k + 1, lines[k]);
    }
  }

  lemma HeadWhenEmpty(items: seq<Line>)
    ensures items == [] ==> HeadOf(items) == GENESIS
  {
  }

  /** Such a file: one signature line whose link is the text itself. */
  lemma BrokenFileOpensExample(c: Codec)
    requires c.Lawful()
    ensures var forged := Parsed(Object(map[SEQ := Number(0), PREV := Text(MISSING_MARK), SIGNATURE := Null]));
            !Verify(c, Some([forged])).isValid && Recover(c, Some([forged])) == Success(Handle(0, GENESIS))
  {
    var forged := Parsed(Object(map[SEQ := Number(0), PREV := Text(MISSING_MARK), SIGNATURE := Null]));
    var lines := [forged];
    assert lines[..0] == [];
    assert ScanLines(c, lines) == ScanLine(c, START, 1, forged);
    assert MISSING_MARK[0..|MISSING_MARK|] == MISSING_MARK;
    assert MISSING_MARK[0] != GENESIS[0];
  }

  // ---------- Runs ----------

  function Run(c: Codec, w: World, ops: seq<Op>): World
    decreases |ops|
  {
    if ops == [] then w else Run(c, Step(c, w, ops[0]), ops[1..])
  }

  predicate ClearOfEnvelope(payload: Members) {
    payload.Keys !! {"seq", "prev_hash", "hash"}
  }

  predicate ClearOps(ops: seq<Op>) {
    forall i :: 0 <= i < |ops| && ops[i].Record? ==> ClearOfEnvelope(ops[i].payload)
  }

  predicate Solid(lines: seq<Line>) {
    forall i :: 0 <= i < |lines| ==> lines[i] != Blank
  }

  /** The file chains, has no blank line, and an open handle stands on its head. */
  ghost predicate InStep(c: Codec, w: World) {
    && Chained(c, w.lines)
    && Solid(w.lines)
    && (w.handle.Some? ==> !Sealed(w.lines) && w.handle == Some(Handle(|w.lines| % TWO_TO_64, HeadOf(w.lines))))
  }

  /** A record the writer appends is one the verifier accepts, if its payload keeps clear of the envelope. */
  lemma WrittenRecord(c: Codec, prev: string, seqNo: nat, payload: Members)
    requires seqNo < TWO_TO_64 && ClearOfEnvelope(payload)
    ensures var o := RecordObject(c, prev, seqNo, payload);
            && Payload(o) == payload && RecordOn(c, prev, seqNo, o) && HASH in o
            && HashOf(RecordLine(c, prev, seqNo, payload)) == c.digest(Canonical(c, prev, seqNo, payload))
  {
    var o := RecordObject(c, prev, seqNo, payload);
    assert SEQ in RESERVED && PREV in RESERVED && HASH in RESERVED;
    assert SEQ[0] != PREV[0] && SEQ[0] != HASH[0] && PREV[0] != HASH[0];
    assert Payload(o) == payload;
  }

  lemma WrittenSignature(c: Codec, prev: string, seqNo: nat)
    requires seqNo < TWO_TO_64
    ensures var line := SignatureLine(c, prev, seqNo);
            IsSignature(line) && SignatureOn(c, prev, seqNo, line.value.members)
  {
    assert |SEQ| == 3 && |PREV| == 9 && |HASH| == 4 && |SIGNATURE| == 9 && PREV[0] != SIGNATURE[0];
  }

  lemma RecordMovesHead(items: seq<Line>, line: Line)
    requires !Sealed(items) && !IsSignature(line)
    ensures !Sealed(items + [line]) && HeadOf(items + [line]) == HashOf(line)
    ensures |items + [line]| % TWO_TO_64 == Next(|items| % TWO_TO_64)
  {
  }

  lemma LineKeeps(c: Codec, w: World, line: Line)
    requires InStep(c, w) && w.handle.Some? && line.Parsed? && line.value.Object?
    requires if IsSignature(line) then SignatureOn(c, w.handle.value.prev, w.handle.value.seqNo, line.value.members)
             else RecordOn(c, w.handle.value.prev, w.handle.value.seqNo, line.value.members)
    ensures Chained(c, w.lines + [line]) && Solid(w.lines + [line])
  {
    ChainStep(c, w.lines, line);
  }

  lemma StepKeeps(c: Codec, w: World, op: Op)
    requires c.Lawful() && InStep(c, w)
    requires op.Record? ==> ClearOfEnvelope(op.payload)
    ensures InStep(c, Step(c, w, op))
  {
    match op
    case Record(payload) =>
      if w.handle.Some? {
        var h := w.handle.value;
        WrittenRecord(c, h.prev, h.seqNo, payload);
        LineKeeps(c, w, RecordLine(c, h.prev, h.seqNo, payload));
        RecordMovesHead(w.lines, RecordLine(c, h.prev, h.seqNo, payload));
      }
    case Sign =>
      if w.handle.Some? {
        var h := w.handle.value;
        WrittenSignature(c, h.prev, h.seqNo);
        LineKeeps(c, w, SignatureLine(c, h.prev, h.seqNo));
      }
    case Reopen =>
      ItemsOfSolid(w.lines);
      assert w.lines[..|w.lines|] == w.lines;
      if Closed(w.lines) {
        ClosedStaysClosed(c, w.lines, |w.lines|);
      } else {
        RecoverFromChain(c, w.lines);
      }
  }

  /** Every reachable state of a ledger, over any run of records, reopenings and closings, is in step. */
  lemma {:induction false} RunKeeps(c: Codec, w: World, ops: seq<Op>)
    requires c.Lawful() && InStep(c, w) && ClearOps(ops)
    ensures InStep(c, Run(c, w, ops))
    decreases |ops|
  {
    if ops != [] {
      StepKeeps(c, w, ops[0]);
      assert forall i :: 0 <= i < |ops[1..]| ==> ops[1..][i] == ops[i + 1];
      RunKeeps(c, Step(c, w, ops[0]), ops[1..]);
    }
  }

  /** Writer and verifier agree on every run: nothing the writer leaves behind is ever reported as tampered. */
  lemma WriterAndVerifierAgree(c: Codec, ops: seq<Op>)
    requires c.Lawful() && ClearOps(ops)
    ensures var lines := Run(c, FRESH, ops).lines;
            var r := Verify(c, Some(lines));
            var n := RecordCount(lines);
            && r.recordsVerified == n % TWO_TO_64
            && (r.isValid <==> n % TWO_TO_64 > 0 && Closed(lines))
            && (r.corruption.Some? ==> r.corruption.value.reason ==
                                       if n % TWO_TO_64 == 0 then EmptyLedger else MissingTerminal)
  {
    RunKeeps(c, FRESH, ops);
    ItemsOfSolid(Run(c, FRESH, ops).lines);
    VerdictOnChain(c, Run(c, FRESH, ops).lines);
  }

  // ---------- Sessions ----------

  predicate IsVerdictPayload(payload: Members) {
    Get(payload, "record_type") == Some(Text("SESSION_VERDICT"))
  }

  predicate Closes(op: Op) {
    op.Sign? || (op.Record? && IsVerdictPayload(op.payload))
  }

  function Recordings(payloads: seq<Members>): seq<Op> {
    if payloads == [] then [] else [Record(payloads[0])] + Recordings(payloads[1..])
  }

  /** What one uninterrupted session leaves in the file. */
  function Session(c: Codec, payloads: seq<Members>, sign: bool): seq<Line> {
    Run(c, FRESH, Recordings(payloads) + if sign then [Sign] else []).lines
  }

  lemma VerdictWritten(c: Codec, prev: string, seqNo: nat, payload: Members)
    requires ClearOfEnvelope(payload)
    ensures var line := RecordLine(c, prev, seqNo, payload);
            !IsSignature(line) && (IsVerdict(line) <==> IsVerdictPayload(payload))
  {
    assert HASH in RESERVED;
    assert |RECORD_TYPE| == 11 && |SEQ| == 3 && |PREV| == 9 && |HASH| == 4;
  }

  /** The line carries the payload, and closes a session just when the payload does. */
  predicate Mirrors(line: Line, payload: Members) {
    !IsSignature(line) && Payload(MembersOf(line)) == payload && (IsVerdict(line) <==> IsVerdictPayload(payload))
  }

  predicate AllMirror(lines: seq<Line>, payloads: seq<Members>) {
    |lines| == |payloads| && forall i :: 0 <= i < |lines| ==> Mirrors(lines[i], payloads[i])
  }

  lemma {:induction false} RunConcat(c: Codec, w: World, a: seq<Op>, b: seq<Op>)
    ensures Run(c, w, a + b) == Run(c, Run(c, w, a), b)
    decreases |a|
  {
    if a == [] {
      assert a + b == b;
    } else {
      assert (a + b)[1..] == a[1..] + b;
      RunConcat(c, Step(c, w, a[0]), a[1..], b);
    }
  }

  /** A session from any open state adds one line a payload, in order. */
  lemma {:induction false} RecordingsAdd(c: Codec, w: World, payloads: seq<Members>)
    requires c.Lawful() && InStep(c, w) && w.handle.Some?
    requires forall i :: 0 <= i < |payloads| ==> ClearOfEnvelope(payloads[i])
    ensures var end := Run(c, w, Recordings(payloads));
            && InStep(c, end) && end.handle.Some? && w.lines <= end.lines
            && AllMirror(end.lines[|w.lines|..], payloads)
    decreases |payloads|
  {
    hide Chained, HeadOf, Head, RecordOn, IsVerdict, IsVerdictPayload, Payload, Solid;
    if payloads != [] {
      var h, next := w.handle.value, Step(c, w, Record(payloads[0]));
      var line := RecordLine(c, h.prev, h.seqNo, payloads[0]);
      StepKeeps(c, w, Record(payloads[0]));
      WrittenRecord(c, h.prev, h.seqNo, payloads[0]);
      VerdictWritten(c, h.prev, h.seqNo, payloads[0]);
      RecordingsAdd(c, next, payloads[1..]);
      assert Recordings(payloads)[1..] == Recordings(payloads[1..]);
      MirrorGrows(w.lines, line, payloads, Run(c, w, Recordings(payloads)).lines);
    }
  }

  lemma MirrorGrows(before: seq<Line>, line: Line, payloads: seq<Members>, end: seq<Line>)
    requires payloads != [] && Mirrors(line, payloads[0]) && before + [line] <= end
    requires AllMirror(end[|before| + 1..], payloads[1..])
    ensures before <= end && AllMirror(end[|before|..], payloads)
  {
    hide Mirrors;
    var rest := end[|before| + 1..];
    assert end[|before|] == (before + [line])[|before|];
    forall i | 0 <= i < |payloads|
      ensures Mirrors(end[|before|..][i], payloads[i])
    {
      assert i > 0 ==> end[|before|..][i] == rest[i - 1] && payloads[i] == payloads[1..][i - 1];
    }
  }

  /**
   * A session is verified record by record: the count is the number of events, the payloads are the events, and
   * the file is valid exactly when there is one and the session was closed.
   */
  lemma SessionVerifies(c: Codec, payloads: seq<Members>, sign: bool)
    requires c.Lawful() && forall i :: 0 <= i < |payloads| ==> ClearOfEnvelope(payloads[i])
    ensures var lines := Session(c, payloads, sign);
            var r := Verify(c, Some(lines));
            && r.recordsVerified == |payloads| % TWO_TO_64
            && RecordCount(lines) == |payloads| && AllMirror(Records(lines), payloads)
            && r.hasSignature == sign
            && (r.hasTerminal <==> exists i :: 0 <= i < |payloads| && IsVerdictPayload(payloads[i]))
            && (r.isValid <==> |payloads| % TWO_TO_64 > 0 && (r.hasTerminal || r.hasSignature))
  {
    var ops := if sign then [Sign] else [];
    var end, lines := Run(c, FRESH, Recordings(payloads)), Session(c, payloads, sign);
    RecordingsAdd(c, FRESH, payloads);
    RunConcat(c, FRESH, Recordings(payloads), ops);
    assert end.lines[0..] == end.lines;
    if sign {
      var h := end.handle.value;
      var signature := SignatureLine(c, h.prev, h.seqNo);
      StepKeeps(c, end, Sign);
      WrittenSignature(c, h.prev, h.seqNo);
      assert lines == end.lines + [signature];
      assert Records(lines) == end.lines;
      VerdictStep(end.lines, signature);
    } else {
      assert lines == end.lines && Records(lines) == lines;
    }
    VerdictsMirror(end.lines, payloads);
    ItemsOfSolid(lines);
    VerdictOnChain(c, lines);
  }

  lemma VerdictsMirror(lines: seq<Line>, payloads: seq<Members>)
    requires AllMirror(lines, payloads)
    ensures HasVerdict(lines) <==> exists i :: 0 <= i < |payloads| && IsVerdictPayload(payloads[i])
  {
    if i :| 0 <= i < |payloads| && IsVerdictPayload(payloads[i]) {
      assert IsVerdict(lines[i]);
    }
  }

  // ---------- Reopening ----------

  predicate ReopensBeforeClosing(ops: seq<Op>) {
    forall i, j :: 0 <= i < j < |ops| && Closes(ops[i]) ==> !ops[j].Reopen?
  }

  function WithoutReopens(ops: seq<Op>): seq<Op> {
    if ops == [] then []
    else if ops[0].Reopen? then WithoutReopens(ops[1..])
    else [ops[0]] + WithoutReopens(ops[1..])
  }

  lemma {:induction false} NothingToDrop(ops: seq<Op>)
    requires forall i :: 0 <= i < |ops| ==> !ops[i].Reopen?
    ensures WithoutReopens(ops) == ops
  {
    if ops != [] {
      NothingToDrop(ops[1..]);
    }
  }

  /** Before the ledger is closed, dropping the handle and calling `new` changes neither the file nor the handle. */
  lemma ReopenIsInvisible(c: Codec, w: World)
    requires c.Lawful() && InStep(c, w) && w.handle.Some? && !Closed(w.lines)
    requires |w.lines| < TWO_TO_64
    ensures Step(c, w, Reopen) == w
  {
    ItemsOfSolid(w.lines);
    RecoverFromChain(c, w.lines);
  }

  lemma {:induction false} ReopensVanish(c: Codec, w: World, ops: seq<Op>)
    requires c.Lawful() && InStep(c, w) && w.handle.Some? && !Closed(w.lines)
    requires ClearOps(ops) && ReopensBeforeClosing(ops) && |w.lines| + |ops| < TWO_TO_64
    ensures Run(c, w, ops) == Run(c, w, WithoutReopens(ops))
    decreases |ops|
  {
    if ops != [] {
      var op, rest := ops[0], ops[1..];
      assert forall i :: 0 <= i < |rest| ==> rest[i] == ops[i + 1];
      StepKeeps(c, w, op);
      if op.Reopen? {
        ReopenIsInvisible(c, w);
        ReopensVanish(c, w, rest);
      } else {
        assert ([op] + WithoutReopens(rest))[1..] == WithoutReopens(rest);
        if Closes(op) {
          NothingToDrop(rest);
        } else {
          var h := w.handle.value;
          VerdictWritten(c, h.prev, h.seqNo, op.payload);
          VerdictStep(w.lines, RecordLine(c, h.prev, h.seqNo, op.payload));
          ReopensVanish(c, Step(c, w, op), rest);
        }
      }
    }
  }

  /** Any interleaving of reopenings before the close writes the file one uninterrupted session writes. */
  lemma {:induction false} ReopensAreInvisible(c: Codec, ops: seq<Op>)
    requires c.Lawful() && ClearOps(ops) && ReopensBeforeClosing(ops) && |ops| < TWO_TO_64
    ensures Run(c, FRESH, ops) == Run(c, FRESH, WithoutReopens(ops))
  {
    ReopensVanish(c, FRESH, ops);
  }

  // ---------- The keys a payload must not use ----------

  /**
   * After one record the verifier's state is the writer's exactly when the payload keeps clear of the envelope;
   * the writer itself does not check this.
   */
  lemma PayloadMustStayClear(c: Codec, w: World, payload: Members)
    requires c.Lawful() && InStep(c, w) && w.handle.Some?
    requires var h := w.handle.value;
             c.CollisionFree({Canonical(c, h.prev, h.seqNo, payload)}
                             + TextsOn(c, h.prev, h.seqNo, RecordObject(c, h.prev, h.seqNo, payload)))
    ensures InStep(c, Step(c, w, Record(payload))) <==> ClearOfEnvelope(payload)
  {
    var h, next := w.handle.value, Step(c, w, Record(payload));
    if ClearOfEnvelope(payload) {
      StepKeeps(c, w, Record(payload));
    }
    if InStep(c, next) {
      var o := RecordObject(c, h.prev, h.seqNo, payload);
      assert Parsed(Object(o)) == next.lines[|w.lines|];
      ChainStep(c, w.lines, Parsed(Object(o)));
      RecordMovesHead(w.lines, Parsed(Object(o)));
      HeadIsLink(c, w.lines, |w.lines|);
      assert HASH in o && RecordOn(c, h.prev, h.seqNo, o);
      var written := Canonical(c, h.prev, h.seqNo, payload);
      assert HashOf(Parsed(Object(o))) == c.digest(written);
      var texts := {written} + TextsOn(c, h.prev, h.seqNo, o);
      assert Canonical(c, h.prev, h.seqNo, Payload(o)) in texts && Alternate(c, h.prev, h.seqNo, Payload(o)) in texts;
      HashedTextInjective(c, h.prev, h.seqNo, payload, h.prev, h.seqNo, Payload(o));
      assert payload == Payload(o);
    }
  }

  /** A payload with a `hash` of its own that fits, and no other number or link than the writer's. */
  predicate BringsItsHash(c: Codec, h: Handle, payload: Members) {
    && (SEQ in payload ==> AsU64(Get(payload, SEQ)) == Some(h.seqNo))
    && (PREV in payload ==> AsStr(Get(payload, PREV)) == Some(h.prev))
    && HASH in payload && AsStr(Get(payload, HASH)).Some?
    && var hash := AsStr(Get(payload, HASH)).value;
       (hash == c.digest(Canonical(c, h.prev, h.seqNo, Payload(payload)))
        || hash == c.digest(Alternate(c, h.prev, h.seqNo, Payload(payload))))
  }

  lemma EnvelopeMembers(c: Codec, prev: string, seqNo: nat, payload: Members)
    ensures var o := RecordObject(c, prev, seqNo, payload);
            && HASH in o && Payload(o) == Payload(payload)
            && Get(o, SEQ) == (if SEQ in payload then Get(payload, SEQ) else Some(Number(seqNo)))
            && Get(o, PREV) == (if PREV in payload then Get(payload, PREV) else Some(Text(prev)))
            && Get(o, HASH) == (if HASH in payload then Get(payload, HASH)
                                else Some(Text(c.digest(Canonical(c, prev, seqNo, payload)))))
  {
    hide Canonical;
    assert SEQ[0] != PREV[0] && SEQ[0] != HASH[0] && PREV[0] != HASH[0];
  }

  /**
   * After one record the file alone still chains exactly when the payload keeps clear of the envelope or brings a
   * hash of its own that fits; in the second case the handle no longer stands on the head.
   */
  lemma RecordStillChains(c: Codec, w: World, payload: Members)
    requires c.Lawful() && InStep(c, w) && w.handle.Some?
    requires var h := w.handle.value;
             c.CollisionFree({Canonical(c, h.prev, h.seqNo, payload)} + TextsOn(c, h.prev, h.seqNo, payload))
    ensures Chained(c, Step(c, w, Record(payload)).lines) <==>
            ClearOfEnvelope(payload) || BringsItsHash(c, w.handle.value, payload)
  {
    hide Chained, Sealed, Head, Canonical, Alternate;
    var h := w.handle.value;
    var o := RecordObject(c, h.prev, h.seqNo, payload);
    EnvelopeMembers(c, h.prev, h.seqNo, payload);
    ChainStep(c, w.lines, Parsed(Object(o)));
    HandleIsLink(c, w);
    if HASH !in payload {
      var written, texts := Canonical(c, h.prev, h.seqNo, payload), TextsOn(c, h.prev, h.seqNo, payload);
      assert Canonical(c, h.prev, h.seqNo, Payload(payload)) in texts
        && Alternate(c, h.prev, h.seqNo, Payload(payload)) in texts;
      assert c.CollisionFree({written} + texts);
      HashedTextInjective(c, h.prev, h.seqNo, payload, h.prev, h.seqNo, Payload(payload));
      assert ClearOfEnvelope(payload) <==> payload == Payload(payload);
    }
  }

  lemma HandleIsLink(c: Codec, w: World)
    requires c.Lawful() && InStep(c, w) && w.handle.Some?
    ensures IsLink(w.handle.value.prev) && w.handle.value.seqNo == |w.lines| % TWO_TO_64
  {
    HeadIsLink(c, w.lines, |w.lines|);
  }
}
