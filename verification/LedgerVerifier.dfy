/** The verifier of a ledger file: one pass over its lines that stops at the first line that does not chain. */
module LedgerVerifier {
  import opened Wrappers
  import opened Json
  import opened LedgerFormat
  import opened LedgerChain

  /** The variables of the pass between two lines. */
  datatype Progress = Progress(
    prev: string, seqNo: nat, verified: nat, lastHash: Option<string>, signed: bool, terminal: bool)

  datatype Scan = Running(p: Progress) | Halted(result: Verification)

  const START := Progress(GENESIS, 0, 0, None, false, false)

  function LastSeq(seqNo: nat): Option<nat> {
    if seqNo > 0 then Some(seqNo - 1) else None
  }

  function Halt(p: Progress, corruption: Corruption): Scan {
    Halted(Verification(false, p.verified, LastSeq(p.seqNo), p.lastHash, p.terminal, p.signed, Some(corruption)))
  }

  /** A signature envelope. */
  function ScanSignature(c: Codec, p: Progress, n: nat, o: Members): Scan {
    var prev := AsStr(Get(o, PREV));
    var seqNo := AsU64(Get(o, SEQ));
    if prev.None? then Halt(p, Corruption(n, Some(p.seqNo), None, None, SignatureMissingPrev))
    else if seqNo.None? then Halt(p, Corruption(n, Some(p.seqNo), None, None, SignatureMissingSeq))
    else if prev.value != p.prev || seqNo.value != p.seqNo then
      Halt(p, Corruption(n, seqNo, Some(p.prev), prev, SignatureMismatch(p.seqNo, p.prev, seqNo.value, prev.value)))
    else
      var expected := c.digest(ClosingText(p.prev));
      var actual := AsStr(Get(o, SIGNATURE));
      var text := if actual.Some? then actual.value else "";
      if text != expected then
        Halted(Verification(false, p.verified, LastSeq(p.seqNo), Some(p.prev), p.terminal, false,
                            Some(Corruption(n, Some(p.seqNo), Some(expected), Some(text), SignatureHashMismatch))))
      else Running(p.(signed := true))
  }

  /** A record; `terminal` was already set from its `record_type`. */
  function ScanRecord(c: Codec, p: Progress, n: nat, o: Members): Scan {
    var seqNo := AsU64(Get(o, SEQ));
    var prev := AsStr(Get(o, PREV));
    var hash := AsStr(Get(o, HASH));
    if seqNo.None? then Halt(p, Corruption(n, None, None, None, MissingSeq))
    else if prev.None? then Halt(p, Corruption(n, seqNo, None, None, MissingPrev))
    else if hash.None? then Halt(p, Corruption(n, seqNo, None, None, MissingHash))
    else if seqNo.value != p.seqNo then
      Halt(p, Corruption(n, seqNo, None, None, SequenceBreak(p.seqNo, seqNo.value)))
    else if prev.value != p.prev then Halt(p, Corruption(n, seqNo, Some(p.prev), prev, ChainBreak))
    else
      var recomputed := c.digest(Canonical(c, prev.value, seqNo.value, Payload(o)));
      var alternate := c.digest(Alternate(c, prev.value, seqNo.value, Payload(o)));
      if recomputed != hash.value && alternate != hash.value then
        Halt(p, Corruption(n, seqNo, Some(recomputed), hash, HashMismatch))
      else
        Running(Progress(hash.value, Next(p.seqNo), Next(p.verified), hash, p.signed, p.terminal))
  }

  /** One line of the file; `n` counts from 1. */
  function ScanLine(c: Codec, p: Progress, n: nat, line: Line): Scan {
    if line == Blank then Running(p)
    else if p.signed then
      Halt(p, Corruption(n, Some(p.seqNo), None, None, ExtraneousRecord))
    else match line
      case Malformed(message) => Halt(p, Corruption(n, Some(p.seqNo), None, None, ParseError(message)))
      case Parsed(Object(o)) =>
        if HASH !in o && SIGNATURE in o then ScanSignature(c, p, n, o)
        else
          var verdict := AsStr(Get(o, RECORD_TYPE)) == Some(SESSION_VERDICT);
          ScanRecord(c, p.(terminal := p.terminal || verdict), n, o)
      case _ => Halt(p, Corruption(n, Some(p.seqNo), None, None, NotAnObject))
  }

  function ScanLines(c: Codec, lines: seq<Line>): Scan {
    if lines == [] then Running(START)
    else
      match ScanLines(c, lines[..|lines| - 1])
      case Halted(r) => Halted(r)
      case Running(p) => ScanLine(c, p, |lines|, lines[|lines| - 1])
  }

  /** The verdict on a file whose lines all chain. */
  function Finish(p: Progress, n: nat): Verification {
    var isValid := p.seqNo > 0 && (p.terminal || p.signed);
    var corruption :=
      if isValid then None
      else if p.seqNo == 0 then Some(Corruption(0, None, None, None, EmptyLedger))
      else Some(Corruption(n, Some(p.seqNo - 1), None, None, MissingTerminal));
    Verification(isValid, p.verified, LastSeq(p.seqNo), p.lastHash, p.terminal, p.signed, corruption)
  }

  function Verify(c: Codec, file: Option<seq<Line>>): Verification {
    match file
    case None => Verification(false, 0, None, None, false, false, Some(Corruption(0, None, None, None, FileNotFound)))
    case Some(lines) =>
      match ScanLines(c, lines)
      case Halted(r) => r
      case Running(p) => Finish(p, |lines|)
  }

  // ---------- The loop ----------

  lemma {:induction false} HaltedStays(c: Codec, lines: seq<Line>, k: nat)
    requires k <= |lines| && ScanLines(c, lines[..k]).Halted?
    ensures ScanLines(c, lines) == ScanLines(c, lines[..k])
  {
    if k < |lines| {
      var shorter := lines[..|lines| - 1];
      assert shorter[..k] == lines[..k];
      HaltedStays(c, shorter, k);
    } else {
      assert lines[..k] == lines;
    }
  }

  /** The pass as the program runs it: it returns at the first line that does not chain. */
  method VerifyFileDetailed(c: Codec, file: Option<seq<Line>>) returns (r: Verification)
    ensures r == Verify(c, file)
  {
    if file.None? {
      return Verification(false, 0, None, None, false, false, Some(Corruption(0, None, None, None, FileNotFound)));
    }
    var lines := file.value;
    var expectedPrev, expectedSeq := GENESIS, 0;
    var seenSignature, hasTerminal := false, false;
    var recordsVerified, lastHash := 0, None;
    var lineNumber := 0;
    while lineNumber < |lines|
      invariant lineNumber <= |lines|
      invariant ScanLines(c, lines[..lineNumber]) ==
                Running(Progress(expectedPrev, expectedSeq, recordsVerified, lastHash, seenSignature, hasTerminal))
    {
      var line := lines[lineNumber];
      ghost var before := Progress(expectedPrev, expectedSeq, recordsVerified, lastHash, seenSignature, hasTerminal);
      assert lines[..lineNumber + 1][..lineNumber] == lines[..lineNumber];
      assert ScanLines(c, lines[..lineNumber + 1]) == ScanLine(c, before, lineNumber + 1, line);
      lineNumber := lineNumber + 1;
      if line == Blank {
        continue;
      }
      var corruption := None;
      if seenSignature {
        corruption := Some(Corruption(lineNumber, Some(expectedSeq), None, None, ExtraneousRecord));
      } else if line.Malformed? {
        corruption := Some(Corruption(lineNumber, Some(expectedSeq), None, None, ParseError(line.message)));
      } else if !line.value.Object? {
        corruption := Some(Corruption(lineNumber, Some(expectedSeq), None, None, NotAnObject));
      } else {
        var o := line.value.members;
        var seqNo, prev := AsU64(Get(o, SEQ)), AsStr(Get(o, PREV));
        if HASH !in o && SIGNATURE in o {
          if prev.None? {
            corruption := Some(Corruption(lineNumber, Some(expectedSeq), None, None, SignatureMissingPrev));
          } else if seqNo.None? {
            corruption := Some(Corruption(lineNumber, Some(expectedSeq), None, None, SignatureMissingSeq));
          } else if prev.value != expectedPrev || seqNo.value != expectedSeq {
            corruption := Some(Corruption(lineNumber, seqNo, Some(expectedPrev), prev,
                                          SignatureMismatch(expectedSeq, expectedPrev, seqNo.value, prev.value)));
          } else {
            var expectedSig := c.digest(ClosingText(expectedPrev));
            var sig := AsStr(Get(o, SIGNATURE));
            var actualSig := if sig.Some? then sig.value else "";
            if actualSig != expectedSig {
              r := Verification(false, recordsVerified, LastSeq(expectedSeq), Some(expectedPrev), hasTerminal, false,
                                Some(Corruption(lineNumber, Some(expectedSeq), Some(expectedSig), Some(actualSig),
                                                SignatureHashMismatch)));
              HaltedStays(c, lines, lineNumber);
              return;
            }
            seenSignature := true;
          }
        } else {
          if AsStr(Get(o, RECORD_TYPE)) == Some(SESSION_VERDICT) {
            hasTerminal := true;
          }
          var hash := AsStr(Get(o, HASH));
          if seqNo.None? {
            corruption := Some(Corruption(lineNumber, None, None, None, MissingSeq));
          } else if prev.None? {
            corruption := Some(Corruption(lineNumber, seqNo, None, None, MissingPrev));
          } else if hash.None? {
            corruption := Some(Corruption(lineNumber, seqNo, None, None, MissingHash));
          } else if seqNo.value != expectedSeq {
            corruption := Some(Corruption(lineNumber, seqNo, None, None, SequenceBreak(expectedSeq, seqNo.value)));
          } else if prev.value != expectedPrev {
            corruption := Some(Corruption(lineNumber, seqNo, Some(expectedPrev), prev, ChainBreak));
          } else {
            var recomputed := c.digest(Canonical(c, prev.value, seqNo.value, Payload(o)));
            var alternate := c.digest(Alternate(c, prev.value, seqNo.value, Payload(o)));
            if recomputed != hash.value && alternate != hash.value {
              corruption := Some(Corruption(lineNumber, seqNo, Some(recomputed), hash, HashMismatch));
            } else {
              expectedPrev, lastHash := hash.value, hash;
              expectedSeq, recordsVerified := Next(expectedSeq), Next(recordsVerified);
            }
          }
        }
      }
      if corruption.Some? {
        r := Verification(false, recordsVerified, LastSeq(expectedSeq), lastHash, hasTerminal, seenSignature, corruption);
        HaltedStays(c, lines, lineNumber);
        return;
      }
    }
    assert lines[..lineNumber] == lines;
    r := Finish(Progress(expectedPrev, expectedSeq, recordsVerified, lastHash, seenSignature, hasTerminal), lineNumber);
  }

  // ---------- The pass against the chain ----------

  /** What the variables of the pass are after a chain of items. */
  function ProgressOf(items: seq<Line>): Progress {
    var n := RecordCount(items);
    Progress(HeadOf(items), n % TWO_TO_64, n % TWO_TO_64, if n == 0 then None else Some(HeadOf(items)),
             Sealed(items), HasVerdict(items))
  }

  lemma VerdictStep(items: seq<Line>, line: Line)
    ensures HasVerdict(items + [line]) <==> HasVerdict(items) || IsVerdict(line)
  {
    var all := items + [line];
    assert all[|items|] == line;
    if HasVerdict(items) {
      var i :| 0 <= i < |items| && IsVerdict(items[i]);
      assert IsVerdict(all[i]);
    }
  }

  lemma SignatureInStep(c: Codec, p: Progress, n: nat, o: Members)
    requires c.Lawful()
    ensures if SignatureOn(c, p.prev, p.seqNo, o) then ScanSignature(c, p, n, o) == Running(p.(signed := true))
            else ScanSignature(c, p, n, o).Halted?
  {
    assert c.digest(ClosingText(p.prev)) != "";
  }

  lemma RecordInStep(c: Codec, p: Progress, n: nat, o: Members)
    ensures if RecordOn(c, p.prev, p.seqNo, o)
            then ScanRecord(c, p, n, o) == Running(Progress(AsStr(Get(o, HASH)).value, Next(p.seqNo), Next(p.verified),
                                                            AsStr(Get(o, HASH)), p.signed, p.terminal))
            else ScanRecord(c, p, n, o).Halted?
  {
  }

  /** What a signature or a record on the head makes of the pass. */
  lemma ProgressAfter(items: seq<Line>, line: Line)
    requires !Sealed(items) && line.Parsed? && line.value.Object?
    ensures ProgressOf(items + [line]) ==
            if IsSignature(line) then ProgressOf(items).(signed := true)
            else Progress(HashOf(line), Next(ProgressOf(items).seqNo), Next(ProgressOf(items).verified),
                          Some(HashOf(line)), false, ProgressOf(items).terminal || IsVerdict(line))
  {
    VerdictStep(items, line);
    assert Head(items + [line], |items|) == Head(items, |items|);
  }

  /** One line keeps the pass in step with the chain, or stops it exactly when the chain breaks. */
  lemma LineInStep(c: Codec, items: seq<Line>, n: nat, line: Line)
    requires c.Lawful() && Chained(c, items) && line != Blank
    ensures if Chained(c, items + [line]) then ScanLine(c, ProgressOf(items), n, line) == Running(ProgressOf(items + [line]))
            else ScanLine(c, ProgressOf(items), n, line).Halted?
  {
    var p := ProgressOf(items);
    ChainStep(c, items, line);
    assert !Sealed(items) ==> p.prev == HeadOf(items) && p.seqNo == |items| % TWO_TO_64;
    if !Sealed(items) && line.Parsed? && line.value.Object? {
      ProgressAfter(items, line);
      if IsSignature(line) {
        SignatureInStep(c, p, n, line.value.members);
      } else {
        RecordInStep(c, p.(terminal := p.terminal || IsVerdict(line)), n, line.value.members);
      }
    }
  }

  /** The pass keeps running exactly as long as the lines chain, and then its variables say what the chain says. */
  lemma {:induction false} PassIsChain(c: Codec, lines: seq<Line>)
    requires c.Lawful()
    ensures ScanLines(c, lines).Running? <==> Chained(c, Items(lines))
    ensures Chained(c, Items(lines)) ==> ScanLines(c, lines) == Running(ProgressOf(Items(lines)))
  {
    if lines != [] {
      var init, line := lines[..|lines| - 1], lines[|lines| - 1];
      PassIsChain(c, init);
      if Chained(c, Items(init)) && line != Blank {
        LineInStep(c, Items(init), |lines|, line);
      } else if line != Blank {
        ChainStep(c, Items(init), line);
      }
    }
  }

  lemma {:induction false} VerdictOnChain(c: Codec, lines: seq<Line>)
    requires c.Lawful() && Chained(c, Items(lines))
    ensures Verify(c, Some(lines)) == Finish(ProgressOf(Items(lines)), |lines|)
  {
    hide Chained, Items, ProgressOf, Finish, ScanLines;
    PassIsChain(c, lines);
  }
}
