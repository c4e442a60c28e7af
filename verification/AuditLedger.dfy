/** The writer: a handle on a ledger file that is recovered from the file itself. */
module AuditLedgers {
  import opened Wrappers
  import opened Json
  import opened LedgerFormat
  import opened LedgerVerifier

  /** The fields of an open handle. */
  datatype Handle = Handle(seqNo: nat, prev: string)

  datatype OpenError = LedgerClosed | Corrupted(reason: Reason)

  /** What `new` makes of the file: the handle it returns, or why it refuses. */
  function Recover(c: Codec, file: Option<seq<Line>>): Result<Handle, OpenError> {
    if file.None? || file.value == [] then Success(Handle(0, GENESIS))
    else
      var r := Verify(c, file);
      if r.hasSignature || r.hasTerminal then Failure(LedgerClosed)
      else if !r.isValid && r.corruption.Some? && !MentionsMark(r.corruption.value.reason)
      then Failure(Corrupted(r.corruption.value.reason))
      else Success(Handle(if r.lastSeq.Some? then Next(r.lastSeq.value) else 0,
                          if r.lastHash.Some? then r.lastHash.value else GENESIS))
  }

  function Contents(file: Option<seq<Line>>): seq<Line> {
    if file.Some? then file.value else []
  }

  // ---------- One operation ----------

  datatype Op = Record(payload: Members) | Reopen | Sign

  /** The file and the handle, if one is open. */
  datatype World = World(lines: seq<Line>, handle: Option<Handle>)

  const FRESH := World([], Some(Handle(0, GENESIS)))

  function Step(c: Codec, w: World, op: Op): World {
    match op
    case Record(payload) =>
      if w.handle.None? then w
      else
        var h := w.handle.value;
        World(w.lines + [RecordLine(c, h.prev, h.seqNo, payload)],
              Some(Handle(Next(h.seqNo), c.digest(Canonical(c, h.prev, h.seqNo, payload)))))
    case Sign =>
      if w.handle.None? then w
      else World(w.lines + [SignatureLine(c, w.handle.value.prev, w.handle.value.seqNo)], None)
    case Reopen =>
      var r := Recover(c, Some(w.lines));
      World(w.lines, if r.Success? then Some(r.value) else None)
  }

  // ---------- The program ----------

  /** A file on disk; None when it does not exist. */
  class LogFile {
    var content: Option<seq<Line>>
  }

  class AuditLedger {
    const codec: Codec
    const log: LogFile
    var seqNo: nat
    var prevHash: string

    constructor (c: Codec, log: LogFile, seqNo: nat, prevHash: string)
      ensures this.codec == c && this.log == log && this.seqNo == seqNo && this.prevHash == prevHash
    {
      this.codec, this.log, this.seqNo, this.prevHash := c, log, seqNo, prevHash;
    }

    /** The file and this handle, as one value. */
    function State(): World
      reads this, log
    {
      World(Contents(log.content), Some(Handle(seqNo, prevHash)))
    }

    /** Creates the file or resumes from it; a refusal leaves the file alone. */
    static method Open(c: Codec, log: LogFile) returns (r: Result<AuditLedger, OpenError>)
      modifies log
      ensures Recover(c, old(log.content)).Failure? ==>
                r == Failure(Recover(c, old(log.content)).error) && log.content == old(log.content)
      ensures Recover(c, old(log.content)).Success? ==>
                && r.Success? && fresh(r.value) && r.value.codec == c && r.value.log == log
                && log.content == Some(Contents(old(log.content)))
                && r.value.State() == Step(c, World(Contents(old(log.content)), None), Reopen)
    {
      var seqNo, prevHash := 0, GENESIS;
      if log.content.Some? && |log.content.value| > 0 {
        var v := VerifyFileDetailed(c, log.content);
        if v.hasSignature || v.hasTerminal {
          return Failure(LedgerClosed);
        }
        if !v.isValid && v.corruption.Some? {
          if !MentionsMark(v.corruption.value.reason) {
            return Failure(Corrupted(v.corruption.value.reason));
          }
        }
        if v.lastSeq.Some? {
          seqNo := Next(v.lastSeq.value);
        }
        if v.lastHash.Some? {
          prevHash := v.lastHash.value;
        }
      }
      log.content := Some(Contents(log.content));
      var ledger := new AuditLedger(c, log, seqNo, prevHash);
      r := Success(ledger);
    }

    /** Appends one record and moves the handle onto its hash. */
    method RecordEvent(payload: Members) returns (hash: string)
      modifies this`seqNo, this`prevHash, log
      ensures log.content.Some? && State() == Step(codec, old(State()), Record(payload))
      ensures hash == prevHash
    {
      hash := codec.digest(Canonical(codec, prevHash, seqNo, payload));
      var envelope := map[SEQ := Number(seqNo), PREV := Text(prevHash), HASH := Text(hash)] + payload;
      log.content := Some(Contents(log.content) + [Parsed(Object(envelope))]);
      prevHash := hash;
      seqNo := Next(seqNo);
    }

    /** Appends the signature; the program consumes the handle here. */
    method SignAndClose() returns (sig: string)
      modifies log
      ensures log.content.Some? && World(log.content.value, None) == Step(codec, old(State()), Sign)
      ensures sig == codec.digest(ClosingText(prevHash))
    {
      sig := codec.digest(ClosingText(prevHash));
      var envelope := map[SEQ := Number(seqNo), PREV := Text(prevHash), SIGNATURE := Text(sig)];
      log.content := Some(Contents(log.content) + [Parsed(Object(envelope))]);
    }
  }
}
