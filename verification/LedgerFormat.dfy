/** The records of an audit ledger: the envelopes, the texts that are hashed, and the verdicts of the verifier. */
module LedgerFormat {
  import opened Wrappers
  import opened Json
  import T = Text

  const GENESIS: string := "GENESIS"
  const SEQ: string := "seq"
  const PREV: string := "prev_hash"
  const HASH: string := "hash"
  const SIGNATURE: string := "signature"
  const RECORD_TYPE: string := "record_type"
  const SESSION_VERDICT: string := "SESSION_VERDICT"
  const MISSING_MARK: string := "Missing terminal record"

  /** The envelope keys a record payload has to stay clear of. */
  const RESERVED: set<string> := {SEQ, PREV, HASH}

  /** One line of the file after `trim`, with its text replaced by the value it parses to. */
  datatype Line = Blank | Malformed(message: string) | Parsed(value: Json)

  /**
   * SHA-256 in lower-case hexadecimal, and the printer of a JSON object with sorted keys.
   * Both stay uninterpreted; `Lawful` says all that is used of their shape.
   */
  datatype Codec = Codec(digest: string -> string, print_: Members -> string)
  {
    ghost predicate Lawful() {
      && (forall s :: IsDigest(digest(s)))
      && (forall a, b :: print_(a) == print_(b) ==> a == b)
    }

    /** No two of the given texts share a digest; asked only of finitely many texts. */
    ghost predicate CollisionFree(texts: set<string>) {
      forall s, t :: s in texts && t in texts && digest(s) == digest(t) ==> s == t
    }
  }

  predicate IsHex(c: char) {
    '0' <= c <= '9' || 'a' <= c <= 'f'
  }

  predicate IsDigest(s: string) {
    |s| == 64 && forall i :: 0 <= i < |s| ==> IsHex(s[i])
  }

  /** What `prev_hash` can hold: the genesis word or a digest. */
  predicate IsLink(s: string) {
    s == GENESIS || IsDigest(s)
  }

  // ---------- Hashed texts ----------

  function Canonical(c: Codec, prev: string, seqNo: nat, payload: Members): string {
    prev + ":" + (T.Decimal(seqNo) + ":" + c.print_(payload))
  }

  function Alternate(c: Codec, prev: string, seqNo: nat, payload: Members): string {
    T.Decimal(seqNo) + ":" + (prev + ":" + c.print_(payload))
  }

  function ClosingText(prev: string): string {
    "CLOSE:" + prev
  }

  // ---------- Envelopes ----------

  /** The flattened envelope: a payload member overrides an envelope member of the same name. */
  function RecordObject(c: Codec, prev: string, seqNo: nat, payload: Members): Members {
    map[SEQ := Number(seqNo), PREV := Text(prev), HASH := Text(c.digest(Canonical(c, prev, seqNo, payload)))] + payload
  }

  function RecordLine(c: Codec, prev: string, seqNo: nat, payload: Members): Line {
    Parsed(Object(RecordObject(c, prev, seqNo, payload)))
  }

  function SignatureLine(c: Codec, prev: string, seqNo: nat): Line {
    Parsed(Object(map[SEQ := Number(seqNo), PREV := Text(prev), SIGNATURE := Text(c.digest(ClosingText(prev)))]))
  }

  predicate IsSignature(line: Line) {
    line.Parsed? && line.value.Object? && HASH !in line.value.members && SIGNATURE in line.value.members
  }

  /** A record whose payload ends a session. */
  predicate IsVerdict(line: Line) {
    line.Parsed? && line.value.Object? && !IsSignature(line) &&
    AsStr(Get(line.value.members, RECORD_TYPE)) == Some(SESSION_VERDICT)
  }

  function Payload(o: Members): Members {
    o - RESERVED
  }

  // ---------- Verdicts ----------

  datatype Reason =
    | FileNotFound
    | ExtraneousRecord
    | ParseError(message: string)
    | NotAnObject
    | SignatureMissingPrev
    | SignatureMissingSeq
    | SignatureMismatch(expectedSeq: nat, expectedPrev: string, gotSeq: nat, gotPrev: string)
    | SignatureHashMismatch
    | MissingSeq
    | MissingPrev
    | MissingHash
    | SequenceBreak(expected: nat, got: nat)
    | ChainBreak
    | HashMismatch
    | EmptyLedger
    | MissingTerminal

  /**
   * Whether the text of a reason contains "Missing terminal record". Only one reason says so itself. A mismatched
   * signature quotes its link, which may say anything; the message of a parse error is left open as well, though a
   * JSON parser that reports only what it expected and where will never put the words into it.
   */
  predicate MentionsMark(r: Reason) {
    || r.MissingTerminal?
    || (r.ParseError? && T.Find(r.message, MISSING_MARK).Some?)
    || (r.SignatureMismatch? && T.Find(r.gotPrev, MISSING_MARK).Some?)
  }

  datatype Corruption = Corruption(
    lineNumber: nat,
    seqNo: Option<nat>,
    expectedHash: Option<string>,
    actualHash: Option<string>,
    reason: Reason)

  datatype Verification = Verification(
    isValid: bool,
    recordsVerified: nat,
    lastSeq: Option<nat>,
    lastHash: Option<string>,
    hasTerminal: bool,
    hasSignature: bool,
    corruption: Option<Corruption>)

  /** `u64` increment of a release build: it wraps. */
  function Next(n: nat): nat {
    (n + 1) % TWO_TO_64
  }

  // ---------- The two hash orders never meet ----------

  lemma LinkShape(s: string)
    requires IsLink(s)
    ensures ':' !in s && |s| > 0
    ensures forall n: nat :: n < TWO_TO_64 ==> s != T.Decimal(n)
  {
    forall n: nat | n < TWO_TO_64
      ensures s != T.Decimal(n)
    {
      SeqWidth(n);
      assert s == GENESIS ==> s[0] == 'G';
    }
  }

  /** A sequence number takes at most 20 digits. */
  lemma SeqWidth(n: nat)
    requires n < TWO_TO_64
    ensures |T.Decimal(n)| <= 20 && ':' !in T.Decimal(n)
  {
    T.TenToSum(10, 10);
    T.DecimalLength(n, 20);
  }

  /** Equal hashed texts have equal fields, whichever order each was written in. */
  lemma HashedTextInjective(c: Codec, p: string, m: nat, x: Members, q: string, n: nat, y: Members)
    requires c.Lawful() && IsLink(p) && IsLink(q) && m < TWO_TO_64 && n < TWO_TO_64
    ensures Canonical(c, p, m, x) == Canonical(c, q, n, y) ==> p == q && m == n && x == y
    ensures Alternate(c, p, m, x) == Alternate(c, q, n, y) ==> p == q && m == n && x == y
    ensures Canonical(c, p, m, x) != Alternate(c, q, n, y)
  {
    LinkShape(p);
    LinkShape(q);
    SeqWidth(m);
    SeqWidth(n);
    var dm, dn, px, py := T.Decimal(m), T.Decimal(n), c.print_(x), c.print_(y);
    if Canonical(c, p, m, x) == Canonical(c, q, n, y) {
      T.SplitAtColon(p, q, dm + ":" + px, dn + ":" + py);
      T.SplitAtColon(dm, dn, px, py);
      T.DecimalInjective(m, n);
    }
    if Alternate(c, p, m, x) == Alternate(c, q, n, y) {
      T.SplitAtColon(dm, dn, p + ":" + px, q + ":" + py);
      T.SplitAtColon(p, q, px, py);
      T.DecimalInjective(m, n);
    }
    if Canonical(c, p, m, x) == Alternate(c, q, n, y) {
      T.SplitAtColon(p, dn, dm + ":" + px, q + ":" + py);
    }
  }
}
