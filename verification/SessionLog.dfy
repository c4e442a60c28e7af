/** Counting the violations in a session log. */
module SessionLog {
  import opened Wrappers
  import opened Json
  import opened Records
  import opened Tallies
  import T = Text

  /** A line of the log: ignored, an event, or some other JSON value. */
  datatype LogLine = Ignored | Typed(event: Event) | Untyped(value: Json)

  /** The key under which a violation is counted, one kind for each map. */
  datatype Violation =
    | Denial(path: string, comm: string, source: string)
    | Syscall(name: string, comm: string, source: string)
    | Network(host: string, port: nat)

  const SYSCALL_PREFIX: string := "syscall:"

  predicate StartsWith(s: string, prefix: string) {
    |prefix| <= |s| && s[..|prefix|] == prefix
  }

  /** A blocked attempt counts as a system call by its source or by its path. */
  function BlockedKey(comm: string, path: string, source: string): Violation {
    if T.Find(source, "seccomp").Some? || StartsWith(path, SYSCALL_PREFIX) || source == "syscall" then
      Syscall(if StartsWith(path, SYSCALL_PREFIX) then path[|SYSCALL_PREFIX|..] else path, comm, source)
    else Denial(path, comm, source)
  }

  function GetStr(o: Members, key: string, default: string): string {
    var v := AsStr(Get(o, key));
    if v.Some? then v.value else default
  }

  /** The type of an untyped event; empty when there is none. */
  function EventType(v: Json): string {
    if !v.Object? then ""
    else
      var e := Get(v.members, "event");
      var t := AsStr(if e.Some? then e else Get(v.members, "type"));
      if t.Some? then t.value else ""
  }

  predicate CountsAsEvent(line: LogLine) {
    line.Typed? || (line.Untyped? && EventType(line.value) != "")
  }

  function ClassifyUntyped(o: Members, eventType: string): Option<Violation> {
    if eventType == "blocked_attempt" then
      Some(BlockedKey(GetStr(o, "comm", "agent"), GetStr(o, "path", ""), GetStr(o, "source", "landlock")))
    else if eventType == "net_request" then
      var port, allowed := AsU64(Get(o, "port")), Get(o, "allowed");
      if allowed == Some(Json.Bool(false)) then
        Some(Network(GetStr(o, "host", ""), if port.Some? then port.value % 0x1_0000 else 0))
      else None
    else None
  }

  /** The violation a line reports, if any. */
  function Classify(line: LogLine): Option<Violation> {
    match line
    case Typed(BlockedAttempt(comm, path, source)) => Some(BlockedKey(comm, path, source))
    case Typed(NetRequest(host, port, allowed)) => if allowed then None else Some(Network(host, port))
    case Typed(NetQuotaExceeded(host)) => Some(Network(host, 0))
    case Untyped(v) => if v.Object? && EventType(v) != "" then ClassifyUntyped(v.members, EventType(v)) else None
    case _ => None
  }

  // ---------- Counting by definition ----------

  function Occurrences(lines: seq<LogLine>, v: Violation): nat {
    if lines == [] then 0
    else Occurrences(lines[..|lines| - 1], v) + if Classify(lines[|lines| - 1]) == Some(v) then 1 else 0
  }

  function Violations(lines: seq<LogLine>): nat {
    if lines == [] then 0
    else Violations(lines[..|lines| - 1]) + if Classify(lines[|lines| - 1]).Some? then 1 else 0
  }

  function Events(lines: seq<LogLine>): nat {
    if lines == [] then 0
    else Events(lines[..|lines| - 1]) + if CountsAsEvent(lines[|lines| - 1]) then 1 else 0
  }

  datatype Tally = Tally(
    denials: map<Violation, nat>,
    network: map<Violation, nat>,
    syscalls: map<Violation, nat>,
    events: nat)

  datatype Kind = Denials | Syscalls | Networks

  function KindOf(v: Violation): Kind {
    match v
    case Denial(_, _, _) => Denials
    case Syscall(_, _, _) => Syscalls
    case Network(_, _) => Networks
  }

  /** The map of one kind counts each violation of that kind as often as the log reports it, and nothing else. */
  ghost predicate CountsKind(m: map<Violation, nat>, lines: seq<LogLine>, kind: Kind) {
    && (forall v :: KindOf(v) == kind ==> Lookup(m, v) == Occurrences(lines, v))
    && (forall v :: v in m ==> KindOf(v) == kind)
  }

  ghost predicate CountsLog(t: Tally, lines: seq<LogLine>) {
    && CountsKind(t.denials, lines, Denials)
    && CountsKind(t.syscalls, lines, Syscalls)
    && CountsKind(t.network, lines, Networks)
    && t.events == Events(lines)
    && MapSum(t.denials) + MapSum(t.network) + MapSum(t.syscalls) == Violations(lines)
  }

  function Add(t: Tally, line: LogLine): Tally {
    var u := t.(events := t.events + if CountsAsEvent(line) then 1 else 0);
    match Classify(line)
    case None => u
    case Some(v) =>
      if v.Denial? then u.(denials := Bump(t.denials, v))
      else if v.Syscall? then u.(syscalls := Bump(t.syscalls, v))
      else u.(network := Bump(t.network, v))
  }

  lemma CountsStep(lines: seq<LogLine>, n: nat)
    requires n < |lines|
    ensures var c := Classify(lines[n]);
            && (forall v :: Occurrences(lines[..n + 1], v) == Occurrences(lines[..n], v) + if c == Some(v) then 1 else 0)
            && Violations(lines[..n + 1]) == Violations(lines[..n]) + (if c.Some? then 1 else 0)
            && Events(lines[..n + 1]) == Events(lines[..n]) + if CountsAsEvent(lines[n]) then 1 else 0
  {
    hide Classify, CountsAsEvent;
    assert lines[..n + 1][..n] == lines[..n];
  }

  function AddTo(m: map<Violation, nat>, c: Option<Violation>, kind: Kind): map<Violation, nat> {
    if c.Some? && KindOf(c.value) == kind then Bump(m, c.value) else m
  }

  lemma AddToCounts(m: map<Violation, nat>, lines: seq<LogLine>, n: nat, kind: Kind)
    requires n < |lines| && CountsKind(m, lines[..n], kind)
    ensures var c := Classify(lines[n]);
            && CountsKind(AddTo(m, c, kind), lines[..n + 1], kind)
            && MapSum(AddTo(m, c, kind)) == MapSum(m) + if c.Some? && KindOf(c.value) == kind then 1 else 0
  {
    hide Classify, CountsAsEvent, Bump, Lookup, Occurrences, Violations, Events, KindOf;
    CountsStep(lines, n);
    var c := Classify(lines[n]);
    if c.Some? {
      BumpAddsOne(m, c.value);
      BumpLookup(m, c.value);
    }
  }

  lemma AddCounts(t: Tally, lines: seq<LogLine>, n: nat)
    requires n < |lines| && CountsLog(t, lines[..n])
    ensures CountsLog(Add(t, lines[n]), lines[..n + 1])
  {
    hide Classify, CountsAsEvent, Bump, CountsKind, Occurrences, Violations, Events;
    CountsStep(lines, n);
    AddToCounts(t.denials, lines, n, Denials);
    AddToCounts(t.syscalls, lines, n, Syscalls);
    AddToCounts(t.network, lines, n, Networks);
  }

  /** The counting loop: `violationsTotal` is the sum over the three maps. */
  method ParseLog(lines: seq<LogLine>) returns (t: Tally, violationsTotal: nat)
    ensures CountsLog(t, lines)
    ensures violationsTotal == Violations(lines)
  {
    hide Classify, CountsAsEvent;
    t := Tally(map[], map[], map[], 0);
    for n := 0 to |lines|
      invariant CountsLog(t, lines[..n])
    {
      AddCounts(t, lines, n);
      var line := lines[n];
      var events := t.events + if CountsAsEvent(line) then 1 else 0;
      var hit := Classify(line);
      if hit.None? {
        t := t.(events := events);
      } else if hit.value.Denial? {
        t := t.(events := events, denials := Bump(t.denials, hit.value));
      } else if hit.value.Syscall? {
        t := t.(events := events, syscalls := Bump(t.syscalls, hit.value));
      } else {
        t := t.(events := events, network := Bump(t.network, hit.value));
      }
    }
    assert lines[..|lines|] == lines;
    var d := SumValues(t.denials);
    var n := SumValues(t.network);
    var s := SumValues(t.syscalls);
    violationsTotal := d + n + s;
  }

  /** Every violation is an event, so the violations never outnumber the events. */
  lemma {:induction false} ViolationsAreEvents(lines: seq<LogLine>)
    ensures Violations(lines) <= Events(lines)
  {
    if lines != [] {
      ViolationsAreEvents(lines[..|lines| - 1]);
    }
  }

  /** Appending one log to another adds the violations of both, under every key. */
  lemma {:induction false} LogsAdd(a: seq<LogLine>, b: seq<LogLine>, v: Violation)
    ensures Violations(a + b) == Violations(a) + Violations(b)
    ensures Occurrences(a + b, v) == Occurrences(a, v) + Occurrences(b, v)
  {
    if b == [] {
      assert a + b == a;
    } else {
      assert (a + b)[..|a + b| - 1] == a + b[..|b| - 1];
      LogsAdd(a, b[..|b| - 1], v);
    }
  }
}
