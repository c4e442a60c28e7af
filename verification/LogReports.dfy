/** Which lines of a session log report which violation, spelled out, and the counts by it. */
module LogReports {
  import opened Wrappers
  import opened Json
  import opened Records
  import opened Tallies
  import opened SessionLog
  import T = Text

  // ---------- What a line says ----------

  /** The member is this text, or it is no text and this is what stands for it. */
  predicate Says(o: Members, key: string, text: string, default: string) {
    if key in o && o[key].Text? then o[key].s == text else text == default
  }

  /** The type of an untyped event: its `event` member, or its `type` member if it has no such member. */
  predicate HasType(v: Json, t: string) {
    && v.Object? && t != ""
    && if "event" in v.members then v.members["event"] == Json.Text(t)
       else "type" in v.members && v.members["type"] == Json.Text(t)
  }

  predicate Blocked(line: LogLine, comm: string, path: string, source: string) {
    || line == Typed(BlockedAttempt(comm, path, source))
    || (line.Untyped? && HasType(line.value, "blocked_attempt")
        && var o := line.value.members;
           Says(o, "comm", comm, "agent") && Says(o, "path", path, "") && Says(o, "source", source, "landlock"))
  }

  /** A port is read modulo 2^16, and as 0 when it is no natural number below 2^64. */
  predicate PortSaid(o: Members, port: nat) {
    if "port" in o && o["port"].Number? && 0 <= o["port"].n < 0x1_0000_0000_0000_0000
    then port == o["port"].n % 0x1_0000 else port == 0
  }

  predicate Refused(line: LogLine, host: string, port: nat) {
    || line == Typed(NetRequest(host, port, false))
    || (port == 0 && line == Typed(NetQuotaExceeded(host)))
    || (line.Untyped? && HasType(line.value, "net_request")
        && var o := line.value.members;
           Says(o, "host", host, "") && PortSaid(o, port) && "allowed" in o && o["allowed"] == Json.Bool(false))
  }

  /** A blocked attempt is one of a system call by its source or its path. */
  ghost predicate BySystemCall(path: string, source: string) {
    T.Contains(source, "seccomp") || "syscall:" <= path || source == "syscall"
  }

  ghost predicate Reports(line: LogLine, v: Violation) {
    match v
    case Denial(path, comm, source) => Blocked(line, comm, path, source) && !BySystemCall(path, source)
    case Syscall(name, comm, source) =>
      || Blocked(line, comm, "syscall:" + name, source)
      || (Blocked(line, comm, name, source) && !("syscall:" <= name) && BySystemCall(name, source))
    case Network(host, port) => Refused(line, host, port)
  }

  /** An event: one that parses as such, or an object with a type. */
  ghost predicate IsEvent(line: LogLine) {
    line.Typed? || (line.Untyped? && exists t :: HasType(line.value, t))
  }

  // ---------- The classification reads it off ----------

  lemma TypeIs(v: Json, t: string)
    ensures HasType(v, t) <==> v.Object? && t != "" && EventType(v) == t
  {
  }

  lemma SaysIs(o: Members, key: string, text: string, default: string)
    ensures Says(o, key, text, default) <==> GetStr(o, key, default) == text
  {
  }

  lemma PortIs(o: Members, port: nat)
    ensures PortSaid(o, port) <==>
            port == if AsU64(Get(o, "port")).Some? then AsU64(Get(o, "port")).value % 0x1_0000 else 0
  {
  }

  lemma PrefixIs(path: string)
    ensures StartsWith(path, SYSCALL_PREFIX) <==> "syscall:" <= path
    ensures |SYSCALL_PREFIX| == 8 && SYSCALL_PREFIX == "syscall:"
  {
  }

  lemma FoundIs(text: string, needle: string)
    ensures T.Find(text, needle).Some? <==> T.Contains(text, needle)
  {
    hide T.OccursAt, T.FindFrom;
  }

  lemma PrefixedName(path: string, name: string)
    ensures "syscall:" + name == path <==> "syscall:" <= path && path[8..] == name
  {
    var w := "syscall:";
    assert |w| == 8;
    if w <= path && path[8..] == name {
      assert path == path[..8] + path[8..] && path[..8] == w;
    }
    if w + name == path {
      assert (w + name)[8..] == name && w <= w + name;
    }
  }

  /** The key of a blocked attempt. */
  lemma KeyIs(comm: string, path: string, source: string, v: Violation)
    ensures BlockedKey(comm, path, source) == v <==>
            match v
            case Denial(p, c, s) => p == path && c == comm && s == source && !BySystemCall(path, source)
            case Syscall(name, c, s) =>
              && c == comm && s == source
              && ("syscall:" + name == path || (name == path && !("syscall:" <= path) && BySystemCall(path, source)))
            case Network(_, _) => false
  {
    hide T.Find, T.Contains, StartsWith, SYSCALL_PREFIX;
    PrefixIs(path);
    FoundIs(source, "seccomp");
    if v.Syscall? {
      PrefixedName(path, v.name);
    }
  }

  lemma UntypedIs(value: Json, v: Violation)
    ensures Classify(Untyped(value)) == Some(v) <==> Reports(Untyped(value), v)
  {
    hide GetStr, EventType, HasType, Says, PortSaid, AsU64, BySystemCall, BlockedKey;
    TypeIs(value, "blocked_attempt");
    TypeIs(value, "net_request");
    var b, n := "blocked_attempt", "net_request";
    assert b[0] != n[0] && b != "" && n != "";
    if HasType(value, "blocked_attempt") {
      UntypedAttempt(value, v);
    } else if HasType(value, "net_request") {
      UntypedRequest(value, v);
    }
  }

  lemma UntypedAttempt(value: Json, v: Violation)
    requires value.Object? && HasType(value, "blocked_attempt") && EventType(value) == "blocked_attempt"
    requires !HasType(value, "net_request")
    ensures Classify(Untyped(value)) == Some(v) <==> Reports(Untyped(value), v)
  {
    hide GetStr, EventType, HasType, Says, PortSaid, AsU64, BySystemCall, BlockedKey;
    var o := value.members;
    var comm, path, source := GetStr(o, "comm", "agent"), GetStr(o, "path", ""), GetStr(o, "source", "landlock");
    forall c, p, s
      ensures Blocked(Untyped(value), c, p, s) <==> c == comm && p == path && s == source
    {
      SaysIs(o, "comm", c, "agent");
      SaysIs(o, "path", p, "");
      SaysIs(o, "source", s, "landlock");
    }
    hide Blocked;
    KeyIs(comm, path, source, v);
  }

  lemma UntypedRequest(value: Json, v: Violation)
    requires value.Object? && HasType(value, "net_request") && EventType(value) == "net_request"
    requires !HasType(value, "blocked_attempt")
    ensures Classify(Untyped(value)) == Some(v) <==> Reports(Untyped(value), v)
  {
    hide GetStr, EventType, HasType, Says, PortSaid, AsU64, BySystemCall, BlockedKey;
    if v.Network? {
      SaysIs(value.members, "host", v.host, "");
      PortIs(value.members, v.port);
    }
  }

  /** A line reports the violation that it is counted as, and no other. */
  lemma ReportsExactly(line: LogLine, v: Violation)
    ensures Classify(line) == Some(v) <==> Reports(line, v)
  {
    match line {
      case Untyped(value) => UntypedIs(value, v);
      case Typed(BlockedAttempt(comm, path, source)) =>
        hide BlockedKey, BySystemCall;
        KeyIs(comm, path, source, v);
      case _ =>
        hide BlockedKey, BySystemCall;
    }
  }

  lemma EventExactly(line: LogLine)
    ensures CountsAsEvent(line) <==> IsEvent(line)
  {
    hide EventType, HasType;
    if line.Untyped? {
      TypeIs(line.value, EventType(line.value));
      forall t
        ensures HasType(line.value, t) ==> t != "" && EventType(line.value) == t
      {
        TypeIs(line.value, t);
      }
      NoObjectNoType(line.value);
    }
  }

  lemma NoObjectNoType(v: Json)
    ensures EventType(v) != "" ==> v.Object?
  {
  }

  // ---------- The counts ----------

  ghost function Reporting(lines: seq<LogLine>, v: Violation): set<nat> {
    set i | 0 <= i < |lines| && Reports(lines[i], v)
  }

  ghost function Violating(lines: seq<LogLine>): set<nat> {
    set i | 0 <= i < |lines| && exists v :: Reports(lines[i], v)
  }

  ghost function EventLines(lines: seq<LogLine>): set<nat> {
    set i | 0 <= i < |lines| && IsEvent(lines[i])
  }

  lemma {:induction false} OccurrencesReport(lines: seq<LogLine>, v: Violation)
    ensures Occurrences(lines, v) == |Reporting(lines, v)|
  {
    hide Classify, Reports;
    if lines != [] {
      var n := |lines| - 1;
      OccurrencesReport(lines[..n], v);
      ReportsExactly(lines[n], v);
      assert Reporting(lines, v) == Reporting(lines[..n], v) + if Reports(lines[n], v) then {n} else {};
    }
  }

  lemma {:induction false} ViolationsReport(lines: seq<LogLine>)
    ensures Violations(lines) == |Violating(lines)|
  {
    hide Classify, Reports;
    if lines != [] {
      var n := |lines| - 1;
      ViolationsReport(lines[..n]);
      forall v
        ensures Classify(lines[n]) == Some(v) <==> Reports(lines[n], v)
      {
        ReportsExactly(lines[n], v);
      }
      assert Classify(lines[n]).Some? ==> Classify(lines[n]) == Some(Classify(lines[n]).value);
      assert Violating(lines) == Violating(lines[..n]) + if Classify(lines[n]).Some? then {n} else {};
    }
  }

  lemma {:induction false} EventsAreLines(lines: seq<LogLine>)
    ensures Events(lines) == |EventLines(lines)|
  {
    hide CountsAsEvent, IsEvent;
    if lines != [] {
      var n := |lines| - 1;
      EventsAreLines(lines[..n]);
      EventExactly(lines[n]);
      assert EventLines(lines) == EventLines(lines[..n]) + if IsEvent(lines[n]) then {n} else {};
    }
  }

  /**
   * What a tally of a log holds, by the lines: under each key the number of lines that report it, in the map of its
   * kind; in all, the number of lines that report a violation; and the number of events.
   */
  lemma TallyByLines(t: Tally, lines: seq<LogLine>)
    requires CountsLog(t, lines)
    ensures forall path, comm, source ::
              Lookup(t.denials, Denial(path, comm, source)) == |Reporting(lines, Denial(path, comm, source))|
    ensures forall name, comm, source ::
              Lookup(t.syscalls, Syscall(name, comm, source)) == |Reporting(lines, Syscall(name, comm, source))|
    ensures forall host, port :: Lookup(t.network, Network(host, port)) == |Reporting(lines, Network(host, port))|
    ensures t.events == |EventLines(lines)| && Violations(lines) == |Violating(lines)|
  {
    hide Reporting, Violating, EventLines, Occurrences, Violations, Events, Lookup, MapSum;
    forall v: Violation
      ensures Occurrences(lines, v) == |Reporting(lines, v)|
    {
      OccurrencesReport(lines, v);
    }
    EventsAreLines(lines);
    ViolationsReport(lines);
  }

  /** Of the events that parse, the violations are the blocked attempts, the refused requests and the quota events. */
  lemma TypedViolations(event: Event)
    ensures (exists v :: Reports(Typed(event), v)) <==>
            event.BlockedAttempt? || (event.NetRequest? && !event.allowed) || event.NetQuotaExceeded?
  {
    hide Classify;
    forall v
      ensures Classify(Typed(event)) == Some(v) <==> Reports(Typed(event), v)
    {
      ReportsExactly(Typed(event), v);
    }
    hide Reports;
    TypedClassified(event);
  }

  lemma TypedClassified(event: Event)
    ensures Classify(Typed(event)).Some? <==>
            event.BlockedAttempt? || (event.NetRequest? && !event.allowed) || event.NetQuotaExceeded?
    ensures Classify(Typed(event)).Some? ==> exists v :: Classify(Typed(event)) == Some(v)
  {
    if Classify(Typed(event)).Some? {
      assert Classify(Typed(event)) == Some(Classify(Typed(event)).value);
    }
  }
}
