/** The records of past sessions, as far as they are aggregated here, and the events of a session log. */
module Records {
  import opened Wrappers

  datatype Event =
    | SessionStarted | ExecObserved | Other
    | BlockedAttempt(comm: string, path: string, source: string)
    | NetRequest(host: string, port: nat, allowed: bool)
    | NetQuotaExceeded(host: string)
    | SessionEnded

  /** `log` holds the events that parse, when the log file can be opened. */
  datatype AuditRecord = AuditRecord(
    ts: int,
    sessionId: string,
    agent: string,
    profile: string,
    exitCode: int,
    durationSecs: nat,
    blockedCount: nat,
    eventsTotal: nat,
    log: Option<seq<Event>>)
}
