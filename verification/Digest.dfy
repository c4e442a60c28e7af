/** The audit digest: totals and rankings over a list of session records. */
module Digest {
  import opened Wrappers
  import opened Records
  import opened Sorting
  import opened Tallies

  // ---------- What is measured, by definition ----------

  datatype Measure =
    | Duration | Successes | Failures | Blocked | SessionsWithBlocks | Events
    | Agent(name: string) | Profile(name: string) | BlockedPath(name: string) | BlockedDomain(name: string)

  function EventWeight(e: Event, m: Measure): nat {
    match m
    case BlockedPath(p) => if e.BlockedAttempt? && e.path == p then 1 else 0
    case BlockedDomain(d) => if e.NetRequest? && !e.allowed && e.host == d then 1 else 0
    case _ => 0
  }

  function LogWeight(log: seq<Event>, m: Measure): nat {
    if log == [] then 0 else LogWeight(log[..|log| - 1], m) + EventWeight(log[|log| - 1], m)
  }

  /** What one record adds to a measure; its log is looked at only when it counts a block. */
  function Weight(r: AuditRecord, m: Measure): nat {
    match m
    case Duration => r.durationSecs
    case Successes => if r.exitCode == 0 then 1 else 0
    case Failures => if r.exitCode == 0 then 0 else 1
    case Blocked => r.blockedCount
    case SessionsWithBlocks => if r.blockedCount > 0 then 1 else 0
    case Events => r.eventsTotal
    case Agent(n) => if r.agent == n then 1 else 0
    case Profile(n) => if r.profile == n then 1 else 0
    case BlockedPath(_) => if r.blockedCount > 0 && r.log.Some? then LogWeight(r.log.value, m) else 0
    case BlockedDomain(_) => if r.blockedCount > 0 && r.log.Some? then LogWeight(r.log.value, m) else 0
  }

  function Total(records: seq<AuditRecord>, m: Measure): nat {
    if records == [] then 0 else Total(records[..|records| - 1], m) + Weight(records[|records| - 1], m)
  }

  /** A saturating `u64` total. */
  function Saturated(n: nat): nat {
    if n > MAX_U64 then MAX_U64 else n
  }

  function SaturatingAdd(a: nat, b: nat): nat {
    Saturated(a + b)
  }

  datatype Entry = Entry(name: string, count: nat)

  datatype Ranking = Agents | Profiles | Paths | Domains

  function Key(ranking: Ranking, name: string): Measure {
    match ranking
    case Agents => Agent(name)
    case Profiles => Profile(name)
    case Paths => BlockedPath(name)
    case Domains => BlockedDomain(name)
  }

  /** Higher counts first, equal counts by name. */
  predicate TopLe(a: Entry, b: Entry) {
    a.count > b.count || (a.count == b.count && StringLe(a.name, b.name))
  }

  lemma TopOrder()
    ensures TotalOrder(TopLe) && Antisymmetric(TopLe)
  {
    forall a, b
      ensures TopLe(a, b) || TopLe(b, a)
      ensures TopLe(a, b) && TopLe(b, a) ==> a == b
    {
      StringTotal(a.name, b.name);
    }
    forall a, b, c | TopLe(a, b) && TopLe(b, c)
      ensures TopLe(a, c)
    {
      if StringLe(a.name, b.name) && StringLe(b.name, c.name) {
        StringTransitive(a.name, b.name, c.name);
      }
    }
  }

  /** The ranking lists every name that counts, once, with its count, in order. */
  ghost predicate IsRanking(records: seq<AuditRecord>, ranking: Ranking, top: seq<Entry>) {
    && Sorted(TopLe, top)
    && forall e :: multiset(top)[e] == if e.count > 0 && e.count == Total(records, Key(ranking, e.name)) then 1 else 0
  }

  datatype Summary = Summary(
    totalSessions: nat,
    successful: nat,
    failed: nat,
    totalDuration: nat,
    totalBlocked: nat,
    sessionsWithBlocks: nat,
    totalEvents: nat,
    topAgents: seq<Entry>,
    topProfiles: seq<Entry>,
    topPaths: seq<Entry>,
    topDomains: seq<Entry>)

  ghost predicate IsDigest(records: seq<AuditRecord>, d: Summary) {
    && d.totalSessions == |records|
    && d.successful == Total(records, Successes)
    && d.failed == Total(records, Failures)
    && d.totalDuration == Saturated(Total(records, Duration))
    && d.totalBlocked == Saturated(Total(records, Blocked))
    && d.sessionsWithBlocks == Total(records, SessionsWithBlocks)
    && d.totalEvents == Saturated(Total(records, Events))
    && IsRanking(records, Agents, d.topAgents)
    && IsRanking(records, Profiles, d.topProfiles)
    && IsRanking(records, Paths, d.topPaths)
    && IsRanking(records, Domains, d.topDomains)
  }

  // ---------- The digest is one, whatever the order ----------

  lemma {:induction false} TotalConcat(a: seq<AuditRecord>, b: seq<AuditRecord>, m: Measure)
    ensures Total(a + b, m) == Total(a, m) + Total(b, m)
  {
    if b == [] {
      assert a + b == a;
    } else {
      assert (a + b)[..|a + b| - 1] == a + b[..|b| - 1];
      TotalConcat(a, b[..|b| - 1], m);
    }
  }

  lemma SameRest(init: seq<AuditRecord>, last: AuditRecord, x: seq<AuditRecord>, y: seq<AuditRecord>)
    requires multiset(init + [last]) == multiset(x + ([last] + y))
    ensures multiset(init) == multiset(x + y)
  {
    assert multiset(init) == multiset(init + [last]) - multiset{last};
    assert multiset(x + y) == multiset(x) + multiset(y);
    assert multiset(x + ([last] + y)) == multiset(x) + (multiset{last} + multiset(y));
  }

  lemma Regroup(x: seq<AuditRecord>, r: AuditRecord, y: seq<AuditRecord>, m: Measure)
    ensures Total(x + ([r] + y), m) == Total(x + y, m) + Weight(r, m)
  {
    TotalConcat(x, [r] + y, m);
    TotalConcat([r], y, m);
    TotalConcat(x, y, m);
    assert [r][..0] == [];
    assert Total([r], m) == Weight(r, m);
  }

  /** Any record can be counted last. */
  lemma {:induction false} Pick(b: seq<AuditRecord>, last: AuditRecord, m: Measure)
    returns (x: seq<AuditRecord>, y: seq<AuditRecord>)
    requires last in multiset(b)
    ensures b == x + ([last] + y)
    ensures Total(b, m) == Total(x + y, m) + Weight(last, m)
  {
    hide Total, Weight;
    var i :| 0 <= i < |b| && b[i] == last;
    x, y := b[..i], b[i + 1..];
    assert b == x + ([last] + y);
    Regroup(x, last, y, m);
  }

  /** A total does not depend on the order of the records. */
  lemma {:induction false} TotalIgnoresOrder(a: seq<AuditRecord>, b: seq<AuditRecord>, m: Measure)
    requires multiset(a) == multiset(b)
    ensures Total(a, m) == Total(b, m)
    decreases |a|
  {
    hide Weight;
    if a == [] {
      assert |multiset(b)| == |b|;
    } else {
      var last, init := a[|a| - 1], a[..|a| - 1];
      assert a[|a| - 1] in multiset(a);
      assert a == init + [last];
      hide Total;
      var x, y := Pick(b, last, m);
      SameRest(init, last, x, y);
      TotalIgnoresOrder(init, x + y, m);
      TotalLast(init, last, m);
    }
  }

  lemma TotalLast(init: seq<AuditRecord>, last: AuditRecord, m: Measure)
    ensures Total(init + [last], m) == Total(init, m) + Weight(last, m)
  {
    assert (init + [last])[..|init|] == init;
  }

  lemma RankingUnique(a: seq<AuditRecord>, b: seq<AuditRecord>, ranking: Ranking, s: seq<Entry>, t: seq<Entry>)
    requires multiset(a) == multiset(b) && IsRanking(a, ranking, s) && IsRanking(b, ranking, t)
    ensures s == t
  {
    hide Total, Key, TopLe;
    TopOrder();
    forall e: Entry
      ensures multiset(s)[e] == multiset(t)[e]
    {
      TotalIgnoresOrder(a, b, Key(ranking, e.name));
    }
    SortedUnique(TopLe, s, t);
  }

  /** Permuting the records gives the identical summary. */
  lemma DigestIgnoresOrder(a: seq<AuditRecord>, b: seq<AuditRecord>, d: Summary, e: Summary)
    requires multiset(a) == multiset(b) && IsDigest(a, d) && IsDigest(b, e)
    ensures d == e
  {
    hide Total, IsRanking;
    assert |multiset(a)| == |a| && |multiset(b)| == |b|;
    forall m
      ensures Total(a, m) == Total(b, m)
    {
      TotalIgnoresOrder(a, b, m);
    }
    RankingUnique(a, b, Agents, d.topAgents, e.topAgents);
    RankingUnique(a, b, Profiles, d.topProfiles, e.topProfiles);
    RankingUnique(a, b, Paths, d.topPaths, e.topPaths);
    RankingUnique(a, b, Domains, d.topDomains, e.topDomains);
  }

  /** Every session succeeds or fails. */
  lemma {:induction false} SessionsAddUp(records: seq<AuditRecord>)
    ensures Total(records, Successes) + Total(records, Failures) == |records|
  {
    if records != [] {
      SessionsAddUp(records[..|records| - 1]);
    }
  }

  // ---------- The loops ----------

  /** A counter map against a count by definition. */
  ghost predicate Counts(m: map<string, nat>, ranking: Ranking, records: seq<AuditRecord>, log: seq<Event>) {
    && (forall name :: Lookup(m, name) == Total(records, Key(ranking, name)) + LogWeight(log, Key(ranking, name)))
    && (forall name :: name in m ==> m[name] > 0)
  }

  lemma TotalStep(records: seq<AuditRecord>, n: nat, m: Measure)
    requires n < |records|
    ensures Total(records[..n + 1], m) == Total(records[..n], m) + Weight(records[n], m)
  {
    assert records[..n + 1][..n] == records[..n];
  }

  lemma NoLogForSessions(log: seq<Event>, ranking: Ranking, name: string)
    requires ranking.Agents? || ranking.Profiles?
    ensures LogWeight(log, Key(ranking, name)) == 0
  {
    if log != [] {
      NoLogForSessions(log[..|log| - 1], ranking, name);
    }
  }

  /** One record bumps its own agent and profile. */
  lemma SessionCounts(m: map<string, nat>, ranking: Ranking, records: seq<AuditRecord>, n: nat)
    requires n < |records| && Counts(m, ranking, records[..n], []) && (ranking.Agents? || ranking.Profiles?)
    ensures var k := if ranking.Agents? then records[n].agent else records[n].profile;
            Counts(Bump(m, k), ranking, records[..n + 1], [])
  {
    hide Total, LogWeight, Bump, Lookup;
    var k := if ranking.Agents? then records[n].agent else records[n].profile;
    BumpLookup(m, k);
    forall name
      ensures Lookup(Bump(m, k), name) == Total(records[..n + 1], Key(ranking, name)) + LogWeight([], Key(ranking, name))
    {
      TotalStep(records, n, Key(ranking, name));
    }
  }

  /** The map after one more event of the log of a record. */
  function CountEvent(m: map<string, nat>, ranking: Ranking, e: Event): map<string, nat> {
    match ranking
    case Paths => if e.BlockedAttempt? then Bump(m, e.path) else m
    case Domains => if e.NetRequest? && !e.allowed then Bump(m, e.host) else m
    case _ => m
  }

  lemma EventCounts(m: map<string, nat>, ranking: Ranking, records: seq<AuditRecord>, log: seq<Event>, i: nat)
    requires i < |log| && Counts(m, ranking, records, log[..i]) && (ranking.Paths? || ranking.Domains?)
    ensures Counts(CountEvent(m, ranking, log[i]), ranking, records, log[..i + 1])
  {
    hide Total, Bump, Lookup;
    var e := log[i];
    var k := if ranking.Paths? then (if e.BlockedAttempt? then e.path else "")
             else if e.NetRequest? then e.host else "";
    BumpLookup(m, k);
    assert log[..i + 1][..i] == log[..i];
  }

  /** A finished log is a weight of its record. */
  lemma LogCounts(m: map<string, nat>, ranking: Ranking, records: seq<AuditRecord>, n: nat, log: seq<Event>)
    requires n < |records| && Counts(m, ranking, records[..n], log) && (ranking.Paths? || ranking.Domains?)
    requires log == if records[n].blockedCount > 0 && records[n].log.Some? then records[n].log.value else []
    ensures Counts(m, ranking, records[..n + 1], [])
  {
    hide Total, Lookup;
    forall name
      ensures Lookup(m, name) == Total(records[..n + 1], Key(ranking, name)) + LogWeight([], Key(ranking, name))
    {
      TotalStep(records, n, Key(ranking, name));
    }
  }

  lemma NothingCounted(ranking: Ranking, records: seq<AuditRecord>)
    ensures Counts(map[], ranking, records[..0], [])
  {
  }

  function SumCounts(top: seq<Entry>): nat {
    if top == [] then 0 else top[0].count + SumCounts(top[1..])
  }

  lemma {:induction false} SumInsert(x: Entry, s: seq<Entry>)
    ensures SumCounts(Insert(TopLe, x, s)) == x.count + SumCounts(s)
  {
    if s != [] && !TopLe(x, s[0]) {
      SumInsert(x, s[1..]);
    }
  }

  lemma {:induction false} SumSort(s: seq<Entry>)
    ensures SumCounts(Sort(TopLe, s)) == SumCounts(s)
  {
    if s != [] {
      SumSort(s[1..]);
      SumInsert(s[0], Sort(TopLe, s[1..]));
    }
  }

  /** `into_iter().collect()` and the sort: the entries of the map, ranked. */
  method Rank(m: map<string, nat>) returns (top: seq<Entry>)
    ensures Sorted(TopLe, top) && SumCounts(top) == MapSum(m)
    ensures forall e: Entry :: multiset(top)[e] == if e.name in m && m[e.name] == e.count then 1 else 0
  {
    var rest, entries := m, [];
    while rest != map[]
      invariant rest.Keys <= m.Keys && forall k :: k in rest ==> rest[k] == m[k]
      invariant forall e: Entry :: multiset(entries)[e] ==
                  if e.name in m && e.name !in rest && m[e.name] == e.count then 1 else 0
      invariant SumCounts(entries) + MapSum(rest) == MapSum(m)
      decreases |rest|
    {
      var k :| k in rest;
      MapSumPick(rest, k);
      assert ([Entry(k, rest[k])] + entries)[1..] == entries;
      entries := [Entry(k, rest[k])] + entries;
      rest := rest - {k};
    }
    top := Sort(TopLe, entries);
    TopOrder();
    SortSorts(TopLe, entries);
    SortKeeps(TopLe, entries);
    SumSort(entries);
  }

  lemma RankedMap(m: map<string, nat>, ranking: Ranking, records: seq<AuditRecord>, top: seq<Entry>)
    requires Counts(m, ranking, records, []) && Sorted(TopLe, top)
    requires forall e: Entry :: multiset(top)[e] == if e.name in m && m[e.name] == e.count then 1 else 0
    ensures IsRanking(records, ranking, top)
  {
    forall e: Entry
      ensures multiset(top)[e] == if e.count > 0 && e.count == Total(records, Key(ranking, e.name)) then 1 else 0
    {
      assert Lookup(m, e.name) == Total(records, Key(ranking, e.name));
    }
  }

  datatype Totals = Totals(
    duration: nat, successful: nat, failed: nat, blocked: nat, sessionsWithBlocks: nat, events: nat)

  ghost predicate HoldsTotals(t: Totals, records: seq<AuditRecord>) {
    && t.duration == Saturated(Total(records, Duration))
    && t.successful == Total(records, Successes)
    && t.failed == Total(records, Failures)
    && t.blocked == Saturated(Total(records, Blocked))
    && t.sessionsWithBlocks == Total(records, SessionsWithBlocks)
    && t.events == Saturated(Total(records, Events))
  }

  function AddTotals(t: Totals, r: AuditRecord): Totals {
    Totals(
      SaturatingAdd(t.duration, r.durationSecs),
      t.successful + if r.exitCode == 0 then 1 else 0,
      t.failed + if r.exitCode == 0 then 0 else 1,
      if r.blockedCount > 0 then SaturatingAdd(t.blocked, r.blockedCount) else t.blocked,
      t.sessionsWithBlocks + if r.blockedCount > 0 then 1 else 0,
      SaturatingAdd(t.events, r.eventsTotal))
  }

  lemma TotalsStep(t: Totals, records: seq<AuditRecord>, n: nat)
    requires n < |records| && HoldsTotals(t, records[..n])
    ensures HoldsTotals(AddTotals(t, records[n]), records[..n + 1])
  {
    hide Total;
    TotalStep(records, n, Duration);
    TotalStep(records, n, Successes);
    TotalStep(records, n, Failures);
    TotalStep(records, n, Blocked);
    TotalStep(records, n, SessionsWithBlocks);
    TotalStep(records, n, Events);
  }

  /** The lines of one session log. */
  method CountLog(paths: map<string, nat>, domains: map<string, nat>, log: seq<Event>, ghost records: seq<AuditRecord>)
    returns (paths': map<string, nat>, domains': map<string, nat>)
    requires Counts(paths, Paths, records, []) && Counts(domains, Domains, records, [])
    ensures Counts(paths', Paths, records, log) && Counts(domains', Domains, records, log)
  {
    hide Counts, Bump;
    paths', domains' := paths, domains;
    assert log[..0] == [];
    for i := 0 to |log|
      invariant Counts(paths', Paths, records, log[..i]) && Counts(domains', Domains, records, log[..i])
    {
      var e := log[i];
      EventCounts(paths', Paths, records, log, i);
      EventCounts(domains', Domains, records, log, i);
      if e.BlockedAttempt? {
        paths' := Bump(paths', e.path);
      } else if e.NetRequest? && !e.allowed {
        domains' := Bump(domains', e.host);
      }
    }
    assert log[..|log|] == log;
  }

  method GenerateDigest(records: seq<AuditRecord>) returns (d: Summary)
    ensures IsDigest(records, d)
    ensures SumCounts(d.topAgents) == |records| && SumCounts(d.topProfiles) == |records|
  {
    hide Counts, HoldsTotals, Bump, IsRanking, SumCounts, AddTotals;
    var totals := Totals(0, 0, 0, 0, 0, 0);
    var agents, profiles, paths, domains: map<string, nat> := map[], map[], map[], map[];
    Beginning(records);
    for n := 0 to |records|
      invariant HoldsTotals(totals, records[..n])
      invariant Counts(agents, Agents, records[..n], []) && MapSum(agents) == n
      invariant Counts(profiles, Profiles, records[..n], []) && MapSum(profiles) == n
      invariant Counts(paths, Paths, records[..n], []) && Counts(domains, Domains, records[..n], [])
    {
      var r := records[n];
      TotalsStep(totals, records, n);
      totals := AddTotals(totals, r);
      var log := [];
      if r.blockedCount > 0 && r.log.Some? {
        log := r.log.value;
        paths, domains := CountLog(paths, domains, log, records[..n]);
      }
      LogCounts(paths, Paths, records, n, log);
      LogCounts(domains, Domains, records, n, log);
      SessionCounts(agents, Agents, records, n);
      SessionCounts(profiles, Profiles, records, n);
      BumpAddsOne(agents, r.agent);
      BumpAddsOne(profiles, r.profile);
      agents, profiles := Bump(agents, r.agent), Bump(profiles, r.profile);
    }
    assert records[..|records|] == records;
    var topAgents := Rank(agents);
    var topProfiles := Rank(profiles);
    var topPaths := Rank(paths);
    var topDomains := Rank(domains);
    RankedMap(agents, Agents, records, topAgents);
    RankedMap(profiles, Profiles, records, topProfiles);
    RankedMap(paths, Paths, records, topPaths);
    RankedMap(domains, Domains, records, topDomains);
    d := Summary(|records|, totals.successful, totals.failed, totals.duration, totals.blocked,
                 totals.sessionsWithBlocks, totals.events, topAgents, topProfiles, topPaths, topDomains);
    Unpack(totals, records);
  }

  lemma Unpack(t: Totals, records: seq<AuditRecord>)
    requires HoldsTotals(t, records)
    ensures t.duration == Saturated(Total(records, Duration)) && t.events == Saturated(Total(records, Events))
    ensures t.successful == Total(records, Successes) && t.failed == Total(records, Failures)
    ensures t.blocked == Saturated(Total(records, Blocked))
    ensures t.sessionsWithBlocks == Total(records, SessionsWithBlocks)
  {
  }

  lemma Beginning(records: seq<AuditRecord>)
    ensures HoldsTotals(Totals(0, 0, 0, 0, 0, 0), records[..0])
    ensures forall ranking :: Counts(map[], ranking, records[..0], [])
    ensures MapSum<string>(map[]) == 0
  {
    forall ranking
      ensures Counts(map[], ranking, records[..0], [])
    {
      NothingCounted(ranking, records);
    }
  }
}
