/** The digest told by the sessions and events it counts, without the weights of its loop. */
module DigestCounts {
  import opened Wrappers
  import opened Records
  import opened Sorting
  import opened Digest

  // ---------- Sets of sessions and events ----------

  ghost function Sessions(records: seq<AuditRecord>, p: AuditRecord -> bool): set<nat> {
    set i | 0 <= i < |records| && p(records[i])
  }

  /** The events of one log, under the number of its record. */
  ghost function InLog(log: seq<Event>, i: nat, p: Event -> bool): set<(nat, nat)> {
    set j | 0 <= j < |log| && p(log[j]) :: (i, j)
  }

  /** The events in the logs of the sessions with blocked attempts. */
  ghost function Blocks(records: seq<AuditRecord>, p: Event -> bool): set<(nat, nat)> {
    set i, e | 0 <= i < |records| && records[i].blockedCount > 0 && records[i].log.Some?
               && e in InLog(records[i].log.value, i, p) :: e
  }

  function Sum(records: seq<AuditRecord>, f: AuditRecord -> nat): nat {
    if records == [] then 0 else f(records[0]) + Sum(records[1..], f)
  }

  function Capped(n: nat): nat {
    if n < 0x1_0000_0000_0000_0000 then n else 0xFFFF_FFFF_FFFF_FFFF
  }

  /** Higher counts first; equal counts by the first byte in which the names differ. */
  ghost predicate Ranked(top: seq<Entry>) {
    forall i, j :: 0 <= i < j < |top| ==>
      || top[i].count > top[j].count
      || (top[i].count == top[j].count && exists p :: LessAt(top[i].name, top[j].name, p))
  }

  // ---------- Totals are their sizes ----------

  lemma {:induction false} TotalCounts(records: seq<AuditRecord>, m: Measure, p: AuditRecord -> bool)
    requires forall r :: Weight(r, m) == if p(r) then 1 else 0
    ensures Total(records, m) == |Sessions(records, p)|
  {
    hide Weight;
    if records != [] {
      var n := |records| - 1;
      TotalCounts(records[..n], m, p);
      assert Sessions(records, p) == Sessions(records[..n], p) + if p(records[n]) then {n} else {};
    }
  }

  lemma {:induction false} SumConcat(a: seq<AuditRecord>, r: AuditRecord, f: AuditRecord -> nat)
    ensures Sum(a + [r], f) == Sum(a, f) + f(r)
  {
    if a != [] {
      assert (a + [r])[1..] == a[1..] + [r];
      SumConcat(a[1..], r, f);
    } else {
      assert [r][1..] == [];
    }
  }

  lemma {:induction false} TotalSums(records: seq<AuditRecord>, m: Measure, f: AuditRecord -> nat)
    requires forall r :: Weight(r, m) == f(r)
    ensures Total(records, m) == Sum(records, f)
  {
    hide Weight;
    if records != [] {
      var n := |records| - 1;
      TotalSums(records[..n], m, f);
      SumConcat(records[..n], records[n], f);
      assert records == records[..n] + [records[n]];
    }
  }

  lemma {:induction false} LogCounted(log: seq<Event>, i: nat, m: Measure, p: Event -> bool)
    requires forall e :: EventWeight(e, m) == if p(e) then 1 else 0
    ensures LogWeight(log, m) == |InLog(log, i, p)|
  {
    hide EventWeight;
    if log != [] {
      var n := |log| - 1;
      LogCounted(log[..n], i, m, p);
      assert InLog(log, i, p) == InLog(log[..n], i, p) + if p(log[n]) then {(i, n)} else {};
    }
  }

  lemma {:induction false} BlocksCounted(records: seq<AuditRecord>, m: Measure, p: Event -> bool)
    requires m.BlockedPath? || m.BlockedDomain?
    requires forall e :: EventWeight(e, m) == if p(e) then 1 else 0
    ensures Total(records, m) == |Blocks(records, p)|
  {
    if records != [] {
      hide EventWeight, LogWeight, InLog, Blocks, Weight;
      var n := |records| - 1;
      BlocksCounted(records[..n], m, p);
      BlocksBehind(records, p);
      LastCounted(records[n], n, m, p);
    }
  }

  /** The events of one record, under its number. */
  ghost function BlocksOf(r: AuditRecord, i: nat, p: Event -> bool): set<(nat, nat)> {
    if r.blockedCount > 0 && r.log.Some? then InLog(r.log.value, i, p) else {}
  }

  lemma LastCounted(r: AuditRecord, i: nat, m: Measure, p: Event -> bool)
    requires m.BlockedPath? || m.BlockedDomain?
    requires forall e :: EventWeight(e, m) == if p(e) then 1 else 0
    ensures Weight(r, m) == |BlocksOf(r, i, p)|
  {
    hide EventWeight, InLog, LogWeight;
    if r.blockedCount > 0 && r.log.Some? {
      LogCounted(r.log.value, i, m, p);
    }
  }

  lemma BlocksBehind(records: seq<AuditRecord>, p: Event -> bool)
    requires records != []
    ensures var n := |records| - 1;
            && Blocks(records, p) == Blocks(records[..n], p) + BlocksOf(records[n], n, p)
            && Blocks(records[..n], p) !! BlocksOf(records[n], n, p)
  {
    hide InLog;
    var n := |records| - 1;
    forall e | e in Blocks(records[..n], p)
      ensures e !in BlocksOf(records[n], n, p)
    {
      InOneLog(records[..n], p, e, records[n].log, n);
    }
  }

  /** An event of an earlier log is not one of a later. */
  lemma InOneLog(records: seq<AuditRecord>, p: Event -> bool, e: (nat, nat), log: Option<seq<Event>>, n: nat)
    requires e in Blocks(records, p) && |records| <= n
    ensures log.Some? ==> e !in InLog(log.value, n, p)
  {
  }

  // ---------- Rankings ----------

  lemma EntryListed(records: seq<AuditRecord>, ranking: Ranking, top: seq<Entry>, e: Entry)
    requires IsRanking(records, ranking, top)
    ensures e in top <==> e.count > 0 && e.count == Total(records, Key(ranking, e.name))
    ensures multiset(top)[e] <= 1
  {
    hide Total, TopLe;
    assert e in top <==> e in multiset(top);
  }

  lemma RankingRanked(records: seq<AuditRecord>, ranking: Ranking, top: seq<Entry>)
    requires IsRanking(records, ranking, top)
    ensures Ranked(top)
  {
    hide Total, LessAt, StringLe;
    forall i, j | 0 <= i < j < |top|
      ensures top[i].count > top[j].count
              || (top[i].count == top[j].count && exists p :: LessAt(top[i].name, top[j].name, p))
    {
      assert TopLe(top[i], top[j]);
      OrderExactly(top[i].name, top[j].name);
    }
  }

  /**
   * What a digest says: sums up to the largest `u64`, numbers of sessions, and rankings that list each name with the
   * number of sessions or events that have it.
   */
  lemma DigestExactly(records: seq<AuditRecord>, d: Summary)
    requires IsDigest(records, d)
    ensures d.totalDuration == Capped(Sum(records, (r: AuditRecord) => r.durationSecs))
    ensures d.totalBlocked == Capped(Sum(records, (r: AuditRecord) => r.blockedCount))
    ensures d.totalEvents == Capped(Sum(records, (r: AuditRecord) => r.eventsTotal))
    ensures d.successful == |Sessions(records, (r: AuditRecord) => r.exitCode == 0)|
    ensures d.failed == |Sessions(records, (r: AuditRecord) => r.exitCode != 0)|
    ensures d.sessionsWithBlocks == |Sessions(records, (r: AuditRecord) => r.blockedCount > 0)|
  {
    hide Total, IsRanking, Sum, Sessions;
    TotalSums(records, Duration, (r: AuditRecord) => r.durationSecs);
    TotalSums(records, Blocked, (r: AuditRecord) => r.blockedCount);
    TotalSums(records, Events, (r: AuditRecord) => r.eventsTotal);
    TotalCounts(records, Successes, (r: AuditRecord) => r.exitCode == 0);
    TotalCounts(records, Failures, (r: AuditRecord) => r.exitCode != 0);
    TotalCounts(records, SessionsWithBlocks, (r: AuditRecord) => r.blockedCount > 0);
  }

  /** The rankings of a digest, each in order, with exactly the names that occur and how often they do. */
  lemma RankingsExactly(records: seq<AuditRecord>, d: Summary, name: string, n: nat)
    requires IsDigest(records, d)
    ensures Ranked(d.topAgents) && Ranked(d.topProfiles) && Ranked(d.topPaths) && Ranked(d.topDomains)
    ensures Entry(name, n) in d.topAgents <==>
            n > 0 && n == |Sessions(records, (r: AuditRecord) => r.agent == name)|
    ensures Entry(name, n) in d.topProfiles <==>
            n > 0 && n == |Sessions(records, (r: AuditRecord) => r.profile == name)|
    ensures Entry(name, n) in d.topPaths <==>
            n > 0 && n == |Blocks(records, (e: Event) => e.BlockedAttempt? && e.path == name)|
    ensures Entry(name, n) in d.topDomains <==>
            n > 0 && n == |Blocks(records, (e: Event) => e.NetRequest? && !e.allowed && e.host == name)|
  {
    hide Total, IsRanking, Sessions, Blocks, Ranked;
    RankingRanked(records, Agents, d.topAgents);
    RankingRanked(records, Profiles, d.topProfiles);
    RankingRanked(records, Paths, d.topPaths);
    RankingRanked(records, Domains, d.topDomains);
    EntryListed(records, Agents, d.topAgents, Entry(name, n));
    EntryListed(records, Profiles, d.topProfiles, Entry(name, n));
    EntryListed(records, Paths, d.topPaths, Entry(name, n));
    EntryListed(records, Domains, d.topDomains, Entry(name, n));
    TotalCounts(records, Agent(name), (r: AuditRecord) => r.agent == name);
    TotalCounts(records, Profile(name), (r: AuditRecord) => r.profile == name);
    BlocksCounted(records, BlockedPath(name), (e: Event) => e.BlockedAttempt? && e.path == name);
    BlocksCounted(records, BlockedDomain(name), (e: Event) => e.NetRequest? && !e.allowed && e.host == name);
  }
}
