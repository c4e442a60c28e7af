/** Keeping the latest record of each session. */
module Deduplication {
  import opened Wrappers
  import opened Records
  import opened Sorting

  predicate TsLe(a: AuditRecord, b: AuditRecord) {
    a.ts <= b.ts
  }

  lemma TsOrder()
    ensures TotalOrder(TsLe)
  {
  }

  /** The record of session `id` that is kept, taking the records in input order. */
  function Best(records: seq<AuditRecord>, id: string): (r: Option<AuditRecord>)
    ensures r.Some? ==> r.value.sessionId == id && r.value in records
  {
    if records == [] then None
    else
      var before, last := Best(records[..|records| - 1], id), records[|records| - 1];
      if last.sessionId == id && (before.None? || last.ts >= before.value.ts) then Some(last) else before
  }

  /** How often `r` is in the result: every nameless copy, and the kept record of each session once. */
  function Kept(records: seq<AuditRecord>, r: AuditRecord): nat {
    if r.sessionId == "" then multiset(records)[r]
    else if Best(records, r.sessionId) == Some(r) then 1 else 0
  }

  /** Earlier records first. */
  ghost predicate ByTime(records: seq<AuditRecord>) {
    forall i, j :: 0 <= i < j < |records| ==> records[i].ts <= records[j].ts
  }

  /** The result up to the order of equal timestamps. */
  ghost predicate IsDeduplicated(records: seq<AuditRecord>, result: seq<AuditRecord>) {
    ByTime(result) && forall r :: multiset(result)[r] == Kept(records, r)
  }

  /** Which record is kept: none of the session is later, and among the latest it comes last in the input. */
  ghost predicate IsLatest(records: seq<AuditRecord>, id: string, i: nat) {
    && i < |records| && records[i].sessionId == id
    && forall j :: 0 <= j < |records| && records[j].sessionId == id ==>
         records[j].ts < records[i].ts || (records[j].ts == records[i].ts && j <= i)
  }

  lemma {:induction false} BestIsLatest(records: seq<AuditRecord>, id: string) returns (i: nat)
    requires exists j :: 0 <= j < |records| && records[j].sessionId == id
    ensures IsLatest(records, id, i) && Best(records, id) == Some(records[i])
  {
    var n := |records| - 1;
    var init, last := records[..n], records[n];
    if exists j :: 0 <= j < n && init[j].sessionId == id {
      i := BestIsLatest(init, id);
      if last.sessionId == id && last.ts >= init[i].ts {
        i := n;
      }
    } else {
      NoBest(init, id);
      i := n;
    }
  }

  lemma {:induction false} NoBest(records: seq<AuditRecord>, id: string)
    requires forall j :: 0 <= j < |records| ==> records[j].sessionId != id
    ensures Best(records, id) == None
  {
    if records != [] {
      NoBest(records[..|records| - 1], id);
    }
  }

  // ---------- The loop ----------

  lemma BestStep(records: seq<AuditRecord>, n: nat, id: string)
    requires n < |records|
    ensures var before, r := Best(records[..n], id), records[n];
            Best(records[..n + 1], id) ==
            if r.sessionId == id && (before.None? || r.ts >= before.value.ts) then Some(r) else before
  {
    assert records[..n + 1][..n] == records[..n];
  }

  /** The map of the loop holds the best record of each session seen. */
  ghost predicate HoldsBest(m: map<string, AuditRecord>, records: seq<AuditRecord>) {
    forall id :: id != "" ==>
      (id in m <==> Best(records, id).Some?) && (id in m ==> Best(records, id) == Some(m[id]))
  }

  /** One record taken into the map. */
  function Take(m: map<string, AuditRecord>, rec: AuditRecord): map<string, AuditRecord> {
    if rec.sessionId in m && rec.ts < m[rec.sessionId].ts then m else m[rec.sessionId := rec]
  }

  lemma TakeHoldsBest(m: map<string, AuditRecord>, records: seq<AuditRecord>, n: nat)
    requires n < |records| && HoldsBest(m, records[..n])
    ensures records[n].sessionId != "" ==> HoldsBest(Take(m, records[n]), records[..n + 1])
    ensures records[n].sessionId == "" ==> HoldsBest(m, records[..n + 1])
  {
    hide Best;
    forall id
      ensures Best(records[..n + 1], id) ==
              var before := Best(records[..n], id);
              if records[n].sessionId == id && (before.None? || records[n].ts >= before.value.ts)
              then Some(records[n]) else before
    {
      BestStep(records, n, id);
    }
  }

  /** The nameless records among the first ones. */
  ghost predicate Nameless(nameless: seq<AuditRecord>, records: seq<AuditRecord>) {
    forall r: AuditRecord :: multiset(nameless)[r] == if r.sessionId == "" then multiset(records)[r] else 0
  }

  lemma NamelessStep(nameless: seq<AuditRecord>, records: seq<AuditRecord>, n: nat)
    requires n < |records| && Nameless(nameless, records[..n])
    ensures Nameless(if records[n].sessionId == "" then nameless + [records[n]] else nameless, records[..n + 1])
  {
    assert records[..n + 1] == records[..n] + [records[n]];
  }

  method DeduplicateRecords(records: seq<AuditRecord>) returns (result: seq<AuditRecord>)
    ensures IsDeduplicated(records, result)
  {
    hide HoldsBest, Nameless, Best;
    var m: map<string, AuditRecord> := map[];
    var nameless := [];
    StartOfLoop(records);
    for n := 0 to |records|
      invariant "" !in m && HoldsBest(m, records[..n]) && Nameless(nameless, records[..n])
    {
      var rec := records[n];
      TakeHoldsBest(m, records, n);
      NamelessStep(nameless, records, n);
      if rec.sessionId == "" {
        nameless := nameless + [rec];
      } else if rec.sessionId in m {
        if rec.ts >= m[rec.sessionId].ts {
          m := m[rec.sessionId := rec];
        }
      } else {
        m := m[rec.sessionId := rec];
      }
    }
    assert records[..|records|] == records;
    var values := MapValues(m, records);
    result := Sort(TsLe, values + nameless);
    Collected(records, values, nameless);
  }

  lemma StartOfLoop(records: seq<AuditRecord>)
    ensures HoldsBest(map[], records[..0]) && Nameless([], records[..0])
  {
  }

  lemma SortedByTime(records: seq<AuditRecord>)
    requires Sorted(TsLe, records)
    ensures ByTime(records)
  {
    forall i, j | 0 <= i < j < |records|
      ensures records[i].ts <= records[j].ts
    {
      assert TsLe(records[i], records[j]);
    }
  }

  lemma {:induction false} Collected(records: seq<AuditRecord>, values: seq<AuditRecord>, nameless: seq<AuditRecord>)
    requires Nameless(nameless, records)
    requires forall r: AuditRecord :: multiset(values)[r] == if r.sessionId == "" then 0 else Kept(records, r)
    ensures IsDeduplicated(records, Sort(TsLe, values + nameless))
  {
    TsOrder();
    SortSorts(TsLe, values + nameless);
    SortKeeps(TsLe, values + nameless);
    SortedByTime(Sort(TsLe, values + nameless));
  }

  /** `into_values`: the values of the map, in any order. */
  method MapValues(m: map<string, AuditRecord>, ghost records: seq<AuditRecord>) returns (values: seq<AuditRecord>)
    requires "" !in m && HoldsBest(m, records)
    ensures forall r: AuditRecord :: multiset(values)[r] == if r.sessionId == "" then 0 else Kept(records, r)
  {
    var keys := m.Keys;
    values := [];
    while keys != {}
      invariant keys <= m.Keys
      invariant forall r: AuditRecord :: multiset(values)[r] ==
                  if r.sessionId in m && r.sessionId !in keys && m[r.sessionId] == r then 1 else 0
      decreases |keys|
    {
      var k :| k in keys;
      assert m[k].sessionId == k;
      values := values + [m[k]];
      keys := keys - {k};
    }
  }

  // ---------- What the result promises ----------

  /** Each named session has exactly one record in the result, the latest; nameless records are all there. */
  lemma OneRecordPerSession(records: seq<AuditRecord>, result: seq<AuditRecord>, i: nat, j: nat)
    requires IsDeduplicated(records, result) && i < |result| && j < |result| && result[i].sessionId != ""
    ensures result[i].sessionId == result[j].sessionId ==> i == j
    ensures Best(records, result[i].sessionId) == Some(result[i])
  {
    assert result[i] in multiset(result) && result[j] in multiset(result);
    if result[i].sessionId == result[j].sessionId && i != j {
      TwiceThere(result, i, j);
    }
  }

  lemma {:induction false} BestExists(records: seq<AuditRecord>, r: AuditRecord)
    requires r in records
    ensures Best(records, r.sessionId).Some?
  {
    if records[|records| - 1] != r {
      BestExists(records[..|records| - 1], r);
    }
  }

  /** Deduplicating a result again keeps the same records; only equal timestamps may change places. */
  lemma DeduplicationIsIdempotent(records: seq<AuditRecord>, once: seq<AuditRecord>, twice: seq<AuditRecord>)
    requires IsDeduplicated(records, once) && IsDeduplicated(once, twice)
    ensures multiset(twice) == multiset(once) && ByTime(once) && ByTime(twice)
  {
    forall r
      ensures Kept(once, r) == multiset(once)[r]
    {
      if r.sessionId != "" {
        KeptOnce(records, once, r);
      }
    }
  }

  lemma KeptOnce(records: seq<AuditRecord>, once: seq<AuditRecord>, r: AuditRecord)
    requires IsDeduplicated(records, once) && r.sessionId != ""
    ensures Kept(once, r) == multiset(once)[r]
  {
    var best := Best(once, r.sessionId);
    if best.Some? {
      assert best.value in multiset(once);
      assert Kept(records, best.value) == 1;
    }
    if r in multiset(once) {
      BestExists(once, r);
    }
  }
}
