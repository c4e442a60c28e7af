/** The hunks of a unified diff, and what a reader gets by applying them. */
module Hunks {
  import opened Wrappers
  import opened EditScripts

  /** A hunk: the `@@ -oldStart,oldCount +newStart,newCount @@` header and the lines below it. */
  datatype Hunk = Hunk(oldStart: nat, oldCount: nat, newStart: nat, newCount: nat, ops: seq<Op>)

  // ---------- Applying a patch ----------

  /** The new text so far and how many old lines it took. */
  datatype Patching = Patching(written: seq<string>, taken: nat)

  /**
   * One hunk after another: what lies between is copied, the lines a hunk keeps or
   * deletes must be there, and its header must number both texts rightly.
   */
  function Apply(text: seq<string>, hunks: seq<Hunk>): (p: Option<Patching>)
    ensures p.Some? ==> p.value.taken <= |text|
  {
    if hunks == [] then Some(Patching([], 0))
    else
      match Apply(text, hunks[..|hunks| - 1])
      case None => None
      case Some(p) => ApplyOne(text, p, hunks[|hunks| - 1])
  }

  function ApplyOne(text: seq<string>, p: Patching, h: Hunk): (q: Option<Patching>)
    requires p.taken <= |text|
    ensures q.Some? ==> q.value.taken <= |text|
  {
    var at := h.oldStart - 1;
    if p.taken <= at && at + h.oldCount <= |text| && text[at..at + h.oldCount] == Old(h.ops)
      && h.newStart == |p.written| + (at - p.taken) + 1 && h.newCount == |New(h.ops)|
    then Some(Patching(p.written + text[p.taken..at] + New(h.ops), at + h.oldCount))
    else None
  }

  function Patched(text: seq<string>, hunks: seq<Hunk>): Option<seq<string>> {
    match Apply(text, hunks)
    case None => None
    case Some(p) => Some(p.written + text[p.taken..])
  }

  // ---------- Which lines are shown ----------

  ghost predicate Unchanged(ops: seq<Op>, lo: int, hi: int) {
    forall i :: 0 <= i < |ops| && lo <= i < hi ==> ops[i].Equal?
  }

  /** From the first to the last of some nearby changes. */
  datatype Cluster = Cluster(first: nat, last: nat)

  ghost predicate Change(ops: seq<Op>, i: int) {
    0 <= i < |ops| && !ops[i].Equal?
  }

  /** A change comes after `i`, at most six operations further and not behind the cluster. */
  ghost predicate GoesOn(ops: seq<Op>, c: Cluster, i: nat) {
    exists j: nat :: i < j <= i + 6 && j <= c.last && Change(ops, j)
  }

  /** From a change to a change, without six unchanged operations in a row. */
  ghost predicate Dense(ops: seq<Op>, c: Cluster) {
    Change(ops, c.first) && Change(ops, c.last) && forall i: nat :: c.first <= i < c.last ==> GoesOn(ops, c, i)
  }

  /** Clusters with all changes before q, each more than six operations before the next. */
  ghost predicate Grouped(ops: seq<Op>, clusters: seq<Cluster>, q: nat) {
    if clusters == [] then Unchanged(ops, 0, q)
    else
      var c := clusters[|clusters| - 1];
      && c.first <= c.last && c.last + 6 < q && Dense(ops, c) && Unchanged(ops, c.last + 1, q)
      && Grouped(ops, clusters[..|clusters| - 1], c.first)
  }

  function HunkStart(c: Cluster): nat {
    if c.first < 3 then 0 else c.first - 3
  }

  function HunkEnd(ops: seq<Op>, c: Cluster): nat {
    if c.last + 4 < |ops| then c.last + 4 else |ops|
  }

  function Shown(ops: seq<Op>, c: Cluster): Hunk
    requires c.first <= c.last < |ops|
  {
    var lo, hi := HunkStart(c), HunkEnd(ops, c);
    Hunk(1 + |Old(ops[..lo])|, |Old(ops[lo..hi])|, 1 + |New(ops[..lo])|, |New(ops[lo..hi])|, ops[lo..hi])
  }

  lemma {:induction false} SameLines(ops: seq<Op>)
    requires Unchanged(ops, 0, |ops|)
    ensures Old(ops) == New(ops)
  {
    if ops != [] {
      assert Unchanged(ops[1..], 0, |ops[1..]|);
      SameLines(ops[1..]);
    }
  }

  lemma {:induction false} Split(ops: seq<Op>, i: nat, j: nat)
    requires i <= j <= |ops|
    ensures Old(ops[..j]) == Old(ops[..i]) + Old(ops[i..j]) && New(ops[..j]) == New(ops[..i]) + New(ops[i..j])
    ensures Old(ops) == Old(ops[..j]) + Old(ops[j..]) && New(ops) == New(ops[..j]) + New(ops[j..])
  {
    hide Old, New;
    assert ops[..j] == ops[..i] + ops[i..j] && ops == ops[..j] + ops[j..];
    Concat(ops[..i], ops[i..j]);
    Concat(ops[..j], ops[j..]);
  }

  /** A patch applied up to operation n has written what the operations up to n write. */
  ghost predicate UpTo(ops: seq<Op>, hunks: seq<Hunk>, n: nat) {
    n <= |ops| && Apply(Old(ops), hunks) == Some(Patching(New(ops[..n]), |Old(ops[..n])|))
  }

  /** The old lines a hunk takes, and those before it that are copied. */
  lemma OldLines(ops: seq<Op>, n: nat, lo: nat, hi: nat)
    requires n <= lo <= hi <= |ops|
    ensures var text, from, at, to := Old(ops), |Old(ops[..n])|, |Old(ops[..lo])|, |Old(ops[..hi])|;
            from <= at <= to <= |text| && text[from..at] == Old(ops[n..lo]) && text[at..to] == Old(ops[lo..hi])
  {
    hide Old, New;
    Split(ops, n, lo);
    Split(ops, lo, hi);
  }

  lemma NewLines(ops: seq<Op>, n: nat, lo: nat, hi: nat)
    requires n <= lo <= hi <= |ops| && Unchanged(ops, n, lo)
    ensures New(ops[..n]) + Old(ops[n..lo]) == New(ops[..lo]) && New(ops[..lo]) + New(ops[lo..hi]) == New(ops[..hi])
  {
    hide Old, New, Unchanged;
    UnchangedSlice(ops, n, lo);
    Split(ops, n, lo);
    Split(ops, lo, hi);
  }

  /** Copying the unchanged lines and applying the hunk that follows. */
  lemma OneMore(ops: seq<Op>, n: nat, c: Cluster)
    requires c.first <= c.last < |ops| && n <= HunkStart(c) && Unchanged(ops, n, HunkStart(c))
    requires |Old(ops[..n])| <= |Old(ops)|
    ensures ApplyOne(Old(ops), Patching(New(ops[..n]), |Old(ops[..n])|), Shown(ops, c)) ==
            Some(Patching(New(ops[..HunkEnd(ops, c)]), |Old(ops[..HunkEnd(ops, c)])|))
  {
    hide Old, New, Unchanged;
    var lo, hi := HunkStart(c), HunkEnd(ops, c);
    OldLines(ops, n, lo, hi);
    NewLines(ops, n, lo, hi);
    var text, from, at, to := Old(ops), |Old(ops[..n])|, |Old(ops[..lo])|, |Old(ops[..hi])|;
    assert |text[at..to]| == to - at && |text[from..at]| == at - from;
  }

  lemma UnchangedSlice(ops: seq<Op>, i: nat, j: nat)
    requires i <= j <= |ops| && Unchanged(ops, i, j)
    ensures Old(ops[i..j]) == New(ops[i..j])
  {
    SameLines(ops[i..j]);
  }

  lemma OneMoreApplied(ops: seq<Op>, hunks: seq<Hunk>, n: nat, c: Cluster)
    requires c.first <= c.last < |ops| && n <= HunkStart(c) && Unchanged(ops, n, HunkStart(c)) && UpTo(ops, hunks, n)
    ensures UpTo(ops, hunks + [Shown(ops, c)], HunkEnd(ops, c))
  {
    hide Old, New, Unchanged, Shown, HunkStart, ApplyOne;
    assert (hunks + [Shown(ops, c)])[..|hunks|] == hunks;
    OneMore(ops, n, c);
  }

  /** Applying all hunks and copying what is left. */
  lemma {:induction false} AllApplied(ops: seq<Op>, hunks: seq<Hunk>, n: nat)
    requires UpTo(ops, hunks, n) && Unchanged(ops, n, |ops|)
    ensures Patched(Old(ops), hunks) == Some(New(ops))
  {
    hide Old, New, Unchanged, Apply;
    assert ops[n..|ops|] == ops[n..];
    UnchangedSlice(ops, n, |ops|);
    Split(ops, 0, n);
    assert Old(ops)[|Old(ops[..n])|..] == Old(ops[n..]);
  }

  // ---------- The loops ----------

  /** The positions of the changes, in order. */
  method ChangeIndices(ops: seq<Op>) returns (indices: seq<nat>)
    ensures AreChanges(ops, indices)
  {
    indices := [];
    for i := 0 to |ops|
      invariant forall j, k :: 0 <= j < k < |indices| ==> indices[j] < indices[k]
      invariant forall j :: 0 <= j < |indices| ==> indices[j] < i
      invariant forall j: nat :: j in indices <==> j < i && !ops[j].Equal?
    {
      if !ops[i].Equal? {
        indices := indices + [i];
      }
    }
  }

  /** The positions of the changes, and no others. */
  ghost predicate AreChanges(ops: seq<Op>, indices: seq<nat>) {
    && (forall i, j :: 0 <= i < j < |indices| ==> indices[i] < indices[j])
    && forall i: nat :: i in indices <==> i < |ops| && !ops[i].Equal?
  }

  lemma NoneBetween(ops: seq<Op>, indices: seq<nat>, n: nat)
    requires AreChanges(ops, indices) && n < |indices|
    ensures Change(ops, indices[n]) && (n > 0 ==> indices[n - 1] < indices[n])
    ensures Unchanged(ops, if n == 0 then 0 else indices[n - 1] + 1, indices[n])
    ensures n == |indices| - 1 ==> Unchanged(ops, indices[n] + 1, |ops|)
  {
    assert indices[n] in indices;
  }

  /** Changes at most six operations apart share a cluster. */
  method FindClusters(ops: seq<Op>, indices: seq<nat>) returns (clusters: seq<Cluster>)
    requires indices != [] && AreChanges(ops, indices)
    ensures Grouped(ops, clusters, |ops| + 6)
  {
    hide AreChanges, Unchanged, Dense;
    NoneBetween(ops, indices, 0);
    clusters := [];
    var start, end := indices[0], indices[0];
    OneChange(ops, start);
    for n := 1 to |indices|
      invariant start <= end == indices[n - 1] && Dense(ops, Cluster(start, end))
      invariant Grouped(ops, clusters, start)
    {
      NoneBetween(ops, indices, n);
      var idx := indices[n];
      if idx <= end + 6 {
        LongerCluster(ops, Cluster(start, end), idx);
        end := idx;
      } else {
        NewCluster(ops, clusters, Cluster(start, end), idx);
        clusters := clusters + [Cluster(start, end)];
        start, end := idx, idx;
        OneChange(ops, start);
      }
    }
    NoneBetween(ops, indices, |indices| - 1);
    PastTheEnd(ops, end + 1);
    NewCluster(ops, clusters, Cluster(start, end), |ops| + 6);
    clusters := clusters + [Cluster(start, end)];
  }

  lemma OneChange(ops: seq<Op>, i: nat)
    requires Change(ops, i)
    ensures Dense(ops, Cluster(i, i))
  {
  }

  lemma LongerCluster(ops: seq<Op>, c: Cluster, idx: nat)
    requires Dense(ops, c) && Change(ops, idx) && c.first <= c.last < idx <= c.last + 6
    ensures Dense(ops, Cluster(c.first, idx))
  {
    var longer := Cluster(c.first, idx);
    forall i: nat | c.first <= i < idx
      ensures GoesOn(ops, longer, i)
    {
      if i < c.last {
        assert GoesOn(ops, c, i);
        var j: nat :| i < j <= i + 6 && j <= c.last && Change(ops, j);
        assert j <= idx;
      } else {
        assert i < idx <= i + 6;
      }
    }
  }

  lemma PastTheEnd(ops: seq<Op>, n: nat)
    requires Unchanged(ops, n, |ops|)
    ensures Unchanged(ops, n, |ops| + 6)
  {
  }

  lemma NewCluster(ops: seq<Op>, clusters: seq<Cluster>, c: Cluster, q: nat)
    requires Grouped(ops, clusters, c.first) && c.first <= c.last && c.last + 6 < q && Dense(ops, c)
    requires Unchanged(ops, c.last + 1, q)
    ensures Grouped(ops, clusters + [c], q)
  {
    assert (clusters + [c])[..|clusters|] == clusters;
  }

  /** What comes before each cluster. */
  lemma {:induction false} BeforeCluster(ops: seq<Op>, clusters: seq<Cluster>, q: nat, k: nat)
    requires Grouped(ops, clusters, q) && q <= |ops| + 6 && k < |clusters|
    ensures clusters[k].first <= clusters[k].last < |ops| && Grouped(ops, clusters[..k], clusters[k].first)
    decreases |clusters|
  {
    hide Unchanged;
    var n := |clusters| - 1;
    if k < n {
      BeforeCluster(ops, clusters[..n], clusters[n].first, k);
      assert clusters[..n][..k] == clusters[..k];
    }
  }

  /** Where the hunk of the last of some clusters ends, nothing changes up to the next. */
  lemma GapAfter(ops: seq<Op>, clusters: seq<Cluster>, q: nat)
    requires Grouped(ops, clusters, q)
    ensures clusters == [] ==> Unchanged(ops, 0, q)
    ensures clusters != [] ==>
              var c := clusters[|clusters| - 1];
              && (HunkEnd(ops, c) + 3 <= q) && Unchanged(ops, HunkEnd(ops, c), q)
  {
    hide Grouped;
    LastGap(ops, clusters, q);
  }

  lemma LastGap(ops: seq<Op>, clusters: seq<Cluster>, q: nat)
    requires Grouped(ops, clusters, q)
    ensures clusters == [] ==> Unchanged(ops, 0, q)
    ensures clusters != [] ==> var c := clusters[|clusters| - 1]; c.last + 7 <= q && Unchanged(ops, c.last + 1, q)
  {
    hide Unchanged;
  }

  lemma Narrower(ops: seq<Op>, lo: int, hi: int, lo': int, hi': int)
    requires Unchanged(ops, lo, hi) && lo <= lo' && hi' <= hi
    ensures Unchanged(ops, lo', hi')
  {
  }

  /** The hunks are those of some clusters of all changes, one each. */
  ghost predicate AreHunks(ops: seq<Op>, clusters: seq<Cluster>, hunks: seq<Hunk>) {
    && Grouped(ops, clusters, |ops| + 6) && |hunks| == |clusters|
    && forall k :: 0 <= k < |clusters| ==>
         clusters[k].first <= clusters[k].last < |ops| && hunks[k] == Shown(ops, clusters[k])
  }

  /** The hunks shown turn the text they were made from into the other one. */
  method RenderHunks(ops: seq<Op>) returns (hunks: seq<Hunk>)
    ensures Patched(Old(ops), hunks) == Some(New(ops))
    ensures hunks == [] <==> Unchanged(ops, 0, |ops|)
    ensures exists clusters :: AreHunks(ops, clusters, hunks)
  {
    hide Unchanged, Grouped, Shown, UpTo, Patched;
    hunks := [];
    NothingApplied(ops);
    var indices := ChangeIndices(ops);
    if indices == [] {
      NoChanges(ops, indices);
      AllApplied(ops, [], 0);
      NothingGrouped(ops);
      return;
    }
    SomeChange(ops, indices);
    var clusters := FindClusters(ops, indices);
    ghost var end: nat := 0;
    for k := 0 to |clusters|
      invariant UpTo(ops, hunks, end) && |hunks| == k
      invariant end == if k == 0 then 0 else HunkEnd(ops, clusters[k - 1])
      invariant forall j :: 0 <= j < k ==>
                  clusters[j].first <= clusters[j].last < |ops| && hunks[j] == Shown(ops, clusters[j])
    {
      var c := clusters[k];
      BeforeCluster(ops, clusters, |ops| + 6, k);
      GapAfter(ops, clusters[..k], c.first);
      Narrower(ops, end, c.first, end, HunkStart(c));
      OneMoreApplied(ops, hunks, end, c);
      hunks := hunks + [Shown(ops, c)];
      end := HunkEnd(ops, c);
    }
    assert clusters[..|clusters|] == clusters;
    GapAfter(ops, clusters, |ops| + 6);
    Narrower(ops, end, |ops| + 6, end, |ops|);
    AllApplied(ops, hunks, end);
    SomeCluster(ops, clusters);
    assert AreHunks(ops, clusters, hunks);
  }

  lemma NothingGrouped(ops: seq<Op>)
    requires Unchanged(ops, 0, |ops|)
    ensures AreHunks(ops, [], [])
  {
  }

  lemma NothingApplied(ops: seq<Op>)
    ensures UpTo(ops, [], 0)
  {
  }

  lemma NoChanges(ops: seq<Op>, indices: seq<nat>)
    requires AreChanges(ops, indices) && indices == []
    ensures Unchanged(ops, 0, |ops|)
  {
  }

  lemma SomeChange(ops: seq<Op>, indices: seq<nat>)
    requires AreChanges(ops, indices) && indices != []
    ensures !Unchanged(ops, 0, |ops|)
  {
    assert indices[0] in indices;
  }

  lemma SomeCluster(ops: seq<Op>, clusters: seq<Cluster>)
    requires Grouped(ops, clusters, |ops| + 6) && !Unchanged(ops, 0, |ops|)
    ensures clusters != []
  {
  }

  // ---------- What is shown ----------

  /** At most three operations from a change. */
  ghost predicate Near(ops: seq<Op>, i: int) {
    exists j: nat :: Change(ops, j) && -3 <= i - j <= 3
  }

  /** The last change up to i. */
  lemma {:induction false} ChangeBefore(ops: seq<Op>, from: nat, i: nat) returns (p: nat)
    requires Change(ops, from) && from <= i
    ensures from <= p <= i && Change(ops, p) && forall j: nat :: p < j <= i ==> !Change(ops, j)
    decreases i - from
  {
    if Change(ops, i) {
      p := i;
    } else {
      p := ChangeBefore(ops, from, i - 1);
    }
  }

  /** Three operations before a cluster, three after it, and all in between are near a change. */
  lemma ShownIsNear(ops: seq<Op>, c: Cluster, i: nat)
    requires c.first <= c.last < |ops| && Dense(ops, c) && c.first <= i + 3 && i <= c.last + 3
    ensures Near(ops, i)
  {
    if c.first <= i < c.last {
      var p := ChangeBefore(ops, c.first, i);
      assert GoesOn(ops, c, p);
      var j: nat :| p < j <= p + 6 && j <= c.last && Change(ops, j);
      assert i - p <= 3 || j - i <= 3;
    }
  }

  /** Every change is in a cluster. */
  lemma {:induction false} ChangeInCluster(ops: seq<Op>, clusters: seq<Cluster>, q: nat, j: nat) returns (k: nat)
    requires Grouped(ops, clusters, q) && Change(ops, j) && j < q
    ensures k < |clusters| && clusters[k].first <= j <= clusters[k].last
    decreases |clusters|
  {
    hide Dense;
    var n := |clusters| - 1;
    assert clusters != [];
    if j >= clusters[n].first {
      k := n;
    } else {
      k := ChangeInCluster(ops, clusters[..n], clusters[n].first, j);
    }
  }

  lemma {:induction false} ClusterIsDense(ops: seq<Op>, clusters: seq<Cluster>, q: nat, k: nat)
    requires Grouped(ops, clusters, q) && k < |clusters|
    ensures Dense(ops, clusters[k]) && clusters[k].first <= clusters[k].last < |ops|
    decreases |clusters|
  {
    if k < |clusters| - 1 {
      ClusterIsDense(ops, clusters[..|clusters| - 1], clusters[|clusters| - 1].first, k);
    }
  }

  /**
   * The hunks show an operation exactly when it is at most three operations from a change: three unchanged ones
   * before and after, or all there are, and what lies between changes of one hunk.
   */
  lemma ShownExactly(ops: seq<Op>, clusters: seq<Cluster>, hunks: seq<Hunk>, i: nat)
    requires AreHunks(ops, clusters, hunks) && i < |ops|
    ensures Near(ops, i) <==>
            exists k :: 0 <= k < |clusters| && HunkStart(clusters[k]) <= i < HunkEnd(ops, clusters[k])
    ensures forall k :: 0 <= k < |clusters| ==>
              && 0 <= HunkStart(clusters[k]) <= HunkEnd(ops, clusters[k]) <= |ops|
              && hunks[k].ops == ops[HunkStart(clusters[k])..HunkEnd(ops, clusters[k])]
  {
    hide Grouped, Dense, Change;
    if Near(ops, i) {
      var j: nat :| Change(ops, j) && -3 <= i - j <= 3;
      ChangeInside(ops, j);
      var k := ChangeInCluster(ops, clusters, |ops| + 6, j);
      assert HunkStart(clusters[k]) <= i < HunkEnd(ops, clusters[k]);
    }
    forall k: nat | k < |clusters|
      ensures HunkStart(clusters[k]) <= i < HunkEnd(ops, clusters[k]) ==> Near(ops, i)
    {
      ClusterIsDense(ops, clusters, |ops| + 6, k);
      if HunkStart(clusters[k]) <= i < HunkEnd(ops, clusters[k]) {
        ShownIsNear(ops, clusters[k], i);
      }
    }
  }

  lemma ChangeInside(ops: seq<Op>, j: int)
    requires Change(ops, j)
    ensures 0 <= j < |ops|
  {
  }

  /** Two changes with none between them are in one hunk exactly when they are at most six operations apart. */
  lemma SameHunk(ops: seq<Op>, clusters: seq<Cluster>, hunks: seq<Hunk>, i: nat, j: nat)
    requires AreHunks(ops, clusters, hunks) && i < j && Change(ops, i) && Change(ops, j) && Unchanged(ops, i + 1, j)
    ensures j - i <= 6 <==> exists k :: 0 <= k < |clusters| && clusters[k].first <= i && j <= clusters[k].last
  {
    hide Grouped, Dense;
    var k := ChangeInCluster(ops, clusters, |ops| + 6, i);
    ClusterIsDense(ops, clusters, |ops| + 6, k);
    if j - i <= 6 && j > clusters[k].last {
      NextIsFar(ops, clusters, |ops| + 6, k, j);
    }
    forall m: nat | m < |clusters| && clusters[m].first <= i && j <= clusters[m].last
      ensures j - i <= 6
    {
      ClusterIsDense(ops, clusters, |ops| + 6, m);
      NextIsClose(ops, clusters[m], i, j);
    }
  }

  lemma NextIsClose(ops: seq<Op>, c: Cluster, i: nat, j: nat)
    requires Dense(ops, c) && c.first <= i < j <= c.last && Unchanged(ops, i + 1, j)
    ensures j - i <= 6
  {
    assert GoesOn(ops, c, i);
    var m: nat :| i < m <= i + 6 && m <= c.last && Change(ops, m);
    assert m >= j;
  }

  /** A change behind a cluster is more than six operations behind it. */
  lemma {:induction false} NextIsFar(ops: seq<Op>, clusters: seq<Cluster>, q: nat, k: nat, j: nat)
    requires Grouped(ops, clusters, q) && k < |clusters| && clusters[k].last < j < q && Change(ops, j)
    ensures j > clusters[k].last + 6
    decreases |clusters|
  {
    hide Dense;
    var n := |clusters| - 1;
    if k < n {
      assert clusters[..n][k] == clusters[k];
      if j < clusters[n].first {
        NextIsFar(ops, clusters[..n], clusters[n].first, k, j);
      } else {
        LastIsFar(ops, clusters[..n], clusters[n].first, k);
      }
    }
  }

  lemma {:induction false} LastIsFar(ops: seq<Op>, clusters: seq<Cluster>, q: nat, k: nat)
    requires Grouped(ops, clusters, q) && k < |clusters|
    ensures clusters[k].last + 6 < q
    decreases |clusters|
  {
    hide Dense, Unchanged;
    var n := |clusters| - 1;
    if k < n {
      assert clusters[..n][k] == clusters[k];
      LastIsFar(ops, clusters[..n], clusters[n].first, k);
    }
  }
}
