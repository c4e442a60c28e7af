/** The operations between two texts, and the hunks a reader is shown of them. */
module DiffOps {
  import opened EditScripts
  import opened Waves
  import opened LineDiff

  // ---------- Common ends ----------

  function WithoutCommonStart(a: seq<string>, b: seq<string>): (seq<string>, seq<string>) {
    if a != [] && b != [] && a[0] == b[0] then WithoutCommonStart(a[1..], b[1..]) else (a, b)
  }

  function WithoutCommonEnd(a: seq<string>, b: seq<string>): (seq<string>, seq<string>) {
    if a != [] && b != [] && a[|a| - 1] == b[|b| - 1] then WithoutCommonEnd(a[..|a| - 1], b[..|b| - 1]) else (a, b)
  }

  /** What is left of two texts between their longest common start and end. */
  function Middle(a: seq<string>, b: seq<string>): (seq<string>, seq<string>) {
    var (x, y) := WithoutCommonStart(a, b);
    WithoutCommonEnd(x, y)
  }

  method CommonStartLength(a: seq<string>, b: seq<string>) returns (n: nat)
    ensures n <= |a| && n <= |b| && a[..n] == b[..n]
    ensures WithoutCommonStart(a, b) == (a[n..], b[n..])
  {
    n := 0;
    while n < |a| && n < |b| && a[n] == b[n]
      invariant n <= |a| && n <= |b| && a[..n] == b[..n]
      invariant WithoutCommonStart(a, b) == WithoutCommonStart(a[n..], b[n..])
    {
      assert a[n..][1..] == a[n + 1..] && b[n..][1..] == b[n + 1..];
      assert a[..n + 1] == a[..n] + [a[n]] && b[..n + 1] == b[..n] + [b[n]];
      n := n + 1;
    }
  }

  method CommonEndLength(a: seq<string>, b: seq<string>) returns (n: nat)
    ensures n <= |a| && n <= |b| && a[|a| - n..] == b[|b| - n..]
    ensures WithoutCommonEnd(a, b) == (a[..|a| - n], b[..|b| - n])
  {
    hide WithoutCommonEnd;
    n := 0;
    assert a[..|a|] == a && b[..|b|] == b;
    while n < |a| && n < |b| && a[|a| - 1 - n] == b[|b| - 1 - n]
      invariant n <= |a| && n <= |b| && a[|a| - n..] == b[|b| - n..]
      invariant WithoutCommonEnd(a, b) == WithoutCommonEnd(a[..|a| - n], b[..|b| - n])
    {
      OneCommonEnd(a, b, |a| - n, |b| - n);
      n := n + 1;
    }
    NoCommonEnd(a[..|a| - n], b[..|b| - n]);
  }

  lemma OneCommonEnd(a: seq<string>, b: seq<string>, i: nat, j: nat)
    requires 0 < i <= |a| && 0 < j <= |b| && a[i - 1] == b[j - 1]
    ensures WithoutCommonEnd(a[..i], b[..j]) == WithoutCommonEnd(a[..i - 1], b[..j - 1])
    ensures a[i..] == b[j..] ==> a[i - 1..] == b[j - 1..]
  {
    assert a[..i][..i - 1] == a[..i - 1] && b[..j][..j - 1] == b[..j - 1];
    hide WithoutCommonEnd;
    assert a[i - 1..] == [a[i - 1]] + a[i..] && b[j - 1..] == [b[j - 1]] + b[j..];
  }

  lemma NoCommonEnd(a: seq<string>, b: seq<string>)
    requires a == [] || b == [] || a[|a| - 1] != b[|b| - 1]
    ensures WithoutCommonEnd(a, b) == (a, b)
  {
  }

  // ---------- The script ----------

  datatype Kind = Keep | Drop | Add

  function Mark(kind: Kind, line: string): Op {
    match kind
    case Keep => Equal(line)
    case Drop => Delete(line)
    case Add => Insert(line)
  }

  /** All lines with the same mark. */
  function Marked(kind: Kind, lines: seq<string>): (ops: seq<Op>)
    ensures |ops| == |lines|
  {
    seq(|lines|, i requires 0 <= i < |lines| => Mark(kind, lines[i]))
  }

  lemma MarkedNothing(kind: Kind)
    ensures Marked(kind, []) == []
  {
  }

  lemma MarkedMore(kind: Kind, lines: seq<string>, i: nat)
    requires i < |lines|
    ensures Marked(kind, lines[..i + 1]) == Marked(kind, lines[..i]) + [Mark(kind, lines[i])]
  {
  }

  /** Every line pushed with the same mark. */
  method PushLines(ops: seq<Op>, kind: Kind, lines: seq<string>) returns (r: seq<Op>)
    ensures r == ops + Marked(kind, lines)
    ensures Old(r) == Old(ops) + (if kind.Add? then [] else lines)
    ensures New(r) == New(ops) + (if kind.Drop? then [] else lines)
    ensures Deletes(r) == Deletes(ops) + if kind.Drop? then |lines| else 0
    ensures Inserts(r) == Inserts(ops) + if kind.Add? then |lines| else 0
  {
    hide Old, New, Deletes, Inserts, Marked;
    r := ops;
    MarkedNothing(kind);
    for i := 0 to |lines|
      invariant r == ops + Marked(kind, lines[..i])
      invariant Old(r) == Old(ops) + (if kind.Add? then [] else lines[..i])
      invariant New(r) == New(ops) + (if kind.Drop? then [] else lines[..i])
      invariant Deletes(r) == Deletes(ops) + if kind.Drop? then i else 0
      invariant Inserts(r) == Inserts(ops) + if kind.Add? then i else 0
    {
      Append(r, Mark(kind, lines[i]));
      MarkedMore(kind, lines, i);
      r := r + [Mark(kind, lines[i])];
      assert lines[..i + 1] == lines[..i] + [lines[i]];
    }
    assert lines[..|lines|] == lines;
  }

  /** The guards on the size of the search and on its edits. */
  predicate WithinLimits(a: seq<string>, b: seq<string>) {
    |a| + |b| <= 4000 && Distance(a, b) <= 2000
  }

  lemma NoLines()
    ensures Old([]) == [] && New([]) == [] && Deletes([]) == 0 && Inserts([]) == 0
  {
  }

  lemma DistanceToNothing(a: seq<string>, b: seq<string>)
    requires a == [] || b == []
    ensures Distance(a, b) == |a| + |b|
  {
  }

  /** Delete all of one text, insert all of the other. */
  method Replace(a: seq<string>, b: seq<string>) returns (ops: seq<Op>)
    ensures ops == Marked(Drop, a) + Marked(Add, b)
    ensures IsScript(ops, a, b) && Edits(ops) == |a| + |b| && Distance(a, b) <= |a| + |b|
  {
    hide Old, New, Deletes, Inserts, Distance, Marked;
    NoLines();
    ops := PushLines([], Drop, a);
    ops := PushLines(ops, Add, b);
    NoScriptBelow(ops);
  }

  method MiddleOps(a: seq<string>, b: seq<string>) returns (ops: seq<Op>)
    ensures IsScript(ops, a, b)
    ensures Edits(ops) == if WithinLimits(a, b) then Distance(a, b) else |a| + |b|
    ensures !WithinLimits(a, b) ==> ops == Marked(Drop, a) + Marked(Add, b)
  {
    hide Distance, Old, New, Deletes, Inserts, Reach, Hit, Ready, Marked;
    MarkedNothing(Drop);
    MarkedNothing(Add);
    if a == [] || b == [] {
      DistanceToNothing(a, b);
    }
    NoLines();
    if a == [] {
      ops := PushLines([], Add, b);
    } else if b == [] {
      ops := PushLines([], Drop, a);
    } else if |a| + |b| > MAX_LINES {
      ops := Replace(a, b);
    } else {
      var solved, trace := Search(a, b);
      if solved.Some? {
        var d := solved.value;
        ghost var i: nat :| i <= d && Hit(a, b, d, i);
        FirstHitIsCorner(a, b, d, i);
        ops := Backtrack(a, b, trace, d, i);
        ScriptDistance(a, b, ops);
        QuietIsFar(a, b, d);
      } else {
        ops := Replace(a, b);
        QuietIsFar(a, b, Limit(a, b) + 1);
      }
    }
  }

  lemma ScriptDistance(a: seq<string>, b: seq<string>, ops: seq<Op>)
    requires IsScript(ops, a, b)
    ensures Distance(a, b) <= Edits(ops)
  {
    NoScriptBelow(ops);
  }

  /** Between kept lines, all of one text is deleted and then all of the other inserted. */
  ghost predicate Replaces(ops: seq<Op>, a: seq<string>, b: seq<string>) {
    exists start, end :: ops == Marked(Keep, start) + (Marked(Drop, a) + Marked(Add, b)) + Marked(Keep, end)
  }

  /**
   * The operations turn one text into the other; within the limits no script makes fewer edits, and beyond them what
   * lies between the common ends is replaced as a whole.
   */
  ghost predicate IsDiff(ops: seq<Op>, before: seq<string>, after: seq<string>) {
    && IsScript(ops, before, after)
    && var (a, b) := Middle(before, after);
       && Edits(ops) == (if WithinLimits(a, b) then Distance(before, after) else |a| + |b|)
       && (!WithinLimits(a, b) ==> Replaces(ops, a, b))
  }

  method ComputeDiffOps(before: seq<string>, after: seq<string>) returns (ops: seq<Op>)
    ensures IsDiff(ops, before, after)
  {
    hide Old, New, Deletes, Inserts, Distance, WithoutCommonStart, WithoutCommonEnd, WithinLimits, IsDiff, Marked;
    var start := CommonStartLength(before, after);
    var end := CommonEndLength(before[start..], after[start..]);
    var a, b := before[start..|before| - end], after[start..|after| - end];
    Ends(before, after, start, end);
    var middle := MiddleOps(a, b);
    NoLines();
    ops := PushLines([], Keep, before[..start]);
    Concat(ops, middle);
    assert ops == Marked(Keep, before[..start]);
    ops := PushLines(ops + middle, Keep, before[|before| - end..]);
    Assembled(before, after, a, b, before[..start], before[|before| - end..], ops);
  }

  lemma Assembled(before: seq<string>, after: seq<string>, a: seq<string>, b: seq<string>, start: seq<string>,
                  end: seq<string>, ops: seq<Op>)
    requires before == start + a + end && after == start + b + end && Middle(before, after) == (a, b)
    requires Old(ops) == [] + start + a + end && New(ops) == [] + start + b + end
    requires Distance(before, after) == Distance(a, b)
    requires Edits(ops) == if WithinLimits(a, b) then Distance(a, b) else |a| + |b|
    requires !WithinLimits(a, b) ==> Replaces(ops, a, b)
    ensures IsDiff(ops, before, after)
  {
    hide Old, New, Edits, Distance, Middle, WithinLimits, Replaces;
    assert [] + start == start;
  }

  lemma Cut(s: seq<string>, start: nat, end: nat)
    requires start + end <= |s|
    ensures s == s[..start] + s[start..|s| - end] + s[|s| - end..]
    ensures s[start..][..|s[start..]| - end] == s[start..|s| - end]
    ensures s[start..][|s[start..]| - end..] == s[|s| - end..]
  {
  }

  lemma {:induction false} Ends(before: seq<string>, after: seq<string>, start: nat, end: nat)
    requires start + end <= |before| && start + end <= |after| && before[..start] == after[..start]
    requires before[start..][|before[start..]| - end..] == after[start..][|after[start..]| - end..]
    ensures var a, b, e := before[start..|before| - end], after[start..|after| - end], before[|before| - end..];
            && before == before[..start] + a + e && after == before[..start] + b + e
            && Distance(before, after) == Distance(a, b)
            && before[start..][..|before[start..]| - end] == a && after[start..][..|after[start..]| - end] == b
  {
    hide Distance;
    Cut(before, start, end);
    Cut(after, start, end);
    CommonEnds(before[..start], before[start..|before| - end], after[start..|after| - end], before[|before| - end..]);
  }

  // ---------- When the script shown is a shortest one ----------

  predicate NoneShared(a: seq<string>, b: seq<string>) {
    forall i, j :: 0 <= i < |a| && 0 <= j < |b| ==> a[i] != b[j]
  }

  lemma {:induction false} NothingSharedIsFar(a: seq<string>, b: seq<string>)
    requires NoneShared(a, b)
    ensures Distance(a, b) == |a| + |b|
    decreases |a| + |b|
  {
    if a != [] && b != [] {
      NothingSharedIsFar(a[1..], b);
      NothingSharedIsFar(a, b[1..]);
    }
  }

  lemma {:induction false} DropBoth(a: seq<string>, b: seq<string>, i: nat, j: nat)
    requires i <= |a| && j <= |b|
    ensures Distance(a, b) <= i + j + Distance(a[i..], b[j..])
    decreases i + j
  {
    hide Distance;
    if i > 0 {
      ReadOne(a, b);
      DropBoth(a[1..], b, i - 1, j);
      assert a[1..][i - 1..] == a[i..];
    } else if j > 0 {
      WriteOne(a, b);
      DropBoth(a, b[1..], i, j - 1);
      assert b[1..][j - 1..] == b[j..];
    } else {
      assert a[0..] == a && b[0..] == b;
    }
  }

  lemma SharedIsCloser(a: seq<string>, b: seq<string>, i: nat, j: nat)
    requires i < |a| && j < |b| && a[i] == b[j]
    ensures Distance(a, b) < |a| + |b|
  {
    DropBoth(a, b, i, j);
    assert a[i..][0] == b[j..][0] && a[i..][1..] == a[i + 1..] && b[j..][1..] == b[j + 1..];
    assert Distance(a[i..], b[j..]) == Distance(a[i + 1..], b[j + 1..]);
    hide Distance;
    DropBoth(a[i + 1..], b[j + 1..], |a| - i - 1, |b| - j - 1);
    DistanceToNothing([], []);
    assert a[i + 1..][|a| - i - 1..] == [] && b[j + 1..][|b| - j - 1..] == [];
  }

  lemma {:induction false} StartDistance(a: seq<string>, b: seq<string>)
    ensures var (x, y) := WithoutCommonStart(a, b); Distance(x, y) == Distance(a, b)
  {
    if a != [] && b != [] && a[0] == b[0] {
      StartDistance(a[1..], b[1..]);
    }
  }

  lemma {:induction false} EndDistance(a: seq<string>, b: seq<string>)
    ensures var (x, y) := WithoutCommonEnd(a, b); Distance(x, y) == Distance(a, b)
  {
    hide Distance;
    if a != [] && b != [] && a[|a| - 1] == b[|b| - 1] {
      var x, y, e := a[..|a| - 1], b[..|b| - 1], [a[|a| - 1]];
      EndDistance(x, y);
      CommonEnds([], x, y, e);
      assert a == [] + x + e && b == [] + y + e;
    }
  }

  lemma MiddleDistance(before: seq<string>, after: seq<string>)
    ensures var (a, b) := Middle(before, after); Distance(a, b) == Distance(before, after)
  {
    hide Distance, WithoutCommonStart, WithoutCommonEnd;
    var (x, y) := WithoutCommonStart(before, after);
    StartDistance(before, after);
    EndDistance(x, y);
  }

  predicate Shortest(ops: seq<Op>) {
    Edits(ops) == Distance(Old(ops), New(ops))
  }

  /** To have as many edits as the distance is to have no more than any script of the same texts. */
  lemma ShortestIsLeast(ops: seq<Op>)
    ensures Shortest(ops) <==> forall other :: IsScript(other, Old(ops), New(ops)) ==> Edits(ops) <= Edits(other)
  {
    hide Old, New, Deletes, Inserts, Distance, Edits;
    NoScriptBelow(ops);
    var best := ShortestScript(Old(ops), New(ops));
    forall other | IsScript(other, Old(ops), New(ops))
      ensures Distance(Old(ops), New(ops)) <= Edits(other)
    {
      NoScriptBelow(other);
    }
  }

  /**
   * The script shown is a shortest one exactly when the middles are within the limits, or are so different that they
   * share no line.
   */
  lemma ShownIsShortest(before: seq<string>, after: seq<string>, ops: seq<Op>)
    requires IsDiff(ops, before, after)
    ensures var (a, b) := Middle(before, after);
            (forall other :: IsScript(other, before, after) ==> Edits(ops) <= Edits(other)) <==>
            WithinLimits(a, b) || NoneShared(a, b)
  {
    hide Old, New, Deletes, Inserts, Distance, Edits, Middle;
    var (a, b) := Middle(before, after);
    ShortestIsLeast(ops);
    MiddleDistance(before, after);
    if NoneShared(a, b) {
      NothingSharedIsFar(a, b);
    } else {
      var i, j :| 0 <= i < |a| && 0 <= j < |b| && a[i] == b[j];
      SharedIsCloser(a, b, i, j);
    }
  }
}
