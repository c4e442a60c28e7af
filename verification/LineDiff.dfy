/** The line diff of a review: common ends, then the search for a shortest script. */
module LineDiff {
  import opened Wrappers
  import opened EditScripts
  import opened Waves

  const MAX_LINES: nat := 4000
  const MAX_EDITS: nat := 2000

  // ---------- The table of furthest points ----------

  ghost predicate Slot(a: seq<string>, b: seq<string>, v: seq<nat>, d: nat, i: nat) {
    && i <= d <= |a| + |b| && |v| == 2 * (|a| + |b|) + 1
    && v[2 * i - d + |a| + |b|] == Reach(a, b, d, i)
  }

  /** The slots of diagonals lo to hi of round d. */
  ghost predicate Wave(a: seq<string>, b: seq<string>, v: seq<nat>, d: nat, lo: int, hi: int) {
    forall i: nat :: lo <= i < hi ==> Slot(a, b, v, d, i)
  }

  /** The table as round d finds it, from its i-th diagonal on. */
  ghost predicate Ready(a: seq<string>, b: seq<string>, v: seq<nat>, d: nat, i: nat) {
    && |v| == 2 * (|a| + |b|) + 1
    && if d == 0 then i == 0 && |a| + |b| > 0 ==> v[|a| + |b| + 1] == 0 else Wave(a, b, v, d - 1, i - 1, d)
  }

  /** Where round d starts on diagonal k, from the table it finds. */
  method StartOn(a: seq<string>, b: seq<string>, v: array<nat>, d: nat, k: int, ghost i: nat) returns (x: nat)
    requires a != [] && b != [] && i <= d <= |a| + |b| && k == 2 * i - d
    requires Ready(a, b, v[..], d, i)
    ensures x == Start(a, b, d, i)
  {
    hide Reach;
    var offset := |a| + |b|;
    assert 0 < i ==> Slot(a, b, v[..], d - 1, i - 1);
    assert i < d ==> Slot(a, b, v[..], d - 1, i);
    if k == 0 - d || (k != d && v[k - 1 + offset] < v[k + 1 + offset]) {
      x := v[k + 1 + offset];
    } else {
      x := v[k - 1 + offset] + 1;
    }
  }

  lemma {:induction false} SlotFilled(a: seq<string>, b: seq<string>, v: seq<nat>, d: nat, i: nat)
    requires i <= d <= |a| + |b| && Ready(a, b, v, d, i) && Wave(a, b, v, d, 0, i)
    ensures var w := v[2 * i - d + |a| + |b| := Reach(a, b, d, i)];
            Ready(a, b, w, d, i + 1) && Wave(a, b, w, d, 0, i + 1)
  {
    hide Reach;
    var w := v[2 * i - d + |a| + |b| := Reach(a, b, d, i)];
    forall j: nat | 0 <= j < i
      ensures Slot(a, b, w, d, j)
    {
      assert Slot(a, b, v, d, j);
    }
    if d > 0 {
      var p: nat := d - 1;
      forall j: nat | i <= j < d
        ensures Slot(a, b, w, p, j)
      {
        assert Slot(a, b, v, p, j);
      }
    }
  }

  /** One round: every diagonal in turn, until one gets to the ends of both texts. */
  method Round(a: seq<string>, b: seq<string>, v: array<nat>, d: nat) returns (found: bool)
    requires a != [] && b != [] && d <= |a| + |b| && Ready(a, b, v[..], d, 0)
    modifies v
    ensures found ==> exists i: nat :: i <= d && Hit(a, b, d, i)
    ensures !found ==> Ready(a, b, v[..], d + 1, 0) && forall i: nat :: i <= d ==> !Hit(a, b, d, i)
  {
    hide Start, Ready, Wave;
    var offset := |a| + |b|;
    var k := 0 - d;
    ghost var i: nat := 0;
    EmptyWave(a, b, v[..], d);
    while k <= d
      invariant i <= d + 1 && k == 2 * i - d
      invariant Ready(a, b, v[..], d, i) && Wave(a, b, v[..], d, 0, i)
      invariant forall j: nat :: j < i ==> !Hit(a, b, d, j)
      decreases d + 1 - i
    {
      var x := StartOn(a, b, v, d, k, i);
      var y := x - k;
      x, y := Follow(a, b, x, y);
      assert x == Reach(a, b, d, i);
      SlotFilled(a, b, v[..], d, i);
      v[k + offset] := x;
      if x >= |a| && y >= |b| {
        assert Hit(a, b, d, i);
        return true;
      }
      k := k + 2;
      i := i + 1;
    }
    WaveReady(a, b, v[..], d);
    return false;
  }

  lemma EmptyWave(a: seq<string>, b: seq<string>, v: seq<nat>, d: nat)
    requires Ready(a, b, v, d, 0)
    ensures Wave(a, b, v, d, 0, 0) && |v| == 2 * (|a| + |b|) + 1
  {
  }

  lemma WaveReady(a: seq<string>, b: seq<string>, v: seq<nat>, d: nat)
    requires Wave(a, b, v, d, 0, d + 1)
    ensures Ready(a, b, v, d + 1, 0)
  {
    assert Slot(a, b, v, d, 0);
  }

  /** The snake: matching lines from a point on. */
  method Follow(a: seq<string>, b: seq<string>, x0: nat, y0: nat) returns (x: nat, y: nat)
    ensures x == Slide(a, b, x0, y0) && x - y == x0 - y0
  {
    x, y := x0, y0;
    while x < |a| && y < |b| && a[x] == b[y]
      invariant x - y == x0 - y0 && x >= x0 && Slide(a, b, x, y) == Slide(a, b, x0, y0)
    {
      x, y := x + 1, y + 1;
    }
  }

  /** The limit on edits of a search. */
  function Limit(a: seq<string>, b: seq<string>): nat {
    Least(|a| + |b|, MAX_EDITS)
  }

  /** Round after round, keeping the table each one found. */
  method Search(a: seq<string>, b: seq<string>) returns (solved: Option<nat>, trace: seq<seq<nat>>)
    requires a != [] && b != []
    ensures forall r: nat :: r < |trace| ==> Ready(a, b, trace[r], r, 0)
    ensures solved.Some? ==> solved.value < |trace| && solved.value <= Limit(a, b) && Quiet(a, b, solved.value)
    ensures solved.Some? ==> exists i: nat :: i <= solved.value && Hit(a, b, solved.value, i)
    ensures solved.None? ==> Quiet(a, b, Limit(a, b) + 1)
  {
    hide Hit, Wave;
    var v := new nat[2 * (|a| + |b|) + 1](_ => 0);
    trace := [];
    for d := 0 to Limit(a, b) + 1
      invariant |trace| == d && forall r: nat :: r < d ==> Ready(a, b, trace[r], r, 0)
      invariant Ready(a, b, v[..], d, 0) && Quiet(a, b, d)
    {
      hide Ready;
      trace := trace + [v[..]];
      var found := Round(a, b, v, d);
      if found {
        return Some(d), trace;
      }
    }
    solved := None;
  }

  // ---------- The way back ----------

  /** `ops`, last operation first, edits the rest of both texts from (x, y) on. */
  ghost predicate Rest(a: seq<string>, b: seq<string>, ops: seq<Op>, x: nat, y: nat, edits: nat) {
    && x <= |a| && y <= |b|
    && IsScript(Reversed(ops), a[x..], b[y..]) && Edits(Reversed(ops)) == edits
  }

  lemma Push(a: seq<string>, b: seq<string>, ops: seq<Op>, x: nat, y: nat, edits: nat, op: Op)
    requires Rest(a, b, ops, x, y, edits)
    ensures x > 0 && op == Delete(a[x - 1]) ==> Rest(a, b, ops + [op], x - 1, y, edits + 1)
    ensures y > 0 && op == Insert(b[y - 1]) ==> Rest(a, b, ops + [op], x, y - 1, edits + 1)
    ensures x > 0 && y > 0 && op == Equal(a[x - 1]) && a[x - 1] == b[y - 1] ==>
              Rest(a, b, ops + [op], x - 1, y - 1, edits)
  {
    hide Old, New, Deletes, Inserts;
    OnePushed(ops, op);
    Prepend(op, Reversed(ops));
    if x > 0 {
      assert a[x - 1..] == [a[x - 1]] + a[x..];
    }
    if y > 0 {
      assert b[y - 1..] == [b[y - 1]] + b[y..];
    }
  }

  lemma OnePushed(ops: seq<Op>, op: Op)
    ensures Reversed(ops + [op]) == [op] + Reversed(ops)
  {
    ReversedConcat(ops, [op]);
    assert [op][1..] == [];
  }

  /** The lines agree all along a slide. */
  lemma SnakeLine(a: seq<string>, b: seq<string>, d: nat, i: nat, x: nat)
    requires i <= d && Start(a, b, d, i) < x <= Reach(a, b, d, i)
    ensures x <= |a| && 0 < x + d - 2 * i <= |b| && a[x - 1] == b[x + d - 2 * i - 1]
  {
    hide Start, Slide;
    var s, j := Start(a, b, d, i), x - 1;
    assert j < |a| && j - s + (s + d - 2 * i) < |b| && a[j] == b[j - s + (s + d - 2 * i)];
  }

  /** The furthest point of the round before, as the table of round d has it. */
  method Previous(a: seq<string>, b: seq<string>, v: seq<nat>, d: nat, k: int, ghost i: nat) returns (x: nat, y: nat)
    requires 0 < d <= |a| + |b| && i <= d && k == 2 * i - d && Ready(a, b, v, d, 0)
    ensures Start(a, b, d, i) == x && y + 1 == x + d - 2 * i ==> i < d && x == Reach(a, b, d - 1, i)
    ensures Start(a, b, d, i) == x + 1 && y == x + 1 + d - 2 * i ==> 0 < i && x == Reach(a, b, d - 1, i - 1)
    ensures (Start(a, b, d, i) == x && y + 1 == x + d - 2 * i) || (Start(a, b, d, i) == x + 1 && y == x + 1 + d - 2 * i)
  {
    hide Reach;
    var offset := |a| + |b|;
    assert 0 < i ==> Slot(a, b, v, d - 1, i - 1);
    assert i < d ==> Slot(a, b, v, d - 1, i);
    var prevK := if k == 0 - d || (k != d && v[k - 1 + offset] < v[k + 1 + offset]) then k + 1 else k - 1;
    x := v[prevK + offset];
    y := x - prevK;
  }

  /** From the ends of both texts back to their beginnings, one edit a round. */
  method Backtrack(a: seq<string>, b: seq<string>, trace: seq<seq<nat>>, rounds: nat, ghost top: nat) returns (ops: seq<Op>)
    requires top <= rounds <= |a| + |b| && Reach(a, b, rounds, top) == |a| && |a| + rounds == |b| + 2 * top
    requires rounds < |trace| && forall r: nat :: r <= rounds ==> Ready(a, b, trace[r], r, 0)
    ensures IsScript(ops, a, b) && Edits(ops) == rounds
  {
    hide Reach, Start, Ready, Rest;
    ops := [];
    var d: nat, x: nat, y: nat := rounds, |a|, |b|;
    ghost var i: nat := top;
    NothingLeft(a, b);
    while d > 0
      invariant i <= d <= rounds && x == Reach(a, b, d, i) && x + d == y + 2 * i
      invariant Rest(a, b, ops, x, y, rounds - d)
    {
      RestInside(a, b, ops, x, y, rounds - d);
      var prevX, prevY := Previous(a, b, trace[d], d, x - y, i);
      SlideBounds(a, b, d, i);
      while x > prevX && y > prevY
        invariant Start(a, b, d, i) <= x <= Reach(a, b, d, i) && x + d == y + 2 * i
        invariant Rest(a, b, ops, x, y, rounds - d)
      {
        SnakeLine(a, b, d, i, x);
        Push(a, b, ops, x, y, rounds - d, Equal(a[x - 1]));
        ops := ops + [Equal(a[x - 1])];
        x, y := x - 1, y - 1;
      }
      RestInside(a, b, ops, x, y, rounds - d);
      if x == prevX {
        Push(a, b, ops, x, y, rounds - d, Insert(b[y - 1]));
        ops := ops + [Insert(b[y - 1])];
        y := y - 1;
      } else {
        Push(a, b, ops, x, y, rounds - d, Delete(a[x - 1]));
        ops := ops + [Delete(a[x - 1])];
        x := x - 1;
        i := i - 1;
      }
      d := d - 1;
    }
    SlideBounds(a, b, 0, 0);
    while x > 0 && y > 0
      invariant x == y && x <= Reach(a, b, 0, 0) && Rest(a, b, ops, x, y, rounds)
    {
      SnakeLine(a, b, 0, 0, x);
      Push(a, b, ops, x, y, rounds, Equal(a[x - 1]));
      ops := ops + [Equal(a[x - 1])];
      x, y := x - 1, y - 1;
    }
    WholeScript(a, b, ops, rounds);
    ops := Reversed(ops);
  }

  lemma NothingLeft(a: seq<string>, b: seq<string>)
    ensures Rest(a, b, [], |a|, |b|, 0)
  {
  }

  lemma RestInside(a: seq<string>, b: seq<string>, ops: seq<Op>, x: nat, y: nat, edits: nat)
    requires Rest(a, b, ops, x, y, edits)
    ensures x <= |a| && y <= |b|
  {
  }

  lemma WholeScript(a: seq<string>, b: seq<string>, ops: seq<Op>, edits: nat)
    requires Rest(a, b, ops, 0, 0, edits)
    ensures IsScript(Reversed(ops), a, b) && Edits(Reversed(ops)) == edits
  {
    assert a[0..] == a && b[0..] == b;
  }
}
