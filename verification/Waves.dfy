/**
 * The furthest points that so many edits reach, diagonal by diagonal.
 *
 * A point (x, y) has read x lines of `a` and written y lines of `b`; after d
 * edits of which i are deletes it lies on the diagonal x - y == 2i - d.
 */
module Waves {
  import opened EditScripts

  /** Along the diagonal for as long as the lines agree. */
  function Slide(a: seq<string>, b: seq<string>, x: nat, y: nat): (r: nat)
    ensures r >= x && (r > x ==> r <= |a| && r - x + y <= |b|)
    ensures forall j :: x <= j < r ==> j < |a| && j - x + y < |b| && a[j] == b[j - x + y]
    ensures !(r < |a| && r - x + y < |b| && a[r] == b[r - x + y])
    decreases |a| - x
  {
    if x < |a| && y < |b| && a[x] == b[y] then Slide(a, b, x + 1, y + 1) else x
  }

  /** The better of an insert from the diagonal above and a delete from the one below. */
  function Start(a: seq<string>, b: seq<string>, d: nat, i: nat): (x: nat)
    requires i <= d
    ensures x + d >= 2 * i
    decreases d, 0
  {
    if d == 0 then 0
    else if i == 0 || (i < d && Reach(a, b, d - 1, i - 1) < Reach(a, b, d - 1, i)) then Reach(a, b, d - 1, i)
    else Reach(a, b, d - 1, i - 1) + 1
  }

  function Reach(a: seq<string>, b: seq<string>, d: nat, i: nat): (x: nat)
    requires i <= d
    ensures x + d >= 2 * i
    decreases d, 1
  {
    var x := Start(a, b, d, i);
    Slide(a, b, x, x + d - 2 * i)
  }

  predicate Hit(a: seq<string>, b: seq<string>, d: nat, i: nat) {
    i <= d && Reach(a, b, d, i) >= |a| && Reach(a, b, d, i) + d - 2 * i >= |b|
  }

  /** No round before the n-th gets to the ends of both texts. */
  ghost predicate Quiet(a: seq<string>, b: seq<string>, n: nat) {
    forall d: nat, i: nat :: d < n && i <= d ==> !Hit(a, b, d, i)
  }

  /** The last edit on the way to a point, and that neither edit gets further. */
  lemma {:induction false} LastEdit(a: seq<string>, b: seq<string>, d: nat, i: nat) returns (insert: bool)
    requires 0 < d && i <= d
    ensures insert ==> i < d && Start(a, b, d, i) == Reach(a, b, d - 1, i)
    ensures !insert ==> 0 < i && Start(a, b, d, i) == Reach(a, b, d - 1, i - 1) + 1
    ensures i < d ==> Start(a, b, d, i) >= Reach(a, b, d - 1, i)
    ensures 0 < i ==> Start(a, b, d, i) >= Reach(a, b, d - 1, i - 1) + 1
  {
    hide Reach;
    insert := i == 0 || (i < d && Reach(a, b, d - 1, i - 1) < Reach(a, b, d - 1, i));
  }

  lemma {:induction false} SlideBounds(a: seq<string>, b: seq<string>, d: nat, i: nat)
    requires i <= d
    ensures var x, r := Start(a, b, d, i), Reach(a, b, d, i);
            && x <= r && (d == 0 ==> x == 0)
            && (x < r ==> r <= |a| && r + d - 2 * i <= |b|)
            && !(r < |a| && r + d - 2 * i < |b| && a[r] == b[r + d - 2 * i])
  {
    hide Slide;
  }

  /** A point that has written e lines too many has a point level with it that has written enough. */
  lemma {:induction false} MirrorOfSurplusWritten(a: seq<string>, b: seq<string>, d: nat, i: nat, e: nat)
    requires i <= d && 0 < e && Reach(a, b, d, i) + d - 2 * i == |b| + e
    ensures i + e <= d && Reach(a, b, d, i + e) >= Reach(a, b, d, i) + e
    decreases d
  {
    hide Reach, Start, Slide;
    SlideBounds(a, b, d, i);
    if d > 0 {
      var insert := LastEdit(a, b, d, i);
      if !insert {
        MirrorOfSurplusWritten(a, b, d - 1, i - 1, e);
      } else if e > 1 {
        MirrorOfSurplusWritten(a, b, d - 1, i, e - 1);
      }
      var _ := LastEdit(a, b, d, i + e);
      SlideBounds(a, b, d, i + e);
    }
  }

  lemma {:induction false} MirrorOfSurplusRead(a: seq<string>, b: seq<string>, d: nat, i: nat, e: nat)
    requires i <= d && 0 < e && Reach(a, b, d, i) == |a| + e
    ensures e <= i && Reach(a, b, d, i - e) >= |a|
    decreases d
  {
    hide Reach, Start, Slide;
    SlideBounds(a, b, d, i);
    if d > 0 {
      var insert := LastEdit(a, b, d, i);
      if insert {
        MirrorOfSurplusRead(a, b, d - 1, i, e);
      } else if e > 1 {
        MirrorOfSurplusRead(a, b, d - 1, i - 1, e - 1);
      }
      var _ := LastEdit(a, b, d, i - e);
      SlideBounds(a, b, d, i - e);
    }
  }

  /** Where a point is past one end and within an edit of the other, some point is at both. */
  lemma {:induction false} SurplusHits(a: seq<string>, b: seq<string>, d: nat, i: nat) returns (j: nat)
    requires i <= d
    requires var x, y := Reach(a, b, d, i), Reach(a, b, d, i) + d - 2 * i;
             (x > |a| && y + 1 >= |b|) || (y > |b| && x + 1 >= |a|)
    ensures j <= d && Hit(a, b, d, j)
  {
    hide Reach;
    var x := Reach(a, b, d, i);
    if x > |a| && x + d - 2 * i + 1 >= |b| {
      MirrorOfSurplusRead(a, b, d, i, x - |a|);
      j := i - (x - |a|);
    } else {
      var e := x + d - 2 * i - |b|;
      MirrorOfSurplusWritten(a, b, d, i, e);
      j := i + e;
    }
  }

  /** The first point at the ends of both texts is past neither. */
  lemma {:induction false} FirstHitIsCorner(a: seq<string>, b: seq<string>, d: nat, i: nat)
    requires a != [] && b != [] && Quiet(a, b, d) && Hit(a, b, d, i)
    ensures Reach(a, b, d, i) == |a| && |a| + d == |b| + 2 * i
  {
    hide Reach, Start, Slide;
    var x, r := Start(a, b, d, i), Reach(a, b, d, i);
    SlideBounds(a, b, d, i);
    if r == x && d > 0 {
      var insert := LastEdit(a, b, d, i);
      if insert {
        assert !Hit(a, b, d - 1, i);
        if r > |a| {
          var _ := SurplusHits(a, b, d - 1, i);
        }
      } else {
        assert !Hit(a, b, d - 1, i - 1);
        if r + d - 2 * i > |b| {
          var _ := SurplusHits(a, b, d - 1, i - 1);
        }
      }
    }
  }

  lemma {:induction false} LastOp(ops: seq<Op>) returns (init: seq<Op>, op: Op)
    requires ops != []
    ensures |init| < |ops| && Old(init) <= Old(ops) && New(init) <= New(ops)
    ensures Edits(ops) == Edits(init) + if op.Equal? then 0 else 1
    ensures Deletes(ops) == Deletes(init) + if op.Delete? then 1 else 0
    ensures Deletes(init) <= Edits(init) && |New(init)| == |Old(init)| + Edits(init) - 2 * Deletes(init)
    ensures |Old(ops)| == |Old(init)| + if op.Insert? then 0 else 1
    ensures op.Equal? ==> |Old(ops)| > |Old(init)| && |New(ops)| > |New(init)|
    ensures op.Equal? ==> Old(ops)[|Old(init)|] == New(ops)[|New(init)|]
  {
    hide Old, New, Deletes, Inserts;
    init, op := ops[..|ops| - 1], ops[|ops| - 1];
    assert ops == init + [op];
    Append(init, op);
    LinesBalance(init);
  }

  /** An edit or an agreeing line more leads no further than the furthest point of the edits so far. */
  lemma OneOpWithin(a: seq<string>, b: seq<string>, d: nat, i: nat, x: nat, op: Op)
    requires i <= d && Reach(a, b, d, i) >= x && x + d >= 2 * i
    ensures op.Delete? ==> Reach(a, b, d + 1, i + 1) >= x + 1
    ensures op.Insert? ==> Reach(a, b, d + 1, i) >= x
    ensures op.Equal? && x < |a| && x + d - 2 * i < |b| && a[x] == b[x + d - 2 * i] ==> Reach(a, b, d, i) >= x + 1
  {
    hide Reach, Start, Slide;
    match op
    case Equal(_) => SlideBounds(a, b, d, i);
    case Delete(_) =>
      var _ := LastEdit(a, b, d + 1, i + 1);
      SlideBounds(a, b, d + 1, i + 1);
    case Insert(_) =>
      var _ := LastEdit(a, b, d + 1, i);
      SlideBounds(a, b, d + 1, i);
  }

  /** A script gets no further than the furthest point of its edits. */
  lemma {:induction false} ScriptWithinReach(a: seq<string>, b: seq<string>, ops: seq<Op>)
    requires Old(ops) <= a && New(ops) <= b
    ensures Deletes(ops) <= Edits(ops) && Reach(a, b, Edits(ops), Deletes(ops)) >= |Old(ops)|
    decreases |ops|
  {
    if ops == [] {
      hide Reach;
    } else {
      hide Reach, Old, New, Deletes, Inserts, Edits;
      var init, op := LastOp(ops);
      ScriptWithinReach(a, b, init);
      OneOpWithin(a, b, Edits(init), Deletes(init), |Old(init)|, op);
    }
  }

  lemma {:induction false} ScriptHits(a: seq<string>, b: seq<string>, ops: seq<Op>)
    requires IsScript(ops, a, b)
    ensures Hit(a, b, Edits(ops), Deletes(ops))
  {
    hide Reach;
    ScriptWithinReach(a, b, ops);
    LinesBalance(ops);
  }

  /** As long as all is quiet the texts are further apart than that. */
  lemma {:induction false} QuietIsFar(a: seq<string>, b: seq<string>, n: nat)
    requires Quiet(a, b, n)
    ensures Distance(a, b) >= n
  {
    hide Hit, Distance;
    var ops := ShortestScript(a, b);
    ScriptHits(a, b, ops);
  }
}
