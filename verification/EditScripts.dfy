/** Line-by-line edit scripts and the least number of edits between two texts. */
module EditScripts {
  datatype Op = Equal(line: string) | Delete(line: string) | Insert(line: string)

  /** The lines a script reads. */
  function Old(ops: seq<Op>): seq<string> {
    if ops == [] then [] else (if ops[0].Insert? then [] else [ops[0].line]) + Old(ops[1..])
  }

  /** The lines a script writes. */
  function New(ops: seq<Op>): seq<string> {
    if ops == [] then [] else (if ops[0].Delete? then [] else [ops[0].line]) + New(ops[1..])
  }

  function Deletes(ops: seq<Op>): nat {
    if ops == [] then 0 else (if ops[0].Delete? then 1 else 0) + Deletes(ops[1..])
  }

  function Inserts(ops: seq<Op>): nat {
    if ops == [] then 0 else (if ops[0].Insert? then 1 else 0) + Inserts(ops[1..])
  }

  function Edits(ops: seq<Op>): nat {
    Deletes(ops) + Inserts(ops)
  }

  predicate IsScript(ops: seq<Op>, a: seq<string>, b: seq<string>) {
    Old(ops) == a && New(ops) == b
  }

  lemma Associate(x: seq<string>, y: seq<string>, z: seq<string>)
    ensures x + (y + z) == (x + y) + z
  {
  }

  lemma {:induction false} OldConcat(s: seq<Op>, t: seq<Op>)
    ensures Old(s + t) == Old(s) + Old(t)
  {
    if s == [] {
      assert s + t == t;
    } else {
      OldConcat(s[1..], t);
      assert (s + t)[1..] == s[1..] + t;
      var head := if s[0].Insert? then [] else [s[0].line];
      assert Old(s) == head + Old(s[1..]) && Old(s + t) == head + Old(s[1..] + t);
      hide Old;
      Associate(head, Old(s[1..]), Old(t));
    }
  }

  lemma {:induction false} NewConcat(s: seq<Op>, t: seq<Op>)
    ensures New(s + t) == New(s) + New(t)
  {
    if s == [] {
      assert s + t == t;
    } else {
      NewConcat(s[1..], t);
      assert (s + t)[1..] == s[1..] + t;
      var head := if s[0].Delete? then [] else [s[0].line];
      assert New(s) == head + New(s[1..]) && New(s + t) == head + New(s[1..] + t);
      hide New;
      Associate(head, New(s[1..]), New(t));
    }
  }

  lemma {:induction false} CountConcat(s: seq<Op>, t: seq<Op>)
    ensures Deletes(s + t) == Deletes(s) + Deletes(t) && Inserts(s + t) == Inserts(s) + Inserts(t)
  {
    if s == [] {
      assert s + t == t;
    } else {
      CountConcat(s[1..], t);
      assert (s + t)[1..] == s[1..] + t;
    }
  }

  lemma Concat(s: seq<Op>, t: seq<Op>)
    ensures Old(s + t) == Old(s) + Old(t) && New(s + t) == New(s) + New(t)
    ensures Deletes(s + t) == Deletes(s) + Deletes(t) && Inserts(s + t) == Inserts(s) + Inserts(t)
  {
    hide Old, New, Deletes, Inserts;
    OldConcat(s, t);
    NewConcat(s, t);
    CountConcat(s, t);
  }

  lemma Single(op: Op)
    ensures Old([op]) == (if op.Insert? then [] else [op.line]) && New([op]) == (if op.Delete? then [] else [op.line])
    ensures Deletes([op]) == (if op.Delete? then 1 else 0) && Inserts([op]) == (if op.Insert? then 1 else 0)
  {
    assert [op][1..] == [];
  }

  lemma Append(s: seq<Op>, op: Op)
    ensures Old(s + [op]) == Old(s) + (if op.Insert? then [] else [op.line])
    ensures New(s + [op]) == New(s) + (if op.Delete? then [] else [op.line])
    ensures Deletes(s + [op]) == Deletes(s) + if op.Delete? then 1 else 0
    ensures Inserts(s + [op]) == Inserts(s) + if op.Insert? then 1 else 0
  {
    Concat(s, [op]);
    Single(op);
  }

  lemma Prepend(op: Op, s: seq<Op>)
    ensures Old([op] + s) == (if op.Insert? then [] else [op.line]) + Old(s)
    ensures New([op] + s) == (if op.Delete? then [] else [op.line]) + New(s)
    ensures Deletes([op] + s) == Deletes(s) + if op.Delete? then 1 else 0
    ensures Inserts([op] + s) == Inserts(s) + if op.Insert? then 1 else 0
  {
    Concat([op], s);
    Single(op);
  }

  /** Lines gained are inserts less deletes. */
  lemma {:induction false} LinesBalance(ops: seq<Op>)
    ensures |Old(ops)| + Inserts(ops) == |New(ops)| + Deletes(ops)
  {
    if ops != [] {
      LinesBalance(ops[1..]);
    }
  }

  // ---------- The least number of edits ----------

  function Distance(a: seq<string>, b: seq<string>): nat
    decreases |a| + |b|
  {
    if a == [] then |b|
    else if b == [] then |a|
    else if a[0] == b[0] then Distance(a[1..], b[1..])
    else 1 + Least(Distance(a[1..], b), Distance(a, b[1..]))
  }

  function Least(m: nat, n: nat): nat {
    if m <= n then m else n
  }

  lemma {:induction false} DistanceSymmetric(a: seq<string>, b: seq<string>)
    ensures Distance(a, b) == Distance(b, a)
    decreases |a| + |b|
  {
    if a != [] && b != [] {
      if a[0] == b[0] {
        DistanceSymmetric(a[1..], b[1..]);
      } else {
        DistanceSymmetric(a[1..], b);
        DistanceSymmetric(a, b[1..]);
      }
    }
  }

  /** Reading one more line costs one edit at most ... */
  lemma {:induction false} ReadOne(a: seq<string>, b: seq<string>)
    requires a != []
    ensures Distance(a, b) <= 1 + Distance(a[1..], b)
    decreases |a| + |b|
  {
    if b != [] && a[0] == b[0] {
      WriteOneLess(a[1..], b);
    }
  }

  /** ... and so does writing one line less. */
  lemma {:induction false} WriteOneLess(a: seq<string>, b: seq<string>)
    requires b != []
    ensures Distance(a, b[1..]) <= 1 + Distance(a, b)
    decreases |a| + |b|
  {
    if a != [] {
      ReadOne(a, b[1..]);
      if a[0] != b[0] {
        WriteOneLess(a[1..], b);
      }
    }
  }

  lemma WriteOne(a: seq<string>, b: seq<string>)
    requires b != []
    ensures Distance(a, b) <= 1 + Distance(a, b[1..])
  {
    hide Distance;
    ReadOne(b, a);
    DistanceSymmetric(a, b);
    DistanceSymmetric(a, b[1..]);
  }

  /** No script makes fewer edits than the distance. */
  lemma {:induction false} NoScriptBelow(ops: seq<Op>)
    ensures Distance(Old(ops), New(ops)) <= Edits(ops)
  {
    if ops != [] {
      NoScriptBelow(ops[1..]);
      var a, b := Old(ops), New(ops);
      hide Distance;
      match ops[0]
      case Equal(_) =>
        assert a[1..] == Old(ops[1..]) && b[1..] == New(ops[1..]);
      case Delete(_) =>
        assert a[1..] == Old(ops[1..]) && b == New(ops[1..]);
        ReadOne(a, b);
      case Insert(_) =>
        assert b[1..] == New(ops[1..]) && a == Old(ops[1..]);
        WriteOne(a, b);
    }
  }

  /** Some script makes no more. */
  lemma {:induction false} ShortestScript(a: seq<string>, b: seq<string>) returns (ops: seq<Op>)
    ensures IsScript(ops, a, b) && Edits(ops) == Distance(a, b)
    decreases |a| + |b|
  {
    if a == [] && b == [] {
      ops := [];
    } else if a != [] && b != [] && a[0] == b[0] {
      var rest := ShortestScript(a[1..], b[1..]);
      ops := [Equal(a[0])] + rest;
      Prepend(Equal(a[0]), rest);
      assert a == [a[0]] + a[1..] && b == [b[0]] + b[1..];
    } else if b == [] || (a != [] && Distance(a[1..], b) <= Distance(a, b[1..])) {
      var rest := ShortestScript(a[1..], b);
      ops := [Delete(a[0])] + rest;
      Prepend(Delete(a[0]), rest);
      assert a == [a[0]] + a[1..];
    } else {
      var rest := ShortestScript(a, b[1..]);
      ops := [Insert(b[0])] + rest;
      Prepend(Insert(b[0]), rest);
      assert b == [b[0]] + b[1..];
    }
  }

  // ---------- Common ends cost nothing ----------

  function Reversed<T>(s: seq<T>): (r: seq<T>) {
    if s == [] then [] else Reversed(s[1..]) + [s[0]]
  }

  lemma {:induction false} ReversedConcat<T>(s: seq<T>, t: seq<T>)
    ensures Reversed(s + t) == Reversed(t) + Reversed(s)
  {
    if s == [] {
      assert s + t == t;
    } else {
      ReversedConcat(s[1..], t);
      assert (s + t)[1..] == s[1..] + t;
    }
  }

  lemma {:induction false} ReversedTwice<T>(s: seq<T>)
    ensures Reversed(Reversed(s)) == s
  {
    if s != [] {
      ReversedTwice(s[1..]);
      ReversedConcat(Reversed(s[1..]), [s[0]]);
      assert [s[0]][1..] == [];
      assert s == [s[0]] + s[1..];
    }
  }

  /** A script read backwards edits the texts read backwards. */
  lemma {:induction false} ReversedScript(ops: seq<Op>)
    ensures IsScript(Reversed(ops), Reversed(Old(ops)), Reversed(New(ops))) && Edits(Reversed(ops)) == Edits(ops)
  {
    if ops != [] {
      ReversedScript(ops[1..]);
      Append(Reversed(ops[1..]), ops[0]);
      ReversedLine(ops[0].line, Old(ops[1..]));
      ReversedLine(ops[0].line, New(ops[1..]));
    }
  }

  lemma ReversedLine(line: string, rest: seq<string>)
    ensures Reversed([line] + rest) == Reversed(rest) + [line] && [] + rest == rest
  {
    assert ([line] + rest)[1..] == rest;
  }

  lemma ReversedNotFarther(a: seq<string>, b: seq<string>)
    ensures Distance(Reversed(a), Reversed(b)) <= Distance(a, b)
  {
    hide Distance, Reversed, Old, New, Edits;
    var ops := ShortestScript(a, b);
    ReversedScript(ops);
    NoScriptBelow(Reversed(ops));
  }

  lemma ReversedDistance(a: seq<string>, b: seq<string>)
    ensures Distance(Reversed(a), Reversed(b)) == Distance(a, b)
  {
    hide Distance, Reversed;
    ReversedNotFarther(a, b);
    ReversedNotFarther(Reversed(a), Reversed(b));
    ReversedTwice(a);
    ReversedTwice(b);
  }

  lemma {:induction false} CommonStart(c: seq<string>, a: seq<string>, b: seq<string>)
    ensures Distance(c + a, c + b) == Distance(a, b)
  {
    if c == [] {
      assert c + a == a && c + b == b;
    } else {
      CommonStart(c[1..], a, b);
      assert (c + a)[1..] == c[1..] + a && (c + b)[1..] == c[1..] + b;
    }
  }

  /** Lines that both texts begin or end with never cost an edit. */
  lemma CommonEnds(c: seq<string>, a: seq<string>, b: seq<string>, e: seq<string>)
    ensures Distance(c + a + e, c + b + e) == Distance(a, b)
  {
    hide Distance, Reversed;
    assert c + a + e == c + (a + e) && c + b + e == c + (b + e);
    CommonStart(c, a + e, b + e);
    ReversedDistance(a + e, b + e);
    ReversedConcat(a, e);
    ReversedConcat(b, e);
    CommonStart(Reversed(e), Reversed(a), Reversed(b));
    ReversedDistance(a, b);
  }
}
