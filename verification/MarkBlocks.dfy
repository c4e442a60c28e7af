/** A pass that hides only mark bytes turns a block of them into the mark, and no such change undoes another. */
module MarkBlocks {
  import opened Wrappers
  import opened Utf8
  import opened Scanner
  import opened Patterns
  import opened Sanitizer
  import opened SanitizeLine
  import opened ScanOutput
  import opened KeyValueParts
  import opened Removals
  import EP = EnvParts
  import KV = KeyValueTwice
  import Env = EnvTwice

  // ---------- Replaced blocks of mark bytes ----------

  /** A longest run of bytes of the mark. */
  ghost predicate Block(s: string, x: nat, v: string) {
    && x + |v| <= |s| && s[x..x + |v|] == v && (forall k :: x <= k < x + |v| ==> s[k] in MARK)
    && (x + |v| == |s| || s[x + |v|] !in MARK)
  }

  lemma OneBlock(s: string, x: nat, v: string, z: string)
    requires Block(s, x, v) && Block(s, x, z)
    ensures v == z
  {
    hide MARK;
    assert |v| == |z|;
  }

  /** One block, behind a byte that no mark has, becomes the mark; all before it stays. */
  ghost predicate BlockChange(s: string, o: string, x: nat, v: string) {
    && 0 < x <= |s| && x <= |o| && s[..x] == o[..x] && s[x - 1] !in MARK
    && Block(s, x, v) && v != MARK && Block(o, x, MARK)
  }

  /** A block that ends before an index where two texts still agree is one in both. */
  lemma BlockShared(s: string, o: string, y: nat, x: nat, v: string)
    requires y <= x <= |s| && x <= |o| && s[..x] == o[..x] && Block(s, y, v) && y < x && s[x - 1] !in MARK
    ensures Block(o, y, v)
  {
    hide MARK;
    forall k | 0 <= k < x
      ensures s[k] == o[k]
    {
      assert s[..x][k] == o[..x][k];
    }
    assert s[y..y + |v|] == o[y..y + |v|];
  }

  /** No such change undoes another. */
  lemma NoWayBack(t: string, u: string, x: nat, v: string, y: nat, z: string)
    requires BlockChange(t, u, x, v)
    ensures !BlockChange(u, t, y, z)
  {
    hide MARK, Block;
    if BlockChange(u, t, y, z) {
      if y < x {
        SharedByte(t, u, x);
        BlockShared(u, t, y, x, z);
        OneBlock(t, y, z, MARK);
      } else if x < y {
        BlockShared(u, t, x, y, MARK);
        OneBlock(t, x, v, MARK);
      } else {
        OneBlock(u, x, MARK, z);
      }
    }
  }

  lemma SharedByte(s: string, o: string, x: nat)
    requires 0 < x <= |s| && x <= |o| && s[..x] == o[..x]
    ensures s[x - 1] == o[x - 1]
  {
    assert s[..x][x - 1] == o[..x][x - 1];
  }

  /** Mark bytes are bare, and may be in a content. */
  lemma MarkClasses(c: char)
    ensures c in MARK ==> In(Bare, c) && In(EnvValue, c) && !IsQuote(c) && !In(Blank, c) && c != '=' && c != ':'
  {
  }

  /** What the key-value pass changes first, if all it hides is mark bytes. */
  lemma KeyValueChange(t: string) returns (x: nat, v: string)
    requires Valid(t) && KeyValuePass(t) != t && !BearerExposed(t)
    requires forall c :: c !in MARK ==> !Removes(KeyValueMatcher, t, 0, c)
    ensures BlockChange(t, KeyValuePass(t), x, v)
  {
    hide Valid, KeyValuePass, KeyValueMatch, Rest, Suits, Removes, MARK, Aligned, BlockChange, BearerExposed, In;
    KV.RestOfAll(t);
    assert t[0..] == t;
    var j := FirstChange(KeyValueMatcher, t, 0);
    KV.Matches(t, j);
    KV.Keeps(t, j);
    var cut := KeyValueMatch(t, j).value;
    x, v := cut.keep, t[cut.keep..cut.next];
    AlwaysMark(KeyValueMatcher, t, j);
    BareCut(t, j);
    KV.Keeps(t, cut.next);
    ChangeIsBlock(KeyValueMatcher, t, j);
  }

  lemma AlwaysMark(m: Matcher, s: string, j: nat)
    requires ChangesAt(m, s, 0, j) && HiddenRemoved(m, s, 0, j)
    requires forall c :: c !in MARK ==> !Removes(m, s, 0, c)
    ensures var cut := m(s, j).value; cut.keep <= cut.next <= |s| && forall k :: cut.keep <= k < cut.next ==> s[k] in MARK
  {
    hide MARK, Removes, Rest, Boundary;
    var cut := m(s, j).value;
    forall k | cut.keep <= k < cut.next
      ensures s[k] in MARK
    {
      assert s[cut.keep..cut.next][k - cut.keep] == s[k];
    }
  }

  /** A cut that hides only mark bytes hides a bare run, right after a separator. */
  lemma BareCut(t: string, j: nat)
    requires KeyValueMatch(t, j).Some? && !BearerExposed(t)
    requires var cut := KeyValueMatch(t, j).value;
             cut.keep <= cut.next <= |t| && forall k :: cut.keep <= k < cut.next ==> t[k] in MARK
    ensures var cut := KeyValueMatch(t, j).value;
            && 0 < cut.keep && t[cut.keep - 1] !in MARK && cut.keep < cut.next && (cut.next < |t| ==> t[cut.next] !in MARK)
  {
    hide KeyValueMatch, MARK, RunEnd, Separator, LowerStarts, In;
    var cut := KeyValueMatch(t, j).value;
    MatchShape(t, j);
    var k := Separator(t, j).value;
    SeparatorShape(t, j, k);
    var v := RunEnd(t, k + 1, Blank);
    MarkClasses('=');
    MarkClasses(':');
    if AfterBearer(t, cut) {
      BearerIsExposed(t, v);
    } else {
      LongValue(t, j, k);
      if v > cut.keep {
        MarkClasses(t[cut.keep]);
      } else {
        MarkClasses(t[v]);
        if cut.next < |t| {
          MarkClasses(t[cut.next]);
        }
      }
    }
  }

  lemma LongValue(t: string, j: nat, k: nat)
    requires KeyValueMatch(t, j).Some? && Separator(t, j) == Some(k) && !AfterBearer(t, KeyValueMatch(t, j).value)
    ensures var v := RunEnd(t, k + 1, Blank); v < |t| && ValueEnd(t, v).1 > v
    ensures KeyValueMatch(t, j).value.keep == k + 1
            && KeyValueMatch(t, j).value.next == ValueEnd(t, RunEnd(t, k + 1, Blank)).1
  {
    hide KeyAt, SECRET_KEYS, RunEnd, KeyValueMatch, Separator, LowerStarts, ValueEnd;
    MatchParts(t, j);
    MatchShape(t, j);
    SeparatorShape(t, j, k);
    var v := RunEnd(t, k + 1, Blank);
    ValueOrder(t, v);
    if LowerStarts(t, v, BEARER) {
      BearerSpace(t, v);
    }
  }

  lemma ValueOrder(t: string, v: nat)
    requires v <= |t|
    ensures v <= ValueEnd(t, v).0 <= ValueEnd(t, v).1 <= |t|
  {
    hide RunEnd;
  }

  lemma BearerIsExposed(t: string, v: nat)
    requires LowerStarts(t, v, BEARER) && RunEnd(t, v + 7, BearerValue) >= v + 15 && v + 7 <= |t|
    ensures BearerExposed(t)
  {
    hide RunEnd, LowerStarts;
    BearerSpace(t, v);
    assert BearerAt(t, v);
  }

  /** The first change is one of a block, if it hides a block right after a byte that no mark has. */
  lemma ChangeIsBlock(m: Matcher, s: string, j: nat)
    requires ChangesAt(m, s, 0, j) && Suits(m) && Valid(s) && m(s, j).value.mark == MARK
    requires var cut := m(s, j).value;
             && 0 < cut.keep && s[cut.keep - 1] !in MARK && (cut.next < |s| ==> s[cut.next] !in MARK)
             && (forall k :: cut.keep <= k < cut.next ==> s[k] in MARK)
             && (cut.next < |s| && m(s, cut.next).Some? ==> cut.next < m(s, cut.next).value.keep)
    ensures BlockChange(s, Rest(m, s, 0), m(s, j).value.keep, s[m(s, j).value.keep..m(s, j).value.next])
  {
    hide Suits, Valid, Rest, MARK, Boundary;
    var cut := m(s, j).value;
    var rest := Rest(m, s, cut.next);
    RestAtEnd(m, s);
    if cut.next < |s| {
      RestStartsAlike(m, s, cut.next);
    }
    assert Rest(m, s, 0) == s[0..cut.keep] + (MARK + rest);
    hide ChangesAt;
    ReplacedBlock(s, cut.keep, cut.next, rest);
  }

  lemma ReplacedBlock(s: string, x: nat, n: nat, rest: string)
    requires 0 < x <= n <= |s| && s[x - 1] !in MARK && (n < |s| ==> s[n] !in MARK) && s[x..n] != MARK
    requires forall k :: x <= k < n ==> s[k] in MARK
    requires rest == "" || rest[0] !in MARK
    ensures BlockChange(s, s[0..x] + (MARK + rest), x, s[x..n])
  {
    hide MARK;
    MarkStands(s[..x], rest);
    assert s[0..x] == s[..x];
  }

  lemma MarkStands(head: string, rest: string)
    requires rest == "" || rest[0] !in MARK
    ensures Block(head + (MARK + rest), |head|, MARK) && (head + (MARK + rest))[..|head|] == head
  {
    var o := head + (MARK + rest);
    assert o[|head|..|head| + |MARK|] == MARK;
    hide MARK;
    forall k | |head| <= k < |head| + |MARK|
      ensures o[k] in MARK
    {
      assert o[k] == MARK[k - |head|];
    }
  }

  /** The same of the assignment pass. */
  lemma EnvChange(u: string) returns (x: nat, v: string)
    requires Valid(u) && EnvPass(u) != u && forall c :: c !in MARK ==> !Removes(EnvMatcher, u, 0, c)
    ensures BlockChange(u, EnvPass(u), x, v)
  {
    hide Valid, EnvPass, EnvMatch, Rest, Suits, Removes, MARK, Aligned, BlockChange, In;
    Env.RestOfAll(u);
    assert u[0..] == u;
    var j := FirstChange(EnvMatcher, u, 0);
    Env.Matches(u, j);
    Env.Keeps(u, j);
    var cut := EnvMatch(u, j).value;
    x, v := cut.keep, u[cut.keep..cut.next];
    AlwaysMark(EnvMatcher, u, j);
    BareAssignment(u, j);
    Env.Keeps(u, cut.next);
    ChangeIsBlock(EnvMatcher, u, j);
  }

  lemma BareAssignment(u: string, j: nat)
    requires EnvMatch(u, j).Some?
    requires var cut := EnvMatch(u, j).value;
             cut.keep <= cut.next <= |u| && forall k :: cut.keep <= k < cut.next ==> u[k] in MARK
    ensures var cut := EnvMatch(u, j).value;
            && 0 < cut.keep && u[cut.keep - 1] !in MARK && (cut.next < |u| ==> u[cut.next] !in MARK)
  {
    hide EnvMatch, MARK, RunEnd, EP.Assign, In;
    var cut := EnvMatch(u, j).value;
    EP.MatchParts(u, j);
    var y := EP.Assign(u, j).value;
    EP.ContentOrder(u, y);
    var v := RunEnd(u, y + 1, Blank);
    MarkClasses('=');
    if v > cut.keep {
      MarkClasses(u[cut.keep]);
    } else {
      MarkClasses(u[v]);
      if cut.next < |u| {
        MarkClasses(u[cut.next]);
      }
    }
  }
}
