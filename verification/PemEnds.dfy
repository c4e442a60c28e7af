/** A text whose end the PEM stage replaces: what else stands in it, and that the end stays. */
module PemEnds {
  import opened Wrappers
  import opened Utf8
  import opened Scanner
  import opened Patterns
  import opened PrefixedTokens
  import opened HighEntropy
  import opened SanitizeLine
  import opened ScanOutput
  import opened KeyValueParts
  import opened Pem
  import opened Removals
  import EP = EnvParts
  import KV = KeyValueTwice
  import Env = EnvTwice
  import T = Text

  // ---------- What is left of a block without dashes ----------

  /** The text is cut after a line break, and the mark is put in place of the rest. */
  ghost predicate EndReplaced(t: string, p: string, from: nat) {
    0 < from <= |t| && t[from - 1] == '\n' && p == t[..from] + PEM_MARK
  }

  lemma DashAt(t: string, w: string, k: nat)
    requires T.OccursAt(t, w, k) && (w == PEM_BEGIN || w == DASHES)
    ensures k + 5 <= |t| && t[k] == '-' && (w == DASHES ==> t[k + 4] == '-')
  {
    assert PEM_BEGIN[0] == '-' && DASHES[0] == '-' && DASHES[4] == '-' && |DASHES| == 5 && |PEM_BEGIN| == 10;
    assert t[k..k + |w|][0] == t[k];
    assert w == DASHES ==> t[k..k + |w|][4] == t[k + 4];
  }

  /** A body that hides no dash goes to the end of the text, from after a line break. */
  lemma DashlessBody(t: string, begin: nat, span: Span)
    requires IsBody(t, 0, begin, span) && span.from <= span.to && !SpanHas(t, span, '-')
    ensures span.to == |t| && 0 < span.from && t[span.from - 1] == '\n'
  {
    hide PEM_BEGIN, PEM_END, DASHES, T.OccursAt;
    DashAt(t, PEM_BEGIN, begin);
    var e: nat :| FirstFrom(t, begin, PEM_END, e) && ClosesAt(t, e + |PEM_END|, span.to);
    if span.to < |t| {
      var d: nat :| FirstFrom(t, e + |PEM_END|, DASHES, d) && span.to == d + |DASHES|;
      ClosedHasDash(t, begin, span, d);
    }
    OpenHasDash(t, begin, span);
  }

  lemma ClosedHasDash(t: string, begin: nat, span: Span, d: nat)
    requires span.from <= span.to <= |t| && T.OccursAt(t, DASHES, d) && span.to == d + |DASHES| && begin <= d
    requires begin <= span.to && BodyFrom(t, begin, span.to, span.from)
    ensures SpanHas(t, span, '-')
  {
    hide DASHES, T.OccursAt;
    DashAt(t, DASHES, d);
    DashesLength();
    if span.from < span.to {
      assert t[span.from..span.to][span.to - 1 - span.from] == t[d + 4];
    }
  }

  lemma DashesLength()
    ensures |DASHES| == 5
  {
  }

  lemma OpenHasDash(t: string, begin: nat, span: Span)
    requires begin <= span.to <= |t| && BodyFrom(t, begin, span.to, span.from)
    requires begin < |t| && t[begin] == '-'
    ensures span.to == |t| && span.from == begin ==> SpanHas(t, span, '-')
    ensures span.from > begin ==> t[span.from - 1] == '\n'
    ensures span.from >= begin
  {
    if span.to == |t| && span.from == begin {
      assert t[span.from..span.to][0] == t[begin];
    }
  }

  /** Without a dash in any body there is one body at most, and it ends the text. */
  lemma DashlessPem(t: string)
    requires Valid(t) && Boundary(t, 0) && forall n :: 0 <= n < |Bodies(t, 0)| ==> !SpanHas(t, Bodies(t, 0)[n], '-')
    ensures if Bodies(t, 0) == [] then RedactPem(t) == t
            else |Bodies(t, 0)| == 1 && Bodies(t, 0)[0].to == |t| && EndReplaced(t, RedactPem(t), Bodies(t, 0)[0].from)
  {
    hide Valid, Bodies, RedactPem, Splice, SpanHas, IsBody, PEM_MARK;
    PemIsSplice(t);
    var spans := Bodies(t, 0);
    assert t[0..] == t;
    if spans == [] {
      NoBody(PEM_MARK, t, 0);
    } else {
      var b: nat :| IsBody(t, 0, b, spans[0]) && AreBodies(t, spans[0].to, spans[1..]);
      DashlessBody(t, b, spans[0]);
      NoBodyAtEnd(t, spans[1..]);
      OneBody(PEM_MARK, t, 0, spans, Splice(PEM_MARK, t, spans[0].to, spans[1..]));
      NoBody(PEM_MARK, t, |t|);
      assert t[|t|..] == [];
      assert t[0..spans[0].from] + PEM_MARK + [] == t[..spans[0].from] + PEM_MARK;
    }
  }

  lemma NoBodyAtEnd(t: string, spans: seq<Span>)
    requires AreBodies(t, |t|, spans)
    ensures spans == []
  {
    hide EndsAt, BodyFrom;
    assert |PEM_BEGIN| == 10;
    hide PEM_BEGIN;
  }

  // ---------- Nothing new in such a text ----------

  lemma MarkHasNoBreak()
    ensures |PEM_MARK| == 19 && '\n' !in PEM_MARK && '=' !in PEM_MARK && ':' !in PEM_MARK
  {
  }

  /** What stands in the text so changed and has no line break stands in the text itself, or in the mark. */
  lemma ReplacedOccurs(t: string, p: string, from: nat, w: string, k: nat)
    requires EndReplaced(t, p, from) && T.OccursAt(p, w, k) && '\n' !in w && w != []
    ensures T.OccursAt(t, w, k) || (k >= from && k + |w| <= |p| && |p| == from + 19)
  {
    hide PEM_MARK;
    MarkHasNoBreak();
    Avoids(p, w, k, from - 1);
    if k + |w| <= from {
      assert t[k..k + |w|] == p[k..k + |w|];
    }
  }

  lemma ReplacedIsClean(t: string, p: string, from: nat, q: Pass)
    requires EndReplaced(t, p, from) && Usable(q) && Exposed(p, q)
    ensures Exposed(t, q)
  {
    hide PEM_MARK, EndReplaced;
    var k: nat :| k < |p| && TokenAt(p, k, q);
    WindowIsPlain(p, k, q);
    var w := Window(p, k, q);
    TokensHaveNoBreak(w);
    ReplacedOccurs(t, p, from, w, k);
    WindowMoves(p, k, t, k, q);
  }

  lemma TokensHaveNoBreak(w: string)
    requires forall x :: 0 <= x < |w| ==> IsTokenChar(w[x])
    ensures '\n' !in w
  {
  }

  lemma ReplacedHasNoBearer(t: string, p: string, from: nat)
    requires EndReplaced(t, p, from) && BearerExposed(p)
    ensures BearerExposed(t)
  {
    hide PEM_MARK, EndReplaced, BearerAt;
    var k: nat :| k < |p| && BearerAt(p, k);
    BearerWindowIsPlain(p, k);
    var w := BearerWindow(p, k);
    BearerLength(p, k);
    BearerHasNoBreak(p, k);
    ReplacedOccurs(t, p, from, w, k);
    if !T.OccursAt(t, w, k) {
      NoBInReplaced(t, p, from, k);
    }
    SanitizeLine.BearerMoves(p, k, t, k);
  }

  lemma BearerHasNoBreak(s: string, k: nat)
    requires BearerAt(s, k)
    ensures '\n' !in BearerWindow(s, k) && BearerWindow(s, k) != [] && |BEARER| == 7 && k + 15 <= |s| && Lower(s[k]) == 'b'
  {
    BearerSpace(s, k);
    BearerWord();
    hide BEARER;
    var w := BearerWindow(s, k);
    forall x | 0 <= x < |w|
      ensures w[x] != '\n'
    {
      assert w[x] == s[k + x];
      assert x < 7 ==> Lower(s[k + x]) == BEARER[x];
    }
  }

  lemma BearerWord()
    ensures |BEARER| == 7 && '\n' !in BEARER && forall x :: 0 <= x < 7 ==> BEARER[x] != '\n'
  {
  }

  lemma NoBInReplaced(t: string, p: string, from: nat, k: nat)
    requires EndReplaced(t, p, from) && from <= k && k + 15 <= |p|
    ensures Lower(p[k]) != 'b'
  {
    var mark := PEM_MARK;
    assert |mark| == 19 && mark[0] == '[' && mark[1] == 'R' && mark[2] == 'E' && mark[3] == 'D' && mark[4] == 'A';
    assert p[k] == mark[k - from];
  }

  // ---------- The end of the text stays ----------

  /** Heads without a line break, no match behind the last one, and no line break removed: the end is copied. */
  ghost predicate KeepsEnd(m: Matcher, s: string, a: nat) {
    && (forall j: nat :: a <= j < |s| ==> m(s, j).None?)
    && (forall j: nat :: j < |s| && m(s, j).Some? && j <= m(s, j).value.keep <= |s| ==> '\n' !in s[j..m(s, j).value.keep])
  }

  lemma {:induction false} EndsAlike(m: Matcher, s: string, i: nat, a: nat) returns (b: string)
    requires Suits(m) && Valid(s) && Boundary(s, i) && i < a <= |s| && s[a - 1] == '\n' && KeepsEnd(m, s, a)
    requires !Removes(m, s, i, '\n')
    ensures Rest(m, s, i) == b + "\n" + s[a..]
    decreases |s| - i
  {
    hide Suits, Valid, Rest, Boundary, Step;
    if m(s, i).Some? {
      RestCuts(m, s, i);
      var cut := m(s, i).value;
      BreakOutside(s, i, cut.keep, a - 1);
      BreakOutside(s, cut.keep, cut.next, a - 1);
      var c := EndsAlike(m, s, cut.next, a);
      b := s[i..cut.keep] + (cut.mark + c);
      assert s[i..cut.keep] + (cut.mark + (c + "\n" + s[a..])) == s[i..cut.keep] + (cut.mark + c) + "\n" + s[a..];
    } else {
      var n := RestCopies(m, s, i);
      if n < a {
        var c := EndsAlike(m, s, n, a);
        b := s[i..n] + c;
        assert s[i..n] + (c + "\n" + s[a..]) == s[i..n] + c + "\n" + s[a..];
      } else {
        BreakIsLast(s, i, n, a);
        RestAtEnd(m, s);
        RestCopiesRun(m, s, a, |s|);
        b := s[i..a - 1];
        assert s[i..a] == s[i..a - 1] + "\n";
        assert s[a..|s|] + [] == s[a..];
      }
    }
  }

  lemma SliceWithout(s: string, i: nat, j: nat, c: char)
    requires i <= j <= |s| && c !in s[i..j]
    ensures forall y :: i <= y < j ==> s[y] != c
  {
    forall y | i <= y < j
      ensures s[y] in s[i..j]
    {
      assert s[i..j][y - i] == s[y];
    }
  }

  lemma BreakOutside(s: string, i: nat, j: nat, k: nat)
    requires i <= j <= |s| && k < |s| && i <= k && s[k] == '\n' && '\n' !in s[i..j]
    ensures j <= k
  {
    SliceWithout(s, i, j, '\n');
  }

  lemma BreakIsLast(s: string, i: nat, n: nat, a: nat)
    requires i < a <= n <= |s| && s[a - 1] == '\n' && (forall x :: i < x < n ==> IsTail(s[x]))
    requires n == i + Step(s[i..])
    ensures n == a
  {
    assert forall x :: i < x < n ==> s[x] != '\n';
    assert s[i..][0] == s[i];
  }

  /** Two texts that end in a line break and a piece without one end alike only if the pieces are the same. */
  lemma SameLastLine(a: string, x: string, b: string, y: string)
    requires a + "\n" + x == b + "\n" + y && '\n' !in x && '\n' !in y
    ensures x == y
  {
    var s := a + "\n" + x;
    assert s[|a|] == '\n' && s[|b|] == '\n';
    assert s[|a| + 1..|s|] == x && s[|b| + 1..|s|] == y;
    SliceWithout(s, |a| + 1, |s|, '\n');
    SliceWithout(s, |b| + 1, |s|, '\n');
  }

  lemma KeyValueKeepsEnd(s: string, a: nat)
    requires Valid(s) && a <= |s| && '=' !in s[a..] && ':' !in s[a..]
    ensures KeepsEnd(KeyValueMatcher, s, a)
  {
    hide Valid, KeyValueMatch, KeyValueMatcher;
    assert s[a..|s|] == s[a..];
    SliceWithout(s, a, |s|, '=');
    SliceWithout(s, a, |s|, ':');
    forall j: nat | j < |s|
      ensures a <= j ==> KeyValueMatcher(s, j).None?
      ensures KeyValueMatcher(s, j).Some? && j <= KeyValueMatcher(s, j).value.keep <= |s| ==>
                '\n' !in s[j..KeyValueMatcher(s, j).value.keep]
    {
      MatchOnLine(s, j);
    }
  }

  lemma MatchOnLine(s: string, j: nat)
    requires Valid(s)
    ensures KeyValueMatcher(s, j).Some? ==>
              && j <= KeyValueMatcher(s, j).value.keep <= |s| && '\n' !in s[j..KeyValueMatcher(s, j).value.keep]
              && exists k: nat :: j < k < |s| && (s[k] == '=' || s[k] == ':')
  {
    hide Valid, KeyValueMatch;
    KV.Matches(s, j);
    if KeyValueMatch(s, j).Some? {
      KeyValueCuts(s, j);
      HeadHasNoBreak(s, j);
      MatchHasSeparator(s, j);
    }
  }

  lemma MatchHasSeparator(s: string, j: nat)
    requires KeyValueMatch(s, j).Some?
    ensures exists k: nat :: j < k < |s| && (s[k] == '=' || s[k] == ':')
  {
    hide KeyValueMatch, Separator, RunEnd, LowerStarts, ValueEnd;
    MatchShape(s, j);
    SeparatorShape(s, j, Separator(s, j).value);
  }

  lemma HeadHasNoBreak(s: string, i: nat)
    requires KeyValueMatch(s, i).Some? && i <= KeyValueMatch(s, i).value.keep <= |s|
    ensures '\n' !in s[i..KeyValueMatch(s, i).value.keep]
  {
    hide KeyValueMatch, Separator, RunEnd, LowerStarts, ValueEnd;
    MatchShape(s, i);
    var k, keep := Separator(s, i).value, KeyValueMatch(s, i).value.keep;
    KeyHasNoBreak(s, i, k);
    var v := RunEnd(s, k + 1, Blank);
    assert forall y :: k + 1 <= y < v ==> In(Blank, s[y]);
    if AfterBearer(s, KeyValueMatch(s, i).value) {
      BearerNoBreak(s, v);
    }
    assert forall y :: i <= y < keep ==> s[y] != '\n';
  }

  lemma BearerNoBreak(s: string, v: nat)
    requires LowerStarts(s, v, BEARER)
    ensures v + 7 <= |s| && forall y :: v <= y < v + 7 ==> s[y] != '\n'
  {
    BearerWord();
    hide BEARER;
    forall y | v <= y < v + 7
      ensures s[y] != '\n'
    {
      assert Lower(s[v + (y - v)]) == BEARER[y - v];
    }
  }

  lemma KeyHasNoBreak(s: string, i: nat, k: nat)
    requires Separator(s, i) == Some(k)
    ensures forall y :: i <= y <= k ==> s[y] != '\n'
  {
    hide SECRET_KEYS, KeyAt, RunEnd;
    var key := KeyAt(s, i, SECRET_KEYS).value;
    KeysAreTokens(key);
    var e := i + |key|;
    assert RunEnd(s, e, Blank) == k;
    forall y | i <= y < e
      ensures s[y] != '\n'
    {
      assert Lower(s[i + (y - i)]) == key[y - i];
    }
    assert forall y :: e <= y < k ==> In(Blank, s[y]);
  }

  lemma EnvKeepsEnd(s: string, a: nat)
    requires a <= |s| && '=' !in s[a..]
    ensures KeepsEnd(EnvMatcher, s, a)
  {
    hide EnvMatch, EP.Assign;
    assert s[a..|s|] == s[a..];
    SliceWithout(s, a, |s|, '=');
    forall j: nat | j < |s|
      ensures a <= j ==> EnvMatcher(s, j).None?
      ensures EnvMatcher(s, j).Some? && j <= EnvMatcher(s, j).value.keep <= |s| ==>
                '\n' !in s[j..EnvMatcher(s, j).value.keep]
    {
      Env.Matches(s, j);
      if EnvMatch(s, j).Some? {
        EP.MatchParts(s, j);
        NameHasNoBreak(s, j, EP.Assign(s, j).value);
      }
    }
  }

  lemma NameHasNoBreak(s: string, i: nat, y: nat)
    requires EP.Assign(s, i) == Some(y)
    ensures forall x :: i <= x <= y ==> s[x] != '\n'
  {
    hide EP.Assign, RunEnd;
    EP.AssignShape(s, i, y);
  }
}
