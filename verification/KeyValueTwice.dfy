/** The key-value scanner on its own output: what still matches there, and when a second pass changes nothing. */
module KeyValueTwice {
  import opened Wrappers
  import opened Utf8
  import opened Scanner
  import opened Patterns
  import opened Sanitizer
  import opened ScanOutput
  import opened KeyValueParts
  import T = Text

  // ---------- The scanner ----------

  lemma Matches(s: string, i: nat)
    ensures KeyValueMatcher(s, i) == KeyValueMatch(s, i)
  {
  }

  lemma KeyValueSuits()
    ensures Suits(KeyValueMatcher)
  {
    hide Valid, Fits;
    forall s | Valid(s)
      ensures Fits(KeyValueMatcher, s)
    {
      KeyValueFits(s);
    }
  }

  lemma RestOfAll(s: string)
    requires Valid(s)
    ensures Suits(KeyValueMatcher) && Boundary(s, 0) && KeyValuePass(s) == Rest(KeyValueMatcher, s, 0)
    ensures Aligned(KeyValueMatcher, s, 0, KeyValuePass(s), 0)
  {
    KeyValueSuits();
    KeyValueFits(s);
    StartScan(KeyValueMatcher, s);
    hide Valid, Suits, Fits, Rewrite;
    StartsAligned(KeyValueMatcher, s);
  }

  lemma Keeps(s: string, i: nat)
    requires Valid(s)
    ensures KeyValueMatcher(s, i).Some? ==> i < KeyValueMatcher(s, i).value.keep && KeyValueMatcher(s, i).value.mark == MARK
  {
    hide Valid, KeyValueMatch;
    Matches(s, i);
    if KeyValueMatch(s, i).Some? {
      KeyValueCuts(s, i);
    }
  }

  lemma Words(s: string, i: nat, o: string, p: nat)
    requires Aligned(KeyValueMatcher, s, i, o, p)
    ensures WordAligned(KeyValueMatcher, s, i, o, p)
  {
    hide KeyValueMatch, WordAligned, IsAlphanumeric, IsTokenChar, Aligned, Valid;
    AlignedStart(KeyValueMatcher, s, i, o, p);
    if 0 < i < |s| && EndsCut(KeyValueMatcher, s, i) {
      var h: nat :| h < i && h < |s| && KeyValueMatcher(s, h).Some? && KeyValueMatcher(s, h).value.next == i;
      Matches(s, h);
      AfterMatch(s, h);
    }
    WordsAlign(KeyValueMatcher, s, i, o, p);
  }

  /** No match starts inside a value too short to hide, or at its end. */
  lemma NoMatchInShortValue(s: string, i: nat, k: nat, j: nat)
    requires Separator(s, i) == Some(k) && KeyValueMatch(s, i).None?
    requires i <= j <= ValueEnd(s, RunEnd(s, k + 1, Blank)).0 && j < |s|
    ensures KeyValueMatch(s, j).None?
  {
    hide KeyAt, SECRET_KEYS, RunEnd, BearerMatch, IsTokenChar, KeyValueMatch, ValueEnd, Value, Separator;
    MatchParts(s, j);
    SeparatorShape(s, i, k);
    ShortValue(s, i, k);
    SpaceIsNoToken();
    if i < j && Separator(s, j).Some? {
      SeparatorShape(s, j, Separator(s, j).value);
    }
  }

  lemma QuietWhenShort(s: string, i: nat)
    requires KeyValueMatch(s, i).None?
    ensures QuietValue(KeyValueMatcher, s, i)
  {
    hide KeyValueMatch, Separator, ValueEnd, RunEnd;
    if Separator(s, i).Some? {
      var k := Separator(s, i).value;
      forall j: nat | i <= j <= ValueStop(s, k) && j < |s|
        ensures KeyValueMatcher(s, j).None?
      {
        Matches(s, j);
        NoMatchInShortValue(s, i, k, j);
      }
    }
  }

  /** Where the scan finds no match in the text, there is none in the output. */
  lemma NoMatchStays(s: string, i: nat, o: string, p: nat)
    requires Aligned(KeyValueMatcher, s, i, o, p) && i < |s| && KeyValueMatch(s, i).None?
    ensures KeyValueMatch(o, p).None?
  {
    hide KeyValueMatch, Aligned, WordAligned, QuietValue;
    Words(s, i, o, p);
    QuietWhenShort(s, i);
    NoMatchMoves(KeyValueMatcher, s, i, o, p);
  }

  // ---------- A match beside what is written for it ----------

  lemma AlignedAfterMatch(s: string, i: nat, o: string, p: nat) returns (q: nat)
    requires Aligned(KeyValueMatcher, s, i, o, p) && i < |s| && KeyValueMatch(s, i).Some?
    ensures var cut := KeyValueMatch(s, i).value;
            && i < cut.keep <= cut.next <= |s| && q == p + (cut.keep - i) + 10 <= |o|
            && Same(s, i, o, p, cut.keep - i) && T.OccursAt(o, MARK, q - 10)
            && Aligned(KeyValueMatcher, s, cut.next, o, q)
  {
    hide KeyValueMatch, Aligned, MARK, Same, Valid, T.OccursAt;
    AlignedStart(KeyValueMatcher, s, i, o, p);
    Matches(s, i);
    Keeps(s, i);
    q := AlignedMark(KeyValueMatcher, s, i, o, p);
  }

  /** Where the text matches, so does the output, with the value hidden. */
  lemma MatchMoves(s: string, i: nat, o: string, p: nat) returns (from: nat)
    requires Aligned(KeyValueMatcher, s, i, o, p) && i < |s| && KeyValueMatch(s, i).Some?
    ensures KeyValueMatch(o, p).Some? && KeyValueMatch(o, p).value.keep == from && Redacted(o, from)
    ensures p < from < |o|
    ensures var cut := KeyValueMatch(s, i).value;
            if AfterBearer(s, cut) then o[from] != '[' && from < p + (cut.keep - i)
            else T.OccursAt(o, MARK, from) && from == p + (cut.keep - i)
                 && KeyValueMatch(o, p).value.next == RunEnd(o, from, Bare)
  {
    hide Valid, Rest, KeyValueMatch, Boundary, Separator, RunEnd, MARK, LowerStarts, ValueEnd, Aligned, WordAligned, Same,
         T.OccursAt;
    var cut := KeyValueMatch(s, i).value;
    var q := AlignedAfterMatch(s, i, o, p);
    MatchShape(s, i);
    var k := Separator(s, i).value;
    Words(s, i, o, p);
    SeparatorForth(KeyValueMatcher, s, i, o, p, cut.keep - i);
    from := k - i + p + 1;
    if AfterBearer(s, cut) {
      BearerMoves(s, i, o, p, cut.keep - i, k);
      BearerBeforeMark(o, p, k - i + p);
    } else {
      MarkedValue(o, p, k - i + p);
    }
  }

  // ---------- When a second pass changes nothing ----------

  /** The cut is not after `bearer `, and what it hides ends where a bare value ends. */
  predicate Settled(s: string, cut: Cut) {
    !AfterBearer(s, cut) && (cut.next >= |s| || !In(Bare, s[cut.next]))
  }

  /** Every cut the scan takes from `i` on is settled. */
  ghost predicate SettledFrom(s: string, i: nat)
    requires Valid(s) && Boundary(s, i)
    decreases |s| - i
  {
    if i == |s| then true
    else if KeyValueMatch(s, i).Some? then
      KeyValueCuts(s, i);
      Settled(s, KeyValueMatch(s, i).value) && SettledFrom(s, KeyValueMatch(s, i).value.next)
    else
      StepFrom(s, i);
      SettledFrom(s, i + Step(s[i..]))
  }

  /** After a mark the bare run goes on just when the text did. */
  lemma RunAfterMark(o: string, from: nat, q: nat)
    requires q == from + 10 <= |o| && T.OccursAt(o, MARK, from)
    ensures if q == |o| || !In(Bare, o[q]) then RunEnd(o, from, Bare) == q else RunEnd(o, from, Bare) > q
  {
    MarkAt(o, from);
    hide MARK, KeyLetter, In;
    if q == |o| || !In(Bare, o[q]) {
      RunEndCovers(o, from, Bare, q);
    } else {
      RunEndCovers(o, from, Bare, q + 1);
    }
  }

  /** At a match the output matches too; where it is settled, what it would hide is a run that starts with the mark. */
  lemma MatchAgain(s: string, i: nat, o: string, p: nat) returns (q: nat)
    requires Aligned(KeyValueMatcher, s, i, o, p) && i < |s| && KeyValueMatch(s, i).Some?
    ensures p < |o| && KeyValueMatch(o, p).Some? && p < KeyValueMatch(o, p).value.keep < |o|
    ensures var cut, m := KeyValueMatch(s, i).value, KeyValueMatch(o, p).value;
            && i < cut.next <= |s| && Aligned(KeyValueMatcher, s, cut.next, o, q) && q <= |o|
            && (cut.next == |s| <==> q == |o|) && (cut.next < |s| ==> s[cut.next] == o[q])
            && if AfterBearer(s, cut) then o[m.keep] != '['
               else q == m.keep + 10 && T.OccursAt(o, MARK, m.keep) && m.next == RunEnd(o, m.keep, Bare)
  {
    hide KeyValueMatch, Aligned, Same, RunEnd, MARK, T.OccursAt, Redacted;
    AlignedStart(KeyValueMatcher, s, i, o, p);
    var from := MatchMoves(s, i, o, p);
    q := AlignedAfterMatch(s, i, o, p);
    Keeps(s, KeyValueMatch(s, i).value.next);
    NextByte(KeyValueMatcher, s, KeyValueMatch(s, i).value.next, o, q);
  }

  /** The second pass at a match: the same piece again, or another text. */
  lemma SecondPassAtMatch(s: string, i: nat, o: string, p: nat) returns (q: nat)
    requires Valid(o) && Boundary(o, p) && Aligned(KeyValueMatcher, s, i, o, p) && i < |s| && KeyValueMatch(s, i).Some?
    ensures i < KeyValueMatch(s, i).value.next <= |s| && q <= |o|
    ensures if Settled(s, KeyValueMatch(s, i).value) then
              && Boundary(o, q) && Aligned(KeyValueMatcher, s, KeyValueMatch(s, i).value.next, o, q)
              && (Rest(KeyValueMatcher, o, p) == o[p..] <==> Rest(KeyValueMatcher, o, q) == o[q..])
            else Rest(KeyValueMatcher, o, p) != o[p..]
  {
    hide Valid, Rest, KeyValueMatch, Aligned, Boundary, RunEnd, MARK, T.OccursAt, Suits;
    AlignedStart(KeyValueMatcher, s, i, o, p);
    q := MatchAgain(s, i, o, p);
    var cut, m := KeyValueMatch(s, i).value, KeyValueMatch(o, p).value;
    Matches(o, p);
    Keeps(o, p);
    RestCuts(KeyValueMatcher, o, p);
    var rest := Rest(KeyValueMatcher, o, m.next);
    if AfterBearer(s, cut) {
      MarkDiffers(o, p, m.keep, rest);
    } else {
      RunAfterMark(o, m.keep, q);
      MarkedRest(o, p, m.keep);
      Peel(o[p..m.keep] + MARK + rest, o[p..], o[p..m.keep] + MARK, rest, o[q..]);
      if !Settled(s, cut) {
        RunGoesOn(o, q, m.next);
      }
    }
  }

  /** A run that reaches past q leaves a rest that does not start like the one from q. */
  lemma RunGoesOn(o: string, q: nat, next: nat)
    requires Suits(KeyValueMatcher) && Valid(o) && q < next <= |o| && In(Bare, o[q]) && Boundary(o, next)
             && (next < |o| ==> !In(Bare, o[next]))
    ensures Rest(KeyValueMatcher, o, next) != o[q..]
  {
    hide Valid, Rest;
    assert o[q..][0] == o[q];
    if next < |o| {
      Keeps(o, next);
      RestStartsAlike(KeyValueMatcher, o, next);
    } else {
      RestAtEnd(KeyValueMatcher, o);
    }
  }

  /** From two aligned indices on, a second pass changes nothing exactly when all cuts of the first are settled. */
  lemma {:induction false} SecondPassFrom(s: string, i: nat, o: string, p: nat)
    requires Valid(o) && Boundary(o, p) && Aligned(KeyValueMatcher, s, i, o, p)
    ensures Rest(KeyValueMatcher, o, p) == o[p..] <==> SettledFrom(s, i)
    decreases |s| - i
  {
    hide Valid, Rest, KeyValueMatch, Aligned, Boundary, Step, Settled, Same;
    AlignedStart(KeyValueMatcher, s, i, o, p);
    Keeps(s, i);
    NextByte(KeyValueMatcher, s, i, o, p);
    Matches(s, i);
    Matches(o, p);
    if i == |s| {
      RestAtEnd(KeyValueMatcher, o);
    } else if KeyValueMatch(s, i).None? {
      NoMatchStays(s, i, o, p);
      var n := AlignedCopy(KeyValueMatcher, s, i, o, p);
      var m := RestCopies(KeyValueMatcher, o, p);
      SecondPassFrom(s, n, o, m);
      Peel(Rest(KeyValueMatcher, o, p), o[p..], o[p..m], Rest(KeyValueMatcher, o, m), o[m..]);
    } else {
      var q := SecondPassAtMatch(s, i, o, p);
      if Settled(s, KeyValueMatch(s, i).value) {
        SecondPassFrom(s, KeyValueMatch(s, i).value.next, o, q);
      }
    }
  }

  /**
   * Running the pass twice is running it once if and only if every cut it takes is settled: none comes after
   * `bearer `, and what follows a quoted value is not part of a bare one.
   */
  lemma SecondPassExactly(s: string)
    requires Valid(s)
    ensures Boundary(s, 0) && (KeyValuePass(KeyValuePass(s)) == KeyValuePass(s) <==> SettledFrom(s, 0))
  {
    hide Valid, Rest, KeyValueMatch, KeyValuePass, Aligned, Suits;
    RestOfAll(s);
    var o := KeyValuePass(s);
    RestOfAll(o);
    assert o[0..] == o;
    SecondPassFrom(s, 0, o, 0);
  }

  // ---------- What still matches ----------

  lemma TailNotKey(s: string, i: nat, o: string, p: nat, n: nat, q: nat)
    requires i < n && Same(s, i, o, p, n - i) && p < q < p + (n - i) && forall x :: i < x < n ==> IsTail(s[x])
    ensures q < |o| && KeyValueMatch(o, q).None?
  {
    hide KeyValueMatch, Same;
    SameAt(s, i, o, p, n - i, q - p + i);
    NoKeyHere(o, q);
  }

  /** No match starts inside what is written for a match. */
  lemma NoMatchInPiece(s: string, i: nat, o: string, p: nat, q: nat)
    requires Aligned(KeyValueMatcher, s, i, o, p) && i < |s| && KeyValueMatch(s, i).Some?
    requires p < q < p + (KeyValueMatch(s, i).value.keep - i) + 10 && q < |o|
    ensures KeyValueMatch(o, q).None?
  {
    hide KeyValueMatch, MARK, KeyLetter, IsTokenChar, Same, Aligned;
    var cut := KeyValueMatch(s, i).value;
    var r := AlignedAfterMatch(s, i, o, p);
    MarkAt(o, r - 10);
    var n := cut.keep - i;
    if q < p + n {
      NoKeyInHead(s, i, q - p + i);
      SameAt(s, i, o, p, n, q - p + i);
      SameAt(s, i, o, p, n, q - p + i - 1);
    }
    BracketIsNoKey();
    NoKeyHere(o, q);
  }

  lemma NoKeyInHead(s: string, i: nat, y: nat)
    requires KeyValueMatch(s, i).Some? && i < y < KeyValueMatch(s, i).value.keep <= |s|
    ensures KeyLetter(s[y]) ==> IsTokenChar(s[y - 1])
  {
    hide KeyValueMatch, Separator, RunEnd, LowerStarts, KeyLetter, IsTokenChar, ValueEnd;
    var cut := KeyValueMatch(s, i).value;
    MatchShape(s, i);
    BracketIsNoKey();
    var k := Separator(s, i).value;
    SeparatorShape(s, i, k);
    KeyLetterIsToken(s[y]);
    var v := RunEnd(s, k + 1, Blank);
    if AfterBearer(s, cut) && y >= v {
      BearerLetters(s, v, y);
    }
  }

  /**
   * Completeness: a key still followed by a value in the output of the pass is followed by a hidden one, the mark
   * itself or `bearer ` and the mark.
   */
  lemma RemainingAreRedacted(s: string, q: nat)
    requires Valid(s) && q < |KeyValuePass(s)| && KeyValueMatch(KeyValuePass(s), q).Some?
    ensures Redacted(KeyValuePass(s), KeyValueMatch(KeyValuePass(s), q).value.keep)
  {
    hide Valid, Rest, KeyValueMatch, KeyValuePass, Redacted, Aligned, Step, Same, MARK, Suits;
    RestOfAll(s);
    var o := KeyValuePass(s);
    var i, p := Locate(KeyValueMatcher, s, 0, o, 0, q);
    AlignedStart(KeyValueMatcher, s, i, o, p);
    Matches(s, i);
    Keeps(s, i);
    MarkLength();
    if KeyValueMatch(s, i).None? {
      NoMatchStays(s, i, o, p);
      var n := AlignedCopy(KeyValueMatcher, s, i, o, p);
      if p < q {
        TailNotKey(s, i, o, p, n, q);
      }
    } else if p < q {
      NoMatchInPiece(s, i, o, p, q);
    } else {
      var from := MatchMoves(s, i, o, p);
    }
  }

  // ---------- The texts the pass leaves alone ----------

  /** The cut replaces a mark by itself. */
  ghost predicate Marked(s: string, cut: Cut) {
    T.OccursAt(s, MARK, cut.keep) && cut.next == cut.keep + 10
  }

  ghost predicate AllMarked(s: string) {
    forall q: nat :: q < |s| && KeyValueMatch(s, q).Some? ==> Marked(s, KeyValueMatch(s, q).value)
  }

  /** A match that is left as it is hides a mark already. */
  lemma FixedCut(s: string, i: nat)
    requires Suits(KeyValueMatcher) && Valid(s) && Boundary(s, i) && i < |s| && KeyValueMatch(s, i).Some?
    requires Rest(KeyValueMatcher, s, i) == s[i..]
    ensures var cut := KeyValueMatch(s, i).value;
            && Marked(s, cut) && i < cut.keep <= cut.next <= |s| && Boundary(s, cut.next)
            && Rest(KeyValueMatcher, s, cut.next) == s[cut.next..]
  {
    hide KeyValueMatch, Rest, MARK, Valid, Suits, Boundary, T.OccursAt, RunEnd;
    Matches(s, i);
    Keeps(s, i);
    MarkWritten(KeyValueMatcher, s, i);
    CutIsMark(s, i);
  }

  lemma CutIsMark(s: string, i: nat)
    requires Suits(KeyValueMatcher) && Valid(s) && KeyValueMatch(s, i).Some?
             && T.OccursAt(s, MARK, KeyValueMatch(s, i).value.keep)
    requires var cut := KeyValueMatch(s, i).value;
             && cut.keep + 10 <= |s| && cut.next <= |s| && Boundary(s, cut.next)
             && Rest(KeyValueMatcher, s, cut.next) == s[cut.keep + 10..]
    ensures KeyValueMatch(s, i).value.next == KeyValueMatch(s, i).value.keep + 10
  {
    hide KeyValueMatch, Rest, MARK, Valid, Suits, Boundary, T.OccursAt, RunEnd;
    MarkedIsBare(s, i);
    RunIsMark(s, KeyValueMatch(s, i).value.keep, KeyValueMatch(s, i).value.next);
  }

  /** A run from a mark whose rest is that of the text ends with the mark. */
  lemma RunIsMark(s: string, keep: nat, next: nat)
    requires Suits(KeyValueMatcher) && Valid(s) && T.OccursAt(s, MARK, keep) && keep + 10 <= |s|
    requires next == RunEnd(s, keep, Bare) && Boundary(s, next) && Rest(KeyValueMatcher, s, next) == s[keep + 10..]
    ensures next == keep + 10
  {
    hide Rest, MARK, Valid, Suits, Boundary, T.OccursAt, RunEnd, In;
    RunAfterMark(s, keep, keep + 10);
    if next > keep + 10 {
      RunGoesOn(s, keep + 10, next);
    }
  }

  /** A match with the mark right after what it keeps hides a bare run. */
  lemma MarkedIsBare(s: string, i: nat)
    requires KeyValueMatch(s, i).Some? && T.OccursAt(s, MARK, KeyValueMatch(s, i).value.keep)
    ensures KeyValueMatch(s, i).value.next == RunEnd(s, KeyValueMatch(s, i).value.keep, Bare)
  {
    hide KeyValueMatch, MARK, RunEnd, Separator, LowerStarts, T.OccursAt, ValueEnd;
    MatchShape(s, i);
    BareMark(s, KeyValueMatch(s, i).value.keep);
  }

  /** A value that starts with the mark is bare, and not after `bearer `. */
  lemma BareMark(s: string, k: nat)
    requires T.OccursAt(s, MARK, k)
    ensures k < |s| && RunEnd(s, k, Blank) == k && ValueEnd(s, k).1 == RunEnd(s, k, Bare)
    ensures RunEnd(s, k, BearerValue) == k
  {
    MarkAt(s, k);
    hide MARK;
  }

  /** From an index on where the pass writes the text itself, all matches hide a mark. */
  lemma {:induction false} FixedMarks(s: string, i: nat, q: nat)
    requires Suits(KeyValueMatcher) && Valid(s) && Boundary(s, i) && Rest(KeyValueMatcher, s, i) == s[i..]
    requires i <= q < |s| && KeyValueMatch(s, q).Some?
    ensures Marked(s, KeyValueMatch(s, q).value)
    decreases |s| - i
  {
    hide KeyValueMatch, Rest, MARK, Valid, Suits, Boundary, Marked, Step;
    Matches(s, i);
    if KeyValueMatch(s, i).None? {
      var n := RestCopies(KeyValueMatcher, s, i);
      OutputHead(s, i, s[i..n], Rest(KeyValueMatcher, s, n));
      if q < n {
        TailHere(s, i, n, q);
      } else {
        FixedMarks(s, n, q);
      }
    } else {
      FixedCut(s, i);
      var cut := KeyValueMatch(s, i).value;
      if q >= cut.next {
        FixedMarks(s, cut.next, q);
      } else if q > i {
        NoKeyInMarked(s, i, q);
      }
    }
  }

  lemma TailHere(s: string, i: nat, n: nat, q: nat)
    requires i < q < n <= |s| && forall x :: i < x < n ==> IsTail(s[x])
    ensures KeyValueMatch(s, q).None?
  {
    hide KeyValueMatch;
    assert IsTail(s[q]);
    NoKeyHere(s, q);
  }

  lemma NoKeyInMarked(s: string, i: nat, q: nat)
    requires KeyValueMatch(s, i).Some? && Marked(s, KeyValueMatch(s, i).value)
    requires i < q < KeyValueMatch(s, i).value.next && q < |s| && KeyValueMatch(s, i).value.keep <= |s|
    ensures KeyValueMatch(s, q).None?
  {
    hide KeyValueMatch, MARK, KeyLetter, IsTokenChar;
    var cut := KeyValueMatch(s, i).value;
    MarkAt(s, cut.keep);
    if q < cut.keep {
      NoKeyInHead(s, i, q);
    }
    BracketIsNoKey();
    NoKeyHere(s, q);
  }

  lemma {:induction false} MarksFixed(s: string, i: nat)
    requires Suits(KeyValueMatcher) && Valid(s) && Boundary(s, i) && AllMarked(s)
    ensures Rest(KeyValueMatcher, s, i) == s[i..]
    decreases |s| - i
  {
    hide KeyValueMatch, Rest, MARK, Valid, Suits, Boundary, Step;
    RestAtEnd(KeyValueMatcher, s);
    BoundaryInside(s, i);
    if i < |s| {
      Matches(s, i);
      if KeyValueMatch(s, i).None? {
        var n := RestCopies(KeyValueMatcher, s, i);
        MarksFixed(s, n);
        assert s[i..] == s[i..n] + s[n..];
      } else {
        var cut := KeyValueMatch(s, i).value;
        Keeps(s, i);
        RestCuts(KeyValueMatcher, s, i);
        MarksFixed(s, cut.next);
        MarkLength();
        assert s[i..] == s[i..cut.keep] + (s[cut.keep..cut.keep + 10] + s[cut.next..]);
      }
    }
  }

  /** The pass leaves a text alone if and only if all it would hide is marks. */
  lemma FixedExactly(s: string)
    requires Valid(s)
    ensures KeyValuePass(s) == s <==> AllMarked(s)
  {
    hide KeyValueMatch, Rest, Valid, Suits, Marked, KeyValuePass, Aligned;
    RestOfAll(s);
    assert s[0..] == s;
    if KeyValuePass(s) == s {
      forall q: nat | q < |s| && KeyValueMatch(s, q).Some?
        ensures Marked(s, KeyValueMatch(s, q).value)
      {
        FixedMarks(s, 0, q);
      }
    }
    if AllMarked(s) {
      MarksFixed(s, 0);
    }
  }
}
