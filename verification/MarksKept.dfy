/** A text whose secret keys have nothing but marks for values stays one under the bearer and high-entropy scanners. */
module MarksKept {
  import opened Wrappers
  import opened Utf8
  import opened Scanner
  import opened Patterns
  import opened Sanitizer
  import opened HighEntropy
  import opened SanitizeLine
  import opened ScanOutput
  import opened KeyValueParts
  import KV = KeyValueTwice
  import T = Text

  // ---------- Any scanner that is quiet on keys and their values ----------

  /** Nothing matches from a key to the end of its mark, the byte after it included. */
  ghost predicate QuietMark(m: Matcher, s: string, i: nat) {
    KeyValueMatch(s, i).Some? && KV.Marked(s, KeyValueMatch(s, i).value) ==>
      forall j: nat :: i <= j <= KeyValueMatch(s, i).value.next && j < |s| ==> m(s, j).None?
  }

  /** The scanner cuts where no word goes on, keeps no start of a key, and is quiet on values it does not start at. */
  ghost predicate KeepsKeys(m: Matcher, s: string) {
    && (forall i: nat :: 0 < i < |s| && EndsCut(m, s, i) ==> !IsAlphanumeric(s[i]) || !IsTokenChar(s[i - 1]))
    && (forall i: nat :: i < |s| && m(s, i).None? && KeyValueMatch(s, i).None? ==> QuietValue(m, s, i))
    && (forall i: nat :: i < |s| && m(s, i).None? ==> QuietMark(m, s, i))
    && (forall i: nat :: i < |s| ==> QuietHead(m, s, i))
  }

  /** No key starts in what a match keeps. */
  ghost predicate QuietHead(m: Matcher, s: string, i: nat) {
    m(s, i).Some? ==>
      forall y: nat :: i <= y < m(s, i).value.keep && y < |s| && KeyLetter(s[y]) ==> y > i && IsTokenChar(s[y - 1])
  }

  lemma OccursMoves(s: string, i: nat, o: string, p: nat, n: nat, w: string, k: nat)
    requires Same(s, i, o, p, n) && T.OccursAt(s, w, k) && i <= k && k + |w| <= i + n
    ensures T.OccursAt(o, w, k - i + p)
  {
    SameBounds(s, i, o, p, n);
    var a, b := s[k..k + |w|], o[k - i + p..k - i + p + |w|];
    forall x | 0 <= x < |w|
      ensures a[x] == b[x]
    {
      SameAt(s, i, o, p, n, k + x);
    }
  }

  lemma MarkedKeeps(s: string, i: nat)
    requires KeyValueMatch(s, i).Some? && T.OccursAt(s, MARK, KeyValueMatch(s, i).value.keep)
    ensures Separator(s, i).Some? && KeyValueMatch(s, i).value.keep == Separator(s, i).value + 1
  {
    hide KeyValueMatch, MARK, RunEnd, Separator, LowerStarts, T.OccursAt, ValueEnd;
    MatchShape(s, i);
    KV.BareMark(s, KeyValueMatch(s, i).value.keep);
  }

  /** Bytes up to n are copied, and both texts end there or go on with the same byte. */
  lemma CopiedPast(m: Matcher, s: string, i: nat, o: string, p: nat, n: nat)
    requires Aligned(m, s, i, o, p) && Boundary(s, i + n) && forall j: nat :: i <= j <= i + n && j < |s| ==> m(s, j).None?
    ensures Same(s, i, o, p, n) && i + n <= |s| && p + n <= |o|
    ensures (i + n == |s| <==> p + n == |o|) && (i + n < |s| ==> s[i + n] == o[p + n])
  {
    hide Aligned, Same, Valid, Boundary, Suits;
    AlignedStart(m, s, i, o, p);
    BoundaryInside(s, i + n);
    AlignedRun(m, s, i, o, p, n);
    AlignedStart(m, s, i + n, o, p + n);
    NextByte(m, s, i + n, o, p + n);
  }

  /** The mark of a key is copied with the byte after it, and hides no more in the output. */
  lemma MarkedMoves(m: Matcher, s: string, i: nat, o: string, p: nat)
    requires WordAligned(m, s, i, o, p) && i < |s| && KeyValueMatch(s, i).Some?
    requires KV.Marked(s, KeyValueMatch(s, i).value) && QuietMark(m, s, i)
    ensures KeyValueMatch(o, p).Some? && KV.Marked(o, KeyValueMatch(o, p).value)
  {
    hide KeyValueMatch, Aligned, WordAligned, Separator, Same, Valid, T.OccursAt, Boundary, Suits;
    WordAlignedIs(m, s, i, o, p);
    AlignedStart(m, s, i, o, p);
    var cut := KeyValueMatch(s, i).value;
    KeyValueCuts(s, i);
    MarkedKeeps(s, i);
    CopiedPast(m, s, i, o, p, cut.next - i);
    SeparatorForth(m, s, i, o, p, cut.next - i);
    MarkedCopied(s, i, o, p);
  }

  lemma MarkedCopied(s: string, i: nat, o: string, p: nat)
    requires KeyValueMatch(s, i).Some? && KV.Marked(s, KeyValueMatch(s, i).value) && Separator(s, i).Some?
    requires KeyValueMatch(s, i).value.keep == Separator(s, i).value + 1
    requires Separator(o, p) == Some(Separator(s, i).value - i + p)
    requires var n := KeyValueMatch(s, i).value.next - i;
             && n >= 0 && i + n <= |s| && p + n <= |o| && Same(s, i, o, p, n)
             && (i + n == |s| <==> p + n == |o|) && (i + n < |s| ==> s[i + n] == o[p + n])
    ensures KeyValueMatch(o, p).Some? && KV.Marked(o, KeyValueMatch(o, p).value)
  {
    hide KeyValueMatch, Separator, MARK, RunEnd, Same, T.OccursAt, In;
    var cut := KeyValueMatch(s, i).value;
    KV.MarkedIsBare(s, i);
    MarkLength();
    OccursMoves(s, i, o, p, cut.next - i, MARK, cut.keep);
    MarkAgain(o, p, Separator(s, i).value - i + p);
  }

  /** A value that is the mark and nothing more is hidden by the same mark. */
  lemma MarkAgain(o: string, p: nat, k: nat)
    requires Separator(o, p) == Some(k) && T.OccursAt(o, MARK, k + 1)
    requires k + 11 < |o| ==> !In(Bare, o[k + 11])
    ensures KeyValueMatch(o, p).Some? && KV.Marked(o, KeyValueMatch(o, p).value)
  {
    hide KeyValueMatch, Separator, MARK, RunEnd, In;
    MarkedValue(o, p, k);
    MarkLength();
    KV.RunAfterMark(o, k + 1, k + 11);
  }

  lemma WordAlignedIs(m: Matcher, s: string, i: nat, o: string, p: nat)
    requires WordAligned(m, s, i, o, p)
    ensures Aligned(m, s, i, o, p)
  {
  }

  /** No key starts in a mark. */
  lemma NoKeyInMark(o: string, k: nat, mark: string, q: nat)
    requires IsMark(mark) && T.OccursAt(o, mark, k) && k <= q < k + |mark|
    ensures q < |o| && KeyValueMatch(o, q).None?
  {
    hide KeyValueMatch;
    if mark == MARK {
      MarkAt(o, k);
      MarkLength();
    } else {
      EntropyMarkAt(o, k);
    }
    hide MARK, ENTROPY_MARK, IsTokenChar, KeyLetter;
    BracketIsNoKey();
    NoKeyHere(o, q);
  }

  lemma EntropyMarkAt(o: string, k: nat)
    requires T.OccursAt(o, ENTROPY_MARK, k)
    ensures |ENTROPY_MARK| == 23 && k + 23 <= |o| && o[k] == '[' && o[k + 22] == ']'
    ensures forall x :: k + 1 <= x < k + 22 ==> IsTokenChar(o[x])
    ensures o[k + 1] == 'R'
  {
    var mark := ENTROPY_MARK;
    assert |mark| == 23 && mark[0] == '[' && mark[22] == ']' && mark[1] == 'R';
    MarkLetters();
    forall x | k <= x < k + 23
      ensures o[x] == mark[x - k]
    {
      assert o[k..k + 23][x - k] == mark[x - k];
    }
  }

  lemma MarkLetters()
    ensures forall x :: 1 <= x < 22 ==> IsTokenChar(ENTROPY_MARK[x])
  {
  }

  lemma {:induction false} KeptMarked(m: Matcher, s: string)
    requires Suits(m) && Valid(s) && Boundary(s, 0) && KeepsKeys(m, s) && KV.AllMarked(s)
    ensures KV.AllMarked(Rest(m, s, 0))
  {
    hide Suits, Valid, KeyValueMatch, Rest, KV.Marked;
    var o := Rest(m, s, 0);
    forall q: nat | q < |o| && KeyValueMatch(o, q).Some?
      ensures KV.Marked(o, KeyValueMatch(o, q).value)
    {
      KeptMarkedAt(m, s, q);
    }
  }

  lemma KeptMarkedAt(m: Matcher, s: string, q: nat)
    requires Suits(m) && Valid(s) && Boundary(s, 0) && KeepsKeys(m, s) && KV.AllMarked(s)
    requires q < |Rest(m, s, 0)| && KeyValueMatch(Rest(m, s, 0), q).Some?
    ensures KV.Marked(Rest(m, s, 0), KeyValueMatch(Rest(m, s, 0), q).value)
  {
    hide Suits, Valid, KeyValueMatch, Rest, KV.Marked, Aligned, QuietValue, QuietMark, Step, Same, IsMark, KeyLetter,
         IsTokenChar,
         WordAligned, Boundary;
    var o := Rest(m, s, 0);
    StartsAligned(m, s);
    var i, p := Locate(m, s, 0, o, 0, q);
    if m(s, i).None? {
      var n := AlignedCopy(m, s, i, o, p);
      if p < q {
        KV.TailNotKey(s, i, o, p, n, q);
      } else {
        WordsAlign(m, s, i, o, p);
        if KeyValueMatch(s, i).None? {
          NoMatchMoves(m, s, i, o, p);
        } else {
          MarkedMoves(m, s, i, o, p);
        }
      }
    } else {
      var r := AlignedCut(m, s, i, o, p);
      var cut := m(s, i).value;
      if q < p + (cut.keep - i) {
        assert QuietHead(m, s, i);
        HeadNotKey(s, i, o, p, cut.keep - i, q);
      } else {
        NoKeyInMark(o, p + (cut.keep - i), cut.mark, q);
      }
    }
  }

  lemma HeadNotKey(s: string, i: nat, o: string, p: nat, n: nat, q: nat)
    requires Same(s, i, o, p, n) && p <= q < p + n && i + n <= |s|
    requires KeyLetter(s[q - p + i]) ==> q > p && IsTokenChar(s[q - p + i - 1])
    ensures q < |o| && KeyValueMatch(o, q).None?
  {
    hide KeyValueMatch, Same, KeyLetter, IsTokenChar;
    SameAt(s, i, o, p, n, q - p + i);
    if q > p {
      SameAt(s, i, o, p, n, q - p + i - 1);
    }
    NoKeyHere(o, q);
  }

  // ---------- The bearer scanner ----------

  lemma BearerSuits()
    ensures Suits(BearerMatcher)
  {
    hide Valid, Fits;
    forall s | Valid(s)
      ensures Fits(BearerMatcher, s)
    {
      BearerFits(s);
    }
  }

  lemma BearerLettersAt(s: string, j: nat)
    requires BearerMatch(s, j).Some?
    ensures j + 15 <= |s| && Lower(s[j]) == 'b' && forall x :: j <= x < j + 5 ==> IsTokenChar(s[x])
    ensures BearerMatch(s, j).value.keep == j + 7 && BearerMatch(s, j).value.next == RunEnd(s, j + 7, BearerValue)
  {
    hide RunEnd;
    BearerSpace(s, j);
    var word := BEARER;
    assert word[0] == 'b' && word[1] == 'e' && word[2] == 'a' && word[3] == 'r' && word[4] == 'e';
    forall x | j <= x < j + 5
      ensures IsTokenChar(s[x])
    {
      assert Lower(s[j + (x - j)]) == word[x - j];
    }
  }

  /** No key, blank or separator has a `b`. */
  lemma NoBInKey(s: string, i: nat, k: nat)
    requires Separator(s, i) == Some(k)
    ensures forall y :: i <= y <= k ==> Lower(s[y]) != 'b'
  {
    hide SECRET_KEYS, KeyAt, RunEnd;
    var key := KeyAt(s, i, SECRET_KEYS).value;
    KeysHaveNoB(key);
    var e := i + |key|;
    assert RunEnd(s, e, Blank) == k;
    forall y | i <= y < e
      ensures Lower(s[y]) != 'b'
    {
      assert Lower(s[i + (y - i)]) == key[y - i];
    }
    assert forall y :: e <= y < k ==> In(Blank, s[y]);
  }

  lemma KeysHaveNoB(key: string)
    requires key in SECRET_KEYS
    ensures forall x :: 0 <= x < |key| ==> key[x] != 'b'
  {
  }

  lemma BearerInValue(s: string, i: nat, k: nat, j: nat)
    requires Separator(s, i) == Some(k) && i <= j <= ValueStop(s, k) && BearerMatch(s, j).Some?
    ensures ValueStop(s, k) >= RunEnd(s, k + 1, Blank) + 4
  {
    hide Separator, RunEnd, BearerMatch, ValueEnd, IsTokenChar;
    var v := RunEnd(s, k + 1, Blank);
    assert forall y :: k < y < v ==> In(Blank, s[y]);
    NoBInKey(s, i, k);
    BearerLettersAt(s, j);
    ValueStops(s, v);
  }

  lemma BearerQuietValue(s: string, i: nat)
    requires KeyValueMatch(s, i).None?
    ensures QuietValue(BearerMatcher, s, i)
  {
    hide KeyValueMatch, Separator, RunEnd, BearerMatch, ValueEnd;
    if Separator(s, i).Some? {
      var k := Separator(s, i).value;
      ShortValue(s, i, k);
      forall j: nat | i <= j <= ValueStop(s, k) && j < |s|
        ensures BearerMatcher(s, j).None?
      {
        assert BearerMatcher(s, j) == BearerMatch(s, j);
        if BearerMatch(s, j).Some? {
          BearerInValue(s, i, k, j);
        }
      }
    }
  }

  lemma NoBInMark(s: string, k: nat, j: nat)
    requires T.OccursAt(s, MARK, k) && k <= j < k + 10
    ensures j < |s| && Lower(s[j]) != 'b'
  {
    var mark := MARK;
    assert |mark| == 10 && mark[0] == '[' && mark[9] == ']';
    assert mark[1] == 'R' && mark[2] == 'E' && mark[3] == 'D' && mark[4] == 'A';
    assert mark[5] == 'C' && mark[6] == 'T' && mark[7] == 'E' && mark[8] == 'D';
    assert s[k..k + 10][j - k] == s[j];
  }

  lemma BearerQuietMark(s: string, i: nat)
    ensures QuietMark(BearerMatcher, s, i)
  {
    hide KeyValueMatch, Separator, RunEnd, BearerMatch, ValueEnd, MARK, T.OccursAt;
    if KeyValueMatch(s, i).Some? && KV.Marked(s, KeyValueMatch(s, i).value) {
      var cut := KeyValueMatch(s, i).value;
      MarkedKeeps(s, i);
      KV.MarkedIsBare(s, i);
      NoBInKey(s, i, Separator(s, i).value);
      forall j: nat | i <= j <= cut.next && j < |s|
        ensures BearerMatcher(s, j).None?
      {
        assert BearerMatcher(s, j) == BearerMatch(s, j);
        if cut.keep <= j < cut.next {
          NoBInMark(s, cut.keep, j);
        }
        if BearerMatch(s, j).Some? {
          BearerLettersAt(s, j);
        }
      }
    }
  }

  lemma BearerKeepsKeys(s: string)
    ensures KeepsKeys(BearerMatcher, s)
  {
    hide KeyValueMatch, BearerMatch, QuietValue, QuietMark, QuietHead;
    forall i: nat | i < |s|
      ensures KeyValueMatch(s, i).None? ==> QuietValue(BearerMatcher, s, i)
      ensures QuietMark(BearerMatcher, s, i) && QuietHead(BearerMatcher, s, i)
    {
      if KeyValueMatch(s, i).None? {
        BearerQuietValue(s, i);
      }
      BearerQuietMark(s, i);
      BearerQuietHead(s, i);
    }
    forall i: nat | 0 < i < |s| && EndsCut(BearerMatcher, s, i)
      ensures !IsAlphanumeric(s[i])
    {
      var h: nat :| h < i && h < |s| && BearerMatcher(s, h).Some? && BearerMatcher(s, h).value.next == i;
      BearerStops(s, h);
    }
  }

  lemma BearerQuietHead(s: string, i: nat)
    ensures QuietHead(BearerMatcher, s, i)
  {
    hide KeyLetter, IsTokenChar, RunEnd;
    assert BearerMatcher(s, i) == BearerMatch(s, i);
    if BearerMatch(s, i).Some? {
      BearerLettersAt(s, i);
      forall y: nat | i <= y < i + 7 && y < |s| && KeyLetter(s[y])
        ensures y > i && IsTokenChar(s[y - 1])
      {
        BearerLetters(s, i, y);
      }
    }
  }

  lemma BearerStops(s: string, h: nat)
    requires BearerMatcher(s, h).Some?
    ensures var n := BearerMatcher(s, h).value.next; n < |s| ==> !IsAlphanumeric(s[n])
  {
    hide RunEnd, BearerMatch;
    assert BearerMatcher(s, h) == BearerMatch(s, h);
    BearerLettersAt(s, h);
  }

  // ---------- The high-entropy scanner ----------

  lemma EntropySuits()
    ensures Suits(EntropyMatcher)
  {
    hide Valid, Fits;
    forall s | Valid(s)
      ensures Fits(EntropyMatcher, s)
    {
      EntropyFits(s);
    }
  }

  /** A match is a run of twenty bytes or more, where no run goes on. */
  lemma EntropyIsLong(s: string, j: nat)
    requires EntropyMatcher(s, j).Some?
    ensures j < |s| && IsEntropic(s[j]) && (j == 0 || !IsEntropic(s[j - 1])) && RunEnd(s, j, Entropic) >= j + 20
    ensures EntropyMatcher(s, j).value == Cut(j, RunEnd(s, j, Entropic), ENTROPY_MARK)
  {
    assert EntropyMatcher(s, j) == EntropyMatch(s, j);
    hide Whitelisted;
  }

  /** Nor is there one before a byte that is not entropic and is near. */
  lemma EntropyNotNear(s: string, j: nat, e: nat)
    requires j <= e < j + 20 && e <= |s| && (e < |s| ==> !IsEntropic(s[e]))
    ensures EntropyMatcher(s, j).None?
  {
    hide RunEnd, EntropyMatcher;
    if EntropyMatcher(s, j).Some? {
      EntropyIsLong(s, j);
    }
  }

  /** Inside a key and its blanks no run starts. */
  lemma KeyRuns(s: string, i: nat, k: nat)
    requires Separator(s, i) == Some(k)
    ensures forall y :: i < y < k ==> !IsEntropic(s[y]) || IsEntropic(s[y - 1])
  {
    hide SECRET_KEYS, KeyAt, RunEnd;
    var key := KeyAt(s, i, SECRET_KEYS).value;
    KeysAreTokens(key);
    var e := i + |key|;
    assert RunEnd(s, e, Blank) == k;
    forall y | i <= y < e
      ensures IsEntropic(s[y])
    {
      assert Lower(s[i + (y - i)]) == key[y - i];
    }
    assert forall y :: e <= y < k ==> In(Blank, s[y]);
  }

  lemma ValueStopsRun(s: string, v: nat)
    requires v <= |s|
    ensures ValueEnd(s, v).0 < |s| ==> !IsEntropic(s[ValueEnd(s, v).0])
  {
    hide RunEnd;
  }

  lemma EntropyQuietValue(s: string, i: nat)
    requires KeyValueMatch(s, i).None? && EntropyMatcher(s, i).None?
    ensures QuietValue(EntropyMatcher, s, i)
  {
    hide KeyValueMatch, Separator, RunEnd, EntropyMatcher, ValueEnd, IsEntropic;
    if Separator(s, i).Some? {
      var k := Separator(s, i).value;
      var v, e := RunEnd(s, k + 1, Blank), ValueStop(s, k);
      ShortValue(s, i, k);
      KeyRuns(s, i, k);
      ValueStopsRun(s, v);
      BlanksEndRuns();
      forall j: nat | i <= j <= e && j < |s|
        ensures EntropyMatcher(s, j).None?
      {
        if i < j < k {
          NotAStart(s, j);
        } else if j == k && v > k + 1 {
          assert In(Blank, s[k + 1]);
          EntropyNotNear(s, j, k + 1);
        } else if k < j < v {
          assert In(Blank, s[j]);
          EntropyNotNear(s, j, j);
        } else if j > i {
          EntropyNotNear(s, j, e);
        }
      }
    }
  }

  lemma BlanksEndRuns()
    ensures forall c :: In(Blank, c) ==> !IsEntropic(c)
    ensures forall c :: !In(Bare, c) ==> !IsEntropic(c)
    ensures forall c :: !In(EnvValue, c) || IsQuote(c) ==> !IsEntropic(c)
    ensures forall c :: In(EnvName, c) ==> IsEntropic(c)
    ensures !IsEntropic('[') && !IsEntropic(']')
  {
  }

  lemma NotAStart(s: string, j: nat)
    requires 0 < j < |s| && (!IsEntropic(s[j]) || IsEntropic(s[j - 1]))
    ensures EntropyMatcher(s, j).None?
  {
    hide EntropyMatcher, RunEnd;
    if EntropyMatcher(s, j).Some? {
      EntropyIsLong(s, j);
    }
  }

  lemma EntropyQuietMark(s: string, i: nat)
    requires EntropyMatcher(s, i).None?
    ensures QuietMark(EntropyMatcher, s, i)
  {
    hide KeyValueMatch, Separator, RunEnd, EntropyMatcher, ValueEnd, MARK, T.OccursAt, IsEntropic;
    if KeyValueMatch(s, i).Some? && KV.Marked(s, KeyValueMatch(s, i).value) {
      var cut := KeyValueMatch(s, i).value;
      MarkedKeeps(s, i);
      KV.MarkedIsBare(s, i);
      MarkAt(s, cut.keep);
      var k := Separator(s, i).value;
      KeyRuns(s, i, k);
      BlanksEndRuns();
      forall j: nat | i <= j <= cut.next && j < |s|
        ensures EntropyMatcher(s, j).None?
      {
        if i < j < k {
          NotAStart(s, j);
        } else if j == k {
          EntropyNotNear(s, j, k + 1);
        } else if k < j < cut.next {
          EntropyNotNear(s, j, cut.next - 1);
        } else if j == cut.next {
          EntropyNotNear(s, j, j);
        }
      }
    }
  }

  lemma EntropyKeepsKeys(s: string)
    ensures KeepsKeys(EntropyMatcher, s)
  {
    hide KeyValueMatch, EntropyMatcher, QuietValue, QuietMark, QuietHead, RunEnd;
    forall i: nat | i < |s|
      ensures EntropyMatcher(s, i).None? && KeyValueMatch(s, i).None? ==> QuietValue(EntropyMatcher, s, i)
      ensures EntropyMatcher(s, i).None? ==> QuietMark(EntropyMatcher, s, i)
      ensures QuietHead(EntropyMatcher, s, i)
    {
      if EntropyMatcher(s, i).None? {
        EntropyQuietMark(s, i);
        if KeyValueMatch(s, i).None? {
          EntropyQuietValue(s, i);
        }
      }
      EntropyQuietHead(s, i);
    }
    forall i: nat | 0 < i < |s| && EndsCut(EntropyMatcher, s, i)
      ensures !IsAlphanumeric(s[i])
    {
      var h: nat :| h < i && h < |s| && EntropyMatcher(s, h).Some? && EntropyMatcher(s, h).value.next == i;
      EntropyIsLong(s, h);
    }
  }

  lemma EntropyQuietHead(s: string, i: nat)
    ensures QuietHead(EntropyMatcher, s, i)
  {
    hide EntropyMatcher, RunEnd;
    if EntropyMatcher(s, i).Some? {
      EntropyIsLong(s, i);
    }
  }

  // ---------- The passes ----------

  lemma BearerKeepsMarks(s: string)
    requires Valid(s) && KV.AllMarked(s)
    ensures KV.AllMarked(BearerPass(s))
  {
    hide Valid, KV.AllMarked, Suits, KeepsKeys, Fits, Rewrite;
    BearerSuits();
    BearerKeepsKeys(s);
    StartBoundary(s);
    BearerPassIsRest(s);
    KeptMarked(BearerMatcher, s);
  }

  lemma BearerPassIsRest(s: string)
    requires Valid(s) && Suits(BearerMatcher)
    ensures Boundary(s, 0) && BearerPass(s) == Rest(BearerMatcher, s, 0)
  {
    hide Valid, Suits;
    StartBoundary(s);
  }

  lemma EntropyKeepsMarks(s: string)
    requires Valid(s) && KV.AllMarked(s)
    ensures KV.AllMarked(HighEntropyPass(s))
  {
    hide Valid, KV.AllMarked, Suits, KeepsKeys, Fits, Rewrite;
    EntropySuits();
    EntropyKeepsKeys(s);
    EntropyPassIsRest(s);
    KeptMarked(EntropyMatcher, s);
  }

  lemma EntropyPassIsRest(s: string)
    requires Valid(s) && Suits(EntropyMatcher)
    ensures Boundary(s, 0) && HighEntropyPass(s) == Rest(EntropyMatcher, s, 0)
  {
    hide Valid, RedactRuns, Rewrite, Fits;
    StartBoundary(s);
    HighEntropyIsScanner(s, 0);
  }
}
