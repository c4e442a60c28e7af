/** A key, its separator and its value: where a match is found in two texts that agree. */
module KeyValueParts {
  import opened Wrappers
  import opened Utf8
  import opened Scanner
  import opened Patterns
  import opened Sanitizer
  import opened ScanOutput
  import T = Text

  // ---------- The parts of a match ----------

  /** The separator after a key at `i`. */
  function Separator(s: string, i: nat): (r: Option<nat>)
    ensures r.Some? ==> KeyAt(s, i, SECRET_KEYS).Some? && i < r.value < |s|
  {
    var key := KeyAt(s, i, SECRET_KEYS);
    if i > |s| || (i > 0 && IsTokenChar(s[i - 1])) || key.None? then None
    else
      var k := RunEnd(s, i + |key.value|, Blank);
      if k == |s| || (s[k] != '=' && s[k] != ':') || k <= i then None else Some(k)
  }

  function Value(s: string, k: nat, key: string): Option<Cut>
    requires k < |s|
  {
    var v := RunEnd(s, k + 1, Blank);
    var bearer := if key == AUTHORIZATION then BearerMatch(s, v) else None;
    if bearer.Some? then bearer
    else if ValueEnd(s, v).0 - v >= 4 then Some(Cut(k + 1, ValueEnd(s, v).1, MARK))
    else None
  }

  lemma KeysAreTokens(key: string)
    requires key in SECRET_KEYS
    ensures |key| >= 5 && forall x :: 0 <= x < |key| ==> 'a' <= key[x] <= 'z' || key[x] == '_'
    ensures key[0] == 'p' || key[0] == 's' || key[0] == 't' || key[0] == 'a'
  {
  }

  lemma MatchParts(s: string, i: nat)
    ensures KeyValueMatch(s, i) ==
            if Separator(s, i).None? then None
            else Value(s, Separator(s, i).value, KeyAt(s, i, SECRET_KEYS).value)
  {
    hide KeyAt, RunEnd, ValueEnd, BearerMatch, IsTokenChar, SECRET_KEYS, LowerStarts;
    var key := KeyAt(s, i, SECRET_KEYS);
    if key.Some? {
      KeysAreTokens(key.value);
    }
  }

  /** A key starts with one of four letters, in either case, after no token character. */
  predicate KeyLetter(c: char) {
    var l := Lower(c);
    l == 'p' || l == 's' || l == 't' || l == 'a'
  }

  lemma NoKeyHere(s: string, i: nat)
    requires i < |s| && (!KeyLetter(s[i]) || (i > 0 && IsTokenChar(s[i - 1])))
    ensures KeyValueMatch(s, i).None?
  {
    hide RunEnd, ValueEnd, BearerMatch, IsTokenChar, SECRET_KEYS, KeyAt;
    var key := KeyAt(s, i, SECRET_KEYS);
    if key.Some? {
      KeysAreTokens(key.value);
      assert Lower(s[i + 0]) == key.value[0];
    }
  }

  // ---------- A match in two texts that agree ----------

  /** A word that cannot run past the last byte they share starts in both or in neither. */
  lemma WordMoves(s: string, i: nat, o: string, p: nat, n: nat, word: string)
    requires Same(s, i, o, p, n) && n > 0 && forall x :: 0 <= x < |word| ==> word[x] != Lower(s[i + (n - 1)])
    ensures LowerStarts(s, i, word) <==> LowerStarts(o, p, word)
  {
    hide Lower, Same;
    SameAt(s, i, o, p, n, i + (n - 1));
    if |word| >= n {
      assert word[n - 1] != Lower(s[i + (n - 1)]);
      assert word[n - 1] != Lower(o[p + (n - 1)]);
    } else {
      SameBounds(s, i, o, p, n);
      forall x | 0 <= x < |word|
        ensures Lower(s[i + x]) == word[x] <==> Lower(o[p + x]) == word[x]
      {
        SameAt(s, i, o, p, n, i + x);
      }
    }
  }

  lemma {:induction false} KeyMoves(s: string, i: nat, o: string, p: nat, n: nat, keys: seq<string>)
    requires Same(s, i, o, p, n) && n > 0
    requires forall key :: key in keys ==> forall x :: 0 <= x < |key| ==> key[x] != Lower(s[i + (n - 1)])
    ensures KeyAt(s, i, keys) == KeyAt(o, p, keys)
  {
    hide LowerStarts, Lower, Same;
    if keys != [] {
      WordMoves(s, i, o, p, n, keys[0]);
      KeyMoves(s, i, o, p, n, keys[1..]);
    }
  }

  /** The key, the blanks and the separator are found wherever the same bytes stand after no token character. */
  lemma SeparatorMoves(s: string, i: nat, o: string, p: nat, k: nat)
    requires Separator(s, i) == Some(k) && Same(s, i, o, p, k + 1 - i)
    requires p == 0 || !IsTokenChar(o[p - 1])
    ensures Separator(o, p) == Some(k - i + p) && KeyAt(o, p, SECRET_KEYS) == KeyAt(s, i, SECRET_KEYS)
  {
    hide LowerStarts, KeyAt, SECRET_KEYS, Same, IsTokenChar, RunEnd;
    var n := k + 1 - i;
    KeysHoldNoSeparator(s[k]);
    KeyMoves(s, i, o, p, n, SECRET_KEYS);
    var key := KeyAt(s, i, SECRET_KEYS).value;
    KeyInText(s, i, key);
    assert RunEnd(s, i + |key|, Blank) == k;
    RunMoves(s, i, o, p, n, i + |key|, Blank);
    SameAt(s, i, o, p, n, k);
  }

  lemma KeysHoldNoSeparator(c: char)
    requires c == '=' || c == ':'
    ensures forall key :: key in SECRET_KEYS ==> forall x :: 0 <= x < |key| ==> key[x] != Lower(c)
  {
    hide SECRET_KEYS;
    forall key | key in SECRET_KEYS
      ensures forall x :: 0 <= x < |key| ==> key[x] != Lower(c)
    {
      KeysAreTokens(key);
    }
  }

  /** The value ends alike wherever the same bytes stand, its end included. */
  lemma ValueEndMoves(s: string, i: nat, o: string, p: nat, n: nat, v: nat)
    requires Same(s, i, o, p, n) && i <= v <= i + n
    requires ValueEnd(s, v).0 < i + n || BothEnd(s, i, o, p, n)
    ensures ValueEnd(o, v - i + p).0 == ValueEnd(s, v).0 - i + p
  {
    hide RunEnd, Same;
    if v < i + n {
      SameAt(s, i, o, p, n, v);
      if IsQuote(s[v]) {
        RunMoves(s, i, o, p, n, v + 1, Until(s[v]));
      } else {
        RunMoves(s, i, o, p, n, v, Bare);
      }
    } else {
      RunMoves(s, i, o, p, n, v, Bare);
    }
  }

  lemma SeparatorShape(s: string, i: nat, k: nat)
    requires Separator(s, i) == Some(k)
    ensures KeyLetter(s[i]) && (i == 0 || !IsTokenChar(s[i - 1])) && (s[k] == '=' || s[k] == ':')
    ensures i + 5 <= k && forall y :: i <= y < i + 5 ==> IsTokenChar(s[y])
    ensures forall y :: i < y < k && IsTokenChar(s[y]) ==> IsTokenChar(s[y - 1])
  {
    hide SECRET_KEYS, KeyAt, RunEnd;
    var key := KeyAt(s, i, SECRET_KEYS).value;
    KeysAreTokens(key);
    assert Lower(s[i + 0]) == key[0];
    var e := i + |key|;
    assert RunEnd(s, e, Blank) == k;
    forall y | i <= y < e
      ensures IsTokenChar(s[y])
    {
      assert Lower(s[i + (y - i)]) == key[y - i];
    }
    assert forall y :: e <= y < k ==> In(Blank, s[y]);
  }

  /** The value after a separator, when it is too short to hide, ends before four bytes. */
  lemma ShortValue(s: string, i: nat, k: nat)
    requires Separator(s, i) == Some(k) && KeyValueMatch(s, i).None?
    ensures var v := RunEnd(s, k + 1, Blank);
            && ValueEnd(s, v).0 < v + 4
            && (ValueEnd(s, v).0 < |s| ==> !IsTokenChar(s[ValueEnd(s, v).0]))
  {
    hide KeyAt, SECRET_KEYS, BearerMatch, RunEnd, ValueEnd, IsTokenChar, KeyValueMatch, Separator;
    MatchParts(s, i);
    ValueStops(s, RunEnd(s, k + 1, Blank));
  }

  lemma ValueStops(s: string, v: nat)
    requires v <= |s|
    ensures ValueEnd(s, v).0 < |s| ==> !IsTokenChar(s[ValueEnd(s, v).0])
  {
    hide RunEnd;
  }

  lemma SpaceIsNoToken()
    ensures !IsTokenChar(' ') && !IsTokenChar('\t') && !IsTokenChar('=') && !IsTokenChar(':')
  {
  }

  lemma NoBracket(o: string, p: nat, k: nat)
    requires Separator(o, p) == Some(k)
    ensures '[' !in o[p..k + 1]
  {
    hide SECRET_KEYS, KeyAt, RunEnd;
    var key := KeyAt(o, p, SECRET_KEYS).value;
    KeysAreTokens(key);
    var e := p + |key|;
    assert RunEnd(o, e, Blank) == k;
    forall y | p <= y < e
      ensures o[y] != '['
    {
      assert Lower(o[p + (y - p)]) == key[y - p];
    }
    assert forall y :: e <= y < k ==> In(Blank, o[y]);
    assert forall y :: p <= y < k + 1 ==> o[y] != '[';
  }

  lemma BearerIsLong(o: string, v: nat)
    requires v <= |o| && LowerStarts(o, v, BEARER)
    ensures v + 6 < |o| && ValueEnd(o, v).0 == ValueEnd(o, v).1 == v + 6
  {
    var word := BEARER;
    assert word[0] == 'b' && word[1] == 'e' && word[2] == 'a' && word[3] == 'r' && word[4] == 'e' && word[5] == 'r';
    assert word[6] == ' ';
    assert Lower(o[v + 0]) == 'b' && Lower(o[v + 1]) == 'e' && Lower(o[v + 2]) == 'a' && Lower(o[v + 3]) == 'r';
    assert Lower(o[v + 4]) == 'e' && Lower(o[v + 5]) == 'r' && Lower(o[v + 6]) == ' ';
    RunEndCovers(o, v, Bare, v + 6);
  }

  /** Nothing hides a value of fewer than four bytes. */
  lemma ShortStays(o: string, p: nat, k: nat)
    requires Separator(o, p) == Some(k) && ValueEnd(o, RunEnd(o, k + 1, Blank)).0 < RunEnd(o, k + 1, Blank) + 4
    ensures KeyValueMatch(o, p).None?
  {
    hide KeyAt, SECRET_KEYS, RunEnd, ValueEnd, KeyValueMatch, Separator, LowerStarts;
    MatchParts(o, p);
    var v := RunEnd(o, k + 1, Blank);
    if LowerStarts(o, v, BEARER) {
      BearerIsLong(o, v);
    }
  }

  /** Where the value after a separator stops. */
  function ValueStop(s: string, k: nat): (e: nat)
    requires k < |s|
    ensures k < e <= |s|
  {
    ValueEnd(s, RunEnd(s, k + 1, Blank)).0
  }

  lemma ShortEndBoundary(s: string, v: nat)
    requires Valid(s) && v <= |s|
    ensures var e := ValueEnd(s, v).0; if e < |s| then Boundary(s, e + 1) else Boundary(s, |s|)
  {
    hide Valid, RunEnd;
    var e := ValueEnd(s, v).0;
    if e < |s| {
      AfterAscii(s, e + 1);
    }
  }

  lemma ShortValueMoves(s: string, i: nat, o: string, p: nat, k: nat, n: nat)
    requires i < k < i + n && Same(s, i, o, p, n)
    requires var e := ValueEnd(s, RunEnd(s, k + 1, Blank)).0; e < i + n || BothEnd(s, i, o, p, n)
    ensures var v, w := RunEnd(s, k + 1, Blank), RunEnd(o, k - i + p + 1, Blank);
            ValueEnd(o, w).0 - w == ValueEnd(s, v).0 - v
  {
    hide Same, ValueEnd, RunEnd;
    SameBounds(s, i, o, p, n);
    RunMoves(s, i, o, p, n, k + 1, Blank);
    ValueEndMoves(s, i, o, p, n, RunEnd(s, k + 1, Blank));
  }

  // ---------- A match beside what is written for it ----------

  /** A cut after `bearer ` and not after the separator. */
  predicate AfterBearer(s: string, cut: Cut) {
    0 < cut.keep <= |s| && s[cut.keep - 1] == ' '
  }

  lemma MatchShape(s: string, i: nat)
    requires KeyValueMatch(s, i).Some?
    ensures Separator(s, i).Some?
    ensures var cut, k := KeyValueMatch(s, i).value, Separator(s, i).value;
            var v := RunEnd(s, k + 1, Blank);
            if AfterBearer(s, cut) then
              LowerStarts(s, v, BEARER) && cut.keep == v + 7 && cut.next == RunEnd(s, v + 7, BearerValue) >= v + 15
            else cut.keep == k + 1 && cut.next == ValueEnd(s, v).1
  {
    hide KeyAt, SECRET_KEYS, RunEnd, ValueEnd, KeyValueMatch, LowerStarts, Separator;
    MatchParts(s, i);
    var k := Separator(s, i).value;
    SeparatorShape(s, i, k);
    var v := RunEnd(s, k + 1, Blank);
    if LowerStarts(s, v, BEARER) {
      BearerIsLong(s, v);
      BearerSpace(s, v);
    }
  }

  lemma BearerSpace(s: string, v: nat)
    requires LowerStarts(s, v, BEARER)
    ensures v + 7 <= |s| && s[v + 6] == ' ' && |BEARER| == 7 && Lower(s[v]) == 'b'
  {
    var word := BEARER;
    assert word[6] == ' ' && word[0] == 'b' && |word| == 7;
    assert Lower(s[v + 6]) == ' ' && Lower(s[v + 0]) == 'b';
  }

  lemma MarkAt(o: string, k: nat)
    requires T.OccursAt(o, MARK, k)
    ensures k + 10 <= |o| && o[k] == '[' && o[k + 9] == ']'
    ensures forall x :: k <= x < k + 10 ==> In(Bare, o[x])
    ensures forall x :: k <= x < k + 9 && KeyLetter(o[x]) ==> x > k && IsTokenChar(o[x - 1])
  {
    var mark := MARK;
    assert |mark| == 10 && mark[0] == '[' && mark[9] == ']';
    assert mark[1] == 'R' && mark[2] == 'E' && mark[3] == 'D' && mark[4] == 'A';
    assert mark[5] == 'C' && mark[6] == 'T' && mark[7] == 'E' && mark[8] == 'D';
    forall x | k <= x < k + 10
      ensures o[x] == mark[x - k]
    {
      assert o[k..k + 10][x - k] == mark[x - k];
    }
  }

  /** A value that starts with the mark is a match again. */
  lemma MarkedValue(o: string, p: nat, k: nat)
    requires Separator(o, p) == Some(k) && T.OccursAt(o, MARK, k + 1)
    ensures KeyValueMatch(o, p) == Some(Cut(k + 1, RunEnd(o, k + 1, Bare), MARK)) && RunEnd(o, k + 1, Bare) >= k + 11
  {
    hide KeyAt, SECRET_KEYS, KeyValueMatch, Separator, LowerStarts, KeyLetter;
    MatchParts(o, p);
    MarkAt(o, k + 1);
    hide MARK;
    RunEndCovers(o, k + 1, Bare, k + 11);
    assert RunEnd(o, k + 1, Blank) == k + 1;
    hide RunEnd;
    if LowerStarts(o, k + 1, BEARER) {
      BearerSpace(o, k + 1);
    }
  }

  /** `bearer ` before a mark is a value of its own. */
  lemma BearerBeforeMark(o: string, p: nat, k: nat)
    requires Separator(o, p) == Some(k)
    requires var v := RunEnd(o, k + 1, Blank); LowerStarts(o, v, BEARER) && T.OccursAt(o, MARK, v + 7)
    ensures KeyValueMatch(o, p) == Some(Cut(k + 1, RunEnd(o, k + 1, Blank) + 6, MARK))
    ensures o[k + 1] != '['
  {
    hide KeyAt, SECRET_KEYS, KeyValueMatch, Separator, LowerStarts, KeyLetter, ValueEnd;
    MatchParts(o, p);
    var v := RunEnd(o, k + 1, Blank);
    BearerIsLong(o, v);
    BearerSpace(o, v);
    MarkAt(o, v + 7);
    hide MARK;
    assert RunEnd(o, v + 7, BearerValue) == v + 7;
  }

  /** What is left of a match: a value that starts with the mark, or `bearer ` and the mark. */
  ghost predicate Redacted(o: string, from: nat) {
    from <= |o|
    && var v := RunEnd(o, from, Blank);
       T.OccursAt(o, MARK, from) || (LowerStarts(o, v, BEARER) && T.OccursAt(o, MARK, v + 7))
  }

  lemma BearerMoves(s: string, i: nat, o: string, p: nat, n: nat, k: nat)
    requires Same(s, i, o, p, n) && i <= k < i + n
    requires var v := RunEnd(s, k + 1, Blank); LowerStarts(s, v, BEARER) && i + n == v + 7
    ensures var v, w := RunEnd(s, k + 1, Blank), RunEnd(o, k - i + p + 1, Blank);
            LowerStarts(o, w, BEARER) && w == v - i + p
  {
    hide RunEnd, Same;
    var v := RunEnd(s, k + 1, Blank);
    SameBounds(s, i, o, p, n);
    RunMoves(s, i, o, p, n, k + 1, Blank);
    forall x | 0 <= x < |BEARER|
      ensures Lower(s[v + x]) == BEARER[x] <==> Lower(o[v - i + p + x]) == BEARER[x]
    {
      SameAt(s, i, o, p, n, v + x);
    }
  }

  /** After a match no word goes on. */
  lemma AfterMatch(s: string, i: nat)
    requires Valid(s) && KeyValueMatch(s, i).Some?
    ensures var n := KeyValueMatch(s, i).value.next;
            i < n <= |s| && (n == |s| || !IsAlphanumeric(s[n]) || !IsTokenChar(s[n - 1]))
  {
    hide Valid, KeyValueMatch, Separator, RunEnd, LowerStarts, ValueEnd, Boundary;
    KeyValueCuts(s, i);
    MatchShape(s, i);
    var v := RunEnd(s, Separator(s, i).value + 1, Blank);
    ValueGoesOn(s, v);
  }

  lemma ValueGoesOn(s: string, v: nat)
    requires v <= |s|
    ensures var n := ValueEnd(s, v).1; n == |s| || !In(Bare, s[n]) || (n > 0 && IsQuote(s[n - 1]))
  {
    hide RunEnd;
  }

  lemma BracketIsNoToken()
    ensures !IsTokenChar(']') && !IsTokenChar('[')
  {
  }

  lemma BracketIsNoKey()
    ensures !KeyLetter(']') && !KeyLetter('[') && !KeyLetter(' ') && !KeyLetter('\t') && !KeyLetter('=') && !KeyLetter(':')
  {
  }

  lemma KeyLetterIsToken(c: char)
    ensures KeyLetter(c) ==> IsTokenChar(c)
  {
  }

  lemma BearerLetters(s: string, v: nat, y: nat)
    requires LowerStarts(s, v, BEARER) && v <= y < v + 7
    ensures y < |s| && (KeyLetter(s[y]) ==> y > v && IsTokenChar(s[y - 1]))
  {
    var word := BEARER;
    assert word[0] == 'b' && word[1] == 'e' && word[2] == 'a' && word[3] == 'r' && word[4] == 'e' && word[5] == 'r';
    assert word[6] == ' ' && |word| == 7;
    assert Lower(s[v + (y - v)]) == word[y - v];
    if y > v {
      assert Lower(s[v + (y - 1 - v)]) == word[y - 1 - v];
    }
  }

  // ---------- A separator and a short value beside a scan ----------

  /** The output of a scanner has reached p where the text has reached i, and a key may start at both or at neither. */
  ghost predicate WordAligned(m: Matcher, s: string, i: nat, o: string, p: nat) {
    && Aligned(m, s, i, o, p)
    && (i < |s| && KeyLetter(s[i]) && p <= |o| ==>
          ((i == 0 || !IsTokenChar(s[i - 1])) <==> (p == 0 || !IsTokenChar(o[p - 1]))))
  }

  /** It is enough that no word goes on where a cut ends. */
  lemma WordsAlign(m: Matcher, s: string, i: nat, o: string, p: nat)
    requires Aligned(m, s, i, o, p)
    requires 0 < i < |s| && EndsCut(m, s, i) ==> !IsAlphanumeric(s[i]) || !IsTokenChar(s[i - 1])
    ensures WordAligned(m, s, i, o, p)
  {
    hide Valid, Suits, Rest, EndsCut, Boundary;
    AlignedStart(m, s, i, o, p);
    BracketIsNoToken();
    if i < |s| {
      KeyLetterIsAlphanumeric(s[i]);
    }
    hide IsTokenChar, KeyLetter, IsAlphanumeric;
    if i == 0 && EndsCut(m, s, 0) {
      NothingEndsAtZero(m, s);
    }
  }

  lemma NothingEndsAtZero(m: Matcher, s: string)
    ensures !EndsCut(m, s, 0)
  {
  }

  lemma KeyLetterIsAlphanumeric(c: char)
    ensures KeyLetter(c) ==> IsAlphanumeric(c)
  {
  }

  lemma BracketsAgree(m: Matcher, s: string, i: nat, o: string, p: nat, k: nat)
    requires Aligned(m, s, i, o, p) && Separator(o, p) == Some(k)
    ensures Same(o, p, s, i, k + 1 - p) && i < |s| && p < |o| && s[i] == o[p]
  {
    hide Separator, Aligned, SECRET_KEYS, KeyAt, RunEnd, Same;
    NoBracket(o, p, k);
    LeadAligned(m, s, i, o, p, k + 1 - p);
    SameAt(o, p, s, i, k + 1 - p, p);
  }

  lemma SeparatorBack(m: Matcher, s: string, i: nat, o: string, p: nat, k: nat)
    requires WordAligned(m, s, i, o, p) && Separator(o, p) == Some(k)
    ensures i < |s| && Separator(s, i) == Some(k - p + i)
  {
    hide Separator, RunEnd, KeyLetter, IsTokenChar, SECRET_KEYS, KeyAt, Aligned, Same;
    SeparatorShape(o, p, k);
    BracketsAgree(m, s, i, o, p, k);
    SeparatorMoves(o, p, s, i, k);
  }

  lemma SeparatorForth(m: Matcher, s: string, i: nat, o: string, p: nat, n: nat)
    requires WordAligned(m, s, i, o, p) && i < |s| && p <= |o| && Separator(s, i).Some?
    requires Same(s, i, o, p, n) && Separator(s, i).value < i + n
    ensures Separator(o, p) == Some(Separator(s, i).value - i + p)
  {
    hide Separator, RunEnd, KeyLetter, IsTokenChar, KeyAt, SECRET_KEYS, Aligned, Same;
    var k := Separator(s, i).value;
    SeparatorStart(s, i, k);
    Shorter(s, i, o, p, n, k + 1 - i);
    SeparatorMoves(s, i, o, p, k);
  }

  lemma SeparatorStart(s: string, i: nat, k: nat)
    requires Separator(s, i) == Some(k)
    ensures i < |s| && KeyLetter(s[i]) && (i == 0 || !IsTokenChar(s[i - 1]))
  {
    hide Separator, KeyLetter, IsTokenChar;
    SeparatorShape(s, i, k);
  }

  /** Nothing matches from a key to the end of its value, the byte that ends it included. */
  ghost predicate QuietValue(m: Matcher, s: string, i: nat) {
    Separator(s, i).Some? ==>
      forall j: nat :: i <= j <= ValueStop(s, Separator(s, i).value) && j < |s| ==> m(s, j).None?
  }

  lemma ShortInBoth(m: Matcher, s: string, i: nat, o: string, p: nat, k: nat)
    requires Aligned(m, s, i, o, p) && i < |s| && KeyValueMatch(s, i).None? && QuietValue(m, s, i)
    requires Separator(s, i) == Some(k) && Separator(o, p) == Some(k - i + p)
    ensures ValueStop(o, k - i + p) < RunEnd(o, k - i + p + 1, Blank) + 4
  {
    hide Separator, KeyValueMatch, Boundary, ValueEnd, RunEnd, SECRET_KEYS, KeyAt, Aligned, Valid, Same;
    AlignedStart(m, s, i, o, p);
    var e := ValueStop(s, k);
    var n := (if e < |s| then e + 1 else |s|) - i;
    ShortEndBoundary(s, RunEnd(s, k + 1, Blank));
    AlignedRun(m, s, i, o, p, n);
    AlignedStart(m, s, i + n, o, p + n);
    RestAtEnd(m, s);
    ShortValue(s, i, k);
    ShortValueMoves(s, i, o, p, k, n);
  }

  /** A text without a match where the scan stands gives an output without one, if the scan is quiet there. */
  lemma NoMatchMoves(m: Matcher, s: string, i: nat, o: string, p: nat)
    requires WordAligned(m, s, i, o, p) && i < |s| && KeyValueMatch(s, i).None? && QuietValue(m, s, i)
    ensures KeyValueMatch(o, p).None?
  {
    hide Separator, KeyValueMatch, ValueEnd, RunEnd, SECRET_KEYS, KeyAt, Aligned, Value, QuietValue, KeyLetter, IsTokenChar;
    MatchParts(o, p);
    if Separator(o, p).Some? {
      var k := Separator(o, p).value;
      SeparatorBack(m, s, i, o, p, k);
      ShortInBoth(m, s, i, o, p, k - p + i);
      ShortStays(o, p, k);
    }
  }
}
