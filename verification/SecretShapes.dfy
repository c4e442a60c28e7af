/**
 * The shapes of a secret spelled out in bytes, without the matchers of the scanners, and what each pass makes of
 * them: none of a shape is left unhidden, and nothing else is touched.
 */
module SecretShapes {
  import opened Wrappers
  import opened Utf8
  import opened Scanner
  import opened Patterns
  import opened Sanitizer
  import P = KeyValueParts
  import KV = KeyValueTwice
  import E = EnvParts
  import Env = EnvTwice
  import T = Text

  // ---------- Bytes and words ----------

  predicate Word(c: char) {
    'a' <= c <= 'z' || 'A' <= c <= 'Z' || '0' <= c <= '9' || c == '_' || c == '-'
  }

  predicate Gap(c: char) {
    c == ' ' || c == '\t'
  }

  /** Space, tab, line feed, carriage return, form feed. */
  predicate White(c: char) {
    c as int == 32 || c as int == 9 || c as int == 10 || c as int == 13 || c as int == 12
  }

  predicate Quote(c: char) {
    c as int == 34 || c as int == 39
  }

  predicate EndsBare(c: char) {
    Gap(c) || Quote(c) || c == ',' || c == '}'
  }

  predicate EndsToken(c: char) {
    White(c) || Quote(c) || c == ',' || c == '{' || c == '}' || c == '[' || c == ']'
  }

  predicate EndsContent(c: char) {
    White(c) || c == ',' || c == '}'
  }

  predicate NameByte(c: char) {
    'A' <= c <= 'Z' || '0' <= c <= '9' || c == '_'
  }

  /** A word in lower case stands at `i`, each letter in either case. */
  predicate AnyCase(s: string, i: nat, word: string) {
    i + |word| <= |s|
    && forall x :: 0 <= x < |word| ==>
         s[i + x] == word[x] || ('a' <= word[x] <= 'z' && s[i + x] as int + 32 == word[x] as int)
  }

  predicate Gaps(s: string, from: nat, to: nat) {
    from <= to <= |s| && forall x :: from <= x < to ==> Gap(s[x])
  }

  predicate Mark(s: string, k: nat) {
    k + 10 <= |s| && s[k..k + 10] == "[REDACTED]"
  }

  // ---------- Keys and their values ----------

  /** One of the seven keys stands at `i` and ends at `e`. */
  predicate KeyTo(s: string, i: nat, e: nat) {
    || (AnyCase(s, i, "password") && e == i + 8)
    || (AnyCase(s, i, "passwd") && e == i + 6)
    || (AnyCase(s, i, "secret") && e == i + 6)
    || (AnyCase(s, i, "token") && e == i + 5)
    || (AnyCase(s, i, "api_key") && e == i + 7)
    || (AnyCase(s, i, "apikey") && e == i + 6)
    || (AnyCase(s, i, "authorization") && e == i + 13)
  }

  /** A key that starts a word, blanks, `=` or `:` at `k`, and blanks up to `v`. */
  predicate KeyBefore(s: string, i: nat, e: nat, k: nat, v: nat) {
    && (i == 0 || (i <= |s| && !Word(s[i - 1])))
    && KeyTo(s, i, e) && Gaps(s, e, k) && k < |s| && (s[k] == '=' || s[k] == ':') && Gaps(s, k + 1, v)
  }

  /** A quote and three bytes that are not that quote. */
  predicate QuotedValue(s: string, v: nat) {
    v + 4 <= |s| && Quote(s[v]) && forall x :: v < x < v + 4 ==> s[x] != s[v]
  }

  predicate BareValue(s: string, v: nat) {
    v + 4 <= |s| && forall x :: v <= x < v + 4 ==> !EndsBare(s[x])
  }

  predicate KeyValue(s: string, i: nat, e: nat, k: nat, v: nat) {
    KeyBefore(s, i, e, k, v) && (QuotedValue(s, v) || BareValue(s, v))
  }

  /** An authorization header with a bearer token of at least eight bytes. */
  predicate Header(s: string, i: nat, v: nat) {
    AnyCase(s, i, "authorization") && BearerToken(s, v)
  }

  predicate BearerToken(s: string, v: nat) {
    AnyCase(s, v, "bearer ") && v + 15 <= |s| && forall x :: v + 7 <= x < v + 15 ==> !EndsToken(s[x])
  }

  // ---------- The classes of the scanners ----------

  lemma Classes(c: char)
    ensures IsTokenChar(c) <==> Word(c)
    ensures In(Blank, c) <==> Gap(c)
    ensures IsQuote(c) <==> Quote(c)
    ensures IsSpace(c) <==> White(c)
    ensures In(Bare, c) <==> !EndsBare(c)
    ensures In(BearerValue, c) <==> !EndsToken(c)
    ensures In(EnvValue, c) <==> !EndsContent(c)
    ensures In(EnvName, c) <==> NameByte(c)
  {
  }

  lemma AnyCaseIsLower(s: string, i: nat, word: string)
    requires forall x :: 0 <= x < |word| ==> !('A' <= word[x] <= 'Z')
    ensures LowerStarts(s, i, word) <==> AnyCase(s, i, word)
  {
  }

  /** A run that is told by its bytes and the byte after it. */
  lemma RunIs(s: string, j: nat, k: Class, e: nat)
    requires j <= e <= |s| && (forall x :: j <= x < e ==> In(k, s[x])) && (e < |s| ==> !In(k, s[e]))
    ensures RunEnd(s, j, k) == e
  {
    hide In, RunEnd;
    RunEndCovers(s, j, k, e);
  }

  lemma GapsAreRun(s: string, from: nat, to: nat)
    requires Gaps(s, from, to) && (to < |s| ==> !Gap(s[to]))
    ensures RunEnd(s, from, Blank) == to
  {
    RunIs(s, from, Blank, to);
  }

  lemma RunIsGaps(s: string, from: nat)
    requires from <= |s|
    ensures Gaps(s, from, RunEnd(s, from, Blank))
  {
    hide RunEnd;
  }

  // ---------- The key ----------

  lemma SevenKeys()
    ensures |SECRET_KEYS| == 7
    ensures SECRET_KEYS[0] == "password" && SECRET_KEYS[1] == "passwd" && SECRET_KEYS[2] == "secret"
    ensures SECRET_KEYS[3] == "token" && SECRET_KEYS[4] == "api_key" && SECRET_KEYS[5] == "apikey"
    ensures SECRET_KEYS[6] == "authorization" && AUTHORIZATION == "authorization" && BEARER == "bearer "
  {
  }

  lemma {:induction false} KeyListed(s: string, i: nat, keys: seq<string>, n: nat)
    requires n < |keys| && LowerStarts(s, i, keys[n])
    requires forall m :: 0 <= m < n ==> !LowerStarts(s, i, keys[m])
    ensures KeyAt(s, i, keys) == Some(keys[n])
  {
    hide LowerStarts;
    if n > 0 {
      assert keys[1..][n - 1] == keys[n];
      KeyListed(s, i, keys[1..], n - 1);
    }
  }

  lemma {:induction false} KeyNotListed(s: string, i: nat, keys: seq<string>)
    requires forall m :: 0 <= m < |keys| ==> !LowerStarts(s, i, keys[m])
    ensures KeyAt(s, i, keys).None?
  {
    hide LowerStarts;
    if keys != [] {
      KeyNotListed(s, i, keys[1..]);
    }
  }

  /** No key starts another. */
  lemma KeysApart(s: string, i: nat)
    ensures !(AnyCase(s, i, "password") && AnyCase(s, i, "passwd"))
    ensures !(AnyCase(s, i, "api_key") && AnyCase(s, i, "apikey"))
    ensures AnyCase(s, i, "password") || AnyCase(s, i, "passwd") ==> i < |s| && (s[i] == 'p' || s[i] == 'P')
    ensures AnyCase(s, i, "secret") ==> i < |s| && (s[i] == 's' || s[i] == 'S')
    ensures AnyCase(s, i, "token") ==> i < |s| && (s[i] == 't' || s[i] == 'T')
    ensures AnyCase(s, i, "api_key") || AnyCase(s, i, "apikey") ==> i + 1 < |s| && (s[i + 1] == 'p' || s[i + 1] == 'P')
    ensures AnyCase(s, i, "authorization") ==> i + 1 < |s| && (s[i + 1] == 'u' || s[i + 1] == 'U')
    ensures AnyCase(s, i, "api_key") || AnyCase(s, i, "apikey") || AnyCase(s, i, "authorization") ==>
              i < |s| && (s[i] == 'a' || s[i] == 'A')
  {
    Letter(s, i, "password", 0);
    Letter(s, i, "passwd", 0);
    Letter(s, i, "password", 5);
    Letter(s, i, "passwd", 5);
    Letter(s, i, "secret", 0);
    Letter(s, i, "token", 0);
    Letter(s, i, "api_key", 0);
    Letter(s, i, "apikey", 0);
    Letter(s, i, "authorization", 0);
    Letter(s, i, "api_key", 1);
    Letter(s, i, "apikey", 1);
    Letter(s, i, "authorization", 1);
    Letter(s, i, "api_key", 3);
    Letter(s, i, "apikey", 3);
  }

  lemma Letter(s: string, i: nat, word: string, x: nat)
    requires x < |word|
    ensures AnyCase(s, i, word) ==>
              i + x < |s| && (s[i + x] == word[x] || ('a' <= word[x] <= 'z' && s[i + x] as int + 32 == word[x] as int))
  {
  }

  /** The key that the scanner finds is the one that stands there. */
  lemma KeyFound(s: string, i: nat, e: nat)
    ensures KeyTo(s, i, e) <==> KeyAt(s, i, SECRET_KEYS).Some? && e == i + |KeyAt(s, i, SECRET_KEYS).value|
    ensures AnyCase(s, i, "authorization") <==> KeyAt(s, i, SECRET_KEYS) == Some(AUTHORIZATION)
  {
    hide KeyAt, SECRET_KEYS, AnyCase, LowerStarts, AUTHORIZATION, BEARER;
    SevenKeys();
    KeysApart(s, i);
    forall n: nat | n < 7
      ensures LowerStarts(s, i, SECRET_KEYS[n]) <==> AnyCase(s, i, SECRET_KEYS[n])
    {
      P.KeysAreTokens(SECRET_KEYS[n]);
      AnyCaseIsLower(s, i, SECRET_KEYS[n]);
    }
    if n: nat :| n < 7 && AnyCase(s, i, SECRET_KEYS[n]) {
      KeyListed(s, i, SECRET_KEYS, n);
    } else {
      KeyNotListed(s, i, SECRET_KEYS);
    }
  }

  // ---------- The match of a key and its value ----------

  /** From `from` up to `to` no byte ends a token, and there the text ends or a byte does. */
  predicate TokenRun(s: string, from: nat, to: nat) {
    from <= to <= |s| && (forall x :: from <= x < to ==> !EndsToken(s[x])) && (to < |s| ==> EndsToken(s[to]))
  }

  predicate BareRun(s: string, from: nat, to: nat) {
    from <= to <= |s| && (forall x :: from <= x < to ==> !EndsBare(s[x])) && (to < |s| ==> EndsBare(s[to]))
  }

  /** A quoted text from its opening quote at `v`, with its closing quote, or the rest of the text if it has none. */
  predicate Quoted(s: string, v: nat, to: nat) {
    && v < to <= |s| && Quote(s[v]) && (forall x :: v < x < to - 1 ==> s[x] != s[v])
    && (if v < to - 1 && s[to - 1] == s[v] then true else to == |s|)
  }

  /** The part a match hides: the token of a header, or else all behind the separator, to the end of the value. */
  predicate Hides(s: string, i: nat, k: nat, v: nat, from: nat, to: nat) {
    if Header(s, i, v) then from == v + 7 && TokenRun(s, from, to)
    else from == k + 1 && (Quoted(s, v, to) || (v < |s| && !Quote(s[v]) && BareRun(s, v, to)))
  }

  lemma KeyIsSeparated(s: string, i: nat, e: nat, k: nat, v: nat)
    requires KeyBefore(s, i, e, k, v)
    ensures i < k && P.Separator(s, i) == Some(k)
    ensures v < |s| && !Gap(s[v]) ==> RunEnd(s, k + 1, Blank) == v
  {
    hide KeyAt, SECRET_KEYS, KeyTo, RunEnd;
    KeyFound(s, i, e);
    P.KeysAreTokens(KeyAt(s, i, SECRET_KEYS).value);
    GapsAreRun(s, e, k);
    if i > 0 {
      Classes(s[i - 1]);
    }
    if v < |s| && !Gap(s[v]) {
      GapsAreRun(s, k + 1, v);
    }
  }

  lemma SeparatedIsKey(s: string, i: nat, k: nat)
    requires P.Separator(s, i) == Some(k)
    ensures KeyBefore(s, i, i + |KeyAt(s, i, SECRET_KEYS).value|, k, RunEnd(s, k + 1, Blank))
  {
    hide KeyAt, SECRET_KEYS, KeyTo, RunEnd;
    var e := i + |KeyAt(s, i, SECRET_KEYS).value|;
    KeyFound(s, i, e);
    RunIsGaps(s, e);
    RunIsGaps(s, k + 1);
    if i > 0 {
      Classes(s[i - 1]);
    }
  }

  lemma ValueIsLong(s: string, v: nat)
    requires v <= |s|
    ensures ValueEnd(s, v).0 - v >= 4 <==> QuotedValue(s, v) || BareValue(s, v)
  {
    hide RunEnd;
    if v < |s| {
      Classes(s[v]);
    }
    if v < |s| && Quote(s[v]) {
      var e := RunEnd(s, v + 1, Until(s[v]));
      if QuotedValue(s, v) {
        RunEndCovers(s, v + 1, Until(s[v]), v + 4);
      }
    } else {
      var e := RunEnd(s, v, Bare);
      if BareValue(s, v) {
        RunEndCovers(s, v, Bare, v + 4);
      }
    }
  }

  lemma HeaderIsBearer(s: string, v: nat)
    requires v <= |s|
    ensures BearerToken(s, v) <==> BearerMatch(s, v).Some?
    ensures BearerToken(s, v) ==> BearerMatch(s, v).value.keep == v + 7 && TokenRun(s, v + 7, BearerMatch(s, v).value.next)
    ensures BearerToken(s, v) ==> BareValue(s, v)
  {
    hide RunEnd, LowerStarts, AnyCase, BEARER;
    SevenKeys();
    AnyCaseIsLower(s, v, "bearer ");
    if LowerStarts(s, v, BEARER) {
      BearerIsBare(s, v);
      var e := RunEnd(s, v + 7, BearerValue);
      if BearerToken(s, v) {
        RunEndCovers(s, v + 7, BearerValue, v + 15);
      }
    }
  }

  lemma BearerIsBare(s: string, v: nat)
    requires LowerStarts(s, v, BEARER)
    ensures BareValue(s, v) && v + 7 <= |s|
  {
    var word := BEARER;
    assert word[0] == 'b' && word[1] == 'e' && word[2] == 'a' && word[3] == 'r' && |word| == 7;
    assert Lower(s[v + 0]) == 'b' && Lower(s[v + 1]) == 'e' && Lower(s[v + 2]) == 'a' && Lower(s[v + 3]) == 'r';
  }

  lemma HiddenTo(s: string, v: nat)
    requires v <= |s|
    ensures var to := ValueEnd(s, v).1;
            v < |s| ==> Quoted(s, v, to) || (!Quote(s[v]) && BareRun(s, v, to))
  {
    hide RunEnd;
    if v < |s| {
      Classes(s[v]);
    }
  }

  /** A match stands exactly where a key and a value of four bytes do, and hides the value. */
  lemma KeyValueIsMatch(s: string, i: nat, e: nat, k: nat, v: nat)
    requires KeyValue(s, i, e, k, v)
    ensures KeyValueMatch(s, i).Some?
    ensures var cut := KeyValueMatch(s, i).value; cut.mark == MARK && Hides(s, i, k, v, cut.keep, cut.next)
  {
    hide KeyAt, SECRET_KEYS, KeyTo, RunEnd, KeyValueMatch, P.Separator, ValueEnd, BearerMatch, AnyCase, AUTHORIZATION;
    KeyIsSeparated(s, i, e, k, v);
    P.MatchParts(s, i);
    KeyFound(s, i, e);
    ValueIsLong(s, v);
    HeaderIsBearer(s, v);
    BearerIsMark(s, v);
    HiddenTo(s, v);
  }

  lemma BearerIsMark(s: string, v: nat)
    ensures BearerMatch(s, v).Some? ==> BearerMatch(s, v).value.mark == MARK
  {
  }

  lemma MatchIsKeyValue(s: string, i: nat) returns (e: nat, k: nat, v: nat)
    requires KeyValueMatch(s, i).Some?
    ensures KeyValue(s, i, e, k, v)
  {
    hide KeyAt, SECRET_KEYS, KeyTo, RunEnd, KeyValueMatch, P.Separator, ValueEnd, BearerMatch;
    P.MatchParts(s, i);
    k := P.Separator(s, i).value;
    SeparatedIsKey(s, i, k);
    e, v := i + |KeyAt(s, i, SECRET_KEYS).value|, RunEnd(s, k + 1, Blank);
    ValueIsLong(s, v);
    HeaderIsBearer(s, v);
  }

  // ---------- The key-value pass ----------

  lemma MarkStands(s: string, k: nat)
    ensures T.OccursAt(s, MARK, k) <==> Mark(s, k)
    ensures Mark(s, k) ==> k < |s| && s[k] == '['
  {
    if Mark(s, k) {
      assert s[k..k + 10][0] == s[k];
    }
  }

  lemma TokenHoldsNoMark(o: string, v: nat)
    requires v < |o| && BearerToken(o, v)
    ensures !P.Redacted(o, v + 7)
  {
    hide AnyCase, RunEnd, MARK, BEARER;
    SevenKeys();
    assert !EndsToken(o[v + 7]);
    assert !EndsToken(o[v + 13]);
    MarkStands(o, v + 7);
    RunIs(o, v + 7, Blank, v + 7);
    if LowerStarts(o, v + 7, BEARER) {
      P.BearerSpace(o, v + 7);
    }
  }

  /**
   * Completeness of the key-value pass: wherever its output has a listed key at the start of a word, in any case,
   * blanks, `=` or `:`, blanks, and a quote with three bytes that are not that quote or four bytes that go on a bare
   * value, the value is the mark, or `bearer ` and the mark.
   */
  lemma KeyValuesHidden(s: string, i: nat, e: nat, k: nat, v: nat)
    requires Valid(s) && KeyValue(KeyValuePass(s), i, e, k, v)
    ensures var o := KeyValuePass(s); Mark(o, k + 1) || (AnyCase(o, v, "bearer ") && Mark(o, v + 7))
  {
    hide Valid, KeyValuePass, KeyValueMatch, KeyTo, AnyCase, P.Redacted, Mark, RunEnd, P.Separator;
    var o := KeyValuePass(s);
    KeyValueIsMatch(o, i, e, k, v);
    KeyInside(o, i, e, k, v);
    KV.RemainingAreRedacted(s, i);
    KeyIsSeparated(o, i, e, k, v);
    if Header(o, i, v) {
      TokenHoldsNoMark(o, v);
    } else {
      StillRedacted(o, k, v);
    }
  }

  lemma StillRedacted(o: string, k: nat, v: nat)
    requires P.Redacted(o, k + 1) && RunEnd(o, k + 1, Blank) == v
    ensures Mark(o, k + 1) || (AnyCase(o, v, "bearer ") && Mark(o, v + 7))
  {
    hide AnyCase, RunEnd, MARK, BEARER, Mark, LowerStarts, T.OccursAt;
    SevenKeys();
    MarkStands(o, k + 1);
    MarkStands(o, v + 7);
    AnyCaseIsLower(o, v, "bearer ");
  }

  /** Only the mark is left to hide: it stands right behind the separator, and there the value ends. */
  predicate OnlyMark(s: string, k: nat) {
    Mark(s, k + 1) && (k + 11 == |s| || EndsBare(s[k + 11]))
  }

  lemma MarkedHides(s: string, i: nat, e: nat, k: nat, v: nat)
    requires KeyValue(s, i, e, k, v)
    ensures KeyValueMatch(s, i).Some? && (KV.Marked(s, KeyValueMatch(s, i).value) <==> OnlyMark(s, k))
  {
    hide KeyTo, AnyCase, KeyValueMatch, RunEnd, P.Separator, MARK, T.OccursAt, Mark;
    KeyValueIsMatch(s, i, e, k, v);
    var cut := KeyValueMatch(s, i).value;
    MarkStands(s, cut.keep);
    MarkStands(s, k + 1);
    KeyIsSeparated(s, i, e, k, v);
    if Mark(s, k + 1) {
      MarkIsValue(s, i, k, v);
    }
    if Header(s, i, v) && Mark(s, v + 7) {
      assert !EndsToken(s[v + 7]);
    }
  }

  lemma MarkBytes(s: string, k: nat)
    requires Mark(s, k)
    ensures k + 10 <= |s| && forall x :: k <= x < k + 10 ==> !EndsBare(s[x]) && !EndsContent(s[x])
  {
    var mark := "[REDACTED]";
    assert mark[0] == '[' && mark[1] == 'R' && mark[2] == 'E' && mark[3] == 'D' && mark[4] == 'A' && mark[5] == 'C';
    assert mark[6] == 'T' && mark[7] == 'E' && mark[8] == 'D' && mark[9] == ']';
    forall x | k <= x < k + 10
      ensures s[x] == mark[x - k]
    {
      assert s[k..k + 10][x - k] == mark[x - k];
    }
  }

  lemma NoGap(s: string, from: nat, to: nat)
    requires Gaps(s, from, to) && from < |s| && !Gap(s[from])
    ensures to == from
  {
  }

  lemma BareRunReaches(s: string, v: nat, to: nat)
    requires BareRun(s, v, to) && v + 10 <= |s| && forall x :: v <= x < v + 10 ==> !EndsBare(s[x])
    ensures to >= v + 10 && (to == v + 10 <==> v + 10 == |s| || EndsBare(s[v + 10]))
  {
  }

  /** A mark right behind the separator is the start of a bare value. */
  lemma MarkIsValue(s: string, i: nat, k: nat, v: nat)
    requires Gaps(s, k + 1, v) && Mark(s, k + 1)
    ensures v == k + 1 && !Header(s, i, v) && !Quote(s[v])
    ensures forall to: nat :: BareRun(s, v, to) ==> (to == k + 11 <==> OnlyMark(s, k))
  {
    MarkBytes(s, k + 1);
    MarkStands(s, k + 1);
    NoGap(s, k + 1, v);
    Letter(s, v, "bearer ", 0);
    hide Mark;
    forall to: nat | BareRun(s, v, to)
      ensures to == k + 11 <==> OnlyMark(s, k)
    {
      BareRunReaches(s, k + 1, to);
    }
  }

  /** The pass leaves a text alone exactly when every key and value in it has only the mark to hide. */
  lemma KeyValuesLeftAlone(s: string)
    requires Valid(s)
    ensures KeyValuePass(s) == s <==> forall i, e, k, v :: KeyValue(s, i, e, k, v) ==> OnlyMark(s, k)
  {
    hide Valid, KeyValuePass, KeyValueMatch, KeyValue, KV.Marked, OnlyMark;
    KV.FixedExactly(s);
    if KV.AllMarked(s) {
      forall i, e, k, v | KeyValue(s, i, e, k, v)
        ensures OnlyMark(s, k)
      {
        MarkedHides(s, i, e, k, v);
        KeyInside(s, i, e, k, v);
      }
    }
    if forall i, e, k, v :: KeyValue(s, i, e, k, v) ==> OnlyMark(s, k) {
      forall i: nat | i < |s| && KeyValueMatch(s, i).Some?
        ensures KV.Marked(s, KeyValueMatch(s, i).value)
      {
        var e, k, v := MatchIsKeyValue(s, i);
        MarkedHides(s, i, e, k, v);
      }
    }
  }

  lemma KeyInside(s: string, i: nat, e: nat, k: nat, v: nat)
    requires KeyValue(s, i, e, k, v)
    ensures i < |s|
  {
    hide KeyTo, KeyAt, SECRET_KEYS;
    KeyIsSeparated(s, i, e, k, v);
  }

  // ---------- Assignments ----------

  /** A name of two bytes or more behind white space or a quote, blanks, `=` at `k`, and blanks up to `v`. */
  predicate NameBefore(s: string, i: nat, e: nat, k: nat, v: nat) {
    && i + 2 <= e <= |s| && (i == 0 || White(s[i - 1]) || Quote(s[i - 1]))
    && !('0' <= s[i] <= '9') && (forall x :: i <= x < e ==> NameByte(s[x]))
    && Gaps(s, e, k) && k < |s| && s[k] == '=' && Gaps(s, k + 1, v)
  }

  /** A quote and four bytes that are not that quote. */
  predicate QuotedContent(s: string, v: nat) {
    v + 5 <= |s| && Quote(s[v]) && forall x :: v < x < v + 5 ==> s[x] != s[v]
  }

  predicate BareContent(s: string, v: nat) {
    v + 4 <= |s| && !Quote(s[v]) && forall x :: v <= x < v + 4 ==> !EndsContent(s[x])
  }

  predicate Assignment(s: string, i: nat, e: nat, k: nat, v: nat) {
    NameBefore(s, i, e, k, v) && (QuotedContent(s, v) || BareContent(s, v))
  }

  predicate ContentRunTo(s: string, from: nat, to: nat) {
    from <= to <= |s| && (forall x :: from <= x < to ==> !EndsContent(s[x])) && (to < |s| ==> EndsContent(s[to]))
  }

  /** All behind the separator is hidden, to the end of the content. */
  predicate AssignmentHides(s: string, k: nat, v: nat, from: nat, to: nat) {
    from == k + 1 && (Quoted(s, v, to) || (v < |s| && !Quote(s[v]) && ContentRunTo(s, v, to)))
  }

  lemma NameIsAssigned(s: string, i: nat, e: nat, k: nat, v: nat)
    requires NameBefore(s, i, e, k, v)
    ensures i < k && E.Assign(s, i) == Some(k)
    ensures v < |s| && !Gap(s[v]) ==> RunEnd(s, k + 1, Blank) == v
  {
    hide RunEnd;
    assert NameByte(s[i]);
    NameEnds(s, i, e, k);
    GapsAreRun(s, e, k);
    if i > 0 {
      Classes(s[i - 1]);
    }
    if v < |s| && !Gap(s[v]) {
      GapsAreRun(s, k + 1, v);
    }
  }

  lemma NameEnds(s: string, i: nat, e: nat, k: nat)
    requires i <= e <= |s| && (forall x :: i <= x < e ==> NameByte(s[x])) && Gaps(s, e, k) && k < |s| && s[k] == '='
    ensures RunEnd(s, i, EnvName) == e
  {
    hide RunEnd;
    assert e < k ==> Gap(s[e]);
    RunIs(s, i, EnvName, e);
  }

  lemma AssignedIsName(s: string, i: nat, k: nat)
    requires E.Assign(s, i) == Some(k)
    ensures NameBefore(s, i, RunEnd(s, i, EnvName), k, RunEnd(s, k + 1, Blank))
  {
    hide RunEnd;
    var e := RunEnd(s, i, EnvName);
    RunIsGaps(s, e);
    RunIsGaps(s, k + 1);
    if i > 0 {
      Classes(s[i - 1]);
    }
  }

  lemma ContentIsLong(s: string, v: nat)
    requires v <= |s|
    ensures ContentEnd(s, v).1 - ContentEnd(s, v).0 >= 4 <==> QuotedContent(s, v) || BareContent(s, v)
    ensures v < |s| ==> Quoted(s, v, ContentEnd(s, v).2) || (!Quote(s[v]) && ContentRunTo(s, v, ContentEnd(s, v).2))
    ensures v < |s| ==> ContentEnd(s, v).0 == if Quote(s[v]) then v + 1 else v
  {
    hide RunEnd;
    if v < |s| {
      Classes(s[v]);
    }
    if v < |s| && Quote(s[v]) {
      var e := RunEnd(s, v + 1, Until(s[v]));
      if QuotedContent(s, v) {
        RunEndCovers(s, v + 1, Until(s[v]), v + 5);
      }
    } else {
      var e := RunEnd(s, v, EnvValue);
      if BareContent(s, v) {
        RunEndCovers(s, v, EnvValue, v + 4);
      }
    }
  }

  /** A match stands exactly where a name is assigned four bytes, and hides them. */
  lemma AssignmentIsMatch(s: string, i: nat, e: nat, k: nat, v: nat)
    requires Assignment(s, i, e, k, v)
    ensures i < k < |s| && EnvMatch(s, i).Some?
    ensures var cut := EnvMatch(s, i).value; cut.mark == MARK && AssignmentHides(s, k, v, cut.keep, cut.next)
  {
    hide RunEnd, EnvMatch, E.Assign, ContentEnd, MARK;
    NameIsAssigned(s, i, e, k, v);
    E.MatchParts(s, i);
    ContentIsLong(s, v);
  }

  lemma MatchIsAssignment(s: string, i: nat) returns (e: nat, k: nat, v: nat)
    requires EnvMatch(s, i).Some?
    ensures Assignment(s, i, e, k, v)
  {
    hide RunEnd, EnvMatch, E.Assign, ContentEnd, MARK, NameBefore;
    E.MatchParts(s, i);
    k := E.Assign(s, i).value;
    AssignedIsName(s, i, k);
    e, v := RunEnd(s, i, EnvName), RunEnd(s, k + 1, Blank);
    ContentIsLong(s, v);
  }

  /**
   * Completeness of the assignment pass: wherever its output has a name of two bytes or more at the start of a word,
   * blanks, `=`, blanks, and a quote with four bytes that are not that quote or four bytes of a bare content, the
   * content is the mark, or two name bytes, `=` and the mark.
   */
  lemma AssignmentsHidden(s: string, i: nat, e: nat, k: nat, v: nat)
    requires Valid(s) && Assignment(EnvPass(s), i, e, k, v)
    ensures var o := EnvPass(s);
            v < |o| && var c := if Quote(o[v]) then v + 1 else v;
            Mark(o, c) || (Mark(o, c + 3) && NameByte(o[c]) && NameByte(o[c + 1]) && o[c + 2] == '=')
  {
    hide Valid, EnvPass, EnvMatch, RunEnd, E.Assign, ContentEnd, Mark, MARK, T.OccursAt;
    var o := EnvPass(s);
    AssignmentIsMatch(o, i, e, k, v);
    NameIsAssigned(o, i, e, k, v);
    Env.RemainingAreHidden(s, i);
    ContentIsLong(o, v);
    var c := if Quote(o[v]) then v + 1 else v;
    MarkStands(o, c);
    MarkStands(o, c + 3);
  }

  predicate OnlyMarkContent(s: string, k: nat) {
    Mark(s, k + 1) && (k + 11 == |s| || EndsContent(s[k + 11]))
  }

  lemma MarkedAssignment(s: string, i: nat, e: nat, k: nat, v: nat)
    requires Assignment(s, i, e, k, v)
    ensures i < |s| && EnvMatch(s, i).Some? && (Env.Marked(s, EnvMatch(s, i).value) <==> OnlyMarkContent(s, k))
  {
    hide EnvMatch, RunEnd, E.Assign, MARK, T.OccursAt, Mark;
    AssignmentIsMatch(s, i, e, k, v);
    var cut := EnvMatch(s, i).value;
    MarkStands(s, k + 1);
    if Mark(s, k + 1) {
      NoGap(s, k + 1, v);
      MarkBytes(s, k + 1);
      ContentRunReaches(s, k + 1, cut.next);
    }
  }

  lemma ContentRunReaches(s: string, v: nat, to: nat)
    requires ContentRunTo(s, v, to) && v + 10 <= |s| && forall x :: v <= x < v + 10 ==> !EndsContent(s[x])
    ensures to >= v + 10 && (to == v + 10 <==> v + 10 == |s| || EndsContent(s[v + 10]))
  {
  }

  /** The pass leaves a text alone exactly when every assignment in it has only the mark to hide. */
  lemma AssignmentsLeftAlone(s: string)
    requires Valid(s)
    ensures EnvPass(s) == s <==> forall i, e, k, v :: Assignment(s, i, e, k, v) ==> OnlyMarkContent(s, k)
  {
    hide Valid, EnvPass, EnvMatch, Assignment, Env.Marked, OnlyMarkContent;
    Env.FixedExactly(s);
    if Env.AllMarked(s) {
      forall i, e, k, v | Assignment(s, i, e, k, v)
        ensures OnlyMarkContent(s, k)
      {
        MarkedAssignment(s, i, e, k, v);
      }
    }
    if forall i, e, k, v :: Assignment(s, i, e, k, v) ==> OnlyMarkContent(s, k) {
      forall i: nat | i < |s| && EnvMatch(s, i).Some?
        ensures Env.Marked(s, EnvMatch(s, i).value)
      {
        var e, k, v := MatchIsAssignment(s, i);
        MarkedAssignment(s, i, e, k, v);
      }
    }
  }
}
