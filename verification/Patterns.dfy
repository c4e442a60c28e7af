/** The four secret shapes the scanners look for, each as a match at one index of the text. */
module Patterns {
  import opened Wrappers
  import opened Utf8
  import opened Scanner

  // ---------- Character classes ----------

  datatype Class = Token | BearerValue | Blank | Bare | Until(quote: char) | EnvName | EnvValue | Entropic

  predicate IsAlphanumeric(c: char) {
    'a' <= c <= 'z' || 'A' <= c <= 'Z' || '0' <= c <= '9'
  }

  predicate IsTokenChar(c: char) {
    IsAlphanumeric(c) || c == '_' || c == '-'
  }

  /** `u8::is_ascii_whitespace`. */
  predicate IsSpace(c: char) {
    c == ' ' || c == '\t' || c == '\n' || c == '\r' || c as int == 0x0C
  }

  predicate In(k: Class, c: char) {
    match k
    case Token => IsTokenChar(c)
    case BearerValue =>
      !IsSpace(c) && c != '"' && c != '\'' && c != ',' && c != '{' && c != '}' && c != '[' && c != ']'
    case Blank => c == ' ' || c == '\t'
    case Bare => c != ' ' && c != '\t' && c != '"' && c != '\'' && c != ',' && c != '}'
    case Until(quote) => c != quote
    case EnvName => 'A' <= c <= 'Z' || '0' <= c <= '9' || c == '_'
    case EnvValue => !IsSpace(c) && c != ',' && c != '}'
    case Entropic => IsTokenChar(c) || c == '+' || c == '/' || c == '='
  }

  /** The end of the run of `k` that starts at `j`. */
  function RunEnd(s: string, j: nat, k: Class): (e: nat)
    requires j <= |s|
    ensures j <= e <= |s|
    ensures forall x :: j <= x < e ==> In(k, s[x])
    ensures e < |s| ==> !In(k, s[e])
    decreases |s| - j
  {
    if j < |s| && In(k, s[j]) then RunEnd(s, j + 1, k) else j
  }

  method SkipRun(s: string, j: nat, k: Class) returns (e: nat)
    requires j <= |s|
    ensures e == RunEnd(s, j, k)
  {
    e := j;
    while e < |s| && In(k, s[e])
      invariant j <= e <= |s| && RunEnd(s, e, k) == RunEnd(s, j, k)
    {
      e := e + 1;
    }
  }

  lemma {:induction false} RunEndCovers(s: string, j: nat, k: Class, e: nat)
    requires j <= e <= |s| && forall x :: j <= x < e ==> In(k, s[x])
    ensures RunEnd(s, j, k) >= e
    decreases e - j
  {
    if j < e {
      RunEndCovers(s, j + 1, k, e);
    }
  }

  /** `to_ascii_lowercase` of one byte. */
  function Lower(c: char): char {
    if 'A' <= c <= 'Z' then (c as int + 32) as char else c
  }

  /** `lower[i..].starts_with(word)`. */
  predicate LowerStarts(s: string, i: nat, word: string) {
    i + |word| <= |s| && forall k :: 0 <= k < |word| ==> Lower(s[i + k]) == word[k]
  }

  predicate Starts(s: string, i: nat, word: string) {
    i + |word| <= |s| && s[i..i + |word|] == word
  }

  // ---------- The same questions asked of a slice ----------

  /** `str::starts_with`. */
  predicate HasPrefix(s: string, word: string) {
    |word| <= |s| && s[..|word|] == word
  }

  /** `s[i..].starts_with(word)`: the slice has to be at a boundary. */
  predicate SliceStarts(s: string, i: nat, word: string): (r: bool)
    requires Boundary(s, i)
    ensures r == Starts(s, i, word)
  {
    var tail := Slice(s, i, |s|);
    assert |word| <= |tail| ==> tail[..|word|] == s[i..i + |word|];
    HasPrefix(tail, word)
  }

  /** `to_ascii_lowercase` of a text. */
  function Lowered(s: string): (t: string)
    ensures |t| == |s| && forall k :: 0 <= k < |s| ==> t[k] == Lower(s[k])
  {
    seq(|s|, k requires 0 <= k < |s| => Lower(s[k]))
  }

  /** `lower[i..].starts_with(word)`, where `lower` is the text in lower case. */
  predicate LowerSliceStarts(s: string, i: nat, word: string): (r: bool)
    requires Boundary(s, i)
    ensures r == LowerStarts(s, i, word)
  {
    LoweredBoundary(s, i);
    LoweredStarts(s, i, word);
    SliceStarts(Lowered(s), i, word)
  }

  lemma LoweredBoundary(s: string, i: nat)
    requires Boundary(s, i)
    ensures Boundary(Lowered(s), i)
  {
  }

  lemma LoweredStarts(s: string, i: nat, word: string)
    ensures Starts(Lowered(s), i, word) <==> LowerStarts(s, i, word)
  {
    var lower := Lowered(s);
    if i + |word| <= |s| {
      assert forall k :: 0 <= k < |word| ==> (lower[i..i + |word|][k] == word[k] <==> Lower(s[i + k]) == word[k]);
      if LowerStarts(s, i, word) {
        assert lower[i..i + |word|] == word;
      }
    }
  }

  // ---------- Prefixed tokens ----------

  function RunMatch(prefix: string, minRun: nat, s: string, i: nat): Option<Cut> {
    if Starts(s, i, prefix) then
      var from := i + |prefix|;
      var j := RunEnd(s, from, Token);
      if j - from >= minRun then Some(Cut(from, j, MARK)) else None
    else None
  }

  function RunMatcher(prefix: string, minRun: nat): Matcher {
    (s: string, i: nat) => RunMatch(prefix, minRun, s, i)
  }

  // ---------- Bearer tokens ----------

  const BEARER: string := "bearer "

  function BearerMatch(s: string, i: nat): Option<Cut> {
    if LowerStarts(s, i, BEARER) then
      var from := i + |BEARER|;
      var end := RunEnd(s, from, BearerValue);
      if end - from >= 8 then Some(Cut(from, end, MARK)) else None
    else None
  }

  const BearerMatcher: Matcher := (s: string, i: nat) => BearerMatch(s, i)

  // ---------- Secret keys ----------

  const AUTHORIZATION: string := "authorization"
  const SECRET_KEYS: seq<string> :=
    ["password", "passwd", "secret", "token", "api_key", "apikey", AUTHORIZATION]

  /** The first listed key that stands at `i`, in any letter case. */
  function KeyAt(s: string, i: nat, keys: seq<string>): (r: Option<string>)
    ensures r.Some? ==> r.value in keys && LowerStarts(s, i, r.value)
  {
    if keys == [] then None
    else if LowerStarts(s, i, keys[0]) then Some(keys[0])
    else KeyAt(s, i, keys[1..])
  }

  /** The search through the listed keys, as the program runs it on a slice. */
  function KeyInSlice(s: string, i: nat, keys: seq<string>): (r: Option<string>)
    requires Boundary(s, i)
    ensures r == KeyAt(s, i, keys)
  {
    if keys == [] then None
    else if LowerSliceStarts(s, i, keys[0]) then Some(keys[0])
    else KeyInSlice(s, i, keys[1..])
  }

  predicate IsQuote(c: char) {
    c == '"' || c == '\''
  }

  /** The value that starts at `v`: where it ends, and where the scanner goes on. */
  function ValueEnd(s: string, v: nat): (r: (nat, nat))
    requires v <= |s|
    ensures v <= r.0 <= r.1 <= |s|
  {
    if v < |s| && IsQuote(s[v]) then
      var e := RunEnd(s, v + 1, Until(s[v]));
      (e, if e + 1 < |s| then e + 1 else |s|)
    else
      var e := RunEnd(s, v, Bare);
      (e, e)
  }

  function KeyValueMatch(s: string, i: nat): Option<Cut> {
    if i > |s| || (i > 0 && IsTokenChar(s[i - 1])) then None
    else
      var key := KeyAt(s, i, SECRET_KEYS);
      if key.None? then None
      else
        var k := RunEnd(s, i + |key.value|, Blank);
        if k == |s| || (s[k] != '=' && s[k] != ':') then None
        else
          var v := RunEnd(s, k + 1, Blank);
          var bearer := if key.value == AUTHORIZATION then BearerMatch(s, v) else None;
          if bearer.Some? then bearer
          else if ValueEnd(s, v).0 - v >= 4 then Some(Cut(k + 1, ValueEnd(s, v).1, MARK))
          else None
  }

  const KeyValueMatcher: Matcher := (s: string, i: nat) => KeyValueMatch(s, i)

  // ---------- Environment assignments ----------

  /** The content that starts at `v`: its first byte, its end, and where the scanner goes on. */
  function ContentEnd(s: string, v: nat): (r: (nat, nat, nat))
    requires v <= |s|
    ensures v <= r.0 <= r.1 <= r.2 <= |s|
  {
    if v < |s| && IsQuote(s[v]) then
      var end := RunEnd(s, v + 1, Until(s[v]));
      (v + 1, end, if end < |s| then end + 1 else end)
    else
      var end := RunEnd(s, v, EnvValue);
      (v, end, end)
  }

  predicate EnvStart(s: string, i: nat) {
    && i < |s|
    && (i == 0 || IsSpace(s[i - 1]) || IsQuote(s[i - 1]))
    && ('A' <= s[i] <= 'Z' || s[i] == '_')
  }

  function EnvMatch(s: string, i: nat): Option<Cut> {
    if !EnvStart(s, i) then None
    else
      var keyEnd := RunEnd(s, i, EnvName);
      var separator := RunEnd(s, keyEnd, Blank);
      if keyEnd - i < 2 || separator == |s| || s[separator] != '=' then None
      else
        var v := RunEnd(s, separator + 1, Blank);
        var content := ContentEnd(s, v);
        if content.1 - content.0 >= 4 then Some(Cut(separator + 1, content.2, MARK)) else None
  }

  const EnvMatcher: Matcher := (s: string, i: nat) => EnvMatch(s, i)

  // ---------- Every match cuts at character boundaries ----------

  predicate AsciiText(w: string) {
    w != [] && forall k :: 0 <= k < |w| ==> IsAscii(w[k])
  }

  /** The end of a run is a boundary when the run is ASCII, or when it is stopped by an ASCII byte. */
  lemma RunEndBoundary(s: string, j: nat, k: Class)
    requires Valid(s) && j <= |s|
    requires k.Token? || k.Blank? || k.EnvName? || k.Entropic?
    requires j > 0 && IsAscii(s[j - 1])
    ensures Boundary(s, RunEnd(s, j, k))
  {
    hide Valid;
    var e := RunEnd(s, j, k);
    if e > j {
      assert In(k, s[e - 1]);
    }
    AfterAscii(s, e);
  }

  lemma StoppedBoundary(s: string, j: nat, k: Class)
    requires j <= |s| && (k.BearerValue? || k.Bare? || k.EnvValue? || (k.Until? && IsAscii(k.quote)))
    ensures Boundary(s, RunEnd(s, j, k))
    ensures RunEnd(s, j, k) < |s| ==> IsAscii(s[RunEnd(s, j, k)])
  {
  }

  lemma LowerStartsEndsAscii(s: string, i: nat, word: string)
    requires Valid(s) && LowerStarts(s, i, word) && AsciiText(word)
    ensures IsAscii(s[i + |word| - 1]) && Boundary(s, i + |word|)
  {
    hide Valid;
    assert Lower(s[i + (|word| - 1)]) == word[|word| - 1];
    AfterAscii(s, i + |word|);
  }

  lemma RunFits(prefix: string, minRun: nat, s: string)
    requires Valid(s) && AsciiText(prefix)
    ensures Fits(RunMatcher(prefix, minRun), s)
  {
    hide Valid, RunEnd;
    forall i: nat | i < |s| && Starts(s, i, prefix)
      ensures Boundary(s, i + |prefix|) && Boundary(s, RunEnd(s, i + |prefix|, Token))
    {
      var from := i + |prefix|;
      assert s[from - 1] == s[i..from][|prefix| - 1];
      AfterAscii(s, from);
      RunEndBoundary(s, from, Token);
    }
  }

  lemma {:induction false} BearerCuts(s: string, i: nat)
    requires Valid(s) && BearerMatch(s, i).Some?
    ensures var cut := BearerMatch(s, i).value;
            i < cut.keep <= cut.next <= |s| && Boundary(s, cut.keep) && Boundary(s, cut.next) && cut.mark == MARK
  {
    hide Valid;
    LowerStartsEndsAscii(s, i, BEARER);
    StoppedBoundary(s, i + |BEARER|, BearerValue);
  }

  lemma BearerFits(s: string)
    requires Valid(s)
    ensures Fits(BearerMatcher, s)
  {
    hide Valid, BearerMatch, Boundary;
    forall i: nat | BearerMatch(s, i).Some?
      ensures var cut := BearerMatch(s, i).value;
              i < cut.keep <= cut.next <= |s| && Boundary(s, cut.keep) && Boundary(s, cut.next) && cut.mark == MARK
    {
      BearerCuts(s, i);
    }
  }

  lemma KeysAscii(key: string)
    requires key in SECRET_KEYS
    ensures AsciiText(key)
  {
  }

  lemma ValueEndBoundary(s: string, v: nat)
    requires Valid(s) && v <= |s|
    ensures Boundary(s, ValueEnd(s, v).1)
  {
    hide Valid, RunEnd;
    if v < |s| && IsQuote(s[v]) {
      StoppedBoundary(s, v + 1, Until(s[v]));
      var e := RunEnd(s, v + 1, Until(s[v]));
      if e < |s| {
        AfterAscii(s, e + 1);
      }
    } else {
      StoppedBoundary(s, v, Bare);
    }
  }

  lemma {:induction false} KeyValueCuts(s: string, i: nat)
    requires Valid(s) && KeyValueMatch(s, i).Some?
    ensures var cut := KeyValueMatch(s, i).value;
            i < cut.keep <= cut.next <= |s| && Boundary(s, cut.keep) && Boundary(s, cut.next) && cut.mark == MARK
  {
    hide Valid, RunEnd, ValueEnd, BearerMatch, KeyAt, Boundary, LowerStarts, IsTokenChar, SECRET_KEYS;
    var key := KeyAt(s, i, SECRET_KEYS).value;
    KeysAscii(key);
    var k := RunEnd(s, i + |key|, Blank);
    var v := RunEnd(s, k + 1, Blank);
    AfterAscii(s, k + 1);
    if key == AUTHORIZATION && BearerMatch(s, v).Some? {
      BearerCuts(s, v);
    } else {
      ValueEndBoundary(s, v);
    }
  }

  lemma KeyValueFits(s: string)
    requires Valid(s)
    ensures Fits(KeyValueMatcher, s)
  {
    hide Valid, KeyValueMatch, Boundary;
    forall i: nat | KeyValueMatch(s, i).Some?
      ensures var cut := KeyValueMatch(s, i).value;
              i < cut.keep <= cut.next <= |s| && Boundary(s, cut.keep) && Boundary(s, cut.next) && cut.mark == MARK
    {
      KeyValueCuts(s, i);
    }
  }

  lemma {:induction false} EnvCuts(s: string, i: nat)
    requires Valid(s) && EnvMatch(s, i).Some?
    ensures var cut := EnvMatch(s, i).value;
            i < cut.keep <= cut.next <= |s| && Boundary(s, cut.keep) && Boundary(s, cut.next) && cut.mark == MARK
  {
    hide Valid, RunEnd, EnvStart, Boundary;
    var keyEnd := RunEnd(s, i, EnvName);
    var separator := RunEnd(s, keyEnd, Blank);
    AfterAscii(s, separator + 1);
    var v := RunEnd(s, separator + 1, Blank);
    if v < |s| && IsQuote(s[v]) {
      StoppedBoundary(s, v + 1, Until(s[v]));
      var end := RunEnd(s, v + 1, Until(s[v]));
      if end < |s| {
        AfterAscii(s, end + 1);
      }
    } else {
      StoppedBoundary(s, v, EnvValue);
    }
  }

  lemma EnvFits(s: string)
    requires Valid(s)
    ensures Fits(EnvMatcher, s)
  {
    hide Valid, EnvMatch, Boundary;
    forall i: nat | EnvMatch(s, i).Some?
      ensures var cut := EnvMatch(s, i).value;
              i < cut.keep <= cut.next <= |s| && Boundary(s, cut.keep) && Boundary(s, cut.next) && cut.mark == MARK
    {
      EnvCuts(s, i);
    }
  }
}
