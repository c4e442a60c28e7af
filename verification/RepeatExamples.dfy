/** Lines on which a rewriter of `sanitize_line`, or all of it, hides more the second time. */
module RepeatExamples {
  import opened Wrappers
  import opened Utf8
  import opened Scanner
  import opened Patterns
  import opened Sanitizer
  import opened PrefixedTokens
  import opened HighEntropy
  import opened SanitizeLine
  import opened Pem
  import Env = EnvTwice
  import PT = PemTwice
  import opened ScanOutput
  import opened KeyValueParts
  import opened KeyValueTwice
  import T = Text

  const QUOTED: string := "token=\"abcd\"x"
  const ONCE: string := "token=[REDACTED]x"
  const TWICE: string := "token=[REDACTED]"

  lemma RunEndIs(s: string, j: nat, k: Class, e: nat)
    requires j <= e <= |s| && (forall x :: j <= x < e ==> In(k, s[x])) && (e < |s| ==> !In(k, s[e]))
    ensures RunEnd(s, j, k) == e
  {
    RunEndCovers(s, j, k, e);
  }

  lemma {:induction false} KeyAtIndex(s: string, i: nat, keys: seq<string>, n: nat)
    requires n < |keys| && LowerStarts(s, i, keys[n]) && forall m :: 0 <= m < n ==> !LowerStarts(s, i, keys[m])
    ensures KeyAt(s, i, keys) == Some(keys[n])
    decreases n
  {
    hide LowerStarts;
    if n > 0 {
      assert forall m :: 0 <= m < n - 1 ==> keys[1..][m] == keys[m + 1];
      KeyAtIndex(s, i, keys[1..], n - 1);
    }
  }

  lemma ListedKeys()
    ensures |SECRET_KEYS| == 7 && SECRET_KEYS[3] == "token"
    ensures forall m :: 0 <= m < 3 ==> SECRET_KEYS[m] != "" && SECRET_KEYS[m][0] != 't'
    ensures forall m :: 0 <= m < 7 ==> SECRET_KEYS[m] != "" && SECRET_KEYS[m][0] != 'x'
  {
  }

  /** `token` is the first key that stands at the start of such a text. */
  lemma TokenKey(s: string)
    requires |s| >= 6 && s[..6] == "token="
    ensures KeyAt(s, 0, SECRET_KEYS) == Some("token")
  {
    hide KeyAt, SECRET_KEYS;
    ListedKeys();
    assert forall k :: 0 <= k < 5 ==> s[0 + k] == s[..6][k] == "token"[k];
    KeyAtIndex(s, 0, SECRET_KEYS, 3);
  }

  /** A value of four bytes or more after `token=` is a match. */
  lemma TokenMatch(s: string, valueEnd: nat, next: nat)
    requires |s| > 6 && s[..6] == "token=" && !In(Blank, s[6])
    requires ValueEnd(s, 6) == (valueEnd, next) && valueEnd >= 10
    ensures KeyValueMatch(s, 0) == Some(Cut(6, next, MARK))
  {
    hide KeyAt, RunEnd, ValueEnd;
    TokenKey(s);
    assert s[5] == s[..6][5];
    RunEndIs(s, 5, Blank, 5);
    RunEndIs(s, 6, Blank, 6);
  }

  lemma NoKeyAtX(s: string, i: nat)
    requires i < |s| && s[i] == 'x'
    ensures KeyValueMatch(s, i).None?
  {
    hide RunEnd, ValueEnd, SECRET_KEYS, KeyAt;
    ListedKeys();
    NoKey(s, i, SECRET_KEYS);
  }

  lemma {:induction false} NoKey(s: string, i: nat, keys: seq<string>)
    requires i < |s| && forall k :: 0 <= k < |keys| ==> keys[k] != "" && keys[k][0] != Lower(s[i])
    ensures KeyAt(s, i, keys).None?
  {
    if keys != [] {
      assert !LowerStarts(s, i, keys[0]);
      NoKey(s, i, keys[1..]);
    }
  }

  lemma AsciiTexts()
    ensures Valid(QUOTED) && Valid(ONCE) && Valid(TWICE)
  {
    hide Valid;
    AsciiValid(QUOTED);
    AsciiValid(ONCE);
    AsciiValid(TWICE);
  }

  lemma CutAll(s: string, next: nat)
    requires Valid(s) && KeyValueMatch(s, 0) == Some(Cut(6, next, MARK)) && |s| > 6
    requires next == |s| || (next + 1 == |s| && s[next] == 'x')
    ensures KeyValuePass(s) == s[..6] + MARK + s[next..]
  {
    hide KeyValueMatch, Valid, Rest, KeyValuePass, MARK, Suits, Aligned;
    RestOfAll(s);
    Matches(s, 0);
    Keeps(s, 0);
    RestCuts(KeyValueMatcher, s, 0);
    RestAtEnd(KeyValueMatcher, s);
    if next < |s| {
      Matches(s, next);
      NoKeyAtX(s, next);
      RestCopiesRun(KeyValueMatcher, s, next, |s|);
      assert s[next..|s|] + [] == s[next..];
    }
    assert s[0..6] + (MARK + Rest(KeyValueMatcher, s, next)) == s[..6] + MARK + Rest(KeyValueMatcher, s, next);
  }

  /** A quoted value with text after it: the first pass stops at the quote, the second takes the text as well. */
  lemma KeyValuePassNotIdempotent()
    ensures Valid(QUOTED) && Valid(ONCE)
    ensures KeyValuePass(QUOTED) == ONCE && KeyValuePass(ONCE) == TWICE && TWICE != ONCE
  {
    hide KeyValueMatch, Valid, RunEnd, KeyValuePass;
    AsciiTexts();
    RunEndIs(QUOTED, 7, Until('"'), 11);
    TokenMatch(QUOTED, 11, 12);
    CutAll(QUOTED, 12);
    RunEndIs(ONCE, 6, Bare, 17);
    TokenMatch(ONCE, 17, 17);
    CutAll(ONCE, 17);
  }

  // ---------- The other rewriters leave it alone ----------

  /** Too short for a prefixed token, without blank or quote, and not starting with a name. */
  predicate Quiet(s: string) {
    0 < |s| < 20 && !('A' <= s[0] <= 'Z') && s[0] != '_' && forall x :: 0 <= x < |s| ==> !IsSpace(s[x]) && !IsQuote(s[x])
  }

  lemma PemNeedsDashes(s: string)
    requires Valid(s) && '-' !in s
    ensures RedactPem(s) == s
  {
    hide Valid;
    var begin := T.Find(s, PEM_BEGIN);
    if begin.Some? {
      FirstByte(s, PEM_BEGIN, begin.value);
    }
  }

  lemma FirstByte(s: string, w: string, k: nat)
    requires T.OccursAt(s, w, k) && w != []
    ensures k < |s| && s[k] == w[0] && s[k] in s
  {
    assert s[k..k + |w|][0] == s[k];
  }

  lemma ShortHasNoToken(s: string)
    requires Valid(s) && |s| < 20
    ensures PrefixedPass(s) == s
  {
    hide Valid, PASSES, Exposed, PrefixedPass;
    ListedPassesUsable();
    forall i | 0 <= i < |PASSES|
      ensures !Exposed(s, PASSES[i])
    {
      TooShort(s, PASSES[i]);
    }
    PrefixedPassIsComplete(s);
  }

  lemma TooShort(s: string, p: Pass)
    requires |s| < 20 && Usable(p)
    ensures !Exposed(s, p)
  {
  }

  lemma QuietHasNoBearer(s: string)
    requires Valid(s) && Quiet(s)
    ensures BearerPass(s) == s
  {
    hide Valid, BearerPass;
    forall k: nat | k < |s|
      ensures !BearerAt(s, k)
    {
      if LowerStarts(s, k, BEARER) {
        BearerSpace(s, k);
      }
    }
    BearerPassIsComplete(s);
  }

  lemma QuietHasNoAssignment(s: string)
    requires Valid(s) && Quiet(s)
    ensures EnvPass(s) == s
  {
    hide Valid, RunEnd, ContentEnd;
    EnvFits(s);
    StartScan(EnvMatcher, s);
    assert forall i: nat :: i < |s| ==> !EnvStart(s, i);
    RewriteNothing(EnvMatcher, s, 0);
    assert s[0..] == s;
  }

  lemma ShortHasNoSecret(s: string)
    requires Valid(s) && |s| < 20
    ensures HighEntropyPass(s) == s
  {
    hide Valid, HighEntropyPass, Whitelisted;
    forall a: nat, e: nat
      ensures !SecretRun(s, a, e)
    {
    }
    RewritingIsIdempotent(s);
  }

  lemma QuietSanitized(s: string)
    requires Valid(s) && |s| < 20 && '-' !in s && Quiet(KeyValuePass(s))
    ensures Sanitized(s) == KeyValuePass(s)
  {
    hide Valid, KeyValuePass, Quiet, RedactPem, PrefixedPass, BearerPass, EnvPass, HighEntropyPass;
    PemNeedsDashes(s);
    ShortHasNoToken(s);
    var o := KeyValuePass(s);
    QuietHasNoBearer(o);
    QuietHasNoAssignment(o);
    QuietIsShort(o);
    ShortHasNoSecret(o);
  }

  lemma QuietIsShort(s: string)
    requires Quiet(s)
    ensures |s| < 20
  {
  }

  lemma ExamplesQuiet()
    ensures Quiet(ONCE) && Quiet(TWICE) && |QUOTED| < 20 && '-' !in QUOTED && '-' !in ONCE
  {
  }

  /** The same line shows that `sanitize_line` as a whole is not idempotent. */
  lemma SanitizedNotIdempotent()
    ensures Valid(QUOTED) && Valid(ONCE)
    ensures Sanitized(QUOTED) == ONCE && Sanitized(ONCE) == TWICE && TWICE != ONCE
  {
    hide Valid, KeyValuePass, Quiet, Sanitized;
    KeyValuePassNotIdempotent();
    ExamplesQuiet();
    QuietIsShort(ONCE);
    hide QUOTED, ONCE, TWICE;
    QuietSanitized(QUOTED);
    QuietSanitized(ONCE);
  }

  // ---------- Assignments ----------

  const ASSIGNED: string := "AB=\"wxyz\"x"

  lemma AssignedMatch()
    ensures Valid(ASSIGNED) && Boundary(ASSIGNED, 0) && EnvMatch(ASSIGNED, 0) == Some(Cut(3, 9, MARK))
  {
    hide Valid, MARK;
    AsciiValid(ASSIGNED);
    RunEndIs(ASSIGNED, 0, EnvName, 2);
    RunEndIs(ASSIGNED, 2, Blank, 2);
    RunEndIs(ASSIGNED, 3, Blank, 3);
    RunEndIs(ASSIGNED, 4, Until('"'), 8);
    hide RunEnd;
  }

  /** A quoted value with text after it: the second assignment pass takes the text as well. */
  lemma EnvPassNotIdempotent()
    ensures Valid(ASSIGNED) && EnvPass(EnvPass(ASSIGNED)) != EnvPass(ASSIGNED)
  {
    hide Valid, EnvMatch, EnvPass;
    AssignedMatch();
    Env.SecondPassExactly(ASSIGNED);
  }

  // ---------- PEM blocks ----------

  const STRAY_END: string := "-----BEGIN\n-----END-----" + "-----END"

  lemma StrayEndParts()
    ensures |STRAY_END| == 32 && AsciiText(STRAY_END)
    ensures STRAY_END[0..10] == PEM_BEGIN && STRAY_END[11..19] == PEM_END && STRAY_END[19..24] == DASHES
    ensures STRAY_END[24..32] == PEM_END
    ensures STRAY_END[5] == 'B' && STRAY_END[10] == '\n' && forall k :: 0 <= k < 10 ==> STRAY_END[k] != '\n'
    ensures forall k :: 24 <= k < 32 ==> STRAY_END[k] != 'B'
    ensures forall k :: 11 <= k < 16 ==> STRAY_END[k] == '-'
  {
  }

  lemma MarkersOfStray()
    ensures T.OccursAt(STRAY_END, PEM_BEGIN, 0) && T.OccursAt(STRAY_END, PEM_END, 11) && T.OccursAt(STRAY_END, DASHES, 19)
    ensures T.OccursAt(STRAY_END, PEM_END, 24)
    ensures |PEM_BEGIN| == 10 && |PEM_END| == 8 && |DASHES| == 5
  {
    StrayEndParts();
    PemLengths();
    hide STRAY_END, PEM_BEGIN, PEM_END, DASHES;
  }

  lemma PemLengths()
    ensures |PEM_BEGIN| == 10 && |PEM_END| == 8 && |DASHES| == 5 && PEM_BEGIN[5] == 'B'
    ensures 'B' !in PEM_END && '\n' !in PEM_END
  {
  }

  /** No end marker starts before the second line. */
  lemma NoEarlyEnd(k: nat)
    requires T.OccursAt(STRAY_END, PEM_END, k)
    ensures k >= 11
  {
    StrayEndParts();
    PemLengths();
    hide STRAY_END, PEM_END;
    Avoids(STRAY_END, PEM_END, k, 5);
    Avoids(STRAY_END, PEM_END, k, 10);
  }

  lemma NoLateBegin(k: nat)
    requires T.OccursAt(STRAY_END, PEM_BEGIN, k)
    ensures k < 24
  {
    StrayEndParts();
    PemLengths();
    hide STRAY_END, PEM_BEGIN;
    assert STRAY_END[k..k + 10][5] == STRAY_END[k + 5];
  }

  lemma StrayBlock(b: PT.Block)
    requires IsBody(STRAY_END, 0, b.begin, b.body)
    ensures b == PT.Block(0, Span(11, 24))
  {
    StrayEndParts();
    MarkersOfStray();
    hide STRAY_END, PEM_BEGIN, PEM_END, DASHES, T.OccursAt;
    var e: nat :| FirstFrom(STRAY_END, b.begin, PEM_END, e) && ClosesAt(STRAY_END, e + |PEM_END|, b.body.to);
    NoEarlyEnd(e);
    assert e == 11;
    assert b.body.to == 24;
  }

  /** An end marker behind a block: the second PEM pass takes all that follows the kept header up to it. */
  lemma PemNotIdempotent()
    ensures Valid(STRAY_END) && Valid(RedactPem(STRAY_END))
    ensures RedactPem(RedactPem(STRAY_END)) != RedactPem(STRAY_END)
  {
    hide Valid, RedactPem, STRAY_END, PEM_BEGIN, PEM_END, T.OccursAt, PT.NextBlock, IsBody;
    StrayEndParts();
    MarkersOfStray();
    AsciiValid(STRAY_END);
    PT.SecondPassExactly(STRAY_END);
    PT.NextBlockIs(STRAY_END, 0);
    assert PT.NextBlock(STRAY_END, 0).Some?;
    StrayBlock(PT.NextBlock(STRAY_END, 0).value);
    PT.NextBlockIs(STRAY_END, 24);
    if PT.NextBlock(STRAY_END, 24).Some? {
      NoLateBody(PT.NextBlock(STRAY_END, 24).value.begin, PT.NextBlock(STRAY_END, 24).value.body);
    }
    HeaderHasNoEnd();
    PT.EndFound(STRAY_END, 24, 32, 24);
  }

  lemma NoLateBody(begin: nat, body: Span)
    ensures !IsBody(STRAY_END, 24, begin, body)
  {
    hide STRAY_END, PEM_BEGIN, EndsAt, BodyFrom, T.OccursAt;
    if IsBody(STRAY_END, 24, begin, body) {
      NoLateBegin(begin);
    }
  }

  lemma HeaderHasNoEnd()
    ensures !PT.EndIn(STRAY_END, 0, 11)
  {
    hide STRAY_END, PEM_END, T.OccursAt;
    if PT.EndIn(STRAY_END, 0, 11) {
      var x: nat :| 0 <= x && x + |PEM_END| <= 11 && T.OccursAt(STRAY_END, PEM_END, x);
      NoEarlyEnd(x);
      EndIsNotEmpty();
    }
  }

  lemma EndIsNotEmpty()
    ensures |PEM_END| == 8
  {
  }
}
