/** The line scanners as the program runs them, each proved against its pattern. */
module Sanitizer {
  import opened Wrappers
  import opened Utf8
  import opened Scanner
  import opened Patterns

  // ---------- The loops ----------

  /** The method side of `Rewrite`: what is written so far, plus what is still to come, is the whole output. */
  ghost predicate Scanned(m: Matcher, s: string, i: nat, out: string)
    requires Valid(s) && Fits(m, s)
  {
    Boundary(s, i) && out + Rewrite(m, s, i) == Rewrite(m, s, 0)
  }

  lemma CutFits(m: Matcher, s: string, i: nat)
    requires Valid(s) && Fits(m, s) && i < |s| && Boundary(s, i) && m(s, i).Some?
    ensures var cut := m(s, i).value;
            && i <= cut.keep <= cut.next <= |s| && i < cut.next && Boundary(s, cut.keep) && Boundary(s, cut.next)
            && Next(m, s, i) == cut.next
  {
  }

  lemma ScannedCut(m: Matcher, s: string, i: nat, out: string)
    requires Valid(s) && Fits(m, s) && i < |s| && Scanned(m, s, i, out) && m(s, i).Some?
    ensures Boundary(s, i)
    ensures var cut := m(s, i).value;
            && i <= cut.keep <= cut.next <= |s| && i < cut.next && Boundary(s, i) && Boundary(s, cut.keep)
            && Scanned(m, s, cut.next, out + s[i..cut.keep] + cut.mark)
  {
    hide Valid, Rewrite, Fits, Next, Boundary;
    ScannedAt(m, s, i, out);
    CutFits(m, s, i);
    var head, mark, rest := MatchSplit(m, s, i);
    Regroup(out, head, mark, rest);
  }

  lemma Regroup(out: string, head: string, mark: string, rest: string)
    ensures out + (head + (mark + rest)) == out + head + mark + rest
  {
  }

  lemma ScannedCopy(m: Matcher, s: string, i: nat, out: string)
    requires Valid(s) && Fits(m, s) && i < |s| && Scanned(m, s, i, out) && m(s, i).None?
    ensures var n := i + Step(s[i..]);
            && n <= |s| && Boundary(s, i) && Boundary(s, n) && Boundary(s, |s|) && Scanned(m, s, n, out + s[i..n])
  {
    hide Valid;
    StepFrom(s, i);
    CopySplit(m, s, i);
    var n := Next(m, s, i);
    assert out + (s[i..n] + Rewrite(m, s, n)) == out + s[i..n] + Rewrite(m, s, n);
  }

  lemma ScannedAt(m: Matcher, s: string, i: nat, out: string)
    requires Valid(s) && Fits(m, s) && Scanned(m, s, i, out)
    ensures Boundary(s, i)
  {
  }

  lemma ScannedAll(m: Matcher, s: string, out: string)
    requires Valid(s) && Fits(m, s) && Scanned(m, s, |s|, out)
    ensures out == Rewrite(m, s, 0)
  {
    assert out + [] == out;
  }

  method RedactRun(s: string, prefix: string, minRun: nat) returns (out: string)
    requires Valid(s) && AsciiText(prefix)
    ensures out == RunPass(s, prefix, minRun) && Valid(out)
  {
    hide Valid, Scanned, Fits, Rewrite, RunEnd, Step, Boundary, Slice, ContentEnd, LowerStarts;
    ghost var m := RunMatcher(prefix, minRun);
    RunFits(prefix, minRun, s);
    var i := 0;
    out := [];
    StartScan(m, s);
    while i < |s|
      invariant i <= |s| && Scanned(m, s, i, out)
    {
      ScannedAt(m, s, i, out);
      if SliceStarts(s, i, prefix) {
        var j := SkipRun(s, i + |prefix|, Token);
        if j - (i + |prefix|) >= minRun {
          ScannedCut(m, s, i, out);
          out := out + Slice(s, i, i + |prefix|) + MARK;
          i := j;
          continue;
        }
      }
      ScannedCopy(m, s, i, out);
      var step := Step(Slice(s, i, |s|));
      out := out + Slice(s, i, i + step);
      i := i + step;
    }
    ScannedAll(m, s, out);
  }

  lemma StartScan(m: Matcher, s: string)
    requires Valid(s) && Fits(m, s)
    ensures Scanned(m, s, 0, [])
  {
    hide Rewrite;
    if s != [] {
      StepIsCharLen(s);
    }
    assert [] + Rewrite(m, s, 0) == Rewrite(m, s, 0);
  }

  /** One pass, as a function of the text. */
  ghost function RunPass(s: string, prefix: string, minRun: nat): (out: string)
    requires Valid(s) && AsciiText(prefix)
    ensures Valid(out)
  {
    RunFits(prefix, minRun, s);
    StartScan(RunMatcher(prefix, minRun), s);
    RewriteValid(RunMatcher(prefix, minRun), s, 0);
    Rewrite(RunMatcher(prefix, minRun), s, 0)
  }

  method RedactBearerTokens(s: string) returns (out: string)
    requires Valid(s)
    ensures out == BearerPass(s) && Valid(out)
  {
    hide Valid, Scanned, Fits, Rewrite, RunEnd, Step, Boundary, Slice, ContentEnd, LowerStarts;
    ghost var m := BearerMatcher;
    BearerFits(s);
    var i := 0;
    out := [];
    StartScan(m, s);
    while i < |s|
      invariant i <= |s| && Scanned(m, s, i, out)
    {
      ScannedAt(m, s, i, out);
      if LowerSliceStarts(s, i, BEARER) {
        KeyInText(s, i, BEARER);
        var valueStart := i + |BEARER|;
        var end := SkipRun(s, valueStart, BearerValue);
        if end - valueStart >= 8 {
          ScannedCut(m, s, i, out);
          out := out + Slice(s, i, valueStart) + MARK;
          i := end;
          continue;
        }
      }
      ScannedCopy(m, s, i, out);
      var step := Step(Slice(s, i, |s|));
      out := out + Slice(s, i, i + step);
      i := i + step;
    }
    ScannedAll(m, s, out);
  }

  ghost function BearerPass(s: string): (out: string)
    requires Valid(s)
    ensures Valid(out)
  {
    BearerFits(s);
    StartScan(BearerMatcher, s);
    RewriteValid(BearerMatcher, s, 0);
    Rewrite(BearerMatcher, s, 0)
  }

  method RedactKeyValues(s: string) returns (out: string)
    requires Valid(s)
    ensures out == KeyValuePass(s) && Valid(out)
  {
    hide Valid, Scanned, Fits, Rewrite, RunEnd, Step, Boundary, Slice, ContentEnd, LowerStarts;
    ghost var m := KeyValueMatcher;
    KeyValueFits(s);
    var i := 0;
    out := [];
    StartScan(m, s);
    while i < |s|
      invariant i <= |s| && Scanned(m, s, i, out)
    {
      if i == 0 || !IsTokenChar(s[i - 1]) {
        ScannedAt(m, s, i, out);
        var hit := MatchSecretKeyValue(s, i);
        if hit.Some? {
          ScannedCut(m, s, i, out);
          out := out + Slice(s, i, hit.value.keep) + MARK;
          i := hit.value.next;
          continue;
        }
      }
      ScannedCopy(m, s, i, out);
      var step := Step(Slice(s, i, |s|));
      out := out + Slice(s, i, i + step);
      i := i + step;
    }
    ScannedAll(m, s, out);
  }

  method FindBearer(s: string, v: nat) returns (hit: Option<Cut>)
    requires Boundary(s, v)
    ensures hit == BearerMatch(s, v)
  {
    hide RunEnd;
    hit := None;
    if LowerSliceStarts(s, v, BEARER) {
      var tokenStart := v + |BEARER|;
      var tokenEnd := SkipRun(s, tokenStart, BearerValue);
      if tokenEnd - tokenStart >= 8 {
        hit := Some(Cut(tokenStart, tokenEnd, MARK));
      }
    }
  }

  method FindValueEnd(s: string, v: nat) returns (valueEnd: nat, totalEnd: nat)
    requires v <= |s|
    ensures (valueEnd, totalEnd) == ValueEnd(s, v)
  {
    hide RunEnd;
    if v < |s| && IsQuote(s[v]) {
      valueEnd := SkipRun(s, v + 1, Until(s[v]));
      totalEnd := if valueEnd + 1 < |s| then valueEnd + 1 else |s|;
    } else {
      valueEnd := SkipRun(s, v, Bare);
      totalEnd := valueEnd;
    }
  }

  method MatchSecretKeyValue(s: string, i: nat) returns (hit: Option<Cut>)
    requires Valid(s) && Boundary(s, i) && (i == 0 || !IsTokenChar(s[i - 1]))
    ensures hit == KeyValueMatch(s, i)
  {
    hide Valid, RunEnd, LowerStarts, KeyAt, KeyInSlice, SECRET_KEYS, AUTHORIZATION, MARK, Boundary, IsTokenChar,
         BearerMatch,
         ValueEnd, LowerSliceStarts, Slice;
    var key := KeyInSlice(s, i, SECRET_KEYS);
    if key.None? {
      return None;
    }
    KeyInText(s, i, key.value);
    var k := SkipRun(s, i + |key.value|, Blank);
    if k == |s| || (s[k] != '=' && s[k] != ':') {
      return None;
    }
    var v := SkipRun(s, k + 1, Blank);
    if key.value == AUTHORIZATION {
      AsciiSeparator(s[k]);
      RunEndBoundary(s, k + 1, Blank);
      hit := FindBearer(s, v);
      if hit.Some? {
        return;
      }
    }
    var valueEnd, totalEnd := FindValueEnd(s, v);
    hit := if valueEnd - v >= 4 then Some(Cut(k + 1, totalEnd, MARK)) else None;
  }

  lemma AsciiSeparator(c: char)
    requires c == '=' || c == ':'
    ensures IsAscii(c)
  {
  }

  lemma KeyInText(s: string, i: nat, word: string)
    ensures LowerStarts(s, i, word) ==> i + |word| <= |s|
  {
  }

  ghost function KeyValuePass(s: string): (out: string)
    requires Valid(s)
    ensures Valid(out)
  {
    KeyValueFits(s);
    StartScan(KeyValueMatcher, s);
    RewriteValid(KeyValueMatcher, s, 0);
    Rewrite(KeyValueMatcher, s, 0)
  }

  method FindContentEnd(s: string, v: nat) returns (contentStart: nat, end: nat, next: nat)
    requires v <= |s|
    ensures (contentStart, end, next) == ContentEnd(s, v)
  {
    hide RunEnd;
    var quoted := v < |s| && IsQuote(s[v]);
    contentStart := if quoted then v + 1 else v;
    end := SkipRun(s, contentStart, if quoted then Until(s[v]) else EnvValue);
    next := if quoted && end < |s| then end + 1 else end;
  }

  method RedactEnvAssignments(s: string) returns (out: string)
    requires Valid(s)
    ensures out == EnvPass(s) && Valid(out)
  {
    hide Valid, Scanned, Fits, Rewrite, RunEnd, Step, Boundary, Slice, ContentEnd, LowerStarts;
    ghost var m := EnvMatcher;
    EnvFits(s);
    var i := 0;
    out := [];
    StartScan(m, s);
    while i < |s|
      invariant i <= |s| && Scanned(m, s, i, out)
    {
      if EnvStart(s, i) {
        var keyEnd := SkipRun(s, i, EnvName);
        var separator := SkipRun(s, keyEnd, Blank);
        if keyEnd - i >= 2 && separator < |s| && s[separator] == '=' {
          var valueStart := SkipRun(s, separator + 1, Blank);
          var contentStart, end, next := FindContentEnd(s, valueStart);
          if end - contentStart >= 4 {
            ScannedCut(m, s, i, out);
            out := out + Slice(s, i, separator + 1) + MARK;
            i := next;
            continue;
          }
        }
      }
      ScannedCopy(m, s, i, out);
      var step := Step(Slice(s, i, |s|));
      out := out + Slice(s, i, i + step);
      i := i + step;
    }
    ScannedAll(m, s, out);
  }

  ghost function EnvPass(s: string): (out: string)
    requires Valid(s)
    ensures Valid(out)
  {
    EnvFits(s);
    StartScan(EnvMatcher, s);
    RewriteValid(EnvMatcher, s, 0);
    Rewrite(EnvMatcher, s, 0)
  }
}
