/** What the lines of a text are, told by its line breaks. */
module TextLines {
  import opened Review

  // ---------- The first line ----------

  /** `b` is the first line break. */
  predicate FirstBreak(text: string, b: nat) {
    b < |text| && text[b] == '\n' && '\n' !in text[..b]
  }

  lemma {:induction false} LinesFromBreak(text: string, n: nat, b: nat)
    requires n <= b && FirstBreak(text, b)
    ensures LinesFrom(text, n) == [WithoutReturn(text[..b])] + Lines(text[b + 1..])
    decreases b - n
  {
    hide WithoutReturn;
    if n < b {
      assert text[..b][n] == text[n];
      LinesFromBreak(text, n + 1, b);
    }
  }

  lemma {:induction false} LinesFromNone(text: string, n: nat)
    requires n <= |text| && '\n' !in text
    ensures LinesFrom(text, n) == if text == "" then [] else [text]
    decreases |text| - n
  {
    if n < |text| {
      LinesFromNone(text, n + 1);
    }
  }

  lemma {:induction false} FindBreak(text: string) returns (b: nat)
    requires '\n' in text
    ensures FirstBreak(text, b)
  {
    if text[0] == '\n' {
      b := 0;
    } else {
      assert '\n' in text[1..] by {
        var i :| 0 <= i < |text| && text[i] == '\n';
        assert text[1..][i - 1] == '\n';
      }
      var c := FindBreak(text[1..]);
      b := c + 1;
      assert text[..b] == [text[0]] + text[1..][..c];
    }
  }

  // ---------- All lines ----------

  /** The index after the break that ends the line before line k. */
  function LineFrom(ends: seq<nat>, k: nat): nat
    requires k <= |ends|
  {
    if k == 0 then 0 else ends[k - 1] + 1
  }

  /** The bytes from `from` to `to`, without a carriage return right before a break. */
  function Between(text: string, from: nat, to: nat): string
    requires from <= to <= |text|
  {
    if to < |text| && from < to && text[to - 1] == '\r' then text[from..to - 1] else text[from..to]
  }

  /** One end after the other, inside the text. */
  ghost predicate Rising(n: nat, ends: seq<nat>) {
    forall k :: 0 <= k < |ends| ==> LineFrom(ends, k) <= ends[k] <= n
  }

  ghost predicate AtBreaks(text: string, ends: seq<nat>) {
    forall i :: 0 <= i < |text| ==> (text[i] == '\n' <==> i in ends)
  }

  /** The ends of the lines: every break, and the end of the text if the text has no break there. */
  ghost predicate AreEnds(text: string, ends: seq<nat>) {
    && Rising(|text|, ends) && AtBreaks(text, ends)
    && (|text| in ends <==> text != "" && text[|text| - 1] != '\n')
  }

  /** Line k is what stands between the breaks around it. */
  predicate LineAt(text: string, ends: seq<nat>, lines: seq<string>, k: nat) {
    && k < |ends| && k < |lines| && LineFrom(ends, k) <= ends[k] <= |text|
    && lines[k] == Between(text, LineFrom(ends, k), ends[k])
  }

  ghost predicate AreLines(text: string, ends: seq<nat>, lines: seq<string>) {
    |lines| == |ends| && forall k: nat :: k < |ends| ==> LineAt(text, ends, lines, k)
  }

  function Shifted(ends: seq<nat>, at: nat): (r: seq<nat>)
    ensures |r| == |ends| && forall k :: 0 <= k < |ends| ==> r[k] == ends[k] + at
  {
    seq(|ends|, k requires 0 <= k < |ends| => ends[k] + at)
  }

  lemma OneEnd(text: string)
    requires '\n' !in text && text != ""
    ensures AreEnds(text, [|text|]) && AreLines(text, [|text|], [text])
  {
    assert text[0..|text|] == text;
  }

  lemma RisingAt(n: nat, ends: seq<nat>, k: nat)
    requires Rising(n, ends) && k < |ends|
    ensures LineFrom(ends, k) <= ends[k] <= n
  {
    hide LineFrom;
  }

  lemma OrderBehind(text: string, b: nat, rest: seq<nat>, k: nat)
    requires b < |text| && AreEnds(text[b + 1..], rest) && k <= |rest|
    ensures var ends := [b] + Shifted(rest, b + 1);
            LineFrom(ends, k) <= ends[k] <= |text| && (k > 0 ==> LineFrom(ends, k) == LineFrom(rest, k - 1) + b + 1)
  {
    hide AtBreaks, Rising;
    if k > 0 {
      RisingAt(|text| - b - 1, rest, k - 1);
    }
  }

  lemma InBehind(b: nat, rest: seq<nat>, i: nat)
    ensures i in [b] + Shifted(rest, b + 1) <==> i == b || (i > b && i - b - 1 in rest)
  {
    var ends := [b] + Shifted(rest, b + 1);
    assert ends[0] == b;
    if i > b && i - b - 1 in rest {
      var k :| 0 <= k < |rest| && rest[k] == i - b - 1;
      assert ends[k + 1] == i;
    }
  }

  lemma BreakBehind(text: string, b: nat, rest: seq<nat>, i: nat)
    requires FirstBreak(text, b) && AreEnds(text[b + 1..], rest) && i < |text|
    ensures text[i] == '\n' <==> i in [b] + Shifted(rest, b + 1)
  {
    hide Rising;
    InBehind(b, rest, i);
    var tail := text[b + 1..];
    if i > b {
      assert tail[i - b - 1] == text[i];
    } else if i < b {
      assert text[i] == text[..b][i];
    }
  }

  lemma EndBehind(text: string, b: nat, rest: seq<nat>)
    requires FirstBreak(text, b) && AreEnds(text[b + 1..], rest)
    ensures |text| in [b] + Shifted(rest, b + 1) <==> text[|text| - 1] != '\n'
  {
    hide AtBreaks, Rising;
    InBehind(b, rest, |text|);
    var tail := text[b + 1..];
    assert tail != "" ==> tail[|tail| - 1] == text[|text| - 1];
  }

  lemma EndsBehind(text: string, b: nat, rest: seq<nat>)
    requires FirstBreak(text, b) && AreEnds(text[b + 1..], rest)
    ensures AreEnds(text, [b] + Shifted(rest, b + 1))
  {
    var ends := [b] + Shifted(rest, b + 1);
    assert |ends| == |rest| + 1;
    hide FirstBreak, LineFrom;
    forall k: nat | k < |ends|
      ensures LineFrom(ends, k) <= ends[k] <= |text|
    {
      HasBreak(text, b);
      OrderBehind(text, b, rest, k);
    }
    forall i: nat | i < |text|
      ensures text[i] == '\n' <==> i in ends
    {
      BreakBehind(text, b, rest, i);
    }
    HasBreak(text, b);
    EndBehind(text, b, rest);
  }

  lemma HasBreak(text: string, b: nat)
    requires FirstBreak(text, b)
    ensures b < |text|
  {
  }

  lemma LineBehind(text: string, b: nat, rest: seq<nat>, lines: seq<string>, k: nat)
    requires b < |text| && AreEnds(text[b + 1..], rest) && LineAt(text[b + 1..], rest, lines, k)
    ensures LineAt(text, [b] + Shifted(rest, b + 1), [WithoutReturn(text[..b])] + lines, k + 1)
  {
    hide AreEnds, Between, LineFrom, WithoutReturn;
    OrderBehind(text, b, rest, k + 1);
    BetweenBehind(text, b + 1, LineFrom(rest, k), rest[k]);
  }

  lemma FirstLine(text: string, b: nat, rest: seq<nat>, lines: seq<string>)
    requires FirstBreak(text, b)
    ensures LineAt(text, [b] + Shifted(rest, b + 1), [WithoutReturn(text[..b])] + lines, 0)
  {
    hide Shifted;
    assert text[0..b] == text[..b];
  }

  lemma LinesBehind(text: string, b: nat, rest: seq<nat>, lines: seq<string>)
    requires FirstBreak(text, b) && AreEnds(text[b + 1..], rest) && AreLines(text[b + 1..], rest, lines)
    ensures AreLines(text, [b] + Shifted(rest, b + 1), [WithoutReturn(text[..b])] + lines)
  {
    HasBreak(text, b);
    FirstLine(text, b, rest, lines);
    var ends, all := [b] + Shifted(rest, b + 1), [WithoutReturn(text[..b])] + lines;
    hide FirstBreak, AreEnds, LineAt, WithoutReturn;
    forall k: nat | k < |ends|
      ensures LineAt(text, ends, all, k)
    {
      if k > 0 {
        LineBehind(text, b, rest, lines, k - 1);
      }
    }
  }

  lemma BetweenBehind(text: string, at: nat, x: nat, y: nat)
    requires at <= |text| && x <= y <= |text| - at
    ensures Between(text[at..], x, y) == Between(text, x + at, y + at)
  {
    var tail := text[at..];
    assert tail[x..y] == text[x + at..y + at];
    assert x < y ==> tail[x..y - 1] == text[x + at..y + at - 1] && tail[y - 1] == text[y + at - 1];
  }

  /**
   * The lines of a text are what stands between its breaks, in order, each without the carriage return right before
   * its break, and a last one without a break if the text does not end in one.
   */
  lemma {:induction false} LinesBetweenBreaks(text: string) returns (ends: seq<nat>)
    ensures AreEnds(text, ends) && AreLines(text, ends, Lines(text))
    decreases |text|
  {
    hide AreEnds, AreLines, WithoutReturn, LinesFrom;
    if '\n' in text {
      var b := FindBreak(text);
      LinesFromBreak(text, 0, b);
      var rest := LinesBetweenBreaks(text[b + 1..]);
      EndsBehind(text, b, rest);
      LinesBehind(text, b, rest, Lines(text[b + 1..]));
      ends := [b] + Shifted(rest, b + 1);
    } else {
      LinesFromNone(text, 0);
      if text == "" {
        ends := [];
        NoLines();
      } else {
        OneEnd(text);
        ends := [|text|];
      }
    }
  }

  lemma NoLines()
    ensures AreEnds("", []) && AreLines("", [], [])
  {
  }

  // ---------- Counting ----------

  function Breaks(text: string): nat {
    if text == "" then 0 else Breaks(text[1..]) + if text[0] == '\n' then 1 else 0
  }

  lemma {:induction false} BreaksConcat(a: string, b: string)
    ensures Breaks(a + b) == Breaks(a) + Breaks(b)
  {
    if a == "" {
      assert a + b == b;
    } else {
      assert (a + b)[1..] == a[1..] + b;
      BreaksConcat(a[1..], b);
    }
  }

  lemma {:induction false} NoBreaks(text: string)
    requires '\n' !in text
    ensures Breaks(text) == 0
  {
    if text != "" {
      NoBreaks(text[1..]);
    }
  }

  lemma BreaksBehind(text: string, b: nat)
    requires FirstBreak(text, b)
    ensures Breaks(text) == 1 + Breaks(text[b + 1..])
    ensures '\n' !in WithoutReturn(text[..b])
  {
    var tail := text[b + 1..];
    assert text == text[..b] + (['\n'] + tail);
    BreaksConcat(text[..b], ['\n'] + tail);
    NoBreaks(text[..b]);
    assert (['\n'] + tail)[1..] == tail;
  }

  /** There are as many lines as breaks, and one more if the text does not end in one; no line holds a break. */
  lemma {:induction false} LinesCount(text: string)
    ensures |Lines(text)| == Breaks(text) + if text != "" && text[|text| - 1] != '\n' then 1 else 0
    ensures forall k :: 0 <= k < |Lines(text)| ==> '\n' !in Lines(text)[k]
    decreases |text|
  {
    hide LinesFrom, WithoutReturn, Breaks;
    if '\n' in text {
      var b := FindBreak(text);
      LinesFromBreak(text, 0, b);
      BreaksBehind(text, b);
      LinesCount(text[b + 1..]);
      assert b + 1 < |text| ==> text[b + 1..][|text| - b - 2] == text[|text| - 1];
    } else {
      LinesFromNone(text, 0);
      NoBreaks(text);
    }
  }

  // ---------- Line endings ----------

  /** `other` is the text with a carriage return put before any number of its breaks. */
  ghost predicate WithReturns(text: string, other: string) {
    if text == "" then other == ""
    else if text[0] == '\n' then
      || (other != "" && other[0] == '\n' && WithReturns(text[1..], other[1..]))
      || (|other| >= 2 && other[0] == '\r' && other[1] == '\n' && WithReturns(text[1..], other[2..]))
    else other != "" && other[0] == text[0] && WithReturns(text[1..], other[1..])
  }

  /** Where the first breaks of both stand, and what comes before and after them. */
  lemma {:induction false} FirstBreaks(text: string, b: nat, other: string) returns (c: nat)
    requires WithReturns(text, other) && FirstBreak(text, b)
    ensures FirstBreak(other, c) && WithReturns(text[b + 1..], other[c + 1..])
    ensures other[..c] == text[..b] || other[..c] == text[..b] + "\r"
    decreases b
  {
    if b == 0 {
      c := if other[0] == '\n' && WithReturns(text[1..], other[1..]) then 0 else 1;
      assert other[..c] == if c == 0 then "" else "\r";
    } else {
      assert text[0] == text[..b][0];
      assert text[1..][..b - 1] == text[..b][1..];
      c := FirstBreaks(text[1..], b - 1, other[1..]);
      assert text[1..][b..] == text[b + 1..] && other[1..][c + 1..] == other[c + 2..];
      assert other[..c + 1] == [other[0]] + other[1..][..c] && text[..b] == [text[0]] + text[1..][..b - 1];
      c := c + 1;
    }
  }

  lemma {:induction false} NoneWithReturns(text: string, other: string)
    requires WithReturns(text, other) && '\n' !in text
    ensures other == text
  {
    if text != "" {
      assert text[0] != '\n';
      NoneWithReturns(text[1..], other[1..]);
    }
  }

  /**
   * Line endings do not show: a text whose breaks have no carriage return before them has the same lines as the text
   * with carriage returns put before any of its breaks.
   */
  lemma {:induction false} ReturnsDoNotShow(text: string, other: string)
    requires WithReturns(text, other) && forall i :: 0 < i < |text| && text[i] == '\n' ==> text[i - 1] != '\r'
    ensures Lines(other) == Lines(text)
    decreases |text|
  {
    hide LinesFrom, WithReturns;
    if '\n' in text {
      var b := FindBreak(text);
      var c := FirstBreaks(text, b, other);
      LinesFromBreak(text, 0, b);
      LinesFromBreak(other, 0, c);
      var tail := text[b + 1..];
      assert forall i :: 0 <= i < |tail| ==> tail[i] == text[i + b + 1];
      ReturnsDoNotShow(tail, other[c + 1..]);
      ReturnDropped(text[..b], other[..c]);
    } else {
      NoneWithReturns(text, other);
    }
  }

  lemma ReturnDropped(line: string, other: string)
    requires other == line || other == line + "\r"
    requires line == "" || line[|line| - 1] != '\r'
    ensures WithoutReturn(other) == WithoutReturn(line) == line
  {
    assert (line + "\r")[..|line|] == line;
  }
}
