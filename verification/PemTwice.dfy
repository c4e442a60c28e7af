/** When a second PEM pass changes nothing, in terms of the text that the first one was given. */
module PemTwice {
  import opened Wrappers
  import opened Utf8
  import opened Patterns
  import opened Scanner
  import opened HighEntropy
  import opened ScanOutput
  import opened Pem
  import opened PemEnds
  import opened SanitizeTwice
  import T = Text

  // ---------- The condition ----------

  /** A block: where it begins, and its body. */
  datatype Block = Block(begin: nat, body: Span)

  /** The first block from `i` on. */
  function NextBlock(s: string, i: nat): (b: Option<Block>)
    requires Valid(s) && Boundary(s, i)
    ensures b.Some? ==>
              && i <= b.value.begin <= b.value.body.from <= b.value.body.to && b.value.begin < b.value.body.to
              && Boundary(s, b.value.body.to) && Boundary(s, b.value.begin) && Boundary(s, b.value.body.from)
  {
    DashesAreAscii();
    var begin := FindIn(s, i, PEM_BEGIN);
    if begin.None? then None
    else
      var end := PemEnd(s, begin.value);
      if end.None? then None
      else Some(Block(begin.value, Span(HeaderEnd(s, begin.value, end.value), end.value)))
  }

  /** An end marker stands between two indices. */
  ghost predicate EndIn(s: string, i: nat, j: nat) {
    exists x: nat :: i <= x && x + |PEM_END| <= j && T.OccursAt(s, PEM_END, x)
  }

  /** From `i` on nothing is kept that holds an end marker. */
  ghost predicate KeepsNoEnd(s: string, i: nat)
    requires Valid(s) && Boundary(s, i)
    decreases |s| - i
  {
    match NextBlock(s, i)
    case None => !EndIn(s, i, |s|)
    case Some(b) => !EndIn(s, i, b.body.from) && KeepsNoEnd(s, b.body.to)
  }

  /**
   * The first block whose header line is kept has no end marker in that line and none is kept behind it, or it has one
   * there and is the end of the text.
   */
  ghost predicate PemSettled(s: string, i: nat)
    requires Valid(s) && Boundary(s, i)
    decreases |s| - i
  {
    match NextBlock(s, i)
    case None => true
    case Some(b) =>
      if b.body.from == b.begin then PemSettled(s, b.body.to)
      else if EndIn(s, b.begin, b.body.from) then b.body.to == |s|
      else KeepsNoEnd(s, b.body.to)
  }

  // ---------- Markers around the mark ----------

  predicate Marker(w: string) {
    w == PEM_BEGIN || w == PEM_END || w == DASHES
  }

  lemma MarkerShape(w: string)
    requires Marker(w)
    ensures |w| > 0 && w[0] == '-' && '[' !in w && ']' !in w && '\n' !in w
  {
  }

  lemma PemMarkShape()
    ensures |PEM_MARK| == 19 && PEM_MARK[0] == '[' && PEM_MARK[18] == ']' && '-' !in PEM_MARK && '\n' !in PEM_MARK
  {
  }

  /** A marker beside the mark is before it or after it. */
  lemma MarkerAround(head: string, rest: string, w: string, k: int)
    requires Marker(w) && T.OccursAt(head + (PEM_MARK + rest), w, k)
    ensures if k < |head| then T.OccursAt(head, w, k) else k >= |head| + 19 && T.OccursAt(rest, w, k - |head| - 19)
  {
    hide PEM_BEGIN, PEM_END;
    var o := head + (PEM_MARK + rest);
    MarkerShape(w);
    PemMarkShape();
    hide PEM_MARK, Marker;
    assert o[|head|] == PEM_MARK[0] && o[|head| + 18] == PEM_MARK[18];
    forall y | |head| <= y < |head| + 19
      ensures o[y] in PEM_MARK
    {
      assert o[y] == PEM_MARK[y - |head|];
    }
    Avoids(o, w, k, |head|);
    Avoids(o, w, k, |head| + 18);
    assert o[k..k + |w|][0] == o[k];
    if k < |head| {
      OccursInHead(head, PEM_MARK + rest, w, k);
    } else {
      OccursInRest(head, PEM_MARK + rest, w, k);
      OccursInRest(PEM_MARK, rest, w, k - |head|);
    }
  }

  lemma MarkerBefore(head: string, rest: string, w: string, k: int)
    requires T.OccursAt(head, w, k)
    ensures T.OccursAt(head + rest, w, k)
  {
    assert (head + rest)[k..k + |w|] == head[k..k + |w|];
  }

  lemma MarkerAfter(head: string, rest: string, w: string, k: int)
    requires T.OccursAt(rest, w, k)
    ensures T.OccursAt(head + rest, w, |head| + k)
  {
    assert (head + rest)[|head| + k..|head| + k + |w|] == rest[k..k + |w|];
  }

  lemma MarkerInSlice(s: string, i: nat, j: nat, w: string, k: int)
    requires i <= j <= |s| && k >= 0
    ensures T.OccursAt(s[i..j], w, k) <==> i + k + |w| <= j && T.OccursAt(s, w, i + k)
  {
    if k + |w| <= j - i {
      var a, b := s[i..j][k..k + |w|], s[i + k..i + k + |w|];
      assert forall x :: 0 <= x < |w| ==> a[x] == s[i + k + x] && b[x] == s[i + k + x];
      assert a == b;
    }
  }

  // ---------- The output from an index on ----------

  ghost function Out(s: string, i: nat): string
    requires Valid(s) && Boundary(s, i)
  {
    Splice(PEM_MARK, s, i, Bodies(s, i))
  }

  lemma OutIsOutput(s: string, i: nat)
    requires Valid(s) && Boundary(s, i)
    ensures Valid(s[i..]) && RedactPem(s[i..]) == Out(s, i) && Valid(Out(s, i))
  {
    hide Valid, RedactPem, Bodies, Splice;
    PemFrom(s, i);
    PemValid(s[i..]);
  }

  /** The text from `i` on, or the part kept up to the next body, the mark, and so on. */
  lemma OutParts(s: string, i: nat)
    requires Valid(s) && Boundary(s, i)
    ensures i <= |s|
    ensures match NextBlock(s, i)
            case None => Out(s, i) == s[i..]
            case Some(b) => b.body.to <= |s| && Out(s, i) == s[i..b.body.from] + (PEM_MARK + Out(s, b.body.to))
  {
    hide Valid, Bodies, NextBlock, Ordered, Splice, PEM_MARK;
    BoundaryInside(s, i);
    BodiesFrom(s, i);
    NextBody(s, i);
    match NextBlock(s, i) {
      case None => NoBody(PEM_MARK, s, i);
      case Some(b) => OutOfBody(s, i, b);
    }
  }

  lemma NextBody(s: string, i: nat)
    requires Valid(s) && Boundary(s, i)
    ensures match NextBlock(s, i)
            case None => Bodies(s, i) == []
            case Some(b) => Bodies(s, i) != [] && Bodies(s, i)[1..] == Bodies(s, b.body.to) && Bodies(s, i)[0] == b.body
  {
    hide Valid, Bodies, FindIn, PemEnd, HeaderEnd, PEM_BEGIN, AsciiText;
    DashesAreAscii();
    BodiesUnfold(s, i);
  }

  lemma OutOfBody(s: string, i: nat, b: Block)
    requires Valid(s) && Boundary(s, i) && Boundary(s, b.body.to) && Ordered(s, i, Bodies(s, i))
    requires Bodies(s, i) != [] && Bodies(s, i)[1..] == Bodies(s, b.body.to) && Bodies(s, i)[0] == b.body
    ensures i <= b.body.from <= b.body.to <= |s|
    ensures Out(s, i) == s[i..b.body.from] + (PEM_MARK + Out(s, b.body.to))
  {
    hide Valid, Bodies, Ordered, Splice, PEM_MARK;
    OneBody(PEM_MARK, s, i, Bodies(s, i), Out(s, b.body.to));
    assert s[i..b.body.from] + PEM_MARK + Out(s, b.body.to) == s[i..b.body.from] + (PEM_MARK + Out(s, b.body.to));
  }

  /** What is known of the next block, or that there is none. */
  lemma NextBlockIs(s: string, i: nat)
    requires Valid(s) && Boundary(s, i)
    ensures match NextBlock(s, i)
            case None =>
              forall x, y :: i <= x <= y && T.OccursAt(s, PEM_BEGIN, x) ==> !T.OccursAt(s, PEM_END, y)
            case Some(b) => b.body.to <= |s| && IsBody(s, i, b.begin, b.body)
  {
    hide Valid, FindIn, PemEnd, HeaderEnd, PEM_MARK, PEM_BEGIN, PEM_END, DASHES, AsciiText, EndsAt, T.OccursAt;
    DashesAreAscii();
    var begin := FindIn(s, i, PEM_BEGIN);
    if begin.Some? {
      var end := PemEnd(s, begin.value);
      if end.Some? {
        BoundaryInside(s, end.value);
        PemEndEnds(s, begin.value);
        HeaderKept(s, begin.value, end.value);
      } else {
        NoEnd(s, begin.value);
      }
    }
  }

  // ---------- End markers kept ----------

  ghost predicate HasEnd(o: string) {
    exists x: nat :: T.OccursAt(o, PEM_END, x)
  }

  lemma EndsInSlice(s: string, i: nat, j: nat)
    requires i <= j <= |s|
    ensures HasEnd(s[i..j]) <==> EndIn(s, i, j)
  {
    hide PEM_END, T.OccursAt;
    if HasEnd(s[i..j]) {
      var x: nat :| T.OccursAt(s[i..j], PEM_END, x);
      MarkerInSlice(s, i, j, PEM_END, x);
      assert i <= i + x;
    }
    if EndIn(s, i, j) {
      var x: nat :| i <= x && x + |PEM_END| <= j && T.OccursAt(s, PEM_END, x);
      MarkerInSlice(s, i, j, PEM_END, x - i);
    }
  }

  lemma EndsAround(head: string, rest: string)
    ensures HasEnd(head + (PEM_MARK + rest)) <==> HasEnd(head) || HasEnd(rest)
  {
    hide PEM_END, PEM_MARK, T.OccursAt;
    var o := head + (PEM_MARK + rest);
    if HasEnd(o) {
      var x: nat :| T.OccursAt(o, PEM_END, x);
      MarkerAround(head, rest, PEM_END, x);
    }
    if HasEnd(head) {
      var x: nat :| T.OccursAt(head, PEM_END, x);
      MarkerBefore(head, PEM_MARK + rest, PEM_END, x);
    }
    if HasEnd(rest) {
      var x: nat :| T.OccursAt(rest, PEM_END, x);
      MarkerAfter(head + PEM_MARK, rest, PEM_END, x);
      assert head + PEM_MARK + rest == o;
      assert |head + PEM_MARK| + x >= 0;
    }
  }

  lemma {:induction false} EndsKept(s: string, i: nat)
    requires Valid(s) && Boundary(s, i)
    ensures HasEnd(Out(s, i)) <==> !KeepsNoEnd(s, i)
    decreases |s| - i
  {
    hide Valid, NextBlock, Out, PEM_MARK, HasEnd, EndIn;
    OutParts(s, i);
    match NextBlock(s, i) {
      case None =>
        EndsInSlice(s, i, |s|);
        assert s[i..|s|] == s[i..];
      case Some(b) =>
        EndsKept(s, b.body.to);
        EndsInSlice(s, i, b.body.from);
        EndsAround(s[i..b.body.from], Out(s, b.body.to));
    }
  }

  // ---------- Before the first header ----------

  /** A start without a begin marker is copied. */
  lemma StartCopied(x: string, y: string)
    requires Valid(x + y) && Valid(y) && Boundary(x + y, |x|)
    requires forall k :: 0 <= k < |x| ==> !T.OccursAt(x + y, PEM_BEGIN, k)
    ensures RedactPem(x + y) == x + RedactPem(y)
  {
    hide Valid, RedactPem, Bodies, Splice, Ordered, PEM_BEGIN, PEM_MARK, T.OccursAt, AsciiText;
    var o := x + y;
    DashesAreAscii();
    StartBoundary(o);
    FirstLater(o, 0, |x|);
    BodiesUnfold(o, 0);
    BodiesUnfold(o, |x|);
    PemIsSplice(o);
    PemFrom(o, |x|);
    BodiesFrom(o, |x|);
    assert o[|x|..] == y && o[0..|x|] == x;
    SameBodies(o, 0, |x|);
    SpliceSkips(PEM_MARK, o, 0, |x|, Bodies(o, |x|));
  }

  lemma FirstLater(s: string, i: nat, j: nat)
    requires Valid(s) && i <= j && Boundary(s, i) && Boundary(s, j) && AsciiText(PEM_BEGIN)
    requires forall k :: i <= k < j ==> !T.OccursAt(s, PEM_BEGIN, k)
    ensures FindIn(s, i, PEM_BEGIN) == FindIn(s, j, PEM_BEGIN)
  {
    hide Valid, PEM_BEGIN, T.OccursAt, AsciiText, FindIn;
    var a, b := FindIn(s, i, PEM_BEGIN), FindIn(s, j, PEM_BEGIN);
    if a.Some? && b.Some? {
      assert a.value >= j && a.value == b.value;
    }
  }

  lemma SameBodies(s: string, i: nat, j: nat)
    requires Valid(s) && Boundary(s, i) && Boundary(s, j) && FindIn.requires(s, i, PEM_BEGIN)
    requires FindIn(s, i, PEM_BEGIN) == FindIn(s, j, PEM_BEGIN)
    ensures Bodies(s, i) == Bodies(s, j)
  {
    hide Valid, PEM_BEGIN, FindIn, PemEnd, HeaderEnd;
    DashesAreAscii();
  }

  ghost predicate Fixed(o: string) {
    Valid(o) && RedactPem(o) == o
  }

  /** A block without a kept header leaves a piece without a begin marker, and the mark. */
  lemma NoHeader(s: string, i: nat, b: Block)
    requires Valid(s) && Boundary(s, i) && NextBlock(s, i) == Some(b) && b.body.from == b.begin
    ensures Boundary(s, b.body.to)
    ensures Fixed(Out(s, i)) <==> Fixed(Out(s, b.body.to))
  {
    hide Valid, RedactPem, Out, NextBlock, PEM_MARK, PEM_BEGIN, T.OccursAt, EndsAt, BodyFrom;
    OutParts(s, i);
    NextBlockIs(s, i);
    OutIsOutput(s, i);
    OutIsOutput(s, b.body.to);
    var head, y := s[i..b.begin], Out(s, b.body.to);
    var x, o := head + PEM_MARK, head + (PEM_MARK + y);
    assert x + y == o;
    PemMarkShape();
    forall k | 0 <= k < |x|
      ensures !T.OccursAt(o, PEM_BEGIN, k)
    {
      if T.OccursAt(o, PEM_BEGIN, k) {
        MarkerAround(head, y, PEM_BEGIN, k);
        MarkerInSlice(s, i, b.begin, PEM_BEGIN, k);
      }
    }
    BracketBoundary(head, y);
    StartCopied(x, y);
    Peel(x + RedactPem(y), x + y, x, RedactPem(y), y);
  }

  lemma BracketBoundary(head: string, y: string)
    requires Valid(head + (PEM_MARK + y))
    ensures Boundary(head + (PEM_MARK + y), |head + PEM_MARK|)
  {
    hide Valid;
    var o := head + (PEM_MARK + y);
    PemMarkShape();
    hide PEM_MARK;
    assert o[|head| + 18] == PEM_MARK[18];
    AfterAscii(o, |head| + 19);
  }

  // ---------- The first header kept ----------

  /** The header line of a block, cut off with what comes before it. */
  ghost predicate HeaderOf(s: string, i: nat, b: Block, head: string) {
    && i <= b.begin < b.body.from <= b.body.to <= |s| && head == s[i..b.body.from]
    && IsBody(s, i, b.begin, b.body)
  }

  /** Its begin marker comes first, and its line break is the first behind that. */
  lemma HeaderShape(s: string, i: nat, b: Block, head: string, rest: string)
    requires HeaderOf(s, i, b, head)
    ensures var o, begin := head + (PEM_MARK + rest), b.begin - i;
            && FirstFrom(o, 0, PEM_BEGIN, begin) && begin < |head| && o[|head| - 1] == '\n'
            && (forall k :: begin <= k < |head| - 1 ==> o[k] != '\n')
  {
    hide PEM_BEGIN, PEM_MARK, T.OccursAt, EndsAt;
    var o, begin := head + (PEM_MARK + rest), b.begin - i;
    BeginInHeader(s, b);
    assert forall k :: 0 <= k < |head| ==> o[k] == s[i + k];
    MarkerInSlice(s, i, b.body.from, PEM_BEGIN, begin);
    MarkerBefore(head, PEM_MARK + rest, PEM_BEGIN, begin);
    forall k | 0 <= k < begin
      ensures !T.OccursAt(o, PEM_BEGIN, k)
    {
      if T.OccursAt(o, PEM_BEGIN, k) {
        MarkerAround(head, rest, PEM_BEGIN, k);
        MarkerInSlice(s, i, b.body.from, PEM_BEGIN, k);
      }
    }
  }

  lemma BeginInHeader(s: string, b: Block)
    requires T.OccursAt(s, PEM_BEGIN, b.begin) && b.begin < b.body.from <= |s|
    requires s[b.body.from - 1] == '\n'
    ensures b.begin + |PEM_BEGIN| <= b.body.from
  {
    MarkerShape(PEM_BEGIN);
    hide PEM_BEGIN;
    Avoids(s, PEM_BEGIN, b.begin, b.body.from - 1);
  }

  lemma EndFound(s: string, i: nat, j: nat, x: nat)
    requires i <= x && x + |PEM_END| <= j && T.OccursAt(s, PEM_END, x)
    ensures EndIn(s, i, j)
  {
  }

  lemma MarkedEnd(o: string, x: int)
    requires T.OccursAt(o, PEM_END, x)
    ensures HasEnd(o)
  {
    var n: nat := x;
    assert T.OccursAt(o, PEM_END, n);
  }

  lemma NoPairWithoutEnd(s: string, i: nat, b: Block, head: string, rest: string)
    requires HeaderOf(s, i, b, head) && !EndIn(s, b.begin, b.body.from) && !HasEnd(rest)
    ensures !PemPair(head + (PEM_MARK + rest))
  {
    hide PEM_BEGIN, PEM_END, PEM_MARK, T.OccursAt, EndsAt, BodyFrom;
    var o := head + (PEM_MARK + rest);
    forall x: nat, y: nat | x <= y && T.OccursAt(o, PEM_BEGIN, x)
      ensures !T.OccursAt(o, PEM_END, y)
    {
      if T.OccursAt(o, PEM_END, y) {
        MarkerAround(head, rest, PEM_END, y);
        MarkerAround(head, rest, PEM_BEGIN, x);
        MarkerInSlice(s, i, b.body.from, PEM_END, y);
        MarkerInSlice(s, i, b.body.from, PEM_BEGIN, x);
        if y < |head| {
          EndFound(s, b.begin, b.body.from, i + y);
        } else {
          MarkedEnd(rest, y - |head| - 19);
        }
      }
    }
  }

  lemma PairWithEnd(s: string, i: nat, b: Block, head: string, rest: string)
    requires HeaderOf(s, i, b, head) && (EndIn(s, b.begin, b.body.from) || HasEnd(rest))
    ensures PemPair(head + (PEM_MARK + rest))
  {
    hide PEM_BEGIN, PEM_END, PEM_MARK, T.OccursAt, EndsAt, BodyFrom;
    var o := head + (PEM_MARK + rest);
    HeaderShape(s, i, b, head, rest);
    var begin: nat := b.begin - i;
    if EndIn(s, b.begin, b.body.from) {
      var x: nat :| b.begin <= x && x + |PEM_END| <= b.body.from && T.OccursAt(s, PEM_END, x);
      MarkerInSlice(s, i, b.body.from, PEM_END, x - i);
      MarkerBefore(head, PEM_MARK + rest, PEM_END, x - i);
      assert begin <= x - i;
    } else {
      var x: nat :| T.OccursAt(rest, PEM_END, x);
      MarkerAfter(head + PEM_MARK, rest, PEM_END, x);
      assert head + PEM_MARK + rest == o;
      assert begin <= |head + PEM_MARK| + x;
    }
  }

  /** In the output a body that starts at the first begin marker is from the line break of the kept header on. */
  lemma BodyBehindHeader(s: string, i: nat, b: Block, head: string, rest: string, begin: nat, span: Span)
    requires HeaderOf(s, i, b, head) && IsBody(head + (PEM_MARK + rest), 0, begin, span)
    ensures begin == b.begin - i
    ensures span.to >= |head| ==> span.from == |head|
    ensures span.to < |head| ==> span.from == begin
  {
    hide PEM_BEGIN, PEM_MARK, T.OccursAt, EndsAt;
    HeaderShape(s, i, b, head, rest);
  }

  /** A fixed output with such a header and an end marker behind it ends in the mark after that header. */
  lemma FixedEndsText(s: string, i: nat, b: Block, head: string, rest: string)
    requires HeaderOf(s, i, b, head) && Fixed(head + (PEM_MARK + rest)) && PemPair(head + (PEM_MARK + rest))
    ensures rest == "" && EndIn(s, b.begin, b.body.from)
  {
    hide Valid, RedactPem, Bodies, PEM_BEGIN, PEM_END, PEM_MARK, T.OccursAt, HeaderOf, IsBody, AreBodies, BodyIsMark,
         Splice;
    var o := head + (PEM_MARK + rest);
    PemFixedExactly(o);
    PemIsSplice(o);
    PairHasBody(o, Bodies(o, 0));
    var span := Bodies(o, 0)[0];
    var begin := FirstBody(o, Bodies(o, 0));
    assert BodyIsMark(o, span);
    BodyBehindHeader(s, i, b, head, rest, begin, span);
    MarkIsLast(s, i, b, head, rest, begin, span);
  }

  lemma PairHasBody(o: string, spans: seq<Span>)
    requires PemPair(o) && AreBodies(o, 0, spans)
    ensures spans != []
  {
    hide PEM_BEGIN, PEM_END, T.OccursAt;
  }

  lemma FirstBody(o: string, spans: seq<Span>) returns (begin: nat)
    requires spans != [] && AreBodies(o, 0, spans)
    ensures IsBody(o, 0, begin, spans[0])
  {
    hide IsBody;
    var b: nat :| IsBody(o, 0, b, spans[0]) && AreBodies(o, spans[0].to, spans[1..]);
    begin := b;
  }

  lemma MarkIsLast(s: string, i: nat, b: Block, head: string, rest: string, begin: nat, span: Span)
    requires HeaderOf(s, i, b, head) && IsBody(head + (PEM_MARK + rest), 0, begin, span) && begin == b.begin - i
    requires BodyIsMark(head + (PEM_MARK + rest), span)
    requires (span.to >= |head| ==> span.from == |head|) && (span.to < |head| ==> span.from == begin)
    ensures rest == "" && EndIn(s, b.begin, b.body.from)
  {
    hide PEM_BEGIN, PEM_END, PEM_MARK, DASHES, T.OccursAt, BodyFrom;
    var o := head + (PEM_MARK + rest);
    PemMarkShape();
    DashAt(o, PEM_BEGIN, begin);
    assert o[span.from..span.to][0] == o[span.from] && o[span.from..span.to][18] == o[span.from + 18];
    var e: nat :| FirstFrom(o, begin, PEM_END, e) && ClosesAt(o, e + |PEM_END|, span.to);
    OpenBlock(o, e + |PEM_END|, span.to);
    assert span.to == |head| + 19;
    MarkerAround(head, rest, PEM_END, e);
    ShortRest(rest, e - |head| - 19);
    MarkerInSlice(s, i, b.body.from, PEM_END, e);
    EndFound(s, b.begin, b.body.from, i + e);
  }

  lemma ShortRest(rest: string, x: int)
    requires rest == ""
    ensures !T.OccursAt(rest, PEM_END, x)
  {
    assert |PEM_END| == 8;
  }

  /** A block that does not end in a dash ends the text. */
  lemma OpenBlock(o: string, after: nat, to: nat)
    requires ClosesAt(o, after, to) && 0 < to <= |o| && o[to - 1] != '-'
    ensures to == |o|
  {
    hide T.OccursAt, DASHES;
    DashesLength();
    if to < |o| {
      var d: nat :| FirstFrom(o, after, DASHES, d) && to == d + |DASHES|;
      DashAt(o, DASHES, d);
    }
  }

  /** Behind the end marker of a header line the line has no dashes, if the block goes on to the end of the text. */
  lemma NoDashesInHeader(s: string, i: nat, b: Block, e: nat, d: nat)
    requires i <= b.begin < b.body.from <= b.body.to == |s| && IsBody(s, i, b.begin, b.body)
    requires FirstFrom(s, b.begin, PEM_END, e) && e + |PEM_END| <= d && T.OccursAt(s, DASHES, d)
    ensures d + |DASHES| > b.body.from
  {
    hide PEM_BEGIN, PEM_END, DASHES, T.OccursAt;
    var x: nat :| FirstFrom(s, b.begin, PEM_END, x) && ClosesAt(s, x + |PEM_END|, b.body.to);
    assert x == e;
    DashesLength();
    if d + |DASHES| <= b.body.from {
      var y: nat :| FirstFrom(s, x + |PEM_END|, DASHES, y) && b.body.to == y + |DASHES|;
      DashAt(s, DASHES, y);
      DashAt(s, DASHES, d);
    }
  }

  /** In the output cut off behind the mark, the block of the header is the end of the text. */
  lemma ClosesWithText(s: string, i: nat, b: Block, head: string, e: nat, to: nat)
    requires HeaderOf(s, i, b, head) && EndIn(s, b.begin, b.body.from) && b.body.to == |s|
    requires FirstFrom(head + (PEM_MARK + ""), b.begin - i, PEM_END, e)
    requires ClosesAt(head + (PEM_MARK + ""), e + |PEM_END|, to)
    ensures to == |head| + 19
  {
    hide PEM_BEGIN, PEM_END, PEM_MARK, DASHES, T.OccursAt, IsBody;
    var o := head + (PEM_MARK + "");
    PemMarkShape();
    var x := FirstEnd(s, b.begin, b.body.from);
    MarkerInSlice(s, i, b.body.from, PEM_END, x - i);
    MarkerBefore(head, PEM_MARK + "", PEM_END, x - i);
    MarkerAround(head, "", PEM_END, e);
    ShortRest("", e - |head| - 19);
    MarkerInSlice(s, i, b.body.from, PEM_END, e);
    assert e == x - i;
    var after := e + |PEM_END|;
    if exists d: nat :: after <= d && T.OccursAt(o, DASHES, d) {
      var d: nat :| after <= d && T.OccursAt(o, DASHES, d);
      MarkerAround(head, "", DASHES, d);
      NoDashesAtAll("", d - |head| - 19);
      MarkerInSlice(s, i, b.body.from, DASHES, d);
      NoDashesInHeader(s, i, b, x, i + d);
    } else {
      NoDashesClose(o, after, to);
    }
  }

  lemma NoDashesClose(o: string, after: nat, to: nat)
    requires ClosesAt(o, after, to) && forall d: nat :: after <= d ==> !T.OccursAt(o, DASHES, d)
    ensures to == |o|
  {
    hide T.OccursAt, DASHES;
  }

  lemma NoDashesAtAll(rest: string, x: int)
    requires rest == ""
    ensures !T.OccursAt(rest, DASHES, x)
  {
    DashesLength();
  }

  /** The first end marker from an index on is no later than another. */
  lemma FirstEnd(s: string, i: nat, j: nat) returns (x: nat)
    requires EndIn(s, i, j)
    ensures FirstFrom(s, i, PEM_END, x) && x + |PEM_END| <= j
  {
    hide PEM_END, T.OccursAt;
    x :| i <= x && x + |PEM_END| <= j && T.OccursAt(s, PEM_END, x);
    while exists y: nat :: i <= y < x && T.OccursAt(s, PEM_END, y)
      invariant i <= x && x + |PEM_END| <= j && T.OccursAt(s, PEM_END, x)
      decreases x
    {
      var y: nat :| i <= y < x && T.OccursAt(s, PEM_END, y);
      x := y;
    }
  }

  /** A header line with an end marker, followed by the mark and nothing more, is left alone. */
  lemma FixedAtEnd(s: string, i: nat, b: Block, head: string)
    requires HeaderOf(s, i, b, head) && EndIn(s, b.begin, b.body.from) && b.body.to == |s| && Valid(head + (PEM_MARK + ""))
    ensures Fixed(head + (PEM_MARK + ""))
  {
    hide Valid, RedactPem, Bodies, PEM_BEGIN, PEM_END, PEM_MARK, T.OccursAt, HeaderOf, IsBody, AreBodies, Splice,
         BodyIsMark;
    var o := head + (PEM_MARK + "");
    PemIsSplice(o);
    var spans := Bodies(o, 0);
    OnlyBody(s, i, b, head, spans);
    PemFixedExactly(o);
  }

  lemma OnlyBody(s: string, i: nat, b: Block, head: string, spans: seq<Span>)
    requires HeaderOf(s, i, b, head) && EndIn(s, b.begin, b.body.from) && b.body.to == |s|
    requires AreBodies(head + (PEM_MARK + ""), 0, spans)
    ensures forall n :: 0 <= n < |spans| ==> BodyIsMark(head + (PEM_MARK + ""), spans[n])
  {
    hide PEM_BEGIN, PEM_END, PEM_MARK, T.OccursAt, HeaderOf, IsBody;
    var o := head + (PEM_MARK + "");
    if spans != [] {
      PemMarkShape();
      var begin: nat :| IsBody(o, 0, begin, spans[0]) && AreBodies(o, spans[0].to, spans[1..]);
      BodyBehindHeader(s, i, b, head, "", begin, spans[0]);
      BodyEnds(s, i, b, head, begin, spans[0]);
      NoBodyAtEnd(o, spans[1..]);
      assert o[|head|..|head| + 19] == PEM_MARK;
    }
  }

  lemma BodyEnds(s: string, i: nat, b: Block, head: string, begin: nat, span: Span)
    requires HeaderOf(s, i, b, head) && EndIn(s, b.begin, b.body.from) && b.body.to == |s|
    requires IsBody(head + (PEM_MARK + ""), 0, begin, span) && begin == b.begin - i
    ensures span.to == |head| + 19
  {
    hide PEM_BEGIN, PEM_END, PEM_MARK, T.OccursAt, HeaderOf, ClosesAt, BodyFrom;
    var o := head + (PEM_MARK + "");
    var e: nat :| FirstFrom(o, begin, PEM_END, e) && ClosesAt(o, e + |PEM_END|, span.to);
    HeaderIn(s, i, b, head);
    ClosesWithText(s, i, b, head, e, span.to);
  }

  lemma HeaderIn(s: string, i: nat, b: Block, head: string)
    requires HeaderOf(s, i, b, head)
    ensures i <= b.begin
  {
  }

  // ---------- The whole text ----------

  lemma WithHeader(s: string, i: nat, b: Block)
    requires Valid(s) && Boundary(s, i) && NextBlock(s, i) == Some(b) && b.body.from != b.begin
    ensures Boundary(s, b.body.to)
    ensures Fixed(Out(s, i)) <==> if EndIn(s, b.begin, b.body.from) then b.body.to == |s| else KeepsNoEnd(s, b.body.to)
  {
    hide Valid, RedactPem, Out, NextBlock, PEM_MARK, EndIn, HasEnd, PemPair, Fixed, KeepsNoEnd, IsBody, RedactPem;
    OutParts(s, i);
    NextBlockIs(s, i);
    OutIsOutput(s, i);
    EndsKept(s, b.body.to);
    var head, rest := s[i..b.body.from], Out(s, b.body.to);
    EmptyOut(s, b.body.to);
    if EndIn(s, b.begin, b.body.from) && rest == "" {
      FixedAtEnd(s, i, b, head);
    } else if EndIn(s, b.begin, b.body.from) || HasEnd(rest) {
      PairWithEnd(s, i, b, head, rest);
      if Fixed(Out(s, i)) {
        FixedEndsText(s, i, b, head, rest);
      }
    } else {
      NoPairWithoutEnd(s, i, b, head, rest);
      NoPairIsFixed(Out(s, i));
    }
  }

  lemma NoPairIsFixed(o: string)
    requires Valid(o) && !PemPair(o)
    ensures Fixed(o)
  {
    hide Valid, RedactPem, PemPair;
    NoPairNoBody(o);
  }

  lemma EmptyOut(s: string, i: nat)
    requires Valid(s) && Boundary(s, i)
    ensures Out(s, i) == "" <==> i == |s|
  {
    hide Valid, Out, NextBlock, PEM_MARK;
    PemMarkShape();
    OutParts(s, i);
    if NextBlock(s, i).Some? {
      NextBlockInside(s, i);
    }
  }

  lemma NextBlockInside(s: string, i: nat)
    requires Valid(s) && Boundary(s, i) && NextBlock(s, i).Some?
    ensures i < |s|
  {
    hide Valid, NextBlock;
    BoundaryInside(s, NextBlock(s, i).value.body.to);
  }

  lemma {:induction false} SettledOut(s: string, i: nat)
    requires Valid(s) && Boundary(s, i)
    ensures Fixed(Out(s, i)) <==> PemSettled(s, i)
    decreases |s| - i
  {
    hide Valid, NextBlock, Out, PEM_MARK, EndIn, KeepsNoEnd, Fixed, PemPair;
    OutParts(s, i);
    match NextBlock(s, i) {
      case None =>
        NextBlockIs(s, i);
        OutIsOutput(s, i);
        NoPairFrom(s, i);
        NoPairIsFixed(s[i..]);
      case Some(b) =>
        if b.body.from == b.begin {
          NoHeader(s, i, b);
          SettledOut(s, b.body.to);
        } else {
          WithHeader(s, i, b);
        }
    }
  }

  lemma NoPairFrom(s: string, i: nat)
    requires i <= |s|
    requires forall x, y :: i <= x <= y && T.OccursAt(s, PEM_BEGIN, x) ==> !T.OccursAt(s, PEM_END, y)
    ensures !PemPair(s[i..])
  {
    hide PEM_BEGIN, PEM_END, T.OccursAt;
    TailOccurs(s, i, PEM_BEGIN);
    TailOccurs(s, i, PEM_END);
    forall x: nat, y: nat | x <= y && T.OccursAt(s[i..], PEM_BEGIN, x)
      ensures !T.OccursAt(s[i..], PEM_END, y)
    {
      assert T.OccursAt(s, PEM_BEGIN, i + x) <==> T.OccursAt(s[i..], PEM_BEGIN, i + x - i);
      assert T.OccursAt(s, PEM_END, i + y) <==> T.OccursAt(s[i..], PEM_END, i + y - i);
    }
  }

  /**
   * A second PEM pass changes nothing if and only if, from the first header line that is kept on, no end marker is
   * kept behind a begin marker; or that header line holds one, and its block is the end of the text.
   */
  lemma SecondPassExactly(s: string)
    requires Valid(s)
    ensures Boundary(s, 0) && Valid(RedactPem(s))
    ensures RedactPem(RedactPem(s)) == RedactPem(s) <==> PemSettled(s, 0)
  {
    hide Valid, RedactPem, Out, PemSettled;
    OutOfAll(s);
    SettledOut(s, 0);
  }

  lemma OutOfAll(s: string)
    requires Valid(s)
    ensures Boundary(s, 0) && Out(s, 0) == RedactPem(s) && Valid(RedactPem(s))
  {
    hide Valid, RedactPem, Out;
    StartBoundary(s);
    PemValid(s);
    OutIsOutput(s, 0);
    assert s[0..] == s;
  }
}
