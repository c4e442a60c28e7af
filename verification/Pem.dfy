/** Redacting the bodies of PEM blocks. */
module Pem {
  import opened Wrappers
  import opened Utf8
  import opened Patterns
  import opened HighEntropy
  import T = Text

  const PEM_BEGIN: string := "-----BEGIN"
  const PEM_END: string := "-----END"
  const DASHES: string := "-----"
  const PEM_MARK: string := "[REDACTED PEM BODY]"

  lemma FoundAtBoundary(s: string, w: string, k: nat)
    requires Valid(s) && AsciiText(w) && T.OccursAt(s, w, k)
    ensures Boundary(s, k) && Boundary(s, k + |w|)
  {
    hide Valid;
    assert s[k..k + |w|][0] == s[k] && s[k..k + |w|][|w| - 1] == s[k + |w| - 1];
    AfterAscii(s, k + |w|);
  }

  /** `w` stands at `k` and nowhere from `from` up to there. */
  ghost predicate FirstFrom(s: string, from: nat, w: string, k: nat) {
    from <= k && T.OccursAt(s, w, k) && forall x :: from <= x < k ==> !T.OccursAt(s, w, x)
  }

  /** `s[from..].find(w)`, as an index of the text; the slice has to be at a boundary, and what is found is at one. */
  function FindIn(s: string, from: nat, w: string): (r: Option<nat>)
    requires Valid(s) && Boundary(s, from) && AsciiText(w)
    ensures r.Some? ==> FirstFrom(s, from, w, r.value) && Boundary(s, r.value) && Boundary(s, r.value + |w|)
    ensures r.None? ==> forall k :: from <= k ==> !T.OccursAt(s, w, k)
  {
    EndBoundary(s);
    FoundInTail(s, from, w);
    var r := T.Find(Slice(s, from, |s|), w);
    if r.Some? then Some(from + r.value) else None
  }

  lemma FoundInTail(s: string, from: nat, w: string)
    requires Valid(s) && from <= |s| && AsciiText(w)
    ensures var r := T.Find(s[from..], w);
            if r.Some? then FirstFrom(s, from, w, from + r.value) && Boundary(s, from + r.value)
                            && Boundary(s, from + r.value + |w|)
            else forall k :: from <= k ==> !T.OccursAt(s, w, k)
  {
    hide Valid, T.OccursAt, T.Find, T.FindFrom, AsciiText;
    TailOccurs(s, from, w);
    var r := T.Find(s[from..], w);
    if r.Some? {
      assert T.OccursAt(s, w, from + r.value);
      FoundAtBoundary(s, w, from + r.value);
    }
  }

  lemma TailOccurs(s: string, from: nat, w: string)
    requires from <= |s|
    ensures forall k :: from <= k ==> (T.OccursAt(s, w, k) <==> T.OccursAt(s[from..], w, k - from))
  {
    forall k | from <= k
      ensures T.OccursAt(s, w, k) <==> T.OccursAt(s[from..], w, k - from)
    {
      if k + |w| <= |s| {
        assert s[k..k + |w|] == s[from..][k - from..k - from + |w|];
      }
    }
  }

  lemma DashesAreAscii()
    ensures AsciiText(PEM_BEGIN) && AsciiText(PEM_END) && AsciiText(DASHES) && AsciiText("\n")
    ensures |PEM_END| > 0
  {
  }

  /** Where the block that starts at `begin` ends, if it has an end marker. */
  function PemEnd(s: string, begin: nat): (r: Option<nat>)
    requires Valid(s) && Boundary(s, begin)
    ensures r.Some? ==> begin < r.value && Boundary(s, r.value)
  {
    DashesAreAscii();
    EndBoundary(s);
    var end := FindIn(s, begin, PEM_END);
    if end.None? then None
    else
      var after := end.value + |PEM_END|;
      var dashes := FindIn(s, after, DASHES);
      Some(if dashes.Some? then dashes.value + |DASHES| else |s|)
  }

  /** The end of the header line of the block, which is kept if the block has a line break. */
  function HeaderEnd(s: string, begin: nat, end: nat): (h: nat)
    requires Valid(s) && begin <= end && Boundary(s, begin) && Boundary(s, end)
    ensures begin <= h <= end && Boundary(s, h)
  {
    DashesAreAscii();
    var line := T.Find(Slice(s, begin, end), "\n");
    if line.Some? then
      FoundInSlice(s, begin, end, line.value);
      begin + line.value + 1
    else begin
  }

  lemma FoundInSlice(s: string, begin: nat, end: nat, k: nat)
    requires Valid(s) && begin <= end <= |s| && T.OccursAt(s[begin..end], "\n", k)
    ensures begin + k < end && s[begin + k] == '\n' && Boundary(s, begin + k + 1)
  {
    hide Valid;
    assert s[begin..end][k..k + 1][0] == s[begin + k];
    AfterAscii(s, begin + k + 1);
  }

  /** The header line is kept exactly when a line break comes before the end of the block. */
  lemma HeaderKept(s: string, begin: nat, end: nat)
    requires Valid(s) && begin <= end && Boundary(s, begin) && Boundary(s, end)
    ensures HeaderEnd(s, begin, end) > begin <==> exists k :: begin <= k < end && s[k] == '\n'
    ensures var h := HeaderEnd(s, begin, end);
            h > begin ==> s[h - 1] == '\n' && forall k :: begin <= k < h - 1 ==> s[k] != '\n'
  {
    hide Valid, T.Find, T.FindFrom;
    var block := s[begin..end];
    DashesAreAscii();
    forall k | begin <= k < end
      ensures T.OccursAt(block, "\n", k - begin) <==> s[k] == '\n'
    {
      assert block[k - begin] == s[k];
      assert block[k - begin..k - begin + 1] == [block[k - begin]];
    }
    var line := T.Find(block, "\n");
    if line.Some? {
      FoundInSlice(s, begin, end, line.value);
    }
  }

  function RedactPem(s: string): (out: string)
    requires Valid(s)
    decreases |s|
  {
    DashesAreAscii();
    StartBoundary(s);
    EndBoundary(s);
    var begin := FindIn(s, 0, PEM_BEGIN);
    if begin.None? then s
    else
      var end := PemEnd(s, begin.value);
      if end.None? then s
      else
        ValidSplit(s, end.value);
        var headerEnd := HeaderEnd(s, begin.value, end.value);
        Slice(s, 0, headerEnd) + PEM_MARK + RedactPem(Slice(s, end.value, |s|))
  }

  /** The bodies of the blocks from `i` on. */
  function Bodies(s: string, i: nat): (spans: seq<Span>)
    requires Valid(s) && Boundary(s, i)
    decreases |s| - i
  {
    DashesAreAscii();
    var begin := FindIn(s, i, PEM_BEGIN);
    if begin.None? then []
    else
      var end := PemEnd(s, begin.value);
      if end.None? then []
      else [Span(HeaderEnd(s, begin.value, end.value), end.value)] + Bodies(s, end.value)
  }

  // ---------- What is hidden ----------

  /** The block that starts at `begin` ends at `to`: after the dashes that follow its end marker, or with the text. */
  ghost predicate EndsAt(s: string, begin: nat, to: nat) {
    exists e: nat :: FirstFrom(s, begin, PEM_END, e) && ClosesAt(s, e + |PEM_END|, to)
  }

  ghost predicate ClosesAt(s: string, after: nat, to: nat) {
    || (exists d: nat :: FirstFrom(s, after, DASHES, d) && to == d + |DASHES|)
    || (to == |s| && forall d :: after <= d ==> !T.OccursAt(s, DASHES, d))
  }

  /** The block's body: all of it, or what comes after its first line break. */
  ghost predicate BodyFrom(s: string, begin: nat, to: nat, from: nat)
    requires begin <= to <= |s|
  {
    if forall k :: begin <= k < to ==> s[k] != '\n' then from == begin
    else begin < from <= to && s[from - 1] == '\n' && forall k :: begin <= k < from - 1 ==> s[k] != '\n'
  }

  /** The spans are the bodies of the blocks from `i` on, one after the other, and no further block has an end. */
  ghost predicate AreBodies(s: string, i: nat, spans: seq<Span>)
    decreases |spans|
  {
    if spans == [] then forall b, e :: i <= b <= e && T.OccursAt(s, PEM_BEGIN, b) ==> !T.OccursAt(s, PEM_END, e)
    else exists b: nat :: IsBody(s, i, b, spans[0]) && AreBodies(s, spans[0].to, spans[1..])
  }

  ghost predicate IsBody(s: string, i: nat, begin: nat, span: Span) {
    && FirstFrom(s, i, PEM_BEGIN, begin) && begin <= span.to <= |s|
    && EndsAt(s, begin, span.to) && BodyFrom(s, begin, span.to, span.from)
  }

  lemma PemEndEnds(s: string, begin: nat)
    requires Valid(s) && Boundary(s, begin) && PemEnd(s, begin).Some?
    ensures EndsAt(s, begin, PemEnd(s, begin).value)
  {
    hide Valid, FindIn, FirstFrom, T.OccursAt, AsciiText;
    DashesAreAscii();
    var end := FindIn(s, begin, PEM_END).value;
    assert FirstFrom(s, begin, PEM_END, end);
  }

  lemma {:induction false} BodiesFrom(s: string, i: nat)
    requires Valid(s) && Boundary(s, i)
    ensures AreBodies(s, i, Bodies(s, i)) && Ordered(s, i, Bodies(s, i))
    decreases |s| - i
  {
    hide Valid, FindIn, EndsAt, HeaderEnd, PemEnd, AsciiText, PEM_BEGIN, PEM_END, DASHES, T.OccursAt;
    DashesAreAscii();
    BodiesUnfold(s, i);
    hide Bodies;
    var begin := FindIn(s, i, PEM_BEGIN);
    if begin.Some? {
      var end := PemEnd(s, begin.value);
      if end.Some? {
        BodiesFrom(s, end.value);
        PemEndEnds(s, begin.value);
        HeaderKept(s, begin.value, end.value);
        var span := Span(HeaderEnd(s, begin.value, end.value), end.value);
        assert IsBody(s, i, begin.value, span);
      } else {
        NoEnd(s, begin.value);
      }
    }
  }

  lemma BodiesUnfold(s: string, i: nat)
    requires Valid(s) && Boundary(s, i) && AsciiText(PEM_BEGIN)
    ensures var begin := FindIn(s, i, PEM_BEGIN);
            if begin.None? || PemEnd(s, begin.value).None? then Bodies(s, i) == []
            else
              var end := PemEnd(s, begin.value).value;
              && Bodies(s, i) != [] && Bodies(s, i)[1..] == Bodies(s, end)
              && Bodies(s, i)[0] == Span(HeaderEnd(s, begin.value, end), end)
  {
    hide Valid, FindIn, HeaderEnd, PemEnd, PEM_BEGIN;
  }

  lemma PemUnfold(s: string)
    requires Valid(s) && AsciiText(PEM_BEGIN) && Boundary(s, 0)
    ensures var begin := FindIn(s, 0, PEM_BEGIN);
            if begin.None? || PemEnd(s, begin.value).None? then RedactPem(s) == s
            else
              var end := PemEnd(s, begin.value).value;
              Valid(s[end..]) && RedactPem(s) == s[..HeaderEnd(s, begin.value, end)] + PEM_MARK + RedactPem(s[end..])
  {
    hide Valid, FindIn, HeaderEnd, PemEnd, PEM_BEGIN, PEM_MARK;
    var begin := FindIn(s, 0, PEM_BEGIN);
    if begin.Some? && PemEnd(s, begin.value).Some? {
      ValidSplit(s, PemEnd(s, begin.value).value);
    }
  }

  lemma NoEnd(s: string, begin: nat)
    requires Valid(s) && Boundary(s, begin) && PemEnd(s, begin).None?
    ensures forall e :: begin <= e ==> !T.OccursAt(s, PEM_END, e)
  {
    hide Valid, T.OccursAt;
  }

  // ---------- The rewriter hides it ----------

  lemma FindShift(s: string, i: nat, from: nat, w: string)
    requires Valid(s) && Boundary(s, i) && i <= from && Boundary(s, from) && AsciiText(w) && Valid(s[i..])
    ensures Boundary(s[i..], from - i)
    ensures var r, q := FindIn(s, from, w), FindIn(s[i..], from - i, w);
            if r.Some? then q == Some(r.value - i) else q == None
  {
    hide Valid, AsciiText;
    assert s[i..][from - i..] == s[from..];
  }

  lemma PemEndShift(s: string, i: nat, begin: nat)
    requires Valid(s) && Boundary(s, i) && i <= begin && Boundary(s, begin) && Valid(s[i..])
    ensures Boundary(s[i..], begin - i)
    ensures var r, q := PemEnd(s, begin), PemEnd(s[i..], begin - i);
            if r.Some? then q == Some(r.value - i) else q == None
  {
    hide Valid, AsciiText, FindIn;
    DashesAreAscii();
    FindShift(s, i, begin, PEM_END);
    var end := FindIn(s, begin, PEM_END);
    if end.Some? {
      FindShift(s, i, end.value + |PEM_END|, DASHES);
    }
  }

  lemma HeaderShift(s: string, i: nat, begin: nat, end: nat)
    requires Valid(s) && Boundary(s, i) && i <= begin <= end && Boundary(s, begin) && Boundary(s, end) && Valid(s[i..])
    ensures Boundary(s[i..], begin - i) && Boundary(s[i..], end - i)
    ensures HeaderEnd(s[i..], begin - i, end - i) == HeaderEnd(s, begin, end) - i
  {
    hide Valid;
    assert s[i..][begin - i..end - i] == s[begin..end];
  }

  /** From any boundary on, the rewriter replaces exactly these bodies and copies everything between them. */
  lemma OneBody(mark: string, s: string, i: nat, spans: seq<Span>, rest: string)
    requires spans != [] && Ordered(s, i, spans) && rest == Splice(mark, s, spans[0].to, spans[1..])
    ensures i <= spans[0].from <= spans[0].to <= |s|
    ensures Splice(mark, s, i, spans) == s[i..spans[0].from] + mark + rest
  {
  }

  lemma {:induction false} PemFrom(s: string, i: nat)
    requires Valid(s) && Boundary(s, i)
    ensures Valid(s[i..]) && RedactPem(s[i..]) == Splice(PEM_MARK, s, i, Bodies(s, i))
    decreases |s| - i
  {
    hide Valid, FindIn, HeaderEnd, PemEnd, AsciiText, PEM_BEGIN, PEM_END, DASHES, PEM_MARK, T.OccursAt, Bodies,
         RedactPem, Splice, Ordered;
    DashesAreAscii();
    ValidSplit(s, i);
    StartBoundary(s[i..]);
    FindShift(s, i, i, PEM_BEGIN);
    PemUnfold(s[i..]);
    BodiesUnfold(s, i);
    var begin := FindIn(s, i, PEM_BEGIN);
    if begin.Some? {
      PemEndShift(s, i, begin.value);
      var end := PemEnd(s, begin.value);
      if end.Some? {
        HeaderShift(s, i, begin.value, end.value);
        var h := HeaderEnd(s, begin.value, end.value);
        PemFrom(s, end.value);
        BodiesFrom(s, i);
        OneBody(PEM_MARK, s, i, Bodies(s, i), RedactPem(s[end.value..]));
        assert s[i..][..h - i] == s[i..h] && s[i..][end.value - i..] == s[end.value..];
      } else {
        NoBody(PEM_MARK, s, i);
      }
    } else {
      NoBody(PEM_MARK, s, i);
    }
  }

  lemma NoBody(mark: string, s: string, i: nat)
    requires i <= |s|
    ensures Splice(mark, s, i, []) == s[i..]
  {
  }

  /**
   * The rewriter hides the body of every block that has an end marker, each from the end of its header line to the
   * end of the block, and copies the rest.
   */
  lemma PemIsSplice(s: string)
    requires Valid(s)
    ensures Boundary(s, 0) && RedactPem(s) == Splice(PEM_MARK, s, 0, Bodies(s, 0))
    ensures Ordered(s, 0, Bodies(s, 0)) && AreBodies(s, 0, Bodies(s, 0))
  {
    hide Valid, RedactPem, Bodies, Splice, AreBodies;
    StartBoundary(s);
    PemFrom(s, 0);
    BodiesFrom(s, 0);
    assert s[0..] == s;
  }

  lemma {:induction false} PemValid(s: string)
    requires Valid(s)
    ensures Valid(RedactPem(s))
    decreases |s|
  {
    hide Valid, FindIn, PemEnd, HeaderEnd, PEM_BEGIN, PEM_END, DASHES, AsciiText;
    DashesAreAscii();
    StartBoundary(s);
    EndBoundary(s);
    var begin := FindIn(s, 0, PEM_BEGIN);
    if begin.Some? && PemEnd(s, begin.value).Some? {
      var end := PemEnd(s, begin.value).value;
      var h := HeaderEnd(s, begin.value, end);
      ValidSplit(s, end);
      ValidSplit(s, h);
      PemValid(s[end..]);
      MarkIsValid();
      hide RedactPem, PEM_MARK;
      ValidConcat(s[..h], PEM_MARK);
      ValidConcat(s[..h] + PEM_MARK, RedactPem(s[end..]));
    }
  }

  lemma MarkIsValid()
    ensures Valid(PEM_MARK)
  {
    hide Valid;
    AsciiValid(PEM_MARK);
  }
}
