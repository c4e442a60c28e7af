/** The redaction of PEM blocks block by block, with the markers spelled out. */
module PemBlocks {
  import opened Wrappers
  import opened Utf8
  import opened Pem
  import opened HighEntropy
  import opened Patterns
  import T = Text

  /** The first end marker behind the begin marker is at `e`, and the block goes up to the dashes behind it. */
  ghost predicate BlockAt(s: string, b: nat, e: nat, to: nat) {
    && FirstFrom(s, 0, "-----BEGIN", b) && FirstFrom(s, b, "-----END", e)
    && ClosedBy(s, e + 8, to)
  }

  ghost predicate ClosedBy(s: string, after: nat, to: nat) {
    if exists d: nat :: FirstFrom(s, after, "-----", d) then to >= 5 && FirstFrom(s, after, "-----", to - 5)
    else to == |s|
  }

  /** All of the block, or what comes behind its first line break. */
  ghost predicate HiddenFrom(s: string, b: nat, to: nat, from: nat) {
    && to <= |s|
    && if exists k :: b <= k < to && s[k] == '\n'
       then b < from <= to && s[from - 1] == '\n' && forall k :: b <= k < from - 1 ==> s[k] != '\n'
       else from == b
  }

  lemma Markers()
    ensures PEM_BEGIN == "-----BEGIN" && PEM_END == "-----END" && DASHES == "-----" && PEM_MARK == "[REDACTED PEM BODY]"
    ensures |PEM_BEGIN| == 10 && |PEM_END| == 8 && |DASHES| == 5
  {
  }

  lemma FirstOnce(s: string, from: nat, w: string, j: nat, k: nat)
    requires FirstFrom(s, from, w, j) && FirstFrom(s, from, w, k)
    ensures j == k
  {
    hide T.OccursAt;
  }

  lemma FoundFirst(s: string, from: nat, w: string, k: nat)
    requires Valid(s) && Boundary(s, from) && AsciiText(w) && FirstFrom(s, from, w, k)
    ensures FindIn(s, from, w) == Some(k) && Boundary(s, k) && Boundary(s, k + |w|)
  {
    hide Valid, FindIn, T.OccursAt;
    var r := FindIn(s, from, w);
    assert r.Some?;
    FirstOnce(s, from, w, k, r.value);
  }

  lemma NotFound(s: string, from: nat, w: string)
    requires Valid(s) && Boundary(s, from) && AsciiText(w) && !exists k: nat :: FirstFrom(s, from, w, k)
    ensures FindIn(s, from, w) == None
  {
    hide Valid, FindIn, T.OccursAt;
    var r := FindIn(s, from, w);
    assert r.Some? ==> FirstFrom(s, from, w, r.value);
  }

  lemma BlockEnd(s: string, b: nat, e: nat, to: nat)
    requires Valid(s) && BlockAt(s, b, e, to) && AsciiText(PEM_BEGIN) && Boundary(s, 0)
    ensures b <= to && Boundary(s, b) && PemEnd(s, b) == Some(to) && FindIn(s, 0, PEM_BEGIN) == Some(b)
  {
    hide Valid, FindIn, FirstFrom, T.OccursAt, AsciiText, PEM_BEGIN, PEM_END, DASHES, PEM_MARK;
    DashesAreAscii();
    Markers();
    StartBoundary(s);
    FoundFirst(s, 0, PEM_BEGIN, b);
    FoundFirst(s, b, PEM_END, e);
    ClosedEnd(s, e + 8, to);
    EndsBehind(s, b, e);
  }

  lemma EndsBehind(s: string, b: nat, e: nat)
    requires FirstFrom(s, b, "-----END", e)
    ensures b <= e
  {
  }

  lemma ClosedEnd(s: string, after: nat, to: nat)
    requires Valid(s) && Boundary(s, after) && ClosedBy(s, after, to) && AsciiText(DASHES)
    ensures after <= to <= |s|
    ensures to == if FindIn(s, after, DASHES).Some? then FindIn(s, after, DASHES).value + 5 else |s|
  {
    hide Valid, FindIn, T.OccursAt, AsciiText, DASHES;
    Markers();
    if d: nat :| FirstFrom(s, after, "-----", d) {
      FirstOnce(s, after, "-----", d, to - 5);
      FoundFirst(s, after, DASHES, d);
    } else {
      NotFound(s, after, DASHES);
    }
    EndInside(s, after);
  }

  lemma EndInside(s: string, i: nat)
    requires Boundary(s, i)
    ensures i <= |s|
  {
  }

  lemma HeaderIs(s: string, b: nat, to: nat, from: nat)
    requires Valid(s) && b <= to && Boundary(s, b) && Boundary(s, to) && HiddenFrom(s, b, to, from)
    ensures HeaderEnd(s, b, to) == from
  {
    hide Valid;
    HeaderKept(s, b, to);
  }

  /**
   * A text with a block: what comes before the body is kept, the mark stands for the body, and the rest is redacted
   * in the same way.
   */
  lemma BlockRedacted(s: string, b: nat, e: nat, to: nat, from: nat)
    requires Valid(s) && BlockAt(s, b, e, to) && HiddenFrom(s, b, to, from)
    ensures from <= to <= |s| && Valid(s[to..])
    ensures RedactPem(s) == s[..from] + "[REDACTED PEM BODY]" + RedactPem(s[to..])
  {
    hide Valid, FindIn, PemEnd, HeaderEnd, RedactPem, BlockAt, HiddenFrom, AsciiText, PEM_BEGIN, PEM_END, DASHES, PEM_MARK;
    DashesAreAscii();
    Markers();
    StartBoundary(s);
    BlockEnd(s, b, e, to);
    HeaderIs(s, b, to, from);
    PemUnfold(s);
  }

  /** A text without a block is left alone. */
  lemma NoBlockKept(s: string)
    requires Valid(s) && forall b, e :: FirstFrom(s, 0, "-----BEGIN", b) ==> !FirstFrom(s, b, "-----END", e)
    ensures RedactPem(s) == s
  {
    hide Valid, FindIn, RedactPem, AsciiText, PEM_BEGIN, PEM_END, DASHES, PEM_MARK, FirstFrom;
    DashesAreAscii();
    Markers();
    StartBoundary(s);
    PemUnfold(s);
  }
}
