/** Installing, upgrading, moving and removing the hook: what is inverse to what, and what text is kept. */
module ShellHookLaws {
  import opened Wrappers
  import opened ShellHook
  import T = Text

  // ---------- What is asked of the generated lines, and of the profile ----------

  ghost predicate Free(text: string, marker: string) {
    forall k :: !T.OccursAt(text, marker, k)
  }

  /**
   * The lines between the markers hold no marker text, and what marks a block as up to date is in them. The generated
   * lines are so whenever the shims path is free of marker text.
   */
  ghost predicate BodyClear(shell: Shell, body: string) {
    && (forall k :: T.OccursAt(Block(shell, body), StartMarker(shell), k) ==> k == 0)
    && (forall k :: T.OccursAt(Block(shell, body), EndMarker(shell), k) ==> k == |StartMarker(shell)| + 1 + |body|)
    && IsIndestructible(shell, Block(shell, body))
  }

  /** The start of a line. */
  predicate LineStart(text: string) {
    text == "" || text[|text| - 1] == '\n'
  }

  ghost predicate FreeOfMarkers(shell: Shell, text: string) {
    Free(text, StartMarker(shell)) && Free(text, EndMarker(shell))
  }

  lemma MarkersAreLines(shell: Shell)
    ensures StartMarker(shell) != "" && EndMarker(shell) != ""
    ensures '\n' !in StartMarker(shell) && '\n' !in EndMarker(shell)
  {
    StartsAreLines();
    EndsAreLines();
    hide MARKER_START, MARKER_END, CMD_MARKER_START, CMD_MARKER_END;
  }

  lemma StartsAreLines()
    ensures MARKER_START != "" && CMD_MARKER_START != ""
    ensures '\n' !in MARKER_START && '\n' !in CMD_MARKER_START
  {
  }

  lemma EndsAreLines()
    ensures MARKER_END != "" && CMD_MARKER_END != ""
    ensures '\n' !in MARKER_END && '\n' !in CMD_MARKER_END
  {
  }

  // ---------- Searching across lines ----------

  lemma OccursIn(text: string, marker: string, k: int, x: int)
    requires T.OccursAt(text, marker, k) && k <= x < k + |marker|
    ensures text[x] in marker
  {
    assert text[x] == text[k..k + |marker|][x - k];
  }

  lemma OccursLeft(u: string, v: string, marker: string, k: int)
    requires k + |marker| <= |u|
    ensures T.OccursAt(u + v, marker, k) <==> T.OccursAt(u, marker, k)
  {
    if 0 <= k {
      assert (u + v)[k..k + |marker|] == u[k..k + |marker|];
    }
  }

  lemma OccursRight(u: string, v: string, marker: string, k: int)
    requires k >= |u|
    ensures T.OccursAt(u + v, marker, k) <==> T.OccursAt(v, marker, k - |u|)
  {
    if k + |marker| <= |u| + |v| {
      assert (u + v)[k..k + |marker|] == v[k - |u|..k - |u| + |marker|];
    }
  }

  /** A one-line text is on one side of a line break. */
  lemma OccursByLine(u: string, v: string, marker: string, k: int)
    requires LineStart(u) && '\n' !in marker && marker != "" && T.OccursAt(u + v, marker, k)
    ensures T.OccursAt(u, marker, k) || (k >= |u| && T.OccursAt(v, marker, k - |u|))
  {
    if k >= |u| {
      OccursRight(u, v, marker, k);
    } else {
      if k + |marker| > |u| {
        OccursIn(u + v, marker, k, |u| - 1);
      }
      OccursLeft(u, v, marker, k);
    }
  }

  /** Where a marker stands in a profile with a hook: nowhere before it, once in it. */
  lemma OccursAroundHook(pre: string, hook: string, post: string, marker: string, at: nat, k: int)
    requires LineStart(pre) && LineStart(hook) && '\n' !in marker && marker != ""
    requires Free(pre, marker) && (forall j :: T.OccursAt(hook, marker, j) ==> j == at)
    requires T.OccursAt(pre + (hook + post), marker, k)
    ensures k == |pre| + at || (k >= |pre| + |hook| && T.OccursAt(post, marker, k - |pre| - |hook|))
  {
    OccursByLine(pre, hook + post, marker, k);
    assert !T.OccursAt(pre, marker, k);
    OccursByLine(hook, post, marker, k - |pre|);
  }

  lemma MarkerOnLine(block: string, marker: string, k: int)
    requires '\n' !in marker && marker != "" && T.OccursAt(block + "\n", marker, k)
    ensures T.OccursAt(block, marker, k)
  {
    if k + |marker| > |block| {
      OccursIn(block + "\n", marker, k, |block|);
    }
    OccursLeft(block, "\n", marker, k);
  }

  lemma HookOccurs(shell: Shell, body: string)
    ensures T.OccursAt(Hook(shell, body), StartMarker(shell), 0)
    ensures T.OccursAt(Hook(shell, body), EndMarker(shell), |StartMarker(shell)| + 1 + |body|)
  {
    hide StartMarker, EndMarker;
    var h, s, e := Hook(shell, body), StartMarker(shell), EndMarker(shell);
    var n := |s| + 1 + |body|;
    assert h[0..|s|] == s;
    assert h[n..n + |e|] == e;
  }

  /** The profile around a hook. */
  function Around(shell: Shell, pre: string, body: string, post: string): string {
    pre + (Hook(shell, body) + post)
  }

  /** Both searches find the markers of the hook, and the end-marker line ends where the hook does. */
  lemma HookIsFound(shell: Shell, pre: string, body: string, post: string)
    requires LineStart(pre) && FreeOfMarkers(shell, pre) && BodyClear(shell, body)
    ensures var text, n := Around(shell, pre, body, post), |StartMarker(shell)| + 1 + |body|;
            && T.Find(text, StartMarker(shell)) == Some(|pre|)
            && T.Find(text, EndMarker(shell)) == Some(|pre| + n)
            && |pre| + n + |EndMarker(shell)| <= |text|
            && LineEnd(text, |pre| + n + |EndMarker(shell)|) == |pre| + |Hook(shell, body)|
  {
    hide StartMarker, EndMarker, BodyClear, LineEnd, T.Find, Hook, Block;
    var h, s, e := Hook(shell, body), StartMarker(shell), EndMarker(shell);
    var n, text := |s| + 1 + |body|, Around(shell, pre, body, post);
    MarkersAreLines(shell);
    HookOccurs(shell, body);
    OnlyInHook(shell, body);
    AroundParts(shell, pre, body, post);
    FirstInAround(pre, h, post, s, 0);
    FirstInAround(pre, h, post, e, n);
    T.FindIs(text, s, |pre|);
    T.FindIs(text, e, |pre| + n);
    NewlineFound(text, |pre| + n + |e|);
  }

  lemma FirstInAround(pre: string, hook: string, post: string, marker: string, at: nat)
    requires LineStart(pre) && LineStart(hook) && '\n' !in marker && marker != ""
    requires Free(pre, marker) && T.OccursAt(hook, marker, at)
    requires forall j :: T.OccursAt(hook, marker, j) ==> j == at
    ensures T.OccursAt(pre + (hook + post), marker, |pre| + at)
    ensures forall k :: T.OccursAt(pre + (hook + post), marker, k) ==> k >= |pre| + at
  {
    OccursInAround(pre, hook, post, marker, at);
    forall k | T.OccursAt(pre + (hook + post), marker, k)
      ensures k >= |pre| + at
    {
      OccursAroundHook(pre, hook, post, marker, at, k);
    }
  }

  lemma OccursInAround(pre: string, hook: string, post: string, marker: string, at: nat)
    requires T.OccursAt(hook, marker, at)
    ensures T.OccursAt(pre + (hook + post), marker, |pre| + at)
  {
    OccursLeft(hook, post, marker, at);
    OccursRight(pre, hook + post, marker, |pre| + at);
  }

  lemma OnlyInHook(shell: Shell, body: string)
    requires BodyClear(shell, body)
    ensures LineStart(Hook(shell, body))
    ensures forall k :: T.OccursAt(Hook(shell, body), StartMarker(shell), k) ==> k == 0
    ensures forall k :: T.OccursAt(Hook(shell, body), EndMarker(shell), k) ==> k == |StartMarker(shell)| + 1 + |body|
  {
    MarkersAreLines(shell);
    hide StartMarker, EndMarker, IsIndestructible;
    forall k | T.OccursAt(Hook(shell, body), StartMarker(shell), k)
      ensures k == 0
    {
      MarkerOnLine(Block(shell, body), StartMarker(shell), k);
    }
    forall k | T.OccursAt(Hook(shell, body), EndMarker(shell), k)
      ensures k == |StartMarker(shell)| + 1 + |body|
    {
      MarkerOnLine(Block(shell, body), EndMarker(shell), k);
    }
  }

  lemma NewlineFound(text: string, from: nat)
    requires from < |text| && text[from] == '\n'
    ensures LineEnd(text, from) == from + 1
  {
    var rest := text[from..];
    assert rest[0..1] == "\n";
    assert T.OccursAt(rest, "\n", 0);
  }

  // ---------- What the operations do to a profile with a hook ----------

  /**
   * In a profile with an up-to-date hook at a line start: removing it leaves the rest; installing again changes
   * nothing unless forced; and a forced install moves it to the end and keeps the rest in order.
   */
  lemma HookOperations(shell: Shell, pre: string, body: string, post: string)
    requires LineStart(pre) && FreeOfMarkers(shell, pre) && BodyClear(shell, body)
    ensures UninstallText(shell, Around(shell, pre, body, post)) == Written(pre + post)
    ensures InstallText(shell, body, Around(shell, pre, body, post), false) == Unchanged
    ensures InstallText(shell, body, Around(shell, pre, body, post), true)
         == Written(WithNewline(pre + post) + Hook(shell, body))
  {
    hide StartMarker, EndMarker, LineEnd, T.Find, Hook, Block, Around, IsIndestructible, WithNewline;
    HookIsFound(shell, pre, body, post);
    AroundParts(shell, pre, body, post);
  }

  lemma AroundParts(shell: Shell, pre: string, body: string, post: string)
    ensures var text, n := Around(shell, pre, body, post), |pre| + |Block(shell, body)|;
            && n + 1 == |pre| + |Hook(shell, body)| <= |text|
            && text[..|pre|] == pre && text[|pre|..n] == Block(shell, body) && text[n + 1..] == post && text[n] == '\n'
    ensures |pre| + (|StartMarker(shell)| + 1 + |body|) + |EndMarker(shell)| == |pre| + |Block(shell, body)|
  {
    hide StartMarker, EndMarker;
    var text, n := Around(shell, pre, body, post), |pre| + |Block(shell, body)|;
    assert text[|pre|..n] == Block(shell, body);
    assert text[n + 1..] == post;
  }

  /** Uninstall undoes install on a profile without markers, up to a final newline. */
  lemma UninstallUndoesInstall(shell: Shell, body: string, text: string, force: bool)
    requires FreeOfMarkers(shell, text) && BodyClear(shell, body)
    ensures WithNewline(text) == if LineStart(text) then text else text + "\n"
    ensures InstallText(shell, body, text, force) == Written(WithNewline(text) + Hook(shell, body))
    ensures UninstallText(shell, WithNewline(text) + Hook(shell, body)) == Written(WithNewline(text))
  {
    hide StartMarker, EndMarker, Hook, UninstallText, BodyClear, T.Find, IsIndestructible, LineEnd;
    LineStarts(text);
    hide WithNewline;
    NewlineKeepsFree(shell, text);
    HookOperations(shell, WithNewline(text), body, "");
    FindNothing(shell, text);
    assert Around(shell, WithNewline(text), body, "") == WithNewline(text) + Hook(shell, body);
    assert WithNewline(text) + "" == WithNewline(text);
  }

  lemma LineStarts(text: string)
    ensures WithNewline(text) == if LineStart(text) then text else text + "\n"
  {
  }

  lemma FindNothing(shell: Shell, text: string)
    requires FreeOfMarkers(shell, text)
    ensures T.Find(text, StartMarker(shell)).None? && T.Find(text, EndMarker(shell)).None?
  {
    hide StartMarker, EndMarker;
  }

  lemma NewlineKeepsFree(shell: Shell, text: string)
    requires FreeOfMarkers(shell, text)
    ensures FreeOfMarkers(shell, WithNewline(text)) && LineStart(WithNewline(text))
  {
    hide StartMarker, EndMarker;
    MarkersAreLines(shell);
    NewlineAddsNone(text, StartMarker(shell));
    NewlineAddsNone(text, EndMarker(shell));
  }

  // ---------- When the round trip fails ----------

  /** With a stray start marker, removing the hook also removes the text after the marker. */
  lemma StrayStartLosesText(shell: Shell, body: string, text: string)
    requires BodyClear(shell, body) && Free(text, EndMarker(shell)) && !Free(text, StartMarker(shell))
    ensures UninstallText(shell, WithNewline(text) + Hook(shell, body)) != Written(WithNewline(text))
  {
    hide StartMarker, EndMarker, BodyClear, T.Find, Hook, IsIndestructible, LineEnd;
    var base, h, s := WithNewline(text), Hook(shell, body), StartMarker(shell);
    var all := base + h;
    MarkersAreLines(shell);
    var k :| T.OccursAt(text, s, k);
    OccursLeft(text, all[|text|..], s, k);
    assert all == text + all[|text|..];
    var a := T.Find(all, s);
    assert a.Some? && a.value <= k;
    EndIsInHook(shell, body, text);
  }

  /** With a stray end marker, it copies text instead. */
  lemma StrayEndCopiesText(shell: Shell, body: string, text: string)
    requires BodyClear(shell, body) && Free(text, StartMarker(shell)) && !Free(text, EndMarker(shell))
    ensures UninstallText(shell, WithNewline(text) + Hook(shell, body)) != Written(WithNewline(text))
  {
    hide StartMarker, EndMarker, BodyClear, T.Find, Hook, IsIndestructible, LineEnd;
    var base, h, e := WithNewline(text), Hook(shell, body), EndMarker(shell);
    var all := base + h;
    MarkersAreLines(shell);
    var k :| T.OccursAt(text, e, k);
    OccursLeft(text, all[|text|..], e, k);
    assert all == text + all[|text|..];
    var b := T.Find(all, e);
    assert b.Some? && b.value <= k;
    var after := b.value + |e|;
    StopsBefore(all, e, b.value, |base| - 1);
    LineEndBefore(all, after, |base|);
    StartIsInHook(shell, body, text);
  }

  lemma LineEndBefore(text: string, from: nat, to: nat)
    requires from < to <= |text| && text[to - 1] == '\n'
    ensures LineEnd(text, from) <= to
  {
    var rest := text[from..];
    assert rest[to - 1 - from..to - from] == "\n";
    assert T.OccursAt(rest, "\n", to - 1 - from);
  }

  lemma StopsBefore(text: string, marker: string, k: nat, p: nat)
    requires T.OccursAt(text, marker, k) && k <= p < |text| && text[p] !in marker
    ensures k + |marker| <= p
  {
    forall x | k <= x < k + |marker|
      ensures text[x] in marker
    {
      OccursIn(text, marker, k, x);
    }
  }

  lemma NewlineAddsNone(text: string, marker: string)
    requires Free(text, marker) && marker != "" && '\n' !in marker
    ensures Free(WithNewline(text), marker) && LineStart(WithNewline(text))
  {
    forall k
      ensures T.OccursAt(text + "\n", marker, k) ==> T.OccursAt(text, marker, k)
    {
      if T.OccursAt(text + "\n", marker, k) {
        MarkerOnLine(text, marker, k);
      }
    }
  }

  lemma StartIsInHook(shell: Shell, body: string, text: string)
    requires BodyClear(shell, body) && Free(text, StartMarker(shell))
    ensures T.Find(WithNewline(text) + Hook(shell, body), StartMarker(shell)) == Some(|WithNewline(text)|)
    ensures |Hook(shell, body)| > 0
  {
    hide StartMarker, EndMarker, BodyClear, T.Find, IsIndestructible, LineEnd, WithNewline, Block;
    var base, h, s := WithNewline(text), Hook(shell, body), StartMarker(shell);
    MarkersAreLines(shell);
    HookOccurs(shell, body);
    OnlyInHook(shell, body);
    NewlineAddsNone(text, s);
    FirstInAround(base, h, "", s, 0);
    assert base + (h + "") == base + h;
    T.FindIs(base + h, s, |base|);
  }

  lemma {:induction false} EndIsInHook(shell: Shell, body: string, text: string)
    requires BodyClear(shell, body) && Free(text, EndMarker(shell))
    ensures var all, base := WithNewline(text) + Hook(shell, body), WithNewline(text);
            && T.Find(all, EndMarker(shell)).Some?
            && T.Find(all, EndMarker(shell)).value + |EndMarker(shell)| <= |all|
            && LineEnd(all, T.Find(all, EndMarker(shell)).value + |EndMarker(shell)|) == |all|
  {
    hide StartMarker, EndMarker, BodyClear, T.Find, IsIndestructible, LineEnd, WithNewline, Hook, Block;
    var base, h, e := WithNewline(text), Hook(shell, body), EndMarker(shell);
    var n := |StartMarker(shell)| + 1 + |body|;
    MarkersAreLines(shell);
    HookOccurs(shell, body);
    OnlyInHook(shell, body);
    NewlineAddsNone(text, e);
    FirstInAround(base, h, "", e, n);
    assert base + (h + "") == base + h;
    T.FindIs(base + h, e, |base| + n);
    HookLineEnd(shell, base, body);
  }

  lemma HookLineEnd(shell: Shell, base: string, body: string)
    ensures var all, from := base + Hook(shell, body), |base| + (|StartMarker(shell)| + 1 + |body|) + |EndMarker(shell)|;
            from <= |all| && LineEnd(all, from) == |all|
  {
    hide StartMarker, EndMarker, LineEnd;
    var all, from := base + Hook(shell, body), |base| + (|StartMarker(shell)| + 1 + |body|) + |EndMarker(shell)|;
    assert from == |all| - 1 && all[from] == '\n';
    NewlineFound(all, from);
  }

  /**
   * On a profile that does not hold both markers, uninstall undoes install exactly when it holds neither.
   */
  lemma RoundTripExactly(shell: Shell, body: string, text: string, force: bool)
    requires BodyClear(shell, body) && !Installed(shell, text)
    ensures InstallText(shell, body, text, force) == Written(WithNewline(text) + Hook(shell, body))
    ensures UninstallText(shell, WithNewline(text) + Hook(shell, body)) == Written(WithNewline(text))
            <==> FreeOfMarkers(shell, text)
  {
    hide StartMarker, EndMarker, BodyClear, Hook, IsIndestructible, LineEnd, UninstallText, WithNewline;
    if FreeOfMarkers(shell, text) {
      UninstallUndoesInstall(shell, body, text, force);
    } else if Free(text, StartMarker(shell)) {
      StrayEndCopiesText(shell, body, text);
    } else {
      assert T.Find(text, StartMarker(shell)).Some?;
      assert Free(text, EndMarker(shell));
      StrayStartLosesText(shell, body, text);
    }
  }

  // ---------- A profile with one block, of any age ----------

  /** The text before the block, and the text after its last line. */
  function Before(shell: Shell, text: string): string
    requires Installed(shell, text)
  {
    text[..T.Find(text, StartMarker(shell)).value]
  }

  function After(shell: Shell, text: string): string
    requires Installed(shell, text)
  {
    text[LineEnd(text, T.Find(text, EndMarker(shell)).value + |EndMarker(shell)|)..]
  }

  /** One block that starts a line, closed after it opens, with no marker after its last line. */
  ghost predicate OneBlock(shell: Shell, text: string) {
    && Installed(shell, text)
    && T.Find(text, StartMarker(shell)).value <= T.Find(text, EndMarker(shell)).value
    && LineStart(Before(shell, text))
    && FreeOfMarkers(shell, After(shell, text))
  }

  lemma PrefixFree(text: string, marker: string, a: nat)
    requires a <= |text| && forall k :: 0 <= k < a ==> !T.OccursAt(text, marker, k)
    requires marker != ""
    ensures Free(text[..a], marker)
  {
    assert text == text[..a] + text[a..];
    forall k
      ensures !T.OccursAt(text[..a], marker, k)
    {
      if k + |marker| <= a {
        OccursLeft(text[..a], text[a..], marker, k);
      }
    }
  }

  lemma {:induction false} BeforeIsFree(shell: Shell, text: string)
    requires OneBlock(shell, text)
    ensures FreeOfMarkers(shell, Before(shell, text))
  {
    hide StartMarker, EndMarker, T.Find, LineEnd;
    MarkersAreLines(shell);
    var a := T.Find(text, StartMarker(shell)).value;
    PrefixFree(text, StartMarker(shell), a);
    PrefixFree(text, EndMarker(shell), a);
  }

  lemma {:induction false} RestIsFree(shell: Shell, pre: string, post: string)
    requires LineStart(pre) && FreeOfMarkers(shell, pre) && FreeOfMarkers(shell, post)
    ensures FreeOfMarkers(shell, pre + post)
  {
    hide StartMarker, EndMarker;
    MarkersAreLines(shell);
    forall k
      ensures !T.OccursAt(pre + post, StartMarker(shell), k) && !T.OccursAt(pre + post, EndMarker(shell), k)
    {
      if T.OccursAt(pre + post, StartMarker(shell), k) {
        OccursByLine(pre, post, StartMarker(shell), k);
      }
      if T.OccursAt(pre + post, EndMarker(shell), k) {
        OccursByLine(pre, post, EndMarker(shell), k);
      }
    }
  }

  /**
   * A forced install keeps the text around the block in order and leaves one hook, strictly last; then neither an
   * install nor a forced install changes anything, and uninstall leaves the text that was kept.
   */
  lemma ForcedInstallMovesToEnd(shell: Shell, body: string, text: string)
    requires OneBlock(shell, text) && BodyClear(shell, body)
    ensures var kept := WithNewline(Before(shell, text) + After(shell, text));
            var moved := kept + Hook(shell, body);
            && InstallText(shell, body, text, true) == Written(moved)
            && (forall k :: T.OccursAt(moved, StartMarker(shell), k) <==> k == |kept|)
            && (forall k :: T.OccursAt(moved, EndMarker(shell), k) <==> k == |kept| + |StartMarker(shell)| + 1 + |body|)
            && InstallText(shell, body, moved, false) == Unchanged
            && InstallText(shell, body, moved, true) == Written(moved)
            && UninstallText(shell, moved) == Written(kept)
  {
    hide StartMarker, EndMarker, T.Find, LineEnd, Hook, BodyClear, IsIndestructible, WithNewline;
    var rest := Before(shell, text) + After(shell, text);
    var kept := WithNewline(rest);
    BeforeIsFree(shell, text);
    RestIsFree(shell, Before(shell, text), After(shell, text));
    NewlineKeepsFree(shell, rest);
    AtEnd(shell, body, kept);
    NewlineTwice(rest);
  }

  lemma NewlineTwice(text: string)
    ensures WithNewline(WithNewline(text)) == WithNewline(text)
  {
  }

  lemma AtEnd(shell: Shell, body: string, kept: string)
    requires LineStart(kept) && FreeOfMarkers(shell, kept) && BodyClear(shell, body)
    ensures var moved := kept + Hook(shell, body);
            && (forall k :: T.OccursAt(moved, StartMarker(shell), k) <==> k == |kept|)
            && (forall k :: T.OccursAt(moved, EndMarker(shell), k) <==> k == |kept| + |StartMarker(shell)| + 1 + |body|)
            && InstallText(shell, body, moved, false) == Unchanged
            && InstallText(shell, body, moved, true) == Written(WithNewline(kept) + Hook(shell, body))
            && UninstallText(shell, moved) == Written(kept)
  {
    hide StartMarker, EndMarker, T.Find, LineEnd, Hook, BodyClear, IsIndestructible, WithNewline, InstallText,
         UninstallText;
    var h, s := Hook(shell, body), StartMarker(shell);
    HookOperations(shell, kept, body, "");
    assert kept + (h + "") == kept + h && kept + "" == kept;
    MarkersAreLines(shell);
    HookOccurs(shell, body);
    OnlyInHook(shell, body);
    OnceAtEnd(kept, h, s, 0);
    OnceAtEnd(kept, h, EndMarker(shell), |s| + 1 + |body|);
  }

  /** A marker that stands once in the hook and not before it stands once in all. */
  lemma OnceAtEnd(kept: string, hook: string, marker: string, at: nat)
    requires LineStart(kept) && LineStart(hook) && '\n' !in marker && marker != "" && Free(kept, marker)
    requires T.OccursAt(hook, marker, at) && forall j :: T.OccursAt(hook, marker, j) ==> j == at
    ensures forall k :: T.OccursAt(kept + hook, marker, k) <==> k == |kept| + at
  {
    hide T.OccursAt;
    assert kept + (hook + "") == kept + hook;
    FirstInAround(kept, hook, "", marker, at);
    forall k | T.OccursAt(kept + hook, marker, k)
      ensures k == |kept| + at
    {
      OccursAroundHook(kept, hook, "", marker, at, k);
      OccursNowhere(marker, k - |kept| - |hook|);
    }
  }

  lemma OccursNowhere(marker: string, k: int)
    requires marker != ""
    ensures !T.OccursAt("", marker, k)
  {
  }

  // ---------- When an unforced install upgrades ----------

  /** From the first start marker to the end of the first end marker. */
  function BlockOf(shell: Shell, text: string): string
    requires Installed(shell, text)
    requires T.Find(text, StartMarker(shell)).value <= T.Find(text, EndMarker(shell)).value + |EndMarker(shell)|
  {
    text[T.Find(text, StartMarker(shell)).value..T.Find(text, EndMarker(shell)).value + |EndMarker(shell)|]
  }

  /** The words by which a block is up to date. */
  ghost predicate UpToDate(shell: Shell, block: string) {
    match shell
    case Bash => T.Contains(block, "_vetto_clean_path")
    case Zsh => T.Contains(block, "_vetto_clean_path")
    case Fish => T.Contains(block, "contains -i") || T.Contains(block, "set -e PATH")
    case PowerShell => T.Contains(block, "Where-Object")
    case Cmd => T.Contains(block, "%PATH%")
  }

  lemma NeedleFound(block: string, needle: string)
    ensures T.Find(block, needle).Some? <==> T.Contains(block, needle)
  {
    hide T.OccursAt, T.FindFrom;
  }

  lemma NeedlesAreWords(shell: Shell, block: string)
    ensures IsIndestructible(shell, block) <==> UpToDate(shell, block)
  {
    hide T.Find, T.Contains;
    var needles := Needles(shell);
    NeedleFound(block, needles[0]);
    if shell.Fish? {
      assert |needles| == 2;
      NeedleFound(block, needles[1]);
    } else {
      assert |needles| == 1;
    }
  }

  /** An unforced install leaves a profile with both markers alone exactly when the block has the words for its shell. */
  lemma UnchangedExactly(shell: Shell, body: string, text: string)
    requires Installed(shell, text) && InstallText(shell, body, text, false) != Panics
    ensures T.Find(text, StartMarker(shell)).value <= T.Find(text, EndMarker(shell)).value + |EndMarker(shell)|
    ensures InstallText(shell, body, text, false) == Unchanged <==> UpToDate(shell, BlockOf(shell, text))
  {
    hide StartMarker, EndMarker, T.Find, LineEnd, Hook, IsIndestructible, WithNewline, UpToDate;
    NeedlesAreWords(shell, BlockOf(shell, text));
  }

  /**
   * An unforced install upgrades an outdated block where it stands: the text before and after it is kept in place,
   * and what is left is a profile with the new hook.
   */
  lemma UpgradeInPlace(shell: Shell, body: string, text: string)
    requires OneBlock(shell, text) && BodyClear(shell, body) && !UpToDate(shell, BlockOf(shell, text))
    ensures var upgraded := Around(shell, Before(shell, text), body, After(shell, text));
            && InstallText(shell, body, text, false) == Written(upgraded)
            && InstallText(shell, body, upgraded, false) == Unchanged
            && UninstallText(shell, upgraded) == Written(Before(shell, text) + After(shell, text))
            && UninstallText(shell, text) == UninstallText(shell, upgraded)
  {
    hide StartMarker, EndMarker, T.Find, LineEnd, Hook, BodyClear, IsIndestructible, WithNewline, UpToDate;
    BeforeIsFree(shell, text);
    HookOperations(shell, Before(shell, text), body, After(shell, text));
    var pre, h, post := Before(shell, text), Hook(shell, body), After(shell, text);
    assert pre + h + post == pre + (h + post);
    UnchangedExactly(shell, body, text);
  }

  /** One line end at most: a text that is a line without its end, or with it. */
  predicate RestOfLine(tail: string, after: string) {
    if after == "" && '\n' !in tail then true
    else tail != "" && tail[|tail| - 1] == '\n' && '\n' !in tail[..|tail| - 1]
  }

  /** The two markers of a shell. */
  function MarkerTexts(shell: Shell): (string, string) {
    if shell == Cmd then ("rem >>> vetto shim environment >>>", "rem <<< vetto shim environment <<<")
    else ("# >>> vetto shim environment >>>", "# <<< vetto shim environment <<<")
  }

  lemma MarkersSpelled(shell: Shell)
    ensures MarkerTexts(shell) == (StartMarker(shell), EndMarker(shell))
  {
  }

  /** The profile is the text before its block, the block, the rest of the last line, and the text after that. */
  lemma BlockLayout(shell: Shell, text: string) returns (tail: string)
    requires OneBlock(shell, text)
    ensures text == Before(shell, text) + BlockOf(shell, text) + tail + After(shell, text)
    ensures RestOfLine(tail, After(shell, text))
    ensures MarkerTexts(shell).0 <= BlockOf(shell, text) && MarkerTexts(shell).1 <= text[EndOfBlock(shell, text)..]
  {
    MarkersSpelled(shell);
    hide StartMarker, EndMarker, LineEnd, T.Find, FreeOfMarkers, LineStart, MarkerTexts;
    var a, b := T.Find(text, StartMarker(shell)).value, T.Find(text, EndMarker(shell)).value;
    var after := b + |EndMarker(shell)|;
    tail := text[after..LineEnd(text, after)];
    LineEndIs(text, after);
    MarkersHaveAngles(shell);
    FourParts(text, a, after, LineEnd(text, after));
    OccursFirst(text, StartMarker(shell), a, after);
    OccursFirst(text, EndMarker(shell), b, |text|);
  }

  /** Where the end marker of the block stands. */
  function EndOfBlock(shell: Shell, text: string): nat
    requires OneBlock(shell, text)
  {
    |Before(shell, text)| + |BlockOf(shell, text)| - |EndMarker(shell)|
  }

  lemma FourParts(text: string, a: nat, b: nat, c: nat)
    requires a <= b <= c <= |text|
    ensures text == text[..a] + text[a..b] + text[b..c] + text[c..]
  {
  }

  lemma OccursFirst(text: string, marker: string, k: nat, to: nat)
    requires T.OccursAt(text, marker, k) && k + |marker| <= to <= |text|
    ensures marker <= text[k..to]
  {
    assert text[k..to][..|marker|] == text[k..k + |marker|];
  }

  lemma LineEndIs(text: string, from: nat)
    requires from <= |text|
    ensures RestOfLine(text[from..LineEnd(text, from)], text[LineEnd(text, from)..])
  {
    hide T.FindFrom;
    var rest := text[from..];
    forall k | 0 <= k < |rest|
      ensures T.OccursAt(rest, "\n", k) <==> rest[k] == '\n'
    {
      assert rest[k..k + 1] == [rest[k]];
    }
    var newline := T.Find(rest, "\n");
    if newline.Some? {
      var tail := text[from..LineEnd(text, from)];
      assert tail == rest[..newline.value + 1];
    }
  }

  // ---------- Markers in the wrong order ----------

  lemma MarkersHaveAngles(shell: Shell)
    ensures '>' in StartMarker(shell) && '<' in EndMarker(shell)
    ensures StartMarker(shell) != EndMarker(shell) && |StartMarker(shell)| == |EndMarker(shell)| >= 31
  {
    assert MARKER_START[2] == '>' && MARKER_END[2] == '<' && CMD_MARKER_START[4] == '>' && CMD_MARKER_END[4] == '<';
  }

  /** `marker` stands first at `k`. */
  ghost predicate FirstAt(text: string, marker: string, k: int) {
    T.OccursAt(text, marker, k) && forall j :: 0 <= j < k ==> !T.OccursAt(text, marker, j)
  }

  /**
   * Install slices with its start after its end exactly when the first start marker lies behind the first end marker
   * with something in between, forced or not; uninstall never does.
   */
  lemma PanicsExactly(shell: Shell, body: string, text: string, force: bool)
    ensures InstallText(shell, body, text, force) == Panics <==>
            exists a, b :: FirstAt(text, StartMarker(shell), a) && FirstAt(text, EndMarker(shell), b)
                           && a > b + |EndMarker(shell)|
    ensures UninstallText(shell, text) != Panics
  {
    hide StartMarker, EndMarker, T.OccursAt, Hook, IsIndestructible, WithNewline, LineEnd, T.FindFrom;
    var a, b := T.Find(text, StartMarker(shell)), T.Find(text, EndMarker(shell));
    if a.Some? && b.Some? {
      assert FirstAt(text, StartMarker(shell), a.value) && FirstAt(text, EndMarker(shell), b.value);
      forall x | FirstAt(text, StartMarker(shell), x)
        ensures x == a.value
      {
        SameFirst(text, StartMarker(shell), a.value, x);
      }
      forall x | FirstAt(text, EndMarker(shell), x)
        ensures x == b.value
      {
        SameFirst(text, EndMarker(shell), b.value, x);
      }
    }
  }

  lemma SameFirst(text: string, marker: string, j: int, k: int)
    requires FirstAt(text, marker, j) && FirstAt(text, marker, k)
    ensures j == k
  {
  }

  lemma OccursWhole(text: string, marker: string, k: int)
    requires T.OccursAt(text, marker, k) && |text| == |marker|
    ensures text == marker
  {
    assert text[k..k + |marker|] == text;
  }

  /** Such a profile: the two markers on two lines, in the wrong order. */
  lemma PanicsExample(shell: Shell, body: string, force: bool)
    ensures InstallText(shell, body, EndMarker(shell) + "\n" + StartMarker(shell), force) == Panics
  {
    hide StartMarker, EndMarker, Hook, IsIndestructible, WithNewline, LineEnd, T.Find, InstallText;
    MarkersAreLines(shell);
    MarkersHaveAngles(shell);
    var a, z := StartMarker(shell), EndMarker(shell);
    var text, at := z + "\n" + a, |z| + 1;
    assert text[..|z|] == z && text[at..at + |a|] == a;
    forall k | T.OccursAt(text, a, k)
      ensures k >= at
    {
      OccursByLine(z + "\n", a, a, k);
      if k < at {
        MarkerOnLine(z, a, k);
        OccursWhole(z, a, k);
      }
    }
    assert FirstAt(text, z, 0) && FirstAt(text, a, at);
    PanicsExactly(shell, body, text, force);
  }
}
