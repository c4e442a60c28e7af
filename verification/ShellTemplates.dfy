/** The lines generated for a shell hold no marker text when the shims path holds none, so the laws hold of them. */
module ShellTemplates {
  import opened ShellHook
  import opened ShellHookLaws
  import T = Text

  // ---------- Texts without marker text ----------

  /** Every marker has angle brackets. */
  predicate NoAngles(text: string) {
    '<' !in text && '>' !in text
  }

  lemma OccursHas(text: string, marker: string, k: int, c: char)
    requires T.OccursAt(text, marker, k) && c in marker
    ensures c in text
  {
    var j :| 0 <= j < |marker| && marker[j] == c;
    assert text[k..k + |marker|][j] == text[k + j];
  }

  lemma PlainIsFree(shell: Shell, text: string)
    requires NoAngles(text) || |text| < 31
    ensures FreeOfMarkers(shell, text)
  {
    hide StartMarker, EndMarker;
    MarkersHaveAngles(shell);
    forall k
      ensures !T.OccursAt(text, StartMarker(shell), k) && !T.OccursAt(text, EndMarker(shell), k)
    {
      if T.OccursAt(text, StartMarker(shell), k) {
        OccursHas(text, StartMarker(shell), k, '>');
      }
      if T.OccursAt(text, EndMarker(shell), k) {
        OccursHas(text, EndMarker(shell), k, '<');
      }
    }
  }

  /** A character that no marker has. */
  predicate Outside(c: char) {
    c == '"' || c == ':' || c == ';' || c == '='
  }

  lemma OutsideMarkers(shell: Shell, c: char)
    requires Outside(c)
    ensures c !in StartMarker(shell) && c !in EndMarker(shell)
  {
    StartWithout(c);
    EndWithout(c);
    CmdStartWithout(c);
    CmdEndWithout(c);
    hide MARKER_START, MARKER_END, CMD_MARKER_START, CMD_MARKER_END, Outside;
  }

  lemma StartWithout(c: char)
    requires Outside(c)
    ensures c !in MARKER_START
  {
  }

  lemma EndWithout(c: char)
    requires Outside(c)
    ensures c !in MARKER_END
  {
  }

  lemma CmdStartWithout(c: char)
    requires Outside(c)
    ensures c !in CMD_MARKER_START
  {
  }

  lemma CmdEndWithout(c: char)
    requires Outside(c)
    ensures c !in CMD_MARKER_END
  {
  }

  /** Two texts with such a character where they meet hold only the markers that one of them holds. */
  lemma GlueFree(shell: Shell, u: string, v: string)
    requires FreeOfMarkers(shell, u) && FreeOfMarkers(shell, v)
    requires (u != "" && Outside(u[|u| - 1])) || (v != "" && Outside(v[0]))
    ensures FreeOfMarkers(shell, u + v)
  {
    hide StartMarker, EndMarker, Outside;
    var c := if u != "" && Outside(u[|u| - 1]) then u[|u| - 1] else v[0];
    var at := if u != "" && Outside(u[|u| - 1]) then |u| - 1 else |u|;
    OutsideMarkers(shell, c);
    forall marker, k | (marker == StartMarker(shell) || marker == EndMarker(shell))
      ensures !T.OccursAt(u + v, marker, k)
    {
      if T.OccursAt(u + v, marker, k) {
        GlueOccurs(u, v, marker, k, at);
      }
    }
  }

  lemma GlueOccurs(u: string, v: string, marker: string, k: int, at: int)
    requires T.OccursAt(u + v, marker, k) && |u| - 1 <= at <= |u| && 0 <= at < |u + v| && (u + v)[at] !in marker
    ensures T.OccursAt(u, marker, k) || T.OccursAt(v, marker, k - |u|)
  {
    if k <= at < k + |marker| {
      OccursIn(u + v, marker, k, at);
    }
    if k + |marker| <= |u| {
      OccursLeft(u, v, marker, k);
    } else {
      OccursRight(u, v, marker, k);
    }
  }

  // ---------- The pieces ----------

  lemma NoAnglesConcat(u: string, v: string)
    requires NoAngles(u) && NoAngles(v)
    ensures NoAngles(u + v)
  {
  }

  lemma GeneratedPlain()
    ensures NoAngles(Generated())
  {
    GeneratedByPlain();
    ByHookPlain();
    DoNotEditPlain();
    hide GENERATED_BY, BY_HOOK, DO_NOT_EDIT;
  }

  lemma GeneratedByPlain()
    ensures NoAngles(GENERATED_BY)
  {
  }

  lemma ByHookPlain()
    ensures NoAngles(BY_HOOK)
  {
  }

  lemma DoNotEditPlain()
    ensures NoAngles(DO_NOT_EDIT)
  {
  }

  lemma TestPlain(shell: Shell)
    ensures var t := Test(shell); NoAngles(t) && NoAngles(Comment(shell)) && t != "" && Outside(t[|t| - 1])
  {
  }

  lemma OpeningPiece(shell: Shell)
    ensures var o := Opening(shell); FreeOfMarkers(shell, o) && o != "" && Outside(o[|o| - 1])
  {
    hide Generated, Comment, Test, Outside, FreeOfMarkers;
    GeneratedPlain();
    TestPlain(shell);
    NoAnglesConcat(Comment(shell), Generated());
    NoAnglesConcat(Comment(shell) + Generated(), Test(shell));
    PlainIsFree(shell, Opening(shell));
  }

  lemma PsTestPlain()
    ensures NoAngles(PS_TEST) && |PS_TEST| > 0 && Outside(PS_TEST[0])
  {
  }

  lemma PsSplitPlain()
    ensures NoAngles(PS_SPLIT)
  {
  }

  lemma PsFilterPlain()
    ensures NoAngles(PS_FILTER)
  {
  }

  lemma PsSetPlain()
    ensures NoAngles(PS_SET)
  {
  }

  lemma PsJoinPlain()
    ensures NoAngles(PS_JOIN) && |PS_JOIN| > 0 && PS_JOIN[|PS_JOIN| - 1] == '\n'
  {
  }

  lemma PrintfPlain()
    ensures NoAngles(SH_PRINTF) && |SH_PRINTF| > 0 && Outside(SH_PRINTF[|SH_PRINTF| - 1])
  {
  }

  lemma TrimPlain()
    ensures NoAngles(SH_TRIM) && |SH_TRIM| > 0 && Outside(SH_TRIM[0])
  {
  }

  lemma ExportPlain()
    ensures NoAngles(SH_EXPORT) && |SH_EXPORT| > 0 && Outside(SH_EXPORT[|SH_EXPORT| - 1])
  {
  }

  lemma CleanPlain()
    ensures NoAngles(SH_CLEAN) && |SH_CLEAN| > 0 && Outside(SH_CLEAN[0])
  {
  }

  lemma UnsetPlain()
    ensures NoAngles(SH_UNSET) && |SH_UNSET| > 0 && SH_UNSET[|SH_UNSET| - 1] == '\n'
  {
  }

  lemma FoundPlain()
    ensures NoAngles(FISH_FOUND) && |FISH_FOUND| > 0 && Outside(FISH_FOUND[0])
  {
  }

  lemma ErasePlain()
    ensures NoAngles(FISH_ERASE)
  {
  }

  lemma FishSetPlain()
    ensures NoAngles(FISH_SET) && |FISH_SET| > 0 && Outside(FISH_SET[|FISH_SET| - 1])
  {
  }

  lemma BeforeNeedlePlain(shell: Shell)
    ensures var b := BeforeNeedle(shell); NoAngles(b) && b != "" && Outside(b[0])
  {
    PsTestPlain();
    PsSplitPlain();
    hide PS_TEST, PS_SPLIT;
  }

  lemma NeedlePlain(shell: Shell)
    ensures Needles(shell) != [] && NoAngles(Needles(shell)[0])
  {
  }

  lemma AfterNeedlePlain(shell: Shell)
    ensures var a := AfterNeedle(shell);
            NoAngles(a) && a != "" && if shell == PowerShell then a[|a| - 1] == '\n' else Outside(a[|a| - 1])
  {
    PsFilterPlain();
    PsSetPlain();
    PsJoinPlain();
    PrintfPlain();
    hide PS_FILTER, PS_SET, PS_JOIN, SH_PRINTF;
  }

  lemma ThirdPiece(shell: Shell)
    requires shell != PowerShell
    ensures var x := Third(shell); FreeOfMarkers(shell, x) && x != "" && Outside(x[0]) && Outside(x[|x| - 1])
  {
    TrimPlain();
    ExportPlain();
    FoundPlain();
    ErasePlain();
    FishSetPlain();
    hide FreeOfMarkers, SH_TRIM, SH_EXPORT, FISH_FOUND, FISH_ERASE, FISH_SET;
    PlainIsFree(shell, Third(shell));
  }

  lemma LastPiece(shell: Shell)
    requires shell != PowerShell
    ensures var l := Last(shell); FreeOfMarkers(shell, l) && l != "" && Outside(l[0]) && l[|l| - 1] == '\n'
  {
    CleanPlain();
    UnsetPlain();
    hide FreeOfMarkers, SH_CLEAN, SH_UNSET;
    PlainIsFree(shell, Last(shell));
  }

  lemma SecondPiece(shell: Shell)
    ensures var t := Second(shell);
            && FreeOfMarkers(shell, t) && t != "" && Outside(t[0])
            && if shell == PowerShell then t[|t| - 1] == '\n' else Outside(t[|t| - 1])
  {
    hide BeforeNeedle, AfterNeedle, Needles, FreeOfMarkers, Outside;
    BeforeNeedlePlain(shell);
    NeedlePlain(shell);
    AfterNeedlePlain(shell);
    NoAnglesConcat(Needles(shell)[0], AfterNeedle(shell));
    NoAnglesConcat(BeforeNeedle(shell), Needles(shell)[0] + AfterNeedle(shell));
    PlainIsFree(shell, Second(shell));
  }

  // ---------- The lines as a whole ----------

  lemma BodyFree(shell: Shell, shims: string)
    requires FreeOfMarkers(shell, shims)
    ensures FreeOfMarkers(shell, Body(shell, shims)) && LineStart(Body(shell, shims))
  {
    hide Opening, Second, Third, Last, FreeOfMarkers, Outside;
    OpeningPiece(shell);
    SecondPiece(shell);
    var o, t := Opening(shell), Second(shell);
    if shell == PowerShell {
      GlueFree(shell, shims, t);
      GlueFree(shell, o, shims + t);
    } else {
      ThirdPiece(shell);
      LastPiece(shell);
      var x, l := Third(shell), Last(shell);
      GlueFree(shell, shims, l);
      GlueFree(shell, x, shims + l);
      GlueFree(shell, shims, x + (shims + l));
      GlueFree(shell, t, shims + (x + (shims + l)));
      GlueFree(shell, shims, t + (shims + (x + (shims + l))));
      GlueFree(shell, o, shims + (t + (shims + (x + (shims + l)))));
    }
  }

  lemma OccursInside(u: string, w: string, v: string)
    ensures T.OccursAt(u + (w + v), w, |u|)
  {
  }

  function Tail(shell: Shell, shims: string): string {
    if shell == PowerShell then "" else shims + (Third(shell) + (shims + Last(shell)))
  }

  lemma BodyShape(shell: Shell, shims: string)
    ensures Body(shell, shims) == Opening(shell) + (shims + (Second(shell) + Tail(shell, shims)))
  {
    hide Opening, Second, Third, Last;
    assert Second(shell) + "" == Second(shell);
  }

  lemma Rearrange(m: string, o: string, p: string, b: string, w: string, a: string, tail: string, e: string)
    ensures m + (o + (p + ((b + (w + a)) + tail))) + e == (m + o + p + b) + (w + (a + tail + e))
  {
  }

  /** The needle is in the block, after the opening and the first path. */
  lemma NeedleInBlock(shell: Shell, shims: string)
    ensures IsIndestructible(shell, Block(shell, Body(shell, shims)))
  {
    hide Opening, BeforeNeedle, AfterNeedle, Tail, T.Find, StartMarker, EndMarker, Body;
    NeedlePlain(shell);
    var w := Needles(shell)[0];
    hide Needles;
    var m, o, b, a := StartMarker(shell) + "\n", Opening(shell), BeforeNeedle(shell), AfterNeedle(shell);
    var tail, e := Tail(shell, shims), EndMarker(shell);
    BodyShape(shell, shims);
    Rearrange(m, o, shims, b, w, a, tail, e);
    OccursInside(m + o + shims + b, w, a + tail + e);
    assert T.OccursAt(Block(shell, Body(shell, shims)), w, |m + o + shims + b|);
  }

  /** Markers around free lines are the only ones in their block. */
  lemma FreeBlock(shell: Shell, body: string)
    requires FreeOfMarkers(shell, body) && LineStart(body)
    ensures forall k :: T.OccursAt(Block(shell, body), StartMarker(shell), k) ==> k == 0
    ensures forall k :: T.OccursAt(Block(shell, body), EndMarker(shell), k) ==> k == |StartMarker(shell)| + 1 + |body|
  {
    hide StartMarker, EndMarker;
    MarkersAreLines(shell);
    MarkersHaveAngles(shell);
    var a, z := StartMarker(shell), EndMarker(shell);
    assert Block(shell, body) == (a + "\n") + (body + z);
    forall m, k | (m == a || m == z) && T.OccursAt(Block(shell, body), m, k)
      ensures m == a ==> k == 0
      ensures m == z ==> k == |a| + 1 + |body|
    {
      OccursByLine(a + "\n", body + z, m, k);
      if T.OccursAt(a + "\n", m, k) {
        MarkerOnLine(a, m, k);
        assert a[k..k + |m|] == a;
      } else {
        OccursByLine(body, z, m, k - |a + "\n"|);
        assert T.OccursAt(z, m, k - |a + "\n"| - |body|);
        assert z[0..|m|] == z;
      }
    }
  }

  /** Every generated hook of a shims path without marker text has its markers at its ends only, and is up to date. */
  lemma GeneratedIsClear(shell: Shell, shims: string)
    requires FreeOfMarkers(shell, shims)
    ensures BodyClear(shell, Body(shell, shims))
  {
    hide FreeOfMarkers, Body, StartMarker, EndMarker, IsIndestructible, LineStart;
    BodyFree(shell, shims);
    FreeBlock(shell, Body(shell, shims));
    NeedleInBlock(shell, shims);
  }

  // ---------- What the generated lines do ----------

  /** What stands before and after the shims path where it is put first in PATH. */
  function PathSetting(shell: Shell): (string, string) {
    match shell
    case Bash => ("export PATH=\"", ":$_vetto_clean_path\"")
    case Zsh => ("export PATH=\"", ":$_vetto_clean_path\"")
    case Fish => ("set -gx PATH \"", "\" $PATH")
    case PowerShell => ("$vettoShims = \"", "\"\n")
    case Cmd => ("set PATH=", ";%PATH%")
  }

  lemma SettingBash()
    ensures SH_EXPORT == "    " + "export PATH=\"" && SH_CLEAN == ":$_vetto_clean_path\"" + "\n"
  {
  }

  lemma SettingFish()
    ensures FISH_SET == "    " + "set -gx PATH \"" && Last(Fish) == "\" $PATH" + "\nend\n"
  {
  }

  lemma SettingCmd()
    ensures Third(Cmd) == "\" >nul || " + "set PATH=" && Last(Cmd) == ";%PATH%" + "\n)\n"
  {
  }

  lemma SettingPowerShell()
    ensures PS_TEST == "\"\n" + PS_TEST[2..]
  {
  }

  lemma ContainsInside(text: string, u: string, x: string, p: string, y: string, v: string)
    requires text == u + (x + (p + (y + v)))
    ensures T.Contains(text, x + (p + y))
  {
    assert text == u + ((x + (p + y)) + v);
    OccursInside(u, x + (p + y), v);
  }

  lemma Behind(first: string, p: string, second: string, third: string, x: string, y: string, last: string)
    ensures first + (p + (second + (p + ((third + x) + (p + (y + last))))))
         == (first + p + second + p + third) + (x + (p + (y + last)))
  {
  }

  lemma AroundBash()
    ensures Third(Bash) == (SH_TRIM + "    ") + "export PATH=\""
    ensures Last(Bash) == ":$_vetto_clean_path\"" + ("\n" + SH_UNSET)
    ensures Third(Zsh) == Third(Bash) && Last(Zsh) == Last(Bash)
  {
    SettingBash();
    hide SH_EXPORT, SH_CLEAN, SH_TRIM, SH_UNSET;
  }

  lemma AroundFish()
    ensures Third(Fish) == (FISH_FOUND + FISH_ERASE + "    ") + "set -gx PATH \""
  {
    SettingFish();
    hide FISH_SET, FISH_FOUND, FISH_ERASE;
  }

  /** The pieces around the last path, for the shells that have it behind two others. */
  lemma SettingAround(shell: Shell) returns (third: string, last: string)
    requires shell != PowerShell
    ensures Third(shell) == third + PathSetting(shell).0 && Last(shell) == PathSetting(shell).1 + last
  {
    hide Third, Last, SH_TRIM, SH_UNSET, FISH_FOUND, FISH_ERASE, SH_EXPORT, SH_CLEAN, FISH_SET;
    if shell == Fish {
      AroundFish();
      SettingFish();
      third, last := FISH_FOUND + FISH_ERASE + "    ", "\nend\n";
    } else if shell == Cmd {
      SettingCmd();
      third, last := "\" >nul || ", "\n)\n";
    } else {
      AroundBash();
      third, last := SH_TRIM + "    ", "\n" + SH_UNSET;
    }
  }

  /** The generated lines put the shims path first in PATH; in PowerShell through a variable that holds it. */
  lemma PathComesFirst(shell: Shell, shims: string)
    ensures T.Contains(Body(shell, shims), PathSetting(shell).0 + (shims + PathSetting(shell).1))
  {
    hide T.Contains, Third, Last, BeforeNeedle, AfterNeedle, Needles, Generated, PS_TEST, PS_SPLIT;
    var (x, y) := PathSetting(shell);
    var o, t := Opening(shell), Second(shell);
    if shell == PowerShell {
      SettingPowerShell();
      PowerShellBody(shims);
    } else {
      var third, last := SettingAround(shell);
      hide PathSetting;
      Behind(o, shims, t, third, x, y, last);
      ContainsInside(Body(shell, shims), o + shims + t + shims + third, x, shims, y, last);
    }
  }

  lemma SplitAgain(u: string, x: string, p: string, y: string, v: string, split: string, end: string)
    ensures (u + x) + (p + (((y + v) + split) + end)) == u + (x + (p + (y + (v + split + end))))
  {
  }

  lemma PowerShellBody(shims: string)
    ensures T.Contains(Body(PowerShell, shims), "$vettoShims = \"" + (shims + "\"\n"))
  {
    SettingPowerShell();
    PowerShellShape(shims);
    var needle, after, comment, x, y := Needles(PowerShell)[0], AfterNeedle(PowerShell), Comment(PowerShell) + Generated(),
        Test(PowerShell), "\"\n";
    var v, split := PS_TEST[2..], PS_SPLIT;
    assert x == "$vettoShims = \"";
    hide *;
    SplitAgain(comment, x, shims, y, v, split, needle + after);
    var rest := v + split + (needle + after);
    ContainsInside(comment + (x + (shims + (y + rest))), comment, x, shims, y, rest);
  }

  lemma PowerShellShape(shims: string)
    ensures Body(PowerShell, shims) ==
            (Comment(PowerShell) + Generated() + Test(PowerShell))
            + (shims + ((PS_TEST + PS_SPLIT) + (Needles(PowerShell)[0] + AfterNeedle(PowerShell))))
  {
    hide Needles, AfterNeedle, Generated, Comment, Test, PS_TEST, PS_SPLIT;
  }

  lemma OneBlockInstalls(shell: Shell, body: string, text: string)
    requires OneBlock(shell, text)
    ensures Installed(shell, text) && InstallText(shell, body, text, false) != Panics
    ensures T.Find(text, StartMarker(shell)).value <= T.Find(text, EndMarker(shell)).value + |EndMarker(shell)|
  {
    hide T.Find, LineEnd, StartMarker, EndMarker, Hook, IsIndestructible, WithNewline, FreeOfMarkers;
  }

  /**
   * The laws for the hook the program generates. Uninstall undoes install exactly on a profile without markers,
   * unless the profile holds both; a forced install moves one block to the end and repeats without effect; an
   * upgrade keeps what is around the block.
   */
  lemma GeneratedHookLaws(shell: Shell, shims: string, text: string, force: bool)
    requires FreeOfMarkers(shell, shims)
    ensures var body := Body(shell, shims);
            var h := Hook(shell, body);
            && (!Installed(shell, text) ==>
                  && InstallText(shell, body, text, force) == Written(WithNewline(text) + h)
                  && (UninstallText(shell, WithNewline(text) + h) == Written(WithNewline(text)) <==>
                      FreeOfMarkers(shell, text)))
            && (OneBlock(shell, text) ==>
                  var kept := WithNewline(Before(shell, text) + After(shell, text));
                  && InstallText(shell, body, text, true) == Written(kept + h)
                  && InstallText(shell, body, kept + h, force) == (if force then Written(kept + h) else Unchanged)
                  && UninstallText(shell, kept + h) == Written(kept))
            && (OneBlock(shell, text) ==>
                  InstallText(shell, body, text, false) ==
                  if UpToDate(shell, BlockOf(shell, text)) then Unchanged
                  else Written(Around(shell, Before(shell, text), body, After(shell, text))))
  {
    hide FreeOfMarkers, Body, Hook, BodyClear, InstallText, UninstallText, OneBlock, Installed, WithNewline, Around,
         T.Find, LineEnd, UpToDate, StartMarker, EndMarker;
    GeneratedIsClear(shell, shims);
    var body := Body(shell, shims);
    if !Installed(shell, text) {
      RoundTripExactly(shell, body, text, force);
    }
    if OneBlock(shell, text) {
      ForcedInstallMovesToEnd(shell, body, text);
      OneBlockInstalls(shell, body, text);
      UnchangedExactly(shell, body, text);
      if !UpToDate(shell, BlockOf(shell, text)) {
        UpgradeInPlace(shell, body, text);
      }
    }
  }
}
