/** The block of text that the program keeps in a shell profile. */
module ShellHook {
  import opened Wrappers
  import T = Text

  datatype Shell = Bash | Zsh | Fish | PowerShell | Cmd

  const MARKER_START: string := "# >>> vetto shim environment >>>"
  const MARKER_END: string := "# <<< vetto shim environment <<<"
  const CMD_MARKER_START: string := "rem >>> vetto shim environment >>>"
  const CMD_MARKER_END: string := "rem <<< vetto shim environment <<<"

  function StartMarker(shell: Shell): string {
    if shell == Cmd then CMD_MARKER_START else MARKER_START
  }

  function EndMarker(shell: Shell): string {
    if shell == Cmd then CMD_MARKER_END else MARKER_END
  }

  /**
   * The markers stand around the lines for the shell, each on a line of its own.
   */
  function Hook(shell: Shell, body: string): string {
    Block(shell, body) + "\n"
  }

  function Block(shell: Shell, body: string): string {
    StartMarker(shell) + "\n" + body + EndMarker(shell)
  }

  /** The texts that only an up-to-date block contains. */
  function Needles(shell: Shell): seq<string> {
    match shell
    case Bash => ["_vetto_clean_path"]
    case Zsh => ["_vetto_clean_path"]
    case Fish => ["contains -i", "set -e PATH"]
    case PowerShell => ["Where-Object"]
    case Cmd => ["%PATH%"]
  }

  /** `is_indestructible_hook_snippet`. */
  predicate IsIndestructible(shell: Shell, snippet: string) {
    exists i :: 0 <= i < |Needles(shell)| && T.Find(snippet, Needles(shell)[i]).Some?
  }

  // ---------- The templates, piece by piece around the shims path ----------

  const GENERATED_BY: string := " Automatically generated by "
  const BY_HOOK: string := "`vetto hook install`. "
  const DO_NOT_EDIT: string := "Do not edit manually.\n"
  const PS_TEST: string := "\"\nif (Test-Path $vettoShims) {\n"
  const PS_SPLIT: string := "    $parts = ($env:PATH -split ';') | "
  const PS_FILTER: string := " { $_ -ne $vettoShims -and $_ -ne \"\" }\n"
  const PS_SET: string := "    $env:PATH = ($vettoShims, "
  const PS_JOIN: string := "($parts -join ';')) -join ';'\n}\n"
  const SH_PRINTF: string := "=$(printf \"%s\" \":$PATH:\" | sed -e \"s|:"
  const SH_TRIM: string := ":|:|g\" -e \"s|^:||\" -e \"s|:$||\")\n"
  const SH_EXPORT: string := "    export PATH=\""
  const SH_CLEAN: string := ":$_vetto_clean_path\"\n"
  const SH_UNSET: string := "    unset _vetto_clean_path\nfi\n"
  const FISH_FOUND: string := "\" $PATH)\n"
  const FISH_ERASE: string := "        set -e PATH[$idx]\n    end\n"
  const FISH_SET: string := "    set -gx PATH \""

  function Generated(): string {
    GENERATED_BY + BY_HOOK + DO_NOT_EDIT
  }

  function Comment(shell: Shell): string {
    if shell == Cmd then "rem" else "#"
  }

  function Test(shell: Shell): string {
    match shell
    case Bash => "if [ -d \""
    case Zsh => "if [ -d \""
    case Fish => "if test -d \""
    case PowerShell => "$vettoShims = \""
    case Cmd => "if exist \""
  }

  function Opening(shell: Shell): string {
    Comment(shell) + Generated() + Test(shell)
  }

  /** The piece after the first path, up to what marks a block as up to date. */
  function BeforeNeedle(shell: Shell): string {
    match shell
    case Bash => "\" ]; then\n    "
    case Zsh => "\" ]; then\n    "
    case Fish => "\"\n    while set -l idx ("
    case PowerShell => PS_TEST + PS_SPLIT
    case Cmd => "\" (\n    echo "
  }

  function AfterNeedle(shell: Shell): string {
    match shell
    case Bash => SH_PRINTF
    case Zsh => SH_PRINTF
    case Fish => " \""
    case PowerShell => PS_FILTER + PS_SET + PS_JOIN
    case Cmd => " | findstr /i /c:\""
  }

  function Third(shell: Shell): string {
    match shell
    case Bash => SH_TRIM + SH_EXPORT
    case Zsh => SH_TRIM + SH_EXPORT
    case Fish => FISH_FOUND + FISH_ERASE + FISH_SET
    case PowerShell => ""
    case Cmd => "\" >nul || set PATH="
  }

  function Last(shell: Shell): string {
    match shell
    case Bash => SH_CLEAN + SH_UNSET
    case Zsh => SH_CLEAN + SH_UNSET
    case Fish => "\" $PATH\nend\n"
    case PowerShell => ""
    case Cmd => ";%PATH%\n)\n"
  }

  /** The lines between the markers. */
  function Body(shell: Shell, shims: string): string {
    Opening(shell) + (shims + (if shell == PowerShell then Second(shell)
                               else Second(shell) + (shims + (Third(shell) + (shims + Last(shell))))))
  }

  /** The pieces from the first path on, up to the next one. */
  function Second(shell: Shell): string {
    BeforeNeedle(shell) + (Needles(shell)[0] + AfterNeedle(shell))
  }

  // ---------- Editing a profile ----------

  /** What a call does to the text of a profile; `Panics` is a slice whose start lies after its end. */
  datatype Outcome = Unchanged | Written(text: string) | Panics

  /** The index after the line that contains index `from`. */
  function LineEnd(text: string, from: nat): (e: nat)
    requires from <= |text|
    ensures from <= e <= |text|
  {
    var newline := T.Find(text[from..], "\n");
    if newline.Some? then from + newline.value + 1 else |text|
  }

  function WithNewline(text: string): string {
    if text != "" && text[|text| - 1] != '\n' then text + "\n" else text
  }

  function InstallText(shell: Shell, body: string, text: string, force: bool): Outcome {
    var a, b := T.Find(text, StartMarker(shell)), T.Find(text, EndMarker(shell));
    if a.None? || b.None? then Written(WithNewline(text) + Hook(shell, body))
    else
      var afterEnd := b.value + |EndMarker(shell)|;
      if a.value > afterEnd then Panics
      else if !force && IsIndestructible(shell, text[a.value..afterEnd]) then Unchanged
      else
        var before, after := text[..a.value], text[LineEnd(text, afterEnd)..];
        Written(if force then WithNewline(before + after) + Hook(shell, body)
                else before + Hook(shell, body) + after)
  }

  function UninstallText(shell: Shell, text: string): Outcome {
    var a, b := T.Find(text, StartMarker(shell)), T.Find(text, EndMarker(shell));
    if a.None? || b.None? then Unchanged
    else Written(text[..a.value] + text[LineEnd(text, b.value + |EndMarker(shell)|)..])
  }

  /** `generate_shell_hook`. */
  function GenerateShellHook(shell: Shell, shims: string): string {
    Hook(shell, Body(shell, shims))
  }

  /** A profile file; None when it does not exist. */
  class Profile {
    var content: Option<string>

    constructor (content: Option<string>)
      ensures this.content == content
    {
      this.content := content;
    }

    function Text(): string
      reads this
    {
      if content.Some? then content.value else ""
    }

    /** `install_shell_hook_to_path`. */
    method Install(shell: Shell, shims: string, force: bool) returns (r: Outcome)
      modifies this
      ensures r == InstallText(shell, Body(shell, shims), old(Text()), force)
      ensures content == if r.Written? then Some(r.text) else old(content)
    {
      hide StartMarker, EndMarker, Hook, Body, IsIndestructible, LineEnd, T.Find, WithNewline;
      var text := Text();
      var a, b := T.Find(text, StartMarker(shell)), T.Find(text, EndMarker(shell));
      var snippet := GenerateShellHook(shell, shims);
      var updated;
      if a.Some? && b.Some? {
        var afterEnd := b.value + |EndMarker(shell)|;
        if a.value > afterEnd {
          return Panics;
        }
        if !force && IsIndestructible(shell, text[a.value..afterEnd]) {
          return Unchanged;
        }
        var endOfLine := LineEnd(text, afterEnd);
        updated := text[..a.value];
        if force {
          updated := updated + text[endOfLine..];
          updated := WithNewline(updated);
          updated := updated + snippet;
        } else {
          updated := updated + snippet;
          updated := updated + text[endOfLine..];
        }
      } else {
        updated := text;
        updated := WithNewline(updated);
        updated := updated + snippet;
      }
      content := Some(updated);
      r := Written(updated);
    }
  }

  predicate Installed(shell: Shell, text: string) {
    T.Find(text, StartMarker(shell)).Some? && T.Find(text, EndMarker(shell)).Some?
  }

  /** `uninstall_shell_hook`: cleans the first candidate file that holds both markers, and no other. */
  method UninstallFirst(shell: Shell, candidates: array<Option<string>>) returns (cleaned: Option<nat>)
    modifies candidates
    ensures cleaned.Some? ==>
              && cleaned.value < candidates.Length
              && old(candidates[cleaned.value]).Some? && Installed(shell, old(candidates[cleaned.value].value))
              && candidates[cleaned.value].Some?
              && Written(candidates[cleaned.value].value) == UninstallText(shell, old(candidates[cleaned.value].value))
    ensures forall i :: 0 <= i < (if cleaned.Some? then cleaned.value else candidates.Length) ==>
              old(candidates[i]).None? || !Installed(shell, old(candidates[i].value))
    ensures forall i :: 0 <= i < candidates.Length && cleaned != Some(i) ==> candidates[i] == old(candidates[i])
  {
    hide StartMarker, EndMarker, LineEnd, T.Find;
    for i := 0 to candidates.Length
      invariant forall k :: 0 <= k < candidates.Length ==> candidates[k] == old(candidates[k])
      invariant forall k :: 0 <= k < i ==> candidates[k].None? || !Installed(shell, candidates[k].value)
    {
      if candidates[i].Some? {
        var text := candidates[i].value;
        var a, b := T.Find(text, StartMarker(shell)), T.Find(text, EndMarker(shell));
        if a.Some? && b.Some? {
          var endOfLine := LineEnd(text, b.value + |EndMarker(shell)|);
          candidates[i] := Some(text[..a.value] + text[endOfLine..]);
          return Some(i);
        }
      }
    }
    cleaned := None;
  }
}
