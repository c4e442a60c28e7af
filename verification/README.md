# vetto: a verified model of its ledger, scanners, profile editor and reviews

vetto runs coding agents in a sandbox and keeps records of what they did. This project models the parts of it whose
behaviour spans many steps or many functions, and proves what those parts are for.

| Part | Files |
|---|---|
| The hash-chained audit ledger: writer, verifier, reopening | `Json`, `LedgerFormat`, `LedgerChain`, `LedgerVerifier`, `LedgerIntegrity`, `AuditLedger`, `LedgerRuns`, `LedgerSignatures` |
| The secret scanners and the in-place masker | `Utf8`, `Utf8Encoding`, `Scanner`, `Patterns`, `Sanitizer`, `PrefixedTokens`, `Means`, `Entropy`, `HighEntropy`, `EntropyDecides`, `Pem`, `PemBlocks`, `SanitizeLine`; the rewriters run again: `ScanOutput`, `KeyValueParts`, `KeyValueTwice`, `EnvParts`, `EnvTwice`, `MarksKept`, `NamesKept`, `Removals`, `MarkBlocks`, `PemEnds`, `SanitizeTwice`, `PemTwice`, `RepeatExamples`; the shapes in bytes: `SecretShapes`, `CleanLine` |
| The block editor for shell profiles | `ShellHook`, `ShellHookLaws`, `ShellTemplates` |
| The session review: line diff, hunks, tree comparison, JSON | `EditScripts`, `Waves`, `LineDiff`, `DiffOps`, `Hunks`, `Review`, `TextLines`, `ReviewedFiles` |
| History and digest | `Sorting`, `Tallies`, `Records`, `AutoTimeout`, `Deduplication`, `SessionLog`, `LogReports`, `Digest`, `DigestCounts` |
| Shared | `Wrappers`, `Text` |

## How it is modelled

- **Ledger.** A file is a sequence of lines, each blank, malformed, or the JSON value it parses to; a JSON object is a
  map. SHA-256 (FIPS 180-4) and the printer of JSON objects (RFC 8259) are uninterpreted functions in a `Codec`. Digests
  are 64 lower-case hex characters and the printer is injective. Absence of collisions is never assumed of all texts:
  each theorem names the finite set of texts that must not collide. Sequence numbers and counters of the writer and the
  verifier are `u64` and wrap, as in a release build. `Chained` defines what a well-formed file is without mentioning
  the verifier's variables; the verifier's loop is proved against it.
- **Scanners.** Text is a string of bytes, and `Utf8.Valid` is the grammar of RFC 3629, section 4,
  shown in `Utf8Encoding` to admit exactly the encodings of section 3. Every slice of a
  text, whether it is written out or only searched, goes through `Utf8.Slice`, whose precondition is that both ends are
  character boundaries, so a verified loop is one whose slicing never panics. The specifications the loops are proved
  against are free to speak of any index. A scanner is a matcher and the common loop `Scanner.Rewrite`. `SecretShapes` and
  `CleanLine` say in bytes alone, without any matcher, what each pass finds, hides and leaves alone.
- **Entropy.** With n bytes and counts c, entropy above p/q bits is n^(qn) > 2^(pn) · (Π c^c)^q, in integers. `EntropyDecides.FlaggedExactly`
  shows that the length and all of the white list but lower-case words never decide.
- **Profiles.** The text edits are functions of the text, and the lines of the hook are the templates of the five shells
  around the shims path. The laws are proved of any lines that hold no marker text, which the templates are shown to be.
- **Line diff.** The search for a shortest edit script keeps its table of furthest points and its trace of tables, as
  the program does; `Waves.Reach` defines the furthest points, and edit scripts and their least cost are defined without
  the search.
- **Aggregation.** Loops over records keep maps and totals; what they are to hold is defined by counting over the list,
  and `LogReports` and `DigestCounts` say it once more by sets of lines, sessions and events.

## Where the code differs from what is said of it

- The bodies follow the code. `AuditLedger::new` is meant to refuse corrupted ledgers, but it looks for words in the
  diagnosis, and the diagnosis of a mismatched signature quotes text from the file. `LedgerRuns.BrokenFileOpens` says
  of the lines exactly when a broken file is opened all the same, and where the handle then stands;
  `LedgerRuns.BrokenFileOpensExample` is such a file. The message of a JSON parse error is an arbitrary text here, so
  the condition also names a malformed line whose message holds the words; messages that report only what was expected
  and where never do.
- `record_event` does not check that a payload avoids `seq`, `prev_hash`, `hash` and the like.
  `LedgerRuns.PayloadMustStayClear` shows that the file keeps chaining with the handle on its head exactly when it
  does. The file alone also keeps chaining when the payload brings a fitting `hash` of its own:
  `LedgerRuns.RecordStillChains`.
- Uninstalling undoes installing only if the profile holds neither marker on its own;
  `ShellHookLaws.RoundTripExactly` proves both directions.
- Installing slices with its start after its end, the outcome `Panics`, exactly when the first start marker lies
  behind the first end marker with something in between: `ShellHookLaws.PanicsExactly`, and `PanicsExample` for a
  profile of that kind.
- Three of the six rewriters of `sanitize_line`, and so the whole, are not idempotent. Each has an exact condition on
  the text it is given:
  - the key-value pass (`KeyValueTwice.SecondPassExactly`): no cut comes after `bearer `, and each ends the text or stops
    before a byte that would end a bare value. So a quoted value with text right after it is redacted further the second
    time, and so is a header that ends in `bearer [REDACTED]`;
  - the assignment pass (`EnvTwice.SecondPassExactly`): each cut ends the text or stops before a byte that would end a
    content, and no assignment passed over has a content that starts with one that is cut and runs through to its `=`;
  - the PEM pass (`PemTwice.SecondPassExactly`): from the first header line it keeps on, no end marker is kept behind a
    begin marker, or that line holds one and its block is the end of the text.

  For the whole, `SanitizeTwice.SecondRunExactly`: running `sanitize_line` on its own output t changes nothing if and
  only if all that t leaves to hide is marks, in the bodies of PEM blocks and the values of keys and assignments.
  `SanitizeTwice.SecondRunWhenSettled` says of the line itself when that is sure to be so: it holds no begin marker, its
  key-value stage is settled, and its assignment stage changes nothing. `RepeatExamples` has a line for each
  of the three, and one on which a second run of the whole gives another text.
- The comment in `redact_pem` says the header line is kept. `Pem.HeaderKept`: it is kept exactly when a line break
  comes before the end of the block, and without one the whole block is replaced.
- A file whose bytes differ but whose lines do not (line endings, a final newline) is listed as modified, with no lines
  and no patch: `Review.SameLinesNoPatch` for a final newline, and `TextLines.ReturnsDoNotShow` for carriage returns before
  any of the breaks.
- The script shown for a text change is a shortest one if and only if what lies between the common ends is within the
  limits of 4000 lines and 2000 edits, or has no line in common: `DiffOps.ShownIsShortest`. Otherwise all lines between
  the common ends are deleted and inserted.

## Model

| member | source | states |
|---|---|---|
| LedgerFormat.HashedTextInjective | src/audit/ledger.rs:528-532 | Equal hashed texts come from equal links, numbers and payloads, and the two accepted field orders never give the same text |
| LedgerChain.ChainStep | src/audit/ledger.rs:217-561 | A well-formed file grows only by a record or a signature on its head, and only while it is unsigned |
| LedgerVerifier.VerifyFileDetailed | src/audit/ledger.rs:185-598 | The verifier's loop, with its early returns, gives the result of the line-by-line specification for every file |
| LedgerVerifier.PassIsChain | src/audit/ledger.rs:217-561 | The loop keeps running exactly as long as the lines chain, and then its six variables are those of the chain |
| LedgerIntegrity.ChainedPrefixIsLongest | src/audit/ledger.rs:217-561 | One length separates the prefixes of a file that chain from those that do not |
| LedgerIntegrity.VerifierReportsLongestPrefix | src/audit/ledger.rs:217-561 | On every file the verifier reports the records, last number and head hash of the longest chaining prefix, and blames the line after it |
| LedgerIntegrity.ValidMeansClosedChain | src/audit/ledger.rs:563-597 | A file is valid exactly when all of it chains, a record is counted and it holds a verdict or a signature; a result has no corruption exactly when it is valid |
| LedgerIntegrity.HeadHashFixesHistory | src/audit/ledger.rs:528-560 | If the texts hashed for two chained files do not collide, the heads agree exactly when all records agree, whichever order each was hashed in |
| LedgerIntegrity.PayloadEditIsCaught | src/audit/ledger.rs:528-555 | Editing only the payload of one record is reported at its line, as a hash mismatch, with exactly the records before it counted |
| LedgerIntegrity.DeletionIsCaught | src/audit/ledger.rs:220-503 | Deleting a line is reported at the next line that is not blank by the sequence number, without relying on the hash |
| LedgerIntegrity.TruncationIsCaught | src/audit/ledger.rs:563-583 | Any prefix that has lost the closing mark is invalid, with the reason that says so at its last line and record, or as empty |
| AuditLedgers.AuditLedger.Open | src/audit/ledger.rs:90-129 | Opening refuses closed or corrupted files and leaves them alone; otherwise the handle and the file are those of the reopening step |
| AuditLedgers.AuditLedger.RecordEvent | src/audit/ledger.rs:132-153 | Appends one record and moves the handle to its hash and the next number |
| AuditLedgers.AuditLedger.SignAndClose | src/audit/ledger.rs:164-177 | Appends the signature on the head |
| LedgerRuns.ClosedStaysClosed | src/audit/ledger.rs:98-102 | After a chained prefix with a verdict or a signature, whatever lines follow, opening fails as closed |
| LedgerRuns.RecoverFromChain | src/audit/ledger.rs:98-116 | Opening an unclosed chain gives back the number and link that its next record needs |
| LedgerRuns.BrokenFileOpens | src/audit/ledger.rs:98-116 | A file that does not chain is opened exactly when its longest chaining prefix is unclosed and the next line is malformed with the words in its message, or a signature with a readable number and link, not those expected, and the words in the link; the handle then stands on the prefix. It is refused as closed when the prefix is closed or that line is a verdict, and else with the verifier's reason |
| LedgerRuns.BrokenFileOpensExample | src/audit/ledger.rs:103-109 | A one-line file that is not valid and is opened |
| LedgerRuns.RunKeeps | src/audit/ledger.rs:90-177 | Every state reached by any run of records, reopenings and closings has a chained file with the open handle on its head |
| LedgerRuns.WriterAndVerifierAgree | src/audit/ledger.rs:132-177 | Whatever a run leaves behind is verified to its last record, counted modulo 2^64; it is valid exactly when it has one and is closed, and is otherwise reported as empty or unclosed, never as tampered |
| LedgerRuns.SessionVerifies | src/audit/ledger.rs:132-177 | A session's file counts as many records as events, carries their payloads in order, and reports its signature and verdict |
| LedgerRuns.ReopenIsInvisible | src/audit/ledger.rs:90-129 | Before the close, dropping the handle and opening again restores the same handle and file |
| LedgerRuns.ReopensAreInvisible | src/audit/ledger.rs:90-177 | Any run with reopenings before the close ends as the run without them |
| LedgerSignatures.SessionLines | src/audit/ledger.rs:132-177 | Every line a session writes, member by member: number, previous hash and the hash over previous hash, number and payload for each event, and the signature over `CLOSE:` and the last hash |
| LedgerSignatures.ClosingTextApart | src/audit/ledger.rs:165-368 | Equal closing texts have equal links, and a closing text is none of the texts hashed for any record in either order |
| LedgerSignatures.SignatureFixesHistory | src/audit/ledger.rs:164-368 | If the texts hashed and signed for two sealed files do not collide, the signatures agree exactly when all records agree, and no hash of a record passes as a signature |
| LedgerRuns.PayloadMustStayClear | src/audit/ledger.rs:132-153 | After recording a payload the file still chains with the handle on its head exactly when the payload keeps clear of the envelope's names |
| LedgerRuns.RecordStillChains | src/audit/ledger.rs:132-153 | After recording a payload the file alone still chains exactly when the payload keeps clear of the envelope, or brings a hash that fits the rest of it and no other number or link |
| Utf8.StepIsCharLen | src/sanitizer.rs:132-145 | On valid text the step read off the first byte is the length of the first character |
| Utf8.StepFrom | src/sanitizer.rs:132-145 | A step from a boundary stays in the text and ends at the next boundary |
| Utf8Encoding.ValidExactly | src/sanitizer.rs:132-145 | A text passes as a `str` exactly when it is the encoding of Unicode scalar values |
| Utf8Encoding.BoundaryExactly | src/sanitizer.rs:132-145 | An index can be sliced at exactly when the text before it is well-formed on its own |
| Scanner.RewriteValid | src/sanitizer.rs:107-130 | A scanner whose matches cut at boundaries turns valid UTF-8 into valid UTF-8 |
| Scanner.RewriteNothing | src/sanitizer.rs:107-130 | A scanner is the identity on text in which nothing matches |
| Scanner.PlainTextIsOld | src/sanitizer.rs:107-130 | Any text in the output that a mark cannot contain or touch was in the input, and outside what was replaced |
| Sanitizer.RedactRun | src/sanitizer.rs:107-130 | The loop slices only at boundaries and writes what its pattern defines; the output is valid |
| Sanitizer.RedactBearerTokens | src/sanitizer.rs:72-99 | The same for bearer tokens |
| Sanitizer.MatchSecretKeyValue | src/sanitizer.rs:159-215 | The nested scans find exactly the match of the key-value pattern, quoted, bare or bearer, and search only from boundaries |
| Sanitizer.RedactKeyValues | src/sanitizer.rs:217-235 | The loop slices only at boundaries, multi-byte values included, and writes what its pattern defines |
| Sanitizer.RedactEnvAssignments | src/sanitizer.rs:240-301 | The same for upper-case assignments |
| PrefixedTokens.RedactPrefixedTokens | src/sanitizer.rs:50-70 | The thirteen passes in order give the composition of the passes, valid UTF-8 |
| PrefixedTokens.PassRemovesItsOwn | src/sanitizer.rs:107-130 | After a pass its prefix is nowhere followed by its minimum run |
| PrefixedTokens.ScannerExposesNothing | src/sanitizer.rs:50-70 | No scanner of this shape creates a listed token that was not there before |
| PrefixedTokens.PrefixedPassIsComplete | src/sanitizer.rs:50-70 | After all passes no listed prefix is followed by its minimum run; the whole is idempotent, and the identity exactly on texts without such a token |
| Means.LogSum | src/sanitizer.rs:370-384 | The log-sum inequality for two classes, in integers |
| Entropy.EntropyExceeds | src/sanitizer.rs:370-384 | The count array decides both comparisons of the exact entropy with a bound |
| Entropy.DistinctBound | src/sanitizer.rs:370-384 | Entropy is at most the logarithm of the number of distinct values: n^n is at most d^n times the product of c^c |
| Entropy.FewDistinctNeverAbove | src/sanitizer.rs:314-317 | A run with at most 22 distinct values is never above 4.5 bits, whatever its length |
| Entropy.HexNeverAbove | src/sanitizer.rs:314-317 | No run of hex digits in either case is ever above the threshold |
| Entropy.ShortNeverAbove | src/sanitizer.rs:314-317 | No run under 23 bytes is above the threshold |
| Entropy.DifferentBytesAbove | src/sanitizer.rs:314-317 | A run of pairwise different bytes is above it exactly from 23 bytes on |
| EntropyDecides.UuidNeverAbove | src/sanitizer.rs:350-365 | No run in the form of a UUID is above the threshold, whatever its digits |
| EntropyDecides.FlaggedExactly | src/sanitizer.rs:313-348 | A run is flagged exactly when its entropy is above 4.5 bits and it is no lower-case word below 4.6 |
| HighEntropy.MaskSecretsInPlace | src/sanitizer.rs:391-412 | In place, every byte of a flagged maximal run becomes an asterisk and every other byte stays |
| HighEntropy.RedactHighEntropyRuns | src/sanitizer.rs:303-329 | The rewriter's loop writes the marker for each flagged run and copies the rest; the output is valid |
| HighEntropy.RedactIsSplice | src/sanitizer.rs:303-329 | The output is the text with ordered, separate spans replaced and all between them copied |
| HighEntropy.MaskingMatchesRewriting | src/sanitizer.rs:303-412 | Masking changes byte k exactly when k lies in a span the rewriter replaces |
| HighEntropy.MaskingIsIdempotent | src/sanitizer.rs:391-412 | Masking again changes nothing |
| HighEntropy.RewritingIsIdempotent | src/sanitizer.rs:303-329 | The rewriter leaves nothing flagged, its own marker included; again changes nothing; identity exactly on texts without a flagged run |
| SanitizeLine.BearerPassIsComplete | src/sanitizer.rs:72-99 | No bearer token is left; the pass is idempotent and the identity exactly on texts without one |
| SanitizeLine.HighEntropyIsScanner | src/sanitizer.rs:303-329 | The run-wise rewriter is a scanner of the common shape |
| Pem.PemIsSplice | src/sanitizer.rs:22-46 | Of every block from a first begin marker to the dashes after its end marker, or the end of the text, the part from the end of the header line on is replaced, block after block; all else is copied, and after the last one no begin marker has an end marker |
| Pem.HeaderKept | src/sanitizer.rs:37-42 | The header line is kept, up to and with its line break, exactly when the block has one |
| Pem.PemValid | src/sanitizer.rs:22-46 | The output is valid UTF-8 |
| PemBlocks.BlockRedacted | src/sanitizer.rs:22-46 | With a first begin marker and a first end marker behind it, the text is kept up to the first line break of the block, or up to the block, the mark follows, and the text after the closing dashes is redacted in turn |
| PemBlocks.NoBlockKept | src/sanitizer.rs:22-28 | Without an end marker behind the first begin marker nothing changes |
| SanitizeTwice.PemFixedExactly | src/sanitizer.rs:22-46 | PEM redaction leaves a text alone exactly when every body it would hide is the mark |
| PemTwice.SecondPassExactly | src/sanitizer.rs:22-46 | On every valid text, two PEM passes are one if and only if, from the first header line kept on, no end marker is kept behind a begin marker, or that line holds one and its block ends the text |
| SanitizeLine.Sanitize | src/sanitizer.rs:11-18 | The composition of the six rewriters in order gives valid text |
| SanitizeLine.SanitizedIsClean | src/sanitizer.rs:11-18 | A sanitized line has none of the thirteen token shapes, no bearer token and no flagged run: later rewriters bring nothing back |
| KeyValueTwice.SecondPassExactly | src/sanitizer.rs:159-235 | On every valid text, two key-value passes are one if and only if no cut the scan takes comes after `bearer ` and each ends the text or stops before a byte that would end a bare value |
| KeyValueTwice.RemainingAreRedacted | src/sanitizer.rs:159-235 | Completeness: any key-value match left in the output has the mark as its value, or `bearer ` and the mark |
| SecretShapes.KeyValueIsMatch | src/sanitizer.rs:159-215 | Wherever one of the seven keys starts a word, in any case, before `=` or `:` and a quoted or bare value of four bytes, there is a match; it hides the value with its quotes, or the token of a bearer header |
| SecretShapes.MatchIsKeyValue | src/sanitizer.rs:159-215 | Every match is such a key and value |
| SecretShapes.KeyValuesHidden | src/sanitizer.rs:189-235 | Completeness in bytes: every such value, in double or single quotes or bare, left in the output is the mark, or `bearer ` and the mark |
| SecretShapes.KeyValuesLeftAlone | src/sanitizer.rs:217-235 | The pass leaves a text alone exactly when every such value in it is just the mark |
| SecretShapes.AssignmentIsMatch | src/sanitizer.rs:240-301 | Wherever a name of two bytes or more is assigned four bytes, quoted or bare, there is a match, and it hides them with their quotes |
| SecretShapes.MatchIsAssignment | src/sanitizer.rs:240-301 | Every match is such an assignment |
| SecretShapes.AssignmentsHidden | src/sanitizer.rs:240-301 | Completeness in bytes: every such content left in the output starts with the mark, or with two name bytes, `=` and the mark |
| SecretShapes.AssignmentsLeftAlone | src/sanitizer.rs:240-301 | The pass leaves a text alone exactly when every such content in it is just the mark |
| CleanLine.SanitizedShowsNone | src/sanitizer.rs:11-18 | In bytes: a sanitized line has none of the thirteen prefixes with its token, no bearer token and no longest run that the entropy flags |
| CleanLine.LineLeftAlone | src/sanitizer.rs:11-18 | In bytes: `sanitize_line` gives a line back exactly when it has none of these, and only marks as PEM bodies and as values of keys and assignments |
| RepeatExamples.KeyValuePassNotIdempotent | src/sanitizer.rs:189-214 | A line on which a second key-value pass redacts more than the first |
| RepeatExamples.EnvPassNotIdempotent | src/sanitizer.rs:268-292 | A line on which a second assignment pass redacts more |
| RepeatExamples.PemNotIdempotent | src/sanitizer.rs:22-46 | A text on which a second PEM pass redacts more |
| RepeatExamples.SanitizedNotIdempotent | src/sanitizer.rs:11-18 | The line of the key-value pass is one for the whole of `sanitize_line` |
| KeyValueTwice.FixedExactly | src/sanitizer.rs:159-235 | The key-value pass leaves a text alone exactly when every value it would hide is the mark |
| EnvTwice.SecondPassExactly | src/sanitizer.rs:240-301 | On every valid text, two assignment passes are one if and only if each cut ends where a content ends, and no assignment passed over runs through to the `=` of one that is cut |
| EnvTwice.RemainingAreHidden | src/sanitizer.rs:240-301 | Completeness: any assignment left in the output has the mark as its value, or a two-byte name, `=` and the mark |
| EnvTwice.FixedExactly | src/sanitizer.rs:240-301 | The assignment pass leaves a text alone exactly when every value it would hide is the mark |
| MarksKept.BearerKeepsMarks | src/sanitizer.rs:72-99 | The bearer pass puts no key before a value that is not a mark |
| MarksKept.EntropyKeepsMarks | src/sanitizer.rs:303-329 | Nor does the high-entropy pass |
| NamesKept.EntropyKeepsNames | src/sanitizer.rs:303-329 | Nor does it put a name and `=` before one |
| Removals.NothingRemoved | src/sanitizer.rs:11-18 | A line that `sanitize_line` gives back loses no byte outside the marks at any stage |
| SanitizeTwice.SanitizedFixedExactly | src/sanitizer.rs:11-18 | `sanitize_line` gives a line back exactly when none of its six rewriters has anything but marks to hide in it: no two stages undo each other |
| SanitizeTwice.SecondRunExactly | src/sanitizer.rs:11-18 | Running it on its own output changes nothing exactly when that output has nothing but marks as PEM bodies and as values of keys and assignments |
| SanitizeTwice.SecondRunWhenMarked | src/sanitizer.rs:11-18 | It is enough that this holds before the last stage, without a PEM block |
| SanitizeTwice.SecondRunWhenSettled | src/sanitizer.rs:11-18 | A second run changes nothing on a line without a begin marker whose key-value stage is settled and whose assignment stage changes nothing |
| ShellHook.Profile.Install | src/cli/shell_env.rs:198-277 | The file after the call is the edit of its text with the hook generated for the shell and the shims path, or untouched |
| ShellHook.UninstallFirst | src/cli/shell_env.rs:331-367 | Exactly the first candidate with both markers is cleaned, and no other file changes |
| ShellHookLaws.HookOperations | src/cli/shell_env.rs:224-258 | With a hook at a line start: uninstall leaves the rest, install changes nothing, a forced install moves the hook to the end |
| ShellHookLaws.UninstallUndoesInstall | src/cli/shell_env.rs:222-265 | On a profile without markers, install then uninstall gives the text back, with a final newline if it had text and none |
| ShellHookLaws.RoundTripExactly | src/cli/shell_env.rs:347-357 | For a profile that does not hold both markers the round trip works if and only if it holds neither |
| ShellHookLaws.ForcedInstallMovesToEnd | src/cli/shell_env.rs:240-251 | From any one block, a forced install keeps the text around it in order and leaves one hook, each marker once, strictly last; any second install changes nothing |
| ShellHookLaws.UnchangedExactly | src/cli/shell_env.rs:113-120 | An unforced install leaves a profile with both markers alone exactly when the text between them has the words for its shell |
| ShellHookLaws.BlockLayout | src/cli/shell_env.rs:224-239 | A profile with one block is the text before it, the block from marker to marker, the rest of that line with its break, and the text after |
| ShellHookLaws.UpgradeInPlace | src/cli/shell_env.rs:252-257 | Without those words, an unforced install puts the new hook in place of the block, keeps the text before and after it in place, and is itself up to date |
| ShellHookLaws.PanicsExactly | src/cli/shell_env.rs:224-228 | Install slices backwards if and only if the first start marker lies behind the first end marker with something between; uninstall never does |
| ShellHookLaws.PanicsExample | src/cli/shell_env.rs:224-228 | A profile with the two markers in the wrong order, on which install panics, forced or not |
| ShellTemplates.GeneratedIsClear | src/cli/shell_env.rs:85-120 | For a shims path without marker text, the hook of every shell has each marker once, at its end, and is recognised as up to date |
| ShellTemplates.PathComesFirst | src/cli/shell_env.rs:85-110 | The generated lines of every shell put the shims path first in PATH |
| ShellTemplates.GeneratedHookLaws | src/cli/shell_env.rs:198-367 | The round trip, the forced move and, exactly when the block lacks the words of its shell, the upgrade, for the generated hook of any shell and any shims path without marker text |
| EditScripts.NoScriptBelow | src/report/diff_project.rs:300-435 | No edit script has fewer edits than the distance of its two texts |
| EditScripts.ShortestScript | src/report/diff_project.rs:300-435 | Some script has no more |
| EditScripts.CommonEnds | src/report/diff_project.rs:304-318 | Lines both texts begin or end with do not change the distance, so setting them aside is harmless |
| Waves.FirstHitIsCorner | src/report/diff_project.rs:348-376 | Though the search runs past the ends of the texts, the first point it finds at both ends is exactly the corner |
| Waves.ScriptHits | src/report/diff_project.rs:348-376 | Every edit script is overtaken by the search in the round of its number of edits |
| LineDiff.Follow | src/report/diff_project.rs:361-365 | The inner loop follows a diagonal to the end of the agreeing lines |
| LineDiff.Round | src/report/diff_project.rs:350-372 | A round over the shared array, every other slot rewritten, fills in its furthest points or stops at a hit |
| LineDiff.Search | src/report/diff_project.rs:341-376 | The search stops in the first round with a hit, keeping the tables of all rounds, or finds none up to its limit |
| LineDiff.Backtrack | src/report/diff_project.rs:378-413 | The walk back through the tables gives a script from one text to the other with one edit a round |
| DiffOps.PushLines | src/report/diff_project.rs:324-339 | Pushing lines with one mark adds them to the texts that mark reads and writes |
| DiffOps.ComputeDiffOps | src/report/diff_project.rs:300-435 | The operations read the old lines and write the new ones; within the limits they make the least possible number of edits, and beyond them all lines between the common ends are deleted and then inserted |
| DiffOps.ShownIsShortest | src/report/diff_project.rs:300-435 | The operations are a shortest script if and only if the middles are within the limits or share no line |
| Hunks.FindClusters | src/report/diff_project.rs:450-463 | Clusters hold every change, go on over at most five unchanged operations, and lie more than six operations apart |
| Hunks.RenderHunks | src/report/diff_project.rs:438-491 | Applying the hunks to the old lines, with every header number checked, gives the new lines; there are hunks exactly when something changed, one for each cluster |
| Hunks.ShownExactly | src/report/diff_project.rs:465-472 | The hunks show an operation exactly when it is at most three operations from a change |
| Hunks.SameHunk | src/report/diff_project.rs:450-463 | Two neighbouring changes are in one hunk exactly when they are at most six operations apart |
| Review.FormatUnifiedDiff | src/report/diff_project.rs:278-297 | No lines and no patch exactly when the texts agree; otherwise the patch turns one into the other, made of the hunks of a diff, and the counts balance |
| Review.SameLinesNoPatch | src/cli/diff.rs:562-590 | A text and the same with a final newline are listed as modified with no lines and no patch |
| TextLines.LinesBetweenBreaks | src/cli/diff.rs:507 | The lines of a text are what stands between its breaks, in order, without a carriage return right before the break |
| TextLines.LinesCount | src/cli/diff.rs:507-510 | There are as many lines as breaks, and one more if the text does not end in one; no line holds a break |
| TextLines.ReturnsDoNotShow | src/cli/diff.rs:576-577 | Carriage returns put before any breaks leave the lines as they are |
| ReviewedFiles.BinaryExactly | src/report/diff_project.rs:212-218 | A file is binary exactly when one of its first 8192 bytes is null or it encodes no scalar values |
| ReviewedFiles.MaskExactly | src/cli/diff.rs:529-538 | Masked modes agree exactly when the modes agree in their twelve lowest bits |
| ReviewedFiles.ModeListed | src/cli/diff.rs:526-545 | With equal bytes a file is listed exactly when its mode on disk can be read and differs in those bits |
| ReviewedFiles.PathsRise | src/cli/diff.rs:623 | Paths are in strictly increasing order by the first byte that differs |
| ReviewedFiles.BucketEntries | src/cli/diff.rs:126-143 | A bucket has the path, counts and binary flag of each file of its kind, and nothing else |
| Review.ReviewAdded | src/cli/diff.rs:491-520 | An added file is described by its own lines or as binary |
| Review.ReviewDeleted | src/cli/diff.rs:592-621 | A deleted file likewise |
| Review.ReviewCommon | src/cli/diff.rs:522-590 | A path on both sides is listed exactly when bytes or masked modes differ, with the right kind of change |
| Review.CompareSnapshotAgainstDisk | src/cli/diff.rs:472-631 | A path is listed exactly when the filter lets it through and it differs; once, in strictly increasing order, and rightly described |
| Review.ReviewRestoresDisk | src/cli/diff.rs:472-631 | The changes of an unfiltered review carried out on the snapshot give the tree on disk |
| Review.PathsDetermined | src/cli/diff.rs:623 | The order of the list is the only one for its paths |
| Review.ToJson | src/cli/diff.rs:114-177 | Each bucket is the entries of its kind in order, the totals are those of the list, and patches are given only when asked for and present |
| Review.BucketsPartition | src/cli/diff.rs:114-177 | The four buckets partition the list |
| Review.TotalsOfBuckets | src/cli/diff.rs:123-177 | The sizes and the line totals of the buckets add up to those of the list |
| AutoTimeout.Rank | src/audit/history.rs:176-178 | The k-th smallest sample is at most v exactly when more than k samples are |
| AutoTimeout.PercentileIndex | src/audit/history.rs:177-178 | The index lies inside the list and is 0.95 (n - 1) rounded to the nearest integer, halves up |
| AutoTimeout.TimeoutExactly | src/audit/history.rs:170-182 | The timeout is twice the sample of that rank, by counting, up to 2^64 - 1 and from 300 seconds on |
| AutoTimeout.TimeoutIgnoresOrder | src/audit/history.rs:170-182 | The timeout does not depend on the order of the samples |
| AutoTimeout.TimeoutMonotone | src/audit/history.rs:170-182 | It is at least 300 seconds and never drops when samples grow |
| AutoTimeout.TimeoutCovers | src/audit/history.rs:170-182 | At least (19n - 9)/20 of n samples, doubled and saturated, fit into it |
| AutoTimeout.TimeoutIsReached | src/audit/history.rs:176-182 | A timeout above 300 is reached by at least (n + 9)/20 of n samples, doubled |
| Deduplication.DeduplicateRecords | src/audit/history.rs:287-310 | The result holds the best record of each named session once and all nameless records, sorted by time |
| Deduplication.BestIsLatest | src/audit/history.rs:294-303 | The best record has the greatest timestamp, and is the last of those that have it |
| Deduplication.OneRecordPerSession | src/audit/history.rs:287-310 | A named session occurs once in the result, with its best record |
| Deduplication.DeduplicationIsIdempotent | src/audit/history.rs:287-310 | Doing it again keeps the same records, up to the order of equal timestamps |
| SessionLog.ParseLog | src/audit/history.rs:673-925 | Each map counts every violation of its kind as often as the log has it, and their sum is the number of violation lines |
| LogReports.ReportsExactly | src/audit/history.rs:735-854 | A line counts as a violation exactly when it says so: which host and port, or which path or system call, process and source |
| LogReports.TallyByLines | src/audit/history.rs:684-854 | Each map holds under each key the number of lines that report it, and the total is the number of lines that report any |
| LogReports.TypedViolations | src/audit/history.rs:735-767 | Of the events that parse, the violations are the blocked attempts, the refused requests and the quota events |
| SessionLog.ViolationsAreEvents | src/audit/history.rs:684-778 | Violations never outnumber events |
| SessionLog.LogsAdd | src/audit/history.rs:673-925 | Appending logs adds their violations under every key |
| Digest.GenerateDigest | src/audit/digest.rs:34-111 | All totals are the saturated sums, successes and failures are counted, and each ranking lists every name once with its count; agent and profile counts add up to the sessions |
| DigestCounts.DigestExactly | src/audit/digest.rs:46-80 | The totals are sums up to 2^64 - 1 and numbers of sessions |
| DigestCounts.RankingsExactly | src/audit/digest.rs:52-95 | Each ranking lists a name with a number exactly when so many sessions or events have it, higher numbers first, then by name |
| Digest.DigestIgnoresOrder | src/audit/digest.rs:34-111 | Permuting the records gives the identical summary |
| Digest.RankingUnique | src/audit/digest.rs:85-95 | A ranking by count, then name, is unique, whatever order the hash map had |
| Digest.SessionsAddUp | src/audit/digest.rs:46-52 | Successes and failures add up to the sessions |

## Left out

- The bytes of SHA-256 and of JSON text, and floating-point precision in payloads: a number that is no `u64` is an opaque value.
- Payloads that are not JSON objects, errors of reading and writing, and two processes on one ledger.
- LedgerRuns.ReopensAreInvisible: asks for fewer than 2^64 operations, because a chain of 2^64 records wraps to number 0 and can then not be reopened.
- The wording of ledger reasons: a reason is a value that carries what it quotes, and `MentionsMark` says whether its text holds the words looked for; the message of a parse error may be any text.
- SanitizeTwice.SecondRunExactly: the exact condition is on the text between the two runs; of the line before the first run `SecondRunWhenSettled` gives one that is enough.
- Restoring profiles in bulk (`repair_shell_profiles`), finding profiles, file modes and directories.
- Entropy.EntropyAbove: exact arithmetic, without the rounding of `f64`; the percentile index likewise.
- ShellHook.Body: what a shell makes of the generated lines is not modelled; of their text the markers, the words of an up-to-date block and the setting of PATH are stated.
- The path filter of a review is an arbitrary predicate; `matches_path_filter` is not part of this model.
- Hunks.RenderHunks: hunks are values; their text and colours are not modelled.
- Reading tar archives and scanning directories: both trees are given as maps, with a mode that may be unreadable.
- Security telemetry in a review, and the session's own fields (time, command, exit code) and suspicious entries in the log parser.
- Sorting in place: the library's sorts are one stable sort of sequences, `Sorting.Sort`, proved to sort and to keep the elements.
- Overflow of `usize` and `u64` counters outside the ledger; the saturating totals are modelled.
- Verdicts, exit codes, process trees, kernel probes, benchmarks and command-line plumbing are not part of this model.
