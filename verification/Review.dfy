/** The review of a session: its snapshot against the disk, and the JSON summary of it. */
module Review {
  import opened Wrappers
  import opened Utf8
  import opened Sorting
  import opened EditScripts
  import opened DiffOps
  import opened Hunks

  // ---------- Files ----------

  const PROBE: nat := 8192

  /** A null byte near the start, or text that is not UTF-8. */
  predicate IsBinary(bytes: string) {
    '\0' in bytes[..Least(|bytes|, PROBE)] || !Valid(bytes)
  }

  /** `str::lines`: every line without its `\n` or `\r\n`, a last one without `\n` as it is. */
  function Lines(text: string): seq<string> {
    LinesFrom(text, 0)
  }

  function LinesFrom(text: string, n: nat): seq<string>
    requires n <= |text|
    decreases |text|, |text| - n
  {
    if text == "" then []
    else if n == |text| then [text]
    else if text[n] == '\n' then [WithoutReturn(text[..n])] + LinesFrom(text[n + 1..], 0)
    else LinesFrom(text, n + 1)
  }

  function WithoutReturn(line: string): string {
    if line != "" && line[|line| - 1] == '\r' then line[..|line| - 1] else line
  }

  datatype SnapshotFile = SnapshotFile(bytes: string, mode: nat)

  /** A file on disk; its mode when it can be read. */
  datatype DiskFile = DiskFile(bytes: string, mode: Option<nat>)

  type Snapshot = map<string, SnapshotFile>
  type Disk = map<string, DiskFile>

  datatype ChangeType = Added | Modified | Deleted | PermissionsChanged

  datatype Patch =
    | NoPatch
    | BinaryAdded | BinaryDiffers | BinaryDeleted
    | AllAdded(lines: seq<string>) | AllDeleted(lines: seq<string>)
    | Unified(hunks: seq<Hunk>)
    | ModeChange(before: nat, after: nat)

  datatype FileChange = FileChange(
    path: string, changeType: ChangeType, linesAdded: nat, linesDeleted: nat, isBinary: bool, patch: Patch)

  /** `mode & 0o7777`. */
  function Mask(mode: nat): nat {
    mode % 4096
  }

  function DiskMode(s: Snapshot, d: Disk, path: string): nat
    requires path in d
  {
    if d[path].mode.Some? then Mask(d[path].mode.value) else if path in s then Mask(s[path].mode) else 0
  }

  // ---------- What a review says ----------

  datatype File = File(bytes: string, mode: nat)

  type Tree = map<string, File>

  function SnapshotTree(s: Snapshot): Tree {
    map p | p in s :: File(s[p].bytes, Mask(s[p].mode))
  }

  function DiskTree(s: Snapshot, d: Disk): Tree {
    map p | p in d :: File(d[p].bytes, DiskMode(s, d, p))
  }

  /** On one side only, or with other bytes or another masked mode. */
  predicate Differs(s: Snapshot, d: Disk, path: string) {
    if path in s && path in d then SnapshotTree(s)[path] != DiskTree(s, d)[path] else path in s || path in d
  }

  /**
   * A text change: the patch turns one text into the other, the counts balance,
   * and within the limits no smaller number of lines would do.
   */
  predicate TextChange(a: seq<string>, b: seq<string>, linesAdded: nat, linesDeleted: nat, patch: Patch) {
    if a == b then linesAdded == 0 && linesDeleted == 0 && patch == NoPatch
    else
      var (x, y) := Middle(a, b);
      && patch.Unified? && patch.hunks != [] && Patched(a, patch.hunks) == Some(b)
      && |a| + linesAdded == |b| + linesDeleted
      && linesAdded + linesDeleted == if WithinLimits(x, y) then Distance(a, b) else |x| + |y|
  }

  /** A final newline makes other bytes, but not other lines: such a file is modified, with no lines and no patch. */
  lemma {:induction false} FinalNewline(text: string, n: nat)
    requires n <= |text| && text != "" && text[|text| - 1] != '\n' && text[|text| - 1] != '\r'
    ensures LinesFrom(text + "\n", n) == LinesFrom(text, n) && text + "\n" != text
    decreases |text|, |text| - n
  {
    var longer := text + "\n";
    if n == |text| {
      assert longer[..n] == text && longer[n + 1..] == "";
    } else if text[n] == '\n' {
      assert longer[..n] == text[..n] && longer[n + 1..] == text[n + 1..] + "\n";
      assert text[n + 1..][|text| - n - 2] == text[|text| - 1];
      FinalNewline(text[n + 1..], 0);
    } else {
      FinalNewline(text, n + 1);
    }
  }

  lemma SameLinesNoPatch(text: string, linesAdded: nat, linesDeleted: nat, patch: Patch)
    requires text != "" && text[|text| - 1] != '\n' && text[|text| - 1] != '\r'
    requires TextChange(Lines(text), Lines(text + "\n"), linesAdded, linesDeleted, patch)
    ensures text != text + "\n" && linesAdded == 0 && linesDeleted == 0 && patch == NoPatch
  {
    hide Middle, WithinLimits, Distance, Patched;
    FinalNewline(text, 0);
  }

  predicate Describes(s: Snapshot, d: Disk, f: FileChange) {
    var p := f.path;
    match f.changeType
    case Added =>
      p !in s && p in d && f.isBinary == IsBinary(d[p].bytes) && f.linesDeleted == 0
      && var lines := Lines(d[p].bytes);
         if f.isBinary then f.linesAdded == 0 && f.patch == BinaryAdded
         else f.linesAdded == |lines| && f.patch == AllAdded(lines)
    case Deleted =>
      p in s && p !in d && f.isBinary == IsBinary(s[p].bytes) && f.linesAdded == 0
      && var lines := Lines(s[p].bytes);
         if f.isBinary then f.linesDeleted == 0 && f.patch == BinaryDeleted
         else f.linesDeleted == |lines| && f.patch == AllDeleted(lines)
    case Modified =>
      p in s && p in d && s[p].bytes != d[p].bytes
      && f.isBinary == (IsBinary(s[p].bytes) || IsBinary(d[p].bytes))
      && if f.isBinary then f.linesAdded == 0 && f.linesDeleted == 0 && f.patch == BinaryDiffers
         else TextChange(Lines(s[p].bytes), Lines(d[p].bytes), f.linesAdded, f.linesDeleted, f.patch)
    case PermissionsChanged =>
      p in s && p in d && s[p].bytes == d[p].bytes && Mask(s[p].mode) != DiskMode(s, d, p)
      && f.isBinary == IsBinary(s[p].bytes) && f.linesAdded == 0 && f.linesDeleted == 0
      && f.patch == ModeChange(Mask(s[p].mode), DiskMode(s, d, p))
  }

  predicate Lists(files: seq<FileChange>, path: string) {
    exists f :: f in files && f.path == path
  }

  predicate PathLe(f: FileChange, g: FileChange) {
    StringLe(f.path, g.path)
  }

  ghost predicate Distinct(files: seq<FileChange>) {
    forall i, j :: 0 <= i < j < |files| ==> files[i].path != files[j].path
  }

  /** The exact difference as far as the filter lets it through: each path once, in strictly increasing order. */
  ghost predicate IsReview(s: Snapshot, d: Disk, filter: string -> bool, files: seq<FileChange>) {
    && (forall p :: Lists(files, p) <==> filter(p) && Differs(s, d, p))
    && (forall f :: f in files ==> Describes(s, d, f))
    && Sorted(PathLe, files) && Distinct(files)
  }

  // ---------- One file ----------

  /** Two texts: nothing when no line changed, or else the counts and the hunks. */
  method FormatUnifiedDiff(a: seq<string>, b: seq<string>) returns (added: nat, deleted: nat, patch: Patch)
    ensures TextChange(a, b, added, deleted, patch)
    ensures patch.Unified? ==> exists ops, clusters :: IsDiff(ops, a, b) && AreHunks(ops, clusters, patch.hunks)
  {
    hide AreHunks, Old, New, Deletes, Inserts, Distance, WithinLimits, Middle, Patched, Unchanged;
    var ops := ComputeDiffOps(a, b);
    added, deleted := Inserts(ops), Deletes(ops);
    LinesBalance(ops);
    ZeroEdits(a, b, ops);
    if added == 0 && deleted == 0 {
      return 0, 0, NoPatch;
    }
    var hunks := RenderHunks(ops);
    patch := Unified(hunks);
  }

  lemma {:induction false} NoEditsSameText(ops: seq<Op>)
    ensures Edits(ops) == 0 <==> Unchanged(ops, 0, |ops|)
  {
    if ops != [] {
      NoEditsSameText(ops[1..]);
      if Unchanged(ops[1..], 0, |ops[1..]|) && ops[0].Equal? {
        assert forall i :: 0 < i < |ops| ==> ops[i] == ops[1..][i - 1];
      }
      if Unchanged(ops, 0, |ops|) {
        assert ops[0].Equal?;
      }
    }
  }

  lemma {:induction false} NothingInBetween(a: seq<string>)
    ensures Distance(a, a) == 0 && WithoutCommonStart(a, a) == ([], [])
  {
    if a != [] {
      NothingInBetween(a[1..]);
    }
  }

  lemma ZeroEdits(a: seq<string>, b: seq<string>, ops: seq<Op>)
    requires IsDiff(ops, a, b)
    ensures a == b <==> Edits(ops) == 0
    ensures a != b ==> !Unchanged(ops, 0, |ops|)
  {
    hide Old, New, Deletes, Inserts, Unchanged;
    NoEditsSameText(ops);
    if Edits(ops) == 0 {
      SameLines(ops);
    }
    if a == b {
      NothingInBetween(a);
    }
  }

  method ReviewAdded(s: Snapshot, d: Disk, path: string) returns (f: FileChange)
    requires path in d && path !in s
    ensures f.path == path && f.changeType == Added && Describes(s, d, f)
  {
    hide IsBinary, Lines, TextChange;
    var bytes := d[path].bytes;
    if IsBinary(bytes) {
      f := FileChange(path, Added, 0, 0, true, BinaryAdded);
    } else {
      var lines := Lines(bytes);
      f := FileChange(path, Added, |lines|, 0, false, AllAdded(lines));
    }
  }

  method ReviewDeleted(s: Snapshot, d: Disk, path: string) returns (f: FileChange)
    requires path in s && path !in d
    ensures f.path == path && f.changeType == Deleted && Describes(s, d, f)
  {
    hide IsBinary, Lines, TextChange;
    var bytes := s[path].bytes;
    if IsBinary(bytes) {
      f := FileChange(path, Deleted, 0, 0, true, BinaryDeleted);
    } else {
      var lines := Lines(bytes);
      f := FileChange(path, Deleted, 0, |lines|, false, AllDeleted(lines));
    }
  }

  /** A path on both sides: its bytes first, and only when they agree its mode. */
  method ReviewCommon(s: Snapshot, d: Disk, path: string) returns (change: Option<FileChange>)
    requires path in s && path in d
    ensures change.Some? <==> Differs(s, d, path)
    ensures change.Some? ==> change.value.path == path && Describes(s, d, change.value)
  {
    hide IsBinary, Lines, TextChange, Mask;
    var before, after := s[path].bytes, d[path].bytes;
    var snapshotMode, diskMode := Mask(s[path].mode), DiskMode(s, d, path);
    if before == after {
      if snapshotMode != diskMode {
        return Some(FileChange(path, PermissionsChanged, 0, 0, IsBinary(before), ModeChange(snapshotMode, diskMode)));
      }
      return None;
    }
    if IsBinary(before) || IsBinary(after) {
      return Some(FileChange(path, Modified, 0, 0, true, BinaryDiffers));
    }
    var added, deleted, patch := FormatUnifiedDiff(Lines(before), Lines(after));
    return Some(FileChange(path, Modified, added, deleted, false, patch));
  }

  // ---------- The three loops ----------

  /** Each of some paths that differs and passes the filter is listed once; nothing else is. */
  ghost predicate Covers(s: Snapshot, d: Disk, filter: string -> bool, files: seq<FileChange>, paths: set<string>) {
    && (forall p :: Lists(files, p) <==> p in paths && filter(p) && Differs(s, d, p))
    && (forall f :: f in files ==> Describes(s, d, f))
    && Distinct(files)
  }

  lemma CoverListed(s: Snapshot, d: Disk, filter: string -> bool, files: seq<FileChange>, paths: set<string>, f: FileChange)
    requires Covers(s, d, filter, files, paths) && Describes(s, d, f)
    requires f.path !in paths && filter(f.path) && Differs(s, d, f.path)
    ensures Covers(s, d, filter, files + [f], paths + {f.path})
  {
    hide Describes, Differs;
    var more := files + [f];
    forall i | 0 <= i < |files|
      ensures files[i].path != f.path
    {
      assert Lists(files, files[i].path);
    }
    forall p
      ensures Lists(more, p) <==> p in paths + {f.path} && filter(p) && Differs(s, d, p)
    {
      ListedOneMore(files, f, p);
    }
  }

  lemma ListedOneMore(files: seq<FileChange>, f: FileChange, p: string)
    ensures Lists(files + [f], p) <==> Lists(files, p) || f.path == p
  {
    if f.path == p {
      assert f in files + [f];
    }
    if Lists(files, p) {
      var g :| g in files && g.path == p;
      assert g in files + [f];
    }
  }

  lemma CoverSkipped(s: Snapshot, d: Disk, filter: string -> bool, files: seq<FileChange>, paths: set<string>, path: string)
    requires Covers(s, d, filter, files, paths) && !(filter(path) && Differs(s, d, path))
    ensures Covers(s, d, filter, files, paths + {path})
  {
    hide Describes, Differs;
  }

  lemma CoverSorted(s: Snapshot, d: Disk, filter: string -> bool, files: seq<FileChange>, paths: set<string>)
    requires Covers(s, d, filter, files, paths) && s.Keys + d.Keys <= paths
    ensures IsReview(s, d, filter, Sort(PathLe, files))
  {
    hide Describes;
    var sorted := Sort(PathLe, files);
    SortKeeps(PathLe, files);
    PathOrder();
    SortSorts(PathLe, files);
    forall f
      ensures f in sorted <==> f in files
    {
      assert f in sorted <==> f in multiset(sorted);
      assert f in files <==> f in multiset(files);
    }
    forall p
      ensures Lists(sorted, p) <==> filter(p) && Differs(s, d, p)
    {
      assert Lists(sorted, p) <==> Lists(files, p);
    }
    DistinctPermuted(files, sorted);
  }

  lemma PathOrder()
    ensures TotalOrder(PathLe)
  {
    forall f: FileChange, g: FileChange
      ensures PathLe(f, g) || PathLe(g, f)
    {
      StringTotal(f.path, g.path);
    }
    forall f: FileChange, g: FileChange, h: FileChange | PathLe(f, g) && PathLe(g, h)
      ensures PathLe(f, h)
    {
      StringTransitive(f.path, g.path, h.path);
    }
  }

  lemma DistinctPermuted(files: seq<FileChange>, sorted: seq<FileChange>)
    requires Distinct(files) && multiset(sorted) == multiset(files)
    ensures Distinct(sorted)
  {
    forall i, j | 0 <= i < j < |sorted|
      ensures sorted[i].path != sorted[j].path
    {
      var f, g := sorted[i], sorted[j];
      assert f in multiset(files) && g in multiset(files);
      var m :| 0 <= m < |files| && files[m] == f;
      var n :| 0 <= n < |files| && files[n] == g;
      if m == n {
        TwiceThere(sorted, i, j);
        Once(files, m);
      }
    }
  }

  lemma Once(files: seq<FileChange>, m: nat)
    requires Distinct(files) && m < |files|
    ensures multiset(files)[files[m]] == 1
  {
    var x, y := files[..m], files[m + 1..];
    assert files == x + [files[m]] + y;
    assert forall i :: 0 <= i < |x| ==> x[i] == files[i];
    assert forall i :: 0 <= i < |y| ==> y[i] == files[m + 1 + i];
    assert files[m] !in x && files[m] !in y;
  }

  /** The three loops, over the paths added, common and deleted, and the sort. */
  method CompareSnapshotAgainstDisk(s: Snapshot, scanned: Disk, archive: Option<string>, filter: string -> bool)
    returns (files: seq<FileChange>)
    ensures IsReview(s, if archive.Some? then scanned - {archive.value} else scanned, filter, files)
  {
    hide Describes, Differs, Covers;
    var d := if archive.Some? then scanned - {archive.value} else scanned;
    files := [];
    ghost var done := {};
    NothingCovered(s, d, filter);
    var rest := d.Keys - s.Keys;
    while rest != {}
      invariant Covers(s, d, filter, files, done) && rest !! done && rest + done == d.Keys - s.Keys
    {
      var path :| path in rest;
      if filter(path) {
        var f := ReviewAdded(s, d, path);
        OneSideDiffers(s, d, path);
        CoverListed(s, d, filter, files, done, f);
        files := files + [f];
      } else {
        CoverSkipped(s, d, filter, files, done, path);
      }
      rest, done := rest - {path}, done + {path};
    }
    rest := d.Keys * s.Keys;
    while rest != {}
      invariant Covers(s, d, filter, files, done) && rest !! done && rest + done == d.Keys
    {
      var path :| path in rest;
      var change := ReviewIfPassed(s, d, filter, path);
      if change.Some? {
        CoverListed(s, d, filter, files, done, change.value);
        files := files + [change.value];
      } else {
        CoverSkipped(s, d, filter, files, done, path);
      }
      rest, done := rest - {path}, done + {path};
    }
    rest := s.Keys - d.Keys;
    while rest != {}
      invariant Covers(s, d, filter, files, done) && rest !! done && rest + done == d.Keys + s.Keys
    {
      var path :| path in rest;
      if filter(path) {
        var f := ReviewDeleted(s, d, path);
        OneSideDiffers(s, d, path);
        CoverListed(s, d, filter, files, done, f);
        files := files + [f];
      } else {
        CoverSkipped(s, d, filter, files, done, path);
      }
      rest, done := rest - {path}, done + {path};
    }
    CoverSorted(s, d, filter, files, done);
    files := Sort(PathLe, files);
  }

  method ReviewIfPassed(s: Snapshot, d: Disk, filter: string -> bool, path: string) returns (change: Option<FileChange>)
    requires path in s && path in d
    ensures change.Some? <==> filter(path) && Differs(s, d, path)
    ensures change.Some? ==> change.value.path == path && Describes(s, d, change.value)
  {
    hide Describes, Differs;
    if !filter(path) {
      return None;
    }
    change := ReviewCommon(s, d, path);
  }

  lemma OneSideDiffers(s: Snapshot, d: Disk, path: string)
    requires path in s.Keys + d.Keys && !(path in s && path in d)
    ensures Differs(s, d, path)
  {
  }

  lemma NothingCovered(s: Snapshot, d: Disk, filter: string -> bool)
    ensures Covers(s, d, filter, [], {})
  {
  }

  // ---------- The listed changes are all there is to it ----------

  /** The changes carried out one by one: contents come from the disk, a changed mode from the review. */
  function Overlay(tree: Tree, disk: Tree, files: seq<FileChange>): Tree {
    if files == [] then tree
    else OverlayOne(Overlay(tree, disk, files[..|files| - 1]), disk, files[|files| - 1])
  }

  function OverlayOne(tree: Tree, disk: Tree, f: FileChange): Tree {
    match f.changeType
    case Deleted => tree - {f.path}
    case PermissionsChanged =>
      if f.path in tree && f.patch.ModeChange? then tree[f.path := File(tree[f.path].bytes, f.patch.after)] else tree
    case _ => if f.path in disk then tree[f.path := disk[f.path]] else tree
  }

  predicate SameAt(t: Tree, u: Tree, p: string) {
    (p in t <==> p in u) && (p in t ==> t[p] == u[p])
  }

  lemma OneOverlaid(s: Snapshot, d: Disk, t: Tree, f: FileChange, p: string)
    requires Describes(s, d, f) && SameAt(t, SnapshotTree(s), f.path)
    ensures SameAt(OverlayOne(t, DiskTree(s, d), f), if p == f.path then DiskTree(s, d) else t, p)
  {
    hide TextChange, IsBinary, Lines, Mask, DiskMode;
  }

  lemma {:induction false} Overlaid(s: Snapshot, d: Disk, files: seq<FileChange>, p: string)
    requires Distinct(files) && forall f :: f in files ==> Describes(s, d, f)
    ensures SameAt(Overlay(SnapshotTree(s), DiskTree(s, d), files),
                   if Lists(files, p) then DiskTree(s, d) else SnapshotTree(s), p)
  {
    hide Describes, SnapshotTree, DiskTree, OverlayOne;
    if files != [] {
      var init, f := files[..|files| - 1], files[|files| - 1];
      assert files == init + [f];
      Overlaid(s, d, init, p);
      Overlaid(s, d, init, f.path);
      assert !Lists(init, f.path);
      OneOverlaid(s, d, Overlay(SnapshotTree(s), DiskTree(s, d), init), f, p);
      ListedOneMore(init, f, p);
    }
  }

  /** An unfiltered review carried out on the snapshot gives the tree on disk. */
  lemma ReviewRestoresDisk(s: Snapshot, d: Disk, filter: string -> bool, files: seq<FileChange>)
    requires IsReview(s, d, filter, files) && forall p :: filter(p)
    ensures Overlay(SnapshotTree(s), DiskTree(s, d), files) == DiskTree(s, d)
  {
    hide Describes, Overlay;
    var t := Overlay(SnapshotTree(s), DiskTree(s, d), files);
    forall p
      ensures SameAt(t, DiskTree(s, d), p)
    {
      Overlaid(s, d, files, p);
      assert Lists(files, p) <==> Differs(s, d, p);
    }
    SameTrees(t, DiskTree(s, d));
  }

  lemma SameTrees(t: Tree, u: Tree)
    requires forall p :: SameAt(t, u, p)
    ensures t == u
  {
    assert forall p :: p in t ==> SameAt(t, u, p);
    assert forall p :: p in u ==> SameAt(t, u, p);
  }

  /** Two reviews of the same trees list the same paths in the same order. */
  lemma {:induction false} PathsDetermined(f: seq<FileChange>, g: seq<FileChange>)
    requires Sorted(PathLe, f) && Distinct(f) && Sorted(PathLe, g) && Distinct(g)
    requires forall p :: Lists(f, p) <==> Lists(g, p)
    ensures |f| == |g| && forall i :: 0 <= i < |f| ==> f[i].path == g[i].path
    decreases |f|
  {
    if f == [] {
      assert g == [] by {
        if g != [] {
          assert Lists(g, g[0].path);
        }
      }
    } else {
      FirstPath(f, g);
      FirstPath(g, f);
      StringTotal(f[0].path, g[0].path);
      forall p
        ensures Lists(f[1..], p) <==> Lists(g[1..], p)
      {
        RestListed(f, p);
        RestListed(g, p);
      }
      PathsDetermined(f[1..], g[1..]);
    }
  }

  lemma FirstPath(f: seq<FileChange>, g: seq<FileChange>)
    requires f != [] && Sorted(PathLe, g) && forall p :: Lists(f, p) ==> Lists(g, p)
    ensures g != [] && StringLe(g[0].path, f[0].path)
  {
    assert Lists(f, f[0].path);
    var h :| h in g && h.path == f[0].path;
    StringTotal(h.path, h.path);
  }

  lemma RestListed(f: seq<FileChange>, p: string)
    requires f != [] && Distinct(f)
    ensures Lists(f[1..], p) <==> Lists(f, p) && p != f[0].path
  {
    if Lists(f, p) && p != f[0].path {
      var h :| h in f && h.path == p;
      assert h in f[1..];
    }
    if Lists(f[1..], p) {
      var h :| h in f[1..] && h.path == p;
      assert h in f;
    }
  }

  // ---------- The JSON summary ----------

  datatype Stat = Stat(path: string, linesAdded: nat, linesDeleted: nat, isBinary: bool)

  datatype FilePatch = FilePatch(path: string, changeType: ChangeType, patch: Patch)

  datatype ReviewJson = ReviewJson(
    added: seq<Stat>, modified: seq<Stat>, deleted: seq<Stat>, permissionsChanged: seq<Stat>,
    totalChanged: nat, totalLinesAdded: nat, totalLinesDeleted: nat, diffs: seq<FilePatch>)

  function StatOf(f: FileChange): Stat {
    Stat(f.path, f.linesAdded, f.linesDeleted, f.isBinary)
  }

  /** The entries of one kind, in the order of the review. */
  function Bucket(files: seq<FileChange>, kind: ChangeType): seq<Stat> {
    if files == [] then []
    else
      var f := files[|files| - 1];
      Bucket(files[..|files| - 1], kind) + if f.changeType == kind then [StatOf(f)] else []
  }

  function Stats(files: seq<FileChange>): seq<Stat> {
    if files == [] then [] else Stats(files[..|files| - 1]) + [StatOf(files[|files| - 1])]
  }

  function Patches(files: seq<FileChange>): seq<FilePatch> {
    if files == [] then []
    else
      var f := files[|files| - 1];
      Patches(files[..|files| - 1]) + if f.patch == NoPatch then [] else [FilePatch(f.path, f.changeType, f.patch)]
  }

  function SumAdded(stats: seq<Stat>): nat {
    if stats == [] then 0 else SumAdded(stats[..|stats| - 1]) + stats[|stats| - 1].linesAdded
  }

  function SumDeleted(stats: seq<Stat>): nat {
    if stats == [] then 0 else SumDeleted(stats[..|stats| - 1]) + stats[|stats| - 1].linesDeleted
  }

  method ToJson(files: seq<FileChange>, includePatches: bool) returns (j: ReviewJson)
    ensures j.added == Bucket(files, Added) && j.modified == Bucket(files, Modified)
    ensures j.deleted == Bucket(files, Deleted) && j.permissionsChanged == Bucket(files, PermissionsChanged)
    ensures j.totalChanged == |files| && j.diffs == if includePatches then Patches(files) else []
    ensures j.totalLinesAdded == SumAdded(Stats(files)) && j.totalLinesDeleted == SumDeleted(Stats(files))
  {
    j := ReviewJson([], [], [], [], |files|, 0, 0, []);
    for i := 0 to |files|
      invariant j.added == Bucket(files[..i], Added) && j.modified == Bucket(files[..i], Modified)
      invariant j.deleted == Bucket(files[..i], Deleted)
      invariant j.permissionsChanged == Bucket(files[..i], PermissionsChanged)
      invariant j.totalChanged == |files| && j.diffs == if includePatches then Patches(files[..i]) else []
      invariant j.totalLinesAdded == SumAdded(Stats(files[..i])) && j.totalLinesDeleted == SumDeleted(Stats(files[..i]))
    {
      hide SumAdded, SumDeleted, Stats, Bucket, Patches;
      var f := files[i];
      JsonStep(files, i);
      j := j.(totalLinesAdded := j.totalLinesAdded + f.linesAdded,
              totalLinesDeleted := j.totalLinesDeleted + f.linesDeleted);
      match f.changeType {
        case Added => j := j.(added := j.added + [StatOf(f)]);
        case Modified => j := j.(modified := j.modified + [StatOf(f)]);
        case Deleted => j := j.(deleted := j.deleted + [StatOf(f)]);
        case PermissionsChanged => j := j.(permissionsChanged := j.permissionsChanged + [StatOf(f)]);
      }
      if includePatches && f.patch != NoPatch {
        j := j.(diffs := j.diffs + [FilePatch(f.path, f.changeType, f.patch)]);
      }
    }
    assert files[..|files|] == files;
  }

  lemma JsonStep(files: seq<FileChange>, i: nat)
    requires i < |files|
    ensures var f := files[i];
            && (forall kind :: Bucket(files[..i + 1], kind) ==
                               Bucket(files[..i], kind) + if f.changeType == kind then [StatOf(f)] else [])
            && Patches(files[..i + 1]) ==
               Patches(files[..i]) + (if f.patch == NoPatch then [] else [FilePatch(f.path, f.changeType, f.patch)])
            && SumAdded(Stats(files[..i + 1])) == SumAdded(Stats(files[..i])) + f.linesAdded
            && SumDeleted(Stats(files[..i + 1])) == SumDeleted(Stats(files[..i])) + f.linesDeleted
  {
    assert files[..i + 1][..i] == files[..i];
    assert (Stats(files[..i]) + [StatOf(files[i])])[..|Stats(files[..i])|] == Stats(files[..i]);
  }

  /** The buckets partition the list: every entry is in one of them, as often as it is listed. */
  lemma {:induction false} BucketsPartition(files: seq<FileChange>)
    ensures multiset(Bucket(files, Added)) + multiset(Bucket(files, Modified)) + multiset(Bucket(files, Deleted))
            + multiset(Bucket(files, PermissionsChanged)) == multiset(Stats(files))
  {
    if files != [] {
      BucketsPartition(files[..|files| - 1]);
      hide Bucket, Stats;
      BucketStep(files, Added);
      BucketStep(files, Modified);
      BucketStep(files, Deleted);
      BucketStep(files, PermissionsChanged);
      StatsStep(files);
    }
  }

  /** The totals are the sums over the buckets. */
  lemma {:induction false} TotalsOfBuckets(files: seq<FileChange>)
    ensures var (a, m, d, p) := (Bucket(files, Added), Bucket(files, Modified), Bucket(files, Deleted),
                                 Bucket(files, PermissionsChanged));
            && |a| + |m| + |d| + |p| == |files|
            && SumAdded(a) + SumAdded(m) + SumAdded(d) + SumAdded(p) == SumAdded(Stats(files))
            && SumDeleted(a) + SumDeleted(m) + SumDeleted(d) + SumDeleted(p) == SumDeleted(Stats(files))
  {
    if files != [] {
      hide Bucket, Stats, SumAdded, SumDeleted;
      TotalsOfBuckets(files[..|files| - 1]);
      BucketStep(files, Added);
      BucketStep(files, Modified);
      BucketStep(files, Deleted);
      BucketStep(files, PermissionsChanged);
      StatsStep(files);
    }
  }

  lemma BucketStep(files: seq<FileChange>, kind: ChangeType)
    requires files != []
    ensures var b, f := Bucket(files[..|files| - 1], kind), files[|files| - 1];
            && multiset(Bucket(files, kind))
               == multiset(b) + (if f.changeType == kind then multiset{StatOf(f)} else multiset{})
            && |Bucket(files, kind)| == |b| + (if f.changeType == kind then 1 else 0)
            && SumAdded(Bucket(files, kind)) == SumAdded(b) + (if f.changeType == kind then f.linesAdded else 0)
            && SumDeleted(Bucket(files, kind)) == SumDeleted(b) + if f.changeType == kind then f.linesDeleted else 0
  {
    var b, f := Bucket(files[..|files| - 1], kind), files[|files| - 1];
    if f.changeType == kind {
      SumsAppend(b, StatOf(f));
    } else {
      assert b + [] == b;
    }
  }

  lemma StatsStep(files: seq<FileChange>)
    requires files != []
    ensures var b, f := Stats(files[..|files| - 1]), files[|files| - 1];
            && multiset(Stats(files)) == multiset(b) + multiset{StatOf(f)}
            && SumAdded(Stats(files)) == SumAdded(b) + f.linesAdded
            && SumDeleted(Stats(files)) == SumDeleted(b) + f.linesDeleted
  {
    SumsAppend(Stats(files[..|files| - 1]), StatOf(files[|files| - 1]));
  }

  lemma SumsAppend(stats: seq<Stat>, x: Stat)
    ensures SumAdded(stats + [x]) == SumAdded(stats) + x.linesAdded
    ensures SumDeleted(stats + [x]) == SumDeleted(stats) + x.linesDeleted
  {
    assert (stats + [x])[..|stats|] == stats;
  }
}
