/** Rebuilding a tree from validated entries in a fresh staging directory: extraction,
    the re-check of the result, and the order in which directories are made durable.
 */
module Staging {
  import opened ByteStrings
  import opened TarArchive
  import opened Sorting
  import CacheTree

  type Path = seq<bytes>

  datatype Node = Folder | Regular(content: bytes)

  type Nodes = map<Path, Node>

  type File = CacheTree.Source

  // ---- What extraction should leave behind ----

  /** The tree holds these files, the directories leading to them, and nothing else. */
  ghost predicate Holds(nodes: Nodes, files: seq<File>) {
    && (forall f :: f in files ==> f.path in nodes && nodes[f.path] == Regular(f.content))
    && (forall p :: p in nodes && nodes[p].Regular? ==> CacheTree.Source(p, nodes[p].content) in files)
    && (forall p :: p in nodes && nodes[p].Folder? ==> p != [] && LeadsToFile(p, files))
    && (forall f, k :: f in files && 0 < k < |f.path| ==> f.path[..k] in nodes && nodes[f.path[..k]].Folder?)
  }

  ghost predicate LeadsToFile(p: Path, files: seq<File>) {
    exists f :: f in files && p < f.path
  }

  /** No file's path is another's, or an ancestor of it. */
  ghost predicate NoConflict(files: seq<File>) {
    forall i, j :: 0 <= i < |files| && 0 <= j < |files| && i != j ==> !(files[i].path <= files[j].path)
  }

  predicate Blocked(nodes: Nodes, path: Path, k: nat)
    requires k <= |path|
  {
    path[..k] in nodes && nodes[path[..k]].Regular?
  }

  /** `nodes` with the first `k - 1` ancestors of `path` made directories. */
  function WithParents(nodes: Nodes, path: Path, k: nat): (r: Nodes)
    requires k <= |path|
  {
    if k <= 1 then nodes else WithParents(nodes, path, k - 1)[path[..k - 1] := Folder]
  }

  lemma {:induction false} WithParentsAt(nodes: Nodes, path: Path, k: nat, p: Path)
    requires k <= |path|
    ensures p in WithParents(nodes, path, k) <==> p in nodes || (0 < |p| < k && p == path[..|p|])
    ensures p in WithParents(nodes, path, k) ==>
              WithParents(nodes, path, k)[p] == if 0 < |p| < k && p == path[..|p|] then Folder else nodes[p]
  {
    if k > 1 {
      WithParentsAt(nodes, path, k - 1, p);
      assert |path[..k - 1]| == k - 1;
    }
  }

  // ---- One more file ----

  lemma ConflictAppend(files: seq<File>, f: File)
    ensures NoConflict(files + [f]) <==>
            NoConflict(files) && forall g :: g in files ==> !(g.path <= f.path) && !(f.path <= g.path)
  {
    var all := files + [f];
    if NoConflict(all) {
      forall i, j | 0 <= i < |files| && 0 <= j < |files| && i != j ensures !(files[i].path <= files[j].path) {
        assert !(all[i].path <= all[j].path);
      }
      forall g | g in files ensures !(g.path <= f.path) && !(f.path <= g.path) {
        var i :| 0 <= i < |files| && files[i] == g;
        assert !(all[i].path <= all[|files|].path) && !(all[|files|].path <= all[i].path);
      }
    }
  }

  lemma NoConflictPrefix(files: seq<File>, k: nat)
    requires NoConflict(files) && k <= |files|
    ensures NoConflict(files[..k])
  {
    forall i, j | 0 <= i < k && 0 <= j < k && i != j ensures !(files[..k][i].path <= files[..k][j].path) {
      assert !(files[i].path <= files[j].path);
    }
  }

  /** A file fits exactly when none of its ancestors is a file and nothing is in its place. */
  lemma FitsMeans(nodes: Nodes, files: seq<File>, f: File)
    requires Holds(nodes, files) && f.path != []
    ensures (forall k :: 0 < k < |f.path| ==> !Blocked(nodes, f.path, k)) && f.path !in nodes <==>
            forall g :: g in files && g.path != [] ==> !(g.path <= f.path) && !(f.path <= g.path)
  {
    if exists k :: 0 < k < |f.path| && Blocked(nodes, f.path, k) {
      var k :| 0 < k < |f.path| && Blocked(nodes, f.path, k);
      var g := CacheTree.Source(f.path[..k], nodes[f.path[..k]].content);
      assert g in files && g.path <= f.path;
    } else if f.path in nodes {
      if nodes[f.path].Regular? {
        assert CacheTree.Source(f.path, nodes[f.path].content) in files;
      } else {
        assert LeadsToFile(f.path, files);
      }
    } else {
      forall g | g in files && g.path != [] ensures !(g.path <= f.path) && !(f.path <= g.path) {
        FitsOne(nodes, files, f, g);
      }
    }
  }

  lemma FitsOne(nodes: Nodes, files: seq<File>, f: File, g: File)
    requires Holds(nodes, files) && g in files && g.path != []
    requires forall k :: 0 < k < |f.path| ==> !Blocked(nodes, f.path, k)
    requires f.path != [] && f.path !in nodes
    ensures !(g.path <= f.path) && !(f.path <= g.path)
  {
    PrefixTake(g.path, f.path);
    PrefixTake(f.path, g.path);
    assert 0 < |g.path| < |f.path| ==> !Blocked(nodes, f.path, |g.path|);
    assert forall k :: 0 < k < |g.path| ==> g.path[..k] in nodes;
  }

  lemma PrefixTake(p: Path, q: Path)
    ensures p <= q ==> p == q[..|p|] && (|p| < |q| || p == q)
  {
  }

  lemma HoldsOneMore(nodes: Nodes, files: seq<File>, f: File)
    requires Holds(nodes, files) && f.path != [] && f.path !in nodes
    requires forall k :: 0 < k < |f.path| ==> !Blocked(nodes, f.path, k)
    ensures Holds(WithParents(nodes, f.path, |f.path|)[f.path := Regular(f.content)], files + [f])
  {
    hide WithParents;
    var n := WithParents(nodes, f.path, |f.path|);
    var after, all := n[f.path := Regular(f.content)], files + [f];
    forall p {
      WithParentsAt(nodes, f.path, |f.path|, p);
    }
    forall g | g in all ensures g.path in after && after[g.path] == Regular(g.content) {
      assert 0 < |g.path| < |f.path| ==> !Blocked(nodes, f.path, |g.path|);
    }
    forall p | p in after && after[p].Regular? ensures CacheTree.Source(p, after[p].content) in all {
      assert p != f.path ==> p in nodes && nodes[p] == after[p];
    }
    forall p | p in after && after[p].Folder? ensures p != [] && LeadsToFile(p, all) {
      if 0 < |p| < |f.path| && p == f.path[..|p|] {
        assert f in all && p < f.path;
      } else {
        assert p in nodes && LeadsToFile(p, files);
        var g :| g in files && p < g.path;
        assert g in all;
      }
    }
    forall g, k | g in all && 0 < k < |g.path| ensures g.path[..k] in after && after[g.path[..k]].Folder? {
      AncestorIsFolder(nodes, files, f, g, k);
    }
  }

  lemma AncestorIsFolder(nodes: Nodes, files: seq<File>, f: File, g: File, k: nat)
    requires Holds(nodes, files) && f.path != [] && f.path !in nodes && g in files + [f] && 0 < k < |g.path|
    ensures var after := WithParents(nodes, f.path, |f.path|)[f.path := Regular(f.content)];
            g.path[..k] in after && after[g.path[..k]].Folder?
  {
    hide WithParents;
    WithParentsAt(nodes, f.path, |f.path|, g.path[..k]);
    if g in files {
      assert g.path[..k] in nodes && nodes[g.path[..k]].Folder?;
    }
  }

  // ---- The staging directory ----

  /** The bytes an entry denotes in the tar it was read from. */
  function FilesIn(tar: bytes, entries: seq<Entry>): (files: seq<File>)
    requires forall e :: e in entries ==> e.offset + e.size <= |tar|
    ensures |files| == |entries|
  {
    seq(|entries|, i requires 0 <= i < |entries| =>
      assert entries[i] in entries;
      CacheTree.Source(entries[i].path, tar[entries[i].offset..entries[i].offset + entries[i].size]))
  }

  class Directory {
    var nodes: Nodes

    constructor ()
      ensures nodes == map[]
    {
      nodes := map[];
    }

    /** Walks to the parent of `path`, making directories that are missing. */
    method CreateParentConfined(path: Path) returns (ok: bool)
      requires path != []
      modifies this
      ensures ok <==> forall k :: 0 < k < |path| ==> !Blocked(old(nodes), path, k)
      ensures ok ==> nodes == WithParents(old(nodes), path, |path|)
    {
      for k := 1 to |path|
        invariant nodes == WithParents(old(nodes), path, k)
        invariant forall j :: 0 < j < k ==> !Blocked(old(nodes), path, j)
      {
        var component := path[..k];
        WithParentsAt(old(nodes), path, k, component);
        if component in nodes {
          if nodes[component].Regular? {
            assert Blocked(old(nodes), path, k);
            return false;
          }
          assert nodes == nodes[component := Folder];
        } else {
          nodes := nodes[component := Folder];
        }
      }
      return true;
    }

    /** Extraction into an empty directory succeeds exactly when no path is another's or an
        ancestor of another, and then leaves those files, their directories and nothing else. */
    method ExtractEntries(tar: bytes, entries: seq<Entry>) returns (ok: bool)
      requires nodes == map[]
      requires forall e :: e in entries ==> e.path != [] && e.offset + e.size <= |tar|
      modifies this
      ensures ok <==> NoConflict(FilesIn(tar, entries))
      ensures ok ==> Holds(nodes, FilesIn(tar, entries))
    {
      hide Holds, WithParents, NoConflict;
      ghost var files := FilesIn(tar, entries);
      NothingHeld();
      assert files[..0] == [];
      for i := 0 to |entries|
        invariant Holds(nodes, files[..i]) && NoConflict(files[..i])
      {
        var entry := entries[i];
        var content := tar[entry.offset..entry.offset + entry.size];
        ghost var f := files[i];
        assert entry in entries && f.path == entry.path && f.content == content;
        assert files[..i + 1] == files[..i] + [f];
        FitsOrConflicts(nodes, files, i);
        var before := nodes;
        var open := CreateParentConfined(entry.path);
        if !open {
          return false;
        }
        WithParentsAt(before, entry.path, |entry.path|, entry.path);
        if entry.path in nodes {
          return false;
        }
        HoldsOneMore(before, files[..i], f);
        nodes := nodes[entry.path := Regular(content)];
      }
      assert files[..|entries|] == files;
      return true;
    }

    /** The re-check before activation: the tree holds the expected files and directories only. */
    method ValidateExtractedTree(entries: seq<Entry>) returns (ok: bool)
      ensures ok <==> ActualFiles(nodes) == ExpectedFiles(entries) && ActualFolders(nodes) == ExpectedFolders(entries)
    {
      var folders := CollectFolders(entries);
      ok := ActualFiles(nodes) == ExpectedFiles(entries) && ActualFolders(nodes) == folders;
    }

    /** Makes every directory durable, deepest first and the root (the empty path) last, so that a
        directory is synced only after everything below it; fails if one is not a directory. */
    method SyncStagingDirectories(entries: seq<Entry>) returns (ok: bool, order: seq<Path>)
      ensures ok <==> forall p :: p in ExpectedFolders(entries) ==> p in nodes && nodes[p].Folder?
      ensures ok ==> Distinct(order) && (forall p :: p in order <==> p == [] || p in ExpectedFolders(entries))
      ensures ok ==> forall i, j :: 0 <= i < j < |order| ==> !(order[i] < order[j])
      ensures ok ==> forall i, j :: 0 <= i < j < |order| ==>
                |order[i]| > |order[j]| || (|order[i]| == |order[j]| && PathLess(order[i], order[j]))
    {
      hide PathLess;
      var folders := CollectFolders(entries);
      var listed := ListFolders(folders);
      var sorted := Sort(listed, SyncBefore);
      SyncOrder();
      SyncComparable(listed);
      SortIsAscending(listed, SyncBefore);
      AscendingIsDistinct(sorted, SyncBefore);
      order := [];
      for i := 0 to |sorted|
        invariant order == sorted[..i]
        invariant forall k :: 0 <= k < i ==> sorted[k] in nodes && nodes[sorted[k]].Folder?
      {
        if !(sorted[i] in nodes && nodes[sorted[i]].Folder?) {
          assert sorted[i] in sorted;
          return false, order;
        }
        order := order + [sorted[i]];
      }
      RootLast(sorted);
      return true, order + [[]];
    }
  }

  lemma RootLast(sorted: seq<Path>)
    requires Ascending(sorted, SyncBefore) && Distinct(sorted) && [] !in sorted
    ensures Distinct(sorted + [[]])
    ensures forall i, j :: 0 <= i < j < |sorted + [[]]| ==> !((sorted + [[]])[i] < (sorted + [[]])[j])
    ensures forall i, j :: 0 <= i < j < |sorted + [[]]| ==>
              var a, b := (sorted + [[]])[i], (sorted + [[]])[j];
              |a| > |b| || (|a| == |b| && PathLess(a, b))
  {
    hide PathLess;
    var order := sorted + [[]];
    forall i, j | 0 <= i < j < |order|
      ensures order[i] != order[j] && !(order[i] < order[j])
      ensures |order[i]| > |order[j]| || (|order[i]| == |order[j]| && PathLess(order[i], order[j]))
    {
      assert j < |sorted| ==> SyncBefore(sorted[i], sorted[j]);
      assert sorted[i] in sorted;
    }
  }

  method CollectFolders(entries: seq<Entry>) returns (folders: set<Path>)
    ensures folders == ExpectedFolders(entries)
  {
    folders := {};
    for i := 0 to |entries|
      invariant folders == ExpectedFolders(entries[..i])
    {
      var path := entries[i].path;
      var above: set<Path> := {};
      var k := |path|;
      while k > 1
        invariant 0 <= k <= |path| && (path != [] ==> k >= 1)
        invariant above == set j | k <= j < |path| && 0 < j :: path[..j]
      {
        k := k - 1;
        above := above + {path[..k]};
      }
      folders := folders + above;
      assert above == set j | 0 < j < |path| :: path[..j];
      FoldersAppend(entries, i);
    }
    assert entries[..|entries|] == entries;
  }

  method ListFolders(folders: set<Path>) returns (listed: seq<Path>)
    ensures Distinct(listed) && forall p :: p in listed <==> p in folders
  {
    listed := [];
    var rest := folders;
    while rest != {}
      invariant Distinct(listed) && rest <= folders
      invariant forall p :: p in listed <==> p in folders && p !in rest
    {
      var p :| p in rest;
      listed, rest := listed + [p], rest - {p};
    }
  }

  // ---- The order of syncing ----

  /** Component-wise order of paths. */
  predicate PathLess(a: Path, b: Path) {
    b != [] && (a == [] || Less(a[0], b[0]) || (a[0] == b[0] && PathLess(a[1..], b[1..])))
  }

  /** The first component in which two paths of the same depth differ decides. */
  lemma {:induction false} PathLessMeans(a: Path, b: Path)
    requires |a| == |b|
    ensures PathLess(a, b) <==> exists i :: 0 <= i < |a| && a[..i] == b[..i] && Less(a[i], b[i])
  {
    hide Less;
    if a != [] {
      LessIrreflexive(a[0]);
      var x, y := a[1..], b[1..];
      PathLessMeans(x, y);
      assert a == [a[0]] + x && b == [b[0]] + y;
      if Less(a[0], b[0]) {
        assert a[..0] == b[..0];
      }
      if a[0] == b[0] {
        if i :| 0 <= i < |x| && x[..i] == y[..i] && Less(x[i], y[i]) {
          assert a[..i + 1] == [a[0]] + x[..i] && b[..i + 1] == [b[0]] + y[..i];
          assert Less(a[i + 1], b[i + 1]);
        }
      }
      if i :| 0 <= i < |a| && a[..i] == b[..i] && Less(a[i], b[i]) {
        if i > 0 {
          assert a[0] == a[..i][0] == b[..i][0] == b[0];
          assert x[..i - 1] == a[..i][1..] && y[..i - 1] == b[..i][1..];
          assert Less(x[i - 1], y[i - 1]);
        }
      }
    }
  }

  predicate SyncBefore(a: Path, b: Path) {
    |a| > |b| || (|a| == |b| && PathLess(a, b))
  }

  lemma {:induction false} PathLessIrreflexive(a: Path)
    ensures !PathLess(a, a)
  {
    if a != [] {
      LessIrreflexive(a[0]);
      PathLessIrreflexive(a[1..]);
    }
  }

  lemma {:induction false} PathLessTransitive(a: Path, b: Path, c: Path)
    requires PathLess(a, b) && PathLess(b, c)
    ensures PathLess(a, c)
  {
    if a != [] {
      if Less(a[0], b[0]) && Less(b[0], c[0]) {
        LessTransitive(a[0], b[0], c[0]);
      } else if a[0] == b[0] == c[0] && PathLess(a[1..], b[1..]) && PathLess(b[1..], c[1..]) {
        PathLessTransitive(a[1..], b[1..], c[1..]);
      }
    }
  }

  lemma {:induction false} PathLessTotal(a: Path, b: Path)
    requires a != b
    ensures PathLess(a, b) || PathLess(b, a)
  {
    if a != [] && b != [] {
      if a[0] == b[0] {
        assert a == [a[0]] + a[1..] && b == [b[0]] + b[1..];
        PathLessTotal(a[1..], b[1..]);
      } else {
        LessTotal(a[0], b[0]);
      }
    }
  }

  lemma SyncOrder()
    ensures StrictOrder(SyncBefore)
  {
    hide PathLess;
    forall x: Path ensures !SyncBefore(x, x) {
      PathLessIrreflexive(x);
    }
    forall x: Path, y: Path, z: Path | SyncBefore(x, y) && SyncBefore(y, z) ensures SyncBefore(x, z) {
      if |x| == |y| == |z| {
        PathLessTransitive(x, y, z);
      }
    }
  }

  lemma SyncComparable(paths: seq<Path>)
    requires Distinct(paths)
    ensures Comparable(paths, SyncBefore)
  {
    hide PathLess;
    forall i, j | 0 <= i < j < |paths| ensures SyncBefore(paths[i], paths[j]) || SyncBefore(paths[j], paths[i]) {
      PathLessTotal(paths[i], paths[j]);
    }
  }

  lemma NothingHeld()
    ensures Holds(map[], []) && NoConflict([])
  {
  }

  lemma FitsOrConflicts(nodes: Nodes, files: seq<File>, i: nat)
    requires i < |files| && Holds(nodes, files[..i]) && NoConflict(files[..i])
    requires forall f :: f in files ==> f.path != []
    ensures var f := files[i];
            if (forall k :: 0 < k < |f.path| ==> !Blocked(nodes, f.path, k)) && f.path !in nodes
            then NoConflict(files[..i] + [f])
            else !NoConflict(files)
  {
    hide Holds, NoConflict;
    var f := files[i];
    assert f in files && forall g :: g in files[..i] ==> g in files;
    FitsMeans(nodes, files[..i], f);
    ConflictAppend(files[..i], f);
    assert files[..i + 1] == files[..i] + [f];
    if NoConflict(files) {
      NoConflictPrefix(files, i + 1);
    }
  }

  // ---- The re-check ----

  function ActualFiles(nodes: Nodes): (r: set<(Path, nat)>) {
    set p | p in nodes && nodes[p].Regular? :: (p, |nodes[p].content|)
  }

  function ActualFolders(nodes: Nodes): (r: set<Path>) {
    set p | p in nodes && nodes[p].Folder?
  }

  function ExpectedFiles(entries: seq<Entry>): (r: set<(Path, nat)>) {
    set e | e in entries :: (e.path, e.size)
  }

  function ExpectedFolders(entries: seq<Entry>): (r: set<Path>) {
    set e, k | e in entries && 0 < k < |e.path| :: e.path[..k]
  }

  lemma FoldersAppend(entries: seq<Entry>, i: nat)
    requires i < |entries|
    ensures ExpectedFolders(entries[..i + 1]) ==
            ExpectedFolders(entries[..i]) + set j | 0 < j < |entries[i].path| :: entries[i].path[..j]
  {
    assert entries[..i + 1] == entries[..i] + [entries[i]];
  }

  lemma FilesAgree(nodes: Nodes, tar: bytes, entries: seq<Entry>, p: Path, n: nat)
    requires forall e :: e in entries ==> e.offset + e.size <= |tar|
    requires Holds(nodes, FilesIn(tar, entries))
    ensures (p, n) in ActualFiles(nodes) <==> (p, n) in ExpectedFiles(entries)
  {
    var files := FilesIn(tar, entries);
    if (p, n) in ActualFiles(nodes) {
      var i :| 0 <= i < |files| && files[i] == CacheTree.Source(p, nodes[p].content);
      assert entries[i] in entries;
    }
    if (p, n) in ExpectedFiles(entries) {
      var e :| e in entries && (p, n) == (e.path, e.size);
      var i :| 0 <= i < |entries| && entries[i] == e;
      assert files[i] in files;
    }
  }

  lemma FoldersAgree(nodes: Nodes, tar: bytes, entries: seq<Entry>, p: Path)
    requires forall e :: e in entries ==> e.offset + e.size <= |tar|
    requires Holds(nodes, FilesIn(tar, entries))
    ensures p in ActualFolders(nodes) <==> p in ExpectedFolders(entries)
  {
    var files := FilesIn(tar, entries);
    if p in ActualFolders(nodes) {
      var f :| f in files && p < f.path;
      var i :| 0 <= i < |files| && files[i] == f;
      assert entries[i] in entries && p == entries[i].path[..|p|];
    }
    if p in ExpectedFolders(entries) {
      var e, k :| e in entries && 0 < k < |e.path| && p == e.path[..k];
      var i :| 0 <= i < |entries| && entries[i] == e;
      assert files[i] in files && p == files[i].path[..k];
    }
  }

  /** Left alone, the extracted tree always passes the re-check. */
  lemma ExtractedTreeValidates(nodes: Nodes, tar: bytes, entries: seq<Entry>)
    requires forall e :: e in entries ==> e.path != [] && e.offset + e.size <= |tar|
    requires Holds(nodes, FilesIn(tar, entries))
    ensures ActualFiles(nodes) == ExpectedFiles(entries) && ActualFolders(nodes) == ExpectedFolders(entries)
  {
    hide Holds, ActualFiles, ActualFolders, ExpectedFiles, ExpectedFolders;
    forall p: Path, n: nat ensures (p, n) in ActualFiles(nodes) <==> (p, n) in ExpectedFiles(entries) {
      FilesAgree(nodes, tar, entries, p, n);
    }
    forall p ensures p in ActualFolders(nodes) <==> p in ExpectedFolders(entries) {
      FoldersAgree(nodes, tar, entries, p);
    }
    assert forall x :: x in ActualFiles(nodes) <==> (x.0, x.1) in ExpectedFiles(entries);
  }
}
