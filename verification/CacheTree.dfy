/** The directory tree a capture walks, and the files found in it.

    A `Listing` is one directory in the order the operating system enumerates it, which is
    arbitrary; `Files` is what the tree holds, whatever the order.
 */
module CacheTree {
  import opened ByteStrings
  import opened ArchivePath
  import opened Sorting
  import Utf8

  datatype Listing =
    | End
    | File(name: bytes, content: bytes, next: Listing)
    | Directory(name: bytes, inner: Listing, next: Listing)
    | Special(name: bytes, next: Listing)     // a symbolic link, a device, a socket

  function Names(l: Listing): (r: set<bytes>) {
    if l.End? then {} else {l.name} + Names(l.next)
  }

  /** What a file system guarantees: legal names, each once per directory. */
  predicate Plausible(l: Listing) {
    match l
    case End => true
    case File(name, _, next) => FileName(name) && name !in Names(next) && Plausible(next)
    case Directory(name, inner, next) =>
      FileName(name) && name !in Names(next) && Plausible(inner) && Plausible(next)
    case Special(name, next) => FileName(name) && name !in Names(next) && Plausible(next)
  }

  /** The regular files below `at`, by the components of their paths. */
  function Files(l: Listing, at: seq<bytes>): (r: map<seq<bytes>, bytes>) {
    match l
    case End => map[]
    case File(name, content, next) => map[at + [name] := content] + Files(next, at)
    case Directory(name, inner, next) => Files(inner, at + [name]) + Files(next, at)
    case Special(_, next) => Files(next, at)
  }

  /** Somewhere in the tree is something that is neither a file nor a directory. */
  predicate Irregular(l: Listing) {
    match l
    case End => false
    case File(_, _, next) => Irregular(next)
    case Directory(_, inner, next) => Irregular(inner) || Irregular(next)
    case Special(_, _) => true
  }

  datatype Source = Source(path: seq<bytes>, content: bytes)

  function Relative(s: Source): (path: bytes) {
    Join(s.path)
  }

  predicate TextPath(path: seq<bytes>) {
    forall c :: c in path ==> Utf8.IsText(c)
  }

  /** `collect_sources`: every file in enumeration order; special files and names that are not
      UTF-8 make the walk fail. */
  function Collect(l: Listing, at: seq<bytes>): (r: Option<seq<Source>>) {
    match l
    case End => Some([])
    case Special(_, _) => None
    case File(name, content, next) =>
      var rest := Collect(next, at);
      if !TextPath(at + [name]) || rest.None? then None
      else Some([Source(at + [name], content)] + rest.value)
    case Directory(name, inner, next) =>
      var below := Collect(inner, at + [name]);
      var rest := Collect(next, at);
      if below.None? || rest.None? then None else Some(below.value + rest.value)
  }

  // ---- The walk finds exactly the files ----

  ghost predicate DistinctPaths(ss: seq<Source>) {
    forall i, j :: 0 <= i < j < |ss| ==> ss[i].path != ss[j].path
  }

  /** `ss` lists the entries of `files`, each once. */
  ghost predicate Lists(ss: seq<Source>, files: map<seq<bytes>, bytes>) {
    && DistinctPaths(ss)
    && forall s :: s in ss <==> s.path in files && files[s.path] == s.content
  }

  lemma ListsUnion(a: seq<Source>, m: map<seq<bytes>, bytes>, b: seq<Source>, n: map<seq<bytes>, bytes>)
    requires Lists(a, m) && Lists(b, n) && m.Keys !! n.Keys
    ensures Lists(a + b, m + n)
  {
    forall i, j | 0 <= i < j < |a + b| ensures (a + b)[i].path != (a + b)[j].path {
      if i < |a| <= j {
        assert a[i] in a && b[j - |a|] in b;
      }
    }
  }

  ghost predicate Under(p: seq<bytes>, at: seq<bytes>, names: set<bytes>) {
    |at| < |p| && p[..|at|] == at && p[|at|] in names
  }

  lemma {:induction false} FilesUnder(l: Listing, at: seq<bytes>, p: seq<bytes>)
    requires p in Files(l, at)
    ensures Under(p, at, Names(l))
  {
    match l
    case File(name, content, next) =>
      if p != at + [name] {
        FilesUnder(next, at, p);
      }
    case Directory(name, inner, next) =>
      if p in Files(next, at) {
        FilesUnder(next, at, p);
      } else {
        FilesUnder(inner, at + [name], p);
        BelowIsUnder(p, at, name, Names(inner));
      }
    case Special(name, next) => FilesUnder(next, at, p);
  }

  lemma BelowIsUnder(p: seq<bytes>, at: seq<bytes>, name: bytes, names: set<bytes>)
    requires Under(p, at + [name], names)
    ensures Under(p, at, {name})
  {
    assert p[..|at|] == p[..|at| + 1][..|at|];
    assert p[|at|] == p[..|at| + 1][|at|];
  }

  lemma SiblingsApart(l: Listing, at: seq<bytes>)
    requires Plausible(l) && l.Directory?
    ensures Files(l.inner, at + [l.name]).Keys !! Files(l.next, at).Keys
  {
    forall p | p in Files(l.inner, at + [l.name]) && p in Files(l.next, at) ensures false {
      FilesUnder(l.inner, at + [l.name], p);
      BelowIsUnder(p, at, l.name, Names(l.inner));
      FilesUnder(l.next, at, p);
    }
  }

  lemma FileApart(l: Listing, at: seq<bytes>)
    requires Plausible(l) && l.File?
    ensures at + [l.name] !in Files(l.next, at)
  {
    if at + [l.name] in Files(l.next, at) {
      FilesUnder(l.next, at, at + [l.name]);
    }
  }

  /** A successful walk lists the tree's files, each once. */
  lemma {:induction false} CollectLists(l: Listing, at: seq<bytes>)
    requires Plausible(l) && Collect(l, at).Some?
    ensures Lists(Collect(l, at).value, Files(l, at))
  {
    match l
    case End =>
    case File(name, content, next) =>
      CollectLists(next, at);
      FileApart(l, at);
      ListsUnion([Source(at + [name], content)], map[at + [name] := content],
                 Collect(next, at).value, Files(next, at));
    case Directory(name, inner, next) =>
      CollectLists(inner, at + [name]);
      CollectLists(next, at);
      SiblingsApart(l, at);
      ListsUnion(Collect(inner, at + [name]).value, Files(inner, at + [name]), Collect(next, at).value, Files(next, at));
  }

  ghost predicate LegalPath(path: seq<bytes>) {
    path != [] && TextPath(path) && forall c :: c in path ==> FileName(c)
  }

  /** Whether the walk succeeds does not depend on the order either: it fails exactly on a special
      file or on a path that is not UTF-8. */
  lemma {:induction false} CollectSucceeds(l: Listing, at: seq<bytes>)
    requires Plausible(l)
    ensures Collect(l, at).Some? <==> !Irregular(l) && forall p :: p in Files(l, at) ==> TextPath(p)
  {
    hide TextPath;
    match l
    case End =>
    case Special(_, _) =>
    case File(name, content, next) =>
      CollectSucceeds(next, at);
      FileApart(l, at);
    case Directory(name, inner, next) =>
      CollectSucceeds(inner, at + [name]);
      CollectSucceeds(next, at);
      SiblingsApart(l, at);
  }

  lemma {:induction false} CollectLegal(l: Listing, at: seq<bytes>)
    requires Plausible(l) && Collect(l, at).Some?
    requires forall c :: c in at ==> FileName(c)
    ensures forall s :: s in Collect(l, at).value ==> LegalPath(s.path)
  {
    match l
    case End =>
    case File(name, content, next) =>
      CollectLegal(next, at);
    case Directory(name, inner, next) =>
      CollectLegal(inner, at + [name]);
      CollectLegal(next, at);
  }

  /** No file of a tree is an ancestor of another. */
  lemma {:induction false} FilesDoNotNest(l: Listing, at: seq<bytes>, p: seq<bytes>, q: seq<bytes>)
    requires Plausible(l) && p in Files(l, at) && q in Files(l, at) && p <= q
    ensures p == q
  {
    FilesUnder(l, at, p);
    FilesUnder(l, at, q);
    assert p[|at|] == q[|at|];
    match l
    case File(name, content, next) =>
      if p in Files(next, at) || q in Files(next, at) {
        if p in Files(next, at) { FilesUnder(next, at, p); }
        if q in Files(next, at) { FilesUnder(next, at, q); }
        FilesDoNotNest(next, at, p, q);
      }
    case Directory(name, inner, next) =>
      if p in Files(next, at) || q in Files(next, at) {
        NextStep(l, at, p);
        NextStep(l, at, q);
        FilesDoNotNest(next, at, p, q);
      } else {
        FilesDoNotNest(inner, at + [name], p, q);
      }
    case Special(name, next) =>
      FilesDoNotNest(next, at, p, q);
  }

  /** The component after `at` tells on which side of a directory entry a file lies. */
  lemma NextStep(l: Listing, at: seq<bytes>, p: seq<bytes>)
    requires Plausible(l) && l.Directory? && p in Files(l, at)
    ensures |at| < |p| && (p in Files(l.next, at) <==> p[|at|] != l.name)
  {
    FilesUnder(l, at, p);
    if p in Files(l.next, at) {
      FilesUnder(l.next, at, p);
    } else {
      FilesUnder(l.inner, at + [l.name], p);
      BelowIsUnder(p, at, l.name, Names(l.inner));
    }
  }

  // ---- Order of paths ----

  predicate SourceLess(a: Source, b: Source) {
    Less(Relative(a), Relative(b))
  }

  lemma SourceOrder()
    ensures StrictOrder(SourceLess)
  {
    forall x: Source ensures !SourceLess(x, x) {
      LessIrreflexive(Relative(x));
    }
    forall x: Source, y: Source, z: Source | SourceLess(x, y) && SourceLess(y, z) ensures SourceLess(x, z) {
      LessTransitive(Relative(x), Relative(y), Relative(z));
    }
  }

  lemma RelativeInjective(p: seq<bytes>, q: seq<bytes>)
    requires LegalPath(p) && LegalPath(q) && Join(p) == Join(q)
    ensures p == q
  {
    SplitJoin(p);
    SplitJoin(q);
  }

  lemma SourcesComparable(ss: seq<Source>)
    requires DistinctPaths(ss) && forall s :: s in ss ==> LegalPath(s.path)
    ensures Comparable(ss, SourceLess)
  {
    forall i, j | 0 <= i < j < |ss| ensures SourceLess(ss[i], ss[j]) || SourceLess(ss[j], ss[i]) {
      assert ss[i] in ss && ss[j] in ss;
      if Relative(ss[i]) == Relative(ss[j]) {
        RelativeInjective(ss[i].path, ss[j].path);
      } else {
        LessTotal(Relative(ss[i]), Relative(ss[j]));
      }
    }
  }
}
