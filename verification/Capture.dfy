/** `capture_with_limits`: from a directory tree and an identity to one archive.

    The compressor and the digest are parameters; the tar inside is written out byte by byte.
 */
module Capture {
  import opened ByteStrings
  import opened TarHeader
  import opened ArchivePath
  import opened Sorting
  import opened TarArchive
  import opened CacheTree
  import Utf8

  datatype Summary = Summary(sha256: bytes, compressed: nat, uncompressed: nat, entries: nat)

  datatype Captured = Captured(archive: bytes, summary: Summary)

  datatype CaptureError =
    | InvalidIdentity | WalkFailed | TooManySources | ReservedPath | SourceTooLarge
    | TreeTooLarge | PathNotEncodable | CompressedTooLarge

  // ---- The archive a list of sources is written as ----

  predicate Encodable(s: Source) {
    SplitPath(Relative(s)).Some?
  }

  function Printed(s: Source): (c: Cell)
    requires Encodable(s)
  {
    Cell(Header(SplitPath(Relative(s)).value, |s.content|), s.content, Zeros(Padded(|s.content|) - |s.content|))
  }

  function Cells(ss: seq<Source>): (r: seq<Cell>)
    requires forall s :: s in ss ==> Encodable(s)
    ensures |r| == |ss|
  {
    seq(|ss|, i requires 0 <= i < |ss| => assert ss[i] in ss; Printed(ss[i]))
  }

  function Tar(ss: seq<Source>): (s: bytes)
    requires forall s :: s in ss ==> Encodable(s)
  {
    Body(Cells(ss)) + Zeros(2 * BLOCK)
  }

  /** A file takes a header, its bytes and zeros up to the next multiple of 512; the tar ends with 1024
      zeros. */
  lemma PrintedLayout(s: Source)
    requires Encodable(s)
    ensures var cell, n := Encoded(Printed(s)), |s.content|;
            && |cell| % 512 == 0 && 512 + n <= |cell| < 512 + n + 512
            && cell[..512] == Header(SplitPath(Relative(s)).value, n)
            && cell[512..512 + n] == s.content && AllZero(cell[512 + n..])
  {
    hide SplitPath, Header, Relative;
  }

  lemma TarLayout(ss: seq<Source>, s: Source)
    requires Encodable(s) && forall t :: t in ss ==> Encodable(t)
    ensures Tar([]) == Zeros(1024)
    ensures (forall t :: t in ss + [s] ==> Encodable(t)) && |Tar(ss)| >= 1024
    ensures Tar(ss + [s]) == Tar(ss)[..|Tar(ss)| - 1024] + Encoded(Printed(s)) + Zeros(1024)
  {
    hide Encodable, Printed, Cells, Body;
    PrintOneMore(ss, s);
    EmptyBody();
    assert Cells([]) == [];
    assert Tar([]) == [] + Zeros(1024);
    assert Tar(ss)[..|Tar(ss)| - 1024] == Body(Cells(ss));
  }

  function IdentitySource(identity: bytes): (s: Source) {
    Source([IDENTITY_ENTRY], identity)
  }

  /** The sources in path order with the identity in its place among them. */
  function Arranged(sources: seq<Source>, identity: bytes): (r: seq<Source>) {
    Insert(IdentitySource(identity), Sort(sources, SourceLess), SourceLess)
  }

  function ContentSize(ss: seq<Source>): (n: nat) {
    if ss == [] then 0 else ContentSize(ss[..|ss| - 1]) + |ss[|ss| - 1].content|
  }

  // ---- When a capture succeeds ----

  predicate SourcesFit(sources: seq<Source>, identity: bytes, limits: Limits) {
    && |sources| <= limits.maxEntries
    && (forall s :: s in sources ==> Relative(s) != IDENTITY_ENTRY && |s.content| <= limits.maxEntry)
    && (sources != [] ==> |identity| + ContentSize(sources) <= limits.maxUncompressed)
  }

  predicate Capturable(tree: Listing, identity: bytes, limits: Limits, schema: bytes -> bool, gzip: bytes -> bytes) {
    && ValidIdentity(identity, limits, schema)
    && Collect(tree, []).Some?
    && var sources := Collect(tree, []).value;
    && SourcesFit(sources, identity, limits)
    && (forall s :: s in Arranged(sources, identity) ==> Encodable(s))
    && |gzip(Tar(Arranged(sources, identity)))| <= limits.maxCompressed
  }

  /** What is published for a capturable tree. */
  function CaptureOf(tree: Listing, identity: bytes, gzip: bytes -> bytes, sha256: bytes -> bytes): (c: Captured)
    requires Collect(tree, []).Some?
    requires forall s :: s in Arranged(Collect(tree, []).value, identity) ==> Encodable(s)
  {
    var sources := Collect(tree, []).value;
    var archive := gzip(Tar(Arranged(sources, identity)));
    Captured(archive, Summary(sha256(archive), |archive|, |identity| + ContentSize(sources), |sources|))
  }

  // ---- Writing ----

  lemma PrintOneMore(ss: seq<Source>, s: Source)
    requires Encodable(s) && forall t :: t in ss ==> Encodable(t)
    ensures (forall t :: t in ss + [s] ==> Encodable(t)) && Cells(ss + [s]) == Cells(ss) + [Printed(s)]
    ensures Body(Cells(ss + [s])) == Body(Cells(ss)) + Encoded(Printed(s))
  {
    hide Body, Encodable, Printed, Encoded;
    assert Cells(ss + [s]) == Cells(ss) + [Printed(s)];
    BodyAppend(Cells(ss), Printed(s));
  }

  /** `tar::Builder::append`: header, data, zeros up to the block boundary. */
  function Append(output: bytes, s: Source): (r: bytes)
    requires Encodable(s)
  {
    output + Encoded(Printed(s))
  }

  /** `all` is what has been written followed by what the merge loop still has to write. */
  ghost predicate Merging(all: seq<Source>, written: seq<Source>, rest: seq<Source>, id: Source, identityWritten: bool) {
    all == written + if identityWritten then rest else Insert(id, rest, SourceLess)
  }

  predicate UseIdentity(rest: seq<Source>, id: Source, identityWritten: bool) {
    !identityWritten && (rest == [] || SourceLess(id, rest[0]))
  }

  lemma MergeStep(all: seq<Source>, written: seq<Source>, rest: seq<Source>, id: Source, identityWritten: bool)
    requires Merging(all, written, rest, id, identityWritten) && (rest != [] || !identityWritten)
    ensures if UseIdentity(rest, id, identityWritten)
            then id in all && Merging(all, written + [id], rest, id, true)
            else rest[0] in all && Merging(all, written + [rest[0]], rest[1..], id, identityWritten)
  {
    hide Less, Relative;
    var next := if UseIdentity(rest, id, identityWritten) then id else rest[0];
    assert all[|written|] == next;
  }

  /** The merge loop. Nothing is returned when some path has no ustar encoding. */
  method WriteTar(sources: seq<Source>, identity: bytes) returns (r: Option<bytes>)
    ensures var all := Insert(IdentitySource(identity), sources, SourceLess);
            if forall s :: s in all ==> Encodable(s) then r == Some(Tar(all)) else r.None?
  {
    hide Body, Encodable, Printed, SourceLess, Encoded, Insert, Cells, Merging;
    var id := IdentitySource(identity);
    ghost var all := Insert(id, sources, SourceLess);
    ghost var written: seq<Source> := [];
    var output: bytes := [];
    var sourceIndex, identityWritten := 0, false;
    NothingWritten(sources, id);
    while sourceIndex < |sources| || !identityWritten
      invariant sourceIndex <= |sources|
      invariant forall s :: s in written ==> Encodable(s)
      invariant output == Body(Cells(written))
      invariant Merging(all, written, sources[sourceIndex..], id, identityWritten)
      decreases |sources| - sourceIndex, !identityWritten
    {
      MergeStep(all, written, sources[sourceIndex..], id, identityWritten);
      var useIdentity := UseIdentity(sources[sourceIndex..], id, identityWritten);
      var next := if useIdentity then id else sources[sourceIndex];
      if !Encodable(next) {
        return None;
      }
      PrintOneMore(written, next);
      output := Append(output, next);
      written := written + [next];
      if useIdentity {
        identityWritten := true;
      } else {
        assert sources[sourceIndex..][1..] == sources[sourceIndex + 1..];
        sourceIndex := sourceIndex + 1;
      }
    }
    AllWritten(all, written, sources[sourceIndex..], id);
    r := Some(output + Zeros(2 * BLOCK));
  }

  lemma NothingWritten(sources: seq<Source>, id: Source)
    ensures Body(Cells([])) == []
    ensures Merging(Insert(id, sources, SourceLess), [], sources[0..], id, false)
  {
    assert sources[0..] == sources;
    assert Cells([]) == [];
  }

  lemma AllWritten(all: seq<Source>, written: seq<Source>, rest: seq<Source>, id: Source)
    requires rest == [] && Merging(all, written, rest, id, true)
    ensures all == written
  {
  }

  /** The checks on the sources before anything is written. */
  method CheckSources(sources: seq<Source>, identity: bytes, limits: Limits) returns (r: Result<nat, CaptureError>)
    ensures r.Ok? <==> SourcesFit(sources, identity, limits)
    ensures r.Ok? ==> r.value == |identity| + ContentSize(sources)
  {
    hide Relative;
    if |sources| > limits.maxEntries {
      return Err(TooManySources);
    }
    var uncompressed := |identity|;
    for i := 0 to |sources|
      invariant uncompressed == |identity| + ContentSize(sources[..i])
      invariant i > 0 ==> uncompressed <= limits.maxUncompressed
      invariant forall s :: s in sources[..i] ==> Relative(s) != IDENTITY_ENTRY && |s.content| <= limits.maxEntry
    {
      var source := sources[i];
      assert sources[..i + 1] == sources[..i] + [source] && sources[..i + 1][..i] == sources[..i];
      ContentSizeGrows(sources, i + 1);
      if Relative(source) == IDENTITY_ENTRY {
        return Err(ReservedPath);
      }
      if |source.content| > limits.maxEntry {
        return Err(SourceTooLarge);
      }
      uncompressed := uncompressed + |source.content|;
      if uncompressed > limits.maxUncompressed {
        return Err(TreeTooLarge);
      }
    }
    assert sources[..|sources|] == sources;
    return Ok(uncompressed);
  }

  lemma {:induction false} ContentSizeGrows(ss: seq<Source>, k: nat)
    requires k <= |ss|
    ensures ContentSize(ss[..k]) <= ContentSize(ss)
    decreases |ss| - k
  {
    if k == |ss| {
      assert ss[..k] == ss;
    } else {
      ContentSizeGrows(ss, k + 1);
      assert ss[..k + 1][..k] == ss[..k];
    }
  }

  method CaptureTree(tree: Listing, identity: bytes, limits: Limits, schema: bytes -> bool,
                     gzip: bytes -> bytes, sha256: bytes -> bytes)
    returns (r: Result<Captured, CaptureError>)
    requires Plausible(tree)
    ensures r.Ok? <==> Capturable(tree, identity, limits, schema, gzip)
    ensures r.Ok? ==> r.value == CaptureOf(tree, identity, gzip, sha256)
  {
    hide Encodable, Tar, Less, ContentSize, Collect, Sort, Insert;
    if !ValidIdentity(identity, limits, schema) {
      return Err(InvalidIdentity);
    }
    var walked := Collect(tree, []);
    if walked.None? {
      return Err(WalkFailed);
    }
    var sources := Sort(walked.value, SourceLess);
    SortedFits(walked.value, identity, limits);
    var checked := CheckSources(sources, identity, limits);
    if checked.Err? {
      return Err(checked.error);
    }
    var tar := WriteTar(sources, identity);
    if tar.None? {
      return Err(PathNotEncodable);
    }
    var archive := gzip(tar.value);
    if |archive| > limits.maxCompressed {
      return Err(CompressedTooLarge);
    }
    return Ok(Captured(archive, Summary(sha256(archive), |archive|, checked.value, |sources|)));
  }

  // ---- Order does not matter to the checks ----

  lemma {:induction false} ContentSizeFirst(ss: seq<Source>)
    requires ss != []
    ensures ContentSize(ss) == |ss[0].content| + ContentSize(ss[1..])
  {
    if |ss| > 1 {
      ContentSizeFirst(ss[..|ss| - 1]);
      assert ss[1..][..|ss| - 2] == ss[..|ss| - 1][1..];
    }
  }

  lemma {:induction false} InsertSize(x: Source, ss: seq<Source>)
    ensures ContentSize(Insert(x, ss, SourceLess)) == |x.content| + ContentSize(ss)
  {
    hide Less, Relative;
    ContentSizeFirst(Insert(x, ss, SourceLess));
    if ss != [] && !SourceLess(x, ss[0]) {
      InsertSize(x, ss[1..]);
      ContentSizeFirst(ss);
    }
  }

  lemma {:induction false} SortSize(ss: seq<Source>)
    ensures ContentSize(Sort(ss, SourceLess)) == ContentSize(ss)
  {
    hide Less, Relative, Insert;
    if ss != [] {
      SortSize(ss[1..]);
      InsertSize(ss[0], Sort(ss[1..], SourceLess));
      ContentSizeFirst(ss);
    }
  }

  lemma SortedFits(ss: seq<Source>, identity: bytes, limits: Limits)
    ensures SourcesFit(Sort(ss, SourceLess), identity, limits) <==> SourcesFit(ss, identity, limits)
    ensures ContentSize(Sort(ss, SourceLess)) == ContentSize(ss)
  {
    hide Less, Relative, ContentSize, Sort;
    SortSize(ss);
  }

  // ---- Determinism ----

  lemma ArrangedAscending(tree: Listing, identity: bytes)
    requires Plausible(tree) && Collect(tree, []).Some?
    requires forall s :: s in Collect(tree, []).value ==> Relative(s) != IDENTITY_ENTRY
    ensures Ascending(Arranged(Collect(tree, []).value, identity), SourceLess)
    ensures var all := Arranged(Collect(tree, []).value, identity);
            forall i, j :: 0 <= i < j < |all| ==> Less(Relative(all[i]), Relative(all[j]))
  {
    hide Less, Collect, Insert, Sort;
    var sources := Collect(tree, []).value;
    var id := IdentitySource(identity);
    SourceOrder();
    CollectLists(tree, []);
    CollectLegal(tree, []);
    SourcesComparable(sources);
    SortIsAscending(sources, SourceLess);
    forall s | s in Sort(sources, SourceLess) ensures SourceLess(id, s) || SourceLess(s, id) {
      assert Relative(id) == IDENTITY_ENTRY;
      LessTotal(Relative(id), Relative(s));
    }
    InsertAscending(id, Sort(sources, SourceLess), SourceLess);
  }

  /** The sources of two enumerations of the same files are arranged the same. */
  lemma SameArrangement(a: Listing, b: Listing, identity: bytes)
    requires Plausible(a) && Plausible(b) && Files(a, []) == Files(b, [])
    requires Collect(a, []).Some? && Collect(b, []).Some?
    requires forall s :: s in Collect(a, []).value ==> Relative(s) != IDENTITY_ENTRY
    ensures forall s :: s in Collect(a, []).value <==> s in Collect(b, []).value
    ensures Arranged(Collect(a, []).value, identity) == Arranged(Collect(b, []).value, identity)
  {
    hide Less, Collect, Insert, Sort, Relative;
    CollectLists(a, []);
    CollectLists(b, []);
    ArrangedAscending(a, identity);
    ArrangedAscending(b, identity);
    SourceOrder();
    AscendingIsUnique(Arranged(Collect(a, []).value, identity), Arranged(Collect(b, []).value, identity), SourceLess);
  }

  lemma ArrangedSize(sources: seq<Source>, identity: bytes)
    ensures ContentSize(Arranged(sources, identity)) == |identity| + ContentSize(sources)
    ensures |Arranged(sources, identity)| == |sources| + 1
  {
    hide Less, Relative, ContentSize, Sort, Insert;
    SortSize(sources);
    InsertSize(IdentitySource(identity), Sort(sources, SourceLess));
  }

  lemma SameCapture(a: Listing, b: Listing, identity: bytes, limits: Limits, schema: bytes -> bool,
                    gzip: bytes -> bytes, sha256: bytes -> bytes)
    requires Plausible(a) && Plausible(b) && Files(a, []) == Files(b, []) && (Irregular(b) ==> Irregular(a))
    requires Capturable(a, identity, limits, schema, gzip)
    ensures Capturable(b, identity, limits, schema, gzip)
    ensures CaptureOf(a, identity, gzip, sha256) == CaptureOf(b, identity, gzip, sha256)
  {
    hide Less, Relative, ContentSize, Sort, Insert, Collect, Encodable, Tar, TextPath, Arranged, Irregular;
    CollectSucceeds(a, []);
    CollectSucceeds(b, []);
    SameArrangement(a, b, identity);
    ArrangedSize(Collect(a, []).value, identity);
    ArrangedSize(Collect(b, []).value, identity);
  }

  /** Two enumerations of the same tree are both captured or both refused, and are captured as the
      same bytes with the same summary. What is printed has strictly ascending paths and holds the
      identity exactly once. */
  lemma CaptureDeterministic(a: Listing, b: Listing, identity: bytes, limits: Limits, schema: bytes -> bool,
                             gzip: bytes -> bytes, sha256: bytes -> bytes)
    requires Plausible(a) && Plausible(b) && Files(a, []) == Files(b, []) && Irregular(a) == Irregular(b)
    ensures Capturable(a, identity, limits, schema, gzip) <==> Capturable(b, identity, limits, schema, gzip)
    ensures Capturable(a, identity, limits, schema, gzip) ==>
              && Tar(Arranged(Collect(a, []).value, identity)) == Tar(Arranged(Collect(b, []).value, identity))
              && CaptureOf(a, identity, gzip, sha256) == CaptureOf(b, identity, gzip, sha256)
              && Ascending(Arranged(Collect(a, []).value, identity), SourceLess)
              && IdentityOnce(Arranged(Collect(a, []).value, identity), identity)
  {
    hide Less, Relative, ContentSize, Sort, Insert, Collect, Encodable, Tar, Irregular, IdentityOnce;
    if Capturable(a, identity, limits, schema, gzip) {
      SameCapture(a, b, identity, limits, schema, gzip, sha256);
      SameArrangement(a, b, identity);
      ArrangedAscending(a, identity);
      ArrangedOnce(Collect(a, []).value, identity);
    }
    if Capturable(b, identity, limits, schema, gzip) {
      SameCapture(b, a, identity, limits, schema, gzip, sha256);
    }
  }

  /** Exactly one of `ss` has the reserved path, and it holds the identity. */
  ghost predicate IdentityOnce(ss: seq<Source>, identity: bytes) {
    exists i :: 0 <= i < |ss| && ss[i] == IdentitySource(identity)
      && forall j :: 0 <= j < |ss| && Relative(ss[j]) == IDENTITY_ENTRY ==> j == i
  }

  lemma ArrangedOnce(sources: seq<Source>, identity: bytes)
    requires forall s :: s in sources ==> Relative(s) != IDENTITY_ENTRY
    requires Ascending(Arranged(sources, identity), SourceLess)
    ensures IdentityOnce(Arranged(sources, identity), identity)
  {
    hide Less, Sort, Insert, Relative;
    var ss, id := Arranged(sources, identity), IdentitySource(identity);
    assert id in ss;
    var i :| 0 <= i < |ss| && ss[i] == id;
    forall j | 0 <= j < |ss| && Relative(ss[j]) == IDENTITY_ENTRY ensures j == i {
      LessIrreflexive(IDENTITY_ENTRY);
      assert Relative(id) == IDENTITY_ENTRY by {
        IdentityPath(identity);
      }
      assert i < j ==> SourceLess(ss[i], ss[j]);
      assert j < i ==> SourceLess(ss[j], ss[i]);
    }
  }

  lemma IdentityPath(identity: bytes)
    ensures Relative(IdentitySource(identity)) == IDENTITY_ENTRY
  {
  }
}
