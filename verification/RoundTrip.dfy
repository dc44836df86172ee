/** Capture followed by restore: when it gives the tree back, and that it then gives back
    exactly the tree.
 */
module RoundTrip {
  import opened ByteStrings
  import opened TarHeader
  import opened ArchivePath
  import opened Sorting
  import opened TarArchive
  import opened CacheTree
  import opened Staging
  import opened Capture
  import opened Restore
  import Utf8

  // ---- A printed cell is what the parser looks for ----

  lemma {:induction false} JoinText(path: seq<bytes>)
    requires TextPath(path)
    ensures Utf8.IsText(Join(path))
  {
    hide Utf8.FromUtf8;
    EmptyAndSlashAreText();
    if |path| == 1 {
      assert path[0] in path;
    } else if |path| > 1 {
      assert path[0] in path && forall c :: c in path[1..] ==> c in path;
      JoinText(path[1..]);
      Utf8.TextAppend([SLASH], Join(path[1..]));
      Utf8.TextAppend(path[0], [SLASH] + Join(path[1..]));
      assert path[0] + ([SLASH] + Join(path[1..])) == Join(path);
    }
  }

  lemma EmptyAndSlashAreText()
    ensures Utf8.IsText([]) && Utf8.IsText([SLASH])
  {
    assert Utf8.Scan([SLASH]) == Utf8.Scalar(1);
    assert [SLASH][1..] == [];
  }

  lemma RelativeFacts(path: seq<bytes>)
    requires LegalPath(path)
    ensures Split(Join(path)) == path && 0 !in Join(path) && Utf8.IsText(Join(path))
    ensures Canonical(Join(path)) <==> BACKSLASH !in Join(path)
  {
    hide Join, Split, Utf8.IsText;
    SplitJoin(path);
    SplitHasNoNul(Join(path));
    JoinText(path);
  }

  ghost predicate Printable(s: Source) {
    LegalPath(s.path) && Encodable(s) && |s.content| <= U64_MAX
  }

  lemma PrintedHeader(s: Source)
    requires Printable(s)
    ensures var c := Printed(s);
            && |c.header| == BLOCK && ChecksumMatches(c.header) && RegularFileType(c.header)
            && HeaderPath(c.header) == Relative(s) && ReadSize(c.header[124..136]) == Some(|c.data|)
            && |c.data| + |c.padding| == Padded(|c.data|)
  {
    hide ChecksumMatches, HeaderPath, ReadSize, Header, SplitPath, Join, Padded;
    RelativeFacts(s.path);
    HeaderRoundTrip(Relative(s), |s.content|);
  }

  lemma PrintedWellFormed(s: Source)
    requires Printable(s)
    ensures WellFormed(Printed(s)) <==> BACKSLASH !in Relative(s)
    ensures WellFormed(Printed(s)) ==> CellPath(Printed(s)) == Relative(s) && Split(Relative(s)) == s.path
  {
    hide ChecksumMatches, HeaderPath, ReadSize, Printed, Split, Join, Padded, Canonical, Utf8.IsText, Encodable;
    PrintedHeader(s);
    RelativeFacts(s.path);
  }

  // ---- The printed tar can be read in one way only ----

  ghost predicate AllPrintable(ss: seq<Source>) {
    forall s :: s in ss ==> Printable(s)
  }

  lemma CellsEncodable(ss: seq<Source>)
    requires AllPrintable(ss)
    ensures forall s :: s in ss ==> Encodable(s)
  {
  }

  lemma CellInTar(ss: seq<Source>, k: nat)
    requires AllPrintable(ss) && k < |ss|
    ensures forall s :: s in ss ==> Encodable(s)
    ensures var offset, c := |Body(Cells(ss)[..k])|, Printed(ss[k]);
            && offset + BLOCK + Padded(|c.data|) <= |Tar(ss)|
            && Tar(ss)[offset..offset + BLOCK] == c.header
            && CellAt(Tar(ss), offset, |c.data|) == c
  {
    hide Body, Printed, Padded, Encodable, Printable, Encoded, CellAt, ChecksumMatches, HeaderPath, ReadSize, RegularFileType;
    CellsEncodable(ss);
    assert ss[k] in ss;
    var cells, c := Cells(ss), Printed(ss[k]);
    PrintedHeader(ss[k]);
    BodyConcat(cells[..k], cells[k..]);
    assert cells == cells[..k] + cells[k..];
    BodyFirst(cells[k..]);
    var tail := Body(cells[k..][1..]) + Zeros(2 * BLOCK);
    assert Tar(ss) == Body(cells[..k]) + Encoded(c) + tail;
    SliceOfCell(Tar(ss), Body(cells[..k]), c, tail);
  }

  lemma SliceOfCell(tar: bytes, before: bytes, c: Cell, tail: bytes)
    requires |c.header| == BLOCK && |c.data| + |c.padding| == Padded(|c.data|)
    requires tar == before + Encoded(c) + tail
    ensures |before| + BLOCK + Padded(|c.data|) <= |tar|
    ensures tar[|before|..|before| + BLOCK] == c.header
    ensures CellAt(tar, |before|, |c.data|) == c
  {
    hide Padded;
    var data := |before| + BLOCK;
    assert tar[|before|..data] == c.header;
    assert tar[data..data + |c.data|] == c.data;
    assert tar[data + |c.data|..data + Padded(|c.data|)] == c.padding;
  }

  lemma {:induction false} ReadingAgrees(ss: seq<Source>, cs: seq<Cell>, k: nat)
    requires AllPrintable(ss) && k <= |ss| && forall s :: s in ss ==> Encodable(s)
    requires IsTarOf(Tar(ss), cs)
    ensures k <= |cs| && cs[..k] == Cells(ss)[..k]
  {
    hide Body, WellFormed, Tar, Printed, Encodable, Printable, CellAt, Encoded, Padded, FileAt;
    if k > 0 {
      ReadingAgrees(ss, cs, k - 1);
      var cells := Cells(ss);
      CellInTar(ss, k - 1);
      var offset := |Body(cells[..k - 1])|;
      var rest := cs[k - 1..];
      assert cs == cells[..k - 1] + rest && ss[k - 1] in ss;
      PrintedIsNotZero(ss[k - 1]);
      NotYetTheTrailer(Tar(ss), cells[..k - 1], rest);
      FirstOfRest(Tar(ss), cells[..k - 1], rest);
      PrintedFound(Tar(ss), offset, ss[k - 1], rest[0]);
      assert cs[..k] == cs[..k - 1] + [cs[k - 1]] && cells[..k] == cells[..k - 1] + [cells[k - 1]];
    }
  }

  lemma PrintedIsNotZero(s: Source)
    requires Printable(s)
    ensures |Printed(s).header| == BLOCK && !AllZero(Printed(s).header)
  {
    hide ChecksumMatches, HeaderPath, ReadSize, Printed, Encodable, Padded, AllZero;
    PrintedHeader(s);
    if AllZero(Printed(s).header) {
      ZeroBlockIsNoHeader(Printed(s).header);
    }
  }

  lemma PrintedFound(tar: bytes, offset: nat, s: Source, found: Cell)
    requires Printable(s)
    requires var c := Printed(s);
             && offset + BLOCK + Padded(|c.data|) <= |tar|
             && tar[offset..offset + BLOCK] == c.header && CellAt(tar, offset, |c.data|) == c
    requires FileAt(tar, offset) == Some(found)
    ensures found == Printed(s)
  {
    hide ChecksumMatches, HeaderPath, ReadSize, Printed, Encodable, Padded, CellAt, FileHeader;
    PrintedHeader(s);
  }

  lemma ReadingIsPrinted(ss: seq<Source>, cs: seq<Cell>)
    requires AllPrintable(ss) && forall s :: s in ss ==> Encodable(s)
    requires IsTarOf(Tar(ss), cs)
    ensures cs == Cells(ss)
  {
    hide Body, WellFormed, Encodable, Printable, Encoded;
    ReadingAgrees(ss, cs, |ss|);
    var cells := Cells(ss);
    assert cells[..|ss|] == cells && cs == cells + cs[|ss|..];
    var tar := Tar(ss);
    assert tar[|Body(cells)|..|Body(cells)| + BLOCK] == Zeros(BLOCK);
    LastCell(tar, cells, cs[|ss|..]);
  }

  // ---- What the printed cells add up to ----

  predicate Safe(ss: seq<Source>) {
    forall s :: s in ss ==> BACKSLASH !in Relative(s)
  }

  lemma CellsWellFormed(ss: seq<Source>)
    requires AllPrintable(ss) && forall s :: s in ss ==> Encodable(s)
    ensures AllWellFormed(Cells(ss)) <==> Safe(ss)
  {
    hide WellFormed, Printed, Printable, Encodable, Relative;
    var cells := Cells(ss);
    forall i | 0 <= i < |ss| ensures WellFormed(cells[i]) <==> BACKSLASH !in Relative(ss[i]) {
      assert ss[i] in ss;
      PrintedWellFormed(ss[i]);
    }
    if AllWellFormed(cells) {
      forall s | s in ss ensures BACKSLASH !in Relative(s) {
        var i :| 0 <= i < |ss| && ss[i] == s;
        assert cells[i] in cells;
      }
    }
  }

  lemma {:induction false} CellsTotal(ss: seq<Source>)
    requires forall s :: s in ss ==> Encodable(s)
    ensures Total(Cells(ss)) == ContentSize(ss)
  {
    hide Encodable, Header, Padded;
    if ss != [] {
      var init, s := ss[..|ss| - 1], ss[|ss| - 1];
      assert forall t :: t in init ==> t in ss;
      assert s in ss;
      CellsTotal(init);
      assert Cells(ss)[..|ss| - 1] == Cells(init);
    }
  }

  /** The sources other than the identity. */
  function Others(ss: seq<Source>): (r: seq<Source>) {
    if ss == [] then []
    else if Relative(ss[0]) == IDENTITY_ENTRY then Others(ss[1..])
    else [ss[0]] + Others(ss[1..])
  }

  lemma {:induction false} OthersAppend(ss: seq<Source>, s: Source)
    ensures Others(ss + [s]) == if Relative(s) == IDENTITY_ENTRY then Others(ss) else Others(ss) + [s]
  {
    hide Relative;
    if ss == [] {
      assert ss + [s] == [s];
    } else {
      assert (ss + [s])[1..] == ss[1..] + [s];
      OthersAppend(ss[1..], s);
    }
  }

  lemma {:induction false} OthersAll(ss: seq<Source>)
    requires forall s :: s in ss ==> Relative(s) != IDENTITY_ENTRY
    ensures Others(ss) == ss
  {
    hide Relative;
    if ss != [] {
      assert ss[0] in ss && forall s :: s in ss[1..] ==> s in ss;
      OthersAll(ss[1..]);
    }
  }

  lemma {:induction false} OthersOfInsert(id: Source, ss: seq<Source>)
    requires Relative(id) == IDENTITY_ENTRY && forall s :: s in ss ==> Relative(s) != IDENTITY_ENTRY
    ensures Others(Insert(id, ss, SourceLess)) == ss
  {
    hide Relative, Less;
    OthersAll(ss);
    if ss != [] && !SourceLess(id, ss[0]) {
      assert ss[0] in ss && forall s :: s in ss[1..] ==> s in ss;
      OthersOfInsert(id, ss[1..]);
      assert ([ss[0]] + Insert(id, ss[1..], SourceLess))[1..] == Insert(id, ss[1..], SourceLess);
    } else {
      assert ([id] + ss)[1..] == ss;
    }
  }

  lemma {:induction false} PlainFilesOfCells(ss: seq<Source>)
    requires AllPrintable(ss) && Safe(ss) && forall s :: s in ss ==> Encodable(s)
    ensures AllWellFormed(Cells(ss)) && PlainFiles(Cells(ss)) == Others(ss)
    ensures IdentityOf(Cells(ss)).Some? <==> exists s :: s in ss && Relative(s) == IDENTITY_ENTRY
    ensures IdentityOf(Cells(ss)).Some? ==>
              exists s :: s in ss && Relative(s) == IDENTITY_ENTRY && s.content == IdentityOf(Cells(ss)).value
  {
    hide WellFormed, Encodable, Printable, Relative, PlainFiles, IdentityOf, Others, Printed;
    CellsWellFormed(ss);
    if ss == [] {
      NothingPrinted();
      assert Cells(ss) == [];
    } else {
      var init, s := ss[..|ss| - 1], ss[|ss| - 1];
      assert ss == init + [s] && s in ss && forall t :: t in init ==> t in ss;
      PlainFilesOfCells(init);
      PrintOneMore(init, s);
      PrintedWellFormed(s);
      PlainFilesAppend(Cells(init), Printed(s));
      EntriesAppend(Cells(init), Printed(s));
      OthersAppend(init, s);
      PrintedContent(s);
    }
  }

  lemma NothingPrinted()
    ensures Others([]) == [] && PlainFiles([]) == [] && IdentityOf([]) == None
  {
  }

  lemma PrintedContent(s: Source)
    requires Encodable(s)
    ensures Printed(s).data == s.content
  {
  }

  // ---- The arrangement capture writes ----

  lemma {:induction false} AsciiIsText(s: bytes)
    requires forall b :: b in s ==> b < 0x80
    ensures Utf8.IsText(s)
  {
    if s != [] {
      assert s[0] in s && forall b :: b in s[1..] ==> b in s;
      AsciiIsText(s[1..]);
    }
  }

  lemma IdentityIsPrintable(identity: bytes)
    requires |identity| <= U64_MAX
    ensures Printable(IdentitySource(identity)) && Relative(IdentitySource(identity)) == IDENTITY_ENTRY
    ensures BACKSLASH !in IDENTITY_ENTRY
  {
    hide IDENTITY_ENTRY, SplitPath, Utf8.IsText;
    IdentityBytes();
    AsciiIsText(IDENTITY_ENTRY);
    ShortPath(IDENTITY_ENTRY);
  }

  lemma IdentityBytes()
    ensures |IDENTITY_ENTRY| == 36
    ensures forall b :: b in IDENTITY_ENTRY ==> 0x2D <= b < 0x80 && b != SLASH && b != BACKSLASH
  {
  }

  lemma ShortPath(path: bytes)
    requires |path| <= NAME_WIDTH
    ensures SplitPath(path).Some?
  {
  }

  lemma ArrangedPrintable(tree: Listing, identity: bytes, limits: Limits, schema: bytes -> bool, gzip: bytes -> bytes)
    requires Plausible(tree) && Capturable(tree, identity, limits, schema, gzip)
    ensures AllPrintable(Arranged(Collect(tree, []).value, identity))
  {
    hide Collect, Tar, Relative, Encodable, Insert, Sort, LegalPath, ContentSize;
    CollectLegal(tree, []);
    IdentityIsPrintable(identity);
  }

  lemma ArrangedOthers(sources: seq<Source>, identity: bytes)
    requires forall s :: s in sources ==> Relative(s) != IDENTITY_ENTRY
    ensures var all := Arranged(sources, identity);
            && Others(all) == Sort(sources, SourceLess)
            && ContentSize(all) == |identity| + ContentSize(sources)
            && |all| == |sources| + 1
            && (Safe(all) <==> Safe(sources))
            && (forall s :: s in all && Relative(s) == IDENTITY_ENTRY ==> s == IdentitySource(identity))
  {
    hide Others, Sort, Insert, ContentSize, Less;
    var id := IdentitySource(identity);
    assert Relative(id) == IDENTITY_ENTRY;
    OthersOfInsert(id, Sort(sources, SourceLess));
    SortSize(sources);
    InsertSize(id, Sort(sources, SourceLess));
  }

  lemma PathsOfCells(ss: seq<Source>)
    requires AllPrintable(ss) && Safe(ss) && Ascending(ss, SourceLess) && forall s :: s in ss ==> Encodable(s)
    ensures AllWellFormed(Cells(ss)) && Distinct(Paths(Cells(ss)))
  {
    hide WellFormed, Encodable, Printable, Printed, Relative, Less, CellPath;
    CellsWellFormed(ss);
    var paths := Paths(Cells(ss));
    forall i, j | 0 <= i < j < |ss| ensures paths[i] != paths[j] {
      assert ss[i] in ss && ss[j] in ss && SourceLess(ss[i], ss[j]);
      PrintedWellFormed(ss[i]);
      PrintedWellFormed(ss[j]);
      LessIrreflexive(Relative(ss[i]));
    }
  }

  lemma CellsAdmitted(ss: seq<Source>, limits: Limits, schema: bytes -> bool)
    requires AllPrintable(ss) && Safe(ss) && Ascending(ss, SourceLess) && forall s :: s in ss ==> Encodable(s)
    requires |Others(ss)| <= limits.maxEntries && ContentSize(ss) <= limits.maxUncompressed
    requires forall s :: s in ss ==>
               if Relative(s) == IDENTITY_ENTRY then ValidIdentity(s.content, limits, schema) else |s.content| <= limits.maxEntry
    ensures AllWellFormed(Cells(ss)) && Admitted(Cells(ss), limits, schema)
    ensures |Entries(Cells(ss))| == |Others(ss)|
  {
    hide WellFormed, Encodable, Printable, Printed, Relative, Others, Entries, ContentSize, Body, Total, PlainFiles, FilesIn;
    PathsOfCells(ss);
    CellsTotal(ss);
    PlainFilesOfCells(ss);
    EntryFiles(Body(Cells(ss)), Cells(ss));
    SizesAdmitted(ss, limits, schema);
    hide SizeAdmitted, ValidIdentity, Cells;
  }

  lemma SizesAdmitted(ss: seq<Source>, limits: Limits, schema: bytes -> bool)
    requires AllPrintable(ss) && Safe(ss) && forall s :: s in ss ==> Encodable(s)
    requires forall s :: s in ss ==>
               if Relative(s) == IDENTITY_ENTRY then ValidIdentity(s.content, limits, schema) else |s.content| <= limits.maxEntry
    ensures AllWellFormed(Cells(ss)) && forall c :: c in Cells(ss) ==> SizeAdmitted(c, limits, schema)
  {
    hide WellFormed, Encodable, Printable, Printed, Relative;
    CellsWellFormed(ss);
    forall c | c in Cells(ss) ensures SizeAdmitted(c, limits, schema) {
      var i :| 0 <= i < |ss| && Cells(ss)[i] == c;
      assert ss[i] in ss && c == Printed(ss[i]);
      PrintedWellFormed(ss[i]);
      PrintedContent(ss[i]);
    }
  }

  /** The tar never outgrows the physical bound that restore puts on it. */
  lemma {:induction false} BodySize(ss: seq<Source>)
    requires AllPrintable(ss) && forall s :: s in ss ==> Encodable(s)
    ensures |Body(Cells(ss))| <= ContentSize(ss) + 1023 * |ss|
  {
    hide Encodable, Printable, Printed, Body, Encoded;
    if ss == [] {
      EmptyBody();
      assert Cells(ss) == [];
    } else {
      var init, s := ss[..|ss| - 1], ss[|ss| - 1];
      assert ss == init + [s] && s in ss && forall t :: t in init ==> t in ss;
      BodySize(init);
      PrintOneMore(init, s);
      PrintedLength(s);
    }
  }

  lemma PrintedLength(s: Source)
    requires Printable(s)
    ensures |Encoded(Printed(s))| <= |s.content| + 1023
  {
    hide ChecksumMatches, HeaderPath, ReadSize;
    PrintedHeader(s);
  }

  // ---- The round trip ----

  /** The restored tree holds the captured files with their bytes, the directories that lead to
      them, and nothing else: empty directories and the identity are gone. */
  ghost predicate SameTree(nodes: Nodes, files: map<seq<bytes>, bytes>) {
    && (forall p :: p in nodes && nodes[p].Regular? <==> p in files)
    && (forall p :: p in files ==> nodes[p] == Regular(files[p]))
    && (forall p :: p in nodes && nodes[p].Folder? <==> p != [] && exists q :: q in files && p < q)
  }

  lemma HoldsSameTree(nodes: Nodes, ss: seq<Source>, files: map<seq<bytes>, bytes>)
    requires Holds(nodes, ss) && Lists(ss, files)
    ensures SameTree(nodes, files)
  {
    forall p | p in files ensures p in nodes && nodes[p] == Regular(files[p]) {
      assert Source(p, files[p]) in ss;
    }
    forall p ensures p in nodes && nodes[p].Folder? <==> p != [] && exists q :: q in files && p < q {
      if p in nodes && nodes[p].Folder? {
        var f :| f in ss && p < f.path;
        assert f.path in files;
      }
      if p != [] && exists q :: q in files && p < q {
        var q :| q in files && p < q;
        assert Source(q, files[q]) in ss && p == q[..|p|];
      }
    }
  }

  lemma SortedLists(sources: seq<Source>, files: map<seq<bytes>, bytes>)
    requires Lists(sources, files) && forall s :: s in sources ==> LegalPath(s.path)
    ensures Lists(Sort(sources, SourceLess), files)
  {
    hide Less, Sort;
    SourceOrder();
    SourcesComparable(sources);
    SortIsAscending(sources, SourceLess);
    var sorted := Sort(sources, SourceLess);
    forall i, j | 0 <= i < j < |sorted| ensures sorted[i].path != sorted[j].path {
      assert SourceLess(sorted[i], sorted[j]);
      LessIrreflexive(Relative(sorted[i]));
    }
  }

  lemma TreeHasNoConflict(tree: Listing, ss: seq<Source>)
    requires Plausible(tree) && Lists(ss, Files(tree, []))
    ensures NoConflict(ss)
  {
    forall i, j | 0 <= i < |ss| && 0 <= j < |ss| && i != j ensures !(ss[i].path <= ss[j].path) {
      assert ss[i] in ss && ss[j] in ss;
      if ss[i].path <= ss[j].path {
        FilesDoNotNest(tree, [], ss[i].path, ss[j].path);
      }
    }
  }

  /** The captured tar is readable exactly when no path has a backslash and the total, identity
      included, is within the uncompressed bound; it then reads as the cells that were printed. */
  lemma CapturedTarReads(tree: Listing, identity: bytes, limits: Limits, schema: bytes -> bool, gzip: bytes -> bytes)
    requires Plausible(tree) && Capturable(tree, identity, limits, schema, gzip)
    ensures var sources := Collect(tree, []).value;
            var all := Arranged(sources, identity);
            && (Safe(sources) && |identity| + ContentSize(sources) <= limits.maxUncompressed
                ==> Reads(Tar(all), Cells(all), limits, schema))
            && forall cs :: Reads(Tar(all), cs, limits, schema) ==>
                 cs == Cells(all) && Safe(sources) && |identity| + ContentSize(sources) <= limits.maxUncompressed
  {
    hide Collect, Sort, Insert, ContentSize, Encodable, Printable, WellFormed, Body, Cells, Others, Entries, Total, IdentityOf, Relative, Less;
    var sources := Collect(tree, []).value;
    var all := Arranged(sources, identity);
    ArrangedPrintable(tree, identity, limits, schema, gzip);
    ArrangedOthers(sources, identity);
    ArrangedAscending(tree, identity);
    CellsWellFormed(all);
    CellsTotal(all);
    if Safe(all) && ContentSize(all) <= limits.maxUncompressed {
      IdentityIsPrintable(identity);
      forall s | s in all
        ensures if Relative(s) == IDENTITY_ENTRY then ValidIdentity(s.content, limits, schema)
                else |s.content| <= limits.maxEntry
      {
        assert s == IdentitySource(identity) || s in sources;
      }
      CellsAdmitted(all, limits, schema);
      PlainFilesOfCells(all);
      assert IdentitySource(identity) in all;
    }
    forall cs | Reads(Tar(all), cs, limits, schema)
      ensures cs == Cells(all) && Safe(all) && ContentSize(all) <= limits.maxUncompressed
    {
      ReadingIsPrinted(all, cs);
    }
  }

  /** What restore needs from its surroundings to undo a capture: a decompressor that inverts the
      compressor on this tar, and digests of the usual form. */
  ghost predicate Undoes(m: Machine, tar: bytes, archive: bytes) {
    && m.gunzip(archive).Some? && Flatten(m.gunzip(archive).value) == tar
    && HexDigest(m.sha256(archive))
  }

  function RestoreOf(archive: bytes, identity: bytes, m: Machine): (q: Request) {
    Request(archive, m.sha256(archive), identity, false)
  }

  lemma TarFits(all: seq<Source>, limits: Limits)
    requires AllPrintable(all) && forall s :: s in all ==> Encodable(s)
    requires ContentSize(all) <= limits.maxUncompressed && |all| <= limits.maxEntries + 1
    requires PhysicalLimit(limits) <= U64_MAX
    ensures |Tar(all)| <= TarLimit(limits)
  {
    hide Encodable, Printable, Cells, Body;
    BodySize(all);
  }

  /** What stands between a captured tree and its restoration: a backslash in a path, a total beyond
      the uncompressed bound, or a tar beyond the bound restore computes for it. */
  ghost predicate Returns(sources: seq<Source>, identity: bytes, limits: Limits)
    requires forall s :: s in Arranged(sources, identity) ==> Encodable(s)
  {
    && Safe(sources)
    && |identity| + ContentSize(sources) <= limits.maxUncompressed
    && |Tar(Arranged(sources, identity))| <= TarLimit(limits)
  }

  /** The third condition follows from the second unless the computation of the bound overflows. */
  lemma NoPhysicalBoundTripped(tree: Listing, identity: bytes, limits: Limits, schema: bytes -> bool, gzip: bytes -> bytes)
    requires Plausible(tree) && Capturable(tree, identity, limits, schema, gzip) && PhysicalLimit(limits) <= U64_MAX
    ensures var sources := Collect(tree, []).value;
            Returns(sources, identity, limits) <==>
            Safe(sources) && |identity| + ContentSize(sources) <= limits.maxUncompressed
  {
    hide Collect, Sort, Insert, ContentSize, Encodable, Printable, Tar, Cells, Relative, Less, Safe;
    var sources := Collect(tree, []).value;
    if |identity| + ContentSize(sources) <= limits.maxUncompressed {
      ArrangedPrintable(tree, identity, limits, schema, gzip);
      ArrangedOthers(sources, identity);
      TarFits(Arranged(sources, identity), limits);
    }
  }

  /** Capture, then restore: it succeeds if and only if no path contains a backslash, the identity
      and the files together are within the uncompressed bound, and their tar is within the bound
      restore computes. It then reports the same number of entries and the same size, and yields the
      captured tree. */
  lemma CaptureThenRestore(tree: Listing, identity: bytes, limits: Limits, gzip: bytes -> bytes, m: Machine)
    requires Plausible(tree) && Capturable(tree, identity, limits, m.schema, gzip)
    requires var tar := Tar(Arranged(Collect(tree, []).value, identity)); Undoes(m, tar, gzip(tar))
    ensures var sources := Collect(tree, []).value;
            var tar := Tar(Arranged(sources, identity));
            var q := RestoreOf(gzip(tar), identity, m);
            && ((exists cs :: Restorable(q, limits, m, cs)) <==> Returns(sources, identity, limits))
            && forall cs :: Restorable(q, limits, m, cs) ==>
                 && Total(cs) == |identity| + ContentSize(sources)
                 && |Entries(cs)| == |sources|
                 && forall nodes :: Holds(nodes, FilesIn(tar, Entries(cs))) ==> SameTree(nodes, Files(tree, []))
  {
    hide SourcesFit, ValidIdentity, Collect, Sort, Insert, ContentSize, Encodable, Tar, Cells, Reads, Entries, Total, IdentityOf, FilesIn, NoConflict, Holds;
    hide SameTree, Flatten, Files, HexDigest, Lists;
    var sources := Collect(tree, []).value;
    var all := Arranged(sources, identity);
    var q := RestoreOf(gzip(Tar(all)), identity, m);
    CapturedTarReads(tree, identity, limits, m.schema, gzip);
    if Returns(sources, identity, limits) {
      PrintedIsRestorable(tree, identity, limits, gzip, m);
    }
    forall cs | Restorable(q, limits, m, cs)
      ensures cs == Cells(all)
    {
    }
  }

  lemma PrintedIsRestorable(tree: Listing, identity: bytes, limits: Limits, gzip: bytes -> bytes, m: Machine)
    requires Plausible(tree) && Capturable(tree, identity, limits, m.schema, gzip)
    requires var tar := Tar(Arranged(Collect(tree, []).value, identity)); Undoes(m, tar, gzip(tar))
    requires Returns(Collect(tree, []).value, identity, limits)
    ensures var sources := Collect(tree, []).value;
            var all := Arranged(sources, identity);
            && Restorable(RestoreOf(gzip(Tar(all)), identity, m), limits, m, Cells(all))
            && Total(Cells(all)) == |identity| + ContentSize(sources)
            && |Entries(Cells(all))| == |sources|
            && forall nodes :: Holds(nodes, FilesIn(Tar(all), Entries(Cells(all)))) ==> SameTree(nodes, Files(tree, []))
  {
    hide Collect, Sort, Insert, ContentSize, Encodable, Printable, Tar, Cells, Reads, Entries, Total, FilesIn, NoConflict, Holds;
    hide SameTree, Flatten, Files, HexDigest, Lists, Others, Relative, LegalPath;
    var sources := Collect(tree, []).value;
    var all := Arranged(sources, identity);
    CapturedTarReads(tree, identity, limits, m.schema, gzip);
    ArrangedPrintable(tree, identity, limits, m.schema, gzip);
    ArrangedOthers(sources, identity);
    CellsTotal(all);
    PrintedFiles(all);
    CollectLists(tree, []);
    CollectLegal(tree, []);
    SortedLists(sources, Files(tree, []));
    TreeHasNoConflict(tree, Sort(sources, SourceLess));
    PrintedIdentity(sources, identity);
    forall nodes | Holds(nodes, FilesIn(Tar(all), Entries(Cells(all)))) ensures SameTree(nodes, Files(tree, [])) {
      HoldsSameTree(nodes, Sort(sources, SourceLess), Files(tree, []));
    }
  }

  lemma PrintedFiles(all: seq<Source>)
    requires AllPrintable(all) && Safe(all) && forall s :: s in all ==> Encodable(s)
    ensures AllWellFormed(Cells(all))
    ensures forall e :: e in Entries(Cells(all)) ==> e.offset + e.size <= |Tar(all)|
    ensures FilesIn(Tar(all), Entries(Cells(all))) == Others(all)
  {
    hide Encodable, Printable, Cells, Body, Entries, PlainFiles, Others, FilesIn, WellFormed, Relative, IdentityOf;
    PlainFilesOfCells(all);
    EntryFiles(Tar(all), Cells(all));
  }

  lemma PrintedIdentity(sources: seq<Source>, identity: bytes)
    requires forall s :: s in sources ==> Relative(s) != IDENTITY_ENTRY
    requires var all := Arranged(sources, identity);
             AllPrintable(all) && Safe(all) && forall s :: s in all ==> Encodable(s)
    ensures var cells := Cells(Arranged(sources, identity));
            AllWellFormed(cells) && IdentityOf(cells) == Some(identity)
  {
    hide Encodable, Printable, Cells, PlainFiles, Others, WellFormed, IdentityOf, Sort, Insert;
    var all := Arranged(sources, identity);
    PlainFilesOfCells(all);
    assert IdentitySource(identity) in all && Relative(IdentitySource(identity)) == IDENTITY_ENTRY;
  }

  /** The two operations one after the other, with a compressor that can be undone. Capture succeeds
      on capturable trees; restore then succeeds exactly when the conditions hold, and gives back the
      captured tree with the summary capture gave. */
  method CaptureAndRestore(tree: Listing, identity: bytes, limits: Limits, gzip: bytes -> bytes, m: Machine)
    returns (captured: Result<Captured, CaptureError>, restored: Option<Restored>)
    requires Plausible(tree) && forall tar: bytes :: Undoes(m, tar, gzip(tar))
    ensures captured.Ok? <==> Capturable(tree, identity, limits, m.schema, gzip)
    ensures captured.Ok? ==> (restored.Some? <==> Returns(Collect(tree, []).value, identity, limits))
    ensures restored.Some? ==>
              && captured.Ok?
              && restored.value.summary == captured.value.summary
              && SameTree(restored.value.nodes, Files(tree, []))
  {
    hide SourcesFit, ValidIdentity, Collect, Arranged, ContentSize, Encodable, Tar, Entries, Total, FilesIn, Holds;
    hide SameTree, Flatten, Files, Safe, TarLimit, Returns, Restorable;
    restored := None;
    captured := CaptureTree(tree, identity, limits, m.schema, gzip, m.sha256);
    if captured.Ok? {
      var archive := captured.value.archive;
      ghost var tar := Tar(Arranged(Collect(tree, []).value, identity));
      assert Undoes(m, tar, gzip(tar));
      CaptureThenRestore(tree, identity, limits, gzip, m);
      var r, cells := RestoreArchive(RestoreOf(archive, identity, m), limits, m);
      if r.Ok? {
        assert Restorable(RestoreOf(archive, identity, m), limits, m, cells);
        restored := Some(r.value);
      }
    }
  }

  /** With an identity bound no larger than the uncompressed bound, as in the shipped limits, a
      backslash is the only thing that can stand in the way. */
  lemma IdentityBoundSuffices(tree: Listing, identity: bytes, limits: Limits, schema: bytes -> bool, gzip: bytes -> bytes)
    requires Capturable(tree, identity, limits, schema, gzip) && limits.maxIdentity <= limits.maxUncompressed
    ensures |identity| + ContentSize(Collect(tree, []).value) <= limits.maxUncompressed
  {
    hide Collect, Tar, Encodable, Arranged;
  }

  lemma ShippedLimits()
    ensures LIMITS == Limits(67_108_864, 67_108_864, 100_000, 50_331_648, 1_048_576)
    ensures PhysicalLimit(LIMITS) == 169_510_912 <= U64_MAX && LIMITS.maxIdentity <= LIMITS.maxUncompressed
  {
  }

  // ---- Why paths with a backslash are excluded ----

  const BACKSLASH_FILE: Source := Source([[BACKSLASH]], [])

  const BACKSLASH_TREE: Listing := File([BACKSLASH], [], End)

  lemma BackslashWalk()
    ensures Plausible(BACKSLASH_TREE) && Collect(BACKSLASH_TREE, []) == Some([BACKSLASH_FILE])
  {
    AsciiIsText([BACKSLASH]);
    assert [] + [[BACKSLASH]] == [[BACKSLASH]];
    assert TextPath([[BACKSLASH]]);
    assert Collect(End, []) == Some([]);
    assert [BACKSLASH_FILE] + [] == [BACKSLASH_FILE];
  }

  lemma BackslashArranged(identity: bytes)
    ensures Arranged([BACKSLASH_FILE], identity) == [BACKSLASH_FILE, IdentitySource(identity)]
    ensures Encodable(BACKSLASH_FILE) && Encodable(IdentitySource(identity))
  {
    hide SplitPath;
    ShortPath([BACKSLASH]);
    ShortPath(IDENTITY_ENTRY);
    assert [BACKSLASH_FILE][1..] == [];
    assert Sort([BACKSLASH_FILE], SourceLess) == [BACKSLASH_FILE];
    var id := IdentitySource(identity);
    assert !SourceLess(id, BACKSLASH_FILE);
    assert Insert(id, [], SourceLess) == [id];
    assert [BACKSLASH_FILE] + [id] == [BACKSLASH_FILE, id];
  }

  lemma BackslashFits(identity: bytes)
    requires |identity| <= LIMITS.maxIdentity
    ensures SourcesFit([BACKSLASH_FILE], identity, LIMITS) && !Safe([BACKSLASH_FILE])
  {
    assert Relative(BACKSLASH_FILE) == [BACKSLASH];
    assert [BACKSLASH_FILE][..0] == [] && ContentSize([BACKSLASH_FILE]) == 0;
    assert BACKSLASH_FILE in [BACKSLASH_FILE];
  }

  /** A file named by a single backslash is captured, with any valid identity, and can never be restored. */
  lemma BackslashIsNotRestored(identity: bytes, gzip: bytes -> bytes, m: Machine)
    requires ValidIdentity(identity, LIMITS, m.schema)
    requires (forall s :: s in [BACKSLASH_FILE, IdentitySource(identity)] ==> Encodable(s)) ==>
               var tar := Tar([BACKSLASH_FILE, IdentitySource(identity)]);
               |gzip(tar)| <= LIMITS.maxCompressed && Undoes(m, tar, gzip(tar))
    ensures Plausible(BACKSLASH_TREE) && Capturable(BACKSLASH_TREE, identity, LIMITS, m.schema, gzip)
    ensures var tar := Tar(Arranged(Collect(BACKSLASH_TREE, []).value, identity));
            forall cs :: !Restorable(RestoreOf(gzip(tar), identity, m), LIMITS, m, cs)
  {
    hide Tar, Insert, Sort, Encodable, Collect, Undoes, Restorable, Plausible, SourcesFit, Safe;
    BackslashWalk();
    BackslashArranged(identity);
    BackslashFits(identity);
    CaptureThenRestore(BACKSLASH_TREE, identity, LIMITS, gzip, m);
  }

  // ---- Why the identity counts ----

  /** An empty cache: no file, so the loop that compares the total with its bound never runs. */
  lemma EmptyTree(identity: bytes, limits: Limits, schema: bytes -> bool)
    requires ValidIdentity(identity, limits, schema)
    ensures Plausible(End) && Collect(End, []) == Some([]) && SourcesFit([], identity, limits)
    ensures Arranged([], identity) == [IdentitySource(identity)] && Encodable(IdentitySource(identity))
  {
    hide SplitPath;
    ShortPath(IDENTITY_ENTRY);
    assert Sort([], SourceLess) == [];
  }

  /** With an empty cache, every valid identity beyond the uncompressed bound is captured and can
      never be restored. */
  lemma OversizedIdentityIsNotRestored(identity: bytes, limits: Limits, gzip: bytes -> bytes, m: Machine)
    requires ValidIdentity(identity, limits, m.schema) && |identity| > limits.maxUncompressed
    requires Encodable(IdentitySource(identity)) ==>
               var tar := Tar([IdentitySource(identity)]);
               |gzip(tar)| <= limits.maxCompressed && Undoes(m, tar, gzip(tar))
    ensures Plausible(End) && Capturable(End, identity, limits, m.schema, gzip)
    ensures var tar := Tar(Arranged(Collect(End, []).value, identity));
            forall cs :: !Restorable(RestoreOf(gzip(tar), identity, m), limits, m, cs)
  {
    hide Tar, Insert, Sort, Encodable, Undoes, Restorable, SourcesFit, Safe;
    EmptyTree(identity, limits, m.schema);
    CaptureThenRestore(End, identity, limits, gzip, m);
  }

  const TINY: Limits := Limits(4096, 0, 1, 1, 2)
  const BRACES: bytes := [0x7B, 0x7D]

  /** A compressor that stores, a schema that accepts and a constant digest. */
  function Storing(): (m: Machine) {
    Machine(_ => true, archive => Some([archive]), _ => seq(64, _ => 0x30))
  }

  lemma StoringUndoes(tar: bytes)
    ensures Undoes(Storing(), tar, tar)
  {
    assert [tar][1..] == [];
    assert Flatten([tar]) == tar;
  }

  /** Two bytes of identity, an uncompressed bound of zero. */
  lemma BracesAreNotRestored()
    ensures Capturable(End, BRACES, TINY, Storing().schema, tar => tar)
    ensures var tar := Tar(Arranged(Collect(End, []).value, BRACES));
            forall cs :: !Restorable(RestoreOf(tar, BRACES, Storing()), TINY, Storing(), cs)
  {
    hide Tar, Insert, Sort, Encodable, Undoes, Restorable, SourcesFit, Collect, Plausible, Arranged;
    var m, gzip := Storing(), (tar: bytes) => tar;
    EmptyTree(BRACES, TINY, m.schema);
    BracesFit();
    StoringUndoes(Tar([IdentitySource(BRACES)]));
    OversizedIdentityIsNotRestored(BRACES, TINY, gzip, m);
  }

  lemma BracesFit()
    ensures Encodable(IdentitySource(BRACES)) && |Tar([IdentitySource(BRACES)])| <= TINY.maxCompressed
  {
    hide Encodable, Printable, Cells, Body, ContentSize;
    EmptyTree(BRACES, TINY, _ => true);
    IdentityIsPrintable(BRACES);
    BodySize([IdentitySource(BRACES)]);
    assert ContentSize([IdentitySource(BRACES)]) == 2 by {
      ContentSizeFirst([IdentitySource(BRACES)]);
      assert [IdentitySource(BRACES)][1..] == [];
      EmptyContent();
    }
  }

  lemma EmptyContent()
    ensures ContentSize([]) == 0
  {
  }
}
