/** `restore_with_hooks`: from an archive back to a directory tree.

    The decompressor, which delivers its output in pieces, and the digest are parameters.
 */
module Restore {
  import opened ByteStrings
  import opened TarHeader
  import opened TarArchive
  import opened ArchivePath
  import opened Staging
  import opened Capture
  import CacheTree

  const MAX_TAR_BYTES: nat := 64 * 1024 * 1024 + (100_000 + 1) * 1024 + 1024

  function PhysicalLimit(limits: Limits): (n: nat) {
    limits.maxUncompressed + (limits.maxEntries + 1) * 1024 + 1024
  }

  /** The bound the code computes: the overhead wraps around at 64 bits, and only adding it to the
      uncompressed bound is checked. */
  function TarLimit(limits: Limits): (n: nat)
    ensures n <= U64_MAX
    ensures PhysicalLimit(limits) <= U64_MAX ==> n == PhysicalLimit(limits)
  {
    var n := limits.maxUncompressed + ((limits.maxEntries + 1) * 1024 + 1024) % (U64_MAX + 1);
    if n <= U64_MAX then n else MAX_TAR_BYTES
  }

  /** The two ways the computation leaves the physical bound: the overhead wraps to almost nothing, or
      the sum does not fit and the bound of the shipped limits is taken. */
  lemma TarLimitOverflows(limits: Limits)
    ensures limits.maxEntries == 0xFFFF_FFFF_FFFF_FFFF && limits.maxUncompressed < 0xFFFF_FFFF_FFFF_F000 ==>
              TarLimit(limits) == limits.maxUncompressed + 1024
    ensures limits.maxEntries <= 0xFFFF_FFFF_FFFF && PhysicalLimit(limits) > 0xFFFF_FFFF_FFFF_FFFF ==>
              TarLimit(limits) == 169_510_912
  {
  }

  /** `validate_digest`: 64 lowercase hexadecimal characters. */
  predicate HexDigest(d: bytes) {
    |d| == 64 && forall b :: b in d ==> 0x30 <= b <= 0x39 || 0x61 <= b <= 0x66
  }

  /** Sixty-four of the digits and the lower-case letters up to `f`. */
  lemma HexDigestMeans(d: bytes)
    ensures HexDigest(d) <==>
            && |d| == 64
            && forall i :: 0 <= i < 64 ==> '0' as int <= d[i] <= '9' as int || 'a' as int <= d[i] <= 'f' as int
  {
    assert HexDigest(d) ==> forall i :: 0 <= i < 64 ==> d[i] in d;
  }

  datatype Request = Request(
    archive: bytes,
    expectedSha256: bytes,
    expectedIdentity: bytes,
    destinationExists: bool)

  datatype Machine = Machine(schema: bytes -> bool, gunzip: bytes -> Option<seq<bytes>>, sha256: bytes -> bytes)

  datatype RestoreError =
    | BadDigest | BadExpectedIdentity | DestinationExists | ArchiveTooBig | DigestMismatch | CorruptGzip
    | ExpandsTooFar | BadTar(tar: TarError) | IdentityMismatch | ExtractionFailed

  datatype Restored = Restored(nodes: Nodes, summary: Summary)

  /** `cells` is an admissible reading of the archive, and everything else the restore asks for holds. */
  ghost predicate Restorable(q: Request, limits: Limits, m: Machine, cells: seq<Cell>) {
    && HexDigest(q.expectedSha256)
    && ValidIdentity(q.expectedIdentity, limits, m.schema)
    && !q.destinationExists
    && |q.archive| <= limits.maxCompressed
    && m.sha256(q.archive) == q.expectedSha256
    && m.gunzip(q.archive).Some?
    && var tar := Flatten(m.gunzip(q.archive).value);
    && |tar| <= TarLimit(limits)
    && Reads(tar, cells, limits, m.schema)
    && IdentityOf(cells) == Some(q.expectedIdentity)
    && (forall e :: e in Entries(cells) ==> e.offset + e.size <= |tar|)
    && NoConflict(FilesIn(tar, Entries(cells)))
  }

  /** `copy_bounded`: everything, or nothing once the bound is passed. */
  method CopyBounded(pieces: seq<bytes>, max: nat) returns (r: Option<bytes>)
    ensures r == if |Flatten(pieces)| <= max then Some(Flatten(pieces)) else None
  {
    var copied: bytes := [];
    for i := 0 to |pieces|
      invariant copied == Flatten(pieces[..i]) && |copied| <= max
    {
      assert pieces[..i + 1] == pieces[..i] + [pieces[i]];
      FlattenAppend(pieces[..i], [pieces[i]]);
      if |copied| + |pieces[i]| > max {
        FlattenAppend(pieces[..i + 1], pieces[i + 1..]);
        assert pieces == pieces[..i + 1] + pieces[i + 1..];
        return None;
      }
      copied := copied + pieces[i];
    }
    assert pieces[..|pieces|] == pieces;
    return Some(copied);
  }

  // ---- Entries lie inside the archive ----

  /** The files of a reading other than the identity. */
  function PlainFiles(cells: seq<Cell>): (r: seq<File>)
    requires AllWellFormed(cells)
  {
    if cells == [] then []
    else
      var init, c := cells[..|cells| - 1], cells[|cells| - 1];
      if IsIdentity(c) then PlainFiles(init) else PlainFiles(init) + [CacheTree.Source(Split(CellPath(c)), c.data)]
  }

  lemma PlainFilesAppend(cells: seq<Cell>, c: Cell)
    requires AllWellFormed(cells) && WellFormed(c)
    ensures AllWellFormed(cells + [c])
    ensures PlainFiles(cells + [c]) ==
            if IsIdentity(c) then PlainFiles(cells) else PlainFiles(cells) + [CacheTree.Source(Split(CellPath(c)), c.data)]
  {
    hide WellFormed, IsIdentity, Split;
    assert (cells + [c])[..|cells|] == cells;
  }

  /** Each entry of a reading denotes, in the archive, the bytes of its cell. */
  lemma {:induction false} EntryFiles(archive: bytes, cells: seq<Cell>)
    requires AllWellFormed(cells) && Body(cells) <= archive
    ensures forall e :: e in Entries(cells) ==> e.path != [] && e.offset + e.size <= |archive|
    ensures FilesIn(archive, Entries(cells)) == PlainFiles(cells)
  {
    hide Body, WellFormed, Entries, PlainFiles, IsIdentity, CellPath, Encoded;
    if cells == [] {
      NoEntries();
    } else {
      var init, c := cells[..|cells| - 1], cells[|cells| - 1];
      assert cells == init + [c] && c in cells && forall d :: d in init ==> d in cells;
      BodyAppend(init, c);
      PlainFilesAppend(init, c);
      EntriesAppend(init, c);
      assert Body(init) <= archive;
      EntryFiles(archive, init);
      CellData(archive, init, c);
      if !IsIdentity(c) {
        var e := Entry(Split(CellPath(c)), |Body(init)| + BLOCK, |c.data|);
        assert FilesIn(archive, Entries(init) + [e]) ==
               FilesIn(archive, Entries(init)) + [CacheTree.Source(e.path, archive[e.offset..e.offset + e.size])];
      }
    }
  }

  lemma NoEntries()
    ensures Entries([]) == [] && PlainFiles([]) == []
  {
  }

  lemma CellData(archive: bytes, init: seq<Cell>, c: Cell)
    requires WellFormed(c) && Body(init) + Encoded(c) <= archive
    ensures |Body(init)| + BLOCK + |c.data| <= |archive|
    ensures archive[|Body(init)| + BLOCK..|Body(init)| + BLOCK + |c.data|] == c.data
  {
    hide Body, FileHeader, Padded, ReadSize;
    var head := Body(init) + c.header;
    assert archive[|head|..|head| + |c.data|] == (Body(init) + Encoded(c))[|head|..|head| + |c.data|];
  }

  lemma ReadingHasEntries(tar: bytes, cells: seq<Cell>, limits: Limits, schema: bytes -> bool)
    requires Reads(tar, cells, limits, schema)
    ensures AllWellFormed(cells) && Body(cells) <= tar
  {
    hide Body, WellFormed, Admitted, IdentityOf;
  }

  /** A restore succeeds exactly when some reading is restorable, and then leaves that reading's
      files in their directories and nothing else. */
  method RestoreArchive(q: Request, limits: Limits, m: Machine)
    returns (r: Result<Restored, RestoreError>, ghost cells: seq<Cell>)
    ensures r.Err? ==> forall cs :: !Restorable(q, limits, m, cs)
    ensures r.Ok? ==>
              && Restorable(q, limits, m, cells)
              && Holds(r.value.nodes, FilesIn(Flatten(m.gunzip(q.archive).value), Entries(cells)))
              && r.value.summary == Summary(q.expectedSha256, |q.archive|, Total(cells), |Entries(cells)|)
  {
    hide Reads, Holds, NoConflict, Entries, IdentityOf, Total, Flatten, FilesIn, HexDigest, ValidIdentity;
    cells := [];
    if !HexDigest(q.expectedSha256) {
      return Err(BadDigest), cells;
    }
    if !ValidIdentity(q.expectedIdentity, limits, m.schema) {
      return Err(BadExpectedIdentity), cells;
    }
    if q.destinationExists {
      return Err(DestinationExists), cells;
    }
    if |q.archive| > limits.maxCompressed {
      return Err(ArchiveTooBig), cells;
    }
    var actual := m.sha256(q.archive);
    if actual != q.expectedSha256 {
      return Err(DigestMismatch), cells;
    }
    var pieces := m.gunzip(q.archive);
    if pieces.None? {
      return Err(CorruptGzip), cells;
    }
    var copied := CopyBounded(pieces.value, TarLimit(limits));
    if copied.None? {
      return Err(ExpandsTooFar), cells;
    }
    var tar := copied.value;
    var parsed, reading := ValidateTar(tar, limits, m.schema);
    if parsed.Err? {
      NotRestorable(q, limits, m);
      return Err(BadTar(parsed.error)), cells;
    }
    cells := reading;
    if parsed.value.identity != q.expectedIdentity {
      return Err(IdentityMismatch), cells;
    }
    ReadingHasEntries(tar, cells, limits, m.schema);
    EntryFiles(tar, cells);
    var staging := new Directory();
    var extracted := staging.ExtractEntries(tar, parsed.value.entries);
    if !extracted {
      return Err(ExtractionFailed), cells;
    }
    ExtractedTreeValidates(staging.nodes, tar, parsed.value.entries);
    // Left alone, the staging tree always passes the re-check and syncs.
    var intact := staging.ValidateExtractedTree(parsed.value.entries);
    if !intact {
      assert false;
    }
    var synced, order := staging.SyncStagingDirectories(parsed.value.entries);
    if !synced {
      assert false;
    }
    SummaryOf(cells, tar, limits, m.schema);
    return Ok(Restored(staging.nodes, Summary(actual, |q.archive|, parsed.value.total, |parsed.value.entries|))), cells;
  }

  lemma NotRestorable(q: Request, limits: Limits, m: Machine)
    requires m.gunzip(q.archive).Some? && Unreadable(Flatten(m.gunzip(q.archive).value), limits, m.schema)
    ensures forall cs :: !Restorable(q, limits, m, cs)
  {
    hide Reads, NoConflict, Entries, IdentityOf, FilesIn, Flatten, HexDigest, ValidIdentity;
  }

  lemma SummaryOf(cells: seq<Cell>, tar: bytes, limits: Limits, schema: bytes -> bool)
    requires Reads(tar, cells, limits, schema)
    ensures IdentityOf(cells).Some?
  {
    hide IsTarOf, Admitted, IdentityOf;
  }
}
