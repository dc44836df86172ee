/** `validate_tar`: which byte strings are compiler-cache archives, and what is in them.

    An archive is a list of cells, each a header block, the file's bytes and padding to the
    next block, followed by one or two blocks of zeros. The parser accepts a byte string
    exactly when it is such a list and the list obeys the limits.
 */
module TarArchive {
  import opened ByteStrings
  import opened TarHeader
  import opened ArchivePath
  import opened Sorting
  import Utf8

  type u64 = x: int | 0 <= x <= U64_MAX

  datatype Limits = Limits(
    maxCompressed: u64,
    maxUncompressed: u64,
    maxEntries: u64,
    maxEntry: u64,
    maxIdentity: u64)

  const LIMITS: Limits :=
    Limits(64 * 1024 * 1024, 64 * 1024 * 1024, 100_000, 48 * 1024 * 1024, 1024 * 1024)

  /** `foam-compiler-cache-identity-v1.json` */
  const IDENTITY_ENTRY: bytes := [
    0x66, 0x6F, 0x61, 0x6D, 0x2D, 0x63, 0x6F, 0x6D, 0x70, 0x69, 0x6C, 0x65, 0x72, 0x2D, 0x63, 0x61, 0x63, 0x68,
    0x65, 0x2D, 0x69, 0x64, 0x65, 0x6E, 0x74, 0x69, 0x74, 0x79, 0x2D, 0x76, 0x31, 0x2E, 0x6A, 0x73, 0x6F, 0x6E
  ]

  /** `schema` stands for the JSON schema and canonical-encoding check. */
  predicate ValidIdentity(identity: bytes, limits: Limits, schema: bytes -> bool) {
    identity != [] && |identity| <= limits.maxIdentity && schema(identity)
  }

  /** An identity is valid exactly if it is neither empty nor too long and satisfies the schema. */
  lemma ValidIdentityMeans(identity: bytes, limits: Limits, schema: bytes -> bool)
    ensures ValidIdentity(identity, limits, schema) <==> 0 < |identity| <= limits.maxIdentity && schema(identity)
  {
  }

  /** The name under which the identity is stored. */
  lemma IdentityName()
    ensures IDENTITY_ENTRY ==
            ['f' as int, 'o' as int, 'a' as int, 'm' as int, '-' as int, 'c' as int, 'o' as int, 'm' as int, 'p' as int,
             'i' as int, 'l' as int, 'e' as int, 'r' as int, '-' as int, 'c' as int, 'a' as int, 'c' as int, 'h' as int,
             'e' as int, '-' as int, 'i' as int, 'd' as int, 'e' as int, 'n' as int, 't' as int, 'i' as int, 't' as int,
             'y' as int, '-' as int, 'v' as int, '1' as int, '.' as int, 'j' as int, 's' as int, 'o' as int, 'n' as int]
  {
  }

  // ---- The format ----

  datatype Cell = Cell(header: bytes, data: bytes, padding: bytes)

  function Padded(size: nat): (n: nat)
    ensures n % BLOCK == 0 && size <= n < size + BLOCK
  {
    (size + 511) / 512 * 512
  }

  predicate FileHeader(h: bytes)
    requires |h| == BLOCK
  {
    && ChecksumMatches(h)
    && RegularFileType(h)
    && Utf8.IsText(HeaderPath(h))
    && Canonical(HeaderPath(h))
    && ReadSize(h[124..136]).Some?
  }

  predicate WellFormed(c: Cell) {
    && |c.header| == BLOCK
    && FileHeader(c.header)
    && ReadSize(c.header[124..136]) == Some(|c.data|)
    && |c.data| + |c.padding| == Padded(|c.data|)
  }

  function CellPath(c: Cell): (path: bytes)
    requires WellFormed(c)
  {
    HeaderPath(c.header)
  }

  function Encoded(c: Cell): (s: bytes) {
    c.header + c.data + c.padding
  }

  function Body(cells: seq<Cell>): (s: bytes) {
    if cells == [] then [] else Body(cells[..|cells| - 1]) + Encoded(cells[|cells| - 1])
  }

  ghost predicate AllWellFormed(cells: seq<Cell>) {
    forall c :: c in cells ==> WellFormed(c)
  }

  ghost predicate IsTarOf(archive: bytes, cells: seq<Cell>) {
    && AllWellFormed(cells)
    && (archive == Body(cells) + Zeros(BLOCK) || archive == Body(cells) + Zeros(2 * BLOCK))
  }

  // ---- The limits ----

  predicate IsIdentity(c: Cell)
    requires WellFormed(c)
  {
    CellPath(c) == IDENTITY_ENTRY
  }

  function Paths(cells: seq<Cell>): (r: seq<bytes>)
    requires AllWellFormed(cells)
    ensures |r| == |cells|
  {
    seq(|cells|, i requires 0 <= i < |cells| => assert cells[i] in cells; CellPath(cells[i]))
  }

  function Total(cells: seq<Cell>): (n: nat) {
    if cells == [] then 0 else Total(cells[..|cells| - 1]) + |cells[|cells| - 1].data|
  }

  datatype Entry = Entry(path: seq<bytes>, offset: nat, size: nat)

  /** Where each file other than the identity lies in the archive. */
  function Entries(cells: seq<Cell>): (r: seq<Entry>)
    requires AllWellFormed(cells)
  {
    if cells == [] then []
    else
      var init, c := cells[..|cells| - 1], cells[|cells| - 1];
      if IsIdentity(c) then Entries(init)
      else Entries(init) + [Entry(Split(CellPath(c)), |Body(init)| + BLOCK, |c.data|)]
  }

  function IdentityOf(cells: seq<Cell>): (r: Option<bytes>)
    requires AllWellFormed(cells)
  {
    if cells == [] then None
    else if IsIdentity(cells[|cells| - 1]) then Some(cells[|cells| - 1].data)
    else IdentityOf(cells[..|cells| - 1])
  }

  predicate SizeAdmitted(c: Cell, limits: Limits, schema: bytes -> bool)
    requires WellFormed(c)
  {
    if IsIdentity(c) then ValidIdentity(c.data, limits, schema) else |c.data| <= limits.maxEntry
  }

  ghost predicate Admitted(cells: seq<Cell>, limits: Limits, schema: bytes -> bool)
    requires AllWellFormed(cells)
  {
    && Distinct(Paths(cells))
    && (forall c :: c in cells ==> SizeAdmitted(c, limits, schema))
    && Total(cells) <= limits.maxUncompressed
    && |Entries(cells)| <= limits.maxEntries
  }

  /** `cells` is what `archive` consists of, and it obeys every limit. */
  ghost predicate Reads(archive: bytes, cells: seq<Cell>, limits: Limits, schema: bytes -> bool) {
    && IsTarOf(archive, cells)
    && Admitted(cells, limits, schema)
    && IdentityOf(cells).Some?
  }

  // ---- One cell more ----

  lemma BodyAppend(cells: seq<Cell>, c: Cell)
    ensures Body(cells + [c]) == Body(cells) + Encoded(c)
    ensures Total(cells + [c]) == Total(cells) + |c.data|
  {
    assert (cells + [c])[..|cells|] == cells;
  }

  lemma {:induction false} BodyConcat(a: seq<Cell>, b: seq<Cell>)
    ensures Body(a + b) == Body(a) + Body(b)
  {
    hide Body, Encoded;
    EmptyBody();
    if b == [] {
      assert a + b == a;
    } else {
      var init, c := b[..|b| - 1], b[|b| - 1];
      BodyConcat(a, init);
      BodyAppend(a + init, c);
      BodyAppend(init, c);
      assert a + b == (a + init) + [c] && b == init + [c];
    }
  }

  lemma EmptyBody()
    ensures Body([]) == []
  {
  }

  lemma EncodedLength(c: Cell)
    requires WellFormed(c)
    ensures |Encoded(c)| == BLOCK + Padded(|c.data|) && |Encoded(c)| % BLOCK == 0
  {
    hide FileHeader, ReadSize;
  }

  lemma {:induction false} BodyAligned(cells: seq<Cell>)
    requires AllWellFormed(cells)
    ensures |Body(cells)| % BLOCK == 0
  {
    hide WellFormed, Encoded, Body;
    EmptyBody();
    if cells != [] {
      var init, c := cells[..|cells| - 1], cells[|cells| - 1];
      assert cells == init + [c] && c in cells && forall d :: d in init ==> d in cells;
      BodyAligned(init);
      EncodedLength(c);
      BodyAppend(init, c);
    }
  }

  lemma EntriesAppend(cells: seq<Cell>, c: Cell)
    requires AllWellFormed(cells) && WellFormed(c)
    ensures AllWellFormed(cells + [c])
    ensures Entries(cells + [c]) ==
            if IsIdentity(c) then Entries(cells)
            else Entries(cells) + [Entry(Split(CellPath(c)), |Body(cells)| + BLOCK, |c.data|)]
    ensures IdentityOf(cells + [c]) == if IsIdentity(c) then Some(c.data) else IdentityOf(cells)
  {
    assert (cells + [c])[..|cells|] == cells;
  }

  /** What the parser asks of a cell that follows `cells`. */
  ghost predicate AdmitsNext(cells: seq<Cell>, c: Cell, limits: Limits, schema: bytes -> bool)
    requires AllWellFormed(cells) && WellFormed(c)
  {
    && CellPath(c) !in Paths(cells)
    && SizeAdmitted(c, limits, schema)
    && Total(cells) + |c.data| <= limits.maxUncompressed
    && (!IsIdentity(c) ==> |Entries(cells)| < limits.maxEntries)
  }

  lemma AdmittedAppend(cells: seq<Cell>, c: Cell, limits: Limits, schema: bytes -> bool)
    requires AllWellFormed(cells) && WellFormed(c)
    ensures AllWellFormed(cells + [c])
    ensures Admitted(cells + [c], limits, schema) <==>
            Admitted(cells, limits, schema) && AdmitsNext(cells, c, limits, schema)
  {
    hide Body, Padded, WellFormed, Total, Entries, IdentityOf, Encoded, Canonical, IsIdentity, CellPath;
    EntriesAppend(cells, c);
    BodyAppend(cells, c);
    var more := cells + [c];
    assert Paths(more) == Paths(cells) + [CellPath(c)];
    DistinctAppend(Paths(cells), CellPath(c));
    assert c in more && forall d :: d in more <==> d in cells || d == c;
  }

  lemma DistinctAppend<T>(s: seq<T>, x: T)
    ensures Distinct(s + [x]) <==> Distinct(s) && x !in s
  {
    if Distinct(s + [x]) {
      forall i | 0 <= i < |s| ensures s[i] != x {
        assert (s + [x])[i] != (s + [x])[|s|];
      }
      forall i, j | 0 <= i < j < |s| ensures s[i] != s[j] {
        assert (s + [x])[i] != (s + [x])[j];
      }
    }
  }

  lemma {:induction false} AdmittedPrefix(a: seq<Cell>, b: seq<Cell>, limits: Limits, schema: bytes -> bool)
    requires AllWellFormed(a + b) && Admitted(a + b, limits, schema)
    ensures AllWellFormed(a) && Admitted(a, limits, schema)
  {
    hide WellFormed, Admitted, AdmitsNext;
    assert forall c :: c in a || c in b ==> c in a + b;
    if b == [] {
      assert a + b == a;
    } else {
      var init, c := b[..|b| - 1], b[|b| - 1];
      assert a + b == (a + init) + [c];
      assert forall d :: d in a + init ==> d in a + b;
      AdmittedAppend(a + init, c, limits, schema);
      AdmittedPrefix(a, init, limits, schema);
    }
  }

  // ---- Reading is deterministic ----

  /** The cell that starts at `offset`, where a usable header has been found. */
  function CellAt(archive: bytes, offset: nat, size: nat): (c: Cell)
    requires offset + BLOCK + Padded(size) <= |archive|
    ensures |c.header| == BLOCK && |c.data| == size && |c.data| + |c.padding| == Padded(size)
    ensures Encoded(c) == archive[offset..offset + BLOCK + Padded(size)]
  {
    var data := offset + BLOCK;
    Cell(archive[offset..data], archive[data..data + size], archive[data + size..data + Padded(size)])
  }

  /** The cell at `offset`, if a usable header and all of its data are there. */
  function FileAt(archive: bytes, offset: nat): (r: Option<Cell>)
    requires offset + BLOCK <= |archive|
    ensures r.Some? ==> WellFormed(r.value)
  {
    hide ChecksumMatches, HeaderPath, ReadSize, Padded, Canonical;
    var h := archive[offset..offset + BLOCK];
    if !FileHeader(h) then None
    else
      var size := ReadSize(h[124..136]).value;
      if offset + BLOCK + Padded(size) > |archive| then None else Some(CellAt(archive, offset, size))
  }

  /** The block at the end of `cells` introduces a cell the parser takes. */
  ghost predicate TakesNext(archive: bytes, cells: seq<Cell>, limits: Limits, schema: bytes -> bool)
    requires AllWellFormed(cells) && |Body(cells)| + BLOCK <= |archive|
  {
    var next := FileAt(archive, |Body(cells)|);
    next.Some? && AdmitsNext(cells, next.value, limits, schema)
  }

  lemma CellAfter(archive: bytes, cells: seq<Cell>, c: Cell, rest: bytes)
    requires WellFormed(c) && archive == Body(cells) + Encoded(c) + rest
    ensures |Body(cells)| + BLOCK + Padded(|c.data|) <= |archive|
    ensures archive[|Body(cells)|..|Body(cells)| + BLOCK] == c.header
    ensures FileAt(archive, |Body(cells)|) == Some(c)
  {
    hide Body, FileHeader, ReadSize, Padded;
    var offset := |Body(cells)|;
    var data := offset + BLOCK;
    assert archive[offset..data] == c.header;
    assert archive[data..data + |c.data|] == c.data;
    assert archive[data + |c.data|..data + Padded(|c.data|)] == c.padding;
  }

  lemma SplitReading(archive: bytes, cells: seq<Cell>, rest: seq<Cell>)
    requires IsTarOf(archive, cells + rest)
    ensures archive == Body(cells) + Body(rest) + Zeros(BLOCK) || archive == Body(cells) + Body(rest) + Zeros(2 * BLOCK)
  {
    BodyConcat(cells, rest);
  }

  lemma {:induction false} BodyFirst(rest: seq<Cell>)
    requires rest != []
    ensures Body(rest) == Encoded(rest[0]) + Body(rest[1..])
  {
    BodyConcat([rest[0]], rest[1..]);
    assert rest == [rest[0]] + rest[1..];
    assert [rest[0]][..0] == [];
    assert Body([rest[0]]) == Encoded(rest[0]);
  }

  /** A reading that starts with `cells` and meets a non-zero block goes on with the cell found there. */
  lemma NextCell(archive: bytes, cells: seq<Cell>, rest: seq<Cell>, limits: Limits, schema: bytes -> bool)
    requires Reads(archive, cells + rest, limits, schema)
    requires AllWellFormed(cells) && |Body(cells)| + BLOCK <= |archive|
    requires !AllZero(archive[|Body(cells)|..|Body(cells)| + BLOCK])
    ensures rest != [] && TakesNext(archive, cells, limits, schema)
    ensures FileAt(archive, |Body(cells)|) == Some(rest[0])
  {
    hide Body, WellFormed, FileAt, Entries, Total, AdmitsNext, Admitted, IdentityOf, Encoded;
    NotYetTheTrailer(archive, cells, rest);
    var c := rest[0];
    FirstOfRest(archive, cells, rest);
    assert cells + rest == (cells + [c]) + rest[1..];
    AdmittedPrefix(cells + [c], rest[1..], limits, schema);
    AdmittedAppend(cells, c, limits, schema);
  }

  lemma NotYetTheTrailer(archive: bytes, cells: seq<Cell>, rest: seq<Cell>)
    requires IsTarOf(archive, cells + rest) && |Body(cells)| + BLOCK <= |archive|
    ensures rest == [] ==> AllZero(archive[|Body(cells)|..]) && |archive| - |Body(cells)| <= 2 * BLOCK
    ensures rest == [] ==> AllZero(archive[|Body(cells)|..|Body(cells)| + BLOCK])
  {
    if rest == [] {
      assert cells + rest == cells;
    }
  }

  lemma FirstOfRest(archive: bytes, cells: seq<Cell>, rest: seq<Cell>)
    requires IsTarOf(archive, cells + rest) && rest != []
    ensures WellFormed(rest[0]) && |Body(cells)| + BLOCK <= |archive|
    ensures archive[|Body(cells)|..|Body(cells)| + BLOCK] == rest[0].header
    ensures FileAt(archive, |Body(cells)|) == Some(rest[0])
  {
    hide Body, FileAt, FileHeader, ReadSize, Padded;
    SplitReading(archive, cells, rest);
    var c := rest[0];
    assert c in cells + rest;
    BodyFirst(rest);
    var tail := archive[|Body(cells)| + |Encoded(c)|..];
    assert archive == Body(cells) + Encoded(c) + tail;
    CellAfter(archive, cells, c, tail);
  }

  /** A reading that starts with `cells` and meets a zero block ends there. */
  lemma LastCell(archive: bytes, cells: seq<Cell>, rest: seq<Cell>)
    requires IsTarOf(archive, cells + rest) && |Body(cells)| + BLOCK <= |archive|
    requires AllZero(archive[|Body(cells)|..|Body(cells)| + BLOCK])
    ensures rest == []
    ensures AllZero(archive[|Body(cells)|..]) && |archive| - |Body(cells)| <= 2 * BLOCK
  {
    hide Body, FileAt, WellFormed;
    if rest != [] {
      FirstOfRest(archive, cells, rest);
      ZeroBlockIsNoFile(rest[0]);
      assert false;
    }
    NotYetTheTrailer(archive, cells, rest);
  }

  lemma ZeroBlockIsNoFile(c: Cell)
    requires |c.header| == BLOCK && AllZero(c.header)
    ensures !WellFormed(c)
  {
    ZeroBlockIsNoHeader(c.header);
  }

  // ---- The parser ----

  /** Every admissible reading of the archive starts with `cells`. */
  ghost predicate Leads(archive: bytes, cells: seq<Cell>, limits: Limits, schema: bytes -> bool) {
    forall cs :: Reads(archive, cs, limits, schema) ==> cells <= cs
  }

  ghost predicate Unreadable(archive: bytes, limits: Limits, schema: bytes -> bool) {
    forall cs :: !Reads(archive, cs, limits, schema)
  }

  lemma LeadsFurther(archive: bytes, cells: seq<Cell>, limits: Limits, schema: bytes -> bool)
    requires AllWellFormed(cells) && |Body(cells)| + BLOCK <= |archive|
    requires Leads(archive, cells, limits, schema)
    requires !AllZero(archive[|Body(cells)|..|Body(cells)| + BLOCK])
    ensures if TakesNext(archive, cells, limits, schema)
            then Leads(archive, cells + [FileAt(archive, |Body(cells)|).value], limits, schema)
            else Unreadable(archive, limits, schema)
  {
    hide Body, WellFormed, FileAt, AdmitsNext, Reads, AllZero;
    forall cs | Reads(archive, cs, limits, schema)
      ensures TakesNext(archive, cells, limits, schema) && cells + [FileAt(archive, |Body(cells)|).value] <= cs
    {
      assert cs == cells + cs[|cells|..];
      NextCell(archive, cells, cs[|cells|..], limits, schema);
    }
  }

  /** Past the last cell: the archive is readable only as the cells found. */
  lemma LeadsNoFurther(archive: bytes, cells: seq<Cell>, limits: Limits, schema: bytes -> bool)
    requires AllWellFormed(cells) && |Body(cells)| + BLOCK <= |archive|
    requires Leads(archive, cells, limits, schema)
    requires AllZero(archive[|Body(cells)|..|Body(cells)| + BLOCK])
    ensures forall cs :: Reads(archive, cs, limits, schema) ==> cs == cells
    ensures !(AllZero(archive[|Body(cells)|..]) && |archive| - |Body(cells)| <= 2 * BLOCK) ==>
              Unreadable(archive, limits, schema)
    ensures IdentityOf(cells).None? ==> Unreadable(archive, limits, schema)
  {
    hide Body, WellFormed, AllZero, IdentityOf, Admitted;
    forall cs | Reads(archive, cs, limits, schema)
      ensures cs == cells
      ensures AllZero(archive[|Body(cells)|..]) && |archive| - |Body(cells)| <= 2 * BLOCK
    {
      assert cs == cells + cs[|cells|..];
      LastCell(archive, cells, cs[|cells|..]);
    }
  }

  /** Nothing is left but no trailer has been seen. */
  lemma NoTrailer(archive: bytes, cells: seq<Cell>, limits: Limits, schema: bytes -> bool)
    requires AllWellFormed(cells) && |Body(cells)| >= |archive|
    requires Leads(archive, cells, limits, schema)
    ensures Unreadable(archive, limits, schema)
  {
    hide Body, WellFormed, Admitted, IdentityOf;
    forall cs ensures !Reads(archive, cs, limits, schema) {
      if Reads(archive, cs, limits, schema) {
        assert cs == cells + cs[|cells|..];
        SplitReading(archive, cells, cs[|cells|..]);
      }
    }
  }

  lemma Unaligned(archive: bytes, limits: Limits, schema: bytes -> bool)
    requires |archive| % BLOCK != 0
    ensures Unreadable(archive, limits, schema)
  {
    hide Body, WellFormed, Admitted, IdentityOf;
    forall cs ensures !Reads(archive, cs, limits, schema) {
      if Reads(archive, cs, limits, schema) {
        BodyAligned(cs);
      }
    }
  }

  datatype TarError =
    | NotBlockAligned | TrailerTooLong | DataAfterTrailer | ChecksumMismatch | LinkOrSpecial
    | UnsafePath | DuplicatePath | BadSize | EntryTooLarge | SizeOverflow | ArchiveTooLarge
    | Truncated | BadIdentity | TooManyEntries | MissingTrailer | MissingIdentity

  datatype Taken = Taken(raw: bytes, path: seq<bytes>, size: nat)

  /** The checks on one header by itself, and against the paths seen so far. */
  method ReadHeader(header: bytes, seen: set<bytes>) returns (r: Result<Taken, TarError>)
    requires |header| == BLOCK
    ensures r.Ok? <==> FileHeader(header) && HeaderPath(header) !in seen
    ensures r.Ok? ==>
              && r.value.raw == HeaderPath(header) && r.value.path == Split(HeaderPath(header))
              && ReadSize(header[124..136]) == Some(r.value.size)
  {
    hide ChecksumMatches, HeaderPath, ReadSize, Canonical, Split, Join;
    if !ChecksumMatches(header) {
      return Err(ChecksumMismatch);
    }
    if !RegularFileType(header) {
      return Err(LinkOrSpecial);
    }
    var raw := HeaderPath(header);
    if !Utf8.IsText(raw) {
      return Err(UnsafePath);
    }
    JoinSplit(raw);
    var path := NormalizedArchivePath(raw);
    if path.None? || Join(path.value) != raw {
      return Err(UnsafePath);
    }
    if raw in seen {
      return Err(DuplicatePath);
    }
    var size := ReadSize(header[124..136]);
    if size.None? {
      return Err(BadSize);
    }
    return Ok(Taken(raw, path.value, size.value));
  }

  /** The checks on the entry a usable header introduces. `cells` is what has been read so far. */
  method ReadEntry(archive: bytes, offset: nat, limits: Limits, schema: bytes -> bool,
                   raw: bytes, size: nat, entryCount: nat, total: nat, ghost cells: seq<Cell>)
    returns (r: Option<TarError>)
    requires |archive| <= U64_MAX && |archive| % BLOCK == 0
    requires AllWellFormed(cells) && offset == |Body(cells)| && offset + BLOCK <= |archive|
    requires var h := archive[offset..offset + BLOCK];
             FileHeader(h) && raw == HeaderPath(h) && Some(size) == ReadSize(h[124..136]) && raw !in Paths(cells)
    requires entryCount == |Entries(cells)| <= limits.maxEntries && total == Total(cells)
    ensures r.None? <==> TakesNext(archive, cells, limits, schema)
    ensures r.None? ==>
              && FileAt(archive, offset).Some?
              && var c := FileAt(archive, offset).value;
              && CellPath(c) == raw && |c.data| == size && (IsIdentity(c) <==> raw == IDENTITY_ENTRY)
  {
    hide Body, Entries, Total, Padded, FileHeader, HeaderPath, ReadSize;
    var bound := if raw == IDENTITY_ENTRY then limits.maxIdentity else limits.maxEntry;
    if size > bound {
      return Some(EntryTooLarge);
    }
    if total + size > U64_MAX {
      return Some(SizeOverflow);
    }
    if total + size > limits.maxUncompressed {
      return Some(ArchiveTooLarge);
    }
    if size + 511 > U64_MAX {
      return Some(SizeOverflow);
    }
    var end := offset + BLOCK + Padded(size);
    if end > |archive| {
      return Some(Truncated);
    }
    if raw == IDENTITY_ENTRY {
      if !ValidIdentity(archive[offset + BLOCK..offset + BLOCK + size], limits, schema) {
        return Some(BadIdentity);
      }
    } else if entryCount == limits.maxEntries {
      return Some(TooManyEntries);
    }
    return None;
  }

  datatype Parsed = Parsed(entries: seq<Entry>, identity: bytes, total: nat)

  /** The parser's variables describe `cells`, with which every admissible reading starts. */
  ghost predicate Progress(archive: bytes, cells: seq<Cell>, limits: Limits, schema: bytes -> bool, offset: nat,
                           seen: set<bytes>, entries: seq<Entry>, identity: Option<bytes>, total: nat) {
    && AllWellFormed(cells) && Admitted(cells, limits, schema) && Leads(archive, cells, limits, schema)
    && offset == |Body(cells)| <= |archive| && archive[..offset] == Body(cells) && offset % BLOCK == 0
    && seen == (set p | p in Paths(cells))
    && entries == Entries(cells) && identity == IdentityOf(cells) && total == Total(cells)
  }

  lemma NothingRead(archive: bytes, limits: Limits, schema: bytes -> bool)
    ensures Progress(archive, [], limits, schema, 0, {}, [], None, 0)
  {
  }

  lemma AdvanceBody(archive: bytes, cells: seq<Cell>, c: Cell)
    requires |Body(cells)| + BLOCK <= |archive| && archive[..|Body(cells)|] == Body(cells)
    requires FileAt(archive, |Body(cells)|) == Some(c)
    ensures |Body(cells + [c])| == |Body(cells)| + BLOCK + Padded(|c.data|) <= |archive|
    ensures archive[..|Body(cells + [c])|] == Body(cells + [c])
    ensures c.data == archive[|Body(cells)| + BLOCK..|Body(cells)| + BLOCK + |c.data|]
  {
    hide Body, FileHeader, ReadSize, Padded, WellFormed;
    BodyAppend(cells, c);
    var offset := |Body(cells)|;
    var end := offset + BLOCK + Padded(|c.data|);
    assert archive[..end] == archive[..offset] + archive[offset..end];
  }

  /** Reading one more cell keeps the parser's variables in step. */
  lemma TakeCell(archive: bytes, cells: seq<Cell>, c: Cell, limits: Limits, schema: bytes -> bool, offset: nat,
                 seen: set<bytes>, entries: seq<Entry>, identity: Option<bytes>, total: nat)
    requires Progress(archive, cells, limits, schema, offset, seen, entries, identity, total)
    requires offset + BLOCK <= |archive| && FileAt(archive, offset) == Some(c)
    requires TakesNext(archive, cells, limits, schema)
    requires Leads(archive, cells + [c], limits, schema)
    ensures offset + BLOCK + Padded(|c.data|) <= |archive|
    ensures var found := archive[offset + BLOCK..offset + BLOCK + |c.data|];
            var entry := Entry(Split(CellPath(c)), offset + BLOCK, |c.data|);
            Progress(archive, cells + [c], limits, schema, offset + BLOCK + Padded(|c.data|), seen + {CellPath(c)},
                     if IsIdentity(c) then entries else entries + [entry],
                     if IsIdentity(c) then Some(found) else identity, total + |c.data|)
  {
    hide Body, WellFormed, Entries, Total, IdentityOf, FileAt, Encoded, Admitted, CellPath, Split, Leads;
    AdmittedAppend(cells, c, limits, schema);
    AdvanceBody(archive, cells, c);
    BodyAppend(cells, c);
    EntriesAppend(cells, c);
    assert Paths(cells + [c]) == Paths(cells) + [CellPath(c)];
  }

  lemma TrailerParts(archive: bytes, offset: nat)
    requires offset + BLOCK <= |archive| && AllZero(archive[offset..offset + BLOCK])
    ensures AllZero(archive[offset + BLOCK..]) <==> AllZero(archive[offset..])
  {
    assert archive[offset..] == archive[offset..offset + BLOCK] + archive[offset + BLOCK..];
    assert archive[offset + BLOCK..] == archive[offset..][BLOCK..];
  }

  lemma ReadsFromTrailer(archive: bytes, cells: seq<Cell>, limits: Limits, schema: bytes -> bool)
    requires AllWellFormed(cells) && Admitted(cells, limits, schema) && IdentityOf(cells).Some?
    requires |archive| - |Body(cells)| == BLOCK || |archive| - |Body(cells)| == 2 * BLOCK
    requires archive[..|Body(cells)|] == Body(cells) && AllZero(archive[|Body(cells)|..])
    ensures Reads(archive, cells, limits, schema)
  {
    hide Body, WellFormed, Admitted, IdentityOf;
    var n := |archive| - |Body(cells)|;
    assert archive[|Body(cells)|..] == Zeros(n);
    assert archive == Body(cells) + Zeros(n);
  }

  /** One turn of the parser's loop at a block that is not the trailer. */
  method ReadCell(archive: bytes, limits: Limits, schema: bytes -> bool, offset: nat, seen: set<bytes>,
                  entries: seq<Entry>, identity: Option<bytes>, total: nat, ghost cells: seq<Cell>)
    returns (r: Result<Taken, TarError>, ghost c: Cell)
    requires |archive| <= U64_MAX && |archive| % BLOCK == 0 && offset < |archive|
    requires Progress(archive, cells, limits, schema, offset, seen, entries, identity, total)
    requires !AllZero(archive[offset..offset + BLOCK])
    ensures r.Err? ==> Unreadable(archive, limits, schema)
    ensures r.Ok? ==>
              && offset + BLOCK + Padded(r.value.size) <= |archive|
              && var Taken(raw, path, size) := r.value;
              && var found := archive[offset + BLOCK..offset + BLOCK + size];
              && Progress(archive, cells + [c], limits, schema, offset + BLOCK + Padded(size), seen + {raw},
                          if raw == IDENTITY_ENTRY then entries else entries + [Entry(path, offset + BLOCK, size)],
                          if raw == IDENTITY_ENTRY then Some(found) else identity, total + size)
  {
    hide Body, WellFormed, FileAt, Admitted, Padded, Entries, Total, IdentityOf, TakesNext, Unreadable, AllZero, FileHeader;
    hide HeaderPath, ReadSize, IsIdentity, CellPath, Split, Leads;
    c := Cell([], [], []);
    LeadsFurther(archive, cells, limits, schema);
    var usable := ReadHeader(archive[offset..offset + BLOCK], seen);
    if usable.Err? {
      NotTaken(archive, cells, limits, schema);
      return Err(usable.error), c;
    }
    var Taken(raw, path, size) := usable.value;
    AdmittedCount(cells, limits, schema);
    var problem := ReadEntry(archive, offset, limits, schema, raw, size, |entries|, total, cells);
    if problem.Some? {
      return Err(problem.value), c;
    }
    c := FileAt(archive, offset).value;
    TakeCell(archive, cells, c, limits, schema, offset, seen, entries, identity, total);
    return usable, c;
  }

  lemma AdmittedCount(cells: seq<Cell>, limits: Limits, schema: bytes -> bool)
    requires AllWellFormed(cells) && Admitted(cells, limits, schema)
    ensures |Entries(cells)| <= limits.maxEntries
  {
  }

  lemma NotTaken(archive: bytes, cells: seq<Cell>, limits: Limits, schema: bytes -> bool)
    requires AllWellFormed(cells) && |Body(cells)| + BLOCK <= |archive|
    requires var h := archive[|Body(cells)|..|Body(cells)| + BLOCK];
             !FileHeader(h) || HeaderPath(h) in Paths(cells)
    ensures !TakesNext(archive, cells, limits, schema)
  {
    hide Body, FileHeader, HeaderPath, ReadSize, Padded, SizeAdmitted, Total, Entries;
  }

  /** The parser accepts an archive exactly when it has an admissible reading, which is then
      the only one, and reports that reading's entries, identity and total size. */
  method ValidateTar(archive: bytes, limits: Limits, schema: bytes -> bool)
    returns (r: Result<Parsed, TarError>, ghost cells: seq<Cell>)
    requires |archive| <= U64_MAX
    ensures r.Err? ==> Unreadable(archive, limits, schema)
    ensures r.Ok? ==> Reads(archive, cells, limits, schema)
    ensures r.Ok? ==> forall cs :: Reads(archive, cs, limits, schema) ==> cs == cells
    ensures r.Ok? ==> r.value == Parsed(Entries(cells), IdentityOf(cells).value, Total(cells))
  {
    hide Body, WellFormed, Reads, Entries, Total, IdentityOf, Padded, Admitted, Paths, Unreadable;
    cells := [];
    if |archive| % BLOCK != 0 {
      Unaligned(archive, limits, schema);
      return Err(NotBlockAligned), cells;
    }
    var seen: set<bytes> := {};
    var entries: seq<Entry> := [];
    var identity: Option<bytes> := None;
    var total, offset := 0, 0;
    var sawTrailer := false;
    NothingRead(archive, limits, schema);
    while offset < |archive|
      invariant offset <= |archive| && offset % BLOCK == 0
      invariant Progress(archive, cells, limits, schema, offset, seen, entries, identity, total)
      decreases |archive| - offset
    {
      if AllZero(archive[offset..offset + BLOCK]) {
        LeadsNoFurther(archive, cells, limits, schema);
        if |archive| - (offset + BLOCK) > BLOCK {
          return Err(TrailerTooLong), cells;
        }
        TrailerParts(archive, offset);
        if !AllZero(archive[offset + BLOCK..]) {
          return Err(DataAfterTrailer), cells;
        }
        sawTrailer := true;
        break;
      }
      var next, c := ReadCell(archive, limits, schema, offset, seen, entries, identity, total, cells);
      if next.Err? {
        return Err(next.error), cells;
      }
      var Taken(raw, path, size) := next.value;
      seen := seen + {raw};
      total := total + size;
      if raw == IDENTITY_ENTRY {
        identity := Some(archive[offset + BLOCK..offset + BLOCK + size]);
      } else {
        entries := entries + [Entry(path, offset + BLOCK, size)];
      }
      cells := cells + [c];
      offset := offset + BLOCK + Padded(size);
    }
    if !sawTrailer {
      NoTrailer(archive, cells, limits, schema);
      return Err(MissingTrailer), cells;
    }
    if identity.None? {
      return Err(MissingIdentity), cells;
    }
    ReadsFromTrailer(archive, cells, limits, schema);
    return Ok(Parsed(entries, identity.value, total)), cells;
  }
}
