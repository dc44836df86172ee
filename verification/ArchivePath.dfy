/** Relative paths inside an archive: the components of a path and the canonical form
    that `normalized_archive_path` and its caller insist on.
 */
module ArchivePath {
  import opened ByteStrings
  import opened TarHeader

  const BACKSLASH: byte := 0x5C
  const DOT: bytes := [0x2E]
  const DOT_DOT: bytes := [0x2E, 0x2E]

  /** The pieces between slashes, empty ones included. */
  function Split(path: bytes): (r: seq<bytes>)
    ensures |r| >= 1
  {
    if path == [] then [[]]
    else
      var rest := Split(path[1..]);
      if path[0] == SLASH then [[]] + rest else [[path[0]] + rest[0]] + rest[1..]
  }

  function Join(parts: seq<bytes>): (r: bytes) {
    if parts == [] then []
    else if |parts| == 1 then parts[0]
    else parts[0] + [SLASH] + Join(parts[1..])
  }

  /** A name a file system can hold. */
  predicate FileName(c: bytes) {
    c != [] && c != DOT && c != DOT_DOT && SLASH !in c && 0 !in c
  }

  predicate Canonical(path: bytes) {
    BACKSLASH !in path && forall c :: c in Split(path) ==> FileName(c)
  }

  /** Canonical, in characters: no backslash, and between slashes neither nothing, nor a NUL, nor one
      or two dots alone. */
  lemma CanonicalMeans(path: bytes)
    ensures SLASH == '/' as int && DOT == ['.' as int] && DOT_DOT == ['.' as int, '.' as int]
    ensures Canonical(path) <==>
            && '\\' as int !in path
            && forall i :: 0 <= i < |Split(path)| ==>
                 var c := Split(path)[i];
                 0 !in c && SLASH !in c && c != [] && c != DOT && c != DOT_DOT
  {
    hide Split;
    assert BACKSLASH == '\\' as int;
    if Canonical(path) {
      forall i | 0 <= i < |Split(path)| ensures FileName(Split(path)[i]) {
        assert Split(path)[i] in Split(path);
      }
    }
  }

  lemma {:induction false} JoinSplit(path: bytes)
    ensures Join(Split(path)) == path
  {
    if path != [] {
      JoinSplit(path[1..]);
    }
  }

  lemma {:induction false} SplitJoin(parts: seq<bytes>)
    requires parts != [] && forall c :: c in parts ==> SLASH !in c
    ensures Split(Join(parts)) == parts
    decreases |parts|, |parts[0]|
  {
    var first := parts[0];
    if first != [] {
      var shorter := [first[1..]] + parts[1..];
      assert first in parts && first[0] in first && first == [first[0]] + first[1..];
      SplitJoin(shorter);
      JoinDropByte(parts);
      assert Join(parts)[1..] == Join(shorter);
      assert parts == [first] + parts[1..];
    } else if |parts| > 1 {
      SplitJoin(parts[1..]);
      assert Join(parts) == [SLASH] + Join(parts[1..]);
    }
  }

  lemma JoinDropByte(parts: seq<bytes>)
    requires parts != [] && parts[0] != []
    ensures Join(parts) == [parts[0][0]] + Join([parts[0][1..]] + parts[1..])
  {
    assert ([parts[0][1..]] + parts[1..])[1..] == parts[1..];
  }

  lemma {:induction false} SplitHasNoSlash(path: bytes)
    ensures forall c :: c in Split(path) ==> SLASH !in c
  {
    if path != [] {
      SplitHasNoSlash(path[1..]);
      var rest := Split(path[1..]);
      assert rest[0] in rest;
    }
  }

  lemma {:induction false} SplitHasNoNul(path: bytes)
    ensures 0 !in path <==> forall c :: c in Split(path) ==> 0 !in c
  {
    if path != [] {
      SplitHasNoNul(path[1..]);
      var rest := Split(path[1..]);
      assert rest[0] in rest && Split(path)[0] in Split(path);
      assert rest == [rest[0]] + rest[1..];
      assert path == [path[0]] + path[1..];
    }
  }

  /** The components that name something: neither empty nor a dot. */
  function Kept(parts: seq<bytes>): (r: seq<bytes>) {
    if parts == [] then []
    else if parts[0] == [] || parts[0] == DOT then Kept(parts[1..])
    else [parts[0]] + Kept(parts[1..])
  }

  lemma {:induction false} KeptAppend(parts: seq<bytes>, c: bytes)
    ensures Kept(parts + [c]) == if c == [] || c == DOT then Kept(parts) else Kept(parts) + [c]
  {
    if parts == [] {
      assert parts + [c] == [c];
    } else {
      assert (parts + [c])[1..] == parts[1..] + [c];
      KeptAppend(parts[1..], c);
    }
  }

  lemma {:induction false} KeptMembers(parts: seq<bytes>)
    ensures forall c :: c in Kept(parts) ==> c in parts && c != [] && c != DOT
  {
    if parts != [] {
      KeptMembers(parts[1..]);
    }
  }

  lemma {:induction false} KeptAll(parts: seq<bytes>)
    requires forall c :: c in parts ==> c != [] && c != DOT
    ensures Kept(parts) == parts
  {
    if parts != [] {
      assert forall c :: c in parts[1..] ==> c in parts;
      assert parts[0] in parts;
      KeptAll(parts[1..]);
    }
  }

  /** A relative path that does not lead upwards or start with a dot component. */
  predicate Confined(raw: bytes) {
    && raw != [] && raw[0] != SLASH && 0 !in raw && BACKSLASH !in raw
    && DOT_DOT !in Split(raw) && Split(raw)[0] != DOT
  }

  /** The components of an archive path, empty and dot ones dropped, or nothing when the path is
      refused. Printing them gives back the path exactly when it is canonical. */
  method NormalizedArchivePath(raw: bytes) returns (r: Option<seq<bytes>>)
    ensures r == if Confined(raw) then Some(Kept(Split(raw))) else None
    ensures Canonical(raw) ==> r == Some(Split(raw))
    ensures r.Some? && Join(r.value) == raw ==> Canonical(raw)
  {
    if raw == [] || 0 in raw || BACKSLASH in raw {
      CanonicalParts(raw);
      return None;
    }
    if raw[0] == SLASH {
      assert Split(raw)[0] == [] && Split(raw)[0] in Split(raw);
      return None;
    }
    var parts := Split(raw);
    var normalized: seq<bytes> := [];
    for i := 0 to |parts|
      invariant i > 0 ==> parts[0] != DOT && normalized != []
      invariant normalized == Kept(parts[..i])
      invariant DOT_DOT !in parts[..i]
    {
      var part := parts[i];
      assert parts[..i + 1] == parts[..i] + [part] && part in parts;
      if part == DOT_DOT || (part == DOT && i == 0) {
        return None;
      }
      KeptAppend(parts[..i], part);
      if part != [] && part != DOT {
        normalized := normalized + [part];
      }
    }
    assert parts[..|parts|] == parts;
    if Canonical(raw) {
      KeptAll(parts);
    }
    if normalized == [] {
      return None;
    }
    r := Some(normalized);
    AcceptedIsCanonical(raw);
  }

  lemma CanonicalParts(raw: bytes)
    ensures Canonical(raw) ==> raw != [] && 0 !in raw
  {
    SplitHasNoNul(raw);
    assert Split(raw)[0] in Split(raw);
  }

  lemma AcceptedIsCanonical(raw: bytes)
    requires 0 !in raw && BACKSLASH !in raw && DOT_DOT !in Split(raw)
    requires Kept(Split(raw)) != []
    ensures Join(Kept(Split(raw))) == raw ==> Canonical(raw)
  {
    var parts := Split(raw);
    KeptMembers(parts);
    SplitHasNoSlash(raw);
    SplitHasNoNul(raw);
    SplitJoin(Kept(parts));
  }
}
