/** Keyset pagination over rows ordered by `(created_at, id)`. */
module Pagination {
  import opened ByteStrings
  import opened Sorting
  import Base64Url
  import Utf8

  const DEFAULT_PAGE_LIMIT: nat := 100
  const MAX_PAGE_LIMIT: nat := 200
  const SEPARATOR: byte := 0x7C

  // ---- Cursors ----

  datatype Cursor = Cursor(createdAt: bytes, id: bytes)

  function EncodeCursor(c: Cursor): (raw: bytes) {
    Base64Url.Encode(c.createdAt + [SEPARATOR] + c.id)
  }

  /** The text before and after the first separator. */
  function SplitOnce(s: bytes): (r: Option<Cursor>) {
    if s == [] then None
    else if s[0] == SEPARATOR then Some(Cursor([], s[1..]))
    else
      match SplitOnce(s[1..])
      case None => None
      case Some(c) => Some(Cursor([s[0]] + c.createdAt, c.id))
  }

  function DecodeCursor(raw: bytes): (r: Option<Cursor>) {
    match Base64Url.Decode(raw)
    case None => None
    case Some(s) => if Utf8.IsText(s) then SplitOnce(s) else None
  }

  lemma {:induction false} SplitOnceAt(a: bytes, b: bytes)
    requires SEPARATOR !in a
    ensures SplitOnce(a + [SEPARATOR] + b) == Some(Cursor(a, b))
  {
    var s := a + [SEPARATOR] + b;
    if a == [] {
      assert s[1..] == b;
    } else {
      assert a[0] in a && s[1..] == a[1..] + [SEPARATOR] + b;
      SplitOnceAt(a[1..], b);
      assert a == [a[0]] + a[1..];
    }
  }

  lemma {:induction false} SplitOnceFirst(s: bytes)
    requires SplitOnce(s).Some?
    ensures var c := SplitOnce(s).value; SEPARATOR !in c.createdAt && s == c.createdAt + [SEPARATOR] + c.id
  {
    if s[0] == SEPARATOR {
      assert s == [SEPARATOR] + s[1..];
    } else {
      SplitOnceFirst(s[1..]);
      var c := SplitOnce(s[1..]).value;
      assert s == [s[0]] + s[1..];
      assert [s[0]] + (c.createdAt + [SEPARATOR] + c.id) == [s[0]] + c.createdAt + [SEPARATOR] + c.id;
    }
  }

  lemma {:induction false} SplitOnceFinds(s: bytes)
    requires SEPARATOR in s
    ensures SplitOnce(s).Some?
  {
    if s[0] != SEPARATOR {
      assert s == [s[0]] + s[1..];
      SplitOnceFinds(s[1..]);
    }
  }

  lemma SeparatorIsText()
    ensures Utf8.IsText([SEPARATOR])
  {
    assert Utf8.Scan([SEPARATOR]) == Utf8.Scalar(1);
    assert [SEPARATOR][1..] == [];
  }

  /** A cursor survives the trip through the client exactly when its timestamp has no separator. */
  lemma CursorRoundTrip(c: Cursor)
    requires Utf8.IsText(c.createdAt) && Utf8.IsText(c.id)
    ensures DecodeCursor(EncodeCursor(c)) == Some(c) <==> SEPARATOR !in c.createdAt
  {
    hide Utf8.IsText;
    var s := c.createdAt + [SEPARATOR] + c.id;
    Base64Url.DecodeEncode(s);
    SeparatorIsText();
    Utf8.TextAppend(c.createdAt, [SEPARATOR]);
    Utf8.TextAppend(c.createdAt + [SEPARATOR], c.id);
    if SEPARATOR !in c.createdAt {
      SplitOnceAt(c.createdAt, c.id);
    }
    if SplitOnce(s).Some? {
      SplitOnceFirst(s);
    }
  }

  // ---- Request parameters ----

  /** `None` stands for the bad-request answer. */
  function ResolvePageLimit(limit: Option<nat>): (r: Option<nat>)
    ensures r.Some? ==> 1 <= r.value <= 200
    ensures r.None? <==> limit == Some(0)
    ensures limit.None? ==> r == Some(100)
    ensures limit.Some? && 0 < limit.value ==> r.value <= limit.value && (r == limit || r.value == 200)
  {
    match limit
    case None => Some(DEFAULT_PAGE_LIMIT)
    case Some(n) => if n == 0 then None else Some(if n < MAX_PAGE_LIMIT then n else MAX_PAGE_LIMIT)
  }

  datatype Bound = Unbounded | After(at: Cursor) | Before(at: Cursor)

  function ResolvePageCursor(before: Option<bytes>, after: Option<bytes>): (r: Option<Bound>) {
    match (before, after)
    case (Some(_), Some(_)) => None
    case (None, None) => Some(Unbounded)
    case (Some(raw), None) => if DecodeCursor(raw).Some? then Some(Before(DecodeCursor(raw).value)) else None
    case (None, Some(raw)) => if DecodeCursor(raw).Some? then Some(After(DecodeCursor(raw).value)) else None
  }

  /** A cursor is accepted exactly when it is the base64url of a text with a bar in it, and is cut at
      the first bar. */
  lemma DecodeCursorMeans(raw: bytes, c: Cursor)
    ensures DecodeCursor(raw) == Some(c) <==>
            && raw == Base64Url.Encode(c.createdAt + [0x7C] + c.id)
            && Utf8.IsText(c.createdAt + [0x7C] + c.id) && 0x7C !in c.createdAt
  {
    hide Utf8.IsText;
    var s := c.createdAt + [0x7C] + c.id;
    Base64Url.DecodeEncode(s);
    if DecodeCursor(raw) == Some(c) {
      Base64Url.DecodedWasEncoded(raw);
      SplitOnceFirst(Base64Url.Decode(raw).value);
    }
    if 0x7C !in c.createdAt {
      SplitOnceAt(c.createdAt, c.id);
    }
  }

  /** The request is refused exactly when both cursors are given or the one given is not accepted;
      otherwise it asks for the side its cursor names. */
  lemma ResolvePageCursorMeans(before: Option<bytes>, after: Option<bytes>, c: Cursor)
    ensures ResolvePageCursor(before, after).None? <==>
            || (before.Some? && after.Some?)
            || (before.Some? && DecodeCursor(before.value).None?)
            || (after.Some? && DecodeCursor(after.value).None?)
    ensures ResolvePageCursor(before, after) == Some(Unbounded) <==> before.None? && after.None?
    ensures ResolvePageCursor(before, after) == Some(Before(c)) <==>
            after.None? && before.Some? && DecodeCursor(before.value) == Some(c)
    ensures ResolvePageCursor(before, after) == Some(After(c)) <==>
            before.None? && after.Some? && DecodeCursor(after.value) == Some(c)
  {
    hide DecodeCursor;
  }

  // ---- The table ----

  datatype Row = Row(key: Cursor, item: bytes)

  predicate KeyLess(a: Cursor, b: Cursor) {
    Less(a.createdAt, b.createdAt) || (a.createdAt == b.createdAt && Less(a.id, b.id))
  }

  /** Creation time first; the id decides only between rows created at the same time. */
  lemma KeyOrder(a: Cursor, b: Cursor)
    ensures Less(a.createdAt, b.createdAt) ==> KeyLess(a, b) && !KeyLess(b, a)
    ensures a.createdAt == b.createdAt ==> (KeyLess(a, b) <==> Less(a.id, b.id))
  {
    LessIrreflexive(a.createdAt);
    if Less(a.createdAt, b.createdAt) && Less(b.createdAt, a.createdAt) {
      LessTransitive(a.createdAt, b.createdAt, a.createdAt);
    }
  }

  lemma KeyIrreflexive(a: Cursor)
    ensures !KeyLess(a, a)
  {
    LessIrreflexive(a.createdAt);
    LessIrreflexive(a.id);
  }

  lemma KeyTransitive(a: Cursor, b: Cursor, c: Cursor)
    requires KeyLess(a, b) && KeyLess(b, c)
    ensures KeyLess(a, c)
  {
    hide Less;
    if Less(a.createdAt, b.createdAt) && Less(b.createdAt, c.createdAt) {
      LessTransitive(a.createdAt, b.createdAt, c.createdAt);
    } else if a.createdAt == b.createdAt == c.createdAt {
      LessTransitive(a.id, b.id, c.id);
    }
  }

  lemma KeyTotal(a: Cursor, b: Cursor)
    requires a != b
    ensures KeyLess(a, b) || KeyLess(b, a)
  {
    hide Less;
    if a.createdAt != b.createdAt {
      LessTotal(a.createdAt, b.createdAt);
    } else {
      LessTotal(a.id, b.id);
    }
  }

  predicate RowLess(a: Row, b: Row) {
    KeyLess(a.key, b.key)
  }

  predicate RowGreater(a: Row, b: Row) {
    KeyLess(b.key, a.key)
  }

  ghost predicate DistinctKeys(rows: seq<Row>) {
    forall i, j :: 0 <= i < j < |rows| ==> rows[i].key != rows[j].key
  }

  predicate Matches(row: Row, bound: Bound) {
    match bound
    case Unbounded => true
    case After(at) => KeyLess(at, row.key)
    case Before(at) => KeyLess(row.key, at)
  }

  function Matching(table: seq<Row>, bound: Bound): (r: seq<Row>)
    ensures forall row :: row in r <==> row in table && Matches(row, bound)
  {
    if table == [] then []
    else if Matches(table[0], bound) then [table[0]] + Matching(table[1..], bound)
    else Matching(table[1..], bound)
  }

  /** The rows the query selects, in ascending order and without a limit. */
  function Listed(table: seq<Row>, bound: Bound): (r: seq<Row>) {
    Sort(Matching(table, bound), RowLess)
  }

  function Take(rows: seq<Row>, n: nat): (r: seq<Row>) {
    if n < |rows| then rows[..n] else rows
  }

  function TakeLast(rows: seq<Row>, n: nat): (r: seq<Row>) {
    if n < |rows| then rows[|rows| - n..] else rows
  }

  function Reverse(rows: seq<Row>): (r: seq<Row>)
    ensures |r| == |rows| && forall i :: 0 <= i < |r| ==> r[i] == rows[|rows| - 1 - i]
  {
    if rows == [] then [] else Reverse(rows[1..]) + [rows[0]]
  }

  // ---- The query's order ----

  lemma RowOrder()
    ensures StrictOrder(RowLess) && StrictOrder(RowGreater)
  {
    hide KeyLess;
    forall x: Row ensures !RowLess(x, x) && !RowGreater(x, x) {
      KeyIrreflexive(x.key);
    }
    forall x: Row, y: Row, z: Row | RowLess(x, y) && RowLess(y, z) ensures RowLess(x, z) {
      KeyTransitive(x.key, y.key, z.key);
    }
    forall x: Row, y: Row, z: Row | RowGreater(x, y) && RowGreater(y, z) ensures RowGreater(x, z) {
      KeyTransitive(z.key, y.key, x.key);
    }
  }

  lemma {:induction false} MatchingDistinct(table: seq<Row>, bound: Bound)
    requires DistinctKeys(table)
    ensures DistinctKeys(Matching(table, bound))
  {
    hide Matches;
    if table != [] {
      MatchingDistinct(table[1..], bound);
      var rest := Matching(table[1..], bound);
      forall j | 0 <= j < |rest| ensures rest[j].key != table[0].key {
        assert rest[j] in rest;
      }
    }
  }

  lemma RowsComparable(rows: seq<Row>)
    requires DistinctKeys(rows)
    ensures Comparable(rows, RowLess) && Comparable(rows, RowGreater)
  {
    hide KeyLess;
    forall i, j | 0 <= i < j < |rows| ensures RowLess(rows[i], rows[j]) || RowLess(rows[j], rows[i]) {
      KeyTotal(rows[i].key, rows[j].key);
    }
  }

  lemma ListedAscending(table: seq<Row>, bound: Bound)
    requires DistinctKeys(table)
    ensures Ascending(Listed(table, bound), RowLess)
  {
    hide Sort, KeyLess, Matching;
    MatchingDistinct(table, bound);
    RowsComparable(Matching(table, bound));
    RowOrder();
    SortIsAscending(Matching(table, bound), RowLess);
  }

  /** Descending order is ascending order backwards. */
  lemma DescendingIsReverse(table: seq<Row>, bound: Bound)
    requires DistinctKeys(table)
    ensures Sort(Matching(table, bound), RowGreater) == Reverse(Listed(table, bound))
  {
    hide Sort, KeyLess, Matching, Reverse;
    var rows := Matching(table, bound);
    MatchingDistinct(table, bound);
    RowsComparable(rows);
    RowOrder();
    SortIsAscending(rows, RowGreater);
    ListedAscending(table, bound);
    var up := Listed(table, bound);
    assert Ascending(Reverse(up), RowGreater);
    ReverseMembers(up);
    AscendingIsUnique(Sort(rows, RowGreater), Reverse(up), RowGreater);
  }

  lemma ReverseMembers(rows: seq<Row>)
    ensures forall row :: row in Reverse(rows) <==> row in rows
  {
    hide Reverse;
    forall row | row in rows ensures row in Reverse(rows) {
      var i :| 0 <= i < |rows| && rows[i] == row;
      assert Reverse(rows)[|rows| - 1 - i] == row;
    }
  }

  lemma ReverseOfTake(rows: seq<Row>, n: nat)
    ensures Reverse(Take(Reverse(rows), n)) == TakeLast(rows, n)
  {
    hide Reverse;
  }

  /** The rows of one query: filtered, in the direction's order, one more than the page holds. */
  function Query(table: seq<Row>, bound: Bound, limit: nat): (r: seq<Row>) {
    Take(Sort(Matching(table, bound), if bound.Before? then RowGreater else RowLess), limit + 1)
  }

  lemma QueryFacts(table: seq<Row>, bound: Bound, limit: nat)
    requires DistinctKeys(table)
    ensures |Query(table, bound, limit)| > limit <==> |Listed(table, bound)| > limit
    ensures var rows := Take(Query(table, bound, limit), limit);
            if bound.Before? then Reverse(rows) == TakeLast(Listed(table, bound), limit)
            else rows == Take(Listed(table, bound), limit)
  {
    hide Sort, KeyLess, Matching, Reverse;
    if bound.Before? {
      DescendingIsReverse(table, bound);
      ReverseOfTake(Listed(table, bound), limit);
    }
  }

  /** An `after` or first page is the first `limit` rows past the bound and has a cursor exactly when
      more follow; a `before` page is the nearest `limit` rows below the bound, ascending, and has a
      cursor whenever it has rows. */
  method FetchPage(table: seq<Row>, limit: nat, bound: Bound) returns (items: seq<Row>, next: Option<bytes>)
    requires DistinctKeys(table) && limit >= 1
    ensures items == if bound.Before? then TakeLast(Listed(table, bound), limit) else Take(Listed(table, bound), limit)
    ensures next == if items != [] && (bound.Before? || |Listed(table, bound)| > limit)
                    then Some(EncodeCursor(items[|items| - 1].key)) else None
  {
    hide Query, Listed, Reverse, TakeLast, EncodeCursor;
    QueryFacts(table, bound, limit);
    var rows := Query(table, bound, limit);
    var hasMore := |rows| > limit;
    rows := Take(rows, limit);
    items := [];
    for i := 0 to |rows|
      invariant items == rows[..i]
    {
      items := items + [rows[i]];
    }
    assert items == rows;
    if bound.Before? {
      items := Reverse(items);
    }
    next := None;
    if items != [] && (bound.Before? || hasMore) {
      next := Some(EncodeCursor(items[|items| - 1].key));
    }
  }

  // ---- Following next_cursor ----

  ghost predicate Transportable(rows: seq<Row>) {
    forall row :: row in rows ==>
      Utf8.IsText(row.key.createdAt) && Utf8.IsText(row.key.id) && SEPARATOR !in row.key.createdAt
  }

  /** The cursor a page hands out resumes after the page's last row. */
  lemma NextCursorResumes(items: seq<Row>)
    requires items != [] && Transportable(items)
    ensures ResolvePageCursor(None, Some(EncodeCursor(items[|items| - 1].key))) == Some(After(items[|items| - 1].key))
  {
    hide EncodeCursor, DecodeCursor, Utf8.IsText;
    var last := items[|items| - 1];
    assert last in items;
    CursorRoundTrip(last.key);
  }

  lemma {:induction false} PrefixIsLess(s: bytes, t: bytes)
    requires s < t
    ensures Less(s, t)
  {
    if s != [] {
      PrefixIsLess(s[1..], t[1..]);
    }
  }

  /** Cut at a separator inside the timestamp, the cursor names an earlier place. */
  lemma CutShort(c: Cursor)
    requires SEPARATOR in c.createdAt
    ensures var d := SplitOnce(c.createdAt + [SEPARATOR] + c.id); d.Some? && KeyLess(d.value, c)
  {
    var s := c.createdAt + [SEPARATOR] + c.id;
    SplitOnceFinds(s);
    SplitOnceFirst(s);
    var d := SplitOnce(s).value;
    var i :| 0 <= i < |c.createdAt| && c.createdAt[i] == SEPARATOR;
    assert s[i] == SEPARATOR;
    assert |d.createdAt| <= i;
    assert d.createdAt == s[..|d.createdAt|] == c.createdAt[..|d.createdAt|];
    PrefixIsLess(d.createdAt, c.createdAt);
  }

  /** The condition on timestamps is needed: with a separator in its timestamp, the last row of a
      page is asked for again by the page's own cursor. */
  lemma SeparatorRepeatsTheRow(row: Row)
    requires Utf8.IsText(row.key.createdAt) && Utf8.IsText(row.key.id) && SEPARATOR in row.key.createdAt
    ensures var b := ResolvePageCursor(None, Some(EncodeCursor(row.key))); b.Some? && Matches(row, b.value)
  {
    hide Utf8.IsText, KeyLess;
    var c := row.key;
    var s := c.createdAt + [SEPARATOR] + c.id;
    Base64Url.DecodeEncode(s);
    SeparatorIsText();
    Utf8.TextAppend(c.createdAt, [SEPARATOR]);
    Utf8.TextAppend(c.createdAt + [SEPARATOR], c.id);
    CutShort(c);
  }

  function PageItems(table: seq<Row>, bound: Bound, limit: nat): (r: seq<Row>) {
    Take(Listed(table, bound), limit)
  }

  predicate More(table: seq<Row>, bound: Bound, limit: nat) {
    |Listed(table, bound)| > limit
  }

  function NextBound(table: seq<Row>, bound: Bound, limit: nat): (b: Bound)
    requires limit >= 1 && More(table, bound, limit)
  {
    After(Listed(table, bound)[limit - 1].key)
  }

  /** The pages of a traversal whose successive requests find the table as `tables[0]`, `tables[1]`, ... */
  function Pages(tables: seq<seq<Row>>, limit: nat, bound: Bound): (r: seq<seq<Row>>)
    requires limit >= 1
    decreases tables
  {
    if tables == [] then []
    else
      [PageItems(tables[0], bound, limit)]
      + if More(tables[0], bound, limit) then Pages(tables[1..], limit, NextBound(tables[0], bound, limit)) else []
  }

  /** The traversal reaches a page without a cursor. */
  predicate Finishes(tables: seq<seq<Row>>, limit: nat, bound: Bound)
    requires limit >= 1
    decreases tables
  {
    tables != [] &&
    (More(tables[0], bound, limit) ==> Finishes(tables[1..], limit, NextBound(tables[0], bound, limit)))
  }

  ghost predicate Traversable(tables: seq<seq<Row>>) {
    forall i :: 0 <= i < |tables| ==> DistinctKeys(tables[i])
  }

  lemma PageFacts(table: seq<Row>, bound: Bound, limit: nat)
    requires DistinctKeys(table) && limit >= 1
    ensures var items := PageItems(table, bound, limit);
            && Ascending(items, RowLess)
            && (forall row :: row in items ==> row in table && Matches(row, bound))
            && (!More(table, bound, limit) ==> forall row :: row in table && Matches(row, bound) ==> row in items)
  {
    hide Sort, KeyLess, Matching, Matches;
    ListedAscending(table, bound);
  }

  /** Rows of a page come before everything the next request asks for. */
  lemma PageThenNext(table: seq<Row>, bound: Bound, limit: nat, row: Row)
    requires DistinctKeys(table) && limit >= 1 && More(table, bound, limit)
    requires row in PageItems(table, bound, limit)
    ensures row.key == NextBound(table, bound, limit).at || KeyLess(row.key, NextBound(table, bound, limit).at)
  {
    hide Sort, KeyLess, Matching;
    ListedAscending(table, bound);
    var all := Listed(table, bound);
    var i :| 0 <= i < limit && all[i] == row;
    assert i < limit - 1 ==> RowLess(all[i], all[limit - 1]);
  }

  lemma {:induction false} PagesMatch(tables: seq<seq<Row>>, limit: nat, bound: Bound)
    requires limit >= 1 && Traversable(tables) && !bound.Before?
    ensures forall row :: row in Flatten(Pages(tables, limit, bound)) ==> Matches(row, bound)
    decreases tables
  {
    hide Listed, KeyLess, PageItems;
    if tables != [] {
      PageFacts(tables[0], bound, limit);
      if More(tables[0], bound, limit) {
        var next := NextBound(tables[0], bound, limit);
        PagesMatch(tables[1..], limit, next);
        forall row | row in Flatten(Pages(tables[1..], limit, next)) ensures Matches(row, bound) {
          if bound.After? {
            NextBoundMatches(tables[0], bound, limit);
            KeyTransitive(bound.at, next.at, row.key);
          }
        }
      }
    }
  }

  lemma NextBoundMatches(table: seq<Row>, bound: Bound, limit: nat)
    requires limit >= 1 && More(table, bound, limit) && bound.After?
    ensures KeyLess(bound.at, NextBound(table, bound, limit).at)
  {
    hide Sort, Matching;
    var row := Listed(table, bound)[limit - 1];
    assert row in Listed(table, bound);
  }

  /** Whatever happens to the table between requests, the pages together are strictly ascending:
      no row is returned twice and none out of order. */
  lemma {:induction false} TraversalAscends(tables: seq<seq<Row>>, limit: nat, bound: Bound)
    requires limit >= 1 && Traversable(tables) && !bound.Before?
    ensures Ascending(Flatten(Pages(tables, limit, bound)), RowLess)
    decreases tables
  {
    hide Listed, KeyLess, PageItems, Matches;
    if tables != [] {
      PageFacts(tables[0], bound, limit);
      var items := PageItems(tables[0], bound, limit);
      if More(tables[0], bound, limit) {
        var next := NextBound(tables[0], bound, limit);
        TraversalAscends(tables[1..], limit, next);
        PagesMatch(tables[1..], limit, next);
        var rest := Flatten(Pages(tables[1..], limit, next));
        forall i, j | 0 <= i < |items| && 0 <= j < |rest| ensures RowLess(items[i], rest[j]) {
          PagePrecedes(tables[0], bound, limit, items[i], rest[j]);
        }
        assert Pages(tables, limit, bound)[1..] == Pages(tables[1..], limit, next);
      } else {
        assert Pages(tables, limit, bound)[1..] == [];
      }
    }
  }

  lemma PagePrecedes(table: seq<Row>, bound: Bound, limit: nat, row: Row, later: Row)
    requires DistinctKeys(table) && limit >= 1 && More(table, bound, limit)
    requires row in PageItems(table, bound, limit) && Matches(later, NextBound(table, bound, limit))
    ensures RowLess(row, later)
  {
    hide Listed, KeyLess, PageItems;
    PageThenNext(table, bound, limit, row);
    var at := NextBound(table, bound, limit).at;
    if row.key != at {
      KeyTransitive(row.key, at, later.key);
    }
  }

  ghost predicate HasKey(rows: seq<Row>, key: Cursor) {
    exists row :: row in rows && row.key == key
  }

  ghost predicate Past(key: Cursor, bound: Bound) {
    bound.After? ==> KeyLess(bound.at, key)
  }

  /** A row that is there at every request of a finished traversal is returned. */
  lemma {:induction false} TraversalMissesNothing(tables: seq<seq<Row>>, limit: nat, bound: Bound, key: Cursor)
    requires limit >= 1 && Traversable(tables) && !bound.Before? && Finishes(tables, limit, bound)
    requires Past(key, bound) && forall i :: 0 <= i < |tables| ==> HasKey(tables[i], key)
    ensures HasKey(Flatten(Pages(tables, limit, bound)), key)
    decreases tables
  {
    hide Listed, KeyLess, PageItems;
    PageFacts(tables[0], bound, limit);
    var row :| row in tables[0] && row.key == key;
    var items := PageItems(tables[0], bound, limit);
    if More(tables[0], bound, limit) {
      var next := NextBound(tables[0], bound, limit);
      assert Pages(tables, limit, bound)[1..] == Pages(tables[1..], limit, next);
      if row !in items {
        NotYetReturned(tables[0], bound, limit, row);
        TraversalMissesNothing(tables[1..], limit, next, key);
        var found :| found in Flatten(Pages(tables[1..], limit, next)) && found.key == key;
        assert found in Flatten(Pages(tables, limit, bound));
      }
    }
    assert row in items ==> row in Flatten(Pages(tables, limit, bound));
  }

  lemma NotYetReturned(table: seq<Row>, bound: Bound, limit: nat, row: Row)
    requires DistinctKeys(table) && limit >= 1 && More(table, bound, limit) && !bound.Before?
    requires row in table && Past(row.key, bound) && row !in PageItems(table, bound, limit)
    ensures KeyLess(NextBound(table, bound, limit).at, row.key)
  {
    hide Sort, KeyLess, Matching;
    ListedAscending(table, bound);
    var all := Listed(table, bound);
    assert row in all;
    var i :| 0 <= i < |all| && all[i] == row;
    assert forall j :: 0 <= j < limit ==> all[j] in all[..limit];
    assert RowLess(all[limit - 1], all[i]);
  }

  // ---- A table that does not change ----

  function PageCount(n: nat, limit: nat): (k: nat)
    requires limit >= 1
    ensures k >= 1
    ensures n > 0 ==> (k - 1) * limit < n <= k * limit
    ensures n == 0 ==> k == 1
    decreases n
  {
    if n <= limit then 1 else 1 + PageCount(n - limit, limit)
  }

  function Repeat(table: seq<Row>, n: nat): (r: seq<seq<Row>>)
    ensures |r| == n && forall i :: 0 <= i < n ==> r[i] == table
  {
    seq(n, i => table)
  }

  /** The next request of an unchanged table asks for exactly what is left. */
  lemma NextAsksForTheRest(table: seq<Row>, bound: Bound, limit: nat)
    requires DistinctKeys(table) && limit >= 1 && More(table, bound, limit) && !bound.Before?
    ensures Listed(table, NextBound(table, bound, limit)) == Listed(table, bound)[limit..]
  {
    hide Sort, KeyLess, Matching;
    var all, next := Listed(table, bound), NextBound(table, bound, limit);
    ListedAscending(table, bound);
    ListedAscending(table, next);
    RowOrder();
    forall row ensures row in Listed(table, next) <==> row in all[limit..] {
      RestMembers(table, bound, limit, row);
    }
    AscendingIsUnique(Listed(table, next), all[limit..], RowLess);
  }

  lemma RestMembers(table: seq<Row>, bound: Bound, limit: nat, row: Row)
    requires DistinctKeys(table) && limit >= 1 && More(table, bound, limit) && !bound.Before?
    ensures row in Listed(table, NextBound(table, bound, limit)) <==> row in Listed(table, bound)[limit..]
  {
    hide Sort, KeyLess, Matching;
    var all, next := Listed(table, bound), NextBound(table, bound, limit);
    ListedAscending(table, bound);
    if row in Listed(table, next) {
      if bound.After? {
        NextBoundMatches(table, bound, limit);
        KeyTransitive(bound.at, next.at, row.key);
      }
      var i :| 0 <= i < |all| && all[i] == row;
      NotBefore(all, limit - 1, i);
      assert all[limit..][i - limit] == row;
    }
    if row in all[limit..] {
      var i :| 0 <= i < |all| - limit && all[limit..][i] == row;
      assert RowLess(all[limit - 1], all[limit + i]);
      assert row in all;
    }
  }

  lemma NotBefore(all: seq<Row>, p: nat, i: nat)
    requires Ascending(all, RowLess) && p < |all| && i < |all| && RowLess(all[p], all[i])
    ensures p < i
  {
    hide KeyLess;
    KeyIrreflexive(all[p].key);
    if i < p {
      KeyTransitive(all[p].key, all[i].key, all[p].key);
    }
  }

  /** On an unchanged table the traversal takes `max(1, ceil(n / limit))` pages, finishes, and its
      pages put together are the sorted table. */
  lemma {:induction false} FixedTableTraversal(table: seq<Row>, limit: nat, bound: Bound, requests: nat)
    requires DistinctKeys(table) && limit >= 1 && !bound.Before?
    requires requests >= PageCount(|Listed(table, bound)|, limit)
    ensures var pages := Pages(Repeat(table, requests), limit, bound);
            && Finishes(Repeat(table, requests), limit, bound)
            && |pages| == PageCount(|Listed(table, bound)|, limit)
            && Flatten(pages) == Listed(table, bound)
    decreases requests
  {
    hide Listed, KeyLess;
    var tables, all := Repeat(table, requests), Listed(table, bound);
    assert tables[1..] == Repeat(table, requests - 1);
    if More(table, bound, limit) {
      var next := NextBound(table, bound, limit);
      NextAsksForTheRest(table, bound, limit);
      FixedTableTraversal(table, limit, next, requests - 1);
      var rest := Pages(tables[1..], limit, next);
      assert Pages(tables, limit, bound) == [all[..limit]] + rest;
      assert Flatten([all[..limit]] + rest) == all[..limit] + Flatten(rest) by {
        assert ([all[..limit]] + rest)[1..] == rest;
      }
    } else {
      var one: seq<seq<Row>> := [all];
      assert Pages(tables, limit, bound) == one && one[1..] == [];
      assert Flatten(one) == all;
    }
  }

  // ---- The traversal as a client makes it ----

  /** The client has made `i` requests and received `pages`; unless it is done it goes on from `bound`. */
  ghost predicate Following(tables: seq<seq<Row>>, limit: nat, start: Bound, i: nat, bound: Bound,
                            pages: seq<seq<Row>>, finished: bool)
    requires limit >= 1 && i <= |tables|
  {
    && !bound.Before?
    && Pages(tables, limit, start) == (if finished then pages else pages + Pages(tables[i..], limit, bound))
    && Finishes(tables, limit, start) == (finished || Finishes(tables[i..], limit, bound))
  }

  lemma FollowStep(tables: seq<seq<Row>>, limit: nat, start: Bound, i: nat, bound: Bound, pages: seq<seq<Row>>)
    requires limit >= 1 && i < |tables| && Following(tables, limit, start, i, bound, pages, false)
    ensures var more := pages + [PageItems(tables[i], bound, limit)];
            if More(tables[i], bound, limit)
            then Following(tables, limit, start, i + 1, NextBound(tables[i], bound, limit), more, false)
            else Following(tables, limit, start, i + 1, bound, more, true)
  {
    hide Listed, PageItems;
    assert tables[i..][1..] == tables[i + 1..] && tables[i..][0] == tables[i];
    var items := PageItems(tables[i], bound, limit);
    if More(tables[i], bound, limit) {
      var rest := Pages(tables[i + 1..], limit, NextBound(tables[i], bound, limit));
      assert pages + ([items] + rest) == pages + [items] + rest;
    } else {
      assert [items] + [] == [items];
    }
  }

  method FollowCursors(tables: seq<seq<Row>>, limit: nat, after: Option<bytes>)
    returns (pages: seq<seq<Row>>, finished: bool)
    requires limit >= 1 && Traversable(tables) && ResolvePageCursor(None, after).Some?
    requires forall i :: 0 <= i < |tables| ==> Transportable(tables[i])
    ensures var bound := ResolvePageCursor(None, after).value;
            pages == Pages(tables, limit, bound) && finished == Finishes(tables, limit, bound)
  {
    hide Listed, PageItems, Following, Transportable, EncodeCursor, DecodeCursor, Take, Pages, Finishes, DistinctKeys;
    var cursor := after;
    ghost var start := ResolvePageCursor(None, after).value;
    ghost var bound := start;
    pages, finished := [], false;
    var i := 0;
    FollowStart(tables, limit, start);
    while i < |tables| && !finished
      invariant 0 <= i <= |tables| && Following(tables, limit, start, i, bound, pages, finished)
      invariant !finished ==> ResolvePageCursor(None, cursor) == Some(bound)
      decreases |tables| - i
    {
      var items, next := FetchPage(tables[i], limit, ResolvePageCursor(None, cursor).value);
      NextPage(tables[i], limit, bound, items, next);
      FollowStep(tables, limit, start, i, bound, pages);
      pages := pages + [items];
      if next.None? {
        finished := true;
      } else {
        bound := NextBound(tables[i], bound, limit);
        cursor := next;
      }
      i := i + 1;
    }
    FollowEnd(tables, limit, start, i, bound, pages, finished);
  }

  lemma FollowStart(tables: seq<seq<Row>>, limit: nat, start: Bound)
    requires limit >= 1 && !start.Before?
    ensures Following(tables, limit, start, 0, start, [], false)
  {
    hide Pages, Finishes;
    assert tables[0..] == tables && [] + Pages(tables, limit, start) == Pages(tables, limit, start);
  }

  lemma FollowEnd(tables: seq<seq<Row>>, limit: nat, start: Bound, i: nat, bound: Bound,
                  pages: seq<seq<Row>>, finished: bool)
    requires limit >= 1 && i <= |tables| && Following(tables, limit, start, i, bound, pages, finished)
    requires finished || i == |tables|
    ensures pages == Pages(tables, limit, start) && finished == Finishes(tables, limit, start)
  {
    hide Listed;
    if !finished {
      assert tables[i..] == [] && Pages([], limit, bound) == [];
      assert pages + [] == pages;
    }
  }

  /** A client that fetches, sends the returned cursor back as `after`, and goes on until there is
      none: what it receives is strictly ascending, misses nothing that stays, and on an unchanged
      table is the sorted table in `max(1, ceil(n / limit))` pages. */
  method Follow(tables: seq<seq<Row>>, limit: nat, after: Option<bytes>) returns (pages: seq<seq<Row>>, finished: bool)
    requires limit >= 1 && Traversable(tables) && ResolvePageCursor(None, after).Some?
    requires forall i :: 0 <= i < |tables| ==> Transportable(tables[i])
    ensures Ascending(Flatten(pages), RowLess)
    ensures var bound := ResolvePageCursor(None, after).value;
            finished ==> forall key ::
              Past(key, bound) && (forall i :: 0 <= i < |tables| ==> HasKey(tables[i], key)) ==>
                HasKey(Flatten(pages), key)
    ensures var bound := ResolvePageCursor(None, after).value;
            forall table ::
              tables == Repeat(table, |tables|) && DistinctKeys(table)
              && |tables| >= PageCount(|Listed(table, bound)|, limit) ==>
                finished && |pages| == PageCount(|Listed(table, bound)|, limit) && Flatten(pages) == Listed(table, bound)
  {
    hide Listed, HasKey, Past, DistinctKeys, Flatten, Pages, Finishes, Repeat, Ascending, DecodeCursor, Transportable;
    pages, finished := FollowCursors(tables, limit, after);
    FollowedPages(tables, limit, ResolvePageCursor(None, after).value);
  }

  /** One page and what its cursor asks for. */
  lemma NextPage(table: seq<Row>, limit: nat, bound: Bound, items: seq<Row>, next: Option<bytes>)
    requires limit >= 1 && DistinctKeys(table) && Transportable(table) && !bound.Before?
    requires items == Take(Listed(table, bound), limit)
    requires next == if items != [] && |Listed(table, bound)| > limit then Some(EncodeCursor(items[|items| - 1].key)) else None
    ensures items == PageItems(table, bound, limit) && (next.Some? <==> More(table, bound, limit))
    ensures next.Some? ==> ResolvePageCursor(None, next) == Some(NextBound(table, bound, limit))
  {
    hide Sort, KeyLess, Matching, EncodeCursor, DecodeCursor, Utf8.IsText;
    if next.Some? {
      assert forall row :: row in items ==> row in table;
      NextCursorResumes(items);
    }
  }

  lemma FollowedPages(tables: seq<seq<Row>>, limit: nat, bound: Bound)
    requires limit >= 1 && Traversable(tables) && !bound.Before?
    ensures Ascending(Flatten(Pages(tables, limit, bound)), RowLess)
    ensures Finishes(tables, limit, bound) ==>
              forall key ::
                Past(key, bound) && (forall i :: 0 <= i < |tables| ==> HasKey(tables[i], key)) ==>
                  HasKey(Flatten(Pages(tables, limit, bound)), key)
    ensures forall table ::
              tables == Repeat(table, |tables|) && DistinctKeys(table)
              && |tables| >= PageCount(|Listed(table, bound)|, limit) ==>
                && Finishes(tables, limit, bound)
                && |Pages(tables, limit, bound)| == PageCount(|Listed(table, bound)|, limit)
                && Flatten(Pages(tables, limit, bound)) == Listed(table, bound)
  {
    hide Listed, HasKey, Past, DistinctKeys, Flatten, Pages, Finishes, RowLess, Repeat;
    TraversalAscends(tables, limit, bound);
    if Finishes(tables, limit, bound) {
      forall key | Past(key, bound) && forall i :: 0 <= i < |tables| ==> HasKey(tables[i], key)
        ensures HasKey(Flatten(Pages(tables, limit, bound)), key)
      {
        TraversalMissesNothing(tables, limit, bound, key);
      }
    }
    forall table | tables == Repeat(table, |tables|) && DistinctKeys(table)
                   && |tables| >= PageCount(|Listed(table, bound)|, limit)
      ensures && Finishes(tables, limit, bound)
              && |Pages(tables, limit, bound)| == PageCount(|Listed(table, bound)|, limit)
              && Flatten(Pages(tables, limit, bound)) == Listed(table, bound)
    {
      FixedTableTraversal(table, limit, bound, |tables|);
    }
  }

  // ---- Going back and forth ----

  function NotBelow(table: seq<Row>, at: Cursor): (r: seq<Row>)
    ensures forall row :: row in r <==> row in table && !KeyLess(row.key, at)
  {
    if table == [] then []
    else if KeyLess(table[0].key, at) then NotBelow(table[1..], at)
    else [table[0]] + NotBelow(table[1..], at)
  }

  lemma {:induction false} NotBelowDistinct(table: seq<Row>, at: Cursor)
    requires DistinctKeys(table)
    ensures DistinctKeys(NotBelow(table, at))
  {
    hide KeyLess;
    if table != [] {
      NotBelowDistinct(table[1..], at);
    }
  }

  /** The rows at or past the boundary, in order. */
  function FromBoundary(table: seq<Row>, at: Cursor): (r: seq<Row>) {
    Sort(NotBelow(table, at), RowLess)
  }

  /** A row follows the last one below the boundary exactly when it is at or past the boundary. */
  lemma FollowsTheLast(table: seq<Row>, at: Cursor, row: Row)
    requires DistinctKeys(table) && Listed(table, Before(at)) != [] && row in table
    ensures var below := Listed(table, Before(at));
            Matches(row, After(below[|below| - 1].key)) <==> !KeyLess(row.key, at)
  {
    hide Sort, KeyLess, Matching;
    var below := Listed(table, Before(at));
    ListedAscending(table, Before(at));
    var last := below[|below| - 1];
    assert last in below && KeyLess(last.key, at);
    if KeyLess(row.key, at) {
      assert row in below;
      var i :| 0 <= i < |below| && below[i] == row;
      if KeyLess(last.key, row.key) {
        NotBefore(below, |below| - 1, i);
      }
    } else if row.key != at {
      KeyTotal(row.key, at);
      KeyTransitive(last.key, at, row.key);
    }
  }

  /** What follows the last row of a backward page is what lies at or past its boundary. */
  lemma AfterBackward(table: seq<Row>, at: Cursor, limit: nat)
    requires DistinctKeys(table) && limit >= 1 && Listed(table, Before(at)) != []
    ensures var page := TakeLast(Listed(table, Before(at)), limit);
            page != [] && Listed(table, After(page[|page| - 1].key)) == FromBoundary(table, at)
  {
    hide Sort, KeyLess, Matching;
    var below := Listed(table, Before(at));
    var page := TakeLast(below, limit);
    var next := After(below[|below| - 1].key);
    assert page[|page| - 1] == below[|below| - 1];
    ListedAscending(table, next);
    NotBelowDistinct(table, at);
    RowsComparable(NotBelow(table, at));
    RowOrder();
    SortIsAscending(NotBelow(table, at), RowLess);
    forall row ensures row in Listed(table, next) <==> row in FromBoundary(table, at) {
      if row in table {
        FollowsTheLast(table, at, row);
      }
    }
    AscendingIsUnique(Listed(table, next), FromBoundary(table, at), RowLess);
  }

  /** A client that pages backward from a boundary and then sends the returned cursor as `after`: the
      first page is the nearest rows below the boundary, the second the first rows at or past it. */
  method BackwardThenForward(table: seq<Row>, limit: nat, before: bytes)
    returns (below: seq<Row>, above: Option<seq<Row>>)
    requires DistinctKeys(table) && Transportable(table) && limit >= 1 && DecodeCursor(before).Some?
    ensures var at := DecodeCursor(before).value;
            && below == TakeLast(Listed(table, Before(at)), limit)
            && above == if below == [] then None else Some(Take(FromBoundary(table, at), limit))
  {
    hide Sort, KeyLess, Matching, EncodeCursor, DecodeCursor, FromBoundary, Utf8.IsText;
    var bound := ResolvePageCursor(Some(before), None).value;
    var next;
    below, next := FetchPage(table, limit, bound);
    if next.None? {
      return below, None;
    }
    assert forall row :: row in below ==> row in table;
    NextCursorResumes(below);
    AfterBackward(table, bound.at, limit);
    var items, _ := FetchPage(table, limit, ResolvePageCursor(None, next).value);
    above := Some(items);
  }
}
