/** Sorting by a strict order that compares every two elements of the input: the result
    is the only ascending arrangement of those elements, so nothing proved from it
    depends on the algorithm.
 */
module Sorting {

  ghost predicate StrictOrder<T(!new)>(lt: (T, T) -> bool) {
    && (forall x :: !lt(x, x))
    && (forall x, y, z :: lt(x, y) && lt(y, z) ==> lt(x, z))
  }

  ghost predicate Comparable<T>(s: seq<T>, lt: (T, T) -> bool) {
    forall i, j :: 0 <= i < j < |s| ==> lt(s[i], s[j]) || lt(s[j], s[i])
  }

  ghost predicate Ascending<T>(s: seq<T>, lt: (T, T) -> bool) {
    forall i, j :: 0 <= i < j < |s| ==> lt(s[i], s[j])
  }

  ghost predicate Distinct<T>(s: seq<T>) {
    forall i, j :: 0 <= i < j < |s| ==> s[i] != s[j]
  }

  /** `x` placed before the first element that follows it. */
  function Insert<T(!new)>(x: T, s: seq<T>, lt: (T, T) -> bool): (r: seq<T>)
    ensures |r| == |s| + 1
    ensures forall y :: y in r <==> y == x || y in s
  {
    if s == [] || lt(x, s[0]) then [x] + s else [s[0]] + Insert(x, s[1..], lt)
  }

  function Sort<T(!new)>(s: seq<T>, lt: (T, T) -> bool): (r: seq<T>)
    ensures |r| == |s|
    ensures forall y :: y in r <==> y in s
  {
    if s == [] then [] else Insert(s[0], Sort(s[1..], lt), lt)
  }

  lemma {:induction false} InsertAscending<T(!new)>(x: T, s: seq<T>, lt: (T, T) -> bool)
    requires StrictOrder(lt) && Ascending(s, lt)
    requires forall y :: y in s ==> lt(x, y) || lt(y, x)
    ensures Ascending(Insert(x, s, lt), lt)
  {
    if s != [] && !lt(x, s[0]) {
      InsertAscending(x, s[1..], lt);
      var r := Insert(x, s[1..], lt);
      assert lt(s[0], x);
      forall j | 0 <= j < |r| ensures lt(s[0], r[j]) {
        assert r[j] in r;
      }
    } else if s != [] {
      forall j | 0 <= j < |s| ensures lt(x, s[j]) {
        assert j == 0 || lt(s[0], s[j]);
      }
    }
  }

  /** `Sort` puts the elements in ascending order. */
  lemma {:induction false} SortIsAscending<T(!new)>(s: seq<T>, lt: (T, T) -> bool)
    requires StrictOrder(lt) && Comparable(s, lt)
    ensures Ascending(Sort(s, lt), lt)
  {
    if s != [] {
      SortIsAscending(s[1..], lt);
      InsertAscending(s[0], Sort(s[1..], lt), lt);
    }
  }

  lemma AscendingIsDistinct<T(!new)>(s: seq<T>, lt: (T, T) -> bool)
    requires StrictOrder(lt) && Ascending(s, lt)
    ensures Distinct(s)
  {
    forall i, j | 0 <= i < j < |s| ensures s[i] != s[j] {
      assert lt(s[i], s[j]);
    }
  }

  /** There is only one ascending arrangement of a set of elements. */
  lemma {:induction false} AscendingIsUnique<T(!new)>(a: seq<T>, b: seq<T>, lt: (T, T) -> bool)
    requires StrictOrder(lt) && Ascending(a, lt) && Ascending(b, lt)
    requires forall x :: x in a <==> x in b
    ensures a == b
  {
    assert |a| > 0 ==> a[0] in b;
    assert |b| > 0 ==> b[0] in a;
    if a != [] {
      HeadIsLeast(a, b[0], lt);
      HeadIsLeast(b, a[0], lt);
      forall x ensures x in a[1..] <==> x in b[1..] {
        TailMembers(a, x, lt);
        TailMembers(b, x, lt);
      }
      AscendingIsUnique(a[1..], b[1..], lt);
    }
  }

  lemma TailMembers<T(!new)>(s: seq<T>, x: T, lt: (T, T) -> bool)
    requires StrictOrder(lt) && Ascending(s, lt) && s != []
    ensures x in s[1..] <==> x in s && x != s[0]
  {
    AscendingIsDistinct(s, lt);
    assert s == [s[0]] + s[1..];
  }

  lemma HeadIsLeast<T>(s: seq<T>, x: T, lt: (T, T) -> bool)
    requires Ascending(s, lt) && x in s
    ensures x == s[0] || lt(s[0], x)
  {
  }
}
