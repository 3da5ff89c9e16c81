/** Stable sorting by a total preorder, as `sort_by` and `sort_by_key` do it. */
module Sorting {
  ghost predicate TotalPreorder<T(!new)>(le: (T, T) -> bool) {
    && (forall x, y :: le(x, y) || le(y, x))
    && forall x, y, z :: le(x, y) && le(y, z) ==> le(x, z)
  }

  ghost predicate SortedBy<T>(list: seq<T>, le: (T, T) -> bool) {
    forall i, j :: 0 <= i < j < |list| ==> le(list[i], list[j])
  }

  /** Put `x` in front of the first entry it does not have to follow. */
  function Insert<T>(x: T, list: seq<T>, le: (T, T) -> bool): (longer: seq<T>)
    ensures multiset(longer) == multiset{x} + multiset(list)
  {
    if list == [] || le(x, list[0]) then [x] + list
    else
      assert list == [list[0]] + list[1..];
      [list[0]] + Insert(x, list[1..], le)
  }

  function Sort<T>(list: seq<T>, le: (T, T) -> bool): (sorted: seq<T>)
    ensures multiset(sorted) == multiset(list)
    ensures |sorted| == |list|
  {
    if list == [] then []
    else
      assert list == [list[0]] + list[1..];
      var sorted := Insert(list[0], Sort(list[1..], le), le);
      assert |multiset(sorted)| == |multiset(list)|;
      sorted
  }

  lemma SameMembers<T>(a: seq<T>, b: seq<T>, x: T)
    requires multiset(a) == multiset(b)
    ensures x in a <==> x in b
  {
    assert x in a <==> x in multiset(a);
    assert x in b <==> x in multiset(b);
  }

  lemma {:induction false} InsertSorted<T(!new)>(x: T, list: seq<T>, le: (T, T) -> bool)
    requires TotalPreorder(le) && SortedBy(list, le)
    ensures SortedBy(Insert(x, list, le), le)
  {
    var longer := Insert(x, list, le);
    if list != [] && !le(x, list[0]) {
      InsertSorted(x, list[1..], le);
      forall j | 0 < j < |longer|
        ensures le(longer[0], longer[j])
      {
        var rest := Insert(x, list[1..], le);
        assert multiset(rest) == multiset([x] + list[1..]);
        SameMembers(rest, [x] + list[1..], rest[j - 1]);
      }
    }
  }

  /** The entries that tie with `x`, in the order they stand in. */
  function Ties<T>(list: seq<T>, x: T, le: (T, T) -> bool): seq<T> {
    if list == [] then []
    else (if le(x, list[0]) && le(list[0], x) then [list[0]] else []) + Ties(list[1..], x, le)
  }

  lemma {:induction false} InsertKeepsTies<T(!new)>(y: T, list: seq<T>, x: T, le: (T, T) -> bool)
    requires TotalPreorder(le)
    ensures Ties(Insert(y, list, le), x, le) == Ties([y] + list, x, le)
  {
    assert ([y] + list)[1..] == list;
    if list != [] && !le(y, list[0]) {
      var rest := Insert(y, list[1..], le);
      InsertKeepsTies(y, list[1..], x, le);
      assert ([y] + list[1..])[1..] == list[1..];
      assert ([list[0]] + rest)[1..] == rest;
    }
  }

  /** Sorting is stable: entries that tie keep their order. */
  lemma {:induction false} SortKeepsTies<T(!new)>(list: seq<T>, x: T, le: (T, T) -> bool)
    requires TotalPreorder(le)
    ensures Ties(Sort(list, le), x, le) == Ties(list, x, le)
  {
    if list == [] {
    } else {
      var rest := Sort(list[1..], le);
      SortKeepsTies(list[1..], x, le);
      InsertKeepsTies(list[0], rest, x, le);
      assert ([list[0]] + rest)[1..] == rest;
    }
  }

  lemma {:induction false} SortSorted<T(!new)>(list: seq<T>, le: (T, T) -> bool)
    requires TotalPreorder(le)
    ensures SortedBy(Sort(list, le), le)
  {
    if list == [] {
    } else {
      SortSorted(list[1..], le);
      InsertSorted(list[0], Sort(list[1..], le), le);
    }
  }
}
