/** Sequences without repetitions, binary search, and cutting sequences apart and joining them again. */
module Sequences {
  /** No element twice. */
  ghost predicate Distinct<T>(list: seq<T>) {
    forall i, j :: 0 <= i < j < |list| ==> list[i] != list[j]
  }

  /** The elements that go before come first. */
  ghost predicate Partitioned<T>(list: seq<T>, before: T -> bool) {
    forall i, j :: 0 <= i < j < |list| && before(list[j]) ==> before(list[i])
  }

  /** `partition_point` between two known bounds: how many elements go before. */
  function PartitionPoint<T>(list: seq<T>, before: T -> bool, low: nat, high: nat): (point: nat)
    requires low <= high <= |list| && Partitioned(list, before)
    requires forall i :: 0 <= i < low ==> before(list[i])
    requires forall i :: high <= i < |list| ==> !before(list[i])
    ensures point <= |list|
    ensures forall i :: 0 <= i < point ==> before(list[i])
    ensures forall i :: point <= i < |list| ==> !before(list[i])
    decreases high - low
  {
    if low == high then low
    else
      var middle := (low + high) / 2;
      if before(list[middle]) then PartitionPoint(list, before, middle + 1, high)
      else PartitionPoint(list, before, low, middle)
  }

  lemma StaysAt<T>(list: seq<T>, longer: seq<T>, i: nat)
    requires list <= longer && i < |list|
    ensures longer[i] == list[i]
  {
  }

  lemma LastApart<T>(a: seq<T>, b: seq<T>)
    requires b != []
    ensures a + b == a + b[..|b| - 1] + [b[|b| - 1]]
  {
  }

  lemma TailOfJoined<T>(a: seq<T>, b: seq<T>)
    requires a != []
    ensures (a + b)[0] == a[0] && (a + b)[1..] == a[1..] + b
  {
  }

  lemma OneMore<T>(list: seq<T>, i: nat)
    requires i < |list|
    ensures list[..i + 1] == list[..i] + [list[i]]
  {
  }

  lemma Rejoined<T>(list: seq<T>, i: nat)
    requires i < |list|
    ensures list == list[..i] + list[i..]
    ensures list[i..][0] == list[i] && list[i..][1..] == list[i + 1..]
  {
  }

  /** A slice of a part is a slice of the whole. */
  lemma SliceOfPart<T>(list: seq<T>, offset: nat, part: seq<T>, from: nat, to: nat)
    requires offset + |part| <= |list| && list[offset..offset + |part|] == part
    requires from <= to <= |part|
    ensures list[offset + from..offset + to] == part[from..to]
  {
    forall i | from <= i < to
      ensures list[offset + i] == part[i]
    {
      assert list[offset..offset + |part|][i] == list[offset + i];
    }
  }

  lemma SliceOfPrefix<T>(a: seq<T>, b: seq<T>, from: nat, to: nat)
    requires from <= to <= |a|
    ensures (a + b)[from..to] == a[from..to]
  {
  }

  lemma HeadMoved<T>(a: seq<T>, b: seq<T>)
    requires b != []
    ensures a + b == a + [b[0]] + b[1..]
    ensures (a + [b[0]])[..|a|] == a
  {
  }

  lemma LastOf<T>(list: seq<T>, x: T)
    ensures (list + [x])[|list|] == x
  {
  }

  lemma RestOfJoined<T>(a: seq<T>, b: seq<T>)
    ensures (a + b)[|a|..] == b
  {
  }
}
