/**
Which entries of an address-sorted symbol list own bytes, where each owned range
ends, and which entries are aliases: a single pass that remembers one owner, and
the scan of every earlier owner it stands for.
*/
module Boundaries {
  import opened Bytes
  import opened Sequences
  import opened Wrappers

  /** A symbol-table entry's address and declared size. */
  datatype Extent = Extent(address: nat, size: nat)

  /** The entry covering this one's start, when it is an alias; the end of the bytes it owns otherwise. */
  datatype Boundary = Boundary(owner: Option<nat>, end: nat)

  /** `saturating_add` on 64-bit values. */
  function SaturatingAdd(a: nat, b: nat): (sum: nat)
    ensures a + b <= 0xffff_ffff_ffff_ffff ==> sum == a + b
    ensures a + b > 0xffff_ffff_ffff_ffff ==> sum == 0xffff_ffff_ffff_ffff
  {
    if a + b > U64_MAX then U64_MAX else a + b
  }

  ghost predicate SortedByAddress(entries: seq<Extent>) {
    && (forall i :: 0 <= i < |entries| ==> entries[i].address <= U64_MAX)
    && forall i, j :: 0 <= i < j < |entries| ==> entries[i].address <= entries[j].address
  }

  /** The first address above `address` from entry `k` on. */
  function NextGreater(entries: seq<Extent>, address: nat, k: nat): Option<nat>
    decreases |entries| - k
  {
    if k >= |entries| then None
    else if entries[k].address > address then Some(entries[k].address)
    else NextGreater(entries, address, k + 1)
  }

  /** Where an owner's range ends: its declared size, or the next greater address, or the section end. */
  function OwnedEnd(entries: seq<Extent>, sectionEnd: nat, i: nat): nat
    requires i < |entries|
  {
    if entries[i].size != 0 then SaturatingAdd(entries[i].address, entries[i].size)
    else
      var next := NextGreater(entries, entries[i].address, i + 1);
      if next.Some? then next.value else sectionEnd
  }

  /** The first of the earlier owners whose range covers `address`. */
  function Covering(boundaries: seq<Boundary>, address: nat, k: nat): (owner: Option<nat>)
    requires k <= |boundaries|
    ensures owner.Some? ==>
              owner.value < k && boundaries[owner.value].owner.None? && address < boundaries[owner.value].end
    ensures owner.None? ==>
              forall j :: 0 <= j < k && boundaries[j].owner.None? ==> boundaries[j].end <= address
  {
    if k == 0 then None
    else
      var earlier := Covering(boundaries, address, k - 1);
      if earlier.Some? then earlier
      else if boundaries[k - 1].owner.None? && address < boundaries[k - 1].end then Some(k - 1)
      else None
  }

  /** An entry's boundary, given those of every entry before it. */
  function NextBoundary(entries: seq<Extent>, sectionEnd: nat, before: seq<Boundary>): Boundary
    requires |before| < |entries|
  {
    var i := |before|;
    var owner := Covering(before, entries[i].address, i);
    if owner.Some? then Boundary(owner, entries[i].address) else Boundary(None, OwnedEnd(entries, sectionEnd, i))
  }

  /** The boundaries of the first `k` entries, consulting every earlier owner for each. */
  function Naive(entries: seq<Extent>, sectionEnd: nat, k: nat): (boundaries: seq<Boundary>)
    requires k <= |entries|
    ensures |boundaries| == k
  {
    if k == 0 then []
    else
      var before := Naive(entries, sectionEnd, k - 1);
      before + [NextBoundary(entries, sectionEnd, before)]
  }

  lemma {:induction false} NaivePrefix(entries: seq<Extent>, sectionEnd: nat, j: nat, k: nat)
    requires j <= k <= |entries|
    ensures Naive(entries, sectionEnd, j) <= Naive(entries, sectionEnd, k)
  {
    if j == k {
    } else {
      NaivePrefix(entries, sectionEnd, j, k - 1);
    }
  }

  /** What each boundary is, entry by entry. */
  lemma NaiveAt(entries: seq<Extent>, sectionEnd: nat, i: nat, k: nat)
    requires i < k <= |entries|
    ensures Naive(entries, sectionEnd, k)[i] == NextBoundary(entries, sectionEnd, Naive(entries, sectionEnd, i))
  {
    var before := Naive(entries, sectionEnd, i);
    NaivePrefix(entries, sectionEnd, i + 1, k);
    StaysAt(Naive(entries, sectionEnd, i + 1), Naive(entries, sectionEnd, k), i);
    LastOf(before, NextBoundary(entries, sectionEnd, before));
  }

  lemma NaiveEarlier(entries: seq<Extent>, sectionEnd: nat, j: nat, i: nat, k: nat)
    requires j < i <= k <= |entries|
    ensures Naive(entries, sectionEnd, k)[j] == Naive(entries, sectionEnd, i)[j]
  {
    NaivePrefix(entries, sectionEnd, i, k);
    StaysAt(Naive(entries, sectionEnd, i), Naive(entries, sectionEnd, k), j);
  }

  /** Owned ranges never overlap: an owner ends before a later owner starts. */
  lemma OwnersDisjoint(entries: seq<Extent>, sectionEnd: nat, i: nat, j: nat)
    requires i < j < |entries|
    requires var boundaries := Naive(entries, sectionEnd, |entries|);
             boundaries[i].owner.None? && boundaries[j].owner.None?
    ensures Naive(entries, sectionEnd, |entries|)[i].end <= entries[j].address
  {
    NaiveAt(entries, sectionEnd, j, |entries|);
    NaiveEarlier(entries, sectionEnd, i, j, |entries|);
  }

  /** An alias starts inside the range of the owner it names. */
  lemma AliasIsCovered(entries: seq<Extent>, sectionEnd: nat, i: nat)
    requires i < |entries| && SortedByAddress(entries)
    requires Naive(entries, sectionEnd, |entries|)[i].owner.Some?
    ensures var boundaries := Naive(entries, sectionEnd, |entries|);
            var owner := boundaries[i].owner.value;
            && owner < i && boundaries[owner].owner.None?
            && entries[owner].address <= entries[i].address < boundaries[owner].end
  {
    NaiveAt(entries, sectionEnd, i, |entries|);
    var owner := Naive(entries, sectionEnd, |entries|)[i].owner.value;
    NaiveEarlier(entries, sectionEnd, owner, i, |entries|);
  }

  lemma {:induction false} NextGreaterIs(entries: seq<Extent>, address: nat, k: nat)
    requires SortedByAddress(entries)
    ensures var next := NextGreater(entries, address, k);
            next.Some? ==> next.value > address && exists i :: k <= i < |entries| && entries[i].address == next.value
    decreases |entries| - k
  {
    if k < |entries| && entries[k].address <= address {
      NextGreaterIs(entries, address, k + 1);
    }
  }

  lemma {:induction false} NextGreaterAtMost(entries: seq<Extent>, address: nat, k: nat, i: nat)
    requires SortedByAddress(entries) && k <= i < |entries| && entries[i].address > address
    ensures var next := NextGreater(entries, address, k);
            next.Some? && next.value <= entries[i].address
    decreases |entries| - k
  {
    if entries[k].address <= address {
      NextGreaterAtMost(entries, address, k + 1, i);
    }
  }

  /** A range without a declared size reaches the least greater address of any entry, or else the section's end. */
  ghost predicate Reaches(entries: seq<Extent>, sectionEnd: nat, i: nat, end: nat)
    requires i < |entries|
  {
    if exists j :: 0 <= j < |entries| && entries[i].address < entries[j].address then
      && (exists j :: 0 <= j < |entries| && entries[j].address == end)
      && entries[i].address < end
      && forall j :: 0 <= j < |entries| && entries[i].address < entries[j].address ==> end <= entries[j].address
    else end == sectionEnd
  }

  /**
  What the boundary of entry `i` is. It is an alias exactly when an earlier owner's
  range covers its start, and then of such an owner, with nothing of its own. An
  owner's range is as long as it declares, or reaches the next greater address.
  */
  ghost predicate Bounds(entries: seq<Extent>, sectionEnd: nat, boundaries: seq<Boundary>, i: nat)
    requires i < |entries| == |boundaries|
  {
    var (entry, owner, end) := (entries[i], boundaries[i].owner, boundaries[i].end);
    && (owner != None <==> exists j :: 0 <= j < i && Covers(entries, boundaries, j, i))
    && (owner.Some? ==> owner.value < i && Covers(entries, boundaries, owner.value, i) && end == entry.address)
    && (owner.None? && entry.size != 0 ==> end == Min(entry.address + entry.size, 0xffff_ffff_ffff_ffff))
    && (owner.None? && entry.size == 0 ==> Reaches(entries, sectionEnd, i, end))
  }

  ghost predicate Covers(entries: seq<Extent>, boundaries: seq<Boundary>, j: nat, i: nat)
    requires j < |boundaries| && i < |entries|
  {
    boundaries[j].owner == None && entries[i].address < boundaries[j].end
  }

  lemma InferredReaches(entries: seq<Extent>, sectionEnd: nat, i: nat)
    requires SortedByAddress(entries) && i < |entries| && entries[i].size == 0
    ensures Reaches(entries, sectionEnd, i, OwnedEnd(entries, sectionEnd, i))
  {
    var address := entries[i].address;
    NextGreaterIs(entries, address, i + 1);
    var next := NextGreater(entries, address, i + 1);
    forall j | 0 <= j < |entries| && address < entries[j].address
      ensures next.Some? && next.value <= entries[j].address
    {
      NextGreaterAtMost(entries, address, i + 1, j);
    }
    if next.Some? {
      var j :| i + 1 <= j < |entries| && entries[j].address == next.value;
      assert address < entries[j].address;
    }
  }

  lemma OwnerIsCovering(entries: seq<Extent>, sectionEnd: nat, i: nat)
    requires i < |entries|
    ensures var boundaries := Naive(entries, sectionEnd, |entries|);
            var owner := boundaries[i].owner;
            && (owner != None <==> exists j :: 0 <= j < i && Covers(entries, boundaries, j, i))
            && (owner.Some? ==> owner.value < i && Covers(entries, boundaries, owner.value, i))
  {
    var boundaries, before := Naive(entries, sectionEnd, |entries|), Naive(entries, sectionEnd, i);
    var covering := Covering(before, entries[i].address, i);
    NaiveAt(entries, sectionEnd, i, |entries|);
    assert boundaries[i].owner == covering;
    forall j | 0 <= j < i
      ensures Covers(entries, boundaries, j, i) <==> before[j].owner.None? && entries[i].address < before[j].end
    {
      NaiveEarlier(entries, sectionEnd, j, i, |entries|);
    }
  }

  lemma BoundsAre(entries: seq<Extent>, sectionEnd: nat, i: nat)
    requires SortedByAddress(entries) && i < |entries|
    ensures Bounds(entries, sectionEnd, Naive(entries, sectionEnd, |entries|), i)
  {
    NaiveAt(entries, sectionEnd, i, |entries|);
    OwnerIsCovering(entries, sectionEnd, i);
    if entries[i].size == 0 {
      InferredReaches(entries, sectionEnd, i);
    }
  }

  lemma EveryBoundIs(entries: seq<Extent>, sectionEnd: nat)
    requires SortedByAddress(entries)
    ensures forall i :: 0 <= i < |entries| ==> Bounds(entries, sectionEnd, Naive(entries, sectionEnd, |entries|), i)
  {
    forall i | 0 <= i < |entries|
      ensures Bounds(entries, sectionEnd, Naive(entries, sectionEnd, |entries|), i)
    {
      BoundsAre(entries, sectionEnd, i);
    }
  }

  /** The filter `index_section` applies: every start and declared end lies in the section. */
  ghost predicate InSection(entries: seq<Extent>, sectionStart: nat, sectionEnd: nat) {
    && sectionStart <= sectionEnd <= U64_MAX
    && forall i :: 0 <= i < |entries| ==>
         && sectionStart <= entries[i].address
         && SaturatingAdd(entries[i].address, entries[i].size) <= sectionEnd
  }

  /** Under the filter an owner's range is well-formed and stays in its section. */
  lemma OwnedRangeInSection(entries: seq<Extent>, sectionStart: nat, sectionEnd: nat, i: nat)
    requires SortedByAddress(entries) && InSection(entries, sectionStart, sectionEnd) && i < |entries|
    ensures entries[i].address <= OwnedEnd(entries, sectionEnd, i) <= sectionEnd
  {
    NextGreaterIs(entries, entries[i].address, i + 1);
    assert SaturatingAdd(entries[i].address, entries[i].size) >= entries[i].address;
    var next := NextGreater(entries, entries[i].address, i + 1);
    if next.Some? {
      var k :| i + 1 <= k < |entries| && entries[k].address == next.value;
      assert SaturatingAdd(entries[k].address, entries[k].size) >= entries[k].address;
    }
  }

  /** Bytes owned by the first `k` entries. */
  function TotalOwned(entries: seq<Extent>, boundaries: seq<Boundary>, k: nat): nat
    requires k <= |entries| && k <= |boundaries|
  {
    if k == 0 then 0
    else
      TotalOwned(entries, boundaries, k - 1)
      + if boundaries[k - 1].owner.None? && boundaries[k - 1].end > entries[k - 1].address
        then boundaries[k - 1].end - entries[k - 1].address else 0
  }

  /** The end of the last owned range among the first `k` entries. */
  function LastEnd(boundaries: seq<Boundary>, start: nat, k: nat): nat
    requires k <= |boundaries|
  {
    if k == 0 then start
    else if boundaries[k - 1].owner.None? then boundaries[k - 1].end
    else LastEnd(boundaries, start, k - 1)
  }

  lemma {:induction false} LastEndIsAnEnd(boundaries: seq<Boundary>, start: nat, k: nat)
    requires k <= |boundaries|
    ensures LastEnd(boundaries, start, k) == start
         || exists j :: 0 <= j < k && boundaries[j].owner.None? && boundaries[j].end == LastEnd(boundaries, start, k)
  {
    if k == 0 {
    } else {
      LastEndIsAnEnd(boundaries, start, k - 1);
    }
  }

  lemma {:induction false} TotalOwnedBelow(entries: seq<Extent>, sectionStart: nat, sectionEnd: nat, k: nat)
    requires SortedByAddress(entries) && InSection(entries, sectionStart, sectionEnd) && k <= |entries|
    ensures var boundaries := Naive(entries, sectionEnd, |entries|);
            && sectionStart <= LastEnd(boundaries, sectionStart, k) <= sectionEnd
            && TotalOwned(entries, boundaries, k) <= LastEnd(boundaries, sectionStart, k) - sectionStart
  {
    if k == 0 {
    } else {
      var boundaries := Naive(entries, sectionEnd, |entries|);
      TotalOwnedBelow(entries, sectionStart, sectionEnd, k - 1);
      NaiveAt(entries, sectionEnd, k - 1, |entries|);
      OwnedRangeInSection(entries, sectionStart, sectionEnd, k - 1);
      LastEndIsAnEnd(boundaries, sectionStart, k - 1);
      if boundaries[k - 1].owner.None? && LastEnd(boundaries, sectionStart, k - 1) != sectionStart {
        var j :| 0 <= j < k - 1 && boundaries[j].owner.None?
                 && boundaries[j].end == LastEnd(boundaries, sectionStart, k - 1);
        OwnersDisjoint(entries, sectionEnd, j, k - 1);
      }
    }
  }

  /** Whatever extents the symbol table declares, owned bytes never exceed the section. */
  lemma OwnedBytesFitTheSection(entries: seq<Extent>, sectionStart: nat, sectionEnd: nat)
    requires SortedByAddress(entries) && InSection(entries, sectionStart, sectionEnd)
    ensures TotalOwned(entries, Naive(entries, sectionEnd, |entries|), |entries|) <= sectionEnd - sectionStart
  {
    TotalOwnedBelow(entries, sectionStart, sectionEnd, |entries|);
  }

  /** The next greater address of every entry, filled in from the back. */
  method NextGreaters(entries: seq<Extent>) returns (nextGreater: seq<Option<nat>>)
    requires SortedByAddress(entries)
    ensures |nextGreater| == |entries|
    ensures forall i :: 0 <= i < |entries| ==> nextGreater[i] == NextGreater(entries, entries[i].address, i + 1)
  {
    nextGreater := seq(|entries|, _ => None);
    var following: Option<nat> := None;
    var index := |entries|;
    while index > 1
      invariant 0 <= index <= |entries| == |nextGreater|
      invariant |entries| > 0 ==> index > 0
      invariant forall i :: 0 <= i < |entries| && index - 1 <= i ==>
                  nextGreater[i] == NextGreater(entries, entries[i].address, i + 1)
      invariant index > 0 ==> following == nextGreater[index - 1]
    {
      index := index - 1;
      if entries[index].address > entries[index - 1].address {
        following := Some(entries[index].address);
      }
      nextGreater := nextGreater[index - 1 := following];
    }
  }

  /** The one owner the pass remembers: the last one, whose end bounds every earlier owner's. */
  ghost predicate Claims(boundaries: seq<Boundary>, claimed: Option<(nat, nat)>, k: nat)
    requires k <= |boundaries|
  {
    && (claimed.None? ==> forall j :: 0 <= j < k ==> boundaries[j].owner.Some?)
    && (claimed.Some? ==>
          && claimed.value.0 < k
          && boundaries[claimed.value.0] == Boundary(None, claimed.value.1)
          && forall j :: claimed.value.0 < j < k ==> boundaries[j].owner.Some?)
  }

  /** Asking the remembered owner is asking them all. */
  lemma OneOwnerSuffices(entries: seq<Extent>, sectionEnd: nat, claimed: Option<(nat, nat)>, k: nat)
    requires SortedByAddress(entries) && k < |entries|
    requires Claims(Naive(entries, sectionEnd, k), claimed, k)
    ensures Covering(Naive(entries, sectionEnd, k), entries[k].address, k)
         == if claimed.Some? && entries[k].address < claimed.value.1 then Some(claimed.value.0) else None
  {
    var before := Naive(entries, sectionEnd, k);
    var owner := Covering(before, entries[k].address, k);
    if owner.Some? && owner.value != claimed.value.0 {
      var last := claimed.value.0;
      NaiveAt(entries, sectionEnd, last, k);
      NaiveEarlier(entries, sectionEnd, owner.value, last, k);
      assert false;
    }
  }

  /** What the pass appends for entry `k` from the one owner it remembers. */
  function PassBoundary(entries: seq<Extent>, k: nat, claimed: Option<(nat, nat)>, end: nat): Boundary
    requires k < |entries|
  {
    if claimed.Some? && entries[k].address < claimed.value.1 then Boundary(Some(claimed.value.0), entries[k].address)
    else Boundary(None, end)
  }

  lemma PassIsNaive(entries: seq<Extent>, sectionEnd: nat, claimed: Option<(nat, nat)>, k: nat)
    requires SortedByAddress(entries) && k < |entries|
    requires Claims(Naive(entries, sectionEnd, k), claimed, k)
    ensures Naive(entries, sectionEnd, k + 1)
         == Naive(entries, sectionEnd, k) + [PassBoundary(entries, k, claimed, OwnedEnd(entries, sectionEnd, k))]
  {
    OneOwnerSuffices(entries, sectionEnd, claimed, k);
  }

  /** `symbol_boundaries`: one pass over the sorted entries. */
  method SymbolBoundaries(entries: seq<Extent>, sectionEnd: nat) returns (boundaries: seq<Boundary>)
    requires SortedByAddress(entries)
    ensures boundaries == Naive(entries, sectionEnd, |entries|)
    ensures forall i :: 0 <= i < |entries| ==> Bounds(entries, sectionEnd, boundaries, i)
  {
    var nextGreater := NextGreaters(entries);
    boundaries := [];
    var claimed: Option<(nat, nat)> := None;
    for index := 0 to |entries|
      invariant boundaries == Naive(entries, sectionEnd, index)
      invariant Claims(boundaries, claimed, index)
    {
      PassIsNaive(entries, sectionEnd, claimed, index);
      var address := entries[index].address;
      if claimed.Some? && address < claimed.value.1 {
        boundaries := boundaries + [Boundary(Some(claimed.value.0), address)];
        continue;
      }
      var end :=
        if entries[index].size != 0 then SaturatingAdd(address, entries[index].size)
        else if nextGreater[index].Some? then nextGreater[index].value else sectionEnd;
      claimed := Some((index, end));
      boundaries := boundaries + [Boundary(None, end)];
    }
    EveryBoundIs(entries, sectionEnd);
  }
}
