/**
Which debug frames each symbol falls into: an active-set sweep
under one shared budget, and the per-symbol query it stands for.
*/
module FrameSweep {
  import opened Wrappers

  /** A subprogram's address range, as the join reads it. */
  datatype Frame = Frame(begin: nat, end: nat) {
    predicate Covers(address: nat) {
      begin <= address < end
    }
  }

  /** An active frame: where it ends, then its index. */
  type Key = (nat, nat)

  predicate Before(a: Key, b: Key) {
    a.0 < b.0 || (a.0 == b.0 && a.1 < b.1)
  }

  /** The order a `BTreeSet` of keys iterates in. */
  ghost predicate Ordered(keys: seq<Key>) {
    forall i, j :: 0 <= i < j < |keys| ==> Before(keys[i], keys[j])
  }

  /** Insertion into an ordered set. */
  function Insert(keys: seq<Key>, key: Key): (more: seq<Key>)
    ensures forall k :: k in more <==> k == key || k in keys
  {
    if keys == [] || Before(key, keys[0]) then [key] + keys
    else if keys[0] == key then keys
    else
      assert keys == [keys[0]] + keys[1..];
      [keys[0]] + Insert(keys[1..], key)
  }

  lemma {:induction false} InsertOrdered(keys: seq<Key>, key: Key)
    requires Ordered(keys)
    ensures Ordered(Insert(keys, key))
  {
    if keys != [] && !Before(key, keys[0]) && keys[0] != key {
      var rest := Insert(keys[1..], key);
      InsertOrdered(keys[1..], key);
      forall j | 0 <= j < |rest|
        ensures Before(keys[0], rest[j])
      {
        assert rest[j] in rest;
      }
    }
  }

  /** Ordered lists of the same keys are the same list. */
  lemma {:induction false} OrderedUnique(a: seq<Key>, b: seq<Key>)
    requires Ordered(a) && Ordered(b)
    requires forall k :: k in a <==> k in b
    ensures a == b
  {
    assert b != [] ==> b[0] in b && b[0] in a;
    if a == [] {
    } else {
      assert a[0] in a && a[0] in b;
      assert forall k :: k in a[1..] <==> k in a && k != a[0] by {
        assert a == [a[0]] + a[1..];
      }
      assert forall k :: k in b[1..] <==> k in b && k != b[0] by {
        assert b == [b[0]] + b[1..];
      }
      OrderedUnique(a[1..], b[1..]);
      assert a == [a[0]] + a[1..] && b == [b[0]] + b[1..];
    }
  }

  /** The frames among the first `k` that cover `address`, in (end, index) order, found one by one. */
  function Cover(frames: seq<Frame>, address: nat, k: nat): (keys: seq<Key>)
    requires k <= |frames|
    ensures forall key :: key in keys <==> Covering(frames, address, k, key)
  {
    if k == 0 then []
    else if frames[k - 1].Covers(address) then Insert(Cover(frames, address, k - 1), (frames[k - 1].end, k - 1))
    else Cover(frames, address, k - 1)
  }

  predicate Covering(frames: seq<Frame>, address: nat, k: nat, key: Key)
    requires k <= |frames|
  {
    key.1 < k && frames[key.1].Covers(address) && key.0 == frames[key.1].end
  }

  lemma {:induction false} CoverOrdered(frames: seq<Frame>, address: nat, k: nat)
    requires k <= |frames|
    ensures Ordered(Cover(frames, address, k))
  {
    if k == 0 {
    } else {
      CoverOrdered(frames, address, k - 1);
      if frames[k - 1].Covers(address) {
        InsertOrdered(Cover(frames, address, k - 1), (frames[k - 1].end, k - 1));
      }
    }
  }

  function Indexes(keys: seq<Key>): (indexes: seq<nat>) {
    seq(|keys|, i requires 0 <= i < |keys| => keys[i].1)
  }

  /** How many frames cover each symbol address. */
  function Overlaps(frames: seq<Frame>, addresses: seq<nat>, i: nat): nat
    requires i < |addresses|
  {
    |Cover(frames, addresses[i], |frames|)|
  }

  function TotalOverlaps(frames: seq<Frame>, addresses: seq<nat>, k: nat): nat
    requires k <= |addresses|
  {
    if k == 0 then 0 else TotalOverlaps(frames, addresses, k - 1) + Overlaps(frames, addresses, k - 1)
  }

  /** What the shared budget has left once the first `k` symbols took their frames. */
  function Left(frames: seq<Frame>, addresses: seq<nat>, budget: nat, k: nat): (left: nat)
    requires k <= |addresses|
  {
    if k == 0 then budget
    else
      var before := Left(frames, addresses, budget, k - 1);
      before - Min(before, Overlaps(frames, addresses, k - 1))
  }

  /** One symbol's frames: as many of its cover as the budget still allows. */
  function Matched(frames: seq<Frame>, addresses: seq<nat>, budget: nat, i: nat): seq<nat>
    requires i < |addresses|
  {
    Indexes(Cover(frames, addresses[i], |frames|))
      [..Min(Left(frames, addresses, budget, i), Overlaps(frames, addresses, i))]
  }

  /** The budget is spent in symbol order, down to nothing and never below. */
  lemma {:induction false} LeftIs(frames: seq<Frame>, addresses: seq<nat>, budget: nat, k: nat)
    requires k <= |addresses|
    ensures Left(frames, addresses, budget, k)
         == if TotalOverlaps(frames, addresses, k) <= budget then budget - TotalOverlaps(frames, addresses, k) else 0
  {
    if k == 0 {
    } else {
      LeftIs(frames, addresses, budget, k - 1);
    }
  }

  function TotalMatched(frames: seq<Frame>, addresses: seq<nat>, budget: nat, k: nat): nat
    requires k <= |addresses|
  {
    if k == 0 then 0
    else TotalMatched(frames, addresses, budget, k - 1) + |Matched(frames, addresses, budget, k - 1)|
  }

  /** All lists together hold the whole join, or exactly the budget. */
  lemma {:induction false} BudgetIsKept(frames: seq<Frame>, addresses: seq<nat>, budget: nat, k: nat)
    requires k <= |addresses|
    ensures TotalMatched(frames, addresses, budget, k) == Min(budget, TotalOverlaps(frames, addresses, k))
    ensures TotalMatched(frames, addresses, budget, k) + Left(frames, addresses, budget, k) == budget
  {
    LeftIs(frames, addresses, budget, k);
    if k == 0 {
    } else {
      BudgetIsKept(frames, addresses, budget, k - 1);
    }
  }

  /** A larger budget only extends each symbol's list. */
  lemma LargerBudgetExtends(frames: seq<Frame>, addresses: seq<nat>, budget: nat, larger: nat, i: nat)
    requires i < |addresses| && budget <= larger
    ensures Matched(frames, addresses, budget, i) <= Matched(frames, addresses, larger, i)
  {
    LeftIs(frames, addresses, budget, i);
    LeftIs(frames, addresses, larger, i);
  }

  lemma {:induction false} TotalGrows(frames: seq<Frame>, addresses: seq<nat>, j: nat, k: nat)
    requires j <= k <= |addresses|
    ensures TotalOverlaps(frames, addresses, j) <= TotalOverlaps(frames, addresses, k)
  {
    if j == k {
    } else {
      TotalGrows(frames, addresses, j, k - 1);
    }
  }

  /** Without truncation a symbol's list is exactly the frames covering it. */
  lemma CompleteUnlessTruncated(frames: seq<Frame>, addresses: seq<nat>, budget: nat, i: nat, j: nat)
    requires i < |addresses| && j < |frames|
    requires TotalOverlaps(frames, addresses, |addresses|) <= budget
    ensures j in Matched(frames, addresses, budget, i) <==> frames[j].Covers(addresses[i])
  {
    var keys := Cover(frames, addresses[i], |frames|);
    LeftIs(frames, addresses, budget, i);
    TotalGrows(frames, addresses, i + 1, |addresses|);
    assert Matched(frames, addresses, budget, i) == Indexes(keys);
    if frames[j].Covers(addresses[i]) {
      assert (frames[j].end, j) in keys;
      var k :| 0 <= k < |keys| && keys[k] == (frames[j].end, j);
      assert Indexes(keys)[k] == j;
    }
    if j in Indexes(keys) {
      var k :| 0 <= k < |keys| && Indexes(keys)[k] == j;
      assert keys[k] in keys;
    }
  }

  /** Frames met so far that end past `address`. */
  ghost predicate Active(frames: seq<Frame>, active: seq<Key>, next: nat, address: nat) {
    && next <= |frames|
    && Ordered(active)
    && forall key :: key in active <==> key.1 < next && key.0 == frames[key.1].end && key.0 > address
  }

  ghost predicate SortedByBegin(frames: seq<Frame>) {
    forall i, j :: 0 <= i < j < |frames| ==> frames[i].begin <= frames[j].begin
  }

  /** Once every started frame is in and every ended one is out, the active set is the cover. */
  lemma ActiveIsCover(frames: seq<Frame>, active: seq<Key>, next: nat, address: nat)
    requires SortedByBegin(frames) && Active(frames, active, next, address)
    requires forall j :: 0 <= j < next ==> frames[j].begin <= address
    requires next < |frames| ==> frames[next].begin > address
    ensures active == Cover(frames, address, |frames|)
  {
    CoverOrdered(frames, address, |frames|);
    OrderedUnique(active, Cover(frames, address, |frames|));
  }

  /** Admit frames that start at or before `address`. */
  method Admit(frames: seq<Frame>, active: seq<Key>, next: nat, address: nat, ghost previous: nat)
      returns (more: seq<Key>, after: nat)
    requires Active(frames, active, next, previous) && previous <= address
    requires forall j :: 0 <= j < next ==> frames[j].begin <= address
    ensures next <= after <= |frames| && Ordered(more)
    ensures forall j :: 0 <= j < after ==> frames[j].begin <= address
    ensures after < |frames| ==> frames[after].begin > address
    ensures forall key :: key in more ==> key.1 < after && key.0 == frames[key.1].end
    ensures forall j :: 0 <= j < after && frames[j].end > address ==> (frames[j].end, j) in more
  {
    more, after := active, next;
    while after < |frames| && frames[after].begin <= address
      invariant next <= after <= |frames| && Ordered(more)
      invariant forall j :: 0 <= j < after ==> frames[j].begin <= address
      invariant forall key :: key in more ==> key.1 < after && key.0 == frames[key.1].end
      invariant forall j :: 0 <= j < after && frames[j].end > address ==> (frames[j].end, j) in more
    {
      InsertOrdered(more, (frames[after].end, after));
      more := Insert(more, (frames[after].end, after));
      after := after + 1;
    }
  }

  /** Drop frames that end at or before `address`: they are the first ones. */
  method Retire(keys: seq<Key>, address: nat) returns (active: seq<Key>)
    requires Ordered(keys)
    ensures Ordered(active)
    ensures forall key :: key in active <==> key in keys && key.0 > address
  {
    active := keys;
    while active != [] && active[0].0 <= address
      invariant Ordered(active)
      invariant forall key :: key in active ==> key in keys
      invariant forall key :: key in keys && key.0 > address ==> key in active
      decreases |active|
    {
      assert active == [active[0]] + active[1..];
      active := active[1..];
    }
    forall key | key in active
      ensures key.0 > address
    {
      var i :| 0 <= i < |active| && active[i] == key;
      assert i > 0 ==> Before(active[0], active[i]);
    }
  }

  /** What one symbol's list does to the budget and to the report. */
  lemma SpendOne(frames: seq<Frame>, addresses: seq<nat>, budget: nat, i: nat)
    requires i < |addresses|
    ensures var matched := |Matched(frames, addresses, budget, i)|;
            && matched <= Left(frames, addresses, budget, i)
            && Left(frames, addresses, budget, i + 1) == Left(frames, addresses, budget, i) - matched
            && (TotalOverlaps(frames, addresses, i + 1) > budget <==>
                  TotalOverlaps(frames, addresses, i) > budget || matched < Overlaps(frames, addresses, i))
  {
    LeftIs(frames, addresses, budget, i);
  }

  /** The frames whose range holds an address. */
  function FramesOver(frames: seq<Frame>, address: nat): set<nat> {
    set j: nat | j < |frames| && frames[j].begin <= address < frames[j].end
  }

  /** How many pairs of the first `k` addresses and the frames over them there are. */
  function JoinSize(frames: seq<Frame>, addresses: seq<nat>, k: nat): nat
    requires k <= |addresses|
  {
    if k == 0 then 0 else JoinSize(frames, addresses, k - 1) + |FramesOver(frames, addresses[k - 1])|
  }

  /** Frame `x` comes before frame `y`: it ends earlier, or as early and stands first. */
  ghost predicate EndsFirst(frames: seq<Frame>, x: nat, y: nat)
    requires x < |frames| && y < |frames|
  {
    frames[x].end < frames[y].end || (frames[x].end == frames[y].end && x < y)
  }

  /**
  What symbol `i` is given: the frames over its address that end first, in that
  order, as many as there are or the budget allows after the symbols before it.
  */
  ghost predicate Gets(frames: seq<Frame>, addresses: seq<nat>, budget: nat, i: nat, list: seq<nat>)
    requires i < |addresses|
  {
    var (over, spent) := (FramesOver(frames, addresses[i]), JoinSize(frames, addresses, i));
    && |list| == Min(|over|, if spent < budget then budget - spent else 0)
    && (forall m :: 0 <= m < |list| ==> list[m] in over)
    && (forall m, n :: 0 <= m < n < |list| ==> EndsFirst(frames, list[m], list[n]))
    && forall m, y :: 0 <= m < |list| && y in over && EndsFirst(frames, y, list[m]) ==> y in list
  }

  lemma {:induction false} InsertAddsOne(keys: seq<Key>, key: Key)
    requires key !in keys
    ensures |Insert(keys, key)| == |keys| + 1
  {
    if keys != [] && !Before(key, keys[0]) {
      InsertAddsOne(keys[1..], key);
    }
  }

  lemma {:induction false} CoverCounts(frames: seq<Frame>, address: nat, k: nat)
    requires k <= |frames|
    ensures |Cover(frames, address, k)| == |FramesOver(frames[..k], address)|
  {
    if k == 0 {
      assert FramesOver(frames[..0], address) == {};
    } else {
      CoverCounts(frames, address, k - 1);
      var before := FramesOver(frames[..k - 1], address);
      if frames[k - 1].Covers(address) {
        InsertAddsOne(Cover(frames, address, k - 1), (frames[k - 1].end, k - 1));
        assert FramesOver(frames[..k], address) == before + {k - 1};
      } else {
        assert FramesOver(frames[..k], address) == before;
      }
    }
  }

  lemma CoverIsOver(frames: seq<Frame>, address: nat)
    ensures |Cover(frames, address, |frames|)| == |FramesOver(frames, address)|
  {
    CoverCounts(frames, address, |frames|);
    assert frames[..|frames|] == frames;
  }

  lemma {:induction false} JoinIsOverlaps(frames: seq<Frame>, addresses: seq<nat>, k: nat)
    requires k <= |addresses|
    ensures JoinSize(frames, addresses, k) == TotalOverlaps(frames, addresses, k)
  {
    if k == 0 {
    } else {
      JoinIsOverlaps(frames, addresses, k - 1);
      CoverIsOver(frames, addresses[k - 1]);
    }
  }

  lemma FirstKeysAre(frames: seq<Frame>, address: nat, n: nat)
    requires n <= |Cover(frames, address, |frames|)|
    ensures var list := Indexes(Cover(frames, address, |frames|))[..n];
            && (forall m :: 0 <= m < |list| ==> list[m] in FramesOver(frames, address))
            && (forall m, k :: 0 <= m < k < |list| ==> EndsFirst(frames, list[m], list[k]))
            && forall m, y :: 0 <= m < |list| && y in FramesOver(frames, address) && EndsFirst(frames, y, list[m]) ==>
                 y in list
  {
    var keys := Cover(frames, address, |frames|);
    var list := Indexes(keys)[..n];
    CoverOrdered(frames, address, |frames|);
    forall m | 0 <= m < |list|
      ensures list[m] in FramesOver(frames, address) && keys[m] == (frames[list[m]].end, list[m])
    {
      assert keys[m] in keys;
    }
    forall m, y | 0 <= m < |list| && y in FramesOver(frames, address) && EndsFirst(frames, y, list[m])
      ensures y in list
    {
      assert (frames[y].end, y) in keys;
      var k :| 0 <= k < |keys| && keys[k] == (frames[y].end, y);
      assert list[k] == y;
    }
  }

  /** Each symbol's list, written out. */
  lemma MatchedExactly(frames: seq<Frame>, addresses: seq<nat>, budget: nat, i: nat)
    requires i < |addresses|
    ensures Gets(frames, addresses, budget, i, Matched(frames, addresses, budget, i))
  {
    var n := Min(Left(frames, addresses, budget, i), Overlaps(frames, addresses, i));
    LeftIs(frames, addresses, budget, i);
    JoinIsOverlaps(frames, addresses, i);
    CoverIsOver(frames, addresses[i]);
    FirstKeysAre(frames, addresses[i], n);
  }

  lemma EveryListIsWrittenOut(frames: seq<Frame>, addresses: seq<nat>, budget: nat, perSymbol: seq<seq<nat>>)
    requires |perSymbol| == |addresses|
    requires forall i :: 0 <= i < |addresses| ==> perSymbol[i] == Matched(frames, addresses, budget, i)
    ensures forall i :: 0 <= i < |addresses| ==> Gets(frames, addresses, budget, i, perSymbol[i])
    ensures JoinSize(frames, addresses, |addresses|) == TotalOverlaps(frames, addresses, |addresses|)
  {
    JoinIsOverlaps(frames, addresses, |addresses|);
    forall i | 0 <= i < |addresses|
      ensures Gets(frames, addresses, budget, i, perSymbol[i])
    {
      MatchedExactly(frames, addresses, budget, i);
    }
  }

  /** `frames_at_symbol_addresses`: one sweep over frames and symbols in address order. */
  method FramesAtSymbolAddresses(frames: seq<Frame>, addresses: seq<nat>, budget: nat)
      returns (perSymbol: seq<seq<nat>>, truncated: bool)
    requires SortedByBegin(frames)
    requires forall i, j :: 0 <= i < j < |addresses| ==> addresses[i] <= addresses[j]
    ensures |perSymbol| == |addresses|
    ensures forall i :: 0 <= i < |addresses| ==> perSymbol[i] == Matched(frames, addresses, budget, i)
    ensures truncated <==> TotalOverlaps(frames, addresses, |addresses|) > budget
    ensures forall i :: 0 <= i < |addresses| ==> Gets(frames, addresses, budget, i, perSymbol[i])
    ensures truncated <==> JoinSize(frames, addresses, |addresses|) > budget
  {
    var active: seq<Key> := [];
    var next, remaining := 0, budget;
    perSymbol, truncated := [], false;
    for i := 0 to |addresses|
      invariant |perSymbol| == i
      invariant forall j :: 0 <= j < i ==> perSymbol[j] == Matched(frames, addresses, budget, j)
      invariant Active(frames, active, next, if i == 0 then 0 else addresses[i - 1])
      invariant i == 0 ==> next == 0
      invariant i > 0 ==> forall j :: 0 <= j < next ==> frames[j].begin <= addresses[i - 1]
      invariant remaining == Left(frames, addresses, budget, i)
      invariant truncated <==> TotalOverlaps(frames, addresses, i) > budget
    {
      var address := addresses[i];
      var met, after := Admit(frames, active, next, address, if i == 0 then 0 else addresses[i - 1]);
      active := Retire(met, address);
      next := after;
      ActiveIsCover(frames, active, next, address);
      SpendOne(frames, addresses, budget, i);
      var matched := Indexes(active)[..Min(remaining, |active|)];
      truncated := truncated || |matched| < |active|;
      remaining := remaining - |matched|;
      perSymbol := perSymbol + [matched];
    }
    EveryListIsWrittenOut(frames, addresses, budget, perSymbol);
  }
}
