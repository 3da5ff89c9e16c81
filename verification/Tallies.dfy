/**
Counting the values a function takes on a finite set of positions.

`Tally(S, f)` is the count map the source builds when it walks a neighbour set
in ascending order and increments one counter per colour.
*/
module Tallies {

  /** How often each value of `f` occurs over the positions of `S` below `k`. */
  function TallyTo<T>(S: set<nat>, f: seq<T>, k: nat): multiset<T>
    requires k <= |f|
  {
    if k == 0 then multiset{}
    else TallyTo(S, f, k - 1) + (if k - 1 in S then multiset{f[k - 1]} else multiset{})
  }

  /** How often each value of `f` occurs over the positions of `S`. */
  function Tally<T>(S: set<nat>, f: seq<T>): multiset<T> {
    TallyTo(S, f, |f|)
  }

  ghost predicate Within(S: set<nat>, n: nat) {
    forall p :: p in S ==> p < n
  }

  lemma {:induction false} TallyToUnaffected<T>(S: set<nat>, R: set<nat>, f: seq<T>, k: nat)
    requires k <= |f|
    requires forall p :: p < k ==> (p in S <==> p in R)
    ensures TallyTo(S, f, k) == TallyTo(R, f, k)
  {
    if k == 0 {
    } else {
      TallyToUnaffected(S, R, f, k - 1);
    }
  }

  lemma TallyGains<T>(S: set<nat>, R: set<nat>, f: seq<T>, k: nat)
    requires 0 < k <= |f| && k - 1 in S && k - 1 !in R && TallyTo(S, f, k - 1) == TallyTo(R, f, k - 1)
    ensures TallyTo(S, f, k) == TallyTo(R, f, k) + multiset{f[k - 1]}
  {
    assert TallyTo(R, f, k) == TallyTo(R, f, k - 1);
  }

  lemma TallyKeepsGain<T>(S: set<nat>, R: set<nat>, f: seq<T>, k: nat, x: T)
    requires 0 < k <= |f| && (k - 1 in S <==> k - 1 in R)
    requires TallyTo(S, f, k - 1) == TallyTo(R, f, k - 1) + multiset{x}
    ensures TallyTo(S, f, k) == TallyTo(R, f, k) + multiset{x}
  {
    MovedOut(TallyTo(S, f, k - 1), TallyTo(R, f, k - 1), x, if k - 1 in S then multiset{f[k - 1]} else multiset{});
  }

  lemma MovedOut<T>(all: multiset<T>, most: multiset<T>, x: T, more: multiset<T>)
    requires all == most + multiset{x}
    ensures all + more == most + more + multiset{x}
  {
  }

  lemma {:induction false} TallyToRemove<T>(S: set<nat>, f: seq<T>, k: nat, p: nat)
    requires p in S && p < k <= |f|
    ensures TallyTo(S, f, k) == TallyTo(S - {p}, f, k) + multiset{f[p]}
  {
    if p == k - 1 {
      TallyToUnaffected(S, S - {p}, f, p);
      TallyGains(S, S - {p}, f, k);
    } else {
      TallyToRemove(S, f, k - 1, p);
      TallyKeepsGain(S, S - {p}, f, k, f[p]);
    }
  }

  lemma TallyRemove<T>(S: set<nat>, f: seq<T>, p: nat)
    requires p in S && p < |f|
    ensures Tally(S, f) == Tally(S - {p}, f) + multiset{f[p]}
  {
    TallyToRemove(S, f, |f|, p);
  }

  lemma {:induction false} TallyToWitness<T>(S: set<nat>, f: seq<T>, k: nat, x: T) returns (p: nat)
    requires k <= |f| && x in TallyTo(S, f, k)
    ensures p in S && p < k && f[p] == x
  {
    if k - 1 in S && f[k - 1] == x {
      p := k - 1;
    } else {
      p := TallyToWitness(S, f, k - 1, x);
    }
  }

  /** A value is tallied exactly when some position of the set carries it. */
  lemma TallyWitness<T>(S: set<nat>, f: seq<T>, x: T) returns (p: nat)
    requires x in Tally(S, f)
    ensures p in S && p < |f| && f[p] == x
  {
    p := TallyToWitness(S, f, |f|, x);
  }

  lemma {:induction false} TallyEmpty<T>(S: set<nat>, f: seq<T>, k: nat)
    requires k <= |f| && S == {}
    ensures TallyTo(S, f, k) == multiset{}
  {
    if k == 0 {
    } else {
      TallyEmpty(S, f, k - 1);
    }
  }

  lemma {:induction false} TallySize<T>(S: set<nat>, f: seq<T>)
    requires Within(S, |f|)
    ensures |Tally(S, f)| == |S|
    decreases |S|
  {
    if S == {} {
      TallyEmpty(S, f, |f|);
    } else {
      var p :| p in S;
      TallyRemove(S, f, p);
      TallySize(S - {p}, f);
    }
  }

  /**
  Two position sets that tally alike under `f` and `g` also tally alike under `u`
  and `v` whenever equal `f`-and-`g` values force equal `u`-and-`v` values.
  */
  lemma {:induction false} TallyTransfer<T, U>(S: set<nat>, f: seq<T>, u: seq<U>,
                                               R: set<nat>, g: seq<T>, v: seq<U>)
    requires |f| == |u| && |g| == |v|
    requires Within(S, |f|) && Within(R, |g|)
    requires Tally(S, f) == Tally(R, g)
    requires forall p, q :: p in S && q in R && f[p] == g[q] ==> u[p] == v[q]
    ensures Tally(S, u) == Tally(R, v)
    decreases |S|
  {
    TallySize(S, f);
    TallySize(R, g);
    if S == {} {
      TallyEmpty(S, u, |u|);
      TallyEmpty(R, v, |v|);
    } else {
      var p :| p in S;
      TallyRemove(S, f, p);
      var q := TallyWitness(R, g, f[p]);
      TallyRemove(R, g, q);
      assert Tally(S - {p}, f) == Tally(S, f) - multiset{f[p]} == Tally(R - {q}, g);
      TallyTransfer(S - {p}, f, u, R - {q}, g, v);
      TallyRemove(S, u, p);
      TallyRemove(R, v, q);
    }
  }

  /**
  A bijection between two position sets that preserves values preserves tallies.
  */
  lemma {:induction false} TallyAlong<T>(S: set<nat>, f: seq<T>, R: set<nat>, g: seq<T>, move: seq<nat>)
    requires Within(S, |f|) && Within(R, |g|) && |move| == |f|
    requires forall p, q :: 0 <= p < q < |move| ==> move[p] != move[q]
    requires R == set p | p in S :: move[p]
    requires forall p :: p in S ==> move[p] in R && f[p] == g[move[p]]
    ensures Tally(S, f) == Tally(R, g)
    decreases |S|
  {
    if S == {} {
      TallyEmpty(S, f, |f|);
      TallyEmpty(R, g, |g|);
    } else {
      var p :| p in S;
      assert move[p] in R;
      assert R - {move[p]} == set q | q in S - {p} :: move[q];
      TallyAlong(S - {p}, f, R - {move[p]}, g, move);
      TallyRemove(S, f, p);
      TallyRemove(R, g, move[p]);
    }
  }

  /** A tally reads only the positions of its set. */
  lemma {:induction false} TallyToCongruent<T>(S: set<nat>, f: seq<T>, g: seq<T>, k: nat)
    requires k <= |f| == |g|
    requires forall p :: p in S && p < k ==> f[p] == g[p]
    ensures TallyTo(S, f, k) == TallyTo(S, g, k)
  {
    if k == 0 {
    } else {
      TallyToCongruent(S, f, g, k - 1);
    }
  }

  /** The members of `S` below `k`, in ascending order. */
  function AscendingTo(S: set<nat>, k: nat): seq<nat> {
    if k == 0 then []
    else AscendingTo(S, k - 1) + (if k - 1 in S then [k - 1] else [])
  }

  /** Ascending enumeration lists exactly the members, in strictly increasing order. */
  lemma {:induction false} AscendingToLists(S: set<nat>, k: nat)
    ensures forall p :: p in AscendingTo(S, k) <==> p in S && p < k
    ensures forall i, j :: 0 <= i < j < |AscendingTo(S, k)| ==> AscendingTo(S, k)[i] < AscendingTo(S, k)[j]
  {
    if k == 0 {
    } else {
      AscendingToLists(S, k - 1);
      var before := AscendingTo(S, k - 1);
      forall i | 0 <= i < |before|
        ensures before[i] < k - 1
      {
        assert before[i] in before;
      }
    }
  }

  lemma {:induction false} AscendingToEmpty(S: set<nat>, k: nat)
    requires forall p :: p in S ==> p >= k
    ensures AscendingTo(S, k) == []
  {
    if k == 0 {
    } else {
      AscendingToEmpty(S, k - 1);
    }
  }

  function Below(S: set<nat>, k: nat): set<nat> {
    set p | p in S && p < k
  }

  lemma {:induction false} AscendingToLength(S: set<nat>, k: nat)
    ensures |AscendingTo(S, k)| == |Below(S, k)|
  {
    if k == 0 {
      assert Below(S, k) == {};
    } else {
      AscendingToLength(S, k - 1);
      if k - 1 in S {
        assert Below(S, k) == Below(S, k - 1) + {k - 1};
      } else {
        assert Below(S, k) == Below(S, k - 1);
      }
    }
  }

  /** A member's index in the ascending enumeration is the number of smaller members. */
  lemma {:induction false} AscendingToIndex(S: set<nat>, k: nat, i: nat)
    requires i < |AscendingTo(S, k)|
    ensures |Below(S, AscendingTo(S, k)[i])| == i
  {
    if i < |AscendingTo(S, k - 1)| {
      AscendingToIndex(S, k - 1, i);
    } else {
      AscendingToLength(S, k - 1);
    }
  }

  /** The least member of a non-empty set, which ascending iteration yields first. */
  lemma {:induction false} Least(S: set<nat>) returns (least: nat)
    requires S != {}
    ensures least in S && forall p :: p in S ==> least <= p
    decreases |S|
  {
    var p :| p in S;
    assert forall q :: q in S ==> q == p || q in S - {p};
    if S - {p} != {} {
      var other := Least(S - {p});
      least := if p <= other then p else other;
    } else {
      least := p;
    }
  }
}
