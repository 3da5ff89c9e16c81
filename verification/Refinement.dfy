/**
Colour refinement as a mathematical object: an instance, its weakly connected
components of copies, the colours after each synchronous round, and the round
each component stops at.
*/
module Refinement {
  import opened CallGraph
  import opened Fingerprints
  import opened Tallies

  /** What refinement reads: the call graph, which symbols are copies, and the colours it starts from. */
  datatype Instance = Instance(graph: Graph, copies: set<nat>, start: seq<Fingerprint>) {
    function Size(): nat {
      |start|
    }

    ghost predicate Valid() {
      && graph.Valid()
      && |graph.callers| == |start|
      && Within(copies, |start|)
    }

    /** An edge, in either direction, between two copies. */
    predicate Adjacent(p: nat, q: nat)
      requires |graph.callers| == |graph.callees| == |start|
    {
      p in copies && q in copies && p < |start| && (q in graph.callers[p] || q in graph.callees[p])
    }

    ghost predicate Walk(w: seq<nat>)
      requires Valid()
    {
      && |w| > 0
      && w[0] in copies
      && forall i :: 0 <= i < |w| - 1 ==> Adjacent(w[i], w[i + 1])
    }

    ghost predicate Connected(p: nat, q: nat)
      requires Valid()
    {
      exists w: seq<nat> :: Walk(w) && w[0] == p && w[|w| - 1] == q
    }

    /** The copies some walk over copy-to-copy edges joins to `p`. */
    ghost function Component(p: nat): (component: set<nat>)
      requires Valid()
    {
      set q | q in copies && Connected(p, q)
    }

    /** A set of copies no copy-to-copy edge leaves. */
    ghost predicate Closed(K: set<nat>)
      requires Valid()
    {
      && K <= copies
      && forall p, q :: p in K && Adjacent(p, q) ==> q in K
    }

    /** The colours after one round in which every position of `K` moves at once. */
    ghost function Step(K: set<nat>, colours: seq<Fingerprint>): (next: seq<Fingerprint>)
      requires Valid() && |colours| == |start|
    {
      seq(|start|, p requires 0 <= p < |start| =>
        if p in K then graph.NextColour(p, colours) else colours[p])
    }

    /** The colours after `t` rounds in which every copy of the artifact moves at once. */
    ghost function Rounds(t: nat): (colours: seq<Fingerprint>)
      requires Valid()
    {
      if t == 0 then start else Step(copies, Rounds(t - 1))
    }

    /** The distinct colours on `K` after `t` rounds. */
    ghost function Palette(K: set<nat>, t: nat): set<Fingerprint>
      requires Valid() && Within(K, |start|)
    {
      Colours(K, Rounds(t))
    }

    /** The first round after `t` that does not add a class to `K`. */
    ghost function StopAfter(K: set<nat>, t: nat): (stop: nat)
      requires Valid() && Within(K, |start|)
      ensures stop > t
      decreases |K| - |Palette(K, t)|
    {
      ColoursBound(K, Rounds(t));
      ColoursBound(K, Rounds(t + 1));
      if |Palette(K, t + 1)| <= |Palette(K, t)| then t + 1 else StopAfter(K, t + 1)
    }

    /** The colour a copy ends with: its component's colours at that component's own last round. */
    ghost function Final(p: nat): Fingerprint
      requires Valid() && p in copies
    {
      Rounds(StopAfter(Component(p), 0))[p]
    }

    /** Final colours of copies, start colours of everything else. */
    ghost function FinalColours(): (final: seq<Fingerprint>)
      requires Valid()
    {
      seq(|start|, p requires 0 <= p < |start| => if p in copies then Final(p) else start[p])
    }
  }

  function Colours(K: set<nat>, colours: seq<Fingerprint>): set<Fingerprint>
    requires forall p :: p in K ==> p < |colours|
  {
    set p | p in K :: colours[p]
  }

  /** A set of positions carries at most one colour per position. */
  lemma {:induction false} ColoursBound(K: set<nat>, colours: seq<Fingerprint>)
    requires Within(K, |colours|)
    ensures |Colours(K, colours)| <= |K|
    decreases |K|
  {
    if K == {} {
    } else {
      var p :| p in K;
      ColoursBound(K - {p}, colours);
      assert Colours(K, colours) == Colours(K - {p}, colours) + {colours[p]};
    }
  }

  lemma ConnectedSelf(X: Instance, p: nat)
    requires X.Valid() && p in X.copies
    ensures X.Connected(p, p) && p in X.Component(p)
  {
    assert X.Walk([p]) && [p][0] == p;
  }

  lemma ConnectedStep(X: Instance, p: nat, q: nat, r: nat)
    requires X.Valid() && X.Connected(p, q) && X.Adjacent(q, r)
    ensures X.Connected(p, r)
  {
    var w :| X.Walk(w) && w[0] == p && w[|w| - 1] == q;
    var longer := w + [r];
    assert X.Walk(longer) && longer[0] == p && longer[|longer| - 1] == r;
  }

  lemma {:induction false} WalkStaysInside(X: Instance, K: set<nat>, w: seq<nat>, i: nat)
    requires X.Valid() && X.Closed(K) && X.Walk(w) && w[0] in K && i < |w|
    ensures w[i] in K
  {
    if i == 0 {
    } else {
      WalkStaysInside(X, K, w, i - 1);
      assert X.Adjacent(w[i - 1], w[i - 1 + 1]);
    }
  }

  /** A component is the least closed set of copies holding its start. */
  lemma ComponentLeast(X: Instance, p: nat, K: set<nat>)
    requires X.Valid() && X.Closed(K) && p in K
    ensures X.Component(p) <= K
  {
    forall q | q in X.Component(p)
      ensures q in K
    {
      var w :| X.Walk(w) && w[0] == p && w[|w| - 1] == q;
      WalkStaysInside(X, K, w, |w| - 1);
    }
  }

  lemma ComponentClosed(X: Instance, p: nat)
    requires X.Valid()
    ensures X.Closed(X.Component(p))
  {
    forall q, r | q in X.Component(p) && X.Adjacent(q, r)
      ensures r in X.Component(p)
    {
      ConnectedStep(X, p, q, r);
    }
  }

  lemma {:induction false} WalkReversed(X: Instance, w: seq<nat>, i: nat)
    requires X.Valid() && X.Walk(w) && i < |w|
    ensures w[i] in X.copies && X.Connected(w[i], w[0])
  {
    if i == 0 {
      ConnectedSelf(X, w[0]);
    } else {
      WalkReversed(X, w, i - 1);
      assert X.Adjacent(w[i - 1], w[i - 1 + 1]);
      var back :| X.Walk(back) && back[0] == w[i - 1] && back[|back| - 1] == w[0];
      var longer := [w[i]] + back;
      forall j | 0 <= j < |longer| - 1
        ensures X.Adjacent(longer[j], longer[j + 1])
      {
        if j > 0 {
          assert X.Adjacent(back[j - 1], back[j - 1 + 1]);
        }
      }
      assert X.Walk(longer) && longer[0] == w[i] && longer[|longer| - 1] == w[0];
    }
  }

  /** Connected copies have one and the same component. */
  lemma ComponentShared(X: Instance, p: nat, q: nat)
    requires X.Valid() && p in X.copies && q in X.Component(p)
    ensures p in X.Component(q) && X.Component(p) == X.Component(q)
  {
    var w :| X.Walk(w) && w[0] == p && w[|w| - 1] == q;
    WalkReversed(X, w, |w| - 1);
    ComponentClosed(X, p);
    ComponentClosed(X, q);
    ComponentLeast(X, p, X.Component(q));
    ComponentLeast(X, q, X.Component(p));
  }
}
