/**
Why final colours do not depend on where a copy sits.

A joint labelling of two instances is a counting bisimulation when symbols with
one label look alike: same starting colour, both copies or both not, and for
copies the same unresolved calls and the same number of callers and callees of
every label. Copies with one label then end with one final colour, although
each is refined within its own component and each component picks its own last
round. Agreement inside one artifact, invariance under reordering and
non-interference of unrelated symbols are all instances of `FinalAgrees`.
*/
module Bisimulation {
  import opened Refinement
  import opened Tallies

  ghost predicate Alike<T>(X: Instance, f: seq<T>, p: nat, Y: Instance, g: seq<T>, q: nat)
    requires X.Valid() && Y.Valid()
    requires p < |f| == X.Size() && q < |g| == Y.Size()
  {
    && X.start[p] == Y.start[q]
    && (p in X.copies <==> q in Y.copies)
    && (p in X.copies ==>
          && X.graph.unresolved[p] == Y.graph.unresolved[q]
          && Tally(X.graph.callers[p], f) == Tally(Y.graph.callers[q], g)
          && Tally(X.graph.callees[p], f) == Tally(Y.graph.callees[q], g))
  }

  ghost predicate Bisimilar<T>(X: Instance, f: seq<T>, Y: Instance, g: seq<T>) {
    && X.Valid() && Y.Valid()
    && |f| == X.Size() && |g| == Y.Size()
    && forall p, q :: 0 <= p < |f| && 0 <= q < |g| && f[p] == g[q] ==> Alike(X, f, p, Y, g, q)
  }

  lemma BisimilarSymmetric<T>(X: Instance, f: seq<T>, Y: Instance, g: seq<T>)
    requires Bisimilar(X, f, Y, g)
    ensures Bisimilar(Y, g, X, f)
  {
    forall q, p | 0 <= q < |g| && 0 <= p < |f| && g[q] == f[p]
      ensures Alike(Y, g, q, X, f, p)
    {
      assert Alike(X, f, p, Y, g, q);
    }
  }

  /** Equal labels mean equal colours after any number of rounds. */
  lemma {:induction false} RoundsAgree<T>(X: Instance, f: seq<T>, Y: Instance, g: seq<T>, t: nat, p: nat, q: nat)
    requires Bisimilar(X, f, Y, g)
    requires p < |f| && q < |g| && f[p] == g[q]
    ensures X.Rounds(t)[p] == Y.Rounds(t)[q]
    decreases t
  {
    assert Alike(X, f, p, Y, g, q);
    if t > 0 && p in X.copies {
      var u, v := X.Rounds(t - 1), Y.Rounds(t - 1);
      forall r, s | 0 <= r < |f| && 0 <= s < |g| && f[r] == g[s]
        ensures u[r] == v[s]
      {
        RoundsAgree(X, f, Y, g, t - 1, r, s);
      }
      TallyTransfer(X.graph.callers[p], f, u, Y.graph.callers[q], g, v);
      TallyTransfer(X.graph.callees[p], f, u, Y.graph.callees[q], g, v);
    } else if t > 0 {
      RoundsAgree(X, f, Y, g, t - 1, p, q);
    }
  }

  lemma TallyMember<T>(S: set<nat>, f: seq<T>, p: nat)
    requires p in S && p < |f|
    ensures f[p] in Tally(S, f)
  {
    TallyRemove(S, f, p);
  }

  /** A step between copies on one side has a step to an equal label on the other. */
  lemma StepLifts<T>(X: Instance, f: seq<T>, Y: Instance, g: seq<T>, p: nat, r: nat, q: nat) returns (s: nat)
    requires Bisimilar(X, f, Y, g)
    requires p < |f| && q < |g| && f[p] == g[q]
    requires X.Adjacent(p, r)
    ensures r < |f| && s < |g| && f[r] == g[s] && Y.Adjacent(q, s)
  {
    assert Alike(X, f, p, Y, g, q);
    if r in X.graph.callers[p] {
      TallyMember(X.graph.callers[p], f, r);
      s := TallyWitness(Y.graph.callers[q], g, f[r]);
    } else {
      TallyMember(X.graph.callees[p], f, r);
      s := TallyWitness(Y.graph.callees[q], g, f[r]);
    }
    assert Alike(X, f, r, Y, g, s);
  }

  /** A walk on one side lifts to the other, label by label. */
  lemma {:induction false} WalkLifts<T>(X: Instance, f: seq<T>, Y: Instance, g: seq<T>, w: seq<nat>, i: nat, q: nat)
      returns (s: nat)
    requires Bisimilar(X, f, Y, g)
    requires X.Walk(w) && i < |w|
    requires w[0] < |f| && q < |g| && f[w[0]] == g[q]
    ensures w[i] < |f| && s in Y.Component(q) && s < |g| && f[w[i]] == g[s]
  {
    assert Alike(X, f, w[0], Y, g, q);
    if i == 0 {
      s := q;
      ConnectedSelf(Y, q);
    } else {
      var before := WalkLifts(X, f, Y, g, w, i - 1, q);
      assert X.Adjacent(w[i - 1], w[i - 1 + 1]);
      s := StepLifts(X, f, Y, g, w[i - 1], w[i], before);
      ConnectedStep(Y, q, before, s);
    }
  }

  /** Every colour one component shows at a round, the other shows too. */
  lemma PaletteIncluded<T>(X: Instance, f: seq<T>, Y: Instance, g: seq<T>, p: nat, q: nat, t: nat)
    requires Bisimilar(X, f, Y, g)
    requires p < |f| && q < |g| && f[p] == g[q]
    ensures X.Palette(X.Component(p), t) <= Y.Palette(Y.Component(q), t)
  {
    forall colour | colour in X.Palette(X.Component(p), t)
      ensures colour in Y.Palette(Y.Component(q), t)
    {
      var r :| r in X.Component(p) && X.Rounds(t)[r] == colour;
      var w :| X.Walk(w) && w[0] == p && w[|w| - 1] == r;
      var s := WalkLifts(X, f, Y, g, w, |w| - 1, q);
      RoundsAgree(X, f, Y, g, t, r, s);
    }
  }

  lemma PaletteAgrees<T>(X: Instance, f: seq<T>, Y: Instance, g: seq<T>, p: nat, q: nat, t: nat)
    requires Bisimilar(X, f, Y, g)
    requires p < |f| && q < |g| && f[p] == g[q]
    ensures X.Palette(X.Component(p), t) == Y.Palette(Y.Component(q), t)
  {
    PaletteIncluded(X, f, Y, g, p, q, t);
    BisimilarSymmetric(X, f, Y, g);
    PaletteIncluded(Y, g, X, f, q, p, t);
  }

  /** Two components that show the same colours at every round stop at the same round. */
  lemma {:induction false} StopAgrees(X: Instance, K: set<nat>, Y: Instance, L: set<nat>, t: nat)
    requires X.Valid() && Y.Valid() && Within(K, X.Size()) && Within(L, Y.Size())
    requires forall u: nat :: X.Palette(K, u) == Y.Palette(L, u)
    ensures X.StopAfter(K, t) == Y.StopAfter(L, t)
    decreases |K| - |X.Palette(K, t)|
  {
    ColoursBound(K, X.Rounds(t));
    ColoursBound(K, X.Rounds(t + 1));
    if |X.Palette(K, t + 1)| > |X.Palette(K, t)| {
      StopAgrees(X, K, Y, L, t + 1);
    }
  }

  /** Copies with one label end with one colour, each at its own component's last round. */
  lemma FinalAgrees<T>(X: Instance, f: seq<T>, Y: Instance, g: seq<T>, p: nat, q: nat)
    requires Bisimilar(X, f, Y, g)
    requires p in X.copies && p < |f| && q < |g| && f[p] == g[q]
    ensures q in Y.copies
    ensures X.StopAfter(X.Component(p), 0) == Y.StopAfter(Y.Component(q), 0)
    ensures X.Final(p) == Y.Final(q)
  {
    assert Alike(X, f, p, Y, g, q);
    forall t: nat
      ensures X.Palette(X.Component(p), t) == Y.Palette(Y.Component(q), t)
    {
      PaletteAgrees(X, f, Y, g, p, q, t);
    }
    StopAgrees(X, X.Component(p), Y, Y.Component(q), 0);
    RoundsAgree(X, f, Y, g, X.StopAfter(X.Component(p), 0), p, q);
  }
}
