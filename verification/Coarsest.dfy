/**
What the final colours decide: within one component exactly the coarsest stable
partition, and across components exactly that when, and only when, components
that share one final colour share all of them.
*/
module Coarsest {
  import opened Bisimulation
  import opened Fingerprints
  import opened Refinement
  import opened Tallies

  /** A class of a partition: one final colour, or a symbol by itself. */
  datatype Label = Class(colour: Fingerprint) | Alone(position: nat)

  /**
  What identity assignment hands to refinement: copies start from `Initial`
  colours, the others keep backend identities no other symbol has.
  */
  ghost predicate Separated(X: Instance) {
    && X.Valid()
    && (forall p :: p in X.copies ==> X.start[p].Initial?)
    && (forall p :: 0 <= p < X.Size() && p !in X.copies ==> X.start[p].Backend())
    && forall p, q | 0 <= p < X.Size() && 0 <= q < X.Size() && p !in X.copies && q !in X.copies ::
         X.start[p] == X.start[q] ==> p == q
  }

  /** A labelling of one artifact's symbols whose classes no round of refinement splits. */
  ghost predicate Stable<T>(X: Instance, f: seq<T>) {
    Bisimilar(X, f, X, f)
  }

  /** Some stable partition of the whole call graph puts `p` and `q` together. */
  ghost predicate StableTogether(X: Instance, p: nat, q: nat) {
    exists f: seq<Label> :: Stable(X, f) && p < |f| && q < |f| && f[p] == f[q]
  }

  /** How many rounds a colour has folded in. */
  function Depth(colour: Fingerprint): nat {
    if colour.Round? then 1 + Depth(colour.own) else 0
  }

  /** The colour a chain of rounds started from. */
  function Origin(colour: Fingerprint): Fingerprint {
    if colour.Round? then Origin(colour.own) else colour
  }

  lemma {:induction false} RoundsShape(X: Instance, t: nat, p: nat)
    requires Separated(X) && p < X.Size()
    ensures p !in X.copies ==> X.Rounds(t)[p] == X.start[p]
    ensures p in X.copies ==> Depth(X.Rounds(t)[p]) == t && Origin(X.Rounds(t)[p]) == X.start[p]
    decreases t
  {
    if t == 0 {
    } else {
      RoundsShape(X, t - 1, p);
    }
  }

  lemma {:induction false} StopRound(X: Instance, K: set<nat>, t: nat)
    requires X.Valid() && Within(K, X.Size())
    ensures var last := X.StopAfter(K, t);
            last > t && |X.Palette(K, last)| <= |X.Palette(K, last - 1)|
    decreases |K| - |X.Palette(K, t)|
  {
    ColoursBound(K, X.Rounds(t));
    ColoursBound(K, X.Rounds(t + 1));
    if |X.Palette(K, t + 1)| > |X.Palette(K, t)| {
      StopRound(X, K, t + 1);
    }
  }

  /** Every round but the last adds a class, so a component needs few of them. */
  lemma {:induction false} SplittingRoundsBound(X: Instance, K: set<nat>, t: nat)
    requires X.Valid() && Within(K, X.Size())
    ensures X.StopAfter(K, t) - 1 - t <= |K| - |X.Palette(K, t)|
    decreases |K| - |X.Palette(K, t)|
  {
    ColoursBound(K, X.Rounds(t));
    ColoursBound(K, X.Rounds(t + 1));
    if |X.Palette(K, t + 1)| > |X.Palette(K, t)| {
      SplittingRoundsBound(X, K, t + 1);
    }
  }

  function Owns(P: set<Fingerprint>): set<Fingerprint>
    requires forall c :: c in P ==> c.Round?
  {
    set c | c in P :: c.own
  }

  lemma {:induction false} OwnsBound(P: set<Fingerprint>)
    requires forall c :: c in P ==> c.Round?
    ensures |Owns(P)| <= |P|
    decreases |P|
  {
    if P == {} {
    } else {
      var c :| c in P;
      OwnsBound(P - {c});
      assert Owns(P) == Owns(P - {c}) + {c.own};
    }
  }

  /** No fewer owns than colours means the own colour determines the colour. */
  lemma OwnsInjective(P: set<Fingerprint>, c: Fingerprint, d: Fingerprint)
    requires forall e :: e in P ==> e.Round?
    requires |P| <= |Owns(P)|
    requires c in P && d in P && c.own == d.own
    ensures c == d
  {
    if c != d {
      assert d in P - {c};
      assert Owns(P) == Owns(P - {c});
      OwnsBound(P - {c});
      assert false;
    }
  }

  lemma OwnsOfPalette(X: Instance, K: set<nat>, t: nat)
    requires X.Valid() && K <= X.copies
    ensures forall c :: c in X.Palette(K, t + 1) ==> c.Round?
    ensures Owns(X.Palette(K, t + 1)) == X.Palette(K, t)
  {
    var now, next := X.Rounds(t), X.Rounds(t + 1);
    assert forall p :: p in K ==> next[p].Round? && next[p].own == now[p];
    forall e | e in X.Palette(K, t)
      ensures e in Owns(X.Palette(K, t + 1))
    {
      var p :| p in K && now[p] == e;
      assert next[p] in X.Palette(K, t + 1);
    }
  }

  /** Where a round adds no class, the previous colour determines the next one. */
  lemma OwnDetermines(X: Instance, K: set<nat>, t: nat, c: Fingerprint, d: Fingerprint)
    requires X.Valid() && K <= X.copies
    requires |X.Palette(K, t + 1)| <= |X.Palette(K, t)|
    requires c in X.Palette(K, t + 1) && d in X.Palette(K, t + 1)
    requires c.Round? && d.Round? && c.own == d.own
    ensures c == d
  {
    OwnsOfPalette(X, K, t);
    OwnsInjective(X.Palette(K, t + 1), c, d);
  }

  /** On one component's last round, equal colours before it are equal colours after it. */
  lemma LastRoundSplitsNothing(X: Instance, p: nat, q: nat, r: nat, s: nat)
    requires X.Valid() && p in X.copies && q in X.copies
    requires r in X.Component(p) && s in X.Component(q)
    requires var last := X.StopAfter(X.Component(p), 0);
             && last == X.StopAfter(X.Component(q), 0)
             && X.Palette(X.Component(p), last) == X.Palette(X.Component(q), last)
             && X.Rounds(last - 1)[r] == X.Rounds(last - 1)[s]
    ensures X.Final(r) == X.Final(s)
  {
    var last := X.StopAfter(X.Component(p), 0);
    StopRound(X, X.Component(p), 0);
    ComponentShared(X, p, r);
    ComponentShared(X, q, s);
    OwnDetermines(X, X.Component(p), last - 1, X.Rounds(last)[r], X.Rounds(last)[s]);
  }

  /** The classes of final colours inside `K`; every other symbol is a class of its own. */
  ghost function FinalLabels(X: Instance, K: set<nat>): (f: seq<Label>)
    requires X.Valid() && K <= X.copies
  {
    seq(X.Size(), p requires 0 <= p < X.Size() => if p in K then Class(X.Final(p)) else Alone(p))
  }

  /** Components of `K` that share a final colour stop together on the same colours. */
  ghost predicate PalettesMatch(X: Instance, K: set<nat>)
    requires X.Valid() && K <= X.copies
  {
    forall p, q :: p in K && q in K && X.Final(p) == X.Final(q) ==>
      X.Palette(X.Component(p), X.StopAfter(X.Component(p), 0))
      == X.Palette(X.Component(q), X.StopAfter(X.Component(q), 0))
  }

  lemma SameDepth(X: Instance, p: nat, q: nat)
    requires Separated(X) && p in X.copies && q in X.copies
    ensures X.Final(p) == X.Final(q) ==>
              X.StopAfter(X.Component(p), 0) == X.StopAfter(X.Component(q), 0) && X.start[p] == X.start[q]
  {
    RoundsShape(X, X.StopAfter(X.Component(p), 0), p);
    RoundsShape(X, X.StopAfter(X.Component(q), 0), q);
  }

  /** Two neighbours with one colour before the last round carry one label. */
  lemma NeighboursLabelled(X: Instance, K: set<nat>, p: nat, q: nat, r: nat, s: nat)
    requires Separated(X) && X.Closed(K) && PalettesMatch(X, K)
    requires p in K && q in K && r < X.Size() && s < X.Size()
    requires r in X.copies ==> X.Adjacent(p, r)
    requires s in X.copies ==> X.Adjacent(q, s)
    ensures var before := X.Rounds(X.StopAfter(X.Component(p), 0) - 1);
            X.Final(p) == X.Final(q) && before[r] == before[s] ==> FinalLabels(X, K)[r] == FinalLabels(X, K)[s]
  {
    var last := X.StopAfter(X.Component(p), 0);
    if X.Final(p) == X.Final(q) && X.Rounds(last - 1)[r] == X.Rounds(last - 1)[s] {
      SameDepth(X, p, q);
      RoundsShape(X, last - 1, r);
      RoundsShape(X, last - 1, s);
      if r in X.copies && s in X.copies {
        ConnectedSelf(X, p);
        ConnectedSelf(X, q);
        ConnectedStep(X, p, p, r);
        ConnectedStep(X, q, q, s);
        LastRoundSplitsNothing(X, p, q, r, s);
      } else if r in X.copies {
        BackendIsNoColour(X.start[r], X.start[s], X.Rounds(last - 1)[r]);
      } else if s in X.copies {
        BackendIsNoColour(X.start[s], X.start[r], X.Rounds(last - 1)[s]);
      }
    }
  }

  lemma BackendIsNoColour(start: Fingerprint, other: Fingerprint, colour: Fingerprint)
    requires start.Initial? && other.Backend() && Origin(colour) == start
    ensures colour != other
  {
  }

  /** Whether positions of `R` and `S` alike under `u` are alike under `f`. */
  ghost predicate Carries<T, U>(u: seq<T>, f: seq<U>, R: set<nat>, S: set<nat>)
    requires |u| == |f| && Within(R, |u|) && Within(S, |u|)
  {
    forall r, s :: r in R && s in S && u[r] == u[s] ==> f[r] == f[s]
  }

  ghost predicate Neighbours(X: Instance, p: nat, R: set<nat>)
    requires X.Valid()
  {
    Within(R, X.Size()) && forall r :: r in R && r in X.copies ==> X.Adjacent(p, r)
  }

  lemma NeighboursAgree(X: Instance, K: set<nat>, p: nat, q: nat, R: set<nat>, S: set<nat>, u: seq<Fingerprint>,
                        f: seq<Label>)
    requires Separated(X) && X.Closed(K) && PalettesMatch(X, K)
    requires p in K && q in K
    requires Neighbours(X, p, R) && Neighbours(X, q, S)
    requires u == X.Rounds(X.StopAfter(X.Component(p), 0) - 1) && f == FinalLabels(X, K)
    ensures X.Final(p) == X.Final(q) ==> Carries(u, f, R, S)
  {
    if X.Final(p) == X.Final(q) {
      forall r, s | r in R && s in S && u[r] == u[s]
        ensures f[r] == f[s]
      {
        NeighboursLabelled(X, K, p, q, r, s);
      }
    }
  }

  /** What one final colour says about the colours before it. */
  lemma SameBefore(X: Instance, p: nat, q: nat, u: seq<Fingerprint>)
    requires Separated(X) && p in X.copies && q in X.copies
    requires u == X.Rounds(X.StopAfter(X.Component(p), 0) - 1)
    ensures X.Final(p) == X.Final(q) ==>
              && X.start[p] == X.start[q]
              && X.graph.unresolved[p] == X.graph.unresolved[q]
              && Tally(X.graph.callers[p], u) == Tally(X.graph.callers[q], u)
              && Tally(X.graph.callees[p], u) == Tally(X.graph.callees[q], u)
  {
    if X.Final(p) == X.Final(q) {
      SameDepth(X, p, q);
    }
  }

  lemma CarriedAlike(X: Instance, u: seq<Fingerprint>, f: seq<Label>, p: nat, q: nat)
    requires X.Valid() && p < X.Size() && q < X.Size() && |u| == |f| == X.Size()
    requires f[p] == f[q] && X.graph.unresolved[p] == X.graph.unresolved[q]
    requires X.start[p] == X.start[q] && (p in X.copies <==> q in X.copies)
    requires Tally(X.graph.callers[p], u) == Tally(X.graph.callers[q], u)
    requires Tally(X.graph.callees[p], u) == Tally(X.graph.callees[q], u)
    requires Carries(u, f, X.graph.callers[p], X.graph.callers[q])
    requires Carries(u, f, X.graph.callees[p], X.graph.callees[q])
    ensures Alike(X, f, p, X, f, q)
  {
    TallyTransfer(X.graph.callers[p], u, f, X.graph.callers[q], u, f);
    TallyTransfer(X.graph.callees[p], u, f, X.graph.callees[q], u, f);
  }

  lemma FinalAlike(X: Instance, K: set<nat>, p: nat, q: nat)
    requires Separated(X) && X.Closed(K) && PalettesMatch(X, K)
    requires p in K && q in K
    ensures X.Final(p) == X.Final(q) ==> Alike(X, FinalLabels(X, K), p, X, FinalLabels(X, K), q)
  {
    if X.Final(p) == X.Final(q) {
      var u, f := X.Rounds(X.StopAfter(X.Component(p), 0) - 1), FinalLabels(X, K);
      SameBefore(X, p, q, u);
      NeighboursAgree(X, K, p, q, X.graph.callers[p], X.graph.callers[q], u, f);
      NeighboursAgree(X, K, p, q, X.graph.callees[p], X.graph.callees[q], u, f);
      CarriedAlike(X, u, f, p, q);
    }
  }

  /** The final colours of a closed set of copies whose palettes match form a stable partition. */
  lemma FinalStable(X: Instance, K: set<nat>)
    requires Separated(X) && X.Closed(K) && PalettesMatch(X, K)
    ensures Stable(X, FinalLabels(X, K))
  {
    var f := FinalLabels(X, K);
    forall p, q | 0 <= p < |f| && 0 <= q < |f| && f[p] == f[q]
      ensures Alike(X, f, p, X, f, q)
    {
      if p in K {
        FinalAlike(X, K, p, q);
      }
    }
  }

  /** Agreement: a stable partition never separates what refinement gives one colour. */
  lemma StableTogetherAgrees(X: Instance, p: nat, q: nat)
    requires X.Valid() && p in X.copies && q in X.copies && StableTogether(X, p, q)
    ensures X.Final(p) == X.Final(q)
    ensures X.Palette(X.Component(p), X.StopAfter(X.Component(p), 0))
         == X.Palette(X.Component(q), X.StopAfter(X.Component(q), 0))
  {
    var f: seq<Label> :| Stable(X, f) && p < |f| && q < |f| && f[p] == f[q];
    FinalAgrees(X, f, X, f, p, q);
    PaletteAgrees(X, f, X, f, p, q, X.StopAfter(X.Component(p), 0));
  }

  /** Within a component the final colours are the coarsest stable partition of the whole graph. */
  lemma CoarsestPerComponent(X: Instance, p: nat, q: nat)
    requires Separated(X) && p in X.copies && q in X.Component(p)
    ensures X.Final(p) == X.Final(q) <==> StableTogether(X, p, q)
  {
    var K := X.Component(p);
    if X.Final(p) == X.Final(q) {
      ComponentClosed(X, p);
      ConnectedSelf(X, p);
      forall r, s | r in K && s in K && X.Final(r) == X.Final(s)
        ensures X.Component(r) == X.Component(s)
      {
        ComponentShared(X, p, r);
        ComponentShared(X, p, s);
      }
      FinalStable(X, K);
      var f := FinalLabels(X, K);
      assert Stable(X, f) && f[p] == f[q];
    }
    if StableTogether(X, p, q) {
      StableTogetherAgrees(X, p, q);
    }
  }

  /** The final colours decide the coarsest stable partition of the whole call graph. */
  ghost predicate CoarsestOverall(X: Instance)
    requires X.Valid()
  {
    forall p, q :: p in X.copies && q in X.copies ==> (X.Final(p) == X.Final(q) <==> StableTogether(X, p, q))
  }

  /**
  Refining per component meets the whole-graph partition exactly when components
  that share a final colour share all of their final colours.
  */
  lemma CoarsestOverallExactly(X: Instance)
    requires Separated(X)
    ensures CoarsestOverall(X) <==> PalettesMatch(X, X.copies)
  {
    if PalettesMatch(X, X.copies) {
      FinalStable(X, X.copies);
      var f := FinalLabels(X, X.copies);
      forall p, q | p in X.copies && q in X.copies
        ensures X.Final(p) == X.Final(q) <==> StableTogether(X, p, q)
      {
        if X.Final(p) == X.Final(q) {
          assert Stable(X, f) && f[p] == f[q];
        }
        if StableTogether(X, p, q) {
          StableTogetherAgrees(X, p, q);
        }
      }
    }
    if CoarsestOverall(X) {
      forall p, q | p in X.copies && q in X.copies && X.Final(p) == X.Final(q)
        ensures X.Palette(X.Component(p), X.StopAfter(X.Component(p), 0))
             == X.Palette(X.Component(q), X.StopAfter(X.Component(q), 0))
      {
        StableTogetherAgrees(X, p, q);
      }
    }
  }

  /**
  A caller can rely on the whole-graph partition when copies that start alike
  are connected; a single component of copies is the plainest case.
  */
  lemma CoarsestWhenLikeCopiesConnect(X: Instance)
    requires Separated(X)
    requires forall p, q :: p in X.copies && q in X.copies && X.start[p] == X.start[q] ==> q in X.Component(p)
    ensures CoarsestOverall(X)
  {
    forall p, q | p in X.copies && q in X.copies && X.Final(p) == X.Final(q)
      ensures X.Component(p) == X.Component(q)
    {
      SameDepth(X, p, q);
      ComponentShared(X, p, q);
    }
    assert PalettesMatch(X, X.copies);
    CoarsestOverallExactly(X);
  }
}
