/**
Refining per component and the whole-graph partition agree on artifacts made of
like parts, such as an archive that holds one object several times.
*/
module Symmetries {
  import opened Bisimulation
  import opened Coarsest
  import opened Embeddings
  import opened Refinement
  import opened Sequences

  /** The symbol at `p` and the one it moves to start alike, and a copy's unresolved calls and edges move along. */
  ghost predicate MovesAlong(X: Instance, move: seq<nat>, p: nat)
    requires X.Valid() && p < |move| == X.Size() && move[p] < X.Size()
  {
    && X.start[p] == X.start[move[p]]
    && (p in X.copies <==> move[p] in X.copies)
    && (p in X.copies ==>
          && X.graph.unresolved[p] == X.graph.unresolved[move[p]]
          && X.graph.callers[move[p]] == Image(move, X.graph.callers[p])
          && X.graph.callees[move[p]] == Image(move, X.graph.callees[p]))
  }

  /** A rearrangement of the symbols that keeps start colours, unresolved calls and edges. */
  ghost predicate Symmetry(X: Instance, move: seq<nat>) {
    && X.Valid() && |move| == X.Size() && Distinct(move)
    && (forall p :: 0 <= p < |move| ==> move[p] < |move|)
    && forall p :: 0 <= p < |move| ==> MovesAlong(X, move, p)
  }

  /** Some symmetry moves a copy of `p`'s component into that of `q`. */
  ghost predicate Matched(X: Instance, p: nat, q: nat)
    requires X.Valid()
  {
    exists move, r :: Symmetry(X, move) && r in X.Component(p) && move[r] in X.Component(q)
  }

  lemma MovedAlike(X: Instance, move: seq<nat>, p: nat)
    requires Symmetry(X, move) && p < |move|
    ensures Alike(X, OldLabels(|move|), p, X, NewLabels(move, |move|), move[p])
  {
    assert MovesAlong(X, move, p);
    if p in X.copies {
      LabelsFollow(move, |move|, |move|);
      TalliesFollow(X.graph, X.graph, OldLabels(|move|), NewLabels(move, |move|), move, p);
    }
  }

  lemma SymmetryIsBisimulation(X: Instance, move: seq<nat>)
    requires Symmetry(X, move)
    ensures Bisimilar(X, OldLabels(|move|), X, NewLabels(move, |move|))
  {
    var f, g := OldLabels(|move|), NewLabels(move, |move|);
    forall p, q | 0 <= p < |f| && 0 <= q < |g| && f[p] == g[q]
      ensures Alike(X, f, p, X, g, q)
    {
      assert q == move[p];
      MovedAlike(X, move, p);
    }
  }

  /** Matched components show the same colours at every round. */
  lemma MatchedPalettes(X: Instance, p: nat, q: nat, t: nat)
    requires X.Valid() && p in X.copies && q in X.copies && Matched(X, p, q)
    ensures X.Palette(X.Component(p), t) == X.Palette(X.Component(q), t)
  {
    var move, r :| Symmetry(X, move) && r in X.Component(p) && move[r] in X.Component(q);
    SymmetryIsBisimulation(X, move);
    LabelsFollow(move, |move|, |move|);
    ComponentShared(X, p, r);
    ComponentShared(X, q, move[r]);
    PaletteAgrees(X, OldLabels(|move|), X, NewLabels(move, |move|), r, move[r], t);
  }

  /**
  A caller can rely on the whole-graph partition when symmetries match the
  components of copies that start alike, whether or not those are connected.
  */
  lemma CoarsestWhenLikeCopiesMatch(X: Instance)
    requires Separated(X)
    requires forall p, q :: p in X.copies && q in X.copies && X.start[p] == X.start[q] ==> Matched(X, p, q)
    ensures CoarsestOverall(X)
  {
    forall p, q | p in X.copies && q in X.copies && X.Final(p) == X.Final(q)
      ensures X.Palette(X.Component(p), X.StopAfter(X.Component(p), 0))
           == X.Palette(X.Component(q), X.StopAfter(X.Component(q), 0))
    {
      SameDepth(X, p, q);
      MatchedPalettes(X, p, q, X.StopAfter(X.Component(p), 0));
    }
    CoarsestOverallExactly(X);
  }

  /** A symmetry moves copies to copies that end with the same colour. */
  lemma MovedEndsAlike(X: Instance, move: seq<nat>, p: nat)
    requires Symmetry(X, move) && p in X.copies
    ensures move[p] in X.copies && X.Final(p) == X.Final(move[p])
  {
    SymmetryIsBisimulation(X, move);
    LabelsFollow(move, |move|, |move|);
    FinalAgrees(X, OldLabels(|move|), X, NewLabels(move, |move|), p, move[p]);
  }

  /** A symmetry matches each copy with the one it moves to. */
  lemma MovedIsMatched(X: Instance, move: seq<nat>, p: nat)
    requires Symmetry(X, move) && p in X.copies
    ensures Matched(X, p, move[p])
  {
    assert MovesAlong(X, move, p);
    ConnectedSelf(X, p);
    ConnectedSelf(X, move[p]);
  }

  /** Connected copies are matched, by moving nothing. */
  lemma ConnectedIsMatched(X: Instance, p: nat, q: nat)
    requires X.Valid() && p in X.copies && q in X.Component(p)
    ensures Matched(X, p, q)
  {
    var move := OldLabels(X.Size());
    forall r | 0 <= r < |move|
      ensures MovesAlong(X, move, r)
    {
      assert Image(move, X.graph.callers[r]) == X.graph.callers[r];
      assert Image(move, X.graph.callees[r]) == X.graph.callees[r];
    }
    ComponentShared(X, p, q);
    assert Symmetry(X, move) && p in X.Component(p) && move[p] in X.Component(q) by {
      ConnectedSelf(X, p);
    }
  }
}
