/**
A concrete artifact on which refining per component is coarser than the
whole-graph partition: one `x` calls its own `y`, two more `x` call a shared `y`.
*/
module LoneChain {
  import opened Bisimulation
  import opened CallGraph
  import opened Coarsest
  import opened Fingerprints
  import opened Identity
  import opened Refinement
  import opened Tallies
  import opened Wrappers

  const XSTART := Initial(Content("body", [0]), false, 1, None)
  const YSTART := Initial(Content("body", [1]), false, 1, None)

  /** Calls 0 -> 1, 2 -> 3 and 4 -> 3 among copies of `x` (0, 2, 4) and of `y` (1, 3). */
  const LONE_CHAIN := Instance(
    Graph([{}, {0}, {}, {2, 4}, {}], [{1}, {}, {3}, {}, {3}], [{}, {}, {}, {}, {}]),
    {0, 1, 2, 3, 4},
    [XSTART, YSTART, XSTART, YSTART, XSTART])

  const X := Symbol(Content("body", [0]), false, 1, None, None, false, 0)
  const Y := Symbol(Content("body", [1]), false, 1, None, None, false, 0)
  const SYMBOLS := [X, Y, X, Y, X]
  const CALLS := [PositionalCall(0, Some(1), None), PositionalCall(2, Some(3), None), PositionalCall(4, Some(3), None)]

  lemma EverySymbolIsACopy()
    ensures Copies(SYMBOLS) == {0, 1, 2, 3, 4}
  {
    assert SYMBOLS[0] == SYMBOLS[2] == SYMBOLS[4] && SYMBOLS[1] == SYMBOLS[3];
    assert Shared(SYMBOLS, 0) && Shared(SYMBOLS, 1) && Shared(SYMBOLS, 2) && Shared(SYMBOLS, 3) && Shared(SYMBOLS, 4);
  }

  lemma CallersOfTheChain()
    ensures CallersOf(CALLS, 0) == {} == CallersOf(CALLS, 2) == CallersOf(CALLS, 4)
    ensures CallersOf(CALLS, 1) == {0} && CallersOf(CALLS, 3) == {2, 4}
  {
    assert CALLS[0] in CALLS && CALLS[1] in CALLS && CALLS[2] in CALLS;
  }

  lemma CalleesOfTheChain()
    ensures CalleesOf(CALLS, 1) == {} == CalleesOf(CALLS, 3)
    ensures CalleesOf(CALLS, 0) == {1} && CalleesOf(CALLS, 2) == {3} == CalleesOf(CALLS, 4)
  {
    assert CALLS[0] in CALLS && CALLS[1] in CALLS && CALLS[2] in CALLS;
  }

  lemma GraphOfTheChain()
    ensures GraphOf(5, CALLS) == LONE_CHAIN.graph
  {
    CallersOfTheChain();
    CalleesOfTheChain();
    forall p: nat
      ensures UnresolvedOf(CALLS, p) == {}
    {
    }
    assert GraphOf(5, CALLS).callers == [{}, {0}, {}, {2, 4}, {}];
    assert GraphOf(5, CALLS).callees == [{1}, {}, {3}, {}, {3}];
    assert GraphOf(5, CALLS).unresolved == [{}, {}, {}, {}, {}];
  }

  /** Five symbols and three calls that a backend can hand over give this instance. */
  lemma TheChainArises()
    ensures InRange(CALLS, |SYMBOLS|) && Parsed(SYMBOLS)
    ensures InstanceOf(SYMBOLS, {}, CALLS) == LONE_CHAIN
  {
    EverySymbolIsACopy();
    GraphOfTheChain();
    assert InstanceOf(SYMBOLS, {}, CALLS).start == LONE_CHAIN.start;
  }

  lemma TallySingle<T>(f: seq<T>, p: nat)
    requires p < |f|
    ensures Tally({p}, f) == multiset{f[p]}
  {
    TallyRemove({p}, f, p);
    TallyEmpty({p} - {p}, f, |f|);
  }

  lemma WellFormed()
    ensures LONE_CHAIN.Valid() && Separated(LONE_CHAIN)
  {
  }

  lemma Components()
    ensures LONE_CHAIN.Valid()
    ensures LONE_CHAIN.Component(0) == {0, 1}
    ensures LONE_CHAIN.Component(2) == {2, 3, 4}
  {
    WellFormed();
    var X := LONE_CHAIN;
    ComponentLeast(X, 0, {0, 1});
    ComponentLeast(X, 2, {2, 3, 4});
    ConnectedSelf(X, 0);
    ConnectedSelf(X, 2);
    ConnectedStep(X, 0, 0, 1);
    ConnectedStep(X, 2, 2, 3);
    ConnectedStep(X, 2, 3, 4);
  }

  lemma CallersAfterOneRound()
    ensures LONE_CHAIN.Valid()
    ensures LONE_CHAIN.Rounds(1)[0] == LONE_CHAIN.Rounds(1)[2] == LONE_CHAIN.Rounds(1)[4]
  {
    WellFormed();
    var X := LONE_CHAIN;
    assert X.Rounds(0) == X.start;
    TallySingle(X.start, 1);
    TallySingle(X.start, 3);
    TallyEmpty({}, X.start, 5);
  }

  lemma PalettesBefore()
    ensures LONE_CHAIN.Valid()
    ensures |LONE_CHAIN.Palette({0, 1}, 0)| == 2 && |LONE_CHAIN.Palette({2, 3, 4}, 0)| == 2
  {
    WellFormed();
    var start := LONE_CHAIN.start;
    assert start[0] == start[2] == start[4] == XSTART && start[1] == start[3] == YSTART;
    assert Colours({0, 1}, start) == {XSTART, YSTART} == Colours({2, 3, 4}, start);
  }

  lemma PalettesAfter()
    ensures LONE_CHAIN.Valid()
    ensures |LONE_CHAIN.Palette({0, 1}, 1)| <= 2 && |LONE_CHAIN.Palette({2, 3, 4}, 1)| <= 2
  {
    CallersAfterOneRound();
    var next := LONE_CHAIN.Rounds(1);
    ColoursBound({0, 1}, next);
    assert |{0, 1}| == 2 && |{2, 3}| == 2;
    assert Colours({2, 3, 4}, next) == Colours({2, 3}, next);
    ColoursBound({2, 3}, next);
  }

  /** Both components stop after one round, with all three callers still alike. */
  lemma CallersStayAlike()
    ensures LONE_CHAIN.Valid()
    ensures LONE_CHAIN.Final(0) == LONE_CHAIN.Final(2)
  {
    WellFormed();
    Components();
    PalettesBefore();
    PalettesAfter();
    CallersAfterOneRound();
    assert LONE_CHAIN.StopAfter({0, 1}, 0) == 1 == LONE_CHAIN.StopAfter({2, 3, 4}, 0);
  }

  /** No stable partition keeps them together: the two callees have one caller and two. */
  lemma CallersMustSplit()
    ensures LONE_CHAIN.Valid()
    ensures !StableTogether(LONE_CHAIN, 0, 2)
  {
    var X := LONE_CHAIN;
    WellFormed();
    if StableTogether(X, 0, 2) {
      var f: seq<Label> :| Stable(X, f) && 2 < |f| && f[0] == f[2];
      assert Alike(X, f, 0, X, f, 2);
      TallySingle(f, 1);
      TallySingle(f, 3);
      assert f[1] in multiset{f[3]};
      assert Alike(X, f, 1, X, f, 3);
      TallySize(X.graph.callers[1], f);
      TallySize(X.graph.callers[3], f);
      assert false;
    }
  }

  /** So the final colours are not always the coarsest stable partition of the whole call graph. */
  lemma CoarsestOverallFails()
    ensures InRange(CALLS, |SYMBOLS|) && Parsed(SYMBOLS) && InstanceOf(SYMBOLS, {}, CALLS) == LONE_CHAIN
    ensures Separated(LONE_CHAIN) && !CoarsestOverall(LONE_CHAIN)
  {
    TheChainArises();
    WellFormed();
    CallersStayAlike();
    CallersMustSplit();
  }
}
