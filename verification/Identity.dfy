/** `assign_identities`: the symbol list it ends with, and the method that arrives at it in place. */
module Identity {
  import opened CallGraph
  import opened Components
  import opened Coarsest
  import opened Fingerprints
  import opened Numbering
  import opened Refinement
  import opened Tallies
  import opened Wrappers

  /** The positions carrying one fingerprint. */
  function Holders(symbols: seq<Symbol>, f: Fingerprint): set<nat> {
    set p: nat | p < |symbols| && symbols[p].fingerprint == f
  }

  ghost predicate Shared(symbols: seq<Symbol>, p: nat)
    requires p < |symbols|
  {
    exists q: nat :: q < |symbols| && q != p && symbols[q].fingerprint == symbols[p].fingerprint
  }

  ghost function Copies(symbols: seq<Symbol>): set<nat> {
    set p: nat | p < |symbols| && Shared(symbols, p)
  }

  /** The colour refinement starts a symbol from: a copy's own facts, anyone else's content. */
  function StartColour(symbol: Symbol, copy: bool, rooted: bool): Fingerprint {
    if copy then Initial(symbol.fingerprint, symbol.exported || rooted, symbol.size, symbol.body)
    else symbol.fingerprint
  }

  ghost function InstanceOf(symbols: seq<Symbol>, roots: set<nat>, calls: seq<PositionalCall>): (X: Instance) {
    Instance(GraphOf(|symbols|, calls), Copies(symbols),
             seq(|symbols|, p requires 0 <= p < |symbols| =>
               StartColour(symbols[p], p in Copies(symbols), p in roots)))
  }

  lemma InstanceOfValid(symbols: seq<Symbol>, roots: set<nat>, calls: seq<PositionalCall>)
    requires InRange(calls, |symbols|)
    ensures InstanceOf(symbols, roots, calls).Valid()
  {
    GraphOfValid(|symbols|, calls);
  }

  /** Backend fingerprints, apart from the domains identity assignment hashes under. */
  ghost predicate Parsed(symbols: seq<Symbol>) {
    forall p :: 0 <= p < |symbols| ==> symbols[p].fingerprint.Backend()
  }

  lemma InstanceOfSeparated(symbols: seq<Symbol>, roots: set<nat>, calls: seq<PositionalCall>)
    requires InRange(calls, |symbols|) && Parsed(symbols)
    ensures Separated(InstanceOf(symbols, roots, calls))
  {
    InstanceOfValid(symbols, roots, calls);
  }

  /** The symbol list after identities are assigned. */
  ghost function Assigned(symbols: seq<Symbol>, roots: set<nat>, calls: seq<PositionalCall>): (after: seq<Symbol>)
    requires InRange(calls, |symbols|)
  {
    InstanceOfValid(symbols, roots, calls);
    Numbered(symbols, Copies(symbols), InstanceOf(symbols, roots, calls).FinalColours())
  }

  /** A positional call named by the fingerprints its symbols carry. */
  function NamedCall(symbols: seq<Symbol>, call: PositionalCall): ArtifactCall
    requires CallInRange(call, |symbols|)
  {
    ArtifactCall(symbols[call.caller].fingerprint,
                 if call.target.Some? then Some(symbols[call.target.value].fingerprint) else None,
                 call.unresolved)
  }

  ghost function NamedCalls(symbols: seq<Symbol>, calls: seq<PositionalCall>): (named: seq<ArtifactCall>)
    requires InRange(calls, |symbols|)
  {
    seq(|calls|, i requires 0 <= i < |calls| =>
      assert calls[i] in calls; NamedCall(symbols, calls[i]))
  }

  /** Positions by fingerprint, in file order, for the symbols before `k`. */
  ghost predicate SharingTo(symbols: seq<Symbol>, sharing: map<Fingerprint, seq<nat>>, k: nat) {
    && (forall q :: 0 <= q < k <= |symbols| ==> symbols[q].fingerprint in sharing)
    && forall f :: f in sharing ==> sharing[f] == AscendingTo(Holders(symbols, f), k)
  }

  lemma SharingMore(symbols: seq<Symbol>, sharing: map<Fingerprint, seq<nat>>, k: nat)
    requires k < |symbols| && SharingTo(symbols, sharing, k)
    ensures var f := symbols[k].fingerprint;
            SharingTo(symbols, sharing[f := (if f in sharing then sharing[f] else []) + [k]], k + 1)
  {
    var f := symbols[k].fingerprint;
    if f !in sharing {
      AscendingToEmpty(Holders(symbols, f), k);
    }
  }

  lemma SharingIsCopies(symbols: seq<Symbol>, sharing: map<Fingerprint, seq<nat>>, p: nat)
    requires SharingTo(symbols, sharing, |symbols|)
    ensures (exists f :: f in sharing && |sharing[f]| > 1 && p in sharing[f]) <==> p in Copies(symbols)
  {
    if f :| f in sharing && |sharing[f]| > 1 && p in sharing[f] {
      AscendingToLists(Holders(symbols, f), |symbols|);
      assert sharing[f][0] in sharing[f] && sharing[f][1] in sharing[f];
    }
    if p in Copies(symbols) {
      var f := symbols[p].fingerprint;
      var q: nat :| q < |symbols| && q != p && symbols[q].fingerprint == f;
      AscendingToLists(Holders(symbols, f), |symbols|);
      assert p in sharing[f] && q in sharing[f];
    }
  }

  /** The copies: every position whose fingerprint some other position shares. */
  method SharedPositions(symbols: seq<Symbol>) returns (copies: set<nat>)
    ensures copies == Copies(symbols)
  {
    var sharing: map<Fingerprint, seq<nat>> := map[];
    for p := 0 to |symbols|
      invariant SharingTo(symbols, sharing, p)
    {
      SharingMore(symbols, sharing, p);
      var f := symbols[p].fingerprint;
      sharing := sharing[f := (if f in sharing then sharing[f] else []) + [p]];
    }
    copies := set f, p | f in sharing && |sharing[f]| > 1 && p in sharing[f] :: p;
    forall p: nat
      ensures p in copies <==> p in Copies(symbols)
    {
      SharingIsCopies(symbols, sharing, p);
    }
  }

  /** The first `done` components carry their goal colours, everything else its start colour. */
  ghost predicate RefinedTo(components: seq<seq<nat>>, done: nat, start: seq<Fingerprint>, goal: seq<Fingerprint>,
                            colours: seq<Fingerprint>)
  {
    && |colours| == |start| == |goal|
    && forall p :: 0 <= p < |start| ==>
         colours[p] == if InFirst(components, done, p) then goal[p] else start[p]
  }

  ghost predicate InFirst(components: seq<seq<nat>>, done: nat, p: nat) {
    exists i :: 0 <= i < done && i < |components| && p in components[i]
  }

  /** A component not reached yet still carries its start colours. */
  lemma ReadyToRefine(X: Instance, components: seq<seq<nat>>, i: nat, colours: seq<Fingerprint>)
    requires X.Valid() && ComponentList(X, components) && i < |components|
    requires RefinedTo(components, i, X.start, X.FinalColours(), colours)
    ensures IsComponent(X, components[i]) && Members(components[i]) <= X.copies
    ensures InRound(X, Members(components[i]), 0, colours)
  {
  }

  lemma RefinedMore(components: seq<seq<nat>>, i: nat, start: seq<Fingerprint>, goal: seq<Fingerprint>,
                    before: seq<Fingerprint>, after: seq<Fingerprint>)
    requires i < |components| && RefinedTo(components, i, start, goal, before) && |after| == |before|
    requires Refined(components[i], goal, after)
    requires forall p :: 0 <= p < |after| && p !in components[i] ==> after[p] == before[p]
    ensures RefinedTo(components, i + 1, start, goal, after)
  {
    forall p | 0 <= p < |start|
      ensures after[p] == if InFirst(components, i + 1, p) then goal[p] else start[p]
    {
      assert InFirst(components, i + 1, p) <==> InFirst(components, i, p) || p in components[i];
    }
  }

  /** Refine the next component of the list. */
  method RefineNext(X: Instance, components: seq<seq<nat>>, i: nat, colours: array<Fingerprint>)
    requires X.Valid() && ComponentList(X, components) && i < |components|
    requires RefinedTo(components, i, X.start, X.FinalColours(), colours[..])
    modifies colours
    ensures RefinedTo(components, i + 1, X.start, X.FinalColours(), colours[..])
  {
    ghost var before := colours[..];
    ReadyToRefine(X, components, i, before);
    Refine(X, components[i], colours);
    RefinedMore(components, i, X.start, X.FinalColours(), before, colours[..]);
  }

  /** `refined_colours`: the final colour of every copy, one component at a time. */
  method RefinedColours(X: Instance) returns (final: seq<Fingerprint>)
    requires X.Valid()
    ensures final == X.FinalColours()
  {
    var components := FindComponents(X);
    var colours := new Fingerprint[|X.start|](p requires 0 <= p < |X.start| => X.start[p]);
    assert colours[..] == X.start;
    for i := 0 to |components|
      invariant RefinedTo(components, i, X.start, X.FinalColours(), colours[..])
    {
      RefineNext(X, components, i, colours);
    }
    final := colours[..];
    AllRefined(X, components, final);
  }

  lemma AllRefined(X: Instance, components: seq<seq<nat>>, colours: seq<Fingerprint>)
    requires X.Valid() && ComponentList(X, components)
    requires RefinedTo(components, |components|, X.start, X.FinalColours(), colours)
    ensures colours == X.FinalColours()
  {
    forall p | 0 <= p < X.Size()
      ensures colours[p] == X.FinalColours()[p]
    {
      if p in X.copies {
        assert InFirst(components, |components|, p);
      }
    }
  }

  /** The instance refinement runs on, from the graph and the copies already found. */
  function StartInstance(symbols: seq<Symbol>, roots: set<nat>, graph: Graph, copies: set<nat>): Instance {
    Instance(graph, copies,
             seq(|symbols|, p requires 0 <= p < |symbols| => StartColour(symbols[p], p in copies, p in roots)))
  }

  /**
  `assign_identities`: make every fingerprint unique, in place, and name the
  calls by the fingerprints the symbols end with.
  */
  method AssignIdentities(symbols: array<Symbol>, roots: set<nat>, calls: seq<PositionalCall>)
      returns (named: seq<ArtifactCall>)
    requires InRange(calls, symbols.Length)
    modifies symbols
    ensures symbols[..] == Assigned(old(symbols[..]), roots, calls)
    ensures named == NamedCalls(symbols[..], calls)
  {
    var before := symbols[..];
    var graph := NewGraph(symbols.Length, calls);
    var copies := SharedPositions(before);
    var X := StartInstance(before, roots, graph, copies);
    InstanceOfValid(before, roots, calls);
    assert X.start == InstanceOf(before, roots, calls).start;
    assert X == InstanceOf(before, roots, calls);
    var final := RefinedColours(X);
    NumberCopies(symbols, copies, final);
    named := NameCalls(symbols[..], calls);
  }

  method NameCalls(symbols: seq<Symbol>, calls: seq<PositionalCall>) returns (named: seq<ArtifactCall>)
    requires InRange(calls, |symbols|)
    ensures named == NamedCalls(symbols, calls)
  {
    named := [];
    for i := 0 to |calls|
      invariant named == NamedCalls(symbols, calls)[..i]
    {
      assert calls[i] in calls;
      named := named + [NamedCall(symbols, calls[i])];
    }
  }
}
