/** The worklist that splits the copies into components, and the loop that refines one of them. */
module Components {
  import opened Fingerprints
  import opened Refinement
  import opened Sequences
  import opened Tallies

  /** Ascending, disjoint lists that are exactly the weakly connected components of the copies. */
  ghost predicate ComponentList(X: Instance, components: seq<seq<nat>>)
    requires X.Valid()
  {
    && (forall i :: 0 <= i < |components| ==> IsComponent(X, components[i]))
    && (forall p :: p in X.copies ==> exists i :: 0 <= i < |components| && p in components[i])
    && forall i, j, p :: 0 <= i < j < |components| && p in components[i] ==> p !in components[j]
  }

  ghost predicate IsComponent(X: Instance, component: seq<nat>)
    requires X.Valid()
  {
    && (forall i, j :: 0 <= i < j < |component| ==> component[i] < component[j])
    && exists start :: start in component && (forall p :: p in component <==> p in X.Component(start))
  }

  function Members(list: seq<nat>): set<nat> {
    set p | p in list
  }

  /** The state of one component's search: everything met so far is connected to `start`. */
  ghost predicate Searching(X: Instance, start: nat, component: seq<nat>, pending: seq<nat>)
    requires X.Valid()
  {
    && Distinct(component) && Distinct(pending)
    && (forall p :: p in pending ==> p !in component)
    && (start in component || start in pending)
    && (forall p :: p in component ==> p in X.Component(start))
    && forall p :: p in pending ==> p in X.Component(start)
  }

  /** Visit one copy's neighbours, queueing those not seen before. */
  method Visit(X: Instance, ghost start: nat, position: nat, ghost component: seq<nat>, pending: seq<nat>,
               seen: set<nat>)
      returns (queue: seq<nat>, marked: set<nat>)
    requires X.Valid() && position in X.Component(start)
    requires Searching(X, start, component, pending)
    requires Members(component) + Members(pending) <= seen
    ensures Searching(X, start, component, queue)
    ensures pending <= queue
    ensures marked == seen + Members(queue)
    ensures forall q :: q in queue ==> q in pending || q !in seen
    ensures forall q: nat :: X.Adjacent(position, q) ==> q in marked
  {
    queue, marked := pending, seen;
    var neighbours := X.graph.callers[position] + X.graph.callees[position];
    for other := 0 to X.Size()
      invariant Searching(X, start, component, queue)
      invariant pending <= queue
      invariant marked == seen + Members(queue)
      invariant forall q :: q in queue ==> q in pending || q !in seen
      invariant forall q: nat :: X.Adjacent(position, q) && q < other ==> q in marked
    {
      if other in neighbours && other in X.copies && other !in marked {
        ConnectedStep(X, start, position, other);
        marked := marked + {other};
        queue := queue + [other];
      }
    }
  }

  /** What holds whenever the search of `start` takes its next position off the stack. */
  ghost predicate SearchState(X: Instance, start: nat, component: seq<nat>, pending: seq<nat>, seen: set<nat>,
                              marked: set<nat>)
    requires X.Valid()
  {
    && Searching(X, start, component, pending)
    && marked == seen + Members(component) + Members(pending)
    && (Members(component) + Members(pending)) !! seen
    && forall p, q: nat :: p in component && X.Adjacent(p, q) ==> q in component || q in pending
  }

  /** Take one copy off the stack and queue the neighbours not seen before. */
  method SearchStep(X: Instance, ghost start: nat, component: seq<nat>, pending: seq<nat>, ghost seen: set<nat>,
                    marked: set<nat>)
      returns (longer: seq<nat>, queue: seq<nat>, grown: set<nat>)
    requires X.Valid() && start in X.copies && X.Closed(seen) && pending != []
    requires SearchState(X, start, component, pending, seen, marked)
    ensures SearchState(X, start, longer, queue, seen, grown)
    ensures |longer| == |component| + 1
  {
    var position := pending[|pending| - 1];
    var rest := pending[..|pending| - 1];
    assert pending == rest + [position];
    longer := component + [position];
    assert Members(longer) == Members(component) + {position};
    queue, grown := Visit(X, start, position, longer, rest, marked);
    ComponentClosed(X, start);
    forall q: nat | X.Adjacent(position, q)
      ensures q in longer || q in queue
    {
      assert q !in seen;
    }
  }

  /** A list without repetitions is no longer than its set of members. */
  lemma {:induction false} DistinctLength(list: seq<nat>, S: set<nat>)
    requires Distinct(list) && forall p :: p in list ==> p in S
    ensures |list| <= |S|
    decreases |list|
  {
    if list == [] {
    } else {
      var last := list[|list| - 1];
      DistinctLength(list[..|list| - 1], S - {last});
    }
  }

  /** An empty stack means the component is complete. */
  lemma SearchEnds(X: Instance, start: nat, component: seq<nat>, seen: set<nat>, marked: set<nat>)
    requires X.Valid() && start in X.copies && SearchState(X, start, component, [], seen, marked)
    ensures Distinct(component)
    ensures Members(component) == X.Component(start)
    ensures marked == seen + X.Component(start)
  {
    assert X.Closed(Members(component));
    ComponentLeast(X, start, Members(component));
  }

  lemma SearchProgress(X: Instance, start: nat, component: seq<nat>, pending: seq<nat>, seen: set<nat>,
                       marked: set<nat>)
    requires X.Valid() && SearchState(X, start, component, pending, seen, marked)
    ensures |component| <= |X.Component(start)|
  {
    DistinctLength(component, X.Component(start));
  }

  /** The copies reachable from `start`, in the order the stack yields them. */
  method Search(X: Instance, start: nat, seen: set<nat>) returns (component: seq<nat>, marked: set<nat>)
    requires X.Valid() && start in X.copies && start !in seen && X.Closed(seen)
    ensures Distinct(component)
    ensures Members(component) == X.Component(start)
    ensures marked == seen + X.Component(start)
  {
    var pending := [start];
    component, marked := [], seen + {start};
    ghost var size := |X.Component(start)|;
    while pending != []
      invariant SearchState(X, start, component, pending, seen, marked)
      decreases size - |component|
    {
      component, pending, marked := SearchStep(X, start, component, pending, seen, marked);
      SearchProgress(X, start, component, pending, seen, marked);
    }
    SearchEnds(X, start, component, seen, marked);
  }

  /** Ascending, disjoint component lists that cover exactly the closed set `seen`. */
  ghost predicate Covers(X: Instance, components: seq<seq<nat>>, seen: set<nat>)
    requires X.Valid()
  {
    && X.Closed(seen)
    && (forall i :: 0 <= i < |components| ==> IsComponent(X, components[i]))
    && (forall p :: p in seen <==> exists i :: 0 <= i < |components| && p in components[i])
    && forall i, j, p :: 0 <= i < j < |components| && p in components[i] ==> p !in components[j]
  }

  lemma CoversMore(X: Instance, components: seq<seq<nat>>, seen: set<nat>, component: seq<nat>, start: nat)
    requires X.Valid() && Covers(X, components, seen) && IsComponent(X, component)
    requires start in X.copies && start !in seen && Members(component) == X.Component(start)
    ensures Covers(X, components + [component], seen + X.Component(start))
  {
    var longer := components + [component];
    ComponentClosed(X, start);
    ComponentApart(X, start, seen);
    forall p | p in seen + X.Component(start)
      ensures exists i :: 0 <= i < |longer| && p in longer[i]
    {
      if p in seen {
        var i :| 0 <= i < |components| && p in components[i];
        assert p in longer[i];
      } else {
        assert p in Members(component);
        assert p in longer[|components|];
      }
    }
    forall i, p | 0 <= i < |longer| && p in longer[i]
      ensures p in seen + X.Component(start)
    {
      assert i == |components| ==> p in Members(component);
    }
    forall i, p | 0 <= i < |components| && p in components[i]
      ensures p !in component
    {
      assert p in seen;
      assert p in component ==> p in Members(component);
    }
  }

  /** `components`: search from every copy not met yet, in ascending order. */
  method FindComponents(X: Instance) returns (components: seq<seq<nat>>)
    requires X.Valid()
    ensures ComponentList(X, components)
  {
    components := [];
    var seen: set<nat> := {};
    for start := 0 to X.Size()
      invariant forall p :: p in X.copies && p < start ==> p in seen
      invariant Covers(X, components, seen)
    {
      if start in X.copies && start !in seen {
        var found, marked := Search(X, start, seen);
        ConnectedSelf(X, start);
        var component := AscendingTo(Members(found), X.Size());
        AscendingToLists(Members(found), X.Size());
        assert Members(component) == X.Component(start);
        assert IsComponent(X, component) by {
          assert start in component;
        }
        CoversMore(X, components, seen, component, start);
        components := components + [component];
        seen := marked;
      }
    }
  }

  /** A component is disjoint from any closed set its start is not in. */
  lemma ComponentApart(X: Instance, start: nat, seen: set<nat>)
    requires X.Valid() && X.Closed(seen) && start in X.copies && start !in seen
    ensures X.Component(start) !! seen
  {
    if p :| p in X.Component(start) && p in seen {
      ComponentShared(X, start, p);
      ComponentLeast(X, p, seen);
      assert false;
    }
  }

  /** What one component's refinement reads: its own colours after `t` rounds and the fixed colours of non-copies. */
  ghost predicate InRound(X: Instance, K: set<nat>, t: nat, colours: seq<Fingerprint>)
    requires X.Valid() && K <= X.copies
  {
    && |colours| == X.Size()
    && (forall p :: p in K ==> colours[p] == X.Rounds(t)[p])
    && forall p :: 0 <= p < X.Size() && p !in X.copies ==> colours[p] == X.start[p]
  }

  lemma {:induction false} OthersKeepTheirColour(X: Instance, t: nat, p: nat)
    requires X.Valid() && p < X.Size() && p !in X.copies
    ensures X.Rounds(t)[p] == X.start[p]
  {
    if t == 0 {
    } else {
      OthersKeepTheirColour(X, t - 1, p);
    }
  }

  /** A closed set of copies refines as if the rest of the artifact moved along with it. */
  lemma NextRoundIsLocal(X: Instance, K: set<nat>, t: nat, colours: seq<Fingerprint>, p: nat)
    requires X.Valid() && X.Closed(K) && p in K && InRound(X, K, t, colours)
    ensures X.graph.NextColour(p, colours) == X.Rounds(t + 1)[p]
  {
    forall q | q in X.graph.callers[p] + X.graph.callees[p]
      ensures colours[q] == X.Rounds(t)[q]
    {
      if q in X.copies {
        assert X.Adjacent(p, q);
      } else {
        OthersKeepTheirColour(X, t, q);
      }
    }
    TallyToCongruent(X.graph.callers[p], colours, X.Rounds(t), X.Size());
    TallyToCongruent(X.graph.callees[p], colours, X.Rounds(t), X.Size());
  }

  /** The listed positions carry their goal colours. */
  ghost predicate Refined(component: seq<nat>, goal: seq<Fingerprint>, colours: seq<Fingerprint>) {
    forall p :: p in component && p < |goal| && p < |colours| ==> colours[p] == goal[p]
  }

  /** One round's colours for a component, computed before any of them is written back. */
  function NextColours(X: Instance, component: seq<nat>, colours: seq<Fingerprint>): seq<Fingerprint>
    requires |X.graph.callers| == |X.graph.callees| == |X.graph.unresolved| == |colours|
    requires forall i :: 0 <= i < |component| ==> component[i] < |colours|
  {
    seq(|component|, i requires 0 <= i < |component| => X.graph.NextColour(component[i], colours))
  }

  /** Writing one round's colours back takes the component one round further. */
  lemma RoundWritten(X: Instance, component: seq<nat>, t: nat, now: seq<Fingerprint>, after: seq<Fingerprint>)
    requires X.Valid() && X.Closed(Members(component)) && InRound(X, Members(component), t, now)
    requires |after| == |now|
    requires forall i :: 0 <= i < |component| ==> component[i] in Members(component)
    requires forall i :: 0 <= i < |component| ==> after[component[i]] == X.graph.NextColour(component[i], now)
    requires forall p :: 0 <= p < |now| && p !in component ==> after[p] == now[p]
    ensures InRound(X, Members(component), t + 1, after)
    ensures Colours(Members(component), after) == X.Palette(Members(component), t + 1)
  {
    forall p | p in Members(component)
      ensures after[p] == X.Rounds(t + 1)[p]
    {
      var i :| 0 <= i < |component| && component[i] == p;
      NextRoundIsLocal(X, Members(component), t, now, p);
    }
  }

  lemma StopHere(X: Instance, K: set<nat>, t: nat)
    requires X.Valid() && Within(K, X.Size())
    ensures |X.Palette(K, t + 1)| <= |K|
    ensures |X.Palette(K, t + 1)| <= |X.Palette(K, t)| ==> X.StopAfter(K, t) == t + 1
    ensures |X.Palette(K, t + 1)| > |X.Palette(K, t)| ==> X.StopAfter(K, t) == X.StopAfter(K, t + 1)
  {
    ColoursBound(K, X.Rounds(t + 1));
  }

  lemma RefinedAt(X: Instance, component: seq<nat>, t: nat, colours: seq<Fingerprint>)
    requires X.Valid() && IsComponent(X, component) && Members(component) <= X.copies
    requires X.StopAfter(Members(component), 0) == t && InRound(X, Members(component), t, colours)
    ensures Refined(component, X.FinalColours(), colours)
  {
    var start :| start in component && forall p :: p in component <==> p in X.Component(start);
    forall p | p in component
      ensures p in X.copies && colours[p] == X.Final(p)
    {
      assert p in Members(component);
      ComponentShared(X, start, p);
      assert Members(component) == X.Component(p);
    }
  }

  lemma ComponentListClosed(X: Instance, component: seq<nat>)
    requires X.Valid() && IsComponent(X, component)
    ensures X.Closed(Members(component)) && Distinct(component)
  {
    var start :| start in component && forall p :: p in component <==> p in X.Component(start);
    assert Members(component) == X.Component(start);
    ComponentClosed(X, start);
  }

  /** One synchronous round of a component, computed from the colours before it. */
  method RefineOnce(X: Instance, component: seq<nat>, ghost t: nat, colours: array<Fingerprint>)
    requires X.Valid() && X.Closed(Members(component)) && Distinct(component)
    requires InRound(X, Members(component), t, colours[..])
    modifies colours
    ensures InRound(X, Members(component), t + 1, colours[..])
    ensures Colours(Members(component), colours[..]) == X.Palette(Members(component), t + 1)
    ensures forall p :: 0 <= p < colours.Length && p !in component ==> colours[p] == old(colours[p])
  {
    var now := colours[..];
    assert forall i :: 0 <= i < |component| ==> component[i] in Members(component);
    var next := NextColours(X, component, now);
    Recolour(component, next, colours);
    RoundWritten(X, component, t, now, colours[..]);
  }

  /** `refine`: recolour one component in place, round by round, until no round adds a class. */
  method Refine(X: Instance, component: seq<nat>, colours: array<Fingerprint>)
    requires X.Valid() && IsComponent(X, component)
    requires Members(component) <= X.copies && InRound(X, Members(component), 0, colours[..])
    modifies colours
    ensures Refined(component, X.FinalColours(), colours[..])
    ensures forall p :: 0 <= p < colours.Length && p !in component ==> colours[p] == old(colours[p])
  {
    ComponentListClosed(X, component);
    var K := Members(component);
    assert Colours(K, colours[..]) == X.Palette(K, 0);
    var before := |Colours(K, colours[..])|;
    ghost var t := 0;
    while true
      invariant InRound(X, K, t, colours[..])
      invariant before == |X.Palette(K, t)|
      invariant X.StopAfter(K, t) == X.StopAfter(K, 0)
      invariant forall p :: 0 <= p < colours.Length && p !in component ==> colours[p] == old(colours[p])
      decreases |K| - before
    {
      RefineOnce(X, component, t, colours);
      StopHere(X, K, t);
      var after := |Colours(K, colours[..])|;
      if after <= before {
        RefinedAt(X, component, t + 1, colours[..]);
        break;
      }
      before := after;
      t := t + 1;
    }
  }

  /** Write one round's colours back. */
  method Recolour(component: seq<nat>, next: seq<Fingerprint>, colours: array<Fingerprint>)
    requires |next| == |component| && Distinct(component)
    requires forall i :: 0 <= i < |component| ==> component[i] < colours.Length
    modifies colours
    ensures forall i :: 0 <= i < |component| ==> colours[component[i]] == next[i]
    ensures forall p :: 0 <= p < colours.Length && p !in component ==> colours[p] == old(colours[p])
  {
    for i := 0 to |component|
      invariant forall j :: 0 <= j < i ==> colours[component[j]] == next[j]
      invariant forall p :: 0 <= p < colours.Length && p !in component ==> colours[p] == old(colours[p])
    {
      colours[component[i]] := next[i];
    }
  }
}
