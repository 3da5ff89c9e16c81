/** The call graph of one parse: for each position, who calls it, whom it calls, and why calls of it are unresolved. */
module CallGraph {
  import opened Fingerprints
  import opened Tallies
  import opened Wrappers

  datatype Graph = Graph(callers: seq<set<nat>>, callees: seq<set<nat>>, unresolved: seq<set<UnresolvedCall>>)
  {
    /** One entry per symbol, edges between symbols, and each edge recorded from both ends. */
    ghost predicate Valid() {
      && |callers| == |callees| == |unresolved|
      && (forall p :: 0 <= p < |callers| ==> Within(callers[p], |callers|))
      && (forall p :: 0 <= p < |callees| ==> Within(callees[p], |callees|))
      && forall p, q :: 0 <= p < |callers| && 0 <= q < |callees| ==> (q in callers[p] <==> p in callees[q])
    }

    /** The colour the symbol at `position` takes next, given the colours all symbols have now. */
    function NextColour(position: nat, colours: seq<Fingerprint>): Fingerprint
      requires position < |callers| == |callees| == |unresolved| == |colours|
    {
      Round(colours[position], Tally(callers[position], colours), Tally(callees[position], colours),
            unresolved[position])
    }
  }

  predicate CallInRange(call: PositionalCall, n: nat) {
    call.caller < n && (call.target.Some? ==> call.target.value < n)
  }

  ghost predicate InRange(calls: seq<PositionalCall>, n: nat) {
    forall call :: call in calls ==> CallInRange(call, n)
  }

  ghost function CallersOf(calls: seq<PositionalCall>, p: nat): set<nat> {
    set call | call in calls && call.target == Some(p) :: call.caller
  }

  ghost function CalleesOf(calls: seq<PositionalCall>, p: nat): set<nat> {
    set call | call in calls && call.caller == p && call.target.Some? :: call.target.value
  }

  ghost function UnresolvedOf(calls: seq<PositionalCall>, p: nat): set<UnresolvedCall> {
    set call | call in calls && call.caller == p && call.unresolved.Some? :: call.unresolved.value
  }

  /** The graph a call list denotes: duplicates and order of the calls are gone. */
  ghost function GraphOf(n: nat, calls: seq<PositionalCall>): (g: Graph) {
    Graph(
      seq(n, p requires 0 <= p < n => CallersOf(calls, p)),
      seq(n, p requires 0 <= p < n => CalleesOf(calls, p)),
      seq(n, p requires 0 <= p < n => UnresolvedOf(calls, p)))
  }

  lemma GraphOfValid(n: nat, calls: seq<PositionalCall>)
    requires InRange(calls, n)
    ensures GraphOf(n, calls).Valid()
  {
    var g := GraphOf(n, calls);
    forall p, q | 0 <= p < n && 0 <= q < n
      ensures q in g.callers[p] <==> p in g.callees[q]
    {
      if q in g.callers[p] {
        var call :| call in calls && call.target == Some(p) && call.caller == q;
      }
      if p in g.callees[q] {
        var call :| call in calls && call.caller == q && call.target.Some? && call.target.value == p;
        assert call.target == Some(p);
      }
    }
  }

  /** `Graph::new`: one pass over the calls, inserting each into the neighbour sets. */
  method NewGraph(n: nat, calls: seq<PositionalCall>) returns (g: Graph)
    requires InRange(calls, n)
    ensures g == GraphOf(n, calls)
    ensures g.Valid()
  {
    var callers: seq<set<nat>> := seq(n, _ => {});
    var callees: seq<set<nat>> := seq(n, _ => {});
    var unresolved: seq<set<UnresolvedCall>> := seq(n, _ => {});
    for i := 0 to |calls|
      invariant |callers| == |callees| == |unresolved| == n
      invariant forall p :: 0 <= p < n ==> callers[p] == CallersOf(calls[..i], p)
      invariant forall p :: 0 <= p < n ==> callees[p] == CalleesOf(calls[..i], p)
      invariant forall p :: 0 <= p < n ==> unresolved[p] == UnresolvedOf(calls[..i], p)
    {
      var call := calls[i];
      assert CallInRange(call, n);
      assert calls[..i + 1] == calls[..i] + [call];
      if call.target.Some? {
        var target := call.target.value;
        callees := callees[call.caller := callees[call.caller] + {target}];
        callers := callers[target := callers[target] + {call.caller}];
      }
      if call.unresolved.Some? {
        unresolved := unresolved[call.caller := unresolved[call.caller] + {call.unresolved.value}];
      }
    }
    assert calls[..|calls|] == calls;
    g := Graph(callers, callees, unresolved);
    GraphOfValid(n, calls);
  }
}
