/**
What being tied means in terms of the symbols, the roots and the calls alone: which
copies end with one colour, how ties are numbered, and what every record becomes.
*/
module Tied {
  import opened Bisimulation
  import opened CallGraph
  import opened Coarsest
  import opened Fingerprints
  import opened Identity
  import opened IdentityLaws
  import opened Numbering
  import opened Refinement
  import opened Tallies
  import opened Wrappers

  /** Some call of the list goes from `p` to `q`. */
  ghost predicate Calls(calls: seq<PositionalCall>, p: nat, q: nat) {
    exists call :: call in calls && call.caller == p && call.target == Some(q)
  }

  /** Some call of `p` is unresolved for this reason. */
  ghost predicate Lacks(calls: seq<PositionalCall>, p: nat, reason: UnresolvedCall) {
    exists call :: call in calls && call.caller == p && call.unresolved == Some(reason)
  }

  /** The graph holds exactly the edges and the reasons of the call list. */
  lemma GraphIs(n: nat, calls: seq<PositionalCall>, p: nat, q: nat)
    requires InRange(calls, n) && p < n && q < n
    ensures var graph := GraphOf(n, calls);
            && |graph.callers| == |graph.callees| == |graph.unresolved| == n
            && (p in graph.callers[q] <==> Calls(calls, p, q))
            && (q in graph.callees[p] <==> Calls(calls, p, q))
            && forall reason :: reason in graph.unresolved[p] <==> Lacks(calls, p, reason)
  {
    if p in CallersOf(calls, q) {
      var call :| call in calls && call.target == Some(q) && call.caller == p;
    }
    if q in CalleesOf(calls, p) {
      var call :| call in calls && call.caller == p && call.target.Some? && call.target.value == q;
      assert call.target == Some(q);
    }
    forall reason | reason in UnresolvedOf(calls, p)
      ensures Lacks(calls, p, reason)
    {
      var call :| call in calls && call.caller == p && call.unresolved.Some? && call.unresolved.value == reason;
      assert call.unresolved == Some(reason);
    }
  }

  /** Some other symbol has the fingerprint of symbol `p`. */
  ghost predicate HasCopy(symbols: seq<Symbol>, p: nat) {
    p < |symbols| && exists q: nat :: q < |symbols| && q != p && symbols[q].fingerprint == symbols[p].fingerprint
  }

  /** Two symbols start out alike: in content, reachability, size and body. */
  ghost predicate BeginAlike(symbols: seq<Symbol>, roots: set<nat>, p: nat, q: nat)
    requires p < |symbols| && q < |symbols|
  {
    && symbols[p].fingerprint == symbols[q].fingerprint
    && (symbols[p].exported || p in roots <==> symbols[q].exported || q in roots)
    && symbols[p].size == symbols[q].size
    && symbols[p].body == symbols[q].body
  }

  ghost predicate LackAlike(calls: seq<PositionalCall>, p: nat, q: nat) {
    forall reason :: Lacks(calls, p, reason) <==> Lacks(calls, q, reason)
  }

  ghost function Callers(n: nat, calls: seq<PositionalCall>, p: nat): set<nat> {
    set r: nat | r < n && Calls(calls, r, p)
  }

  ghost function Callees(n: nat, calls: seq<PositionalCall>, p: nat): set<nat> {
    set r: nat | r < n && Calls(calls, p, r)
  }

  /** The callers of `p` that carry a label. */
  ghost function CallersWith<T>(calls: seq<PositionalCall>, f: seq<T>, p: nat, mark: T): set<nat> {
    set r: nat | r < |f| && Calls(calls, r, p) && f[r] == mark
  }

  /** The callees of `p` that carry a label. */
  ghost function CalleesWith<T>(calls: seq<PositionalCall>, f: seq<T>, p: nat, mark: T): set<nat> {
    set r: nat | r < |f| && Calls(calls, p, r) && f[r] == mark
  }

  /** As many callers, and as many callees, of every label. */
  ghost predicate CountAlike<T(!new)>(calls: seq<PositionalCall>, f: seq<T>, p: nat, q: nat) {
    && (forall mark: T :: |CallersWith(calls, f, p, mark)| == |CallersWith(calls, f, q, mark)|)
    && forall mark: T :: |CalleesWith(calls, f, p, mark)| == |CalleesWith(calls, f, q, mark)|
  }

  /** Symbols with one label cannot be told apart by what they are, whom they call and who calls them. */
  ghost predicate Indistinct<T(!new)>(symbols: seq<Symbol>, roots: set<nat>, calls: seq<PositionalCall>, f: seq<T>) {
    && |f| == |symbols|
    && forall p, q :: 0 <= p < |f| && 0 <= q < |f| && p != q && f[p] == f[q] ==>
         BeginAlike(symbols, roots, p, q) && LackAlike(calls, p, q) && CountAlike(calls, f, p, q)
  }

  /** A tally counts the positions that carry a value. */
  lemma {:induction false} TallyCounts<T>(S: set<nat>, f: seq<T>, x: T)
    requires Within(S, |f|)
    ensures Tally(S, f)[x] == |(set r: nat | r in S && f[r] == x)|
    decreases |S|
  {
    var holders := set r: nat | r in S && f[r] == x;
    if S == {} {
      TallyEmpty(S, f, |f|);
      assert holders == {};
    } else {
      var p :| p in S;
      TallyRemove(S, f, p);
      TallyCounts(S - {p}, f, x);
      var others := set r: nat | r in S - {p} && f[r] == x;
      assert holders == if f[p] == x then others + {p} else others;
    }
  }

  lemma CallersCounted<T>(calls: seq<PositionalCall>, f: seq<T>, p: nat, mark: T)
    requires InRange(calls, |f|) && p < |f|
    ensures Within(GraphOf(|f|, calls).callers[p], |f|)
    ensures Tally(GraphOf(|f|, calls).callers[p], f)[mark] == |CallersWith(calls, f, p, mark)|
  {
    var S := GraphOf(|f|, calls).callers[p];
    GraphOfValid(|f|, calls);
    TallyCounts(S, f, mark);
    forall r: nat | r < |f|
      ensures r in S <==> Calls(calls, r, p)
    {
      GraphIs(|f|, calls, r, p);
    }
    assert (set r: nat | r in S && f[r] == mark) == CallersWith(calls, f, p, mark);
  }

  lemma CalleesCounted<T>(calls: seq<PositionalCall>, f: seq<T>, p: nat, mark: T)
    requires InRange(calls, |f|) && p < |f|
    ensures Within(GraphOf(|f|, calls).callees[p], |f|)
    ensures Tally(GraphOf(|f|, calls).callees[p], f)[mark] == |CalleesWith(calls, f, p, mark)|
  {
    var S := GraphOf(|f|, calls).callees[p];
    GraphOfValid(|f|, calls);
    TallyCounts(S, f, mark);
    forall r: nat | r < |f|
      ensures r in S <==> Calls(calls, p, r)
    {
      GraphIs(|f|, calls, p, r);
    }
    assert (set r: nat | r in S && f[r] == mark) == CalleesWith(calls, f, p, mark);
  }

  /** Counting neighbours by label is tallying them. */
  lemma CountsAreTallies<T(!new)>(calls: seq<PositionalCall>, f: seq<T>, p: nat, q: nat)
    requires InRange(calls, |f|) && p < |f| && q < |f|
    ensures var graph := GraphOf(|f|, calls);
            CountAlike(calls, f, p, q) <==>
              && Tally(graph.callers[p], f) == Tally(graph.callers[q], f)
              && Tally(graph.callees[p], f) == Tally(graph.callees[q], f)
  {
    forall mark: T
      ensures var graph := GraphOf(|f|, calls);
              && Tally(graph.callers[p], f)[mark] == |CallersWith(calls, f, p, mark)|
              && Tally(graph.callers[q], f)[mark] == |CallersWith(calls, f, q, mark)|
              && Tally(graph.callees[p], f)[mark] == |CalleesWith(calls, f, p, mark)|
              && Tally(graph.callees[q], f)[mark] == |CalleesWith(calls, f, q, mark)|
    {
      CallersCounted(calls, f, p, mark);
      CallersCounted(calls, f, q, mark);
      CalleesCounted(calls, f, p, mark);
      CalleesCounted(calls, f, q, mark);
    }
  }

  lemma LacksAreReasons(n: nat, calls: seq<PositionalCall>, p: nat, q: nat)
    requires InRange(calls, n) && p < n && q < n
    ensures LackAlike(calls, p, q) <==> GraphOf(n, calls).unresolved[p] == GraphOf(n, calls).unresolved[q]
  {
    GraphIs(n, calls, p, q);
    GraphIs(n, calls, q, p);
  }

  lemma BeginningsAreStarts(symbols: seq<Symbol>, roots: set<nat>, calls: seq<PositionalCall>, p: nat, q: nat)
    requires InRange(calls, |symbols|) && Parsed(symbols) && p < |symbols| && q < |symbols| && p != q
    ensures var X := InstanceOf(symbols, roots, calls);
            BeginAlike(symbols, roots, p, q) <==>
              X.start[p] == X.start[q] && p in X.copies && q in X.copies
    ensures var X := InstanceOf(symbols, roots, calls);
            X.start[p] == X.start[q] ==> p in X.copies && q in X.copies
  {
  }

  lemma AlikeIs<T(!new)>(symbols: seq<Symbol>, roots: set<nat>, calls: seq<PositionalCall>, f: seq<T>, p: nat, q: nat)
    requires InRange(calls, |symbols|) && Parsed(symbols) && InstanceOf(symbols, roots, calls).Valid()
    requires |f| == |symbols| && p < |f| && q < |f| && p != q
    ensures var X := InstanceOf(symbols, roots, calls);
            Alike(X, f, p, X, f, q) <==>
              BeginAlike(symbols, roots, p, q) && LackAlike(calls, p, q) && CountAlike(calls, f, p, q)
  {
    BeginningsAreStarts(symbols, roots, calls, p, q);
    LacksAreReasons(|symbols|, calls, p, q);
    CountsAreTallies(calls, f, p, q);
  }

  /** A partition is stable exactly when its classes hold symbols that cannot be told apart. */
  lemma StableIsIndistinct<T(!new)>(symbols: seq<Symbol>, roots: set<nat>, calls: seq<PositionalCall>, f: seq<T>)
    requires InRange(calls, |symbols|) && Parsed(symbols)
    ensures Stable(InstanceOf(symbols, roots, calls), f) <==> Indistinct(symbols, roots, calls, f)
  {
    InstanceOfValid(symbols, roots, calls);
    var X := InstanceOf(symbols, roots, calls);
    if |f| == |symbols| {
      forall p, q | 0 <= p < |f| && 0 <= q < |f| && p != q
        ensures Alike(X, f, p, X, f, q) <==>
                  BeginAlike(symbols, roots, p, q) && LackAlike(calls, p, q) && CountAlike(calls, f, p, q)
      {
        AlikeIs(symbols, roots, calls, f, p, q);
      }
    }
  }

  /** Two symbols were given copy fingerprints of one colour. */
  ghost predicate Tied(after: seq<Symbol>, p: nat, q: nat) {
    && p < |after| && q < |after|
    && after[p].fingerprint.Copy? && after[q].fingerprint.Copy?
    && after[p].fingerprint.colour == after[q].fingerprint.colour
  }

  lemma NumberedTied(symbols: seq<Symbol>, copies: set<nat>, final: seq<Fingerprint>, p: nat, q: nat)
    requires |final| == |symbols| && Parsed(symbols) && p < |symbols| && q < |symbols|
    ensures Tied(Numbered(symbols, copies, final), p, q) <==> p in copies && q in copies && final[p] == final[q]
  {
    assert symbols[p].fingerprint.Backend() && symbols[q].fingerprint.Backend();
  }

  lemma TiedIs(symbols: seq<Symbol>, roots: set<nat>, calls: seq<PositionalCall>, p: nat, q: nat)
    requires InRange(calls, |symbols|) && Parsed(symbols) && p < |symbols| && q < |symbols|
    ensures var X := InstanceOf(symbols, roots, calls);
            && X.Valid()
            && (p in X.copies <==> HasCopy(symbols, p))
            && (Tied(Assigned(symbols, roots, calls), p, q) <==>
                  p in X.copies && q in X.copies && X.Final(p) == X.Final(q))
  {
    InstanceOfValid(symbols, roots, calls);
    var X := InstanceOf(symbols, roots, calls);
    NumberedTied(symbols, X.copies, X.FinalColours(), p, q);
  }

  /**
  Tied symbols have one content, reachability, size and body, the same reasons on
  their unresolved calls, and as many callers and callees.
  */
  lemma TiedAreAlike(symbols: seq<Symbol>, roots: set<nat>, calls: seq<PositionalCall>, p: nat, q: nat)
    requires InRange(calls, |symbols|) && Parsed(symbols) && p != q
    requires Tied(Assigned(symbols, roots, calls), p, q)
    ensures p < |symbols| && q < |symbols| && BeginAlike(symbols, roots, p, q) && LackAlike(calls, p, q)
    ensures |Callers(|symbols|, calls, p)| == |Callers(|symbols|, calls, q)|
    ensures |Callees(|symbols|, calls, p)| == |Callees(|symbols|, calls, q)|
  {
    TiedIs(symbols, roots, calls, p, q);
    InstanceOfSeparated(symbols, roots, calls);
    FinalSaysAlike(InstanceOf(symbols, roots, calls), p, q);
    BeginningsAreStarts(symbols, roots, calls, p, q);
    LacksAreReasons(|symbols|, calls, p, q);
    NeighboursAre(|symbols|, calls, p);
    NeighboursAre(|symbols|, calls, q);
  }

  lemma FinalSaysAlike(X: Instance, p: nat, q: nat)
    requires Separated(X) && p in X.copies && q in X.copies && X.Final(p) == X.Final(q)
    ensures X.start[p] == X.start[q] && X.graph.unresolved[p] == X.graph.unresolved[q]
    ensures |X.graph.callers[p]| == |X.graph.callers[q]| && |X.graph.callees[p]| == |X.graph.callees[q]|
  {
    var u := X.Rounds(X.StopAfter(X.Component(p), 0) - 1);
    SameBefore(X, p, q, u);
    TallySize(X.graph.callers[p], u);
    TallySize(X.graph.callers[q], u);
    TallySize(X.graph.callees[p], u);
    TallySize(X.graph.callees[q], u);
  }

  lemma NeighboursAre(n: nat, calls: seq<PositionalCall>, p: nat)
    requires InRange(calls, n) && p < n
    ensures GraphOf(n, calls).callers[p] == Callers(n, calls, p)
    ensures GraphOf(n, calls).callees[p] == Callees(n, calls, p)
  {
    GraphOfValid(n, calls);
    forall r: nat | r < n
      ensures r in GraphOf(n, calls).callers[p] <==> Calls(calls, r, p)
      ensures r in GraphOf(n, calls).callees[p] <==> Calls(calls, p, r)
    {
      GraphIs(n, calls, r, p);
      GraphIs(n, calls, p, r);
    }
  }

  /** Symbols that cannot be told apart are tied. */
  lemma IndistinctAreTied(symbols: seq<Symbol>, roots: set<nat>, calls: seq<PositionalCall>, f: seq<Label>, p: nat,
                          q: nat)
    requires InRange(calls, |symbols|) && Parsed(symbols) && Indistinct(symbols, roots, calls, f)
    requires p < |f| && q < |f| && p != q && f[p] == f[q]
    ensures Tied(Assigned(symbols, roots, calls), p, q)
  {
    StableIsIndistinct(symbols, roots, calls, f);
    TiedIs(symbols, roots, calls, p, q);
    var X := InstanceOf(symbols, roots, calls);
    assert BeginAlike(symbols, roots, p, q);
    assert StableTogether(X, p, q);
    StableTogetherAgrees(X, p, q);
  }

  /** Symbols that have copies, each calling the next or called by it. */
  ghost predicate Chain(symbols: seq<Symbol>, calls: seq<PositionalCall>, w: seq<nat>) {
    && w != []
    && (forall i :: 0 <= i < |w| ==> HasCopy(symbols, w[i]))
    && forall i :: 0 <= i < |w| - 1 ==> Calls(calls, w[i], w[i + 1]) || Calls(calls, w[i + 1], w[i])
  }

  lemma ChainIsWalk(symbols: seq<Symbol>, roots: set<nat>, calls: seq<PositionalCall>, w: seq<nat>)
    requires InRange(calls, |symbols|) && Parsed(symbols) && Chain(symbols, calls, w)
    ensures InstanceOf(symbols, roots, calls).Valid() && InstanceOf(symbols, roots, calls).Walk(w)
  {
    InstanceOfValid(symbols, roots, calls);
    var X := InstanceOf(symbols, roots, calls);
    forall i | 0 <= i < |w| - 1
      ensures X.Adjacent(w[i], w[i + 1])
    {
      assert HasCopy(symbols, w[i]) && HasCopy(symbols, w[i + 1]);
      GraphIs(|symbols|, calls, w[i], w[i + 1]);
      GraphIs(|symbols|, calls, w[i + 1], w[i]);
    }
  }

  /** Of two linked copies: they are tied exactly when some labelling cannot tell them apart. */
  lemma TiedExactly(symbols: seq<Symbol>, roots: set<nat>, calls: seq<PositionalCall>, w: seq<nat>)
    requires InRange(calls, |symbols|) && Parsed(symbols) && Chain(symbols, calls, w) && w[0] != w[|w| - 1]
    ensures Tied(Assigned(symbols, roots, calls), w[0], w[|w| - 1])
        <==> exists f: seq<Label> :: Indistinct(symbols, roots, calls, f) && f[w[0]] == f[w[|w| - 1]]
  {
    var p, q, X := w[0], w[|w| - 1], InstanceOf(symbols, roots, calls);
    assert HasCopy(symbols, p) && HasCopy(symbols, q);
    ChainIsWalk(symbols, roots, calls, w);
    assert X.Connected(p, q);
    TiedIs(symbols, roots, calls, p, q);
    InstanceOfSeparated(symbols, roots, calls);
    CoarsestPerComponent(X, p, q);
    if StableTogether(X, p, q) {
      var f: seq<Label> :| Stable(X, f) && p < |f| && q < |f| && f[p] == f[q];
      StableIsIndistinct(symbols, roots, calls, f);
    }
    if f: seq<Label> :| Indistinct(symbols, roots, calls, f) && f[p] == f[q] {
      StableIsIndistinct(symbols, roots, calls, f);
      assert StableTogether(X, p, q);
    }
  }

  /** The symbols tied with `p`, itself included. */
  ghost function Ties(after: seq<Symbol>, p: nat): set<nat> {
    set r: nat | r < |after| && Tied(after, p, r)
  }

  lemma TiesAre(symbols: seq<Symbol>, roots: set<nat>, calls: seq<PositionalCall>, p: nat)
    requires InRange(calls, |symbols|) && Parsed(symbols) && p < |symbols| && HasCopy(symbols, p)
    ensures var X := InstanceOf(symbols, roots, calls);
            && X.Valid() && p in X.copies
            && Ties(Assigned(symbols, roots, calls), p) == Group(X.copies, X.FinalColours(), X.FinalColours()[p])
  {
    TiedIs(symbols, roots, calls, p, p);
    var X := InstanceOf(symbols, roots, calls);
    NumberedTies(symbols, X.copies, X.FinalColours(), p);
  }

  lemma NumberedTies(symbols: seq<Symbol>, copies: set<nat>, final: seq<Fingerprint>, p: nat)
    requires |final| == |symbols| && Parsed(symbols) && p in copies && p < |symbols|
    ensures Ties(Numbered(symbols, copies, final), p) == Group(copies, final, final[p])
  {
    var ties, group := Ties(Numbered(symbols, copies, final), p), Group(copies, final, final[p]);
    forall r: nat
      ensures r in ties <==> r in group
    {
      if r < |symbols| {
        NumberedTied(symbols, copies, final, p, r);
      }
    }
  }

  /**
  Every record, written out: a symbol without a copy is unchanged. Any other is
  named by its old fingerprint, its colour and, when others are tied with it, how
  many of them come before it; it is then identified by order. It keeps the content
  it had on record, or else its old fingerprint, and every other field.
  */
  lemma RecordIs(symbols: seq<Symbol>, roots: set<nat>, calls: seq<PositionalCall>, p: nat)
    requires InRange(calls, |symbols|) && Parsed(symbols) && p < |symbols|
    ensures var (before, all) := (symbols[p], Assigned(symbols, roots, calls));
            var (after, ties) := (all[p], Ties(all, p));
            && |all| == |symbols|
            && (!HasCopy(symbols, p) ==> after == before)
            && (HasCopy(symbols, p) ==>
                  && after.fingerprint.Copy? && after.fingerprint.content == before.fingerprint
                  && after.fingerprint.number == (if |ties| > 1 then Some(|(set r | r in ties && r < p)|) else None)
                  && (after.identityByOrder <==> before.identityByOrder || |ties| > 1)
                  && after.content == (if before.content.Some? then before.content else Some(before.fingerprint))
                  && after.exported == before.exported && after.size == before.size
                  && after.body == before.body && after.rest == before.rest)
  {
    TiedIs(symbols, roots, calls, p, p);
    if HasCopy(symbols, p) {
      TiesAre(symbols, roots, calls, p);
      var X := InstanceOf(symbols, roots, calls);
      NumberIs(X.copies, X.FinalColours(), p);
    }
  }

  lemma NumberIs(copies: set<nat>, final: seq<Fingerprint>, p: nat)
    requires p < |final|
    ensures var ties := Group(copies, final, final[p]);
            Number(copies, final, p) == if |ties| > 1 then Some(|(set r | r in ties && r < p)|) else None
  {
    var ties := Group(copies, final, final[p]);
    assert Below(ties, p) == set r | r in ties && r < p;
  }

  /** Of two tied symbols the earlier one gets the smaller number, and both are identified by order. */
  lemma EarlierIsSmaller(symbols: seq<Symbol>, roots: set<nat>, calls: seq<PositionalCall>, p: nat, q: nat)
    requires InRange(calls, |symbols|) && Parsed(symbols) && p < q && Tied(Assigned(symbols, roots, calls), p, q)
    ensures var after := Assigned(symbols, roots, calls);
            && after[p].fingerprint.number.Some? && after[q].fingerprint.number.Some?
            && after[p].fingerprint.number.value < after[q].fingerprint.number.value
            && after[p].identityByOrder && after[q].identityByOrder
  {
    TiedIs(symbols, roots, calls, p, q);
    var X := InstanceOf(symbols, roots, calls);
    NumbersDiffer(X.copies, X.FinalColours(), p, q);
  }

  /** Reachability alone tells two copies apart. */
  lemma RootsTellApart(symbols: seq<Symbol>, roots: set<nat>, calls: seq<PositionalCall>, p: nat, q: nat)
    requires InRange(calls, |symbols|) && Parsed(symbols) && p < |symbols| && q < |symbols|
    requires !symbols[p].exported && !symbols[q].exported && p in roots && q !in roots
    ensures !Tied(Assigned(symbols, roots, calls), p, q)
  {
    if Tied(Assigned(symbols, roots, calls), p, q) {
      TiedAreAlike(symbols, roots, calls, p, q);
    }
  }
}
