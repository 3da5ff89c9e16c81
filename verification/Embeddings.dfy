/**
One artifact inside another: symbols may be moved, and unrelated symbols with
fresh contents may be added, before, between or after the old ones. Old copies
then keep their colours, and keep their fingerprints as far as file order allows.
*/
module Embeddings {
  import opened Bisimulation
  import opened CallGraph
  import opened Coarsest
  import opened Fingerprints
  import opened Identity
  import opened IdentityLaws
  import opened Numbering
  import opened Refinement
  import opened Sequences
  import opened Tallies
  import opened Wrappers

  /** A parsed artifact, as identity assignment receives it. */
  datatype Parse = Parse(symbols: seq<Symbol>, roots: set<nat>, calls: seq<PositionalCall>) {
    ghost predicate Valid() {
      InRange(calls, |symbols|) && Parsed(symbols)
    }

    ghost function Instance(): Instance {
      InstanceOf(symbols, roots, calls)
    }

    ghost function Copied(): set<nat> {
      Copies(symbols)
    }

    ghost function Final(): (final: seq<Fingerprint>)
      requires Valid()
    {
      InstanceOfValid(symbols, roots, calls);
      Instance().FinalColours()
    }

    ghost function Assigned(): (after: seq<Symbol>)
      requires Valid()
    {
      Identity.Assigned(symbols, roots, calls)
    }
  }

  function MovedCall(move: seq<nat>, call: PositionalCall): PositionalCall
    requires CallInRange(call, |move|)
  {
    call.(caller := move[call.caller],
          target := if call.target.Some? then Some(move[call.target.value]) else None)
  }

  /** Old symbols appear unchanged at their new positions; all other symbols have fresh contents. */
  ghost predicate SymbolsEmbed(A: Parse, B: Parse, move: seq<nat>) {
    && |move| == |A.symbols| && Distinct(move)
    && (forall p :: 0 <= p < |move| ==> move[p] < |B.symbols| && B.symbols[move[p]] == A.symbols[p])
    && (forall p :: 0 <= p < |move| ==> (p in A.roots <==> move[p] in B.roots))
    && forall q, p :: 0 <= q < |B.symbols| && q !in move && 0 <= p < |A.symbols| ==>
         B.symbols[q].fingerprint != A.symbols[p].fingerprint
  }

  /** A call of the larger artifact that neither leaves nor enters an old copy. */
  ghost predicate SparesCopies(A: Parse, move: seq<nat>, call: PositionalCall)
    requires |move| == |A.symbols|
  {
    forall p :: 0 <= p < |move| && p in A.Copied() ==> call.caller != move[p] && call.target != Some(move[p])
  }

  /** Every old call is still there, and every other call spares the old copies. */
  ghost predicate CallsEmbed(A: Parse, B: Parse, move: seq<nat>)
    requires A.Valid() && |move| == |A.symbols|
  {
    && (forall call :: call in A.calls ==> CallInRange(call, |move|) && MovedCall(move, call) in B.calls)
    && forall call :: call in B.calls ==> IsMoved(A, move, call) || SparesCopies(A, move, call)
  }

  ghost predicate IsMoved(A: Parse, move: seq<nat>, call: PositionalCall)
    requires A.Valid() && |move| == |A.symbols|
  {
    exists source :: source in A.calls && CallInRange(source, |move|) && call == MovedCall(move, source)
  }

  ghost predicate Embeds(A: Parse, B: Parse, move: seq<nat>) {
    A.Valid() && B.Valid() && SymbolsEmbed(A, B, move) && CallsEmbed(A, B, move)
  }

  lemma CopiesMove(A: Parse, B: Parse, move: seq<nat>, p: nat)
    requires SymbolsEmbed(A, B, move) && p < |move|
    ensures p in A.Copied() <==> move[p] in B.Copied()
  {
    if p in A.Copied() {
      var q: nat :| q < |A.symbols| && q != p && A.symbols[q].fingerprint == A.symbols[p].fingerprint;
      assert move[q] != move[p] && B.symbols[move[q]].fingerprint == B.symbols[move[p]].fingerprint;
      assert Shared(B.symbols, move[p]);
    }
    if move[p] in B.Copied() {
      var r: nat :| r < |B.symbols| && r != move[p] && B.symbols[r].fingerprint == B.symbols[move[p]].fingerprint;
      assert r in move;
      var q :| 0 <= q < |move| && move[q] == r;
      assert Shared(A.symbols, p);
    }
  }

  ghost function Image(move: seq<nat>, S: set<nat>): set<nat>
    requires Within(S, |move|)
  {
    set p | p in S :: move[p]
  }

  lemma CallersMove(A: Parse, B: Parse, move: seq<nat>, p: nat)
    requires Embeds(A, B, move) && p in A.Copied()
    ensures Within(CallersOf(A.calls, p), |move|)
    ensures CallersOf(B.calls, move[p]) == Image(move, CallersOf(A.calls, p))
  {
    forall r | r in CallersOf(B.calls, move[p])
      ensures r in Image(move, CallersOf(A.calls, p))
    {
      var call :| call in B.calls && call.target == Some(move[p]) && call.caller == r;
      assert IsMoved(A, move, call);
      var source :| source in A.calls && CallInRange(source, |move|) && call == MovedCall(move, source);
      assert source.target == Some(p);
      assert source.caller in CallersOf(A.calls, p);
    }
    forall r | r in Image(move, CallersOf(A.calls, p))
      ensures r in CallersOf(B.calls, move[p])
    {
      var s :| s in CallersOf(A.calls, p) && move[s] == r;
      var call :| call in A.calls && call.target == Some(p) && call.caller == s;
      assert MovedCall(move, call) in B.calls;
    }
  }

  lemma CalleesMove(A: Parse, B: Parse, move: seq<nat>, p: nat)
    requires Embeds(A, B, move) && p in A.Copied()
    ensures Within(CalleesOf(A.calls, p), |move|)
    ensures CalleesOf(B.calls, move[p]) == Image(move, CalleesOf(A.calls, p))
  {
    forall call | call in A.calls
      ensures CallInRange(call, |move|)
    {
    }
    forall r | r in CalleesOf(B.calls, move[p])
      ensures r in Image(move, CalleesOf(A.calls, p))
    {
      var call :| call in B.calls && call.caller == move[p] && call.target.Some? && call.target.value == r;
      assert IsMoved(A, move, call);
      var source :| source in A.calls && CallInRange(source, |move|) && call == MovedCall(move, source);
      assert source.caller == p;
      assert source.target.value in CalleesOf(A.calls, p);
    }
    forall r | r in Image(move, CalleesOf(A.calls, p))
      ensures r in CalleesOf(B.calls, move[p])
    {
      var s :| s in CalleesOf(A.calls, p) && move[s] == r;
      var call :| call in A.calls && call.caller == p && call.target.Some? && call.target.value == s;
      assert MovedCall(move, call) in B.calls;
    }
  }

  lemma UnresolvedMove(A: Parse, B: Parse, move: seq<nat>, p: nat)
    requires Embeds(A, B, move) && p in A.Copied()
    ensures UnresolvedOf(B.calls, move[p]) == UnresolvedOf(A.calls, p)
  {
    forall reason | reason in UnresolvedOf(B.calls, move[p])
      ensures reason in UnresolvedOf(A.calls, p)
    {
      var call :| call in B.calls && call.caller == move[p] && call.unresolved == Some(reason);
      assert IsMoved(A, move, call);
      var source :| source in A.calls && CallInRange(source, |move|) && call == MovedCall(move, source);
      assert source.caller == p;
    }
    forall reason | reason in UnresolvedOf(A.calls, p)
      ensures reason in UnresolvedOf(B.calls, move[p])
    {
      var call :| call in A.calls && call.caller == p && call.unresolved == Some(reason);
      assert MovedCall(move, call) in B.calls;
    }
  }

  /** Label an old symbol by its old position, wherever it moved, and any other symbol by itself. */
  ghost function OldLabels(n: nat): (f: seq<nat>) {
    seq(n, p requires 0 <= p < n => p)
  }

  ghost function NewLabels(move: seq<nat>, n: nat): (g: seq<nat>) {
    seq(n, q requires 0 <= q < n => NewLabel(move, q))
  }

  ghost function NewLabel(move: seq<nat>, q: nat): nat {
    if q in move then (var p: nat :| p < |move| && move[p] == q; p) else |move| + q
  }

  lemma NewLabelOf(move: seq<nat>, p: nat)
    requires Distinct(move) && p < |move|
    ensures NewLabel(move, move[p]) == p
  {
  }

  lemma EmbeddingIsBisimulation(A: Parse, B: Parse, move: seq<nat>)
    requires Embeds(A, B, move)
    ensures Bisimilar(A.Instance(), OldLabels(|A.symbols|), B.Instance(), NewLabels(move, |B.symbols|))
  {
    InstanceOfValid(A.symbols, A.roots, A.calls);
    InstanceOfValid(B.symbols, B.roots, B.calls);
    var f, g := OldLabels(|A.symbols|), NewLabels(move, |B.symbols|);
    forall p, q | 0 <= p < |f| && 0 <= q < |g| && f[p] == g[q]
      ensures Alike(A.Instance(), f, p, B.Instance(), g, q)
    {
      assert q == move[p];
      EmbeddedAlike(A, B, move, p);
    }
  }

  lemma EmbeddedAlike(A: Parse, B: Parse, move: seq<nat>, p: nat)
    requires Embeds(A, B, move) && p < |move|
    requires A.Instance().Valid() && B.Instance().Valid()
    ensures Alike(A.Instance(), OldLabels(|A.symbols|), p, B.Instance(), NewLabels(move, |B.symbols|), move[p])
  {
    CopiesMove(A, B, move, p);
    if p in A.Copied() {
      LabelsFollow(move, |A.symbols|, |B.symbols|);
      CallersMove(A, B, move, p);
      CalleesMove(A, B, move, p);
      UnresolvedMove(A, B, move, p);
      var f, g := OldLabels(|A.symbols|), NewLabels(move, |B.symbols|);
      TalliesFollow(A.Instance().graph, B.Instance().graph, f, g, move, p);
    }
  }

  ghost predicate Follow(f: seq<nat>, g: seq<nat>, move: seq<nat>) {
    |f| == |move| && forall r :: 0 <= r < |move| ==> move[r] < |g| && f[r] == g[move[r]]
  }

  lemma LabelsFollow(move: seq<nat>, n: nat, m: nat)
    requires |move| == n && Distinct(move) && forall p :: 0 <= p < |move| ==> move[p] < m
    ensures Follow(OldLabels(n), NewLabels(move, m), move)
  {
    forall r | 0 <= r < |move|
      ensures OldLabels(n)[r] == NewLabels(move, m)[move[r]]
    {
      NewLabelOf(move, r);
    }
  }

  /** Neighbours that moved along are tallied alike. */
  lemma TalliesFollow(X: Graph, Y: Graph, f: seq<nat>, g: seq<nat>, move: seq<nat>, p: nat)
    requires Distinct(move) && Follow(f, g, move) && p < |move|
    requires |X.callers| == |X.callees| == |f| && |Y.callers| == |Y.callees| == |g|
    requires Within(X.callers[p], |move|) && Y.callers[move[p]] == Image(move, X.callers[p])
    requires Within(X.callees[p], |move|) && Y.callees[move[p]] == Image(move, X.callees[p])
    ensures Tally(X.callers[p], f) == Tally(Y.callers[move[p]], g)
    ensures Tally(X.callees[p], f) == Tally(Y.callees[move[p]], g)
  {
    TallyAlong(X.callers[p], f, Y.callers[move[p]], g, move);
    TallyAlong(X.callees[p], f, Y.callees[move[p]], g, move);
  }

  /** Old copies keep their final colours. */
  lemma ColoursMove(A: Parse, B: Parse, move: seq<nat>, p: nat)
    requires Embeds(A, B, move) && p < |move|
    ensures A.Final()[p] == B.Final()[move[p]]
  {
    CopiesMove(A, B, move, p);
    EmbeddingIsBisimulation(A, B, move);
    NewLabelOf(move, p);
    if p in A.Copied() {
      FinalAgrees(A.Instance(), OldLabels(|A.symbols|), B.Instance(), NewLabels(move, |B.symbols|), p, move[p]);
    }
  }

  /** A copy's final colour leads back to its content. */
  lemma ColourHoldsContent(A: Parse, p: nat)
    requires A.Valid() && p in A.Copied()
    ensures Origin(A.Final()[p]) == StartColour(A.symbols[p], true, p in A.roots)
  {
    InstanceOfSeparated(A.symbols, A.roots, A.calls);
    var X := A.Instance();
    RoundsShape(X, X.StopAfter(X.Component(p), 0), p);
  }

  /** The copies tied with an old copy are exactly the moved ones: nothing new joins the tie. */
  lemma GroupsMove(A: Parse, B: Parse, move: seq<nat>, p: nat)
    requires Embeds(A, B, move) && p in A.Copied()
    ensures var colour := A.Final()[p];
            && Within(Group(A.Copied(), A.Final(), colour), |move|)
            && Group(B.Copied(), B.Final(), colour) == Image(move, Group(A.Copied(), A.Final(), colour))
  {
    forall q | q in Group(B.Copied(), B.Final(), A.Final()[p])
      ensures q in move
    {
      TiedIsOld(A, B, move, p, q);
    }
    forall r | 0 <= r < |move|
      ensures (r in A.Copied() <==> move[r] in B.Copied()) && A.Final()[r] == B.Final()[move[r]]
    {
      CopiesMove(A, B, move, r);
      ColoursMove(A, B, move, r);
    }
    GroupImage(A.Copied(), A.Final(), B.Copied(), B.Final(), move, A.Final()[p]);
  }

  /** A copy tied with an old one has its content, so it is old too. */
  lemma TiedIsOld(A: Parse, B: Parse, move: seq<nat>, p: nat, q: nat)
    requires Embeds(A, B, move) && p in A.Copied() && q in Group(B.Copied(), B.Final(), A.Final()[p])
    ensures q in move
  {
    ColourHoldsContent(A, p);
    ColourHoldsContent(B, q);
    assert B.symbols[q].fingerprint == A.symbols[p].fingerprint;
  }

  lemma GroupImage(copies: set<nat>, final: seq<Fingerprint>, others: set<nat>, moved: seq<Fingerprint>,
                   move: seq<nat>, colour: Fingerprint)
    requires |final| == |move| && Within(copies, |move|)
    requires forall r :: 0 <= r < |move| ==> move[r] < |moved|
    requires forall r :: 0 <= r < |move| ==> (r in copies <==> move[r] in others) && final[r] == moved[move[r]]
    requires forall q :: q in Group(others, moved, colour) ==> q in move
    ensures Within(Group(copies, final, colour), |move|)
    ensures Group(others, moved, colour) == Image(move, Group(copies, final, colour))
  {
    forall q | q in Group(others, moved, colour)
      ensures q in Image(move, Group(copies, final, colour))
    {
      var r :| 0 <= r < |move| && move[r] == q;
      assert r in Group(copies, final, colour);
    }
  }

  lemma {:induction false} ImageSize(move: seq<nat>, S: set<nat>)
    requires Distinct(move) && Within(S, |move|)
    ensures |Image(move, S)| == |S|
    decreases |S|
  {
    if S == {} {
    } else {
      var p :| p in S;
      ImageSize(move, S - {p});
      assert Image(move, S) == Image(move, S - {p}) + {move[p]};
      assert move[p] !in Image(move, S - {p});
    }
  }

  ghost predicate Ascending(move: seq<nat>) {
    forall p, q :: 0 <= p < q < |move| ==> move[p] < move[q]
  }

  /** Moving a whole tie group keeps whether it is numbered, and the numbers too when order is kept. */
  lemma NumbersMove(copies: set<nat>, final: seq<Fingerprint>, others: set<nat>, moved: seq<Fingerprint>,
                    move: seq<nat>, p: nat)
    requires Distinct(move) && p < |move| == |final| && move[p] < |moved| && final[p] == moved[move[p]]
    requires Within(Group(copies, final, final[p]), |move|)
    requires Group(others, moved, final[p]) == Image(move, Group(copies, final, final[p]))
    ensures Number(others, moved, move[p]).Some? <==> Number(copies, final, p).Some?
    ensures Ascending(move) ==> Number(others, moved, move[p]) == Number(copies, final, p)
  {
    var group := Group(copies, final, final[p]);
    ImageSize(move, group);
    if Ascending(move) {
      assert Below(Image(move, group), move[p]) == Image(move, Below(group, p));
      ImageSize(move, Below(group, p));
    }
  }

  lemma AssignedIsNumbered(A: Parse, p: nat)
    requires A.Valid() && p < |A.symbols|
    ensures A.Assigned()[p] == NumberedSymbol(A.symbols, A.Copied(), A.Final(), p)
  {
  }

  lemma MovedNumbers(A: Parse, B: Parse, move: seq<nat>, p: nat)
    requires Embeds(A, B, move) && p < |move| && p in A.Copied()
    ensures move[p] in B.Copied() && A.Final()[p] == B.Final()[move[p]]
    ensures Number(B.Copied(), B.Final(), move[p]).Some? <==> Number(A.Copied(), A.Final(), p).Some?
    ensures Ascending(move) ==> Number(B.Copied(), B.Final(), move[p]) == Number(A.Copied(), A.Final(), p)
  {
    CopiesMove(A, B, move, p);
    ColoursMove(A, B, move, p);
    GroupsMove(A, B, move, p);
    NumbersMove(A.Copied(), A.Final(), B.Copied(), B.Final(), move, p);
  }

  /** Non-interference: with their relative order kept, old symbols keep their whole record. */
  lemma OldSymbolsKeepTheirIdentity(A: Parse, B: Parse, move: seq<nat>, p: nat)
    requires Embeds(A, B, move) && Ascending(move) && p < |move|
    ensures B.Assigned()[move[p]] == A.Assigned()[p]
  {
    AssignedIsNumbered(A, p);
    AssignedIsNumbered(B, move[p]);
    CopiesMove(A, B, move, p);
    if p in A.Copied() {
      MovedNumbers(A, B, move, p);
    }
  }

  /** Whatever the order, a copy its colour singles out keeps its record, and ties stay ties. */
  lemma OnlyNumbersDependOnOrder(A: Parse, B: Parse, move: seq<nat>, p: nat)
    requires Embeds(A, B, move) && p < |move|
    ensures p !in A.Copied() ==> B.Assigned()[move[p]] == A.Assigned()[p]
    ensures p in A.Copied() ==>
              var (here, there) := (A.Assigned()[p], B.Assigned()[move[p]]);
              && here.fingerprint.Copy? && there.fingerprint.Copy?
              && there.fingerprint.colour == here.fingerprint.colour
              && there.identityByOrder == here.identityByOrder
              && (here.fingerprint.number.None? ==> there == here)
  {
    AssignedIsNumbered(A, p);
    AssignedIsNumbered(B, move[p]);
    CopiesMove(A, B, move, p);
    if p in A.Copied() {
      MovedNumbers(A, B, move, p);
    }
  }

  /** Every number below the size of a tie group is taken by one of its members. */
  lemma NumberTaken(copies: set<nat>, final: seq<Fingerprint>, colour: Fingerprint, i: nat) returns (p: nat)
    requires 1 < |Group(copies, final, colour)| && i < |Group(copies, final, colour)|
    ensures p in Group(copies, final, colour) && Number(copies, final, p) == Some(i)
  {
    var group := Group(copies, final, colour);
    AscendingToLength(group, |final|);
    AscendingToLists(group, |final|);
    assert Below(group, |final|) == group;
    AscendingToIndex(group, |final|, i);
    var list := AscendingTo(group, |final|);
    assert list[i] in list;
    p := list[i];
  }

  /** A member's number is below the size of its group. */
  lemma NumberBelowSize(copies: set<nat>, final: seq<Fingerprint>, p: nat)
    requires p in copies && p < |final| && Number(copies, final, p).Some?
    ensures Number(copies, final, p).value < |Group(copies, final, final[p])|
  {
    var group := Group(copies, final, final[p]);
    SubsetSmaller(Below(group, p) + {p}, group);
  }

  /** The fingerprints a symbol list carries. */
  ghost function Carried(symbols: seq<Symbol>): set<Fingerprint> {
    set p | 0 <= p < |symbols| :: symbols[p].fingerprint
  }

  /** The old symbols of a larger list, back in their old order. */
  ghost function MovedBack(symbols: seq<Symbol>, move: seq<nat>): (back: seq<Symbol>)
    requires forall p :: 0 <= p < |move| ==> move[p] < |symbols|
  {
    seq(|move|, p requires 0 <= p < |move| => symbols[move[p]])
  }

  /** For each old fingerprint, some old symbol carries it after the move. */
  lemma FingerprintReappears(A: Parse, B: Parse, move: seq<nat>, p: nat) returns (r: nat)
    requires Embeds(A, B, move) && p < |move|
    ensures r < |move| && B.Assigned()[move[r]].fingerprint == A.Assigned()[p].fingerprint
  {
    AssignedIsNumbered(A, p);
    AssignedIsNumbered(B, move[p]);
    CopiesMove(A, B, move, p);
    r := p;
    if p in A.Copied() {
      MovedNumbers(A, B, move, p);
      if Number(A.Copied(), A.Final(), p).Some? {
        r := MovedHolder(A, B, move, p);
        AssignedIsNumbered(B, move[r]);
      }
    }
  }

  lemma MovedHolder(A: Parse, B: Parse, move: seq<nat>, p: nat) returns (r: nat)
    requires Embeds(A, B, move) && p in A.Copied()
    ensures var number := Number(A.Copied(), A.Final(), p);
            number.Some? ==>
              && r in A.Copied() && A.symbols[r].fingerprint == A.symbols[p].fingerprint
              && move[r] in B.Copied() && B.Final()[move[r]] == A.Final()[p]
              && Number(B.Copied(), B.Final(), move[r]) == number
  {
    r := p;
    var number := Number(A.Copied(), A.Final(), p);
    if number.Some? {
      var group := Group(A.Copied(), A.Final(), A.Final()[p]);
      GroupsMove(A, B, move, p);
      ImageSize(move, group);
      NumberBelowSize(A.Copied(), A.Final(), p);
      var there := NumberTaken(B.Copied(), B.Final(), A.Final()[p], number.value);
      r :| r in group && move[r] == there;
      ColourHoldsContent(A, p);
      ColourHoldsContent(A, r);
    }
  }

  lemma FingerprintComesFrom(A: Parse, B: Parse, move: seq<nat>, p: nat) returns (r: nat)
    requires Embeds(A, B, move) && p < |move|
    ensures r < |move| && A.Assigned()[r].fingerprint == B.Assigned()[move[p]].fingerprint
  {
    AssignedIsNumbered(A, p);
    AssignedIsNumbered(B, move[p]);
    CopiesMove(A, B, move, p);
    r := p;
    if p in A.Copied() {
      MovedNumbers(A, B, move, p);
      if Number(B.Copied(), B.Final(), move[p]).Some? {
        var i := Number(B.Copied(), B.Final(), move[p]).value;
        GroupsMove(A, B, move, p);
        ImageSize(move, Group(A.Copied(), A.Final(), A.Final()[p]));
        NumberBelowSize(B.Copied(), B.Final(), move[p]);
        r := NumberTaken(A.Copied(), A.Final(), A.Final()[p], i);
        ColourHoldsContent(A, p);
        ColourHoldsContent(A, r);
        AssignedIsNumbered(A, r);
      }
    }
  }

  ghost predicate Occurs(symbols: seq<Symbol>, f: Fingerprint) {
    exists p :: 0 <= p < |symbols| && symbols[p].fingerprint == f
  }

  lemma SameCarried(before: seq<Symbol>, after: seq<Symbol>)
    requires forall p :: 0 <= p < |before| ==> Occurs(after, before[p].fingerprint)
    requires forall p :: 0 <= p < |after| ==> Occurs(before, after[p].fingerprint)
    ensures Carried(before) == Carried(after)
  {
  }

  /** The old symbols carry the same set of fingerprints before and after, in any order. */
  lemma FingerprintSetIsKept(A: Parse, B: Parse, move: seq<nat>)
    requires Embeds(A, B, move)
    ensures Carried(A.Assigned()) == Carried(MovedBack(B.Assigned(), move))
  {
    forall p | 0 <= p < |move|
      ensures Occurs(MovedBack(B.Assigned(), move), A.Assigned()[p].fingerprint)
      ensures Occurs(A.Assigned(), MovedBack(B.Assigned(), move)[p].fingerprint)
    {
      var r := FingerprintReappears(A, B, move, p);
      assert MovedBack(B.Assigned(), move)[r].fingerprint == A.Assigned()[p].fingerprint;
      var s := FingerprintComesFrom(A, B, move, p);
    }
    SameCarried(A.Assigned(), MovedBack(B.Assigned(), move));
  }

  /** Every position of a list is hit by an injection from as many positions. */
  lemma InjectionOnto(move: seq<nat>, q: nat)
    requires Distinct(move) && q < |move| && forall p :: 0 <= p < |move| ==> move[p] < |move|
    ensures q in move
  {
    var all := SetTo(|move|);
    SetToSize(|move|);
    ImageSize(move, all);
    if q !in Image(move, all) {
      assert Image(move, all) + {q} <= all;
      SubsetSmaller(Image(move, all) + {q}, all);
      assert false;
    }
    var p :| p in all && move[p] == q;
  }

  function SetTo(n: nat): (all: set<nat>)
    ensures forall p: nat :: p in all <==> p < n
  {
    if n == 0 then {} else SetTo(n - 1) + {n - 1}
  }

  lemma {:induction false} SetToSize(n: nat)
    ensures |SetTo(n)| == n
  {
    if n == 0 {
    } else {
      SetToSize(n - 1);
      assert n - 1 !in SetTo(n - 1);
    }
  }

  lemma BackCarriesAll(symbols: seq<Symbol>, move: seq<nat>)
    requires forall p :: 0 <= p < |move| ==> move[p] < |symbols|
    requires forall q: nat :: q < |symbols| ==> q in move
    ensures Carried(MovedBack(symbols, move)) == Carried(symbols)
  {
    var back := MovedBack(symbols, move);
    forall q: nat | q < |symbols|
      ensures Occurs(back, symbols[q].fingerprint)
    {
      assert q in move;
      var p :| 0 <= p < |move| && move[p] == q;
      assert back[p].fingerprint == symbols[q].fingerprint;
    }
    SameCarried(back, symbols);
  }

  /** Permuting the symbols, with calls and roots moved along, leaves the set of fingerprints unchanged. */
  lemma PermutationKeepsFingerprints(A: Parse, B: Parse, move: seq<nat>)
    requires Embeds(A, B, move) && |B.symbols| == |A.symbols|
    ensures Carried(A.Assigned()) == Carried(B.Assigned())
  {
    FingerprintSetIsKept(A, B, move);
    forall q: nat | q < |B.symbols|
      ensures q in move
    {
      InjectionOnto(move, q);
    }
    BackCarriesAll(B.Assigned(), move);
  }
}
