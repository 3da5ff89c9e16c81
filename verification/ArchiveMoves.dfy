/**
Members of an archive in another archive. Wherever they stand there, and whatever
new members stand beside them, each member's block moves as a whole, so what holds
of embedded artifacts holds of archives. Exchanging two byte-identical members is
a symmetry, so an archive always gets the partition of its whole call graph.
*/
module ArchiveMoves {
  import opened Archive
  import opened ArchiveLaws
  import opened CallGraph
  import opened Coarsest
  import opened Embeddings
  import opened Fingerprints
  import opened Identity
  import opened IdentityLaws
  import opened Refinement
  import opened Sequences
  import opened Symmetries
  import opened Wrappers

  /** Member `t` stands at `place[t]` in the other archive, whose further members have new identities. */
  ghost predicate Placed(members: seq<Member>, others: seq<Member>, place: seq<nat>) {
    && |place| == |members| && Distinct(place)
    && (forall t :: 0 <= t < |place| ==> place[t] < |others| && others[place[t]] == members[t])
    && forall s, t :: 0 <= s < |others| && s !in place && 0 <= t < |members| ==>
         others[s].identity != members[t].identity
  }

  /** Symbol `p` of member `t` is at position `q` of the archive. */
  ghost predicate At(members: seq<Member>, t: nat, p: nat, q: nat) {
    t < |members| && p < |members[t].symbols| && q == Base(members, t) + p
  }

  lemma BasesAscend(members: seq<Member>, s: nat, t: nat)
    requires s < t <= |members|
    ensures Base(members, s) + |members[s].symbols| <= Base(members, t)
  {
    PrefixThenLast(members, s);
    MergedPrefix(members[..t], s + 1);
    assert members[..t][..s + 1] == members[..s + 1];
  }

  lemma OneSpot(members: seq<Member>, s: nat, o: nat, t: nat, p: nat, q: nat)
    requires At(members, s, o, q) && At(members, t, p, q)
    ensures s == t && o == p
  {
    if s < t {
      BasesAscend(members, s, t);
    } else if t < s {
      BasesAscend(members, t, s);
    }
  }

  lemma SomeSpot(members: seq<Member>, q: nat) returns (t: nat, p: nat)
    requires q < |MergeAll(members).symbols|
    ensures At(members, t, p, q)
  {
    t := SomeBlock(members, q);
    p := q - Base(members, t);
  }

  /** Position `q` of the archive holds symbol `p` of member `t`, rooted when the member roots it. */
  lemma SpotHolds(members: seq<Member>, t: nat, p: nat, q: nat)
    requires At(members, t, p, q)
    ensures q < |MergeAll(members).symbols|
    ensures MergeAll(members).symbols[q] == Wrapped(members[t].identity, members[t].symbols[p])
    ensures RootsSay(MergeAll(members), q, members[t], p)
  {
    BlockSymbol(members, t, p);
    BlockRoots(members, t, p, q);
  }

  /** Where the symbol at `q` goes when its member's block does. */
  ghost predicate MovesTo(members: seq<Member>, others: seq<Member>, place: seq<nat>, q: nat, r: nat)
    requires Placed(members, others, place)
  {
    exists t: nat, p: nat :: At(members, t, p, q) && At(others, place[t], p, r)
  }

  lemma SomeMove(members: seq<Member>, others: seq<Member>, place: seq<nat>, q: nat) returns (r: nat)
    requires Placed(members, others, place) && q < |MergeAll(members).symbols|
    ensures MovesTo(members, others, place, q, r)
  {
    var t, p := SomeSpot(members, q);
    r := Base(others, place[t]) + p;
    assert At(others, place[t], p, r);
  }

  ghost function MoveOf(members: seq<Member>, others: seq<Member>, place: seq<nat>, q: nat): (r: nat)
    requires Placed(members, others, place) && q < |MergeAll(members).symbols|
    ensures MovesTo(members, others, place, q, r)
  {
    assert exists r: nat :: MovesTo(members, others, place, q, r) by {
      var r := SomeMove(members, others, place, q);
    }
    var r: nat :| MovesTo(members, others, place, q, r);
    r
  }

  /** Where each symbol goes. */
  ghost function Moves(members: seq<Member>, others: seq<Member>, place: seq<nat>): (move: seq<nat>)
    requires Placed(members, others, place)
    ensures |move| == |MergeAll(members).symbols|
    ensures forall q :: 0 <= q < |move| ==> MovesTo(members, others, place, q, move[q])
  {
    seq(|MergeAll(members).symbols|, q requires 0 <= q < |MergeAll(members).symbols| =>
      MoveOf(members, others, place, q))
  }

  lemma MovesFrom(members: seq<Member>, others: seq<Member>, place: seq<nat>, q: nat) returns (t: nat, p: nat)
    requires Placed(members, others, place) && q < |MergeAll(members).symbols|
    ensures At(members, t, p, q) && At(others, place[t], p, Moves(members, others, place)[q])
  {
    var r := Moves(members, others, place)[q];
    assert MovesTo(members, others, place, q, r);
    t, p :| At(members, t, p, q) && At(others, place[t], p, r);
  }

  lemma MovesSpot(members: seq<Member>, others: seq<Member>, place: seq<nat>, t: nat, p: nat, q: nat)
    requires Placed(members, others, place) && At(members, t, p, q)
    ensures q < |Moves(members, others, place)| && At(others, place[t], p, Moves(members, others, place)[q])
  {
    SpotHolds(members, t, p, q);
    var s, o := MovesFrom(members, others, place, q);
    OneSpot(members, t, p, s, o, q);
  }

  lemma MovesApart(members: seq<Member>, others: seq<Member>, place: seq<nat>)
    requires Placed(members, others, place)
    ensures Distinct(Moves(members, others, place))
  {
    var move := Moves(members, others, place);
    forall q, r | 0 <= q < r < |move|
      ensures move[q] != move[r]
    {
      var t, p := MovesFrom(members, others, place, q);
      var s, o := MovesFrom(members, others, place, r);
      if move[q] == move[r] {
        OneSpot(others, place[t], p, place[s], o, move[q]);
      }
    }
  }

  /** Position `q` keeps its symbol, and whether it is a root, when it moves to `r`. */
  ghost predicate Carries(merged: Merged, there: Merged, q: nat, r: nat) {
    && q < |merged.symbols| && r < |there.symbols| && there.symbols[r] == merged.symbols[q]
    && (q in merged.Roots() <==> r in there.Roots())
  }

  lemma MovedSymbol(members: seq<Member>, others: seq<Member>, place: seq<nat>, q: nat)
    requires Placed(members, others, place) && q < |MergeAll(members).symbols|
    ensures Carries(MergeAll(members), MergeAll(others), q, Moves(members, others, place)[q])
  {
    var r := Moves(members, others, place)[q];
    var t, p := MovesFrom(members, others, place, q);
    SpotHolds(members, t, p, q);
    SpotHolds(others, place[t], p, r);
  }

  /** Every position of a placed member's block is moved to. */
  lemma SpotIsMovedTo(members: seq<Member>, others: seq<Member>, place: seq<nat>, t: nat, p: nat, r: nat)
    requires Placed(members, others, place) && t < |members| && At(others, place[t], p, r)
    ensures r in Moves(members, others, place)
  {
    var q := Base(members, t) + p;
    MovesSpot(members, others, place, t, p, q);
    assert Moves(members, others, place)[q] == r;
  }

  /** A position no member moves to belongs to a member with a new identity. */
  lemma UnmovedIsNew(members: seq<Member>, others: seq<Member>, place: seq<nat>, r: nat, q: nat)
    requires Placed(members, others, place)
    requires r < |MergeAll(others).symbols| && r !in Moves(members, others, place) && q < |MergeAll(members).symbols|
    ensures MergeAll(others).symbols[r].fingerprint != MergeAll(members).symbols[q].fingerprint
  {
    var s, o := SomeSpot(others, r);
    var t, p := SomeSpot(members, q);
    SpotHolds(others, s, o, r);
    SpotHolds(members, t, p, q);
    if u :| 0 <= u < |place| && place[u] == s {
      SpotIsMovedTo(members, others, place, u, o, r);
    }
  }

  lemma {:induction false} MovedCallsAre(symbols: seq<Symbol>, base: nat, calls: seq<ArtifactCall>,
                                         call: PositionalCall)
    ensures call in MovedCalls(symbols, base, calls)
        <==> exists k :: 0 <= k < |calls| && MovedCallOf(symbols, base, calls[k]) == Some(call)
  {
    if calls == [] {
    } else {
      var last := |calls| - 1;
      MovedCallsAre(symbols, base, calls[..last], call);
      if k :| 0 <= k < |calls| && MovedCallOf(symbols, base, calls[k]) == Some(call) {
        assert k < last ==> calls[..last][k] == calls[k];
      }
      if k :| 0 <= k < last && MovedCallOf(symbols, base, calls[..last][k]) == Some(call) {
        assert calls[..last][k] == calls[k];
      }
    }
  }

  /** Call `k` of member `t` is `call` in the archive. */
  ghost predicate CallOf(members: seq<Member>, t: nat, k: nat, call: PositionalCall) {
    && t < |members| && k < |members[t].calls|
    && MovedCallOf(members[t].symbols, Base(members, t), members[t].calls[k]) == Some(call)
  }

  /** The calls of an archive are its members' calls. */
  lemma {:induction false} SomeCall(members: seq<Member>, call: PositionalCall) returns (t: nat, k: nat)
    requires call in MergeAll(members).calls
    ensures CallOf(members, t, k, call)
    decreases |members|
  {
    var last := |members| - 1;
    if call in MergeAll(members[..last]).calls {
      t, k := SomeCall(members[..last], call);
      BaseStays(members, t);
    } else {
      t := last;
      MovedCallsAre(members[t].symbols, Base(members, t), members[t].calls, call);
      k :| 0 <= k < |members[t].calls|
           && MovedCallOf(members[t].symbols, Base(members, t), members[t].calls[k]) == Some(call);
    }
  }

  lemma CallIsThere(members: seq<Member>, t: nat, k: nat, call: PositionalCall)
    requires CallOf(members, t, k, call)
    ensures call in MergeAll(members).calls
  {
    MovedCallsAre(members[t].symbols, Base(members, t), members[t].calls, call);
    PrefixThenLast(members, t);
    assert call in MergeAll(members[..t + 1]).calls;
    MergedPrefix(members, t + 1);
  }

  /** Positions behind `a` move to the same places behind `b`. */
  ghost predicate Rebases(move: seq<nat>, a: nat, b: nat, n: nat) {
    a + n <= |move| && forall q :: a <= q < a + n ==> move[q] == b + (q - a)
  }

  /** A member's call behind another base is the moved call. */
  lemma Rebased(symbols: seq<Symbol>, a: nat, b: nat, call: ArtifactCall, move: seq<nat>)
    requires MovedCallOf(symbols, a, call).Some? && Rebases(move, a, b, |symbols|)
    ensures var moved := MovedCallOf(symbols, a, call).value;
            CallInRange(moved, |move|) && MovedCallOf(symbols, b, call) == Some(MovedCall(move, moved))
  {
  }

  lemma BlockRebases(members: seq<Member>, others: seq<Member>, place: seq<nat>, t: nat)
    requires Placed(members, others, place) && t < |members| && members[t].symbols != []
    ensures Rebases(Moves(members, others, place), Base(members, t), Base(others, place[t]), |members[t].symbols|)
  {
    var base, n, move := Base(members, t), |members[t].symbols|, Moves(members, others, place);
    MovesSpot(members, others, place, t, n - 1, base + n - 1);
    forall q | base <= q < base + n
      ensures move[q] == Base(others, place[t]) + (q - base)
    {
      MovesSpot(members, others, place, t, q - base, q);
    }
  }

  lemma CallMoves(members: seq<Member>, others: seq<Member>, place: seq<nat>, t: nat, k: nat, call: PositionalCall)
    requires Placed(members, others, place) && CallOf(members, t, k, call)
    ensures var move := Moves(members, others, place);
            CallInRange(call, |move|) && CallOf(others, place[t], k, MovedCall(move, call))
  {
    BlockRebases(members, others, place, t);
    Rebased(members[t].symbols, Base(members, t), Base(others, place[t]), members[t].calls[k],
            Moves(members, others, place));
  }

  /** Position `q` lies in the block of member `t`. */
  ghost predicate InBlock(members: seq<Member>, t: nat, q: nat) {
    exists p: nat :: At(members, t, p, q)
  }

  lemma CallStaysInBlock(members: seq<Member>, t: nat, k: nat, call: PositionalCall)
    requires CallOf(members, t, k, call)
    ensures InBlock(members, t, call.caller) && (call.target.Some? ==> InBlock(members, t, call.target.value))
  {
    var base := Base(members, t);
    assert At(members, t, call.caller - base, call.caller);
    assert call.target.Some? ==> At(members, t, call.target.value - base, call.target.value);
  }

  /** A call of the other archive is a moved one, or lies in a new member's block. */
  lemma CallThereIs(members: seq<Member>, others: seq<Member>, place: seq<nat>, call: PositionalCall)
    requires Placed(members, others, place)
    requires MergeAll(members).Valid() && call in MergeAll(others).calls
    ensures var (A, move) := (MergeAll(members).Parse(), Moves(members, others, place));
            IsMoved(A, move, call) || SparesCopies(A, move, call)
  {
    var A, move := MergeAll(members).Parse(), Moves(members, others, place);
    var s, k := SomeCall(others, call);
    if t :| 0 <= t < |place| && place[t] == s {
      CallBack(members, others, place, t, k, call);
    } else {
      CallStaysInBlock(others, s, k, call);
      forall q: nat | q < |move|
        ensures call.caller != move[q] && call.target != Some(move[q])
      {
        NotInNewBlock(members, others, place, q, s);
      }
    }
  }

  lemma NotInNewBlock(members: seq<Member>, others: seq<Member>, place: seq<nat>, q: nat, s: nat)
    requires Placed(members, others, place) && q < |MergeAll(members).symbols| && s !in place
    ensures !InBlock(others, s, Moves(members, others, place)[q])
  {
    var r := Moves(members, others, place)[q];
    var t, p := MovesFrom(members, others, place, q);
    if o: nat :| At(others, s, o, r) {
      OneSpot(others, s, o, place[t], p, r);
    }
  }

  lemma CallBack(members: seq<Member>, others: seq<Member>, place: seq<nat>, t: nat, k: nat, call: PositionalCall)
    requires Placed(members, others, place) && MergeAll(members).Valid()
    requires t < |members| && CallOf(others, place[t], k, call)
    ensures IsMoved(MergeAll(members).Parse(), Moves(members, others, place), call)
  {
    var source := MovedCallOf(members[t].symbols, Base(members, t), members[t].calls[k]).value;
    assert CallOf(members, t, k, source);
    CallIsThere(members, t, k, source);
    CallMoves(members, others, place, t, k, source);
    assert source in MergeAll(members).Parse().calls;
  }

  /** The archive is embedded in the other one, block by block. */
  lemma ArchiveEmbeds(members: seq<Member>, others: seq<Member>, place: seq<nat>)
    requires Placed(members, others, place)
    ensures MergeAll(members).Valid() && MergeAll(others).Valid()
    ensures Embeds(MergeAll(members).Parse(), MergeAll(others).Parse(), Moves(members, others, place))
  {
    MergeAllValid(members);
    MergeAllValid(others);
    SymbolsMove(members, others, place);
    var A, B, move := MergeAll(members).Parse(), MergeAll(others).Parse(), Moves(members, others, place);
    forall call | call in A.calls
      ensures CallInRange(call, |move|) && MovedCall(move, call) in B.calls
    {
      var t, k := SomeCall(members, call);
      CallMoves(members, others, place, t, k, call);
      CallIsThere(others, place[t], k, MovedCall(move, call));
    }
    forall call | call in B.calls
      ensures IsMoved(A, move, call) || SparesCopies(A, move, call)
    {
      CallThereIs(members, others, place, call);
    }
  }

  lemma SymbolsMove(members: seq<Member>, others: seq<Member>, place: seq<nat>)
    requires Placed(members, others, place)
    ensures SymbolsEmbed(MergeAll(members).Parse(), MergeAll(others).Parse(), Moves(members, others, place))
  {
    var A, B, move := MergeAll(members).Parse(), MergeAll(others).Parse(), Moves(members, others, place);
    MovesApart(members, others, place);
    forall q | 0 <= q < |move|
      ensures move[q] < |B.symbols| && B.symbols[move[q]] == A.symbols[q]
      ensures q in A.roots <==> move[q] in B.roots
    {
      MovedSymbol(members, others, place, q);
    }
    forall r, q | 0 <= r < |B.symbols| && r !in move && 0 <= q < |A.symbols|
      ensures B.symbols[r].fingerprint != A.symbols[q].fingerprint
    {
      UnmovedIsNew(members, others, place, r, q);
    }
  }

  lemma MovesAscend(members: seq<Member>, others: seq<Member>, place: seq<nat>)
    requires Placed(members, others, place) && Ascending(place)
    ensures Ascending(Moves(members, others, place))
  {
    var move := Moves(members, others, place);
    forall q, r | 0 <= q < r < |move|
      ensures move[q] < move[r]
    {
      var t, p := MovesFrom(members, others, place, q);
      var s, o := MovesFrom(members, others, place, r);
      if s < t {
        BasesAscend(members, s, t);
      } else if t < s {
        BasesAscend(others, place[t], place[s]);
      }
    }
  }

  /** Members with new identities, wherever they stand, leave every record of the other members as it was. */
  lemma OtherMembersDoNotInterfere(members: seq<Member>, others: seq<Member>, place: seq<nat>, t: nat, p: nat,
                                   q: nat, r: nat)
    requires Placed(members, others, place) && Ascending(place)
    requires At(members, t, p, q) && At(others, place[t], p, r)
    ensures MergeAll(members).Valid() && q < |MergeAll(members).symbols|
    ensures MergeAll(others).Valid() && r < |MergeAll(others).symbols|
    ensures Finished(MergeAll(others))[r] == Finished(MergeAll(members))[q]
  {
    ArchiveEmbeds(members, others, place);
    MovesAscend(members, others, place);
    SpotHolds(others, place[t], p, r);
    MovesSpot(members, others, place, t, p, q);
    OldSymbolsKeepTheirIdentity(MergeAll(members).Parse(), MergeAll(others).Parse(), Moves(members, others, place), q);
  }

  /** Members in another order give an archive with the same fingerprints. */
  lemma MemberOrderKeepsFingerprints(members: seq<Member>, others: seq<Member>, place: seq<nat>)
    requires Placed(members, others, place) && |others| == |members|
    ensures MergeAll(members).Valid() && MergeAll(others).Valid()
    ensures Carried(Finished(MergeAll(members))) == Carried(Finished(MergeAll(others)))
  {
    ArchiveEmbeds(members, others, place);
    var A, B, move := MergeAll(members).Parse(), MergeAll(others).Parse(), Moves(members, others, place);
    FingerprintSetIsKept(A, B, move);
    forall r: nat | r < |B.symbols|
      ensures r in move
    {
      var s, p := SomeSpot(others, r);
      InjectionOnto(place, s);
      var t :| 0 <= t < |place| && place[t] == s;
      SpotIsMovedTo(members, others, place, t, p, r);
    }
    BackCarriesAll(B.Assigned(), move);
  }

  /** What refinement reads of an archive. */
  ghost function ArchiveInstance(members: seq<Member>): Instance {
    MergeAll(members).Parse().Instance()
  }

  /** An artifact embedded in itself is one a rearrangement leaves as it was. */
  lemma SelfEmbeddingIsSymmetry(A: Parse, move: seq<nat>)
    requires Embeds(A, A, move)
    ensures Symmetry(A.Instance(), move)
  {
    InstanceOfValid(A.symbols, A.roots, A.calls);
    forall p | 0 <= p < |move|
      ensures MovesAlong(A.Instance(), move, p)
    {
      SelfEmbeddingMovesAlong(A, move, p);
    }
  }

  lemma SelfEmbeddingMovesAlong(A: Parse, move: seq<nat>, p: nat)
    requires Embeds(A, A, move) && p < |move| && A.Instance().Valid()
    ensures MovesAlong(A.Instance(), move, p)
  {
    CopiesMove(A, A, move, p);
    if p in A.Copied() {
      CallersMove(A, A, move, p);
      CalleesMove(A, A, move, p);
      UnresolvedMove(A, A, move, p);
    }
  }

  /** Members `i` and `j` change places. */
  ghost function Exchange(n: nat, i: nat, j: nat): seq<nat> {
    seq(n, t requires 0 <= t < n => if t == i then j else if t == j then i else t)
  }

  lemma ExchangePlaces(members: seq<Member>, i: nat, j: nat)
    requires i < |members| && j < |members| && members[i] == members[j]
    ensures Placed(members, members, Exchange(|members|, i, j))
  {
    var place := Exchange(|members|, i, j);
    forall s: nat | s < |members|
      ensures s in place
    {
      assert place[place[s]] == s;
    }
  }

  /** Members with one identity are one file. */
  ghost predicate IdentityIsContent(members: seq<Member>) {
    forall i, j :: 0 <= i < |members| && 0 <= j < |members| && members[i].identity == members[j].identity ==>
      members[i] == members[j]
  }

  /** Exchanging two occurrences of one member moves each symbol of the first to its counterpart, and is a symmetry. */
  lemma ExchangeIsSymmetry(members: seq<Member>, i: nat, j: nat, p: nat, q: nat, r: nat) returns (move: seq<nat>)
    requires At(members, i, p, q) && At(members, j, p, r) && members[i] == members[j]
    ensures Symmetry(ArchiveInstance(members), move) && q < |move| && move[q] == r
  {
    var place := Exchange(|members|, i, j);
    ExchangePlaces(members, i, j);
    MovesSpot(members, members, place, i, p, q);
    assert place[i] == j;
    move := Moves(members, members, place);
    assert move[q] == r;
    ArchiveEmbeds(members, members, place);
    SelfEmbeddingIsSymmetry(MergeAll(members).Parse(), move);
  }

  lemma OneSymbolOf(symbols: seq<Symbol>, p: nat, o: nat)
    requires Unique(symbols) && p < |symbols| && o < |symbols| && symbols[p].fingerprint == symbols[o].fingerprint
    ensures p == o
  {
  }

  /** Symbols with one fingerprint are one symbol of one member, wherever that member stands. */
  lemma SameSymbol(members: seq<Member>, i: nat, o: nat, q: nat, j: nat, p: nat, r: nat)
    requires IdentityIsContent(members) && forall member :: member in members ==> Unique(member.symbols)
    requires At(members, i, o, q) && At(members, j, p, r)
    requires q < |MergeAll(members).symbols| && r < |MergeAll(members).symbols|
    requires MergeAll(members).symbols[q].fingerprint == MergeAll(members).symbols[r].fingerprint
    ensures members[i] == members[j] && o == p
  {
    SpotHolds(members, i, o, q);
    SpotHolds(members, j, p, r);
    assert members[i] == members[j] && members[i] in members;
    OneSymbolOf(members[i].symbols, o, p);
  }

  lemma LikeStartsShare(A: Parse, q: nat, r: nat)
    requires A.Valid() && q in A.Copied() && r in A.Copied() && A.Instance().start[q] == A.Instance().start[r]
    ensures A.symbols[q].fingerprint == A.symbols[r].fingerprint
  {
  }

  /** Copies with one start colour are the same symbol of byte-identical members, whose exchange matches them. */
  lemma LikeCopiesMatch(members: seq<Member>, X: Instance, q: nat, r: nat)
    requires IdentityIsContent(members) && forall member :: member in members ==> Unique(member.symbols)
    requires MergeAll(members).Valid() && X == ArchiveInstance(members) && X.Valid()
    requires q in X.copies && r in X.copies && X.start[q] == X.start[r]
    ensures Matched(X, q, r)
  {
    LikeStartsShare(MergeAll(members).Parse(), q, r);
    var i, o := SomeSpot(members, q);
    var j, p := SomeSpot(members, r);
    SameSymbol(members, i, o, q, j, p, r);
    var move := ExchangeIsSymmetry(members, i, j, p, q, r);
    MovedIsMatched(X, move, q);
  }

  /**
  In an archive, refining per component meets the partition of the whole call graph,
  however often a member occurs: copies are the same symbol of identical members.
  */
  lemma ArchivesAreCoarsest(members: seq<Member>)
    requires IdentityIsContent(members) && forall member :: member in members ==> Unique(member.symbols)
    ensures ArchiveInstance(members).Valid() && CoarsestOverall(ArchiveInstance(members))
  {
    var merged := MergeAll(members);
    MergeAllValid(members);
    InstanceOfSeparated(merged.symbols, merged.Roots(), merged.calls);
    var X := ArchiveInstance(members);
    forall q, r | q in X.copies && r in X.copies && X.start[q] == X.start[r]
      ensures Matched(X, q, r)
    {
      LikeCopiesMatch(members, X, q, r);
    }
    CoarsestWhenLikeCopiesMatch(X);
  }

  /** Every symbol of every member survives the merge, and the naming after it, with all that was read of it. */
  lemma MemberSymbolSurvives(members: seq<Member>, t: nat, p: nat, q: nat)
    requires At(members, t, p, q)
    ensures MergeAll(members).Valid() && q < |MergeAll(members).symbols|
    ensures var (own, merged, after) :=
              (members[t].symbols[p], MergeAll(members).symbols[q], Finished(MergeAll(members))[q]);
            var content := if own.content.Some? then own.content else Some(own.fingerprint);
            && merged == Symbol(ArchiveSymbol(members[t].identity, own.fingerprint), own.exported, own.size, own.body,
                                content, own.identityByOrder, own.rest)
            && after.exported == own.exported && after.size == own.size && after.body == own.body
            && after.content == content && after.rest == own.rest
            && (own.identityByOrder ==> after.identityByOrder)
            && (|| after.fingerprint == ArchiveSymbol(members[t].identity, own.fingerprint)
                || exists colour, number ::
                     after.fingerprint == Copy(ArchiveSymbol(members[t].identity, own.fingerprint), colour, number))
  {
    MergeAllValid(members);
    SpotHolds(members, t, p, q);
    var merged, copies := MergeAll(members), Copies(MergeAll(members).symbols);
    var after := Finished(merged)[q];
    if q in copies {
      assert after.fingerprint
          == Copy(merged.symbols[q].fingerprint, after.fingerprint.colour, after.fingerprint.number);
    }
  }

  /** Whether a position of the archive is a root is what its member's two lists say. */
  lemma MemberRootSurvives(members: seq<Member>, t: nat, p: nat, q: nat)
    requires At(members, t, p, q) && Unique(members[t].symbols)
    ensures q in MergeAll(members).Roots()
        <==> || members[t].symbols[p].fingerprint in members[t].entryPoints
             || members[t].symbols[p].fingerprint in members[t].indirectReferences
  {
    SpotHolds(members, t, p, q);
    ListedIsNamed(members[t].symbols, members[t].entryPoints, p);
    ListedIsNamed(members[t].symbols, members[t].indirectReferences, p);
  }

  /** Another member is byte-identical to member `t`. */
  ghost predicate Twin(members: seq<Member>, t: nat)
    requires t < |members|
  {
    exists s :: 0 <= s < |members| && s != t && members[s] == members[t]
  }

  /** The symbols of a twin are tied with their counterparts. */
  lemma TwinsAreNumbered(members: seq<Member>, t: nat, p: nat, q: nat)
    requires At(members, t, p, q) && Twin(members, t)
    ensures MergeAll(members).Valid() && q < |MergeAll(members).symbols|
    ensures var after := Finished(MergeAll(members))[q];
            after.identityByOrder && after.fingerprint.Copy? && after.fingerprint.number.Some?
  {
    MergeAllValid(members);
    var merged, X := MergeAll(members), ArchiveInstance(members);
    InstanceOfValid(merged.symbols, merged.Roots(), merged.calls);
    var s: nat :| s < |members| && s != t && members[s] == members[t];
    var r := Base(members, s) + p;
    SpotHolds(members, t, p, q);
    SpotHolds(members, s, p, r);
    if q == r {
      OneSpot(members, t, p, s, p, q);
    }
    assert Shared(merged.symbols, q);
    var move := ExchangeIsSymmetry(members, t, s, p, q, r);
    MovedEndsAlike(X, move, q);
    SharedColourIsNumbered(merged.symbols, X.copies, X.FinalColours(), q, r);
  }

  /** A copy in an archive has its counterpart in a twin. */
  lemma CopyHasTwin(members: seq<Member>, t: nat, p: nat, q: nat)
    requires IdentityIsContent(members) && forall member :: member in members ==> Unique(member.symbols)
    requires At(members, t, p, q) && q in Copies(MergeAll(members).symbols)
    ensures Twin(members, t)
  {
    var symbols := MergeAll(members).symbols;
    var r: nat :| r < |symbols| && r != q && symbols[r].fingerprint == symbols[q].fingerprint;
    var s, o := SomeSpot(members, r);
    SameSymbol(members, t, p, q, s, o, r);
  }

  /**
  A symbol of an archive is identified by order exactly when its own member says so
  or another member is byte-identical; without such a member it is only wrapped.
  */
  lemma ByOrderExactly(members: seq<Member>, t: nat, p: nat, q: nat)
    requires IdentityIsContent(members) && forall member :: member in members ==> Unique(member.symbols)
    requires At(members, t, p, q)
    ensures MergeAll(members).Valid() && q < |MergeAll(members).symbols|
    ensures var (own, after) := (members[t].symbols[p], Finished(MergeAll(members))[q]);
            && (after.identityByOrder <==> own.identityByOrder || Twin(members, t))
            && (!Twin(members, t) ==> after == Wrapped(members[t].identity, own))
  {
    MergeAllValid(members);
    var merged := MergeAll(members);
    SpotHolds(members, t, p, q);
    if Twin(members, t) {
      TwinsAreNumbered(members, t, p, q);
    } else {
      if q in Copies(merged.symbols) {
        CopyHasTwin(members, t, p, q);
      }
      ContentIsKept(merged.symbols, merged.Roots(), merged.calls, q);
    }
  }
}
