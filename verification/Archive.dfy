/**
Merging the symbols, calls and roots of archive members: each member's graph is
moved by position behind the ones before it, and identities are assigned once,
over the whole archive.
*/
module Archive {
  import opened CallGraph
  import opened Embeddings
  import opened Fingerprints
  import opened Identity
  import opened Wrappers

  /** One parsed object member and the fingerprint of its bytes. */
  datatype Member = Member(
    identity: Fingerprint,
    symbols: seq<Symbol>,
    entryPoints: seq<Fingerprint>,
    indirectReferences: seq<Fingerprint>,
    calls: seq<ArtifactCall>)

  /** The merged symbols with calls and roots still by position. */
  datatype Merged = Merged(
    symbols: seq<Symbol>,
    entryPoints: seq<nat>,
    indirectReferences: seq<nat>,
    calls: seq<PositionalCall>)
  {
    ghost function Roots(): (roots: set<nat>)
      ensures forall p :: p in roots <==> p in entryPoints || p in indirectReferences
    {
      (set p | p in entryPoints) + (set p | p in indirectReferences)
    }

    ghost predicate Valid() {
      && InRange(calls, |symbols|)
      && (forall p :: p in entryPoints ==> p < |symbols|)
      && (forall p :: p in indirectReferences ==> p < |symbols|)
      && forall p :: 0 <= p < |symbols| ==> symbols[p].fingerprint.ArchiveSymbol?
    }

    ghost function Parse(): Parse {
      Embeddings.Parse(symbols, Roots(), calls)
    }
  }

  /** The last position carrying a fingerprint, as successive map insertions leave it. */
  function PositionOf(symbols: seq<Symbol>, f: Fingerprint): (position: Option<nat>)
    ensures position.Some? ==> position.value < |symbols| && symbols[position.value].fingerprint == f
    ensures position.Some? ==> forall p :: position.value < p < |symbols| ==> symbols[p].fingerprint != f
    ensures position.None? ==> forall p :: 0 <= p < |symbols| ==> symbols[p].fingerprint != f
  {
    if symbols == [] then None
    else
      var last := |symbols| - 1;
      if symbols[last].fingerprint == f then Some(last) else PositionOf(symbols[..last], f)
  }

  function Shift(base: nat, position: Option<nat>): Option<nat> {
    if position.Some? then Some(base + position.value) else None
  }

  /** A member's symbol inside the archive: named by member and own identity, its content kept. */
  function Wrapped(identity: Fingerprint, symbol: Symbol): Symbol {
    symbol.(fingerprint := ArchiveSymbol(identity, symbol.fingerprint), content := Some(symbol.ContentIdentity()))
  }

  function WrappedAll(member: Member): (symbols: seq<Symbol>) {
    seq(|member.symbols|, p requires 0 <= p < |member.symbols| => Wrapped(member.identity, member.symbols[p]))
  }

  /** Roots by position; a fingerprint the member does not define is dropped. */
  function Positioned(symbols: seq<Symbol>, base: nat, roots: seq<Fingerprint>): seq<nat> {
    if roots == [] then []
    else
      var rest := Positioned(symbols, base, roots[..|roots| - 1]);
      var position := Shift(base, PositionOf(symbols, roots[|roots| - 1]));
      if position.Some? then rest + [position.value] else rest
  }

  /** A call by position; a target the member names but does not define is kept as missing. */
  function MovedCallOf(symbols: seq<Symbol>, base: nat, call: ArtifactCall): Option<PositionalCall> {
    var caller := Shift(base, PositionOf(symbols, call.caller));
    if caller.None? then None
    else
      var target := if call.target.Some? then Shift(base, PositionOf(symbols, call.target.value)) else None;
      var lost := call.target.Some? && target.None?;
      Some(PositionalCall(caller.value, target, if lost then Some(MissingRelocation) else call.unresolved))
  }

  function MovedCalls(symbols: seq<Symbol>, base: nat, calls: seq<ArtifactCall>): seq<PositionalCall> {
    if calls == [] then []
    else
      var rest := MovedCalls(symbols, base, calls[..|calls| - 1]);
      var moved := MovedCallOf(symbols, base, calls[|calls| - 1]);
      if moved.Some? then rest + [moved.value] else rest
  }

  /** One member's graph behind the ones already merged. */
  function Merge(archive: Merged, member: Member): Merged {
    var base := |archive.symbols|;
    Merged(archive.symbols + WrappedAll(member),
           archive.entryPoints + Positioned(member.symbols, base, member.entryPoints),
           archive.indirectReferences + Positioned(member.symbols, base, member.indirectReferences),
           archive.calls + MovedCalls(member.symbols, base, member.calls))
  }

  function MergeAll(members: seq<Member>): Merged {
    if members == [] then Merged([], [], [], [])
    else Merge(MergeAll(members[..|members| - 1]), members[|members| - 1])
  }

  /** An archive's facts while it is read, as `merge_member` and `finish` rewrite them. */
  class ArtifactIr {
    var symbols: seq<Symbol>
    var entryPoints: set<Fingerprint>
    var indirectReferences: set<Fingerprint>
    var calls: seq<ArtifactCall>

    constructor ()
      ensures symbols == [] && calls == [] && entryPoints == {} && indirectReferences == {}
    {
      symbols, calls, entryPoints, indirectReferences := [], [], {}, {};
    }
  }

  /** What the archive graph has gathered so far, named by merged position. */
  class PendingGraph {
    var entryPoints: seq<nat>
    var indirectReferences: seq<nat>
    var calls: seq<PositionalCall>

    constructor ()
      ensures entryPoints == [] && indirectReferences == [] && calls == []
    {
      entryPoints, indirectReferences, calls := [], [], [];
    }

    /** Everything merged so far. */
    ghost function With(archive: ArtifactIr): Merged
      reads this, archive
    {
      Merged(archive.symbols, entryPoints, indirectReferences, calls)
    }

    /** `merge_member`: append one member's symbols and move its calls and roots behind them. */
    method MergeMember(archive: ArtifactIr, member: Member)
      modifies this, archive`symbols
      ensures With(archive) == Merge(old(With(archive)), member)
    {
      var base := |archive.symbols|;
      ghost var before := archive.symbols;
      var positions: map<Fingerprint, nat> := map[];
      for i := 0 to |member.symbols|
        invariant archive.symbols == before + WrappedAll(member)[..i]
        invariant Locates(positions, member.symbols[..i], base)
        invariant entryPoints == old(entryPoints) && indirectReferences == old(indirectReferences)
        invariant calls == old(calls)
      {
        var symbol := member.symbols[i];
        assert member.symbols[..i + 1] == member.symbols[..i] + [symbol];
        positions := positions[symbol.fingerprint := |archive.symbols|];
        archive.symbols := archive.symbols + [Wrapped(member.identity, symbol)];
      }
      assert member.symbols[..|member.symbols|] == member.symbols;
      var entries := LocateRoots(positions, member.symbols, base, member.entryPoints);
      var references := LocateRoots(positions, member.symbols, base, member.indirectReferences);
      var moved := LocateCalls(positions, member.symbols, base, member.calls);
      entryPoints := entryPoints + entries;
      indirectReferences := indirectReferences + references;
      calls := calls + moved;
    }

    /** `finish`: assign identities over the whole archive, then name calls and roots by them. */
    method Finish(archive: ArtifactIr)
      requires With(archive).Valid()
      modifies archive
      ensures archive.symbols == Assigned(old(archive.symbols), old(With(archive)).Roots(), calls)
      ensures archive.calls == NamedCalls(archive.symbols, calls)
      ensures archive.entryPoints == FingerprintsOf(archive.symbols, entryPoints)
      ensures archive.indirectReferences == FingerprintsOf(archive.symbols, indirectReferences)
    {
      var roots := (set p | p in entryPoints) + (set p | p in indirectReferences);
      var before := archive.symbols;
      var slice := new Symbol[|before|](i requires 0 <= i < |before| => before[i]);
      assert slice[..] == before;
      var named := AssignIdentities(slice, roots, calls);
      archive.symbols := slice[..];
      archive.calls := named;
      archive.entryPoints := FingerprintsOf(archive.symbols, entryPoints);
      archive.indirectReferences := FingerprintsOf(archive.symbols, indirectReferences);
    }
  }

  /** Sorted and deduplicated root lists, as the set they are. */
  function FingerprintsOf(symbols: seq<Symbol>, positions: seq<nat>): set<Fingerprint>
    requires forall p :: p in positions ==> p < |symbols|
  {
    set p | p in positions :: symbols[p].fingerprint
  }

  /** The map from a member's fingerprints to their merged positions. */
  ghost predicate Locates(positions: map<Fingerprint, nat>, symbols: seq<Symbol>, base: nat) {
    forall f :: Shift(base, PositionOf(symbols, f)) == if f in positions then Some(positions[f]) else None
  }

  method LocateRoots(positions: map<Fingerprint, nat>, ghost symbols: seq<Symbol>, ghost base: nat,
                     roots: seq<Fingerprint>)
      returns (located: seq<nat>)
    requires Locates(positions, symbols, base)
    ensures located == Positioned(symbols, base, roots)
  {
    located := [];
    for i := 0 to |roots|
      invariant located == Positioned(symbols, base, roots[..i])
    {
      assert roots[..i + 1][..i] == roots[..i];
      assert Shift(base, PositionOf(symbols, roots[i]))
          == if roots[i] in positions then Some(positions[roots[i]]) else None;
      if roots[i] in positions {
        located := located + [positions[roots[i]]];
      }
    }
    assert roots[..|roots|] == roots;
  }

  method LocateCalls(positions: map<Fingerprint, nat>, ghost symbols: seq<Symbol>, ghost base: nat,
                     calls: seq<ArtifactCall>)
      returns (moved: seq<PositionalCall>)
    requires Locates(positions, symbols, base)
    ensures moved == MovedCalls(symbols, base, calls)
  {
    moved := [];
    for i := 0 to |calls|
      invariant moved == MovedCalls(symbols, base, calls[..i])
    {
      assert calls[..i + 1][..i] == calls[..i];
      var call := calls[i];
      assert Shift(base, PositionOf(symbols, call.caller))
          == if call.caller in positions then Some(positions[call.caller]) else None;
      if call.caller in positions {
        var target: Option<nat> := None;
        var unresolved := call.unresolved;
        if call.target.Some? {
          assert Shift(base, PositionOf(symbols, call.target.value))
              == if call.target.value in positions then Some(positions[call.target.value]) else None;
          if call.target.value in positions {
            target := Some(positions[call.target.value]);
          } else {
            unresolved := Some(MissingRelocation);
          }
        }
        moved := moved + [PositionalCall(positions[call.caller], target, unresolved)];
      }
    }
    assert calls[..|calls|] == calls;
  }
}
