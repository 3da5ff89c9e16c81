/**
The merged archive is the disjoint union of its members: every call, reason and
root stays on the copy it belonged to, and every fingerprint is unique even when
members are byte-identical.
*/
module ArchiveLaws {
  import opened Archive
  import opened Fingerprints
  import opened Identity
  import opened IdentityLaws
  import opened Sequences
  import opened Wrappers

  /** Where a member's block of symbols starts. */
  function Base(members: seq<Member>, i: nat): nat
    requires i <= |members|
  {
    |MergeAll(members[..i]).symbols|
  }

  /** Where a member's block of calls starts. */
  function CallBase(members: seq<Member>, i: nat): nat
    requires i <= |members|
  {
    |MergeAll(members[..i]).calls|
  }

  /** A member as a format backend hands it over: its own fingerprints, calls and roots fit together. */
  ghost predicate SelfContained(member: Member) {
    && Unique(member.symbols)
    && (forall call :: call in member.calls ==>
          && Defines(member, call.caller)
          && (call.target.Some? ==> Defines(member, call.target.value)))
    && (forall f :: f in member.entryPoints ==> Defines(member, f))
    && forall f :: f in member.indirectReferences ==> Defines(member, f)
  }

  ghost predicate Defines(member: Member, f: Fingerprint) {
    exists p :: 0 <= p < |member.symbols| && member.symbols[p].fingerprint == f
  }

  lemma PositionIsUnique(symbols: seq<Symbol>, p: nat)
    requires Unique(symbols) && p < |symbols|
    ensures PositionOf(symbols, symbols[p].fingerprint) == Some(p)
  {
  }

  /** Position `q` is where some listed root ends up. */
  ghost predicate RootAt(symbols: seq<Symbol>, base: nat, roots: seq<Fingerprint>, q: nat) {
    exists i :: 0 <= i < |roots| && Shift(base, PositionOf(symbols, roots[i])) == Some(q)
  }

  lemma {:induction false} PositionedExactly(symbols: seq<Symbol>, base: nat, roots: seq<Fingerprint>, q: nat)
    ensures q in Positioned(symbols, base, roots) <==> RootAt(symbols, base, roots, q)
  {
    if roots == [] {
    } else {
      var last := |roots| - 1;
      var fewer := roots[..last];
      PositionedExactly(symbols, base, fewer, q);
      if RootAt(symbols, base, fewer, q) {
        var i :| 0 <= i < |fewer| && Shift(base, PositionOf(symbols, fewer[i])) == Some(q);
        assert fewer[i] == roots[i];
      }
      if RootAt(symbols, base, roots, q) {
        var i :| 0 <= i < |roots| && Shift(base, PositionOf(symbols, roots[i])) == Some(q);
        if i < last {
          assert fewer[i] == roots[i];
          assert RootAt(symbols, base, fewer, q);
        }
      }
    }
  }

  /** Symbol `p` is the last one that carries `f`. */
  ghost predicate LastCarrying(symbols: seq<Symbol>, f: Fingerprint, p: nat) {
    && p < |symbols| && symbols[p].fingerprint == f
    && forall q :: p < q < |symbols| ==> symbols[q].fingerprint != f
  }

  /**
  A call moves with the symbols it names. Without its caller it is dropped; a target
  the member does not define is recorded as missing.
  */
  lemma MovedCallIs(symbols: seq<Symbol>, base: nat, call: ArtifactCall)
    ensures var moved := MovedCallOf(symbols, base, call);
            && (moved.None? <==> forall p :: 0 <= p < |symbols| ==> symbols[p].fingerprint != call.caller)
            && (moved.Some? ==>
                  && base <= moved.value.caller && LastCarrying(symbols, call.caller, moved.value.caller - base)
                  && (moved.value.target.Some? ==>
                        && call.target.Some? && base <= moved.value.target.value
                        && LastCarrying(symbols, call.target.value, moved.value.target.value - base)
                        && moved.value.unresolved == call.unresolved)
                  && (moved.value.target.None? && call.target.Some? ==>
                        && moved.value.unresolved == Some(MissingRelocation)
                        && forall p :: 0 <= p < |symbols| ==> symbols[p].fingerprint != call.target.value)
                  && (call.target.None? ==> moved.value.unresolved == call.unresolved))
  {
  }

  lemma {:induction false} MovedCallsInRange(symbols: seq<Symbol>, base: nat, calls: seq<ArtifactCall>)
    ensures forall call :: call in MovedCalls(symbols, base, calls) ==>
              && base <= call.caller < base + |symbols|
              && (call.target.Some? ==> base <= call.target.value < base + |symbols|)
  {
    if calls == [] {
    } else {
      MovedCallsInRange(symbols, base, calls[..|calls| - 1]);
    }
  }

  lemma MergeValid(archive: Merged, member: Member)
    requires archive.Valid()
    ensures Merge(archive, member).Valid()
  {
    var base := |archive.symbols|;
    forall q: nat
      ensures q in Positioned(member.symbols, base, member.entryPoints) ==> q < base + |member.symbols|
      ensures q in Positioned(member.symbols, base, member.indirectReferences) ==> q < base + |member.symbols|
    {
      PositionedExactly(member.symbols, base, member.entryPoints, q);
      PositionedExactly(member.symbols, base, member.indirectReferences, q);
    }
    MovedCallsInRange(member.symbols, base, member.calls);
  }

  lemma {:induction false} MergeAllValid(members: seq<Member>)
    ensures MergeAll(members).Valid()
  {
    if members == [] {
    } else {
      MergeAllValid(members[..|members| - 1]);
      MergeValid(MergeAll(members[..|members| - 1]), members[|members| - 1]);
    }
  }

  /** What is merged first stays first. */
  lemma {:induction false} MergedPrefix(members: seq<Member>, i: nat)
    requires i <= |members|
    ensures MergeAll(members[..i]).symbols <= MergeAll(members).symbols
    ensures MergeAll(members[..i]).calls <= MergeAll(members).calls
    decreases |members|
  {
    if i == |members| {
      assert members[..i] == members;
    } else {
      var fewer := members[..|members| - 1];
      MergedPrefix(fewer, i);
      assert fewer[..i] == members[..i];
    }
  }

  lemma PrefixThenLast(members: seq<Member>, i: nat)
    requires i < |members|
    ensures MergeAll(members[..i + 1]) == Merge(MergeAll(members[..i]), members[i])
  {
    assert members[..i + 1][..i] == members[..i];
  }

  lemma LastSymbol(archive: Merged, member: Member, p: nat)
    requires p < |member.symbols|
    ensures |Merge(archive, member).symbols| == |archive.symbols| + |member.symbols|
    ensures Merge(archive, member).symbols[|archive.symbols| + p] == Wrapped(member.identity, member.symbols[p])
  {
  }

  lemma OwnSymbol(members: seq<Member>, i: nat, p: nat)
    requires i < |members| && p < |members[i].symbols|
    ensures var here := MergeAll(members[..i + 1]).symbols;
            && |here| == Base(members, i) + |members[i].symbols|
            && here[Base(members, i) + p] == Wrapped(members[i].identity, members[i].symbols[p])
  {
    LastSymbol(MergeAll(members[..i]), members[i], p);
    PrefixThenLast(members, i);
  }

  /** Member `i`'s symbol `p` sits in its block, wrapped. */
  lemma BlockSymbol(members: seq<Member>, i: nat, p: nat)
    requires i < |members| && p < |members[i].symbols|
    ensures Base(members, i) + p < |MergeAll(members).symbols|
    ensures MergeAll(members).symbols[Base(members, i) + p] == Wrapped(members[i].identity, members[i].symbols[p])
  {
    OwnSymbol(members, i, p);
    MergedPrefix(members, i + 1);
    StaysAt(MergeAll(members[..i + 1]).symbols, MergeAll(members).symbols, Base(members, i) + p);
  }

  /** The blocks lie one behind the other and fill the archive. */
  lemma {:induction false} SomeBlock(members: seq<Member>, q: nat) returns (i: nat)
    requires q < |MergeAll(members).symbols|
    ensures i < |members| && Base(members, i) <= q < Base(members, i) + |members[i].symbols|
    decreases |members|
  {
    var last := |members| - 1;
    if q < |MergeAll(members[..last]).symbols| {
      i := SomeBlock(members[..last], q);
      assert members[..last][..i] == members[..i];
    } else {
      i := last;
    }
  }

  lemma {:induction false} MovedCallsExact(member: Member, base: nat, k: nat, n: nat)
    requires SelfContained(member) && k < n <= |member.calls|
    ensures |MovedCalls(member.symbols, base, member.calls[..n])| == n
    ensures MovedCallOf(member.symbols, base, member.calls[k])
         == Some(MovedCalls(member.symbols, base, member.calls[..n])[k])
    decreases n
  {
    var fewer := member.calls[..n - 1];
    assert member.calls[..n][..n - 1] == fewer;
    assert member.calls[n - 1] in member.calls;
    assert Defines(member, member.calls[n - 1].caller);
    if n == 1 {
      assert fewer == [];
    } else {
      MovedCallsExact(member, base, if k == n - 1 then 0 else k, n - 1);
    }
  }

  lemma OwnCall(archive: Merged, member: Member, k: nat)
    requires k < |member.calls| && SelfContained(member)
    ensures var (merged, c) := (Merge(archive, member), |archive.calls| + k);
            && c < |merged.calls|
            && Some(merged.calls[c]) == MovedCallOf(member.symbols, |archive.symbols|, member.calls[k])
  {
    assert member.calls[..|member.calls|] == member.calls;
    MovedCallsExact(member, |archive.symbols|, k, |member.calls|);
  }

  lemma OwnBlockCall(members: seq<Member>, i: nat, k: nat, c: nat)
    requires i < |members| && k < |members[i].calls| && SelfContained(members[i]) && c == CallBase(members, i) + k
    ensures var here := MergeAll(members[..i + 1]).calls;
            && c < |here|
            && Some(here[c]) == MovedCallOf(members[i].symbols, Base(members, i), members[i].calls[k])
  {
    OwnCall(MergeAll(members[..i]), members[i], k);
    PrefixThenLast(members, i);
  }

  /** Member `i`'s call `k` sits in its block, moved. */
  lemma BlockCall(members: seq<Member>, i: nat, k: nat, c: nat)
    requires i < |members| && k < |members[i].calls| && SelfContained(members[i]) && c == CallBase(members, i) + k
    ensures c < |MergeAll(members).calls|
    ensures Some(MergeAll(members).calls[c])
         == MovedCallOf(members[i].symbols, Base(members, i), members[i].calls[k])
  {
    OwnBlockCall(members, i, k, c);
    MergedPrefix(members, i + 1);
    StaysAt(MergeAll(members[..i + 1]).calls, MergeAll(members).calls, c);
  }

  /** No call is dropped and none is added. */
  lemma {:induction false} CallCount(members: seq<Member>)
    requires forall member :: member in members ==> SelfContained(member)
    ensures |MergeAll(members).calls| == TotalCalls(members)
  {
    if members == [] {
    } else {
      var member := members[|members| - 1];
      CallCount(members[..|members| - 1]);
      assert member.calls[..|member.calls|] == member.calls;
      if member.calls != [] {
        MovedCallsExact(member, |MergeAll(members[..|members| - 1]).symbols|, 0, |member.calls|);
      }
    }
  }

  function TotalCalls(members: seq<Member>): nat {
    if members == [] then 0 else TotalCalls(members[..|members| - 1]) + |members[|members| - 1].calls|
  }

  /** Merged symbols once identities are assigned. */
  ghost function Finished(merged: Merged): (after: seq<Symbol>)
    requires merged.Valid()
  {
    Assigned(merged.symbols, merged.Roots(), merged.calls)
  }

  ghost function FinishedCalls(merged: Merged): (named: seq<ArtifactCall>)
    requires merged.Valid()
  {
    NamedCalls(Finished(merged), merged.calls)
  }

  lemma FinishedContent(merged: Merged, q: nat, content: Fingerprint)
    requires merged.Valid() && q < |merged.symbols| && merged.symbols[q].content == Some(content)
    ensures Finished(merged)[q].ContentIdentity() == content
  {
    ContentIsKept(merged.symbols, merged.Roots(), merged.calls, q);
  }

  lemma FinishedCallNames(merged: Merged, c: nat, q: nat)
    requires merged.Valid() && c < |merged.calls| && q < |merged.symbols|
    ensures var (after, named, call) := (Finished(merged)[q].fingerprint, FinishedCalls(merged)[c], merged.calls[c]);
            && (after == named.caller <==> q == call.caller)
            && (Some(after) == named.target <==> Some(q) == call.target)
            && named.target.Some? == call.target.Some?
            && named.unresolved == call.unresolved
  {
    ApartTakesNone(merged.symbols, merged.Roots(), merged.calls);
    CallsNameTheirSymbols(merged.symbols, merged.Roots(), merged.calls, c, q);
    assert merged.calls[c] in merged.calls;
  }

  lemma FinishedRoot(merged: Merged, roots: seq<nat>, q: nat)
    requires merged.Valid() && q < |merged.symbols| && forall p :: p in roots ==> p < |merged.symbols|
    ensures Finished(merged)[q].fingerprint in FingerprintsOf(Finished(merged), roots) <==> q in roots
  {
    FingerprintsUnique(merged.symbols, merged.Roots(), merged.calls);
    var after := Finished(merged);
    if after[q].fingerprint in FingerprintsOf(after, roots) {
      var p :| p in roots && after[p].fingerprint == after[q].fingerprint;
      assert p == q;
    }
  }

  /** Position `q` of the archive is member `i`'s symbol carrying `f`. */
  ghost predicate Holds(members: seq<Member>, i: nat, f: Fingerprint, q: nat)
    requires i < |members|
  {
    && Base(members, i) <= q < Base(members, i) + |members[i].symbols|
    && members[i].symbols[q - Base(members, i)].fingerprint == f
  }

  lemma HoldsAtOnePosition(members: seq<Member>, i: nat, f: Fingerprint, q: nat)
    requires i < |members| && SelfContained(members[i]) && Defines(members[i], f)
    ensures PositionOf(members[i].symbols, f).Some?
    ensures Holds(members, i, f, q) <==> Some(q) == Shift(Base(members, i), PositionOf(members[i].symbols, f))
  {
    if Holds(members, i, f, q) {
      PositionIsUnique(members[i].symbols, q - Base(members, i));
    }
  }

  /** Every archive symbol has a fingerprint of its own, even in byte-identical members. */
  lemma ArchiveUnique(members: seq<Member>)
    ensures MergeAll(members).Valid() && Unique(Finished(MergeAll(members)))
  {
    MergeAllValid(members);
    var merged := MergeAll(members);
    FingerprintsUnique(merged.symbols, merged.Roots(), merged.calls);
  }

  /** Every member symbol is in the archive, and keeps the identity comparisons pair by. */
  lemma ArchiveKeepsContent(members: seq<Member>, i: nat, p: nat)
    requires i < |members| && p < |members[i].symbols|
    ensures MergeAll(members).Valid() && Base(members, i) + p < |MergeAll(members).symbols|
    ensures Finished(MergeAll(members))[Base(members, i) + p].ContentIdentity()
         == members[i].symbols[p].ContentIdentity()
  {
    var merged, q, content := MergeAll(members), Base(members, i) + p, members[i].symbols[p].ContentIdentity();
    MergeAllValid(members);
    BlockSymbol(members, i, p);
    assert merged.symbols[q].content == Some(content);
    FinishedContent(merged, q, content);
  }

  lemma MovedCallJoins(members: seq<Member>, i: nat, call: ArtifactCall, moved: PositionalCall, q: nat)
    requires i < |members| && SelfContained(members[i]) && call in members[i].calls
    requires MovedCallOf(members[i].symbols, Base(members, i), call) == Some(moved)
    ensures q == moved.caller <==> Holds(members, i, call.caller, q)
    ensures Some(q) == moved.target <==> call.target.Some? && Holds(members, i, call.target.value, q)
    ensures moved.target.Some? == call.target.Some? && moved.unresolved == call.unresolved
  {
    HoldsAtOnePosition(members, i, call.caller, q);
    if call.target.Some? {
      HoldsAtOnePosition(members, i, call.target.value, q);
    }
  }

  /** Each member's call joins, in the whole archive, exactly that member's own two symbols. */
  lemma ArchiveKeepsCalls(members: seq<Member>, i: nat, k: nat, c: nat, q: nat)
    requires i < |members| && k < |members[i].calls| && SelfContained(members[i]) && c == CallBase(members, i) + k
    requires q < |MergeAll(members).symbols|
    ensures MergeAll(members).Valid() && c < |MergeAll(members).calls|
    ensures var after := Finished(MergeAll(members))[q].fingerprint;
            var named := FinishedCalls(MergeAll(members))[c];
            var call := members[i].calls[k];
            && (after == named.caller <==> Holds(members, i, call.caller, q))
            && (Some(after) == named.target <==> call.target.Some? && Holds(members, i, call.target.value, q))
            && named.target.Some? == call.target.Some?
            && named.unresolved == call.unresolved
  {
    MergeAllValid(members);
    BlockCall(members, i, k, c);
    FinishedCallNames(MergeAll(members), c, q);
    MovedCallJoins(members, i, members[i].calls[k], MergeAll(members).calls[c], q);
  }

  /** An archive symbol is an entry point exactly when its member says so; likewise for indirect references. */
  lemma ArchiveKeepsRoots(members: seq<Member>, i: nat, p: nat)
    requires i < |members| && p < |members[i].symbols| && Unique(members[i].symbols)
    ensures MergeAll(members).Valid() && Base(members, i) + p < |MergeAll(members).symbols|
    ensures var merged := MergeAll(members);
            var after := Finished(merged);
            var f := after[Base(members, i) + p].fingerprint;
            && (f in FingerprintsOf(after, merged.entryPoints)
                <==> members[i].symbols[p].fingerprint in members[i].entryPoints)
            && (f in FingerprintsOf(after, merged.indirectReferences)
                <==> members[i].symbols[p].fingerprint in members[i].indirectReferences)
  {
    MergeAllValid(members);
    BlockSymbol(members, i, p);
    BlockRoots(members, i, p, Base(members, i) + p);
    ListedIsNamed(members[i].symbols, members[i].entryPoints, p);
    ListedIsNamed(members[i].symbols, members[i].indirectReferences, p);
    FinishedRoot(MergeAll(members), MergeAll(members).entryPoints, Base(members, i) + p);
    FinishedRoot(MergeAll(members), MergeAll(members).indirectReferences, Base(members, i) + p);
  }

  /** Some listed root is located at symbol `p`. */
  ghost predicate Listed(symbols: seq<Symbol>, roots: seq<Fingerprint>, p: nat) {
    exists i :: 0 <= i < |roots| && PositionOf(symbols, roots[i]) == Some(p)
  }

  /** When no two symbols share a fingerprint, the listed symbols are those whose fingerprint is. */
  lemma ListedIsNamed(symbols: seq<Symbol>, roots: seq<Fingerprint>, p: nat)
    requires Unique(symbols) && p < |symbols|
    ensures Listed(symbols, roots, p) <==> symbols[p].fingerprint in roots
  {
    PositionIsUnique(symbols, p);
    if symbols[p].fingerprint in roots {
      var i :| 0 <= i < |roots| && roots[i] == symbols[p].fingerprint;
    }
  }

  /** One member's roots, located behind `base`, are the symbols it lists. */
  lemma OwnRoots(symbols: seq<Symbol>, base: nat, roots: seq<Fingerprint>, p: nat)
    ensures base + p in Positioned(symbols, base, roots) <==> Listed(symbols, roots, p)
  {
    PositionedExactly(symbols, base, roots, base + p);
    if RootAt(symbols, base, roots, base + p) {
      var i :| 0 <= i < |roots| && Shift(base, PositionOf(symbols, roots[i])) == Some(base + p);
      assert PositionOf(symbols, roots[i]) == Some(p);
    }
    if Listed(symbols, roots, p) {
      var i :| 0 <= i < |roots| && PositionOf(symbols, roots[i]) == Some(p);
      assert Shift(base, PositionOf(symbols, roots[i])) == Some(base + p);
    }
  }

  /** Roots of other members lie in other blocks. */
  lemma OtherRoots(symbols: seq<Symbol>, base: nat, roots: seq<Fingerprint>, q: nat)
    requires q < base || base + |symbols| <= q
    ensures q !in Positioned(symbols, base, roots)
  {
    PositionedExactly(symbols, base, roots, q);
  }

  /** Position `q` is a root of the merged archive, for either root list, when `member` lists its symbol `p`. */
  ghost predicate RootsSay(merged: Merged, q: nat, member: Member, p: nat) {
    && (q in merged.entryPoints <==> Listed(member.symbols, member.entryPoints, p))
    && (q in merged.indirectReferences <==> Listed(member.symbols, member.indirectReferences, p))
  }

  lemma LastRoots(archive: Merged, member: Member, p: nat, q: nat)
    requires archive.Valid() && q == |archive.symbols| + p
    ensures RootsSay(Merge(archive, member), q, member, p)
  {
    OwnRoots(member.symbols, |archive.symbols|, member.entryPoints, p);
    OwnRoots(member.symbols, |archive.symbols|, member.indirectReferences, p);
  }

  lemma EarlierRoots(archive: Merged, later: Member, q: nat, member: Member, p: nat)
    requires q < |archive.symbols| && RootsSay(archive, q, member, p)
    ensures RootsSay(Merge(archive, later), q, member, p)
  {
    OtherRoots(later.symbols, |archive.symbols|, later.entryPoints, q);
    OtherRoots(later.symbols, |archive.symbols|, later.indirectReferences, q);
  }

  /** Members merged later root nothing that is there already. */
  lemma {:induction false} RootsStay(members: seq<Member>, n: nat, q: nat, member: Member, p: nat)
    requires n <= |members| && q < |MergeAll(members[..n]).symbols|
    requires RootsSay(MergeAll(members[..n]), q, member, p)
    ensures RootsSay(MergeAll(members), q, member, p)
    decreases |members|
  {
    if n == |members| {
      assert members[..n] == members;
    } else {
      var fewer := members[..|members| - 1];
      assert fewer[..n] == members[..n];
      RootsStay(fewer, n, q, member, p);
      MergedPrefix(fewer, n);
      EarlierRoots(MergeAll(fewer), members[|members| - 1], q, member, p);
    }
  }

  lemma BlockRoots(members: seq<Member>, i: nat, p: nat, q: nat)
    requires i < |members| && p < |members[i].symbols| && q == Base(members, i) + p
    ensures RootsSay(MergeAll(members), q, members[i], p)
  {
    MergeAllValid(members[..i]);
    PrefixThenLast(members, i);
    LastRoots(MergeAll(members[..i]), members[i], p, q);
    LastSymbol(MergeAll(members[..i]), members[i], p);
    RootsStay(members, i + 1, q, members[i], p);
  }

  lemma BaseStays(members: seq<Member>, i: nat)
    requires i < |members|
    ensures Base(members, i) == Base(members[..|members| - 1], i)
  {
    assert members[..|members| - 1][..i] == members[..i];
  }
}
