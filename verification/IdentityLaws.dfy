/**
Laws of whole identity assignments: uniqueness, what stays, independence of
order, and non-interference of unrelated symbols.
*/
module IdentityLaws {
  import opened CallGraph
  import opened Coarsest
  import opened Fingerprints
  import opened Identity
  import opened Numbering
  import opened Tallies
  import opened Wrappers

  ghost predicate Unique(symbols: seq<Symbol>) {
    forall p, q :: 0 <= p < q < |symbols| ==> symbols[p].fingerprint != symbols[q].fingerprint
  }

  lemma {:induction false} SubsetSmaller(A: set<nat>, B: set<nat>)
    requires A <= B
    ensures |A| <= |B|
    decreases |A|
  {
    if A == {} {
    } else {
      var p :| p in A;
      SubsetSmaller(A - {p}, B - {p});
    }
  }

  /** Of two members of one tie group the earlier carries the smaller number. */
  lemma NumbersDiffer(copies: set<nat>, final: seq<Fingerprint>, p: nat, q: nat)
    requires p < q < |final| && p in copies && q in copies && final[p] == final[q]
    ensures Number(copies, final, p).Some? && Number(copies, final, q).Some?
    ensures Number(copies, final, p).value < Number(copies, final, q).value
  {
    var group := Group(copies, final, final[p]);
    SubsetSmaller({p, q}, group);
    assert |{p, q}| == 2;
    SubsetSmaller(Below(group, p) + {p}, Below(group, q));
    assert |Below(group, p) + {p}| == |Below(group, p)| + 1;
  }

  /** No symbol keeps a fingerprint that some copy is given. */
  ghost predicate NoneTaken(symbols: seq<Symbol>, after: seq<Symbol>)
    requires |after| == |symbols|
  {
    forall p, q :: 0 <= p < |symbols| && p !in Copies(symbols) && q in Copies(symbols) ==>
      symbols[p].fingerprint != after[q].fingerprint
  }

  /** Every symbol ends with a fingerprint of its own exactly when no symbol kept one that a copy is given. */
  lemma UniqueExactly(symbols: seq<Symbol>, roots: set<nat>, calls: seq<PositionalCall>)
    requires InRange(calls, |symbols|)
    ensures Unique(Assigned(symbols, roots, calls)) <==> NoneTaken(symbols, Assigned(symbols, roots, calls))
  {
    InstanceOfValid(symbols, roots, calls);
    var final, after := InstanceOf(symbols, roots, calls).FinalColours(), Assigned(symbols, roots, calls);
    if NoneTaken(symbols, after) {
      forall p, q | 0 <= p < q < |symbols|
        ensures after[p].fingerprint != after[q].fingerprint
      {
        NumberedDiffer(symbols, final, p, q);
      }
    }
    if Unique(after) {
      UniqueTakesNone(symbols, final);
    }
  }

  lemma NumberedDiffer(symbols: seq<Symbol>, final: seq<Fingerprint>, p: nat, q: nat)
    requires |final| == |symbols| && p < q < |symbols|
    requires NoneTaken(symbols, Numbered(symbols, Copies(symbols), final))
    ensures var after := Numbered(symbols, Copies(symbols), final); after[p].fingerprint != after[q].fingerprint
  {
    var copies := Copies(symbols);
    if p in copies && q in copies {
      if final[p] == final[q] {
        NumbersDiffer(copies, final, p, q);
      }
    } else if p !in copies && q !in copies {
      assert !Shared(symbols, p);
    }
  }

  lemma UniqueTakesNone(symbols: seq<Symbol>, final: seq<Fingerprint>)
    requires |final| == |symbols| && Unique(Numbered(symbols, Copies(symbols), final))
    ensures NoneTaken(symbols, Numbered(symbols, Copies(symbols), final))
  {
    var after := Numbered(symbols, Copies(symbols), final);
    forall p, q | 0 <= p < |symbols| && p !in Copies(symbols) && q in Copies(symbols)
      ensures symbols[p].fingerprint != after[q].fingerprint
    {
      assert after[p] == symbols[p];
    }
  }

  /** A symbol no other shares its fingerprint with does not carry one made for a copy of a content shared here. */
  ghost predicate Apart(symbols: seq<Symbol>) {
    forall p, q :: 0 <= p < |symbols| && p !in Copies(symbols) && q in Copies(symbols) ==>
      !(symbols[p].fingerprint.Copy? && symbols[p].fingerprint.content == symbols[q].fingerprint)
  }

  /** Fingerprints that are not made for copies at all are apart. */
  lemma BackendsAreApart(symbols: seq<Symbol>)
    requires forall p :: 0 <= p < |symbols| ==> !symbols[p].fingerprint.Copy?
    ensures Apart(symbols)
  {
  }

  lemma ApartTakesNone(symbols: seq<Symbol>, roots: set<nat>, calls: seq<PositionalCall>)
    requires InRange(calls, |symbols|) && Apart(symbols)
    ensures NoneTaken(symbols, Assigned(symbols, roots, calls))
  {
    var after := Assigned(symbols, roots, calls);
    forall p, q | 0 <= p < |symbols| && p !in Copies(symbols) && q in Copies(symbols)
      ensures symbols[p].fingerprint != after[q].fingerprint
    {
      assert after[q].fingerprint.Copy? && after[q].fingerprint.content == symbols[q].fingerprint;
    }
  }

  /** Every symbol ends with a fingerprint of its own, whatever the symbols, roots and calls. */
  lemma FingerprintsUnique(symbols: seq<Symbol>, roots: set<nat>, calls: seq<PositionalCall>)
    requires InRange(calls, |symbols|) && Apart(symbols)
    ensures Unique(Assigned(symbols, roots, calls))
  {
    ApartTakesNone(symbols, roots, calls);
    UniqueExactly(symbols, roots, calls);
  }

  /** A recorded call names exactly the two symbols its positional call pointed at. */
  lemma CallsNameTheirSymbols(symbols: seq<Symbol>, roots: set<nat>, calls: seq<PositionalCall>, i: nat, p: nat)
    requires InRange(calls, |symbols|) && i < |calls| && p < |symbols|
    requires NoneTaken(symbols, Assigned(symbols, roots, calls))
    ensures var after := Assigned(symbols, roots, calls);
            var named := NamedCalls(after, calls)[i];
            && (after[p].fingerprint == named.caller <==> p == calls[i].caller)
            && (Some(after[p].fingerprint) == named.target <==> Some(p) == calls[i].target)
            && named.target.Some? == calls[i].target.Some?
            && named.unresolved == calls[i].unresolved
  {
    UniqueExactly(symbols, roots, calls);
    assert calls[i] in calls;
    assert CallInRange(calls[i], |symbols|);
    var after := Assigned(symbols, roots, calls);
    assert p != calls[i].caller ==> after[p].fingerprint != after[calls[i].caller].fingerprint;
  }

  /** Only copies change, and what builds are matched on never does. */
  lemma ContentIsKept(symbols: seq<Symbol>, roots: set<nat>, calls: seq<PositionalCall>, p: nat)
    requires InRange(calls, |symbols|) && p < |symbols|
    ensures var after := Assigned(symbols, roots, calls);
            && after[p].ContentIdentity() == symbols[p].ContentIdentity()
            && (p in Copies(symbols) ==> after[p].content == Some(symbols[p].ContentIdentity()))
            && (p !in Copies(symbols) <==> after[p].fingerprint == symbols[p].fingerprint)
            && (p !in Copies(symbols) ==> after[p] == symbols[p])
  {
    if p in Copies(symbols) {
      CopyIsLarger(symbols[p].fingerprint, Assigned(symbols, roots, calls)[p].fingerprint);
    }
  }

  lemma CopyIsLarger(content: Fingerprint, copy: Fingerprint)
    requires copy.Copy? && copy.content == content
    ensures copy != content
  {
    assert copy.content < copy;
  }

  /** Assigning identities once more, under any roots and calls, changes nothing exactly when no copy's was taken. */
  lemma AssigningTwice(symbols: seq<Symbol>, roots: set<nat>, calls: seq<PositionalCall>,
                       otherRoots: set<nat>, otherCalls: seq<PositionalCall>)
    requires InRange(calls, |symbols|) && InRange(otherCalls, |symbols|)
    ensures var once := Assigned(symbols, roots, calls);
            Assigned(once, otherRoots, otherCalls) == once <==> NoneTaken(symbols, once)
  {
    UniqueExactly(symbols, roots, calls);
    UniqueIsFixed(Assigned(symbols, roots, calls), otherRoots, otherCalls);
  }

  lemma UniqueIsFixed(symbols: seq<Symbol>, roots: set<nat>, calls: seq<PositionalCall>)
    requires InRange(calls, |symbols|)
    ensures Assigned(symbols, roots, calls) == symbols <==> Unique(symbols)
  {
    if Unique(symbols) {
      forall p | 0 <= p < |symbols|
        ensures !Shared(symbols, p)
      {
      }
    }
    forall p, q | 0 <= p < q < |symbols| && symbols[p].fingerprint == symbols[q].fingerprint
      ensures Assigned(symbols, roots, calls)[p] != symbols[p]
    {
      assert Shared(symbols, p);
      ContentIsKept(symbols, roots, calls, p);
    }
  }

  /** Reordering or repeating calls changes no symbol. */
  lemma CallOrderIrrelevant(symbols: seq<Symbol>, roots: set<nat>, calls: seq<PositionalCall>,
                            others: seq<PositionalCall>)
    requires InRange(calls, |symbols|) && InRange(others, |symbols|)
    requires forall call :: call in calls <==> call in others
    ensures Assigned(symbols, roots, calls) == Assigned(symbols, roots, others)
  {
    forall p: nat
      ensures CallersOf(calls, p) == CallersOf(others, p)
      ensures CalleesOf(calls, p) == CalleesOf(others, p)
      ensures UnresolvedOf(calls, p) == UnresolvedOf(others, p)
    {
    }
    assert GraphOf(|symbols|, calls) == GraphOf(|symbols|, others);
  }

  lemma SharedColourIsNumbered(symbols: seq<Symbol>, copies: set<nat>, final: seq<Fingerprint>, p: nat, q: nat)
    requires |final| == |symbols| && p < |final| && q < |final| && p != q
    requires p in copies && q in copies && final[p] == final[q]
    ensures var after := Numbered(symbols, copies, final);
            && after[p].fingerprint.Copy? && after[q].fingerprint.Copy?
            && after[p].fingerprint.number.Some? && after[q].fingerprint.number.Some?
            && after[p].identityByOrder && after[q].identityByOrder
  {
    if p < q {
      NumbersDiffer(copies, final, p, q);
    } else {
      NumbersDiffer(copies, final, q, p);
    }
  }

  /** Copies some stable partition of the whole call graph puts together end up numbered. */
  lemma IndistinguishableCopiesAreNumbered(symbols: seq<Symbol>, roots: set<nat>, calls: seq<PositionalCall>,
                                           p: nat, q: nat)
    requires InRange(calls, |symbols|)
    requires p in Copies(symbols) && q in Copies(symbols) && p != q
    ensures var after := Assigned(symbols, roots, calls);
            StableTogether(InstanceOf(symbols, roots, calls), p, q) ==>
              && after[p].fingerprint.Copy? && after[q].fingerprint.Copy?
              && after[p].fingerprint.number.Some? && after[q].fingerprint.number.Some?
              && after[p].identityByOrder && after[q].identityByOrder
  {
    InstanceOfValid(symbols, roots, calls);
    var X := InstanceOf(symbols, roots, calls);
    if StableTogether(X, p, q) {
      StableTogetherAgrees(X, p, q);
      SharedColourIsNumbered(symbols, X.copies, X.FinalColours(), p, q);
    }
  }
}
