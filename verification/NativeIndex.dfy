/** The symbol index as an object: sections are indexed one by one, then looked up. */
module NativeIndex {
  import opened Boundaries
  import opened Bytes
  import opened Sorting
  import opened SymbolIndexes
  import opened Wrappers

  /** The section's view as `index_section` derives it from the symbol table. */
  function SectionViewOf(thumb: bool, section: nat, sectionStart: nat, sectionEnd: nat, base: nat,
                         symbols: seq<TextSymbol>, trim: (nat, nat) -> nat): SectionView {
    var kept := Kept(thumb, sectionStart, sectionEnd, symbols);
    View(section, base, kept, Naive(Extents(kept), sectionEnd, |kept|), trim)
  }

  /** An alias retains nothing, a declared size its whole range, an inferred one what trimming leaves of it. */
  ghost predicate RetainsExactly(view: SectionView, trim: (nat, nat) -> nat) {
    && |view.kept| == |view.boundaries| == |view.retained|
    && forall i :: 0 <= i < |view.kept| ==>
         var (address, end) := (view.kept[i].address, view.boundaries[i].end);
         && address <= end
         && view.retained[i]
            == if view.boundaries[i].owner != None then 0
               else if view.kept[i].size != 0 then end - address
               else trim(address, end - address)
  }

  /** Every kept symbol gets a record of its own behind those there were. */
  ghost predicate RecordsExactly(view: SectionView, sectionStart: nat, records: seq<Record>, more: seq<Record>)
    requires |view.kept| == |view.retained|
  {
    && |more| == |records| + |view.kept| && more[..|records|] == records
    && forall i :: 0 <= i < |view.kept| ==>
         && view.kept[i].address >= sectionStart
         && more[|records| + i] == Record(view.section, view.kept[i].address - sectionStart, view.retained[i],
                                          view.kept[i].size == 0)
  }

  lemma ViewRetains(view: SectionView, sectionStart: nat, sectionEnd: nat, trim: (nat, nat) -> nat)
    requires SortedByAddress(Extents(view.kept)) && InSection(Extents(view.kept), sectionStart, sectionEnd)
    requires view == View(view.section, view.base, view.kept,
                          Naive(Extents(view.kept), sectionEnd, |view.kept|), trim)
    requires Trims(trim)
    ensures RetainsExactly(view, trim)
  {
    forall i | 0 <= i < |view.kept|
      ensures var (address, end) := (view.kept[i].address, view.boundaries[i].end);
              && address <= end
              && (view.boundaries[i].owner != None ==> end == address)
    {
      var entries := Extents(view.kept);
      OwnedRangeInSection(entries, sectionStart, sectionEnd, i);
      if view.boundaries[i].owner == None {
        OwnerEndIs(entries, sectionEnd, i);
      } else {
        AliasEndIs(entries, sectionEnd, i);
      }
    }
  }

  /** An entry that owns bytes, and every entry after it. */
  lemma PairFits(kept: seq<TextSymbol>, sectionStart: nat, sectionEnd: nat, i: nat, j: nat)
    requires SortedByAddress(Extents(kept)) && InSection(Extents(kept), sectionStart, sectionEnd)
    requires i < j < |kept| && ComesFirst(kept[i], kept[j])
    requires Naive(Extents(kept), sectionEnd, |kept|)[i].owner.None?
    ensures var boundaries := Naive(Extents(kept), sectionEnd, |kept|);
            && (boundaries[j].owner.None? ==> boundaries[i].end <= kept[j].address)
            && (kept[j].address < boundaries[i].end ==> boundaries[j].owner == Some(i))
            && (boundaries[j].owner.None? && kept[i].address == kept[j].address ==>
                  boundaries[j].end <= kept[j].address)
  {
    var entries := Extents(kept);
    var boundaries := Naive(entries, sectionEnd, |kept|);
    if boundaries[j].owner.None? {
      OwnersDisjoint(entries, sectionEnd, i, j);
      if kept[i].address == kept[j].address {
        OwnerEndIs(entries, sectionEnd, i);
        OwnerEndIs(entries, sectionEnd, j);
        TwinOwnersAreEmpty(entries, sectionEnd, i, j);
      }
    }
    if kept[j].address < boundaries[i].end {
      CoveredMeansAlias(entries, sectionEnd, i, j);
    }
  }

  lemma EntryFits(section: nat, base: nat, kept: seq<TextSymbol>, sectionStart: nat, sectionEnd: nat,
                  trim: (nat, nat) -> nat, i: nat)
    requires SortedByAddress(Extents(kept)) && InSection(Extents(kept), sectionStart, sectionEnd)
    requires Trims(trim) && i < |kept|
    ensures var view := View(section, base, kept, Naive(Extents(kept), sectionEnd, |kept|), trim);
            && (view.boundaries[i].owner.Some? ==> view.Covered(i))
            && view.Keeps(i)
  {
    var entries := Extents(kept);
    var view := View(section, base, kept, Naive(entries, sectionEnd, |kept|), trim);
    if view.Owns(i) {
      OwnerEndIs(entries, sectionEnd, i);
      OwnedRangeInSection(entries, sectionStart, sectionEnd, i);
    } else {
      AliasEndIs(entries, sectionEnd, i);
      AliasIsCovered(entries, sectionEnd, i);
      var owner := view.boundaries[i].owner.value;
      OwnerEndIs(entries, sectionEnd, owner);
      if kept[owner].size == 0 {
        InferredAlias(entries, sectionEnd, owner, i);
      }
    }
  }

  /** Boundaries of kept symbols make a view whose owners and aliases fit together. */
  lemma ViewFits(section: nat, base: nat, kept: seq<TextSymbol>, sectionStart: nat, sectionEnd: nat,
                 trim: (nat, nat) -> nat)
    requires SortedByAddress(Extents(kept)) && InSection(Extents(kept), sectionStart, sectionEnd)
    requires SortedBy(kept, ComesFirst) && Trims(trim)
    ensures View(section, base, kept, Naive(Extents(kept), sectionEnd, |kept|), trim).Fits()
  {
    var view := View(section, base, kept, Naive(Extents(kept), sectionEnd, |kept|), trim);
    forall i | 0 <= i < |kept|
      ensures view.boundaries[i].owner.Some? ==> view.Covered(i)
      ensures view.Keeps(i)
    {
      EntryFits(section, base, kept, sectionStart, sectionEnd, trim, i);
    }
    forall i, j | 0 <= i < j < |kept| && view.Owns(i)
      ensures view.Owns(j) ==> view.boundaries[i].end <= kept[j].address
      ensures kept[j].address < view.boundaries[i].end ==> view.boundaries[j].owner == Some(i)
      ensures view.Owns(j) && kept[i].address == kept[j].address ==> view.boundaries[j].end <= kept[j].address
    {
      PairFits(kept, sectionStart, sectionEnd, i, j);
    }
  }

  /** Every kept symbol's owned bytes lie in the section. */
  ghost predicate BytesExist(view: SectionView, sectionStart: nat, sectionEnd: nat)
    requires |view.kept| == |view.boundaries|
  {
    forall i :: 0 <= i < |view.kept| ==>
      sectionStart <= view.kept[i].address <= view.boundaries[i].end <= sectionEnd
  }

  lemma OwnedBytesExist(view: SectionView, sectionStart: nat, sectionEnd: nat)
    requires SortedByAddress(Extents(view.kept)) && InSection(Extents(view.kept), sectionStart, sectionEnd)
    requires view.boundaries == Naive(Extents(view.kept), sectionEnd, |view.kept|)
    ensures BytesExist(view, sectionStart, sectionEnd)
  {
    var entries := Extents(view.kept);
    forall i | 0 <= i < |view.kept|
      ensures sectionStart <= view.kept[i].address <= view.boundaries[i].end <= sectionEnd
    {
      OwnedRangeInSection(entries, sectionStart, sectionEnd, i);
      if view.Owns(i) {
        OwnerEndIs(entries, sectionEnd, i);
      } else {
        AliasEndIs(entries, sectionEnd, i);
      }
    }
  }

  ghost predicate DistinctIndices(symbols: seq<TextSymbol>) {
    forall i, j :: 0 <= i < j < |symbols| ==> symbols[i].index != symbols[j].index
  }

  ghost predicate HasIndex(symbols: seq<TextSymbol>, index: nat) {
    exists i :: 0 <= i < |symbols| && symbols[i].index == index
  }

  lemma {:induction false} FilteredFrom(thumb: bool, sectionStart: nat, sectionEnd: nat, symbols: seq<TextSymbol>,
                                        kept: TextSymbol)
    requires kept in Filtered(thumb, sectionStart, sectionEnd, symbols)
    ensures Normalized(thumb, kept.address) == kept.address && HasIndex(symbols, kept.index)
  {
    if kept in Filtered(thumb, sectionStart, sectionEnd, symbols[1..]) {
      FilteredFrom(thumb, sectionStart, sectionEnd, symbols[1..], kept);
      var i :| 0 <= i < |symbols[1..]| && symbols[1..][i].index == kept.index;
      assert symbols[i + 1].index == kept.index;
    } else {
      assert symbols[0].index == kept.index;
    }
  }

  lemma {:induction false} FilteredDistinct(thumb: bool, sectionStart: nat, sectionEnd: nat, symbols: seq<TextSymbol>)
    requires DistinctIndices(symbols)
    ensures DistinctIndices(Filtered(thumb, sectionStart, sectionEnd, symbols))
  {
    if symbols == [] {
    } else {
      var rest := Filtered(thumb, sectionStart, sectionEnd, symbols[1..]);
      FilteredDistinct(thumb, sectionStart, sectionEnd, symbols[1..]);
      forall i | 0 <= i < |rest|
        ensures rest[i].index != symbols[0].index
      {
        FilteredFrom(thumb, sectionStart, sectionEnd, symbols[1..], rest[i]);
        var j :| 0 <= j < |symbols[1..]| && symbols[1..][j].index == rest[i].index;
        assert symbols[j + 1].index == rest[i].index;
      }
    }
  }

  lemma {:induction false} CountedOnce(symbols: seq<TextSymbol>, symbol: TextSymbol)
    requires DistinctIndices(symbols)
    ensures multiset(symbols)[symbol] <= 1
  {
    if symbols == [] {
    } else {
      var last := |symbols| - 1;
      CountedOnce(symbols[..last], symbol);
      assert symbols == symbols[..last] + [symbols[last]];
      if symbols[last] == symbol {
        assert symbol !in symbols[..last];
      }
    }
  }

  /** Distinct symbol-table indices stay distinct through filtering and sorting. */
  lemma KeptDistinct(thumb: bool, sectionStart: nat, sectionEnd: nat, symbols: seq<TextSymbol>)
    requires DistinctIndices(symbols)
    ensures DistinctIndices(Kept(thumb, sectionStart, sectionEnd, symbols))
    ensures forall i :: 0 <= i < |Kept(thumb, sectionStart, sectionEnd, symbols)| ==>
              var address := Kept(thumb, sectionStart, sectionEnd, symbols)[i].address;
              Normalized(thumb, address) == address
  {
    var filtered := Filtered(thumb, sectionStart, sectionEnd, symbols);
    var kept := Kept(thumb, sectionStart, sectionEnd, symbols);
    FilteredDistinct(thumb, sectionStart, sectionEnd, symbols);
    forall i | 0 <= i < |kept|
      ensures kept[i] in filtered
    {
      SameMembers(kept, filtered, kept[i]);
    }
    forall i | 0 <= i < |kept|
      ensures Normalized(thumb, kept[i].address) == kept[i].address
    {
      FilteredFrom(thumb, sectionStart, sectionEnd, symbols, kept[i]);
    }
    forall i, j | 0 <= i < j < |kept|
      ensures kept[i].index != kept[j].index
    {
      if kept[i] == kept[j] {
        assert kept == kept[..j] + kept[j..];
        assert kept[i] in kept[..j] && kept[j] in kept[j..];
        CountedOnce(filtered, kept[i]);
        assert false;
      }
    }
  }

  /** Filter, sort and bound a section's symbols. */
  method LayOut(thumb: bool, section: nat, sectionStart: nat, sectionEnd: nat, base: nat, symbols: seq<TextSymbol>,
                trim: (nat, nat) -> nat)
      returns (view: SectionView)
    requires sectionStart <= sectionEnd <= U64_MAX && Trims(trim)
    requires forall symbol :: symbol in symbols ==> symbol.address <= U64_MAX
    ensures view == SectionViewOf(thumb, section, sectionStart, sectionEnd, base, symbols, trim)
    ensures view.Fits() && BytesExist(view, sectionStart, sectionEnd)
    ensures KeepsExactly(thumb, sectionStart, sectionEnd, symbols, view.kept) && RetainsExactly(view, trim)
    ensures forall i :: 0 <= i < |view.kept| ==> Bounds(Extents(view.kept), sectionEnd, view.boundaries, i)
  {
    KeptIs(thumb, sectionStart, sectionEnd, symbols);
    var kept := Kept(thumb, sectionStart, sectionEnd, symbols);
    KeptInOrder(thumb, sectionStart, sectionEnd, symbols);
    SortSorted(Filtered(thumb, sectionStart, sectionEnd, symbols), ComesFirst);
    var boundaries := SymbolBoundaries(Extents(kept), sectionEnd);
    view := View(section, base, kept, boundaries, trim);
    ViewFits(section, base, kept, sectionStart, sectionEnd, trim);
    OwnedBytesExist(view, sectionStart, sectionEnd);
    ViewRetains(view, sectionStart, sectionEnd, trim);
  }

  /** The tables one object's text symbols are looked up in. */
  class SymbolIndex {
    const thumb: bool
    var bySymbol: map<nat, nat>
    var byStart: map<(nat, nat), nat>
    var spans: map<nat, seq<Span>>
    var textSections: set<nat>

    ghost predicate Valid()
      reads this
    {
      && spans.Keys == textSections
      && (forall section :: section in spans ==> Disjoint(spans[section]) && OwnRecords(spans[section]))
      && forall key :: key in byStart ==> key.0 in textSections
    }

    constructor (thumb: bool)
      ensures Valid() && this.thumb == thumb
      ensures bySymbol == map[] && byStart == map[] && spans == map[] && textSections == {}
    {
      this.thumb := thumb;
      bySymbol, byStart, spans, textSections := map[], map[], map[], {};
    }

    /** `symbol_owner`: by symbol-table index. */
    function SymbolOwner(symbol: nat): Option<nat>
      reads this
    {
      Lookup(bySymbol, symbol)
    }

    /** `at_section_address`: by start address, thumb bit aside. */
    function AtSectionAddress(section: nat, address: nat): Option<nat>
      reads this
    {
      Lookup(byStart, (section, Normalized(thumb, address)))
    }

    /** `containing`: by any address inside a retained span. */
    function Containing(section: nat, address: nat): Option<nat>
      requires Valid()
      reads this
    {
      if section in spans then HolderOf(spans[section], address) else None
    }

    /** Containment finds the one retained span holding the address, or there is none. */
    lemma ContainingIsExact(section: nat, address: nat, position: nat)
      requires Valid() && section in spans
      ensures Containing(section, address) == Some(position)
          <==> exists span :: span in spans[section] && span.position == position && span.start <= address < span.end
    {
    }

    /** Enter one kept symbol, in address order, into the tables. */
    method Enter(view: SectionView, i: nat, ghost symbols: map<nat, nat>, ghost starts: map<(nat, nat), nat>,
                 found: seq<Span>)
        returns (longer: seq<Span>)
      requires i < |view.kept| == |view.boundaries| == |view.retained|
      requires bySymbol == view.SymbolsTo(symbols, i) && byStart == view.StartsTo(starts, i)
      requires found == view.SpansTo(i)
      modifies this`bySymbol, this`byStart
      ensures bySymbol == view.SymbolsTo(symbols, i + 1) && byStart == view.StartsTo(starts, i + 1)
      ensures longer == view.SpansTo(i + 1)
    {
      var position := view.base + i;
      var boundary := view.boundaries[i];
      var owner := if boundary.owner.Some? then view.base + boundary.owner.value else position;
      var symbol := view.kept[i];
      bySymbol := bySymbol[symbol.index := owner];
      if (view.section, symbol.address) !in byStart {
        byStart := byStart[(view.section, symbol.address) := owner];
      }
      longer := found;
      if boundary.owner.None? && view.retained[i] != 0 {
        longer := found + [Span(symbol.address, symbol.address + view.retained[i], position)];
      }
    }

    /** Enter every symbol of a section, appending one record for each. */
    method EnterAll(view: SectionView, sectionStart: nat, dataLength: nat, records: seq<Record>)
        returns (more: seq<Record>, found: seq<Span>)
      requires |view.kept| == |view.boundaries| == |view.retained| && view.base == |records|
      requires BytesExist(view, sectionStart, SaturatingAdd(sectionStart, dataLength))
      modifies this`bySymbol, this`byStart
      ensures bySymbol == view.SymbolsTo(old(bySymbol), |view.kept|)
      ensures byStart == view.StartsTo(old(byStart), |view.kept|)
      ensures found == view.SpansTo(|view.kept|)
      ensures more == records + Records(view, sectionStart)
    {
      more, found := records, [];
      for i := 0 to |view.kept|
        invariant bySymbol == view.SymbolsTo(old(bySymbol), i) && byStart == view.StartsTo(old(byStart), i)
        invariant found == view.SpansTo(i)
        invariant more == records + Records(view, sectionStart)[..i]
      {
        var symbol := view.kept[i];
        var length := view.boundaries[i].end - symbol.address;
        if symbol.address - sectionStart + length > dataLength {
          // The section's data lacks these bytes, and the symbol would get no record.
          assert false;
        }
        more := more + [RecordOf(view, sectionStart, i)];
        found := Enter(view, i, old(bySymbol), old(byStart), found);
      }
    }

    /** A new start of another section changes none of its own. */
    lemma StartsInSections(view: SectionView, starts: map<(nat, nat), nat>, before: set<nat>)
      requires |view.kept| == |view.boundaries| && byStart == view.StartsTo(starts, |view.kept|)
      requires forall key :: key in starts ==> key.0 in before
      ensures forall key :: key in byStart ==> key.0 in before + {view.section}
    {
      StartsOfOthers(view, starts);
    }

    /** Enter a laid-out section into every table. */
    method EnterSection(view: SectionView, sectionStart: nat, dataLength: nat, records: seq<Record>)
        returns (more: seq<Record>)
      requires Valid() && view.section !in textSections && view.Fits() && view.base == |records|
      requires BytesExist(view, sectionStart, SaturatingAdd(sectionStart, dataLength))
      modifies this`bySymbol, this`byStart, this`spans, this`textSections
      ensures Valid() && textSections == old(textSections) + {view.section}
      ensures more == records + Records(view, sectionStart)
      ensures bySymbol == view.SymbolsTo(old(bySymbol), |view.kept|)
      ensures byStart == view.StartsTo(old(byStart), |view.kept|)
      ensures spans == old(spans)[view.section := view.SpansTo(|view.kept|)]
    {
      var found;
      more, found := EnterAll(view, sectionStart, dataLength, records);
      textSections := textSections + {view.section};
      spans := spans[view.section := found];
      StartsInSections(view, old(byStart), old(textSections));
      view.SpansInOrder(|view.kept|);
      view.SpansAscend(|view.kept|);
    }

    /**
    `index_section`: filter and sort a section's symbols, decide who owns which
    bytes, and enter every symbol under the record owning its first byte. Symbols
    of other sections keep their lookups.
    */
    method IndexSection(section: nat, sectionStart: nat, dataLength: nat, symbols: seq<TextSymbol>,
                        trim: (nat, nat) -> nat, records: seq<Record>)
        returns (more: seq<Record>, view: SectionView)
      requires Valid() && section !in textSections
      requires sectionStart <= U64_MAX && Trims(trim) && DistinctIndices(symbols)
      requires forall symbol :: symbol in symbols ==> symbol.address <= U64_MAX
      modifies this`bySymbol, this`byStart, this`spans, this`textSections
      ensures view == SectionViewOf(thumb, section, sectionStart, SaturatingAdd(sectionStart, dataLength), |records|,
                                    symbols, trim)
      ensures var sectionEnd := Min(sectionStart + dataLength, 0xffff_ffff_ffff_ffff);
              && KeepsExactly(thumb, sectionStart, sectionEnd, symbols, view.kept) && DistinctIndices(view.kept)
              && |view.boundaries| == |view.kept|
              && forall i :: 0 <= i < |view.kept| ==> Bounds(Extents(view.kept), sectionEnd, view.boundaries, i)
      ensures view.section == section && view.base == |records| && RetainsExactly(view, trim)
      ensures RecordsExactly(view, sectionStart, records, more)
      ensures StartsExactly(view) && SpansExactly(view)
      ensures Valid() && textSections == old(textSections) + {section}
      ensures spans == old(spans)[section := view.SpansTo(|view.kept|)]
      ensures view.Fits() && forall i :: 0 <= i < |view.kept| ==> view.OwnerOf(i) < |view.kept|
      ensures EntriesNameOwners(view) && StartsNameOwners(view) && ContainmentNamesOwners(view)
      ensures forall other, address: nat :: other != section ==>
                AtSectionAddress(other, address) == old(AtSectionAddress(other, address))
      ensures forall symbol: nat :: !HasIndex(view.kept, symbol) ==> SymbolOwner(symbol) == old(SymbolOwner(symbol))
    {
      var sectionEnd := SaturatingAdd(sectionStart, dataLength);
      view := LayOut(thumb, section, sectionStart, sectionEnd, |records|, symbols, trim);
      ghost var symbolsBefore, startsBefore := bySymbol, byStart;
      more := EnterSection(view, sectionStart, dataLength, records);
      KeptDistinct(thumb, sectionStart, sectionEnd, symbols);
      RecordsAre(view, sectionStart, sectionEnd, records);
      LookupsAre(view, startsBefore);
      LookupsAgree(view, symbolsBefore, startsBefore, symbols, sectionStart, sectionEnd);
      OthersKeepLookups(view, symbolsBefore, startsBefore);
    }

    /** An address finds the owner of the first symbol kept at it, thumb bit aside; without a symbol, nothing. */
    ghost predicate StartsExactly(view: SectionView)
      requires |view.kept| == |view.boundaries|
      reads this
    {
      && (forall address: nat, i ::
            && 0 <= i < |view.kept|
            && view.kept[i].address == (if thumb then address - address % 2 else address)
            && (forall j :: 0 <= j < i ==> view.kept[j].address != view.kept[i].address) ==>
              AtSectionAddress(view.section, address) == Some(view.base + view.OwnerOf(i)))
      && forall address: nat ::
           (forall i :: 0 <= i < |view.kept| ==>
              view.kept[i].address != if thumb then address - address % 2 else address) ==>
             AtSectionAddress(view.section, address) == None
    }

    /** The spans containment looks through are the bytes owners retain. */
    ghost predicate SpansExactly(view: SectionView)
      requires |view.kept| == |view.boundaries| == |view.retained|
      reads this
    {
      && view.section in spans
      && forall span :: span in spans[view.section] <==> exists i :: 0 <= i < |view.kept| && view.Retains(i, span)
    }

    lemma LookupsAre(view: SectionView, starts: map<(nat, nat), nat>)
      requires |view.kept| == |view.boundaries| == |view.retained|
      requires view.section in spans && spans[view.section] == view.SpansTo(|view.kept|)
      requires byStart == view.StartsTo(starts, |view.kept|)
      requires forall key :: key in starts ==> key.0 != view.section
      ensures StartsExactly(view) && SpansExactly(view)
    {
      forall address: nat, i |
        && 0 <= i < |view.kept|
        && view.kept[i].address == (if thumb then address - address % 2 else address)
        && (forall j :: 0 <= j < i ==> view.kept[j].address != view.kept[i].address)
        ensures AtSectionAddress(view.section, address) == Some(view.base + view.OwnerOf(i))
      {
        view.FirstStartDecides(starts, |view.kept|, i);
      }
      forall address: nat |
        forall i :: 0 <= i < |view.kept| ==> view.kept[i].address != if thumb then address - address % 2 else address
        ensures AtSectionAddress(view.section, address) == None
      {
        view.NoStart(starts, |view.kept|, Normalized(thumb, address));
      }
      forall span
        ensures span in spans[view.section] <==> exists i :: 0 <= i < |view.kept| && view.Retains(i, span)
      {
        view.SpansAre(|view.kept|, span);
      }
    }

    /** With the section entered, the three lookups name the same owners. */
    lemma LookupsAgree(view: SectionView, symbolsBefore: map<nat, nat>, startsBefore: map<(nat, nat), nat>,
                       symbols: seq<TextSymbol>, sectionStart: nat, sectionEnd: nat)
      requires Valid() && view.Fits() && DistinctIndices(symbols)
      requires view.kept == Kept(thumb, sectionStart, sectionEnd, symbols)
      requires view.section in spans && spans[view.section] == view.SpansTo(|view.kept|)
      requires bySymbol == view.SymbolsTo(symbolsBefore, |view.kept|)
      requires byStart == view.StartsTo(startsBefore, |view.kept|)
      requires forall key :: key in startsBefore ==> key.0 != view.section
      ensures forall i :: 0 <= i < |view.kept| ==> view.OwnerOf(i) < |view.kept|
      ensures EntriesNameOwners(view) && StartsNameOwners(view) && ContainmentNamesOwners(view)
    {
      KeptDistinct(thumb, sectionStart, sectionEnd, symbols);
      OwnersInRange(view);
      EntriesAgree(view, symbolsBefore);
      StartsAgree(view, startsBefore);
      ContainmentAgrees(view);
    }

    /** Starts of other sections and other symbols are found as before. */
    lemma OthersKeepLookups(view: SectionView, symbolsBefore: map<nat, nat>, startsBefore: map<(nat, nat), nat>)
      requires |view.kept| == |view.boundaries|
      requires bySymbol == view.SymbolsTo(symbolsBefore, |view.kept|)
      requires byStart == view.StartsTo(startsBefore, |view.kept|)
      ensures forall other, address: nat :: other != view.section ==>
                AtSectionAddress(other, address) == Lookup(startsBefore, (other, Normalized(thumb, address)))
      ensures forall symbol: nat :: !HasIndex(view.kept, symbol) ==>
                SymbolOwner(symbol) == Lookup(symbolsBefore, symbol)
    {
      StartsOfOthers(view, startsBefore);
      EntriesOfOthers(view, symbolsBefore);
    }

    lemma EntriesOfOthers(view: SectionView, table: map<nat, nat>)
      requires |view.kept| == |view.boundaries| && bySymbol == view.SymbolsTo(table, |view.kept|)
      ensures forall symbol: nat :: !HasIndex(view.kept, symbol) ==> SymbolOwner(symbol) == Lookup(table, symbol)
    {
      forall symbol: nat | !HasIndex(view.kept, symbol)
        ensures SymbolOwner(symbol) == Lookup(table, symbol)
      {
        view.SymbolsKeep(table, |view.kept|, symbol);
      }
    }

    lemma StartsOfOthers(view: SectionView, starts: map<(nat, nat), nat>)
      requires |view.kept| == |view.boundaries| && byStart == view.StartsTo(starts, |view.kept|)
      ensures forall key: (nat, nat) :: key.0 != view.section ==> (key in byStart <==> key in starts)
      ensures forall key: (nat, nat) :: key.0 != view.section && key in starts ==> byStart[key] == starts[key]
    {
      forall key: (nat, nat) | key.0 != view.section
        ensures key in byStart <==> key in starts
        ensures key in starts ==> byStart[key] == starts[key]
      {
        view.StartsKeep(starts, |view.kept|, key);
      }
    }

    /** Symbol-table entries name the record owning their first byte. */
    ghost predicate EntriesNameOwners(view: SectionView)
      requires |view.kept| == |view.boundaries|
      reads this
    {
      forall i :: 0 <= i < |view.kept| ==> SymbolOwner(view.kept[i].index) == Some(view.base + view.OwnerOf(i))
    }

    /** Start addresses name that same record, whenever it retains bytes. */
    ghost predicate StartsNameOwners(view: SectionView)
      requires |view.kept| == |view.boundaries| == |view.retained|
      requires forall i :: 0 <= i < |view.kept| ==> view.OwnerOf(i) < |view.kept|
      reads this
    {
      forall i :: 0 <= i < |view.kept| && view.retained[view.OwnerOf(i)] != 0 ==>
        AtSectionAddress(view.section, view.kept[i].address) == Some(view.base + view.OwnerOf(i))
    }

    /** And so does containment. */
    ghost predicate ContainmentNamesOwners(view: SectionView)
      requires |view.kept| == |view.boundaries| == |view.retained|
      requires forall i :: 0 <= i < |view.kept| ==> view.OwnerOf(i) < |view.kept|
      requires Valid()
      reads this
    {
      forall i :: 0 <= i < |view.kept| && view.retained[view.OwnerOf(i)] != 0 ==>
        Containing(view.section, view.kept[i].address) == Some(view.base + view.OwnerOf(i))
    }

    lemma OwnersInRange(view: SectionView)
      requires view.Fits()
      ensures forall i :: 0 <= i < |view.kept| ==> view.OwnerOf(i) < |view.kept|
    {
      forall i | 0 <= i < |view.kept|
        ensures view.OwnerOf(i) < |view.kept|
      {
        assert view.boundaries[i].owner.Some? ==> view.Covered(i);
      }
    }

    lemma EntriesAgree(view: SectionView, symbols: map<nat, nat>)
      requires |view.kept| == |view.boundaries| && DistinctIndices(view.kept)
      requires bySymbol == view.SymbolsTo(symbols, |view.kept|)
      ensures EntriesNameOwners(view)
    {
      forall i | 0 <= i < |view.kept|
        ensures SymbolOwner(view.kept[i].index) == Some(view.base + view.OwnerOf(i))
      {
        view.EntryIs(symbols, i);
      }
    }

    lemma StartsAgree(view: SectionView, starts: map<(nat, nat), nat>)
      requires view.Fits() && byStart == view.StartsTo(starts, |view.kept|)
      requires forall i :: 0 <= i < |view.kept| ==> view.OwnerOf(i) < |view.kept|
      requires forall address: nat :: (view.section, address) !in starts
      requires forall i :: 0 <= i < |view.kept| ==> Normalized(thumb, view.kept[i].address) == view.kept[i].address
      ensures StartsNameOwners(view)
    {
      forall i | 0 <= i < |view.kept| && view.retained[view.OwnerOf(i)] != 0
        ensures AtSectionAddress(view.section, view.kept[i].address) == Some(view.base + view.OwnerOf(i))
      {
        view.StartIs(starts, i);
      }
    }

    lemma ContainmentAgrees(view: SectionView)
      requires Valid() && view.Fits()
      requires forall i :: 0 <= i < |view.kept| ==> view.OwnerOf(i) < |view.kept|
      requires view.section in spans && spans[view.section] == view.SpansTo(|view.kept|)
      ensures ContainmentNamesOwners(view)
    {
      forall i | 0 <= i < |view.kept| && view.retained[view.OwnerOf(i)] != 0
        ensures Containing(view.section, view.kept[i].address) == Some(view.base + view.OwnerOf(i))
      {
        var position := view.base + view.OwnerOf(i);
        view.HolderIs(i, spans[view.section], view.kept[i].address, position);
        assert Containing(view.section, view.kept[i].address) == Some(position);
      }
    }
  }

  function RecordOf(view: SectionView, sectionStart: nat, i: nat): Record
    requires i < |view.kept| == |view.retained|
  {
    var address := view.kept[i].address;
    Record(view.section, if address >= sectionStart then address - sectionStart else 0, view.retained[i],
           view.kept[i].size == 0)
  }

  ghost function Records(view: SectionView, sectionStart: nat): (records: seq<Record>)
    requires |view.kept| == |view.retained|
  {
    seq(|view.kept|, i requires 0 <= i < |view.kept| => RecordOf(view, sectionStart, i))
  }

  lemma RecordsAre(view: SectionView, sectionStart: nat, sectionEnd: nat, records: seq<Record>)
    requires |view.kept| == |view.boundaries| == |view.retained| && BytesExist(view, sectionStart, sectionEnd)
    ensures RecordsExactly(view, sectionStart, records, records + Records(view, sectionStart))
  {
  }
}
