/** How the text symbols of one section enter an index, and why the index's lookups agree. */
module SymbolIndexes {
  import opened Boundaries
  import opened Bytes
  import opened Sequences
  import opened Sorting
  import opened Wrappers

  /** A text symbol of the symbol table: its table index, address and declared size. */
  datatype TextSymbol = TextSymbol(index: nat, address: nat, size: nat)

  /** The record appended for a symbol: where it starts, what it retains, and whether its size was inferred. */
  datatype Record = Record(section: nat, offset: nat, size: nat, sizeInferred: bool)

  /** The addresses from which a record can be found. */
  datatype Span = Span(start: nat, end: nat, position: nat)

  /** Spans in address order, none empty, none overlapping. */
  ghost predicate Disjoint(spans: seq<Span>) {
    && (forall i :: 0 <= i < |spans| ==> spans[i].start < spans[i].end)
    && forall i, j :: 0 <= i < j < |spans| ==> spans[i].end <= spans[j].start
  }

  /** Each span belongs to a record of its own, and records follow address order. */
  ghost predicate OwnRecords(spans: seq<Span>) {
    forall i, j :: 0 <= i < j < |spans| ==> spans[i].position < spans[j].position
  }

  /** `span_containing`: the only span that can hold `address` is the last one starting at or before it. */
  function SpanHolding(spans: seq<Span>, address: nat): (span: Option<Span>)
    requires Disjoint(spans)
    ensures span.Some? ==> span.value in spans && span.value.start <= address < span.value.end
    ensures span.None? ==> forall other :: other in spans ==> !(other.start <= address < other.end)
    ensures forall other :: other in spans && other.start <= address < other.end ==> span == Some(other)
  {
    var after := PartitionPoint(spans, (span: Span) => span.start <= address, 0, |spans|);
    if after == 0 then None
    else if address < spans[after - 1].end then Some(spans[after - 1]) else None
  }

  /** The order symbols are sorted in: where they start, then the longer first. */
  predicate ComesFirst(a: TextSymbol, b: TextSymbol) {
    a.address < b.address || (a.address == b.address && a.size >= b.size)
  }

  /** The whole of the symbol's stated extent belongs to the section. */
  predicate Inside(sectionStart: nat, sectionEnd: nat, symbol: TextSymbol) {
    symbol.address >= sectionStart && SaturatingAdd(symbol.address, symbol.size) <= sectionEnd
  }

  function Normalized(thumb: bool, address: nat): nat {
    if thumb then address - address % 2 else address
  }

  /** The symbols of a section that name bytes of it, addresses normalized. */
  function Filtered(thumb: bool, sectionStart: nat, sectionEnd: nat, symbols: seq<TextSymbol>): seq<TextSymbol> {
    if symbols == [] then []
    else
      var symbol := symbols[0].(address := Normalized(thumb, symbols[0].address));
      (if Inside(sectionStart, sectionEnd, symbol) then [symbol] else [])
      + Filtered(thumb, sectionStart, sectionEnd, symbols[1..])
  }

  /** `entry` is `symbol`, at an even address on thumb, and both its ends lie in the section. */
  ghost predicate NamesBytes(thumb: bool, sectionStart: nat, sectionEnd: nat, symbol: TextSymbol, entry: TextSymbol) {
    && entry.index == symbol.index && entry.size == symbol.size
    && entry.address == (if thumb then symbol.address - symbol.address % 2 else symbol.address)
    && sectionStart <= entry.address
    && Min(entry.address + entry.size, 0xffff_ffff_ffff_ffff) <= sectionEnd
  }

  lemma {:induction false} FilteredIs(thumb: bool, sectionStart: nat, sectionEnd: nat, symbols: seq<TextSymbol>,
                                      entry: TextSymbol)
    ensures entry in Filtered(thumb, sectionStart, sectionEnd, symbols)
        <==> exists symbol :: symbol in symbols && NamesBytes(thumb, sectionStart, sectionEnd, symbol, entry)
  {
    if symbols == [] {
    } else {
      FilteredIs(thumb, sectionStart, sectionEnd, symbols[1..], entry);
      var first := symbols[0].(address := Normalized(thumb, symbols[0].address));
      assert NamesBytes(thumb, sectionStart, sectionEnd, symbols[0], entry)
        <==> entry == first && Inside(sectionStart, sectionEnd, first);
      assert symbols == [symbols[0]] + symbols[1..];
    }
  }

  /** What is kept of a section's symbols, and in which order. */
  ghost predicate KeepsExactly(thumb: bool, sectionStart: nat, sectionEnd: nat, symbols: seq<TextSymbol>,
                               kept: seq<TextSymbol>) {
    && (forall entry :: entry in kept
          <==> exists symbol :: symbol in symbols && NamesBytes(thumb, sectionStart, sectionEnd, symbol, entry))
    && forall i, j :: 0 <= i < j < |kept| ==>
         || kept[i].address < kept[j].address
         || (kept[i].address == kept[j].address && kept[i].size >= kept[j].size)
  }

  lemma KeptIs(thumb: bool, sectionStart: nat, sectionEnd: nat, symbols: seq<TextSymbol>)
    ensures KeepsExactly(thumb, sectionStart, sectionEnd, symbols, Kept(thumb, sectionStart, sectionEnd, symbols))
  {
    var filtered, kept := Filtered(thumb, sectionStart, sectionEnd, symbols),
                          Kept(thumb, sectionStart, sectionEnd, symbols);
    SortSorted(filtered, ComesFirst);
    forall entry
      ensures entry in kept
          <==> exists symbol :: symbol in symbols && NamesBytes(thumb, sectionStart, sectionEnd, symbol, entry)
    {
      SameMembers(kept, filtered, entry);
      FilteredIs(thumb, sectionStart, sectionEnd, symbols, entry);
    }
    forall i, j | 0 <= i < j < |kept|
      ensures || kept[i].address < kept[j].address
              || (kept[i].address == kept[j].address && kept[i].size >= kept[j].size)
    {
      assert ComesFirst(kept[i], kept[j]);
    }
  }

  function Kept(thumb: bool, sectionStart: nat, sectionEnd: nat, symbols: seq<TextSymbol>): seq<TextSymbol> {
    Sort(Filtered(thumb, sectionStart, sectionEnd, symbols), ComesFirst)
  }

  function Extents(kept: seq<TextSymbol>): (entries: seq<Extent>)
    ensures |entries| == |kept|
    ensures forall i :: 0 <= i < |kept| ==> entries[i].address == kept[i].address && entries[i].size == kept[i].size
  {
    seq(|kept|, i requires 0 <= i < |kept| => Extent(kept[i].address, kept[i].size))
  }

  lemma {:induction false} FilteredInside(thumb: bool, sectionStart: nat, sectionEnd: nat, symbols: seq<TextSymbol>)
    ensures forall symbol :: symbol in Filtered(thumb, sectionStart, sectionEnd, symbols) ==>
              Inside(sectionStart, sectionEnd, symbol)
  {
    if symbols == [] {
    } else {
      FilteredInside(thumb, sectionStart, sectionEnd, symbols[1..]);
    }
  }

  lemma KeptInOrder(thumb: bool, sectionStart: nat, sectionEnd: nat, symbols: seq<TextSymbol>)
    requires sectionStart <= sectionEnd <= U64_MAX
    requires forall symbol :: symbol in symbols ==> symbol.address <= U64_MAX
    ensures var entries := Extents(Kept(thumb, sectionStart, sectionEnd, symbols));
            SortedByAddress(entries) && InSection(entries, sectionStart, sectionEnd)
  {
    var filtered := Filtered(thumb, sectionStart, sectionEnd, symbols);
    var kept := Kept(thumb, sectionStart, sectionEnd, symbols);
    FilteredInside(thumb, sectionStart, sectionEnd, symbols);
    FilteredBounded(thumb, sectionStart, sectionEnd, symbols);
    SortSorted(filtered, ComesFirst);
    forall i | 0 <= i < |kept|
      ensures Inside(sectionStart, sectionEnd, kept[i]) && kept[i].address <= U64_MAX
    {
      SameMembers(kept, filtered, kept[i]);
    }
  }

  lemma {:induction false} FilteredBounded(thumb: bool, sectionStart: nat, sectionEnd: nat, symbols: seq<TextSymbol>)
    requires forall symbol :: symbol in symbols ==> symbol.address <= U64_MAX
    ensures forall symbol :: symbol in Filtered(thumb, sectionStart, sectionEnd, symbols) ==>
              symbol.address <= U64_MAX
  {
    if symbols == [] {
    } else {
      FilteredBounded(thumb, sectionStart, sectionEnd, symbols[1..]);
    }
  }

  /**
  One section as it enters the index: its kept symbols in order, who owns which
  bytes, what each record retains, and the position the first record takes.
  */
  datatype SectionView = SectionView(
    section: nat,
    base: nat,
    kept: seq<TextSymbol>,
    boundaries: seq<Boundary>,
    retained: seq<nat>)
  {
    ghost predicate Fits() {
      && |kept| == |boundaries| == |retained|
      && (forall i, j :: 0 <= i < j < |kept| ==> kept[i].address <= kept[j].address)
      && (forall i :: 0 <= i < |kept| && boundaries[i].owner.Some? ==> Covered(i))
      && (forall i, j :: 0 <= i < j < |kept| && Owns(i) && Owns(j) ==> boundaries[i].end <= kept[j].address)
      && (forall i, j :: 0 <= i < j < |kept| && Owns(i) && kept[j].address < boundaries[i].end ==>
            boundaries[j].owner == Some(i))
      && (forall i, j :: 0 <= i < j < |kept| && Owns(i) && Owns(j) && kept[i].address == kept[j].address ==>
            boundaries[j].end <= kept[j].address)
      && forall i :: 0 <= i < |kept| ==> Keeps(i)
    }

    ghost predicate Owns(i: nat)
      requires i < |boundaries|
    {
      boundaries[i].owner.None?
    }

    /** An alias starts inside its owner's range; inside an inferred range it starts where the owner does. */
    ghost predicate Covered(i: nat)
      requires i < |kept| == |boundaries| && boundaries[i].owner.Some?
    {
      var owner := boundaries[i].owner.value;
      && owner < i && Owns(owner)
      && kept[owner].address <= kept[i].address < boundaries[owner].end
      && (kept[owner].size == 0 ==> kept[i].address == kept[owner].address)
    }

    /** An alias retains nothing, a declared size everything it owns, an inferred one at most that. */
    ghost predicate Keeps(i: nat)
      requires i < |kept| == |boundaries| == |retained|
    {
      && (boundaries[i].owner.Some? ==> retained[i] == 0)
      && (boundaries[i].owner.None? ==>
            && kept[i].address + retained[i] <= boundaries[i].end
            && (kept[i].size != 0 ==> kept[i].address + retained[i] == boundaries[i].end))
    }

    /** The kept entry owning entry `i`'s first byte. */
    function OwnerOf(i: nat): (owner: nat)
      requires i < |boundaries|
      ensures boundaries[i].owner != None ==> boundaries[i].owner == Some(owner)
      ensures boundaries[i].owner == None ==> owner == i
    {
      if boundaries[i].owner.Some? then boundaries[i].owner.value else i
    }

    function SymbolsTo(table: map<nat, nat>, k: nat): map<nat, nat>
      requires k <= |kept| == |boundaries|
    {
      if k == 0 then table else SymbolsTo(table, k - 1)[kept[k - 1].index := base + OwnerOf(k - 1)]
    }

    /** `entry(..).or_insert(..)`: the first symbol at an address decides. */
    function StartsTo(table: map<(nat, nat), nat>, k: nat): map<(nat, nat), nat>
      requires k <= |kept| == |boundaries|
    {
      if k == 0 then table
      else
        var before := StartsTo(table, k - 1);
        var key := (section, kept[k - 1].address);
        if key in before then before else before[key := base + OwnerOf(k - 1)]
    }

    function SpansTo(k: nat): seq<Span>
      requires k <= |kept| == |boundaries| == |retained|
    {
      if k == 0 then []
      else if boundaries[k - 1].owner.None? && retained[k - 1] != 0 then
        SpansTo(k - 1) + [Span(kept[k - 1].address, kept[k - 1].address + retained[k - 1], base + k - 1)]
      else SpansTo(k - 1)
    }

    /** The first kept symbol at an address is the one whose owner the address maps to. */
    lemma {:induction false} FirstStartDecides(table: map<(nat, nat), nat>, k: nat, i: nat)
      requires i < k <= |kept| == |boundaries| && (section, kept[i].address) !in table
      requires forall j :: 0 <= j < i ==> kept[j].address != kept[i].address
      ensures (section, kept[i].address) in StartsTo(table, k)
      ensures StartsTo(table, k)[(section, kept[i].address)] == base + OwnerOf(i)
    {
      if i == k - 1 {
        NoStart(table, i, kept[i].address);
      } else {
        FirstStartDecides(table, k - 1, i);
      }
    }

    lemma {:induction false} NoStart(table: map<(nat, nat), nat>, k: nat, address: nat)
      requires k <= |kept| == |boundaries| && (section, address) !in table
      requires forall j :: 0 <= j < k ==> kept[j].address != address
      ensures (section, address) !in StartsTo(table, k)
    {
      if k == 0 {
      } else {
        NoStart(table, k - 1, address);
      }
    }

    /** Entry `i` owns and retains the bytes of `span`. */
    ghost predicate Retains(i: nat, span: Span)
      requires i < |kept| == |boundaries| == |retained|
    {
      && boundaries[i].owner == None && retained[i] != 0
      && span == Span(kept[i].address, kept[i].address + retained[i], base + i)
    }

    lemma {:induction false} SpansAre(k: nat, span: Span)
      requires k <= |kept| == |boundaries| == |retained|
      ensures span in SpansTo(k) <==> exists i :: 0 <= i < k && Retains(i, span)
    {
      if k == 0 {
      } else {
        SpansAre(k - 1, span);
        var last := Span(kept[k - 1].address, kept[k - 1].address + retained[k - 1], base + (k - 1));
        assert SpansTo(k) == if Owns(k - 1) && retained[k - 1] != 0 then SpansTo(k - 1) + [last] else SpansTo(k - 1);
        assert Retains(k - 1, span) <==> Owns(k - 1) && retained[k - 1] != 0 && span == last;
      }
    }

    lemma {:induction false} SymbolsAt(table: map<nat, nat>, k: nat, i: nat)
      requires i < k <= |kept| == |boundaries|
      requires forall a, b :: 0 <= a < b < |kept| ==> kept[a].index != kept[b].index
      ensures kept[i].index in SymbolsTo(table, k)
      ensures SymbolsTo(table, k)[kept[i].index] == base + OwnerOf(i)
    {
      if i == k - 1 {
      } else {
        SymbolsAt(table, k - 1, i);
      }
    }

    lemma {:induction false} SymbolsKeep(table: map<nat, nat>, k: nat, symbol: nat)
      requires k <= |kept| == |boundaries|
      requires forall i :: 0 <= i < |kept| ==> kept[i].index != symbol
      ensures symbol in SymbolsTo(table, k) <==> symbol in table
      ensures symbol in table ==> SymbolsTo(table, k)[symbol] == table[symbol]
    {
      if k == 0 {
      } else {
        SymbolsKeep(table, k - 1, symbol);
      }
    }

    lemma {:induction false} StartsKeep(table: map<(nat, nat), nat>, k: nat, key: (nat, nat))
      requires k <= |kept| == |boundaries| && key.0 != section
      ensures key in StartsTo(table, k) <==> key in table
      ensures key in table ==> StartsTo(table, k)[key] == table[key]
    {
      if k == 0 {
      } else {
        StartsKeep(table, k - 1, key);
      }
    }

    /** Symbols sharing an address with bytes at it share their owner. */
    lemma SameAddressSameOwner(i: nat, j: nat)
      requires Fits() && i < j < |kept| && kept[i].address == kept[j].address
      requires kept[j].address < boundaries[OwnerOf(j)].end
      ensures OwnerOf(i) == OwnerOf(j)
    {
      if boundaries[j].owner.Some? {
        assert Covered(j);
      }
      if boundaries[i].owner.Some? {
        assert Covered(i);
        assert boundaries[j].owner == Some(OwnerOf(i));
      }
    }

    /** When every symbol at an address has one owner, that owner is what the address maps to. */
    lemma {:induction false} StartsValue(table: map<(nat, nat), nat>, k: nat, address: nat, owner: nat)
      requires k <= |kept| == |boundaries|
      requires (section, address) !in table
      requires forall i :: 0 <= i < k && kept[i].address == address ==> OwnerOf(i) == owner
      ensures (section, address) in StartsTo(table, k) ==> StartsTo(table, k)[(section, address)] == base + owner
      ensures forall i :: 0 <= i < k && kept[i].address == address ==> (section, address) in StartsTo(table, k)
    {
      if k == 0 {
      } else {
        StartsValue(table, k - 1, address, owner);
      }
    }

    lemma StartsAt(table: map<(nat, nat), nat>, i: nat)
      requires Fits() && i < |kept|
      requires (section, kept[i].address) !in table
      requires kept[i].address < boundaries[OwnerOf(i)].end
      ensures (section, kept[i].address) in StartsTo(table, |kept|)
      ensures StartsTo(table, |kept|)[(section, kept[i].address)] == base + OwnerOf(i)
    {
      var address, owner := kept[i].address, OwnerOf(i);
      forall j | 0 <= j < |kept| && kept[j].address == address
        ensures OwnerOf(j) == owner
      {
      }
      StartsValue(table, |kept|, address, owner);
    }

    /** No span so far ends past `address`. */
    ghost predicate SpansEndBy(k: nat, address: nat)
      requires k <= |kept| == |boundaries| == |retained|
    {
      forall s :: 0 <= s < |SpansTo(k)| ==> SpansTo(k)[s].end <= address
    }

    lemma {:induction false} SpansBefore(k: nat, i: nat)
      requires Fits() && k <= i < |kept| && Owns(i)
      ensures SpansEndBy(k, kept[i].address)
    {
      if k == 0 {
      } else {
        SpansBefore(k - 1, i);
        assert Keeps(k - 1);
      }
    }

    lemma {:induction false} SpansInOrder(k: nat)
      requires Fits() && k <= |kept|
      ensures Disjoint(SpansTo(k))
    {
      if k == 0 {
      } else {
        SpansInOrder(k - 1);
        if Owns(k - 1) && retained[k - 1] != 0 {
          SpansBefore(k - 1, k - 1);
          var last := Span(kept[k - 1].address, kept[k - 1].address + retained[k - 1], base + (k - 1));
          assert SpansTo(k) == SpansTo(k - 1) + [last];
        }
      }
    }

    lemma {:induction false} SpansAscend(k: nat)
      requires k <= |kept| == |boundaries| == |retained|
      ensures OwnRecords(SpansTo(k))
      ensures forall span :: span in SpansTo(k) ==> span.position < base + k
    {
      if k == 0 {
      } else {
        SpansAscend(k - 1);
      }
    }

    lemma {:induction false} SpansHave(k: nat, i: nat)
      requires i < k <= |kept| == |boundaries| == |retained|
      requires boundaries[i].owner.None? && retained[i] != 0
      ensures Span(kept[i].address, kept[i].address + retained[i], base + i) in SpansTo(k)
    {
      if i == k - 1 {
      } else {
        SpansHave(k - 1, i);
      }
    }

    /** An owner that retains bytes retains the first byte of each of its aliases. */
    lemma OwnerHoldsStart(i: nat)
      requires Fits() && i < |kept| && retained[OwnerOf(i)] != 0
      ensures boundaries[OwnerOf(i)].owner.None?
      ensures kept[OwnerOf(i)].address <= kept[i].address < kept[OwnerOf(i)].address + retained[OwnerOf(i)]
      ensures kept[i].address < boundaries[OwnerOf(i)].end
    {
      var owner := OwnerOf(i);
      if boundaries[i].owner.Some? {
        assert Covered(i);
      }
      assert Keeps(owner);
    }

    /** By symbol-table entry. */
    lemma EntryIs(table: map<nat, nat>, i: nat)
      requires |kept| == |boundaries| && i < |kept|
      requires forall a, b :: 0 <= a < b < |kept| ==> kept[a].index != kept[b].index
      ensures Lookup(SymbolsTo(table, |kept|), kept[i].index) == Some(base + OwnerOf(i))
    {
      SymbolsAt(table, |kept|, i);
    }

    /** By start address. */
    lemma StartIs(table: map<(nat, nat), nat>, i: nat)
      requires Fits() && i < |kept| && retained[OwnerOf(i)] != 0 && (section, kept[i].address) !in table
      ensures Lookup(StartsTo(table, |kept|), (section, kept[i].address)) == Some(base + OwnerOf(i))
    {
      OwnerHoldsStart(i);
      StartsAt(table, i);
    }

    /** The owner's span, which holds the symbol's start. */
    lemma SpanIs(i: nat) returns (span: Span)
      requires Fits() && i < |kept| && retained[OwnerOf(i)] != 0
      ensures span in SpansTo(|kept|) && span.position == base + OwnerOf(i)
      ensures span.start <= kept[i].address < span.end
    {
      var owner := OwnerOf(i);
      OwnerHoldsStart(i);
      SpansHave(|kept|, owner);
      span := Span(kept[owner].address, kept[owner].address + retained[owner], base + owner);
    }

    /** By containment: the one span holding an indexed symbol's start is its owner's. */
    lemma HolderIs(i: nat, spans: seq<Span>, address: nat, position: nat)
      requires Fits() && i < |kept| && retained[OwnerOf(i)] != 0 && Disjoint(spans) && spans == SpansTo(|kept|)
      requires address == kept[i].address && position == base + OwnerOf(i)
      ensures HolderOf(spans, address) == Some(position)
    {
      var span := SpanIs(i);
      TheHolder(spans, span, address, position);
    }
  }

  /** A map lookup that may miss. */
  function Lookup<K(==), V>(table: map<K, V>, key: K): Option<V> {
    if key in table then Some(table[key]) else None
  }

  /** The position of the record whose span holds `address`. */
  function HolderOf(spans: seq<Span>, address: nat): Option<nat>
    requires Disjoint(spans)
  {
    var span := SpanHolding(spans, address);
    if span.Some? then Some(span.value.position) else None
  }

  lemma TheHolder(spans: seq<Span>, span: Span, address: nat, position: nat)
    requires Disjoint(spans) && span in spans && span.start <= address < span.end && span.position == position
    ensures HolderOf(spans, address) == Some(position)
  {
  }

  /** What trailing-padding removal keeps of `length` bytes at `start`: never more than there are. */
  ghost predicate Trims(trim: (nat, nat) -> nat) {
    forall start, length :: trim(start, length) <= length
  }

  /** Bytes of its owned range a symbol retains: all of a declared size, an inferred one trimmed. */
  function RetainedBy(symbol: TextSymbol, end: nat, trim: (nat, nat) -> nat): nat {
    var length := if end >= symbol.address then end - symbol.address else 0;
    if symbol.size == 0 then trim(symbol.address, length) else length
  }

  function View(section: nat, base: nat, kept: seq<TextSymbol>, boundaries: seq<Boundary>,
                trim: (nat, nat) -> nat): SectionView
    requires |boundaries| == |kept|
  {
    SectionView(section, base, kept, boundaries,
                seq(|kept|, i requires 0 <= i < |kept| => RetainedBy(kept[i], boundaries[i].end, trim)))
  }

  /** Inside a range whose end was inferred, only symbols at its very start are aliases. */
  lemma InferredAlias(entries: seq<Extent>, sectionEnd: nat, owner: nat, i: nat)
    requires SortedByAddress(entries) && owner < i < |entries|
    requires entries[owner].size == 0 && entries[i].address < OwnedEnd(entries, sectionEnd, owner)
    ensures entries[i].address == entries[owner].address
  {
    if entries[i].address > entries[owner].address {
      NextGreaterAtMost(entries, entries[owner].address, owner + 1, i);
      assert false;
    }
  }

  /** Two owners at one address own nothing. */
  lemma TwinOwnersAreEmpty(entries: seq<Extent>, sectionEnd: nat, i: nat, j: nat)
    requires SortedByAddress(entries) && sectionEnd <= U64_MAX && i < j < |entries|
    requires entries[i].address == entries[j].address && entries[i].size >= entries[j].size
    requires OwnedEnd(entries, sectionEnd, i) <= entries[j].address
    ensures OwnedEnd(entries, sectionEnd, j) <= entries[j].address
  {
    var address := entries[i].address;
    NextGreaterIs(entries, address, i + 1);
    NextGreaterIs(entries, address, j + 1);
    var next := NextGreater(entries, address, j + 1);
    if next.Some? {
      var k :| j + 1 <= k < |entries| && entries[k].address == next.value;
      NextGreaterAtMost(entries, address, i + 1, k);
    }
  }

  /** The entry that covers a start is the one it is an alias of. */
  lemma CoveredMeansAlias(entries: seq<Extent>, sectionEnd: nat, i: nat, j: nat)
    requires SortedByAddress(entries) && i < j < |entries|
    requires var boundaries := Naive(entries, sectionEnd, |entries|);
             boundaries[i].owner.None? && entries[j].address < boundaries[i].end
    ensures Naive(entries, sectionEnd, |entries|)[j].owner == Some(i)
  {
    var boundaries := Naive(entries, sectionEnd, |entries|);
    if boundaries[j].owner.None? {
      OwnersDisjoint(entries, sectionEnd, i, j);
    } else {
      AliasIsCovered(entries, sectionEnd, j);
      var other := boundaries[j].owner.value;
      if other < i {
        OwnersDisjoint(entries, sectionEnd, other, i);
      } else if i < other {
        OwnersDisjoint(entries, sectionEnd, i, other);
      }
    }
  }

  lemma OwnerEndIs(entries: seq<Extent>, sectionEnd: nat, i: nat)
    requires i < |entries| && Naive(entries, sectionEnd, |entries|)[i].owner.None?
    ensures Naive(entries, sectionEnd, |entries|)[i].end == OwnedEnd(entries, sectionEnd, i)
  {
    NaiveAt(entries, sectionEnd, i, |entries|);
  }

  lemma AliasEndIs(entries: seq<Extent>, sectionEnd: nat, i: nat)
    requires i < |entries| && Naive(entries, sectionEnd, |entries|)[i].owner.Some?
    ensures Naive(entries, sectionEnd, |entries|)[i].end == entries[i].address
  {
    NaiveAt(entries, sectionEnd, i, |entries|);
  }
}
