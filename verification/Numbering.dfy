/**
From final colours to fingerprints: copies sharing a colour are numbered in file
order, and every copy is renamed in place.
*/
module Numbering {
  import opened Fingerprints
  import opened Sequences
  import opened Tallies
  import opened Wrappers

  /** The copies ending with one colour. */
  function Group(copies: set<nat>, final: seq<Fingerprint>, colour: Fingerprint): set<nat> {
    set p | p in copies && p < |final| && final[p] == colour
  }

  /** The file-order number a copy needs when its final colour does not single it out. */
  function Number(copies: set<nat>, final: seq<Fingerprint>, p: nat): Option<nat>
    requires p < |final|
  {
    var group := Group(copies, final, final[p]);
    if |group| > 1 then Some(|Below(group, p)|) else None
  }

  /** A copy's record under its new fingerprint: the content it had stays on record. */
  function Renamed(symbol: Symbol, colour: Fingerprint, number: Option<nat>): Symbol {
    symbol.(fingerprint := Copy(symbol.fingerprint, colour, number),
            content := Some(symbol.ContentIdentity()),
            identityByOrder := symbol.identityByOrder || number.Some?)
  }

  function NumberedSymbol(symbols: seq<Symbol>, copies: set<nat>, final: seq<Fingerprint>, p: nat): Symbol
    requires |final| == |symbols| && p < |symbols|
  {
    if p in copies then Renamed(symbols[p], final[p], Number(copies, final, p)) else symbols[p]
  }

  /** The symbol list once every copy carries its own fingerprint. */
  ghost function Numbered(symbols: seq<Symbol>, copies: set<nat>, final: seq<Fingerprint>): (after: seq<Symbol>)
    requires |final| == |symbols|
  {
    seq(|symbols|, p requires 0 <= p < |symbols| => NumberedSymbol(symbols, copies, final, p))
  }

  /** Copies by final colour, in file order, for the positions before `k`. */
  ghost predicate TiesTo(copies: set<nat>, final: seq<Fingerprint>, ties: map<Fingerprint, seq<nat>>, k: nat)
  {
    && (forall p :: p in copies && p < k && p < |final| ==> final[p] in ties)
    && forall c :: c in ties ==> ties[c] == AscendingTo(Group(copies, final, c), k)
  }

  lemma TiesMore(copies: set<nat>, final: seq<Fingerprint>, ties: map<Fingerprint, seq<nat>>, k: nat)
    requires TiesTo(copies, final, ties, k) && k < |final|
    ensures k !in copies ==> TiesTo(copies, final, ties, k + 1)
    ensures k in copies ==>
              TiesTo(copies, final,
                     ties[final[k] := (if final[k] in ties then ties[final[k]] else []) + [k]], k + 1)
  {
    if k in copies && final[k] !in ties {
      AscendingToEmpty(Group(copies, final, final[k]), k);
    }
  }

  method Ties(copies: set<nat>, final: seq<Fingerprint>) returns (ties: map<Fingerprint, seq<nat>>)
    ensures TiesTo(copies, final, ties, |final|)
  {
    ties := map[];
    for p := 0 to |final|
      invariant TiesTo(copies, final, ties, p)
    {
      TiesMore(copies, final, ties, p);
      if p in copies {
        var c := final[p];
        ties := ties[c := (if c in ties then ties[c] else []) + [p]];
      }
    }
  }

  /** One tie group, as the loop that numbers it reads it. */
  ghost predicate TieGroup(copies: set<nat>, final: seq<Fingerprint>, colour: Fingerprint, positions: seq<nat>) {
    && Distinct(positions)
    && (forall p :: p in positions <==> p in Group(copies, final, colour))
    && forall i :: 0 <= i < |positions| ==>
         && positions[i] in copies && positions[i] < |final| && final[positions[i]] == colour
         && Number(copies, final, positions[i]) == if |positions| > 1 then Some(i) else None
  }

  lemma TieNumbers(copies: set<nat>, final: seq<Fingerprint>, ties: map<Fingerprint, seq<nat>>, c: Fingerprint)
    requires TiesTo(copies, final, ties, |final|) && c in ties
    ensures TieGroup(copies, final, c, ties[c])
  {
    var group := Group(copies, final, c);
    AscendingToLists(group, |final|);
    AscendingToLength(group, |final|);
    assert Below(group, |final|) == group;
    forall i | 0 <= i < |ties[c]|
      ensures ties[c][i] in group
      ensures Number(copies, final, ties[c][i]) == if |ties[c]| > 1 then Some(i) else None
    {
      assert ties[c][i] in ties[c];
      AscendingToIndex(group, |final|, i);
    }
  }

  /** Copies whose colour is done carry their new record; every other symbol is as it was. */
  ghost predicate NumberedExcept(symbols: seq<Symbol>, copies: set<nat>, final: seq<Fingerprint>,
                                 todo: set<Fingerprint>, after: seq<Symbol>)
    requires |final| == |symbols|
  {
    && |after| == |symbols|
    && (forall p :: 0 <= p < |symbols| && p in copies && final[p] !in todo ==>
          after[p] == NumberedSymbol(symbols, copies, final, p))
    && forall p :: 0 <= p < |symbols| && (p !in copies || final[p] in todo) ==> after[p] == symbols[p]
  }

  lemma NumberedOneMore(symbols: seq<Symbol>, copies: set<nat>, final: seq<Fingerprint>, todo: set<Fingerprint>,
                        colour: Fingerprint, positions: seq<nat>, before: seq<Symbol>, after: seq<Symbol>)
    requires |final| == |symbols| && NumberedExcept(symbols, copies, final, todo, before) && colour in todo
    requires TieGroup(copies, final, colour, positions) && |after| == |before|
    requires forall i :: 0 <= i < |positions| ==>
               after[positions[i]] == Renamed(before[positions[i]], colour, if |positions| > 1 then Some(i) else None)
    requires forall p :: 0 <= p < |after| && p !in positions ==> after[p] == before[p]
    ensures NumberedExcept(symbols, copies, final, todo - {colour}, after)
  {
    forall p | 0 <= p < |symbols| && p in copies && final[p] !in todo - {colour}
      ensures after[p] == NumberedSymbol(symbols, copies, final, p)
    {
      if final[p] == colour {
        assert p in positions;
        var i :| 0 <= i < |positions| && positions[i] == p;
      }
    }
  }

  /** Give every copy of one colour its fingerprint, numbering them when they tie. */
  method NumberGroup(symbols: array<Symbol>, colour: Fingerprint, positions: seq<nat>)
    requires Distinct(positions)
    requires forall i :: 0 <= i < |positions| ==> positions[i] < symbols.Length
    modifies symbols
    ensures forall i :: 0 <= i < |positions| ==>
              symbols[positions[i]]
              == Renamed(old(symbols[positions[i]]), colour, if |positions| > 1 then Some(i) else None)
    ensures forall p :: 0 <= p < symbols.Length && p !in positions ==> symbols[p] == old(symbols[p])
  {
    var byOrder := |positions| > 1;
    for number := 0 to |positions|
      invariant forall i :: 0 <= i < number ==>
                  symbols[positions[i]]
                  == Renamed(old(symbols[positions[i]]), colour, if byOrder then Some(i) else None)
      invariant forall i :: number <= i < |positions| ==> symbols[positions[i]] == old(symbols[positions[i]])
      invariant forall p :: 0 <= p < symbols.Length && p !in positions ==> symbols[p] == old(symbols[p])
    {
      var position := positions[number];
      assert position in positions;
      symbols[position] := Renamed(symbols[position], colour, if byOrder then Some(number) else None);
    }
  }

  /** Rename every copy, one tie group at a time; the order of the groups does not matter. */
  method NumberCopies(symbols: array<Symbol>, copies: set<nat>, final: seq<Fingerprint>)
    requires |final| == symbols.Length
    modifies symbols
    ensures symbols[..] == Numbered(old(symbols[..]), copies, final)
  {
    ghost var before := symbols[..];
    var ties := Ties(copies, final);
    var todo := ties.Keys;
    while todo != {}
      invariant todo <= ties.Keys
      invariant NumberedExcept(before, copies, final, todo, symbols[..])
      decreases todo
    {
      var colour :| colour in todo;
      TieNumbers(copies, final, ties, colour);
      ghost var start := symbols[..];
      NumberGroup(symbols, colour, ties[colour]);
      NumberedOneMore(before, copies, final, todo, colour, ties[colour], start, symbols[..]);
      todo := todo - {colour};
    }
  }
}
