/**
From line rows to the locations of one symbol: binary search for the rows of its
address range, the rows taken from there, and what sorting and deduplicating them
leaves.
*/
module Attachment {
  import opened Locations
  import opened Sequences
  import opened Sorting
  import opened Wrappers

  /** One line row, its source path still interned. */
  datatype Row = Row(address: nat, source: nat, line: nat, column: Option<nat>)

  /** The rows a symbol may claim, and which symbol that is. */
  datatype Range = Range(position: nat, start: nat, end: nat)

  datatype Budget = Budget(symbolCandidates: nat, symbolInlineFrames: nat, inlineFrames: nat, inlineSourceBytes: nat)

  function LocationOf(paths: seq<string>, row: Row): Location {
    Location(PathAt(paths, row.source), row.line, row.column)
  }

  function LocationsOf(paths: seq<string>, rows: seq<Row>): (locations: seq<Location>)
    ensures |locations| == |rows|
    ensures forall i :: 0 <= i < |rows| ==> locations[i] == LocationOf(paths, rows[i])
  {
    seq(|rows|, i requires 0 <= i < |rows| => LocationOf(paths, rows[i]))
  }

  /** Rows name paths the interner holds, each under one index. */
  ghost predicate Interned(paths: seq<string>, rows: seq<Row>) {
    && (forall i, j :: 0 <= i < j < |paths| ==> paths[i] != paths[j])
    && forall row :: row in rows ==> row.source < |paths|
  }

  ghost predicate SortedByAddress(rows: seq<Row>) {
    forall i, j :: 0 <= i < j < |rows| ==> rows[i].address <= rows[j].address
  }

  predicate AddressLe(a: Row, b: Row) {
    a.address <= b.address
  }

  /** The rows whose address lies in a range, in order, found one by one. */
  function InRange(rows: seq<Row>, range: Range, k: nat): seq<Row>
    requires k <= |rows|
  {
    if k == 0 then []
    else InRange(rows, range, k - 1)
         + if range.start <= rows[k - 1].address < range.end then [rows[k - 1]] else []
  }

  lemma {:induction false} InRangeMembers(rows: seq<Row>, range: Range, k: nat, row: Row)
    requires k <= |rows|
    ensures row in InRange(rows, range, k) <==> row in rows[..k] && range.start <= row.address < range.end
  {
    if k == 0 {
    } else {
      InRangeMembers(rows, range, k - 1, row);
      assert rows[..k] == rows[..k - 1] + [rows[k - 1]];
    }
  }

  lemma {:induction false} NoneInRange(rows: seq<Row>, range: Range, k: nat)
    requires k <= |rows|
    requires forall i :: 0 <= i < k ==> rows[i].address < range.start
    ensures InRange(rows, range, k) == []
  {
    if k == 0 {
    } else {
      NoneInRange(rows, range, k - 1);
    }
  }

  lemma {:induction false} NoMoreInRange(rows: seq<Row>, range: Range, j: nat, k: nat)
    requires j <= k <= |rows|
    requires forall i :: j <= i < k ==> rows[i].address >= range.end
    ensures InRange(rows, range, k) == InRange(rows, range, j)
  {
    if j == k {
    } else {
      NoMoreInRange(rows, range, j, k - 1);
    }
  }

  function Take<T>(list: seq<T>, limit: nat): (taken: seq<T>) {
    if |list| > limit then list[..limit] else list
  }

  /** Rows taken until the range or the limit ends are all there is to take. */
  lemma TakenIsEnough(rows: seq<Row>, range: Range, limit: nat, next: nat)
    requires SortedByAddress(rows) && next <= |rows| && |InRange(rows, range, next)| <= limit
    requires next < |rows| && rows[next].address < range.end ==> |InRange(rows, range, next)| == limit
    ensures InRange(rows, range, next) == Take(InRange(rows, range, |rows|), limit)
  {
    if next == |rows| || rows[next].address >= range.end {
      NoMoreInRange(rows, range, next, |rows|);
    } else {
      InRangeGrows(rows, range, next, |rows|);
    }
  }

  /** Binary search for the range's first row, then the rows from there that stay in it, up to a limit. */
  method TakeRange(rows: seq<Row>, range: Range, limit: nat) returns (taken: seq<Row>)
    requires SortedByAddress(rows)
    ensures taken == Take(InRange(rows, range, |rows|), limit)
  {
    var first := PartitionPoint(rows, (row: Row) => row.address < range.start, 0, |rows|);
    NoneInRange(rows, range, first);
    var next := first;
    taken := [];
    while next < |rows| && rows[next].address < range.end && |taken| < limit
      invariant first <= next <= |rows|
      invariant taken == InRange(rows, range, next)
      invariant |taken| <= limit
    {
      assert rows[next].address >= range.start;
      taken := taken + [rows[next]];
      next := next + 1;
    }
    TakenIsEnough(rows, range, limit, next);
  }

  lemma {:induction false} InRangeGrows(rows: seq<Row>, range: Range, j: nat, k: nat)
    requires j <= k <= |rows|
    ensures InRange(rows, range, j) <= InRange(rows, range, k)
  {
    if j == k {
    } else {
      InRangeGrows(rows, range, j, k - 1);
    }
  }

  function SortedRows(paths: seq<string>, rows: seq<Row>): seq<Row> {
    Sort(rows, (a: Row, b: Row) => LocationLe(LocationOf(paths, a), LocationOf(paths, b)))
  }

  predicate SameLocation(a: Row, b: Row) {
    a.source == b.source && a.line == b.line && a.column == b.column
  }

  /** `dedup_by`: keep the first of each run of equal neighbours. */
  function Dedup(rows: seq<Row>, k: nat): (kept: seq<Row>)
    requires k <= |rows|
  {
    if k == 0 then []
    else
      var before := Dedup(rows, k - 1);
      if before != [] && SameLocation(before[|before| - 1], rows[k - 1]) then before else before + [rows[k - 1]]
  }

  /** The candidates of one range, sorted by location and free of duplicates. */
  function Candidates(paths: seq<string>, found: seq<Row>): seq<Row> {
    var sorted := SortedRows(paths, found);
    Dedup(sorted, |sorted|)
  }

  lemma RowOrder(paths: seq<string>)
    ensures TotalPreorder((a: Row, b: Row) => LocationLe(LocationOf(paths, a), LocationOf(paths, b)))
  {
    forall a: Row, b: Row
      ensures LocationLe(LocationOf(paths, a), LocationOf(paths, b))
           || LocationLe(LocationOf(paths, b), LocationOf(paths, a))
    {
      LocationLeTotal(LocationOf(paths, a), LocationOf(paths, b));
    }
    forall a: Row, b: Row, c: Row |
      LocationLe(LocationOf(paths, a), LocationOf(paths, b)) && LocationLe(LocationOf(paths, b), LocationOf(paths, c))
      ensures LocationLe(LocationOf(paths, a), LocationOf(paths, c))
    {
      LocationLeTransitive(LocationOf(paths, a), LocationOf(paths, b), LocationOf(paths, c));
    }
  }

  /** The same deduplication, on resolved locations. */
  function Deduplicated(list: seq<Location>, k: nat): (kept: seq<Location>)
    requires k <= |list|
  {
    if k == 0 then []
    else
      var before := Deduplicated(list, k - 1);
      if before != [] && before[|before| - 1] == list[k - 1] then before else before + [list[k - 1]]
  }

  lemma LocationsAppend(paths: seq<string>, rows: seq<Row>, row: Row)
    ensures LocationsOf(paths, rows + [row]) == LocationsOf(paths, rows) + [LocationOf(paths, row)]
  {
  }

  lemma {:induction false} DedupFrom(rows: seq<Row>, k: nat)
    requires k <= |rows|
    ensures forall row :: row in Dedup(rows, k) ==> row in rows
  {
    if k == 0 {
    } else {
      DedupFrom(rows, k - 1);
    }
  }

  lemma SameLocationIsEqual(paths: seq<string>, rows: seq<Row>, a: Row, b: Row)
    requires Interned(paths, rows) && a in rows && b in rows
    ensures SameLocation(a, b) <==> LocationOf(paths, a) == LocationOf(paths, b)
  {
  }

  lemma LastLocation(paths: seq<string>, rows: seq<Row>)
    requires rows != []
    ensures LocationsOf(paths, rows) != []
    ensures LocationsOf(paths, rows)[|rows| - 1] == LocationOf(paths, rows[|rows| - 1])
  {
  }

  /** Comparing interned rows is comparing their locations. */
  lemma DedupStep(paths: seq<string>, rows: seq<Row>, before: seq<Row>, row: Row)
    requires Interned(paths, rows) && row in rows && forall earlier :: earlier in before ==> earlier in rows
    ensures var (found, location) := (LocationsOf(paths, before), LocationOf(paths, row));
            before != [] && SameLocation(before[|before| - 1], row) <==>
              found != [] && found[|found| - 1] == location
  {
    if before != [] {
      LastLocation(paths, before);
      SameLocationIsEqual(paths, rows, before[|before| - 1], row);
    }
  }

  lemma {:induction false} DedupIsDistinct(paths: seq<string>, rows: seq<Row>, k: nat)
    requires k <= |rows| && Interned(paths, rows)
    ensures LocationsOf(paths, Dedup(rows, k)) == Deduplicated(LocationsOf(paths, rows), k)
  {
    if k == 0 {
    } else {
      DedupIsDistinct(paths, rows, k - 1);
      DedupFrom(rows, k - 1);
      var before, row := Dedup(rows, k - 1), rows[k - 1];
      DedupStep(paths, rows, before, row);
      LocationsAppend(paths, before, row);
      assert LocationsOf(paths, rows)[k - 1] == LocationOf(paths, row);
    }
  }

  ghost predicate SortedLocations(list: seq<Location>) {
    forall i, j :: 0 <= i < j < |list| ==> LocationLe(list[i], list[j])
  }

  lemma StrictAppend(before: seq<Location>, last: Location)
    requires before != [] && StrictlySorted(before) && LocationLt(before[|before| - 1], last)
    ensures StrictlySorted(before + [last])
  {
    var end := before[|before| - 1];
    forall i | 0 <= i < |before|
      ensures LocationLt(before[i], last)
    {
      if i < |before| - 1 {
        assert LocationLt(before[i], end);
        LocationLeTransitive(before[i], end, last);
        LocationLeTotal(before[i], end);
        LocationLeTotal(end, last);
      }
    }
  }

  /** Deduplicating a sorted list leaves it strictly sorted. */
  lemma {:induction false} DistinctIsStrict(list: seq<Location>, k: nat)
    requires k <= |list| && SortedLocations(list)
    ensures StrictlySorted(Deduplicated(list, k))
  {
    if k == 0 {
    } else {
      DistinctIsStrict(list, k - 1);
      var before := Deduplicated(list, k - 1);
      if before != [] && before[|before| - 1] != list[k - 1] {
        assert k - 1 > 0 && before[|before| - 1] == list[k - 2];
        StrictAppend(before, list[k - 1]);
      }
    }
  }

  /** Deduplicating loses no location and adds none. */
  lemma {:induction false} DistinctKeeps(list: seq<Location>, k: nat, location: Location)
    requires k <= |list|
    ensures location in Deduplicated(list, k) <==> location in list[..k]
  {
    if k == 0 {
    } else {
      DistinctKeeps(list, k - 1, location);
      assert list[..k] == list[..k - 1] + [list[k - 1]];
      var before := Deduplicated(list, k - 1);
      assert before != [] ==> before[|before| - 1] in before;
    }
  }

  /** Sorting rows by location sorts their locations and keeps every one of them. */
  lemma SortedRowsAre(paths: seq<string>, found: seq<Row>)
    ensures SortedLocations(LocationsOf(paths, SortedRows(paths, found)))
    ensures forall row :: row in SortedRows(paths, found) <==> row in found
  {
    RowOrder(paths);
    SortSorted(found, (a: Row, b: Row) => LocationLe(LocationOf(paths, a), LocationOf(paths, b)));
    forall row
      ensures row in SortedRows(paths, found) <==> row in found
    {
      SameMembers(SortedRows(paths, found), found, row);
    }
  }

  ghost predicate Names(paths: seq<string>, rows: seq<Row>, location: Location) {
    exists row :: row in rows && LocationOf(paths, row) == location
  }

  lemma NamesIsMember(paths: seq<string>, rows: seq<Row>, location: Location)
    ensures Names(paths, rows, location) <==> location in LocationsOf(paths, rows)
  {
    var locations := LocationsOf(paths, rows);
    if location in locations {
      var i :| 0 <= i < |locations| && locations[i] == location;
      assert rows[i] in rows;
    }
    if Names(paths, rows, location) {
      var row :| row in rows && LocationOf(paths, row) == location;
      var i :| 0 <= i < |rows| && rows[i] == row;
      assert locations[i] == location;
    }
  }

  /** A range's candidates are exactly the locations found in it, strictly sorted. */
  lemma CandidatesAreTheLocations(paths: seq<string>, found: seq<Row>, location: Location)
    requires Interned(paths, found)
    ensures StrictlySorted(LocationsOf(paths, Candidates(paths, found)))
    ensures location in LocationsOf(paths, Candidates(paths, found)) <==> Names(paths, found, location)
  {
    var sorted := SortedRows(paths, found);
    SortedRowsAre(paths, found);
    var list := LocationsOf(paths, sorted);
    DedupIsDistinct(paths, sorted, |sorted|);
    DistinctIsStrict(list, |list|);
    DistinctKeeps(list, |list|, location);
    assert list[..|list|] == list;
    NamesIsMember(paths, sorted, location);
  }
}
