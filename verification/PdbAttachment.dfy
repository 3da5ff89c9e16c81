/** The attachment loop over all symbols: what it keeps, what it reports, and when the report is exact. */
module PdbAttachment {
  import opened Attachment
  import opened Bytes
  import opened Locations
  import opened Sorting
  import opened Wrappers

  function Lengths(locations: seq<Location>): (lengths: seq<nat>) {
    seq(|locations|, i requires 0 <= i < |locations| => Utf8Length(locations[i].path))
  }

  /** Every row in a range. */
  function Found(rows: seq<Row>, range: Range): seq<Row> {
    InRange(rows, range, |rows|)
  }

  /** The locations of as many of them as one symbol may consider. */
  function Considered(rows: seq<Row>, paths: seq<string>, range: Range, budget: Budget): seq<Location> {
    LocationsOf(paths, Candidates(paths, Take(Found(rows, range), budget.symbolCandidates)))
  }

  /** What one range offers its symbol: how many rows it holds, and the locations considered. */
  datatype Offer = Offer(rows: nat, locations: seq<Location>)

  function OfferOf(rows: seq<Row>, paths: seq<string>, range: Range, budget: Budget): Offer {
    Offer(|Found(rows, range)|, Considered(rows, paths, range, budget))
  }

  function Offers(rows: seq<Row>, paths: seq<string>, ranges: seq<Range>, budget: Budget): (offers: seq<Offer>)
  {
    seq(|ranges|, i requires 0 <= i < |ranges| => OfferOf(rows, paths, ranges[i], budget))
  }

  /** How many of them every bound still allows. */
  function Allowed(locations: seq<Location>, budget: Budget, frames: nat, bytes: nat): (allowed: nat) {
    Min(Min(Min(|locations|, budget.symbolInlineFrames), frames), SaturatingPrefix(Lengths(locations), bytes))
  }

  /** The loop's state after some ranges: what the shared bounds have left, and each range's stack. */
  datatype Run = Run(frames: nat, bytes: nat, truncated: bool, stacks: seq<seq<Location>>)

  function SourceBytes(stack: seq<Location>): nat {
    Sum(Lengths(stack))
  }

  function Attach(offer: Offer, budget: Budget, run: Run): Run {
    if run.frames == 0 then Exhausted(run) else Spend(offer, budget, run)
  }

  /** With no frame left the loop stops, and says so. */
  function Exhausted(run: Run): Run {
    Run(0, run.bytes, true, run.stacks + [[]])
  }

  function Spend(offer: Offer, budget: Budget, run: Run): Run
    requires run.frames > 0
  {
    var allowed := Allowed(offer.locations, budget, run.frames, run.bytes);
    var stack := offer.locations[..allowed];
    Run(run.frames - allowed,
        if run.bytes >= SourceBytes(stack) then run.bytes - SourceBytes(stack) else 0,
        run.truncated || offer.rows > budget.symbolCandidates || allowed < |offer.locations|,
        run.stacks + [stack])
  }

  function After(offers: seq<Offer>, budget: Budget, k: nat): (run: Run)
    requires k <= |offers|
    ensures |run.stacks| == k
  {
    if k == 0 then Run(budget.inlineFrames, budget.inlineSourceBytes, false, [])
    else Attach(offers[k - 1], budget, After(offers, budget, k - 1))
  }

  /** The whole run over an object's rows and ranges. */
  function RunOf(rows: seq<Row>, paths: seq<string>, ranges: seq<Range>, budget: Budget): (run: Run) {
    After(Offers(rows, paths, ranges, budget), budget, |ranges|)
  }

  function TotalFrames(stacks: seq<seq<Location>>): nat {
    if stacks == [] then 0 else TotalFrames(stacks[..|stacks| - 1]) + |stacks[|stacks| - 1]|
  }

  function TotalBytes(stacks: seq<seq<Location>>): nat {
    if stacks == [] then 0 else TotalBytes(stacks[..|stacks| - 1]) + SourceBytes(stacks[|stacks| - 1])
  }

  lemma AppendedStack(stacks: seq<seq<Location>>, stack: seq<Location>)
    ensures TotalFrames(stacks + [stack]) == TotalFrames(stacks) + |stack|
    ensures TotalBytes(stacks + [stack]) == TotalBytes(stacks) + SourceBytes(stack)
  {
    assert (stacks + [stack])[..|stacks|] == stacks;
  }

  lemma AllowedFits(locations: seq<Location>, budget: Budget, frames: nat, bytes: nat)
    requires bytes < U64_MAX
    ensures SourceBytes(locations[..Allowed(locations, budget, frames, bytes)]) <= bytes
  {
    var allowed := Allowed(locations, budget, frames, bytes);
    PrefixWithinIsLongest(Lengths(locations), bytes, allowed);
    assert Lengths(locations[..allowed]) == Lengths(locations)[..allowed];
  }

  /** What one range does to the shared bounds. */
  lemma AttachSpends(offer: Offer, budget: Budget, run: Run)
    ensures var after := Attach(offer, budget, run);
            var stack := after.stacks[|run.stacks|];
            && after.stacks == run.stacks + [stack]
            && stack <= offer.locations
            && |stack| <= budget.symbolInlineFrames
            && |stack| + after.frames == run.frames
            && (run.bytes < U64_MAX ==> SourceBytes(stack) + after.bytes == run.bytes)
  {
    if run.frames == 0 {
      assert SourceBytes([]) == 0;
    } else if run.bytes < U64_MAX {
      AllowedFits(offer.locations, budget, run.frames, run.bytes);
    }
  }

  /** Every bound holds, and what is left plus what is attached is what was given. */
  lemma {:induction false} BoundsHold(offers: seq<Offer>, budget: Budget, k: nat)
    requires k <= |offers|
    ensures var run := After(offers, budget, k);
            && (forall i :: 0 <= i < k ==> |run.stacks[i]| <= budget.symbolInlineFrames)
            && TotalFrames(run.stacks) + run.frames == budget.inlineFrames
            && (budget.inlineSourceBytes < U64_MAX ==>
                  TotalBytes(run.stacks) + run.bytes == budget.inlineSourceBytes)
  {
    if k == 0 {
    } else {
      BoundsHold(offers, budget, k - 1);
      var before := After(offers, budget, k - 1);
      AttachSpends(offers[k - 1], budget, before);
      AppendedStack(before.stacks, After(offers, budget, k).stacks[k - 1]);
    }
  }

  lemma {:induction false} StacksStay(offers: seq<Offer>, budget: Budget, j: nat, k: nat)
    requires j <= k <= |offers|
    ensures After(offers, budget, j).stacks <= After(offers, budget, k).stacks
    ensures After(offers, budget, j).truncated ==> After(offers, budget, k).truncated
  {
    if j == k {
    } else {
      StacksStay(offers, budget, j, k - 1);
    }
  }

  lemma StackAt(offers: seq<Offer>, budget: Budget, i: nat)
    requires i < |offers|
    ensures var stack := After(offers, budget, |offers|).stacks[i];
            && stack == Attach(offers[i], budget, After(offers, budget, i)).stacks[i]
            && stack <= offers[i].locations
  {
    StacksStay(offers, budget, i + 1, |offers|);
    AttachSpends(offers[i], budget, After(offers, budget, i));
  }

  /** A location some row of the range names. */
  ghost predicate Named(rows: seq<Row>, paths: seq<string>, range: Range, location: Location) {
    exists row :: row in rows && range.start <= row.address < range.end && LocationOf(paths, row) == location
  }

  lemma FoundNames(rows: seq<Row>, paths: seq<string>, range: Range, location: Location)
    ensures Names(paths, Found(rows, range), location) <==> Named(rows, paths, range, location)
  {
    assert rows[..|rows|] == rows;
    forall row
      ensures row in Found(rows, range) <==> row in rows && range.start <= row.address < range.end
    {
      InRangeMembers(rows, range, |rows|, row);
    }
  }

  lemma FoundInterned(rows: seq<Row>, paths: seq<string>, range: Range, limit: nat)
    requires Interned(paths, rows)
    ensures Interned(paths, Take(Found(rows, range), limit))
  {
    assert rows[..|rows|] == rows;
    forall row | row in Take(Found(rows, range), limit)
      ensures row.source < |paths|
    {
      InRangeMembers(rows, range, |rows|, row);
    }
  }

  /** What one symbol considers is strictly sorted, and is all its range names unless there are too many rows. */
  lemma ConsideredIs(rows: seq<Row>, paths: seq<string>, range: Range, budget: Budget, location: Location)
    requires Interned(paths, rows)
    ensures StrictlySorted(Considered(rows, paths, range, budget))
    ensures location in Considered(rows, paths, range, budget) ==> Named(rows, paths, range, location)
    ensures |Found(rows, range)| <= budget.symbolCandidates && Named(rows, paths, range, location) ==>
              location in Considered(rows, paths, range, budget)
  {
    var found := Found(rows, range);
    var taken := Take(found, budget.symbolCandidates);
    FoundInterned(rows, paths, range, budget.symbolCandidates);
    CandidatesAreTheLocations(paths, taken, location);
    FoundNames(rows, paths, range, location);
    assert taken <= found;
  }

  /** A run that reports nothing cut nothing, range by range. */
  lemma UncutIsWhole(offers: seq<Offer>, budget: Budget, i: nat)
    requires i < |offers| && !After(offers, budget, |offers|).truncated
    ensures offers[i].rows <= budget.symbolCandidates
    ensures After(offers, budget, |offers|).stacks[i] == offers[i].locations
  {
    StackAt(offers, budget, i);
    StacksStay(offers, budget, i + 1, |offers|);
  }

  /**
  Every stack is strictly sorted and names only positions of its range; if no
  truncation is reported, it names all of them.
  */
  lemma StacksAreComplete(rows: seq<Row>, paths: seq<string>, ranges: seq<Range>, budget: Budget, i: nat,
                          location: Location)
    requires i < |ranges| && Interned(paths, rows)
    ensures var run := RunOf(rows, paths, ranges, budget);
            && StrictlySorted(run.stacks[i])
            && (location in run.stacks[i] ==> Named(rows, paths, ranges[i], location))
            && (!run.truncated && Named(rows, paths, ranges[i], location) ==> location in run.stacks[i])
  {
    var offers := Offers(rows, paths, ranges, budget);
    StackAt(offers, budget, i);
    ConsideredIs(rows, paths, ranges[i], budget, location);
    if !After(offers, budget, |offers|).truncated {
      UncutIsWhole(offers, budget, i);
    }
  }

  /** The distinct paths one stack names. */
  function PathSet(stack: seq<Location>): set<string> {
    set location | location in stack :: location.path
  }

  /** The paths that attached positions name: what `source_mappings` becomes. */
  function PathsOf(stacks: seq<seq<Location>>): set<string> {
    if stacks == [] then {} else PathsOf(stacks[..|stacks| - 1]) + PathSet(stacks[|stacks| - 1])
  }

  /** Some attached location has this path. */
  ghost predicate Maps(stacks: seq<seq<Location>>, path: string) {
    exists i, j :: 0 <= i < |stacks| && 0 <= j < |stacks[i]| && stacks[i][j].path == path
  }

  lemma {:induction false} PathsAreMapped(stacks: seq<seq<Location>>, path: string)
    ensures path in PathsOf(stacks) <==> Maps(stacks, path)
  {
    if stacks == [] {
    } else {
      var last := |stacks| - 1;
      PathsAreMapped(stacks[..last], path);
      if path in PathSet(stacks[last]) {
        var location :| location in stacks[last] && location.path == path;
        var j :| 0 <= j < |stacks[last]| && stacks[last][j] == location;
      }
      if Maps(stacks[..last], path) {
        var i, j :| 0 <= i < last && 0 <= j < |stacks[..last][i]| && stacks[..last][i][j].path == path;
        assert stacks[i][j].path == path;
      }
      if Maps(stacks, path) {
        var i, j :| 0 <= i < |stacks| && 0 <= j < |stacks[i]| && stacks[i][j].path == path;
        if i < last {
          assert stacks[..last][i][j].path == path;
        } else {
          assert stacks[i][j] in stacks[last];
        }
      }
    }
  }

  ghost predicate OwnSymbols(ranges: seq<Range>, count: nat) {
    && (forall i :: 0 <= i < |ranges| ==> ranges[i].position < count)
    && forall i, j :: 0 <= i < j < |ranges| ==> ranges[i].position != ranges[j].position
  }

  /** One stack written to its symbol; an empty stack leaves the symbol as it was. */
  function Put(before: seq<seq<Location>>, position: nat, stack: seq<Location>): (after: seq<seq<Location>>)
    requires position < |before|
  {
    if stack == [] then before else before[position := stack]
  }

  /** The stacks of the first ranges written back in order. */
  function PutAll(before: seq<seq<Location>>, ranges: seq<Range>, stacks: seq<seq<Location>>):
      (after: seq<seq<Location>>)
    requires |stacks| <= |ranges| && forall i :: 0 <= i < |ranges| ==> ranges[i].position < |before|
    ensures |after| == |before|
  {
    if stacks == [] then before
    else
      var last := |stacks| - 1;
      Put(PutAll(before, ranges, stacks[..last]), ranges[last].position, stacks[last])
  }

  /** Each symbol ends with its own range's stack, and symbols without a range with what they had. */
  lemma {:induction false} PutAllIs(before: seq<seq<Location>>, ranges: seq<Range>, stacks: seq<seq<Location>>, p: nat)
    requires |stacks| <= |ranges| && OwnSymbols(ranges, |before|) && p < |before|
    ensures forall i :: 0 <= i < |stacks| && ranges[i].position == p ==>
              PutAll(before, ranges, stacks)[p] == if stacks[i] == [] then before[p] else stacks[i]
    ensures (forall i :: 0 <= i < |stacks| ==> ranges[i].position != p) ==>
              PutAll(before, ranges, stacks)[p] == before[p]
  {
    if stacks == [] {
    } else {
      PutAllIs(before, ranges, stacks[..|stacks| - 1], p);
    }
  }

  /** Empty stacks change nothing. */
  lemma {:induction false} PutNothing(before: seq<seq<Location>>, ranges: seq<Range>, stacks: seq<seq<Location>>,
                                      more: seq<seq<Location>>)
    requires stacks <= more && |more| <= |ranges|
    requires forall i :: 0 <= i < |ranges| ==> ranges[i].position < |before|
    requires forall i :: |stacks| <= i < |more| ==> more[i] == []
    ensures PutAll(before, ranges, more) == PutAll(before, ranges, stacks)
    ensures PathsOf(more) == PathsOf(stacks)
    decreases |more|
  {
    if |more| > |stacks| {
      PutNothing(before, ranges, stacks, more[..|more| - 1]);
    } else {
      assert more == stacks;
    }
  }

  /** `run` is out of frames, says so, and added only empty stacks to those of `first`. */
  ghost predicate Dry(first: Run, run: Run) {
    && run.frames == 0 && run.truncated
    && first.stacks <= run.stacks
    && forall i :: |first.stacks| <= i < |run.stacks| ==> run.stacks[i] == []
  }

  /** Once the frame budget is spent, no later range gets anything. */
  lemma {:induction false} NothingAfter(offers: seq<Offer>, budget: Budget, j: nat, k: nat)
    requires j < k <= |offers| && After(offers, budget, j).frames == 0
    ensures Dry(After(offers, budget, j), After(offers, budget, k))
    decreases k
  {
    if j == k - 1 {
    } else {
      NothingAfter(offers, budget, j, k - 1);
    }
  }

  /** The rows of one range as they are attached, and whether a per-symbol bound or a shared one cut them. */
  method StackFor(rows: seq<Row>, paths: seq<string>, range: Range, budget: Budget, frames: nat, bytes: nat)
      returns (stack: seq<Location>, cut: bool)
    requires SortedByAddress(rows) && bytes <= U64_MAX
    ensures var locations := Considered(rows, paths, range, budget);
            && stack == locations[..Allowed(locations, budget, frames, bytes)]
            && (cut <==> |Found(rows, range)| > budget.symbolCandidates || |stack| < |locations|)
  {
    var taken := TakeRange(rows, range, budget.symbolCandidates + 1);
    cut := |taken| > budget.symbolCandidates;
    if cut {
      taken := taken[..budget.symbolCandidates];
    }
    assert taken == Take(Found(rows, range), budget.symbolCandidates);
    var candidates := Candidates(paths, taken);
    var locations := LocationsOf(paths, candidates);
    var fitting := SourcePathPrefixWithin(Lengths(locations), bytes);
    var retained := Min(Min(Min(|locations|, budget.symbolInlineFrames), frames), fitting);
    if retained < |locations| {
      cut := true;
    }
    stack := locations[..retained];
  }

  /** One range's stack, and what the shared bounds have left after it. */
  method AttachNext(rows: seq<Row>, paths: seq<string>, range: Range, budget: Budget, ghost run: Run,
                    frames: nat, bytes: nat)
      returns (stack: seq<Location>, cut: bool, framesLeft: nat, bytesLeft: nat)
    requires SortedByAddress(rows)
    requires run.frames == frames != 0 && run.bytes == bytes <= U64_MAX
    ensures var after := Attach(OfferOf(rows, paths, range, budget), budget, run);
            && after.frames == framesLeft && after.bytes == bytesLeft <= bytes
            && after.truncated == (run.truncated || cut)
            && after.stacks == run.stacks + [stack]
  {
    stack, cut := StackFor(rows, paths, range, budget, frames, bytes);
    framesLeft := frames - |stack|;
    var used := SourceBytes(stack);
    bytesLeft := if bytes >= used then bytes - used else 0;
  }

  /** Leaving the loop once no frame is left is as good as finishing it. */
  lemma DryAddsNothing(first: Run, last: Run, before: seq<seq<Location>>, ranges: seq<Range>)
    requires Dry(first, last) && |last.stacks| <= |ranges|
    requires forall j :: 0 <= j < |ranges| ==> ranges[j].position < |before|
    ensures PutAll(before, ranges, last.stacks) == PutAll(before, ranges, first.stacks)
    ensures PathsOf(last.stacks) == PathsOf(first.stacks)
  {
    PutNothing(before, ranges, first.stacks, last.stacks);
  }

  method Store(stacks: array<seq<Location>>, position: nat, stack: seq<Location>)
    requires position < stacks.Length
    modifies stacks
    ensures stacks[..] == Put(old(stacks[..]), position, stack)
  {
    if stack != [] {
      stacks[position] := stack;
    }
  }

  /** The attachment loop over rows already sorted by address. */
  method AttachSorted(rows: seq<Row>, names: seq<string>, ranges: seq<Range>, budget: Budget,
                      stacks: array<seq<Location>>)
      returns (truncated: bool, mappings: set<string>)
    requires SortedByAddress(rows) && budget.inlineSourceBytes <= U64_MAX && OwnSymbols(ranges, stacks.Length)
    modifies stacks
    ensures var run := RunOf(rows, names, ranges, budget);
            && stacks[..] == PutAll(old(stacks[..]), ranges, run.stacks)
            && truncated == run.truncated
            && mappings == PathsOf(run.stacks)
  {
    ghost var before := stacks[..];
    ghost var offers := Offers(rows, names, ranges, budget);
    var frames, bytes := budget.inlineFrames, budget.inlineSourceBytes;
    truncated, mappings := false, {};
    ghost var run := After(offers, budget, 0);
    for i := 0 to |ranges|
      invariant run == After(offers, budget, i)
      invariant run.frames == frames && run.bytes == bytes <= U64_MAX && run.truncated == truncated
      invariant stacks[..] == PutAll(before, ranges, run.stacks)
      invariant mappings == PathsOf(run.stacks)
    {
      if frames == 0 {
        NothingAfter(offers, budget, i, |ranges|);
        DryAddsNothing(run, After(offers, budget, |ranges|), before, ranges);
        return true, mappings;
      }
      var stack, cut;
      stack, cut, frames, bytes := AttachNext(rows, names, ranges[i], budget, run, frames, bytes);
      truncated := truncated || cut;
      run := Attach(offers[i], budget, run);
      mappings := mappings + PathSet(stack);
      Store(stacks, ranges[i].position, stack);
    }
  }

  /** `attach_pdb_rows`: sort the rows, then run the loop. */
  method AttachPdbRows(unsorted: seq<Row>, paths: DwarfPathInterner, ranges: seq<Range>, budget: Budget,
                       stacks: array<seq<Location>>)
      returns (truncated: bool, mappings: set<string>)
    requires paths.Valid() && budget.inlineSourceBytes <= U64_MAX && OwnSymbols(ranges, stacks.Length)
    modifies stacks
    ensures var run := RunOf(Sort(unsorted, AddressLe), paths.values, ranges, budget);
            && stacks[..] == PutAll(old(stacks[..]), ranges, run.stacks)
            && truncated == run.truncated
            && mappings == PathsOf(run.stacks)
            && forall path :: path in mappings <==> Maps(run.stacks, path)
  {
    SortSorted(unsorted, AddressLe);
    truncated, mappings := AttachSorted(Sort(unsorted, AddressLe), paths.values, ranges, budget, stacks);
    forall path
      ensures path in mappings <==> Maps(RunOf(Sort(unsorted, AddressLe), paths.values, ranges, budget).stacks, path)
    {
      PathsAreMapped(RunOf(Sort(unsorted, AddressLe), paths.values, ranges, budget).stacks, path);
    }
  }
}
