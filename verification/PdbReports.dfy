/** When the attachment loop's report of a truncation tells exactly whether a location was dropped. */
module PdbReports {
  import opened Attachment
  import opened Bytes
  import opened Locations
  import opened PdbAttachment
  import opened Wrappers

  /** A location some row of range `i` names is missing from the range's stack. */
  ghost predicate Misses(rows: seq<Row>, paths: seq<string>, ranges: seq<Range>, budget: Budget, i: nat)
    requires i < |ranges|
  {
    exists location ::
      Named(rows, paths, ranges[i], location) && location !in RunOf(rows, paths, ranges, budget).stacks[i]
  }

  ghost predicate Dropped(rows: seq<Row>, paths: seq<string>, ranges: seq<Range>, budget: Budget) {
    exists i :: 0 <= i < |ranges| && Misses(rows, paths, ranges, budget, i)
  }

  /** The rows one symbol may not even consider name a location the others do not. */
  ghost predicate CutShort(rows: seq<Row>, paths: seq<string>, range: Range, budget: Budget) {
    exists location :: Named(rows, paths, range, location) && location !in Considered(rows, paths, range, budget)
  }

  /** No range holds more rows than one symbol may consider, and the last one holds some. */
  ghost predicate Tidy(rows: seq<Row>, ranges: seq<Range>, budget: Budget) {
    && (forall i :: 0 <= i < |ranges| ==> |Found(rows, ranges[i])| <= budget.symbolCandidates)
    && (ranges != [] ==> Found(rows, ranges[|ranges| - 1]) != [])
  }

  ghost predicate SomeCutShort(rows: seq<Row>, paths: seq<string>, ranges: seq<Range>, budget: Budget) {
    exists i :: 0 <= i < |ranges| && CutShort(rows, paths, ranges[i], budget)
  }

  ghost predicate ReportIsRight(rows: seq<Row>, paths: seq<string>, ranges: seq<Range>, budget: Budget) {
    RunOf(rows, paths, ranges, budget).truncated <==> Dropped(rows, paths, ranges, budget)
  }

  /** Nothing is dropped behind the report's back. */
  lemma DroppedIsReported(rows: seq<Row>, paths: seq<string>, ranges: seq<Range>, budget: Budget)
    requires Interned(paths, rows)
    ensures Dropped(rows, paths, ranges, budget) ==> RunOf(rows, paths, ranges, budget).truncated
  {
    if Dropped(rows, paths, ranges, budget) {
      var i :| 0 <= i < |ranges| && Misses(rows, paths, ranges, budget, i);
      var location :| Named(rows, paths, ranges[i], location)
                      && location !in RunOf(rows, paths, ranges, budget).stacks[i];
      StacksAreComplete(rows, paths, ranges, budget, i, location);
    }
  }

  lemma CutShortIsDropped(rows: seq<Row>, paths: seq<string>, ranges: seq<Range>, budget: Budget)
    ensures SomeCutShort(rows, paths, ranges, budget) ==> Dropped(rows, paths, ranges, budget)
  {
    if SomeCutShort(rows, paths, ranges, budget) {
      var i :| 0 <= i < |ranges| && CutShort(rows, paths, ranges[i], budget);
      var location :| Named(rows, paths, ranges[i], location)
                      && location !in Considered(rows, paths, ranges[i], budget);
      StackAt(Offers(rows, paths, ranges, budget), budget, i);
      assert location !in RunOf(rows, paths, ranges, budget).stacks[i];
      assert Misses(rows, paths, ranges, budget, i);
    }
  }

  lemma {:induction false} FirstCut(offers: seq<Offer>, budget: Budget, k: nat) returns (i: nat)
    requires k <= |offers| && After(offers, budget, k).truncated
    ensures i < k && !After(offers, budget, i).truncated && After(offers, budget, i + 1).truncated
  {
    if After(offers, budget, k - 1).truncated {
      i := FirstCut(offers, budget, k - 1);
    } else {
      i := k - 1;
    }
  }

  /** A range whose stack is shorter than what it considers misses something. */
  lemma ShortStackMisses(rows: seq<Row>, paths: seq<string>, ranges: seq<Range>, budget: Budget, i: nat)
    requires Interned(paths, rows) && i < |ranges|
    ensures |RunOf(rows, paths, ranges, budget).stacks[i]| < |Considered(rows, paths, ranges[i], budget)| ==>
              Dropped(rows, paths, ranges, budget)
  {
    var list, stack := Considered(rows, paths, ranges[i], budget), RunOf(rows, paths, ranges, budget).stacks[i];
    if |stack| < |list| {
      StackAt(Offers(rows, paths, ranges, budget), budget, i);
      ConsideredIs(rows, paths, ranges[i], budget, list[|stack|]);
      assert stack == list[..|stack|];
      assert Misses(rows, paths, ranges, budget, i);
    }
  }

  /** Everything every range considers. */
  function Whole(offers: seq<Offer>): (stacks: seq<seq<Location>>) {
    seq(|offers|, i requires 0 <= i < |offers| => offers[i].locations)
  }

  lemma {:induction false} TotalsGrow(stacks: seq<seq<Location>>, k: nat)
    requires k <= |stacks|
    ensures TotalFrames(stacks[..k]) <= TotalFrames(stacks) && TotalBytes(stacks[..k]) <= TotalBytes(stacks)
    decreases |stacks|
  {
    if k < |stacks| {
      TotalsGrow(stacks[..|stacks| - 1], k);
      assert stacks[..|stacks| - 1][..k] == stacks[..k];
    } else {
      assert stacks[..k] == stacks;
    }
  }

  /** Every range's stack is everything the range considers. */
  ghost predicate Complete(offers: seq<Offer>, budget: Budget) {
    After(offers, budget, |offers|).stacks == Whole(offers)
  }

  ghost predicate FramesFit(offers: seq<Offer>, budget: Budget) {
    && (forall i :: 0 <= i < |offers| ==> |offers[i].locations| <= budget.symbolInlineFrames)
    && TotalFrames(Whole(offers)) <= budget.inlineFrames
  }

  /** Everything considered stays within every bound. */
  ghost predicate Fits(offers: seq<Offer>, budget: Budget) {
    FramesFit(offers, budget) && TotalBytes(Whole(offers)) <= budget.inlineSourceBytes
  }

  /** Range `i` holds surplus rows, or the ranges before it use up the frames. */
  ghost predicate Cuts(offers: seq<Offer>, budget: Budget, i: nat)
    requires i < |offers|
  {
    offers[i].rows > budget.symbolCandidates || TotalFrames(Whole(offers)[..i]) == budget.inlineFrames
  }

  ghost predicate SomeCuts(offers: seq<Offer>, budget: Budget) {
    exists i :: 0 <= i < |offers| && Cuts(offers, budget, i)
  }

  lemma AllAllowed(locations: seq<Location>, budget: Budget, frames: nat, bytes: nat)
    requires |locations| <= budget.symbolInlineFrames && |locations| <= frames && SourceBytes(locations) <= bytes
    ensures Allowed(locations, budget, frames, bytes) == |locations|
  {
    var lengths := Lengths(locations);
    assert lengths[..|lengths|] == lengths;
    PrefixWithinIsLongest(lengths, bytes, |lengths|);
  }

  lemma FittingStep(offer: Offer, budget: Budget, run: Run)
    requires |offer.locations| <= budget.symbolInlineFrames && |offer.locations| <= run.frames
    requires SourceBytes(offer.locations) <= run.bytes
    ensures var after := Attach(offer, budget, run);
            && after.stacks == run.stacks + [offer.locations]
            && after.frames == run.frames - |offer.locations|
            && after.bytes == run.bytes - SourceBytes(offer.locations)
  {
    if run.frames > 0 {
      AllAllowed(offer.locations, budget, run.frames, run.bytes);
      assert offer.locations[..|offer.locations|] == offer.locations;
    } else {
      assert offer.locations == [];
    }
  }

  /** What fits is attached whole. */
  lemma {:induction false} FittingRunIsWhole(offers: seq<Offer>, budget: Budget, k: nat)
    requires k <= |offers| && Fits(offers, budget)
    ensures var (run, so) := (After(offers, budget, k), Whole(offers)[..k]);
            && run.stacks == so
            && run.frames + TotalFrames(so) == budget.inlineFrames
            && run.bytes + TotalBytes(so) == budget.inlineSourceBytes
  {
    if k == 0 {
    } else {
      FittingRunIsWhole(offers, budget, k - 1);
      var whole, offer := Whole(offers), offers[k - 1];
      TotalsGrow(whole, k);
      assert whole[..k] == whole[..k - 1] + [offer.locations];
      AppendedStack(whole[..k - 1], offer.locations);
      FittingStep(offer, budget, After(offers, budget, k - 1));
    }
  }

  /** What is attached whole fits; in bytes, unless the budget is the one that never runs out. */
  lemma CompleteFits(offers: seq<Offer>, budget: Budget)
    requires Complete(offers, budget)
    ensures FramesFit(offers, budget)
    ensures budget.inlineSourceBytes < U64_MAX ==> Fits(offers, budget)
  {
    BoundsHold(offers, budget, |offers|);
    forall i | 0 <= i < |offers|
      ensures |offers[i].locations| <= budget.symbolInlineFrames
    {
      assert After(offers, budget, |offers|).stacks[i] == offers[i].locations;
    }
  }

  lemma FittingIsComplete(offers: seq<Offer>, budget: Budget)
    requires Fits(offers, budget)
    ensures Complete(offers, budget)
  {
    FittingRunIsWhole(offers, budget, |offers|);
    assert Whole(offers)[..|offers|] == Whole(offers);
  }

  /** A complete run, range by range. */
  lemma CompleteRunAt(offers: seq<Offer>, budget: Budget, i: nat)
    requires i <= |offers| && Complete(offers, budget)
    ensures var run := After(offers, budget, i);
            run.stacks == Whole(offers)[..i] && run.frames + TotalFrames(Whole(offers)[..i]) == budget.inlineFrames
  {
    StacksStay(offers, budget, i, |offers|);
    BoundsHold(offers, budget, i);
  }

  lemma CompleteCut(offers: seq<Offer>, budget: Budget) returns (i: nat)
    requires Complete(offers, budget) && After(offers, budget, |offers|).truncated
    ensures i < |offers| && Cuts(offers, budget, i)
  {
    i := FirstCut(offers, budget, |offers|);
    CompleteRunAt(offers, budget, i);
    StackAt(offers, budget, i);
    WholeStepCuts(offers[i], budget, After(offers, budget, i));
  }

  lemma CutsTruncate(offers: seq<Offer>, budget: Budget, i: nat)
    requires Complete(offers, budget) && i < |offers| && Cuts(offers, budget, i)
    ensures After(offers, budget, |offers|).truncated
  {
    CompleteRunAt(offers, budget, i);
    StacksStay(offers, budget, i + 1, |offers|);
  }

  /** A complete run reports a truncation exactly when some range cuts. */
  lemma CompleteTruncation(offers: seq<Offer>, budget: Budget)
    requires Complete(offers, budget)
    ensures After(offers, budget, |offers|).truncated <==> SomeCuts(offers, budget)
  {
    if After(offers, budget, |offers|).truncated {
      var i := CompleteCut(offers, budget);
    }
    if SomeCuts(offers, budget) {
      var i :| 0 <= i < |offers| && Cuts(offers, budget, i);
      CutsTruncate(offers, budget, i);
    }
  }

  /** A range attached whole truncates only by surplus rows, or for want of any frame. */
  lemma WholeStepCuts(offer: Offer, budget: Budget, run: Run)
    requires !run.truncated && Attach(offer, budget, run).truncated
    requires Attach(offer, budget, run).stacks[|run.stacks|] == offer.locations
    ensures run.frames == 0 || offer.rows > budget.symbolCandidates
  {
  }

  lemma WholeMissesNothing(rows: seq<Row>, paths: seq<string>, ranges: seq<Range>, budget: Budget, i: nat)
    requires i < |ranges| && Complete(Offers(rows, paths, ranges, budget), budget)
    requires !CutShort(rows, paths, ranges[i], budget)
    ensures !Misses(rows, paths, ranges, budget, i)
  {
    assert RunOf(rows, paths, ranges, budget).stacks[i] == Considered(rows, paths, ranges[i], budget);
  }

  /** A location is dropped exactly when surplus rows name one of their own, or some stack is not whole. */
  lemma DroppedExactly(rows: seq<Row>, paths: seq<string>, ranges: seq<Range>, budget: Budget)
    requires Interned(paths, rows)
    ensures Dropped(rows, paths, ranges, budget)
        <==> SomeCutShort(rows, paths, ranges, budget) || !Complete(Offers(rows, paths, ranges, budget), budget)
  {
    var offers := Offers(rows, paths, ranges, budget);
    CutShortIsDropped(rows, paths, ranges, budget);
    if Complete(offers, budget) {
      forall i | 0 <= i < |ranges| && !SomeCutShort(rows, paths, ranges, budget)
        ensures !Misses(rows, paths, ranges, budget, i)
      {
        WholeMissesNothing(rows, paths, ranges, budget, i);
      }
    } else {
      var i :| 0 <= i < |offers| && After(offers, budget, |offers|).stacks[i] != Whole(offers)[i];
      StackAt(offers, budget, i);
      ShortStackMisses(rows, paths, ranges, budget, i);
    }
  }

  /**
  For the budget of the call, the report equals "a location was dropped" exactly
  when surplus rows name a location of their own, or what is considered does not
  fit, or no range cuts. A byte budget of all of 64 bits is covered for paths it
  can count.
  */
  lemma ReportIsRightExactly(rows: seq<Row>, paths: seq<string>, ranges: seq<Range>, budget: Budget)
    requires Interned(paths, rows)
    requires budget.inlineSourceBytes < U64_MAX
             || TotalBytes(Whole(Offers(rows, paths, ranges, budget))) <= budget.inlineSourceBytes
    ensures var offers := Offers(rows, paths, ranges, budget);
            ReportIsRight(rows, paths, ranges, budget) <==>
              || SomeCutShort(rows, paths, ranges, budget)
              || !Fits(offers, budget)
              || !SomeCuts(offers, budget)
  {
    var offers := Offers(rows, paths, ranges, budget);
    DroppedExactly(rows, paths, ranges, budget);
    DroppedIsReported(rows, paths, ranges, budget);
    if Fits(offers, budget) {
      FittingIsComplete(offers, budget);
    }
    if Complete(offers, budget) {
      CompleteFits(offers, budget);
      CompleteTruncation(offers, budget);
    }
  }

  lemma FoundIsConsidered(rows: seq<Row>, paths: seq<string>, range: Range, budget: Budget)
    requires Interned(paths, rows)
    ensures 0 < |Found(rows, range)| <= budget.symbolCandidates ==> Considered(rows, paths, range, budget) != []
  {
    if 0 < |Found(rows, range)| <= budget.symbolCandidates {
      var row := Found(rows, range)[0];
      assert row in Found(rows, range);
      assert Names(paths, Found(rows, range), LocationOf(paths, row));
      FoundNames(rows, paths, range, LocationOf(paths, row));
      ConsideredIs(rows, paths, range, budget, LocationOf(paths, row));
    }
  }

  /** Frames that run out before a range that considers something are not enough for all. */
  lemma NoneLeftIsTooFew(offers: seq<Offer>, budget: Budget, i: nat)
    requires i < |offers| && offers[|offers| - 1].locations != []
    requires TotalFrames(Whole(offers)[..i]) == budget.inlineFrames
    ensures !FramesFit(offers, budget)
  {
    var whole, last := Whole(offers), |offers| - 1;
    TotalsGrow(whole[..last], i);
    assert whole[..last][..i] == whole[..i];
    assert whole == whole[..last] + [offers[last].locations];
    AppendedStack(whole[..last], offers[last].locations);
  }

  /** A complete run without surplus rows, and with something considered last, reports nothing. */
  lemma CompleteReportsNothing(offers: seq<Offer>, budget: Budget)
    requires Complete(offers, budget)
    requires forall i :: 0 <= i < |offers| ==> offers[i].rows <= budget.symbolCandidates
    requires offers != [] ==> offers[|offers| - 1].locations != []
    ensures !After(offers, budget, |offers|).truncated
  {
    CompleteFits(offers, budget);
    CompleteTruncation(offers, budget);
    forall i | 0 <= i < |offers|
      ensures !Cuts(offers, budget, i)
    {
      if TotalFrames(Whole(offers)[..i]) == budget.inlineFrames {
        NoneLeftIsTooFew(offers, budget, i);
      }
    }
  }

  /** With tidy ranges, whatever truncates the run drops a location. */
  lemma TidyReportIsRight(rows: seq<Row>, paths: seq<string>, ranges: seq<Range>, budget: Budget)
    requires Interned(paths, rows) && Tidy(rows, ranges, budget)
    ensures ReportIsRight(rows, paths, ranges, budget)
  {
    var offers := Offers(rows, paths, ranges, budget);
    DroppedExactly(rows, paths, ranges, budget);
    DroppedIsReported(rows, paths, ranges, budget);
    if ranges != [] {
      FoundIsConsidered(rows, paths, ranges[|ranges| - 1], budget);
    }
    if Complete(offers, budget) {
      CompleteReportsNothing(offers, budget);
    }
  }

  ghost predicate LastIsEmpty(rows: seq<Row>, ranges: seq<Range>) {
    ranges != [] && Found(rows, ranges[|ranges| - 1]) == []
  }

  ghost predicate AlwaysRight(rows: seq<Row>, paths: seq<string>, ranges: seq<Range>, symbolCandidates: nat) {
    forall budget: Budget :: budget.symbolCandidates == symbolCandidates && budget.inlineSourceBytes <= U64_MAX ==>
      ReportIsRight(rows, paths, ranges, budget)
  }

  /** The candidate limit alone decides what ranges offer. */
  lemma OffersShareLimit(rows: seq<Row>, paths: seq<string>, ranges: seq<Range>, a: Budget, b: Budget)
    requires a.symbolCandidates == b.symbolCandidates
    ensures Offers(rows, paths, ranges, a) == Offers(rows, paths, ranges, b)
    ensures Tidy(rows, ranges, a) == Tidy(rows, ranges, b)
    ensures SomeCutShort(rows, paths, ranges, a) == SomeCutShort(rows, paths, ranges, b)
  {
    forall i | 0 <= i < |ranges|
      ensures Considered(rows, paths, ranges[i], a) == Considered(rows, paths, ranges[i], b)
      ensures CutShort(rows, paths, ranges[i], a) == CutShort(rows, paths, ranges[i], b)
    {
    }
  }

  lemma {:induction false} OneIsWithinTotal(stacks: seq<seq<Location>>, i: nat)
    requires i < |stacks|
    ensures |stacks[i]| <= TotalFrames(stacks)
    decreases |stacks|
  {
    if i == |stacks| - 1 {
    } else {
      OneIsWithinTotal(stacks[..|stacks| - 1], i);
    }
  }

  /** Room for everything, and `extra` frames beyond. */
  function RoomyBudget(offers: seq<Offer>, symbolCandidates: nat, extra: nat): Budget {
    var frames := TotalFrames(Whole(offers));
    Budget(symbolCandidates, frames, frames + extra, TotalBytes(Whole(offers)))
  }

  lemma RoomyFits(offers: seq<Offer>, symbolCandidates: nat, extra: nat)
    ensures Fits(offers, RoomyBudget(offers, symbolCandidates, extra))
  {
    forall i | 0 <= i < |offers|
      ensures |offers[i].locations| <= TotalFrames(Whole(offers))
    {
      OneIsWithinTotal(Whole(offers), i);
    }
  }

  lemma EmptyLastCuts(offers: seq<Offer>, symbolCandidates: nat)
    requires offers != [] && offers[|offers| - 1].locations == []
    ensures Cuts(offers, RoomyBudget(offers, symbolCandidates, 0), |offers| - 1)
  {
    var whole, last := Whole(offers), |offers| - 1;
    assert whole == whole[..last] + [[]];
    AppendedStack(whole[..last], []);
  }

  /** An untidy input has a budget under which a truncation is reported although nothing is dropped. */
  lemma UntidyMisreports(rows: seq<Row>, paths: seq<string>, ranges: seq<Range>, budget: Budget) returns (other: Budget)
    requires Interned(paths, rows) && TotalBytes(Whole(Offers(rows, paths, ranges, budget))) < U64_MAX
    requires !Tidy(rows, ranges, budget) && !SomeCutShort(rows, paths, ranges, budget)
    ensures other.symbolCandidates == budget.symbolCandidates && other.inlineSourceBytes < U64_MAX
    ensures RunOf(rows, paths, ranges, other).truncated && !Dropped(rows, paths, ranges, other)
  {
    var offers := Offers(rows, paths, ranges, budget);
    other := RoomyBudget(offers, budget.symbolCandidates, if LastIsEmpty(rows, ranges) then 0 else 1);
    OffersShareLimit(rows, paths, ranges, budget, other);
    RoomyFits(offers, budget.symbolCandidates, if LastIsEmpty(rows, ranges) then 0 else 1);
    if LastIsEmpty(rows, ranges) {
      NothingConsidered(rows, paths, ranges[|ranges| - 1], budget);
      EmptyLastCuts(offers, budget.symbolCandidates);
    } else {
      var i :| 0 <= i < |ranges| && |Found(rows, ranges[i])| > budget.symbolCandidates;
      assert Cuts(offers, other, i);
    }
    FittingIsComplete(offers, other);
    CompleteTruncation(offers, other);
    DroppedExactly(rows, paths, ranges, other);
  }

  lemma NothingConsidered(rows: seq<Row>, paths: seq<string>, range: Range, budget: Budget)
    requires Interned(paths, rows) && Found(rows, range) == []
    ensures Considered(rows, paths, range, budget) == []
  {
  }

  /**
  The report is right under every shared and per-symbol budget exactly when some
  range's surplus rows name a location of their own, or no range has surplus rows
  and the last one has any rows at all. That there is a budget to show it takes
  source paths that a 64-bit count can add up.
  */
  lemma ReportIsAlwaysRightExactly(rows: seq<Row>, paths: seq<string>, ranges: seq<Range>, budget: Budget)
    requires Interned(paths, rows)
    ensures SomeCutShort(rows, paths, ranges, budget) || Tidy(rows, ranges, budget) ==>
              AlwaysRight(rows, paths, ranges, budget.symbolCandidates)
    ensures TotalBytes(Whole(Offers(rows, paths, ranges, budget))) < U64_MAX
            && AlwaysRight(rows, paths, ranges, budget.symbolCandidates) ==>
              SomeCutShort(rows, paths, ranges, budget) || Tidy(rows, ranges, budget)
  {
    if SomeCutShort(rows, paths, ranges, budget) || Tidy(rows, ranges, budget) {
      forall other: Budget | other.symbolCandidates == budget.symbolCandidates && other.inlineSourceBytes <= U64_MAX
        ensures ReportIsRight(rows, paths, ranges, other)
      {
        OffersShareLimit(rows, paths, ranges, budget, other);
        DroppedIsReported(rows, paths, ranges, other);
        CutShortIsDropped(rows, paths, ranges, other);
        if Tidy(rows, ranges, other) {
          TidyReportIsRight(rows, paths, ranges, other);
        }
      }
    } else if TotalBytes(Whole(Offers(rows, paths, ranges, budget))) < U64_MAX {
      var other := UntidyMisreports(rows, paths, ranges, budget);
      assert !ReportIsRight(rows, paths, ranges, other);
    }
  }

  const TWICE := [Row(5, 0, 7, None), Row(6, 0, 7, None)]
  const ONE_EACH := Budget(1, 10, 10, 100)
  const WHOLE := Range(0, 0, 10)
  const PLACE := Location("a.c", 7, None)

  lemma TwiceConsidered()
    ensures Found(TWICE, WHOLE) == TWICE
    ensures Considered(TWICE, ["a.c"], WHOLE, ONE_EACH) == [PLACE]
  {
    assert InRange(TWICE, WHOLE, 1) == [TWICE[0]];
    var taken := Take(TWICE, 1);
    assert taken == [TWICE[0]];
    assert SortedRows(["a.c"], taken) == taken by {
      assert taken[1..] == [];
    }
    assert Dedup(taken, 1) == taken;
  }

  /** Two rows naming one location, one candidate allowed: truncation is reported and nothing is dropped. */
  lemma ReportCanBeSpurious()
    ensures RunOf(TWICE, ["a.c"], [WHOLE], ONE_EACH).truncated
    ensures !Dropped(TWICE, ["a.c"], [WHOLE], ONE_EACH)
  {
    TwiceConsidered();
    var offers := Offers(TWICE, ["a.c"], [WHOLE], ONE_EACH);
    assert offers[0] == Offer(2, [PLACE]);
    var start := After(offers, ONE_EACH, 0);
    assert [PLACE][..1] == [PLACE];
    var run := Attach(offers[0], ONE_EACH, start);
    assert run.truncated && run.stacks == [[PLACE]];
    assert RunOf(TWICE, ["a.c"], [WHOLE], ONE_EACH) == run;
    assert forall other :: Named(TWICE, ["a.c"], WHOLE, other) ==> other in run.stacks[0];
    assert !Misses(TWICE, ["a.c"], [WHOLE], ONE_EACH, 0);
  }
}
