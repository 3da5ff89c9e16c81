/**
What a run of the attachment loop leaves behind, written out: which locations a
symbol's stack holds, in which order, how far it reaches, and what is reported.
*/
module PdbLaws {
  import opened Attachment
  import opened Bytes
  import opened Locations
  import opened PdbAttachment

  /** One path is less than another: it ends first, or is less where they first differ. */
  ghost predicate PathLess(a: string, b: string) {
    exists k: nat :: k <= |a| && k < |b| && a[..k] == b[..k] && (k == |a| || a[k] < b[k])
  }

  /** By path, then by line, then by column, a missing column first. */
  ghost predicate Precedes(a: Location, b: Location) {
    || PathLess(a.path, b.path)
    || (a.path == b.path && a.line < b.line)
    || (a.path == b.path && a.line == b.line && b.column.Some? && (a.column.None? || a.column.value < b.column.value))
  }

  lemma LessBehind(a: string, b: string, k: nat)
    requires a != "" && b != "" && a[0] == b[0] && 0 < k <= |a| && k < |b|
    ensures a[..k] == b[..k] <==> a[1..][..k - 1] == b[1..][..k - 1]
  {
    assert a[..k] == [a[0]] + a[1..][..k - 1];
    assert b[..k] == [b[0]] + b[1..][..k - 1];
  }

  /** After a common first character the rest decides. */
  lemma LessAfterFirst(a: string, b: string)
    requires a != "" && b != "" && a[0] == b[0]
    ensures PathLess(a, b) <==> PathLess(a[1..], b[1..])
  {
    if k: nat :| k <= |a| && k < |b| && a[..k] == b[..k] && (k == |a| || a[k] < b[k]) {
      LessBehind(a, b, k);
      assert k - 1 <= |a[1..]| && k - 1 < |b[1..]| && (k - 1 == |a[1..]| || a[1..][k - 1] < b[1..][k - 1]);
    }
    if k: nat :| && k <= |a[1..]| && k < |b[1..]| && a[1..][..k] == b[1..][..k]
                 && (k == |a[1..]| || a[1..][k] < b[1..][k]) {
      LessBehind(a, b, k + 1);
      assert k + 1 == |a| || a[k + 1] < b[k + 1];
    }
  }

  lemma LessByFirst(a: string, b: string)
    requires a != "" && b != "" && a[0] != b[0]
    ensures PathLess(a, b) <==> a[0] < b[0]
  {
    assert a[..0] == b[..0];
    forall k: nat | 0 < k <= |a| && k < |b|
      ensures a[..k] != b[..k]
    {
      assert a[..k][0] == a[0];
      assert b[..k][0] == b[0];
    }
  }

  lemma {:induction false} PathLessIs(a: string, b: string)
    ensures PathLess(a, b) <==> PathLe(a, b) && a != b
    decreases |a|
  {
    if a == "" {
      assert b != "" ==> a[..0] == b[..0];
    } else if b != "" && a[0] == b[0] {
      PathLessIs(a[1..], b[1..]);
      LessAfterFirst(a, b);
      assert a == [a[0]] + a[1..] && b == [b[0]] + b[1..];
    } else if b != "" {
      LessByFirst(a, b);
    }
  }

  lemma PrecedesIs(a: Location, b: Location)
    ensures LocationLt(a, b) <==> Precedes(a, b)
  {
    PathLessIs(a.path, b.path);
  }

  /** The row names this location. */
  ghost predicate Says(paths: seq<string>, row: Row, location: Location) {
    && location.path == (if row.source < |paths| then paths[row.source] else "<invalid-dwarf-path>")
    && location.line == row.line && location.column == row.column
  }

  ghost predicate Inside(rows: seq<Row>, range: Range, r: nat) {
    r < |rows| && range.start <= rows[r].address < range.end
  }

  /** The rows of the range that stand before row `r`. */
  ghost function Before(rows: seq<Row>, range: Range, r: nat): set<nat> {
    set q: nat | q < r && Inside(rows, range, q)
  }

  lemma {:induction false} InRangeCounts(rows: seq<Row>, range: Range, k: nat)
    requires k <= |rows|
    ensures |InRange(rows, range, k)| == |Before(rows, range, k)|
  {
    if k == 0 {
      assert Before(rows, range, 0) == {};
    } else {
      InRangeCounts(rows, range, k - 1);
      assert Before(rows, range, k)
          == if Inside(rows, range, k - 1) then Before(rows, range, k - 1) + {k - 1} else Before(rows, range, k - 1);
    }
  }

  /** A range's row stands behind as many rows as come before it in the range. */
  lemma {:induction false} InRangeAt(rows: seq<Row>, range: Range, k: nat, m: nat) returns (r: nat)
    requires k <= |rows| && m < |InRange(rows, range, k)|
    ensures r < k && Inside(rows, range, r) && |Before(rows, range, r)| == m
    ensures InRange(rows, range, k)[m] == rows[r]
  {
    if m < |InRange(rows, range, k - 1)| {
      r := InRangeAt(rows, range, k - 1, m);
    } else {
      r := k - 1;
      InRangeCounts(rows, range, r);
    }
  }

  lemma RangeRowIsThere(rows: seq<Row>, range: Range, r: nat)
    requires Inside(rows, range, r)
    ensures var found := InRange(rows, range, |rows|);
            |Before(rows, range, r)| < |found| && found[|Before(rows, range, r)|] == rows[r]
  {
    InRangeCounts(rows, range, r);
    InRangeGrows(rows, range, r + 1, |rows|);
  }

  /** Row `r` is among the first `limit` rows of the range, and names the location. */
  ghost predicate EarlyRowSays(rows: seq<Row>, paths: seq<string>, range: Range, limit: nat, r: nat,
                               location: Location) {
    Inside(rows, range, r) && |Before(rows, range, r)| < limit && Says(paths, rows[r], location)
  }

  lemma TakenSays(rows: seq<Row>, paths: seq<string>, range: Range, limit: nat, location: Location) returns (r: nat)
    requires Names(paths, Take(Found(rows, range), limit), location)
    ensures EarlyRowSays(rows, paths, range, limit, r, location)
  {
    var taken := Take(Found(rows, range), limit);
    var row :| row in taken && LocationOf(paths, row) == location;
    var m :| 0 <= m < |taken| && taken[m] == row;
    r := InRangeAt(rows, range, |rows|, m);
  }

  lemma EarlySaysIsTaken(rows: seq<Row>, paths: seq<string>, range: Range, limit: nat, r: nat, location: Location)
    requires EarlyRowSays(rows, paths, range, limit, r, location)
    ensures Names(paths, Take(Found(rows, range), limit), location)
  {
    RangeRowIsThere(rows, range, r);
    var taken := Take(Found(rows, range), limit);
    assert taken[|Before(rows, range, r)|] == rows[r];
    assert rows[r] in taken && LocationOf(paths, rows[r]) == location;
  }

  /** A symbol considers what the first rows of its range name, up to the limit. */
  lemma ConsideredExactly(rows: seq<Row>, paths: seq<string>, range: Range, budget: Budget, location: Location)
    requires Interned(paths, rows)
    ensures location in Considered(rows, paths, range, budget)
        <==> exists r: nat :: EarlyRowSays(rows, paths, range, budget.symbolCandidates, r, location)
  {
    var limit := budget.symbolCandidates;
    FoundInterned(rows, paths, range, limit);
    CandidatesAreTheLocations(paths, Take(Found(rows, range), limit), location);
    if Names(paths, Take(Found(rows, range), limit), location) {
      var r := TakenSays(rows, paths, range, limit, location);
    }
    if r: nat :| EarlyRowSays(rows, paths, range, limit, r, location) {
      EarlySaysIsTaken(rows, paths, range, limit, r, location);
    }
  }

  /** What a stack holds is in strict order of path, line and column. */
  lemma StackIsOrdered(rows: seq<Row>, paths: seq<string>, ranges: seq<Range>, budget: Budget, i: nat, m: nat, n: nat)
    requires Interned(paths, rows) && i < |ranges|
    requires m < n < |RunOf(rows, paths, ranges, budget).stacks[i]|
    ensures var stack := RunOf(rows, paths, ranges, budget).stacks[i]; Precedes(stack[m], stack[n])
  {
    var stack := RunOf(rows, paths, ranges, budget).stacks[i];
    StacksAreComplete(rows, paths, ranges, budget, i, stack[m]);
    PrecedesIs(stack[m], stack[n]);
  }

  lemma OneByteMore(locations: seq<Location>, bytes: nat, n: nat)
    requires n < |locations| && n == PrefixWithin(Lengths(locations), bytes)
    ensures SourceBytes(locations[..n + 1]) > bytes
  {
    PrefixWithinIsLongest(Lengths(locations), bytes, n + 1);
    assert Lengths(locations[..n + 1]) == Lengths(locations)[..n + 1];
  }

  /** What the byte budget has left after some stacks. */
  function BytesLeft(budget: Budget, stacks: seq<seq<Location>>): nat {
    if TotalBytes(stacks) <= budget.inlineSourceBytes then budget.inlineSourceBytes - TotalBytes(stacks) else 0
  }

  lemma {:induction false} BytesLeftAre(offers: seq<Offer>, budget: Budget, k: nat)
    requires k <= |offers|
    ensures After(offers, budget, k).bytes == BytesLeft(budget, After(offers, budget, k).stacks)
  {
    if k == 0 {
    } else {
      BytesLeftAre(offers, budget, k - 1);
      var run := After(offers, budget, k - 1);
      AppendedStack(run.stacks, Attach(offers[k - 1], budget, run).stacks[k - 1]);
      assert SourceBytes([]) == 0;
    }
  }

  /** The paths of some locations fit in so many bytes; in 2^64 - 1, where the count saturates, any do. */
  ghost predicate BytesSuffice(locations: seq<Location>, left: nat) {
    left >= 0xffff_ffff_ffff_ffff || SourceBytes(locations) <= left
  }

  /**
  A stack is the longest beginning of what its symbol considers that every bound
  allows: it holds everything, or as many frames as a symbol may, or the last frame
  of all, or the next path is more than the bytes left.
  */
  lemma StackIsLongest(offers: seq<Offer>, budget: Budget, i: nat)
    requires i < |offers|
    ensures var (stacks, locations) := (After(offers, budget, |offers|).stacks, offers[i].locations);
            var (n, left) := (|stacks[i]|, BytesLeft(budget, stacks[..i]));
            && n <= |locations| && stacks[i] == locations[..n]
            && n <= budget.symbolInlineFrames
            && TotalFrames(stacks[..i]) + n <= budget.inlineFrames
            && BytesSuffice(stacks[i], left)
            && (|| n == |locations|
                || n == budget.symbolInlineFrames
                || TotalFrames(stacks[..i]) + n == budget.inlineFrames
                || !BytesSuffice(locations[..n + 1], left))
  {
    LeftBefore(offers, budget, i);
    StackAt(offers, budget, i);
    StepIsLongest(offers[i], budget, After(offers, budget, i));
  }

  /** What a range finds left is what the stacks before it leave. */
  lemma LeftBefore(offers: seq<Offer>, budget: Budget, i: nat)
    requires i < |offers|
    ensures var (run, stacks) := (After(offers, budget, i), After(offers, budget, |offers|).stacks);
            && run.stacks == stacks[..i]
            && run.frames + TotalFrames(stacks[..i]) == budget.inlineFrames
            && run.bytes == BytesLeft(budget, stacks[..i])
  {
    StacksStay(offers, budget, i, |offers|);
    BoundsHold(offers, budget, i);
    BytesLeftAre(offers, budget, i);
    assert After(offers, budget, |offers|).stacks[..i] == After(offers, budget, i).stacks;
  }

  /** One range's stack is the longest beginning that what is left allows. */
  lemma StepIsLongest(offer: Offer, budget: Budget, run: Run)
    ensures var stack := Attach(offer, budget, run).stacks[|run.stacks|];
            var n := |stack|;
            && n <= |offer.locations| && stack == offer.locations[..n]
            && n <= budget.symbolInlineFrames && n <= run.frames && BytesSuffice(stack, run.bytes)
            && (|| n == |offer.locations| || n == budget.symbolInlineFrames || n == run.frames
                || !BytesSuffice(offer.locations[..n + 1], run.bytes))
  {
    if run.frames == 0 {
      assert SourceBytes([]) == 0;
    } else if run.bytes < U64_MAX {
      AllowedFits(offer.locations, budget, run.frames, run.bytes);
      var n := Allowed(offer.locations, budget, run.frames, run.bytes);
      if n < |offer.locations| && n == PrefixWithin(Lengths(offer.locations), run.bytes) {
        OneByteMore(offer.locations, run.bytes, n);
      }
    }
  }

  /** Range `i` makes the run report: surplus rows, a stack that is cut, or no frame left for it. */
  ghost predicate Reports(offers: seq<Offer>, budget: Budget, stacks: seq<seq<Location>>, i: nat)
    requires i < |offers| == |stacks|
  {
    || offers[i].rows > budget.symbolCandidates
    || |stacks[i]| < |offers[i].locations|
    || TotalFrames(stacks[..i]) == budget.inlineFrames
  }

  lemma StepReports(offers: seq<Offer>, budget: Budget, i: nat)
    requires i < |offers|
    ensures var (run, next) := (After(offers, budget, i), After(offers, budget, i + 1));
            next.truncated <==> run.truncated || Reports(offers, budget, After(offers, budget, |offers|).stacks, i)
  {
    StackAt(offers, budget, i);
    StacksStay(offers, budget, i, |offers|);
    assert After(offers, budget, |offers|).stacks[..i] == After(offers, budget, i).stacks;
    BoundsHold(offers, budget, i);
  }

  lemma {:induction false} TruncatedTo(offers: seq<Offer>, budget: Budget, k: nat)
    requires k <= |offers|
    ensures After(offers, budget, k).truncated
        <==> exists i :: 0 <= i < k && Reports(offers, budget, After(offers, budget, |offers|).stacks, i)
  {
    if k == 0 {
    } else {
      TruncatedTo(offers, budget, k - 1);
      StepReports(offers, budget, k - 1);
    }
  }

  /** A truncation is reported exactly when some range makes the run report. */
  lemma TruncatedExactly(offers: seq<Offer>, budget: Budget)
    ensures var run := After(offers, budget, |offers|);
            run.truncated <==> exists i :: 0 <= i < |offers| && Reports(offers, budget, run.stacks, i)
  {
    TruncatedTo(offers, budget, |offers|);
  }

  /** How many rows a range offers. */
  lemma OfferedRowsAre(rows: seq<Row>, paths: seq<string>, range: Range, budget: Budget)
    ensures OfferOf(rows, paths, range, budget).rows == |Before(rows, range, |rows|)|
  {
    InRangeCounts(rows, range, |rows|);
  }

  /** The code point an encoding of one to four bytes stands for (section 3 of RFC 3629). */
  function Decoded(bytes: seq<nat>): (code: nat)
    requires 1 <= |bytes| <= 4
  {
    if |bytes| == 1 then bytes[0]
    else if |bytes| == 2 then bytes[0] % 0x20 * 0x40 + bytes[1] % 0x40
    else if |bytes| == 3 then bytes[0] % 0x10 * 0x1000 + bytes[1] % 0x40 * 0x40 + bytes[2] % 0x40
    else bytes[0] % 0x08 * 0x4_0000 + bytes[1] % 0x40 * 0x1000 + bytes[2] % 0x40 * 0x40 + bytes[3] % 0x40
  }

  /** As many bytes as the first one announces, and the others continuing it. */
  ghost predicate IsUtf8(bytes: seq<nat>) {
    && 1 <= |bytes| <= 4
    && (|bytes| == 1 ==> bytes[0] < 0x80)
    && (|bytes| == 2 ==> 0xc0 <= bytes[0] < 0xe0)
    && (|bytes| == 3 ==> 0xe0 <= bytes[0] < 0xf0)
    && (|bytes| == 4 ==> 0xf0 <= bytes[0] < 0xf8)
    && forall i :: 1 <= i < |bytes| ==> 0x80 <= bytes[i] < 0xc0
  }

  /** The encoding of a code point with no more bytes than it needs. */
  function Encoded(code: nat): (bytes: seq<nat>) {
    var (high, higher) := (code / 0x40, code / 0x40 / 0x40);
    if code < 0x80 then [code]
    else if code < 0x800 then [0xc0 + high, 0x80 + code % 0x40]
    else if code < 0x1_0000 then [0xe0 + higher, 0x80 + high % 0x40, 0x80 + code % 0x40]
    else [0xf0 + higher / 0x40, 0x80 + higher % 0x40, 0x80 + high % 0x40, 0x80 + code % 0x40]
  }

  function Utf8(c: char): (bytes: seq<nat>) {
    Encoded(c as nat)
  }

  lemma TwoBytes(high: nat, low: nat)
    requires high < 0x20 && low < 0x40
    ensures var bytes := [0xc0 + high, 0x80 + low]; IsUtf8(bytes) && Decoded(bytes) == high * 0x40 + low
  {
  }

  lemma ThreeBytes(higher: nat, high: nat, low: nat)
    requires higher < 0x10 && high < 0x40 && low < 0x40
    ensures var bytes := [0xe0 + higher, 0x80 + high, 0x80 + low];
            IsUtf8(bytes) && Decoded(bytes) == higher * 0x1000 + high * 0x40 + low
  {
  }

  lemma FourBytes(top: nat, higher: nat, high: nat, low: nat)
    requires top < 0x08 && higher < 0x40 && high < 0x40 && low < 0x40
    ensures var bytes := [0xf0 + top, 0x80 + higher, 0x80 + high, 0x80 + low];
            IsUtf8(bytes) && Decoded(bytes) == top * 0x4_0000 + higher * 0x1000 + high * 0x40 + low
  {
  }

  lemma ShortReads(code: nat)
    requires code < 0x800
    ensures IsUtf8(Encoded(code)) && Decoded(Encoded(code)) == code
  {
    if 0x80 <= code {
      TwoBytes(code / 0x40, code % 0x40);
    }
  }

  lemma ThreeRead(code: nat)
    requires 0x800 <= code < 0x1_0000
    ensures IsUtf8(Encoded(code)) && Decoded(Encoded(code)) == code
  {
    var high := code / 0x40;
    ThreeBytes(high / 0x40, high % 0x40, code % 0x40);
  }

  lemma FourRead(code: nat)
    requires 0x1_0000 <= code < 0x11_0000
    ensures IsUtf8(Encoded(code)) && Decoded(Encoded(code)) == code
  {
    var (high, higher) := (code / 0x40, code / 0x40 / 0x40);
    FourBytes(higher / 0x40, higher % 0x40, high % 0x40, code % 0x40);
  }

  lemma Utf8Reads(c: char)
    ensures |Utf8(c)| == Utf8Width(c) && IsUtf8(Utf8(c)) && Decoded(Utf8(c)) == c as int
  {
    var code := c as nat;
    if code < 0x800 {
      ShortReads(code);
    } else if code < 0x1_0000 {
      ThreeRead(code);
    } else {
      FourRead(code);
    }
  }

  lemma DecodedBound(bytes: seq<nat>)
    requires IsUtf8(bytes)
    ensures |bytes| == 1 ==> Decoded(bytes) < 0x80
    ensures |bytes| == 2 ==> Decoded(bytes) < 0x800
    ensures |bytes| == 3 ==> Decoded(bytes) < 0x1_0000
  {
  }

  /** A character is counted with the bytes of its shortest encoding. */
  lemma Utf8WidthIsShortest(c: char, bytes: seq<nat>)
    ensures |Utf8(c)| == Utf8Width(c) && IsUtf8(Utf8(c)) && Decoded(Utf8(c)) == c as int
    ensures IsUtf8(bytes) && Decoded(bytes) == c as int ==> Utf8Width(c) <= |bytes|
  {
    Utf8Reads(c);
    if IsUtf8(bytes) {
      DecodedBound(bytes);
    }
  }

  function Utf8All(path: string): seq<nat> {
    if path == "" then [] else Utf8(path[0]) + Utf8All(path[1..])
  }

  /** A path is counted with the bytes of its encoding. */
  lemma {:induction false} Utf8LengthIs(path: string)
    ensures Utf8Length(path) == |Utf8All(path)|
  {
    if path == "" {
    } else {
      Utf8WidthIsShortest(path[0], [0]);
      Utf8LengthIs(path[1..]);
    }
  }
}
