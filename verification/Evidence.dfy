/** When exactly a relocation of a text section leaves evidence behind: for given code, and whatever the code is. */
module Evidence {
  import opened Branches
  import opened Fingerprints
  import opened Wrappers

  /** Some near branch ends four bytes after section offset `offset`. */
  ghost predicate EndsAt(section: Section, callers: seq<Caller>, offset: nat) {
    exists step :: step in Steps(section, callers) && FieldAt(section, step.instruction, offset)
  }

  /** The branch relocation that branches ending at relocation `k` use. */
  function FirstAtOffsetOf(section: Section, k: nat): Option<nat>
    requires k < |section.relocations|
  {
    Linear(section.relocations, section.relocations[k].offset, 0)
  }

  /** A branch ends at relocation `k` and uses another one there. */
  ghost predicate Overtaken(section: Section, callers: seq<Caller>, k: nat)
    requires k < |section.relocations|
  {
    && EndsAt(section, callers, section.relocations[k].offset)
    && FirstAtOffsetOf(section, k).Some? && FirstAtOffsetOf(section, k).value != k
  }

  /** No branch uses a relocation at the offset of relocation `j`. */
  ghost predicate Free(section: Section, callers: seq<Caller>, j: nat)
    requires j < |section.relocations|
  {
    EndsAt(section, callers, section.relocations[j].offset) ==> FirstAtOffsetOf(section, j).None?
  }

  /** Function `p` is rooted already, by an address an instruction computes, or by a relocation branches leave alone. */
  ghost predicate OtherwiseRooted(section: Section, callers: seq<Caller>, taken: set<nat>, p: nat) {
    || p in taken
    || (exists step :: step in Steps(section, callers) && p in Computes(section, step))
    || exists j :: 0 <= j < |section.relocations| && Free(section, callers, j)
                   && p in Roots(section, section.relocations[j].target)
  }

  /** An offset is consumed exactly when a branch ends there and has a relocation to use. */
  lemma ConsumedIs(section: Section, calls: seq<PositionalCall>, taken: set<nat>, callers: seq<Caller>, offset: nat)
    requires section.Valid()
    ensures offset in Scanned(section, calls, taken, callers).consumed
        <==> EndsAt(section, callers, offset) && Linear(section.relocations, offset, 0).Some?
  {
    var start, steps := Trace(calls, {}, taken), Steps(section, callers);
    if offset in Scan(section, start, steps).consumed {
      var step := OneConsumes(section, start, steps, offset);
    }
    if EndsAt(section, callers, offset) && Linear(section.relocations, offset, 0).Some? {
      var step :| step in steps && FieldAt(section, step.instruction, offset);
      StepCounts(section, start, steps, step);
    }
  }

  lemma {:induction false} RootedByIs(section: Section, consumed: set<nat>, n: nat, p: nat)
    requires n <= |section.relocations|
    ensures p in RootedBy(section, consumed, n)
        <==> exists j :: 0 <= j < n && section.relocations[j].offset !in consumed
                         && p in Roots(section, section.relocations[j].target)
  {
    if n == 0 {
    } else {
      RootedByIs(section, consumed, n - 1, p);
    }
  }

  lemma {:induction false} TakenIs(section: Section, trace: Trace, steps: seq<Step>, p: nat)
    requires section.Valid()
    ensures p in Scan(section, trace, steps).taken
        <==> p in trace.taken || exists step :: step in steps && p in Computes(section, step)
  {
    if steps == [] {
    } else {
      var front, last := steps[..|steps| - 1], steps[|steps| - 1];
      TakenIs(section, trace, front, p);
      assert steps == front + [last];
    }
  }

  /** Which functions a section roots. */
  lemma RootsOfTheSection(section: Section, calls: seq<PositionalCall>, taken: set<nat>, callers: seq<Caller>, p: nat)
    requires section.Valid()
    ensures p in SectionTransfers(section, calls, taken, callers).taken
        <==> OtherwiseRooted(section, callers, taken, p)
  {
    var consumed, n := Scanned(section, calls, taken, callers).consumed, |section.relocations|;
    TakenIs(section, Trace(calls, {}, taken), Steps(section, callers), p);
    RootedByIs(section, consumed, n, p);
    forall j | 0 <= j < n
      ensures section.relocations[j].offset !in consumed <==> Free(section, callers, j)
    {
      ConsumedIs(section, calls, taken, callers, section.relocations[j].offset);
    }
  }

  lemma OvertakenIsNotRecorded(section: Section, callers: seq<Caller>, calls: seq<PositionalCall>, k: nat)
    requires section.Valid() && k < |section.relocations| && Overtaken(section, callers, k)
    ensures !CallRecorded(section, callers, calls, k)
  {
  }

  lemma NotOvertakenIsKept(section: Section, callers: seq<Caller>, k: nat)
    requires section.Valid() && k < |section.relocations| && !Overtaken(section, callers, k)
    ensures Kept(section, callers, k)
  {
    var offset := section.relocations[k].offset;
    ConsumedIs(section, [], {}, callers, offset);
    if EndsAt(section, callers, offset) && FirstAtOffsetOf(section, k) == Some(k) {
      var step :| step in Steps(section, callers) && FieldAt(section, step.instruction, offset);
      assert Uses(section, step.instruction) == Some(k);
    }
  }

  /**
  For the code at hand: a relocation leaves a call or its roots exactly when no
  branch overtakes it, or each function it points at is rooted otherwise.
  */
  lemma EvidenceIsKeptExactly(section: Section, calls: seq<PositionalCall>, taken: set<nat>, callers: seq<Caller>,
                              k: nat)
    requires section.Valid() && k < |section.relocations|
    ensures Evident(section, callers, SectionTransfers(section, calls, taken, callers), k)
        <==> (Overtaken(section, callers, k) ==>
                forall p :: p in Roots(section, section.relocations[k].target) ==>
                  OtherwiseRooted(section, callers, taken, p))
  {
    var transfers := SectionTransfers(section, calls, taken, callers);
    if Overtaken(section, callers, k) {
      OvertakenIsNotRecorded(section, callers, transfers.calls, k);
      forall p | p in Roots(section, section.relocations[k].target)
        ensures p in transfers.taken <==> OtherwiseRooted(section, callers, taken, p)
      {
        RootsOfTheSection(section, calls, taken, callers, p);
      }
    } else {
      NotOvertakenIsKept(section, callers, k);
      KeptIsEvident(section, calls, taken, callers, k);
    }
  }

  /** Some code has a branch that uses a relocation at the offset of relocation `j`. */
  predicate Consumable(section: Section, j: nat)
    requires j < |section.relocations|
  {
    Landable(section, section.relocations[j].offset) && FirstAtOffsetOf(section, j).Some?
  }

  /** A relocation no code can consume roots function `p`. */
  ghost predicate SparedRoot(section: Section, p: nat) {
    exists j :: 0 <= j < |section.relocations| && !Consumable(section, j)
                && p in Roots(section, section.relocations[j].target)
  }

  /** A consumable relocation that roots function `p`. */
  predicate ConsumableRoot(section: Section, p: nat, j: nat)
    requires j < |section.relocations|
  {
    Consumable(section, j) && p in Roots(section, section.relocations[j].target)
  }

  /** Near branches end in five bytes that belong to them alone, so none end at two offsets that collide. */
  predicate Collide(o: nat, u: nat) {
    o < u < o + 5
  }

  /** Two consumable relocations that root function `p` are too near each other for a branch to end at each. */
  ghost predicate Crowded(section: Section, p: nat) {
    exists i, j :: 0 <= i < |section.relocations| && 0 <= j < |section.relocations|
                   && ConsumableRoot(section, p, i) && ConsumableRoot(section, p, j)
                   && Collide(section.relocations[i].offset, section.relocations[j].offset)
  }

  predicate InCode(section: Section, caller: Caller, address: nat) {
    var start := StartOf(section, caller);
    start.Some? && start.value <= address < start.value + caller.codeLength
  }

  /** Different functions, and no byte in the code of two of them. */
  ghost predicate Apart(section: Section, callers: seq<Caller>) {
    forall c, d :: 0 <= c < d < |callers| ==>
      callers[c].position != callers[d].position && ShareNothing(section, callers[c], callers[d])
  }

  ghost predicate ShareNothing(section: Section, a: Caller, b: Caller) {
    forall address: nat :: !(InCode(section, a, address) && InCode(section, b, address))
  }

  /** Code as the symbol index hands it out. */
  ghost predicate Laid(section: Section, callers: seq<Caller>) {
    Decoded(section, callers) && Apart(section, callers)
  }

  lemma {:induction false} TilesApart(instructions: seq<Instruction>, start: nat, end: nat, i: nat, j: nat)
    requires Tiles(instructions, start, end) && i < j < |instructions|
    ensures instructions[i].ip + instructions[i].length <= instructions[j].ip
  {
    var rest, next := instructions[1..], start + instructions[0].length;
    if i == 0 {
      TileWithin(rest, next, end, j - 1);
    } else {
      TilesApart(rest, next, end, i - 1, j - 1);
    }
  }

  /** The address lies in the bytes of an instruction. */
  predicate InInstruction(instruction: Instruction, address: nat) {
    instruction.ip <= address < instruction.ip + instruction.length
  }

  lemma OneTileHolds(instructions: seq<Instruction>, start: nat, end: nat, i: nat, j: nat, address: nat)
    requires Tiles(instructions, start, end) && i < |instructions| && j < |instructions|
    requires InInstruction(instructions[i], address) && InInstruction(instructions[j], address)
    ensures i == j
  {
    if i < j {
      TilesApart(instructions, start, end, i, j);
    } else if j < i {
      TilesApart(instructions, start, end, j, i);
    }
  }

  /** Instruction `i` of function `c` is scanned. */
  ghost predicate Holds(section: Section, callers: seq<Caller>, c: nat, i: nat) {
    c < |callers| && StartOf(section, callers[c]).Some? && i < |callers[c].instructions|
  }

  lemma {:induction false} StepIsHeld(section: Section, callers: seq<Caller>, step: Step) returns (c: nat, i: nat)
    requires step in Steps(section, callers)
    ensures Holds(section, callers, c, i) && callers[c].instructions[i] == step.instruction
  {
    var last := |callers| - 1;
    if step in StepsOf(section, callers[last]) {
      c := last;
      i :| 0 <= i < |StepsOf(section, callers[last])| && StepsOf(section, callers[last])[i] == step;
    } else {
      c, i := StepIsHeld(section, callers[..last], step);
    }
  }

  lemma HeldIsInCode(section: Section, callers: seq<Caller>, c: nat, i: nat, address: nat)
    requires Decoded(section, callers) && Holds(section, callers, c, i)
    requires InInstruction(callers[c].instructions[i], address)
    ensures InCode(section, callers[c], address)
  {
    assert Fills(section, callers[c]);
    var start := StartOf(section, callers[c]).value;
    TileWithin(callers[c].instructions, start, start + callers[c].codeLength, i);
  }

  lemma OneFunctionHolds(section: Section, callers: seq<Caller>, c: nat, d: nat, address: nat)
    requires Apart(section, callers) && c < |callers| && d < |callers|
    requires InCode(section, callers[c], address) && InCode(section, callers[d], address)
    ensures c == d
  {
    assert c < d ==> ShareNothing(section, callers[c], callers[d]);
    assert d < c ==> ShareNothing(section, callers[d], callers[c]);
  }

  lemma OneOfFunctionHolds(section: Section, caller: Caller, i: nat, j: nat, address: nat)
    requires Fills(section, caller) && StartOf(section, caller).Some?
    requires i < |caller.instructions| && j < |caller.instructions|
    requires InInstruction(caller.instructions[i], address) && InInstruction(caller.instructions[j], address)
    ensures i == j
  {
    var start := StartOf(section, caller).value;
    OneTileHolds(caller.instructions, start, start + caller.codeLength, i, j, address);
  }

  /** A byte of memory belongs to one instruction at most. */
  lemma OneInstructionHolds(section: Section, callers: seq<Caller>, a: Step, b: Step, address: nat)
    requires Laid(section, callers) && a in Steps(section, callers) && b in Steps(section, callers)
    requires InInstruction(a.instruction, address) && InInstruction(b.instruction, address)
    ensures a.instruction == b.instruction
  {
    var c, i := StepIsHeld(section, callers, a);
    var d, j := StepIsHeld(section, callers, b);
    HeldIsInCode(section, callers, c, i, address);
    HeldIsInCode(section, callers, d, j, address);
    OneFunctionHolds(section, callers, c, d, address);
    OneOfFunctionHolds(section, callers[c], i, j, address);
  }

  /** Branches do not end at two offsets that collide. */
  lemma CollidingEnds(section: Section, callers: seq<Caller>, o: nat, u: nat)
    requires Laid(section, callers) && Collide(o, u)
    ensures !EndsAt(section, callers, o) || !EndsAt(section, callers, u)
  {
    if EndsAt(section, callers, o) && EndsAt(section, callers, u) {
      var a :| a in Steps(section, callers) && FieldAt(section, a.instruction, o);
      var b :| b in Steps(section, callers) && FieldAt(section, b.instruction, u);
      StepsDecoded(section, callers, a);
      StepsDecoded(section, callers, b);
      OneInstructionHolds(section, callers, a, b, section.address + u - 1);
    }
  }

  lemma EndIsLandable(section: Section, callers: seq<Caller>, offset: nat)
    requires Decoded(section, callers) && EndsAt(section, callers, offset)
    ensures Landable(section, offset)
  {
    var step :| step in Steps(section, callers) && FieldAt(section, step.instruction, offset);
    StepsDecoded(section, callers, step);
  }

  /** Functions with a relocation no code can consume, or with two too near each other, are rooted anyway. */
  lemma SparedOrCrowdedIsRooted(section: Section, callers: seq<Caller>, p: nat)
    requires Laid(section, callers) && (SparedRoot(section, p) || Crowded(section, p))
    ensures OtherwiseRooted(section, callers, {}, p)
  {
    if SparedRoot(section, p) {
      var j :| 0 <= j < |section.relocations| && !Consumable(section, j)
               && p in Roots(section, section.relocations[j].target);
      if EndsAt(section, callers, section.relocations[j].offset) {
        EndIsLandable(section, callers, section.relocations[j].offset);
      }
      assert Free(section, callers, j);
    } else {
      var i, j :| 0 <= i < |section.relocations| && 0 <= j < |section.relocations|
                  && ConsumableRoot(section, p, i) && ConsumableRoot(section, p, j)
                  && Collide(section.relocations[i].offset, section.relocations[j].offset);
      CollidingEnds(section, callers, section.relocations[i].offset, section.relocations[j].offset);
      if EndsAt(section, callers, section.relocations[i].offset) {
        assert Free(section, callers, j);
      } else {
        assert Free(section, callers, i);
      }
    }
  }

  /** Relocation `j` is the first consumable root of `p` at its offset. */
  ghost predicate FirstRoot(section: Section, p: nat, j: nat)
    requires j < |section.relocations|
  {
    && ConsumableRoot(section, p, j)
    && forall i :: 0 <= i < j && ConsumableRoot(section, p, i) ==>
         section.relocations[i].offset != section.relocations[j].offset
  }

  /** A function at `position` of one call that ends at `offset`. */
  function CallerAt(section: Section, offset: nat, position: nat): Caller
    requires Landable(section, offset)
  {
    OnlyCaller(section, offset).(position := position)
  }

  /** One call for every offset of a consumable root of `p` among the first `n` relocations. */
  ghost function CallsOver(section: Section, p: nat, n: nat): seq<Caller>
    requires n <= |section.relocations|
  {
    if n == 0 then []
    else
      var before := CallsOver(section, p, n - 1);
      if FirstRoot(section, p, n - 1) then
        before + [CallerAt(section, section.relocations[n - 1].offset, |before|)]
      else before
  }

  lemma CallerAtFills(section: Section, offset: nat, position: nat)
    requires Landable(section, offset)
    ensures Fills(section, CallerAt(section, offset, position))
    ensures var steps := StepsOf(section, CallerAt(section, offset, position));
            |steps| == 1 && steps[0].instruction == CallAt(section, offset)
    ensures forall address: nat :: InCode(section, CallerAt(section, offset, position), address)
              ==> section.address + offset - 1 <= address < section.address + offset + 4
  {
    OnlyCallerFills(section, offset);
    assert Fills(section, OnlyCaller(section, offset));
  }

  /** Decodable code of calls alone. */
  ghost predicate OnlyCalls(section: Section, callers: seq<Caller>) {
    Decoded(section, callers) && forall step :: step in Steps(section, callers) ==> step.instruction.flow == Call
  }

  lemma StepsOfMore(section: Section, callers: seq<Caller>, caller: Caller)
    ensures Steps(section, callers + [caller]) == Steps(section, callers) + StepsOf(section, caller)
  {
    assert (callers + [caller])[..|callers|] == callers;
  }

  lemma EndsStay(section: Section, callers: seq<Caller>, caller: Caller, offset: nat)
    requires EndsAt(section, callers, offset)
    ensures EndsAt(section, callers + [caller], offset)
  {
    StepsOfMore(section, callers, caller);
    var step :| step in Steps(section, callers) && FieldAt(section, step.instruction, offset);
    assert step in Steps(section, callers + [caller]);
  }

  lemma OneCallMore(section: Section, callers: seq<Caller>, offset: nat, position: nat)
    requires Landable(section, offset) && OnlyCalls(section, callers)
    ensures OnlyCalls(section, callers + [CallerAt(section, offset, position)])
    ensures EndsAt(section, callers + [CallerAt(section, offset, position)], offset)
  {
    var caller := CallerAt(section, offset, position);
    CallerAtFills(section, offset, position);
    StepsOfMore(section, callers, caller);
    var step := StepsOf(section, caller)[0];
    assert step in Steps(section, callers + [caller]) && FieldAt(section, step.instruction, offset);
  }

  lemma {:induction false} CallsOverDecoded(section: Section, p: nat, n: nat)
    requires n <= |section.relocations|
    ensures OnlyCalls(section, CallsOver(section, p, n))
  {
    if n == 0 {
      assert Steps(section, []) == [];
    } else {
      CallsOverDecoded(section, p, n - 1);
      if FirstRoot(section, p, n - 1) {
        var before := CallsOver(section, p, n - 1);
        OneCallMore(section, before, section.relocations[n - 1].offset, |before|);
      }
    }
  }

  lemma {:induction false} FirstAmong(section: Section, p: nat, j: nat) returns (first: nat)
    requires j < |section.relocations| && ConsumableRoot(section, p, j)
    ensures first <= j && FirstRoot(section, p, first)
    ensures section.relocations[first].offset == section.relocations[j].offset
  {
    if FirstRoot(section, p, j) {
      first := j;
    } else {
      var i :| 0 <= i < j && ConsumableRoot(section, p, i)
               && section.relocations[i].offset == section.relocations[j].offset;
      first := FirstAmong(section, p, i);
    }
  }

  lemma {:induction false} FirstEnds(section: Section, p: nat, n: nat, j: nat)
    requires j < n <= |section.relocations| && FirstRoot(section, p, j)
    ensures EndsAt(section, CallsOver(section, p, n), section.relocations[j].offset)
  {
    var before := CallsOver(section, p, n - 1);
    if j == n - 1 {
      CallsOverDecoded(section, p, j);
      OneCallMore(section, before, section.relocations[j].offset, |before|);
    } else {
      FirstEnds(section, p, n - 1, j);
      if FirstRoot(section, p, n - 1) {
        var caller := CallerAt(section, section.relocations[n - 1].offset, |before|);
        EndsStay(section, before, caller, section.relocations[j].offset);
      }
    }
  }

  lemma CallsOverEnds(section: Section, p: nat, j: nat)
    requires j < |section.relocations| && ConsumableRoot(section, p, j)
    ensures EndsAt(section, CallsOver(section, p, |section.relocations|), section.relocations[j].offset)
  {
    var first := FirstAmong(section, p, j);
    FirstEnds(section, p, |section.relocations|, first);
  }

  lemma {:induction false} CallsOverAre(section: Section, p: nat, n: nat, c: nat) returns (j: nat)
    requires n <= |section.relocations| && c < |CallsOver(section, p, n)|
    ensures j < n && ConsumableRoot(section, p, j)
    ensures CallsOver(section, p, n)[c] == CallerAt(section, section.relocations[j].offset, c)
  {
    if n > 0 && c < |CallsOver(section, p, n - 1)| {
      j := CallsOverAre(section, p, n - 1, c);
    } else {
      j := n - 1;
    }
  }

  lemma CallersApart(section: Section, p: nat, i: nat, j: nat, c: nat, d: nat)
    requires i < |section.relocations| && j < |section.relocations|
    requires ConsumableRoot(section, p, i) && ConsumableRoot(section, p, j) && !Crowded(section, p)
    requires section.relocations[i].offset != section.relocations[j].offset
    ensures ShareNothing(section, CallerAt(section, section.relocations[i].offset, c),
                         CallerAt(section, section.relocations[j].offset, d))
  {
    var o, u := section.relocations[i].offset, section.relocations[j].offset;
    CallerAtFills(section, o, c);
    CallerAtFills(section, u, d);
    assert !Collide(o, u) && !Collide(u, o);
  }

  lemma {:induction false} CallsOverApart(section: Section, p: nat, n: nat)
    requires n <= |section.relocations| && !Crowded(section, p)
    ensures Apart(section, CallsOver(section, p, n))
  {
    if n > 0 {
      CallsOverApart(section, p, n - 1);
      var before := CallsOver(section, p, n - 1);
      if FirstRoot(section, p, n - 1) {
        forall c | 0 <= c < |before|
          ensures before[c].position == c
          ensures ShareNothing(section, before[c],
                               CallerAt(section, section.relocations[n - 1].offset, |before|))
        {
          var j := CallsOverAre(section, p, n - 1, c);
          CallersApart(section, p, j, n - 1, c, |before|);
        }
      }
    }
  }

  /** Otherwise some code loses the function. */
  lemma OvertakenIsLost(section: Section, k: nat, p: nat)
    requires section.Valid() && k < |section.relocations| && Shadowed(section, k)
    requires p in Roots(section, section.relocations[k].target)
    requires !SparedRoot(section, p) && !Crowded(section, p)
    ensures var callers := CallsOver(section, p, |section.relocations|);
            && Laid(section, callers)
            && !Evident(section, callers, SectionTransfers(section, [], {}, callers), k)
  {
    var n := |section.relocations|;
    var callers := CallsOver(section, p, n);
    CallsOverDecoded(section, p, n);
    CallsOverApart(section, p, n);
    CallsOverEnds(section, p, k);
    EvidenceIsKeptExactly(section, [], {}, callers, k);
    if j :| 0 <= j < n && Free(section, callers, j) && p in Roots(section, section.relocations[j].target) {
      assert Consumable(section, j);
      CallsOverEnds(section, p, j);
    }
  }

  /** Every function a shadowed relocation points at has a spared relocation, or crowded ones. */
  ghost predicate Secured(section: Section) {
    forall k :: 0 <= k < |section.relocations| && Shadowed(section, k) ==>
      forall p :: p in Roots(section, section.relocations[k].target) ==> SparedRoot(section, p) || Crowded(section, p)
  }

  lemma SecuredIsEvident(section: Section, callers: seq<Caller>, k: nat)
    requires section.Valid() && k < |section.relocations| && Laid(section, callers) && Secured(section)
    ensures Evident(section, callers, SectionTransfers(section, [], {}, callers), k)
  {
    EvidenceIsKeptExactly(section, [], {}, callers, k);
    if Overtaken(section, callers, k) {
      EndIsLandable(section, callers, section.relocations[k].offset);
      forall p | p in Roots(section, section.relocations[k].target)
        ensures OtherwiseRooted(section, callers, {}, p)
      {
        SparedOrCrowdedIsRooted(section, callers, p);
      }
    }
  }

  /**
  Whatever functions the section holds, as long as no two share a byte, every
  relocation leaves its evidence: exactly when each function a shadowed one points
  at has a relocation no code can consume, or two that no code consumes together.
  */
  lemma EvidenceSurvivesExactly(section: Section)
    requires section.Valid()
    ensures (forall callers, k :: Laid(section, callers) && 0 <= k < |section.relocations| ==>
               Evident(section, callers, SectionTransfers(section, [], {}, callers), k))
        <==> Secured(section)
  {
    if Secured(section) {
      forall callers, k | Laid(section, callers) && 0 <= k < |section.relocations|
        ensures Evident(section, callers, SectionTransfers(section, [], {}, callers), k)
      {
        SecuredIsEvident(section, callers, k);
      }
    } else {
      var k :| 0 <= k < |section.relocations| && Shadowed(section, k)
               && exists p :: p in Roots(section, section.relocations[k].target)
                              && !SparedRoot(section, p) && !Crowded(section, p);
      var p :| p in Roots(section, section.relocations[k].target) && !SparedRoot(section, p) && !Crowded(section, p);
      OvertakenIsLost(section, k, p);
    }
  }
}
