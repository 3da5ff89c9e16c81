/**
Branches and relocations of one x86 text section. A relocation is evidence that a
function can run: either a branch uses it and the branch is recorded, or what it
points at becomes a root. This file says what each instruction yields, and when no
relocation's evidence is lost.
*/
module Branches {
  import opened Bytes
  import opened Fingerprints
  import opened Sequences
  import opened SymbolIndexes
  import opened Wrappers

  datatype RelocationKind = Relative | PltRelative | Absolute | Other

  datatype ResolvedTarget = Function(position: nat) | UncoveredText(section: nat) | NotCode | Undefined

  datatype Relocation = Relocation(offset: nat, kind: RelocationKind, target: ResolvedTarget)

  datatype Flow = Call | Jump | FallThrough

  datatype Operand = Near(destination: nat) | Memory(indexed: bool) | OtherOperand

  /** A decoded instruction; `addresses` are the image addresses it computes from its operands. */
  datatype Instruction = Instruction(ip: nat, length: nat, invalid: bool, flow: Flow, operand: Operand,
                                     addresses: seq<nat>)
  {
    /** What an x86 decoder can return. */
    predicate Decodable() {
      ip <= U64_MAX && 1 <= length <= 15
    }

    predicate NearBranch() {
      !invalid && !flow.FallThrough? && operand.Near?
    }
  }

  /** One text section: where it lies, its relocations by offset, and the symbol lookups into it. */
  datatype Section = Section(address: nat, length: nat, fileOffset: nat, relocations: seq<Relocation>,
                             starts: map<nat, nat>, spans: seq<Span>,
                             images: map<nat, nat>, owners: map<nat, set<nat>>)
  {
    /** Where the section's bytes end in memory. */
    function End(): nat {
      Boundaries.SaturatingAdd(address, length)
    }

    ghost predicate Valid() {
      address <= U64_MAX && Disjoint(spans) && ByOffset(relocations)
    }
  }

  /** One function of the section: its bytes, and what they decode to. */
  datatype Caller = Caller(position: nat, offset: nat, codeLength: nat, instructions: seq<Instruction>)

  /** One instruction beside the function holding it and that function's address range. */
  datatype Step = Step(position: nat, start: nat, end: nat, instruction: Instruction)

  predicate OfBranch(kind: RelocationKind) {
    kind.Relative? || kind.PltRelative?
  }

  ghost predicate ByOffset(relocations: seq<Relocation>) {
    forall i, j :: 0 <= i < j < |relocations| ==> relocations[i].offset <= relocations[j].offset
  }

  /** The first branch relocation at `offset`, looking at every relocation in turn. */
  function Linear(relocations: seq<Relocation>, offset: nat, from: nat): (found: Option<nat>)
    requires from <= |relocations|
    ensures found.Some? ==>
              && from <= found.value < |relocations|
              && relocations[found.value].offset == offset && OfBranch(relocations[found.value].kind)
    ensures forall i ::
              from <= i < |relocations| && relocations[i].offset == offset && OfBranch(relocations[i].kind) ==>
                found.Some? && found.value <= i
    decreases |relocations| - from
  {
    if from == |relocations| then None
    else if relocations[from].offset == offset && OfBranch(relocations[from].kind) then Some(from)
    else Linear(relocations, offset, from + 1)
  }

  /** The first branch relocation of the run of relocations at `offset` that begins at `from`. */
  function InRun(relocations: seq<Relocation>, offset: nat, from: nat): Option<nat>
    requires from <= |relocations|
    decreases |relocations| - from
  {
    if from == |relocations| || relocations[from].offset != offset then None
    else if OfBranch(relocations[from].kind) then Some(from)
    else InRun(relocations, offset, from + 1)
  }

  /** `branch_relocation`, naming the relocation by its place in the section's list. */
  function BranchRelocation(relocations: seq<Relocation>, offset: nat): (found: Option<nat>)
    requires ByOffset(relocations)
    ensures found == Linear(relocations, offset, 0)
  {
    var first := PartitionPoint(relocations, (relocation: Relocation) => relocation.offset < offset, 0, |relocations|);
    RunIsLinear(relocations, offset, first);
    SkipIsLinear(relocations, offset, 0, first);
    InRun(relocations, offset, first)
  }

  lemma {:induction false} RunIsLinear(relocations: seq<Relocation>, offset: nat, from: nat)
    requires from <= |relocations| && ByOffset(relocations)
    requires forall i :: from <= i < |relocations| ==> relocations[i].offset >= offset
    ensures InRun(relocations, offset, from) == Linear(relocations, offset, from)
    decreases |relocations| - from
  {
    if from < |relocations| && relocations[from].offset == offset {
      RunIsLinear(relocations, offset, from + 1);
    }
  }

  lemma {:induction false} SkipIsLinear(relocations: seq<Relocation>, offset: nat, from: nat, first: nat)
    requires from <= first <= |relocations|
    requires forall i :: from <= i < first ==> relocations[i].offset < offset
    ensures Linear(relocations, offset, from) == Linear(relocations, offset, first)
    decreases first - from
  {
    if from == first {
    } else {
      SkipIsLinear(relocations, offset, from + 1, first);
    }
  }

  /** `rel32_displacement`: the section offset of a near branch's last four bytes. */
  function Displacement(instruction: Instruction, sectionAddress: nat): Option<nat> {
    if instruction.length < 5 || instruction.ip < sectionAddress
       || instruction.ip - sectionAddress + instruction.length > U64_MAX then None
    else Some(instruction.ip - sectionAddress + instruction.length - 4)
  }

  /** The relocation a branch uses, if any. */
  function Uses(section: Section, instruction: Instruction): (used: Option<nat>)
    requires section.Valid()
  {
    var offset := Displacement(instruction, section.address);
    if !instruction.NearBranch() || offset.None? then None
    else BranchRelocation(section.relocations, offset.value)
  }

  /** A near branch whose last four bytes begin at section offset `offset`. */
  predicate FieldAt(section: Section, instruction: Instruction, offset: nat) {
    instruction.NearBranch() && Displacement(instruction, section.address) == Some(offset)
  }

  /** What a branch through a relocation reaches, or why it reaches nothing known. */
  function Edge(target: ResolvedTarget): (Option<nat>, Option<UnresolvedCall>) {
    match target
    case Function(position) => (Some(position), None)
    case Undefined => (None, Some(ExternalImport))
    case UncoveredText(_) => (None, Some(MissingRelocation))
    case NotCode => (None, Some(MissingRelocation))
  }

  /** What a branch to `destination` without a relocation reaches. */
  function Direct(section: Section, isJump: bool, start: nat, end: nat, destination: nat):
      (Option<nat>, Option<UnresolvedCall>)
    requires section.Valid()
  {
    var atStart := Lookup(section.starts, destination);
    var target := if atStart.None? && isJump then HolderOf(section.spans, destination) else atStart;
    if isJump && start <= destination < end then (None, None)
    else (target, if target.None? then Some(MissingRelocation) else None)
  }

  /** The edge or reason one instruction yields; neither for one that leaves nothing to record. */
  function Outcome(section: Section, step: Step): (Option<nat>, Option<UnresolvedCall>)
    requires section.Valid()
  {
    var instruction := step.instruction;
    var used := Uses(section, instruction);
    if instruction.invalid || instruction.flow.FallThrough? then (None, None)
    else if used.Some? then Edge(section.relocations[used.value].target)
    else if instruction.operand.Near? then
      Direct(section, instruction.flow.Jump?, step.start, step.end, instruction.operand.destination)
    else if instruction.flow.Jump? && instruction.operand == Memory(true) then (None, None)
    else (None, Some(NativeIndirect))
  }

  /** The call one instruction records. */
  function Recorded(section: Section, step: Step): seq<PositionalCall>
    requires section.Valid()
  {
    var (target, unresolved) := Outcome(section, step);
    if target.None? && unresolved.None? then [] else [PositionalCall(step.position, target, unresolved)]
  }

  /** A jump that stays in its function, or goes through a scaled table of it. */
  predicate StaysInside(section: Section, step: Step)
    requires section.Valid()
  {
    var instruction := step.instruction;
    && instruction.flow.Jump? && Uses(section, instruction).None?
    && match instruction.operand
       case Near(destination) => step.start <= destination < step.end
       case Memory(indexed) => indexed
       case OtherOperand => false
  }

  /** Every other call or jump leaves one call of its function: with a target, or with the reason for lacking one. */
  lemma EveryTransferIsRecorded(section: Section, step: Step)
    requires section.Valid() && !step.instruction.invalid && !step.instruction.flow.FallThrough?
    ensures var calls := Recorded(section, step);
            if StaysInside(section, step) then calls == []
            else
              && |calls| == 1 && calls[0].caller == step.position
              && (calls[0].target.Some? <==> calls[0].unresolved.None?)
  {
  }

  /** The offset one instruction consumes. */
  function Consumes(section: Section, step: Step): set<nat>
    requires section.Valid()
  {
    var used := Uses(section, step.instruction);
    if used.Some? then {section.relocations[used.value].offset} else {}
  }

  /** Positions found at the image addresses an instruction computes; a branch computes none. */
  function Computes(section: Section, step: Step): set<nat> {
    if step.instruction.invalid || !step.instruction.flow.FallThrough? then {}
    else set address | address in step.instruction.addresses && address in section.images :: section.images[address]
  }

  /** What a scan has gathered: calls, consumed relocation offsets, and functions whose address is taken. */
  datatype Trace = Trace(calls: seq<PositionalCall>, consumed: set<nat>, taken: set<nat>)

  function Next(section: Section, trace: Trace, step: Step): Trace
    requires section.Valid()
  {
    Trace(trace.calls + Recorded(section, step),
          trace.consumed + Consumes(section, step),
          trace.taken + Computes(section, step))
  }

  function Scan(section: Section, trace: Trace, steps: seq<Step>): Trace
    requires section.Valid()
  {
    if steps == [] then trace
    else Next(section, Scan(section, trace, steps[..|steps| - 1]), steps[|steps| - 1])
  }

  /** `note_relocation_target`: the functions a relocation roots. */
  function Roots(section: Section, target: ResolvedTarget): set<nat> {
    match target
    case Function(position) => {position}
    case UncoveredText(other) => if other in section.owners then section.owners[other] else {}
    case NotCode => {}
    case Undefined => {}
  }

  /** The roots of the first `k` relocations whose offset no branch consumed. */
  function RootedBy(section: Section, consumed: set<nat>, k: nat): set<nat>
    requires k <= |section.relocations|
  {
    if k == 0 then {}
    else
      RootedBy(section, consumed, k - 1)
      + if section.relocations[k - 1].offset in consumed then {}
        else Roots(section, section.relocations[k - 1].target)
  }

  /** Where a function's code starts in memory, if the source can tell. */
  function StartOf(section: Section, caller: Caller): Option<nat> {
    if caller.offset < section.fileOffset
       || section.address + (caller.offset - section.fileOffset) > U64_MAX then None
    else Some(section.address + (caller.offset - section.fileOffset))
  }

  function StepsOf(section: Section, caller: Caller): seq<Step> {
    var start := StartOf(section, caller);
    if start.None? then []
    else
      var end := Boundaries.SaturatingAdd(start.value, caller.codeLength);
      seq(|caller.instructions|,
          i requires 0 <= i < |caller.instructions| =>
            Step(caller.position, start.value, end, caller.instructions[i]))
  }

  /** Every instruction the section's functions are scanned for, in order. */
  function Steps(section: Section, callers: seq<Caller>): seq<Step> {
    if callers == [] then []
    else Steps(section, callers[..|callers| - 1]) + StepsOf(section, callers[|callers| - 1])
  }

  lemma ScanOneMore(section: Section, trace: Trace, steps: seq<Step>, step: Step)
    requires section.Valid()
    ensures Scan(section, trace, steps + [step]) == Next(section, Scan(section, trace, steps), step)
  {
    assert (steps + [step])[..|steps|] == steps;
  }

  lemma {:induction false} ScanConcatenated(section: Section, trace: Trace, a: seq<Step>, b: seq<Step>)
    requires section.Valid()
    ensures Scan(section, trace, a + b) == Scan(section, Scan(section, trace, a), b)
    decreases |b|
  {
    if b == [] {
      assert a + b == a;
    } else {
      var front, last := b[..|b| - 1], b[|b| - 1];
      ScanConcatenated(section, trace, a, front);
      ScanOneMore(section, trace, a + front, last);
      LastApart(a, b);
    }
  }

  lemma {:induction false} OneConsumes(section: Section, trace: Trace, steps: seq<Step>, offset: nat)
      returns (step: Step)
    requires section.Valid() && offset in Scan(section, trace, steps).consumed && offset !in trace.consumed
    ensures step in steps && FieldAt(section, step.instruction, offset)
    ensures Linear(section.relocations, offset, 0).Some?
  {
    var last := |steps| - 1;
    if offset in Consumes(section, steps[last]) {
      step := steps[last];
    } else {
      step := OneConsumes(section, trace, steps[..last], offset);
    }
  }

  lemma {:induction false} StepCounts(section: Section, trace: Trace, steps: seq<Step>, step: Step)
    requires section.Valid() && step in steps
    ensures Consumes(section, step) <= Scan(section, trace, steps).consumed
    ensures Recorded(section, step) != [] ==> Recorded(section, step)[0] in Scan(section, trace, steps).calls
  {
    var last := |steps| - 1;
    if step != steps[last] {
      StepCounts(section, trace, steps[..last], step);
    }
  }

  lemma {:induction false} RelocationCounts(section: Section, consumed: set<nat>, k: nat, n: nat)
    requires k < n <= |section.relocations| && section.relocations[k].offset !in consumed
    ensures Roots(section, section.relocations[k].target) <= RootedBy(section, consumed, n)
  {
    if k == n - 1 {
    } else {
      RelocationCounts(section, consumed, k, n - 1);
    }
  }

  lemma {:induction false} NothingRooted(section: Section, consumed: set<nat>, n: nat)
    requires n <= |section.relocations|
    requires forall k :: 0 <= k < n ==> section.relocations[k].offset in consumed
    ensures RootedBy(section, consumed, n) == {}
  {
    if n == 0 {
    } else {
      NothingRooted(section, consumed, n - 1);
    }
  }

  /** The scan of one section's functions, starting with nothing consumed. */
  function Scanned(section: Section, calls: seq<PositionalCall>, taken: set<nat>, callers: seq<Caller>): Trace
    requires section.Valid()
  {
    Scan(section, Trace(calls, {}, taken), Steps(section, callers))
  }

  /** The same with the relocations no branch consumed noted: what a section adds to the object's transfers. */
  function SectionTransfers(section: Section, calls: seq<PositionalCall>, taken: set<nat>, callers: seq<Caller>): Trace
    requires section.Valid()
  {
    var trace := Scanned(section, calls, taken, callers);
    trace.(taken := trace.taken + RootedBy(section, trace.consumed, |section.relocations|))
  }

  /** Some branch uses relocation `k`. */
  ghost predicate Used(section: Section, callers: seq<Caller>, k: nat)
    requires section.Valid()
  {
    exists step :: step in Steps(section, callers) && Uses(section, step.instruction) == Some(k)
  }

  /** Relocation `k` still counts: a branch uses it, or no branch consumed its offset. */
  ghost predicate Kept(section: Section, callers: seq<Caller>, k: nat)
    requires section.Valid() && k < |section.relocations|
  {
    Used(section, callers, k) || section.relocations[k].offset !in Scanned(section, [], {}, callers).consumed
  }

  lemma {:induction false} ConsumedAnyway(section: Section, a: Trace, b: Trace, steps: seq<Step>)
    requires section.Valid() && a.consumed == b.consumed
    ensures Scan(section, a, steps).consumed == Scan(section, b, steps).consumed
  {
    if steps == [] {
    } else {
      ConsumedAnyway(section, a, b, steps[..|steps| - 1]);
    }
  }

  /** A branch uses relocation `k`, and `calls` holds its function's call with the edge or reason `k` gives. */
  ghost predicate CallRecorded(section: Section, callers: seq<Caller>, calls: seq<PositionalCall>, k: nat)
    requires section.Valid() && k < |section.relocations|
  {
    exists step :: step in Steps(section, callers) && RecordsUse(section, calls, k, step)
  }

  ghost predicate RecordsUse(section: Section, calls: seq<PositionalCall>, k: nat, step: Step)
    requires section.Valid() && k < |section.relocations|
  {
    var (target, unresolved) := Edge(section.relocations[k].target);
    && Uses(section, step.instruction) == Some(k)
    && PositionalCall(step.position, target, unresolved) in calls
  }

  /** Relocation `k` left behind a call with its edge or reason, or its roots. */
  ghost predicate Evident(section: Section, callers: seq<Caller>, transfers: Trace, k: nat)
    requires section.Valid() && k < |section.relocations|
  {
    || CallRecorded(section, callers, transfers.calls, k)
    || Roots(section, section.relocations[k].target) <= transfers.taken
  }

  lemma UseIsRecorded(section: Section, step: Step, k: nat)
    requires section.Valid() && k < |section.relocations| && Uses(section, step.instruction) == Some(k)
    ensures var (target, unresolved) := Edge(section.relocations[k].target);
            Recorded(section, step) == [PositionalCall(step.position, target, unresolved)]
  {
  }

  /** What a relocation that counts leaves behind. */
  lemma KeptIsEvident(section: Section, calls: seq<PositionalCall>, taken: set<nat>, callers: seq<Caller>, k: nat)
    requires section.Valid() && k < |section.relocations| && Kept(section, callers, k)
    ensures Evident(section, callers, SectionTransfers(section, calls, taken, callers), k)
  {
    var steps, start := Steps(section, callers), Trace(calls, {}, taken);
    if Used(section, callers, k) {
      var step :| step in steps && Uses(section, step.instruction) == Some(k);
      UseIsRecorded(section, step, k);
      StepCounts(section, start, steps, step);
      assert RecordsUse(section, Scan(section, start, steps).calls, k, step);
    } else {
      ConsumedAnyway(section, start, Trace([], {}, {}), steps);
      RelocationCounts(section, Scan(section, start, steps).consumed, k, |section.relocations|);
    }
  }

  /** A branch in the section's bytes can end four bytes after section offset `offset`. */
  predicate Landable(section: Section, offset: nat) {
    1 <= offset && section.address + offset + 4 <= section.End()
  }

  /** Relocation `k` shares its offset with the relocation a branch there would use instead. */
  ghost predicate Shadowed(section: Section, k: nat)
    requires k < |section.relocations|
  {
    var first := Linear(section.relocations, section.relocations[k].offset, 0);
    first.Some? && first.value != k && Landable(section, section.relocations[k].offset)
  }

  /** Instructions one behind the other from `start` to `end`. */
  ghost predicate Tiles(instructions: seq<Instruction>, start: nat, end: nat) {
    if instructions == [] then start == end
    else instructions[0].ip == start && Tiles(instructions[1..], start + instructions[0].length, end)
  }

  /** Functions that start in memory hold what decoding bytes of the section can yield. */
  ghost predicate Decoded(section: Section, callers: seq<Caller>) {
    forall c :: 0 <= c < |callers| ==> Fills(section, callers[c])
  }

  ghost predicate Fills(section: Section, caller: Caller) {
    var start := StartOf(section, caller);
    start.Some? ==>
      && start.value + caller.codeLength <= section.End()
      && (forall i :: 0 <= i < |caller.instructions| ==> caller.instructions[i].Decodable())
      && Tiles(caller.instructions, start.value, start.value + caller.codeLength)
  }

  lemma {:induction false} TileWithin(instructions: seq<Instruction>, start: nat, end: nat, i: nat)
    requires Tiles(instructions, start, end) && i < |instructions|
    ensures start <= instructions[i].ip && instructions[i].ip + instructions[i].length <= end
  {
    TilesForward(instructions[1..], start + instructions[0].length, end);
    if i > 0 {
      TileWithin(instructions[1..], start + instructions[0].length, end, i - 1);
    }
  }

  lemma {:induction false} TilesForward(instructions: seq<Instruction>, start: nat, end: nat)
    requires Tiles(instructions, start, end)
    ensures start <= end
  {
    if instructions == [] {
    } else {
      TilesForward(instructions[1..], start + instructions[0].length, end);
    }
  }

  lemma {:induction false} StepsDecoded(section: Section, callers: seq<Caller>, step: Step)
    requires Decoded(section, callers) && step in Steps(section, callers)
    ensures step.instruction.Decodable() && step.instruction.ip + step.instruction.length <= section.End()
  {
    var last := |callers| - 1;
    if step in StepsOf(section, callers[last]) {
      assert Fills(section, callers[last]);
      var i :| 0 <= i < |callers[last].instructions| && callers[last].instructions[i] == step.instruction;
      TileWithin(callers[last].instructions, step.start, step.start + callers[last].codeLength, i);
    } else {
      StepsDecoded(section, callers[..last], step);
    }
  }

  /** Unless another relocation at its offset shadows it, a relocation counts whatever the code is. */
  lemma UnshadowedIsKept(section: Section, callers: seq<Caller>, k: nat)
    requires section.Valid() && k < |section.relocations| && Decoded(section, callers)
    requires !Shadowed(section, k)
    ensures Kept(section, callers, k)
  {
    var offset := section.relocations[k].offset;
    if offset in Scanned(section, [], {}, callers).consumed {
      var step := OneConsumes(section, Trace([], {}, {}), Steps(section, callers), offset);
      StepsDecoded(section, callers, step);
      assert Uses(section, step.instruction) == Some(k);
    }
  }

  /** A near call whose last four bytes start at `offset`. */
  function CallAt(section: Section, offset: nat): (call: Instruction)
    requires Landable(section, offset)
    ensures call.Decodable() && call.NearBranch()
    ensures Displacement(call, section.address) == Some(offset)
  {
    Instruction(section.address + offset - 1, 5, false, Call, Near(0), [])
  }

  /** A function whose code is that call and nothing else. */
  function OnlyCaller(section: Section, offset: nat): Caller
    requires Landable(section, offset)
  {
    var call := CallAt(section, offset);
    Caller(0, section.fileOffset + offset - 1, 5, [call])
  }

  lemma OnlyCallerFills(section: Section, offset: nat)
    requires Landable(section, offset)
    ensures Fills(section, OnlyCaller(section, offset))
    ensures var steps := StepsOf(section, OnlyCaller(section, offset));
            |steps| == 1 && steps[0].instruction == CallAt(section, offset) && steps[0].position == 0
  {
    var call := CallAt(section, offset);
    assert [call][1..] == [];
    assert Tiles([], call.ip + call.length, call.ip + call.length);
  }

  lemma StepsOfOne(section: Section, caller: Caller)
    ensures Steps(section, [caller]) == StepsOf(section, caller)
  {
    assert [caller][..0] == [];
    assert Steps(section, []) == [];
  }

  lemma ScanOne(section: Section, trace: Trace, steps: seq<Step>)
    requires section.Valid() && |steps| == 1
    ensures Scan(section, trace, steps) == Next(section, trace, steps[0])
  {
    assert steps[..0] == [];
  }

  lemma OnlyStep(section: Section, offset: nat, trace: Trace)
    requires section.Valid() && Landable(section, offset)
    ensures var steps := Steps(section, [OnlyCaller(section, offset)]);
            && |steps| == 1
            && steps[0].instruction == CallAt(section, offset) && steps[0].position == 0
            && Scan(section, trace, steps) == Next(section, trace, steps[0])
  {
    OnlyCallerFills(section, offset);
    StepsOfOne(section, OnlyCaller(section, offset));
    ScanOne(section, trace, StepsOf(section, OnlyCaller(section, offset)));
  }

  lemma ShadowedIsLost(section: Section, k: nat)
    requires section.Valid() && k < |section.relocations| && Shadowed(section, k)
    ensures !Kept(section, [OnlyCaller(section, section.relocations[k].offset)], k)
  {
    OnlyStep(section, section.relocations[k].offset, Trace([], {}, {}));
  }

  /** Every relocation counts, whatever code the section holds, exactly when none is shadowed. */
  lemma KeptExactly(section: Section)
    requires section.Valid()
    ensures (forall callers, k :: Decoded(section, callers) && 0 <= k < |section.relocations| ==>
               Kept(section, callers, k))
        <==> (forall k :: 0 <= k < |section.relocations| ==> !Shadowed(section, k))
  {
    if forall k :: 0 <= k < |section.relocations| ==> !Shadowed(section, k) {
      forall callers, k | Decoded(section, callers) && 0 <= k < |section.relocations|
        ensures Kept(section, callers, k)
      {
        UnshadowedIsKept(section, callers, k);
      }
    } else {
      var k :| 0 <= k < |section.relocations| && Shadowed(section, k);
      ShadowedIsLost(section, k);
      OnlyCallerFills(section, section.relocations[k].offset);
      assert Decoded(section, [OnlyCaller(section, section.relocations[k].offset)]);
    }
  }

  ghost predicate DistinctOffsets(relocations: seq<Relocation>) {
    forall i, j :: 0 <= i < j < |relocations| ==> relocations[i].offset != relocations[j].offset
  }

  /** With one relocation an offset, every relocation leaves an edge, a reason or roots behind. */
  lemma DistinctOffsetsKeepEvidence(section: Section, calls: seq<PositionalCall>, taken: set<nat>,
                                    callers: seq<Caller>, k: nat)
    requires section.Valid() && DistinctOffsets(section.relocations) && Decoded(section, callers)
    requires k < |section.relocations|
    ensures Evident(section, callers, SectionTransfers(section, calls, taken, callers), k)
  {
    UnshadowedIsKept(section, callers, k);
    KeptIsEvident(section, calls, taken, callers, k);
  }

  /** What a section of one call adds when the call uses relocation `k`. */
  lemma OneCallTransfers(section: Section, offset: nat, k: nat)
    requires section.Valid() && Landable(section, offset)
    requires k < |section.relocations| && Linear(section.relocations, offset, 0) == Some(k)
    ensures var (target, unresolved) := Edge(section.relocations[k].target);
            var rooted := RootedBy(section, {offset}, |section.relocations|);
            SectionTransfers(section, [], {}, [OnlyCaller(section, offset)])
            == Trace([PositionalCall(0, target, unresolved)], {offset}, rooted)
  {
    var start := Trace([], {}, {});
    OnlyStep(section, offset, start);
    var step := Steps(section, [OnlyCaller(section, offset)])[0];
    UseIsRecorded(section, step, k);
    assert Consumes(section, step) == {offset};
    assert Computes(section, step) == {};
    var (target, unresolved) := Edge(section.relocations[k].target);
    assert Next(section, start, step) == Trace([PositionalCall(0, target, unresolved)], {offset}, {});
  }

  /** Of two relocations at one offset, the branch relocation is recorded and the other leaves nothing. */
  lemma SecondOfTwo(section: Section, offset: nat)
    requires section.Valid() && Landable(section, offset) && |section.relocations| == 2
    requires section.relocations[0].offset == offset && !OfBranch(section.relocations[0].kind)
    requires section.relocations[1].offset == offset && OfBranch(section.relocations[1].kind)
    ensures var (target, unresolved) := Edge(section.relocations[1].target);
            SectionTransfers(section, [], {}, [OnlyCaller(section, offset)])
            == Trace([PositionalCall(0, target, unresolved)], {offset}, {})
  {
    assert Linear(section.relocations, offset, 1) == Some(1);
    OneCallTransfers(section, offset, 1);
    NothingRooted(section, {offset}, 2);
  }

  /** A section of one five-byte call, whose relocations both apply to the call's field. */
  ghost predicate TwoAtOne(section: Section) {
    && section.Valid() && section.address == section.fileOffset == 0 && section.length == 5
    && section.relocations == [Relocation(1, Absolute, Function(7)), Relocation(1, Relative, Function(3))]
  }

  const ONE_CALL := Caller(0, 0, 5, [Instruction(0, 5, false, Call, Near(0), [])])

  /** The call records function 3, and nothing says that function 7 can run. */
  lemma SharedOffsetLosesAFunction(section: Section)
    requires TwoAtOne(section)
    ensures Decoded(section, [ONE_CALL])
    ensures SectionTransfers(section, [], {}, [ONE_CALL]) == Trace([PositionalCall(0, Some(3), None)], {1}, {})
  {
    assert OnlyCaller(section, 1) == ONE_CALL;
    OnlyCallerFills(section, 1);
    SecondOfTwo(section, 1);
  }

  lemma SomeSectionIsSo() returns (section: Section)
    ensures TwoAtOne(section)
  {
    section := Section(0, 5, 0, [Relocation(1, Absolute, Function(7)), Relocation(1, Relative, Function(3))],
                       map[], [], map[], map[]);
  }
}
