/**
What a text section adds to the object's calls and roots, in terms of its functions'
instructions, its relocations and the tables it is looked up in.
*/
module TransferLaws {
  import opened Branches
  import opened Evidence
  import opened Fingerprints
  import opened Transfers
  import opened Wrappers

  /** `step` is an instruction of one of the functions, scanned where that function lies in memory. */
  ghost predicate StepOf(section: Section, callers: seq<Caller>, step: Step) {
    exists c, i :: 0 <= c < |callers| && 0 <= i < |callers[c].instructions| && IsStep(section, callers[c], i, step)
  }

  ghost predicate IsStep(section: Section, caller: Caller, i: nat, step: Step)
    requires i < |caller.instructions|
  {
    && section.fileOffset <= caller.offset
    && step.start == section.address + (caller.offset - section.fileOffset) <= 0xffff_ffff_ffff_ffff
    && step.end == Min(step.start + caller.codeLength, 0xffff_ffff_ffff_ffff)
    && step.position == caller.position && step.instruction == caller.instructions[i]
  }

  lemma CallerStepsAre(section: Section, caller: Caller, step: Step)
    ensures step in StepsOf(section, caller)
        <==> exists i :: 0 <= i < |caller.instructions| && IsStep(section, caller, i, step)
  {
    var steps := StepsOf(section, caller);
    if step in steps {
      var i :| 0 <= i < |steps| && steps[i] == step;
      assert IsStep(section, caller, i, step);
    }
    if i :| 0 <= i < |caller.instructions| && IsStep(section, caller, i, step) {
      assert steps[i] == step;
    }
  }

  /** The section's functions are scanned instruction by instruction, and nothing else is. */
  lemma {:induction false} StepsAre(section: Section, callers: seq<Caller>, step: Step)
    ensures step in Steps(section, callers) <==> StepOf(section, callers, step)
  {
    if callers == [] {
    } else {
      var last := |callers| - 1;
      StepsAre(section, callers[..last], step);
      CallerStepsAre(section, callers[last], step);
      if StepOf(section, callers[..last], step) {
        var c, i :| 0 <= c < last && 0 <= i < |callers[..last][c].instructions|
                    && IsStep(section, callers[..last][c], i, step);
        assert callers[..last][c] == callers[c];
      }
      if StepOf(section, callers, step) {
        var c, i :| 0 <= c < |callers| && 0 <= i < |callers[c].instructions| && IsStep(section, callers[c], i, step);
        assert c < last ==> callers[..last][c] == callers[c];
      }
    }
  }

  /** What a call or jump yields: a near one as `Resolve` says, any other an unknown callee unless it is a switch. */
  ghost predicate Yields(section: Section, step: Step, target: Option<nat>, unresolved: Option<UnresolvedCall>) {
    var instruction := step.instruction;
    if instruction.operand.Near? then
      && (forall k: nat :: Applies(section, instruction, k) ==>
            Relocated(section.relocations[k].target, target, unresolved))
      && ((forall k: nat :: !Applies(section, instruction, k)) ==> Unrelocated(section, step, target, unresolved))
    else if instruction.flow == Jump && instruction.operand == Memory(true) then target == None && unresolved == None
    else target == None && unresolved == Some(NativeIndirect)
  }

  /** The instruction leaves this call behind. */
  ghost predicate Leaves(section: Section, step: Step, call: PositionalCall) {
    && !step.instruction.invalid && step.instruction.flow != FallThrough
    && call.caller == step.position
    && Yields(section, step, call.target, call.unresolved)
    && (call.target != None || call.unresolved != None)
  }

  /** At most one outcome is meant. */
  lemma YieldsOne(section: Section, step: Step, target: Option<nat>, unresolved: Option<UnresolvedCall>,
                  other: Option<nat>, reason: Option<UnresolvedCall>)
    requires Yields(section, step, target, unresolved) && Yields(section, step, other, reason)
    ensures target == other && unresolved == reason
  {
    if step.instruction.operand.Near? && forall k: nat :: !Applies(section, step.instruction, k) {
      assert Unrelocated(section, step, target, unresolved) && Unrelocated(section, step, other, reason);
      assert target.Some? ==> other == Some(target.value);
      assert other.Some? ==> target == Some(other.value);
    } else if k: nat :| step.instruction.operand.Near? && Applies(section, step.instruction, k) {
      assert Relocated(section.relocations[k].target, target, unresolved);
      assert Relocated(section.relocations[k].target, other, reason);
    }
  }

  lemma OutcomeIsYielded(section: Section, step: Step)
    requires section.Valid() && !step.instruction.invalid && step.instruction.flow != FallThrough
    ensures var (target, unresolved) := Outcome(section, step); Yields(section, step, target, unresolved)
  {
    if step.instruction.operand.Near? {
      OutcomeIs(section, step);
    }
  }

  /** An instruction records exactly the call it leaves. */
  lemma RecordedIs(section: Section, step: Step, call: PositionalCall)
    requires section.Valid()
    ensures |Recorded(section, step)| <= 1
    ensures call in Recorded(section, step) <==> Leaves(section, step, call)
  {
    if !step.instruction.invalid && step.instruction.flow != FallThrough {
      var (target, unresolved) := Outcome(section, step);
      OutcomeIsYielded(section, step);
      if Leaves(section, step, call) {
        YieldsOne(section, step, target, unresolved, call.target, call.unresolved);
      }
    }
  }

  /** The call an instruction leaves goes behind those there were, and there is one at most. */
  lemma StepAppends(section: Section, trace: Trace, step: Step, call: PositionalCall)
    requires section.Valid()
    ensures var calls := Next(section, trace, step).calls;
            && trace.calls <= calls && |calls| <= |trace.calls| + 1
            && (Leaves(section, step, call) <==> calls == trace.calls + [call])
  {
    RecordedIs(section, step, call);
    var more := Recorded(section, step);
    assert call in more <==> more == [call];
    assert trace.calls + more == trace.calls + [call] ==> more == [call] by {
      assert (trace.calls + more)[|trace.calls|..] == more;
      assert (trace.calls + [call])[|trace.calls|..] == [call];
    }
  }

  lemma {:induction false} ScannedCallsAre(section: Section, trace: Trace, steps: seq<Step>, call: PositionalCall)
    requires section.Valid()
    ensures call in Scan(section, trace, steps).calls
        <==> call in trace.calls || exists step :: step in steps && Leaves(section, step, call)
  {
    if steps == [] {
    } else {
      var front, last := steps[..|steps| - 1], steps[|steps| - 1];
      ScannedCallsAre(section, trace, front, call);
      RecordedIs(section, last, call);
      assert steps == front + [last];
    }
  }

  /** The calls a section adds are those its functions' instructions leave. */
  lemma SectionCallsAre(section: Section, calls: seq<PositionalCall>, taken: set<nat>, callers: seq<Caller>,
                        call: PositionalCall)
    requires section.Valid()
    ensures call in SectionTransfers(section, calls, taken, callers).calls
        <==> call in calls || exists step :: StepOf(section, callers, step) && Leaves(section, step, call)
  {
    ScannedCallsAre(section, Trace(calls, {}, taken), Steps(section, callers), call);
    forall step
      ensures step in Steps(section, callers) <==> StepOf(section, callers, step)
    {
      StepsAre(section, callers, step);
    }
  }

  /** A call or jump to a near destination. */
  ghost predicate GoesNear(instruction: Instruction) {
    !instruction.invalid && instruction.flow != FallThrough && instruction.operand.Near?
  }

  /** A call or jump whose relocation stands at `offset` is scanned. */
  ghost predicate Taken(section: Section, callers: seq<Caller>, offset: nat) {
    exists step, k: nat ::
      StepOf(section, callers, step) && GoesNear(step.instruction)
      && Applies(section, step.instruction, k) && section.relocations[k].offset == offset
  }

  /** What a relocation points at holds function `p`. */
  ghost predicate PointsAt(section: Section, target: ResolvedTarget, p: nat) {
    match target
    case Function(position) => position == p
    case UncoveredText(other) => other in section.owners && p in section.owners[other]
    case NotCode => false
    case Undefined => false
  }

  /** An instruction that neither calls nor jumps computes the address of function `p`. */
  ghost predicate Names(section: Section, step: Step, p: nat) {
    && !step.instruction.invalid && step.instruction.flow == FallThrough
    && exists address :: address in step.instruction.addresses && address in section.images
                         && section.images[address] == p
  }

  lemma ConsumedIsTaken(section: Section, calls: seq<PositionalCall>, taken: set<nat>, callers: seq<Caller>,
                        offset: nat)
    requires section.Valid()
    ensures offset in Scanned(section, calls, taken, callers).consumed <==> Taken(section, callers, offset)
  {
    var start, steps := Trace(calls, {}, taken), Steps(section, callers);
    if offset in Scan(section, start, steps).consumed {
      var step := OneConsumes(section, start, steps, offset);
      var k := Uses(section, step.instruction).value;
      UsesWhatApplies(section, step.instruction, k);
      StepsAre(section, callers, step);
    }
    if Taken(section, callers, offset) {
      var step, k: nat :| StepOf(section, callers, step) && GoesNear(step.instruction)
                          && Applies(section, step.instruction, k) && section.relocations[k].offset == offset;
      UsesWhatApplies(section, step.instruction, k);
      StepsAre(section, callers, step);
      StepCounts(section, start, steps, step);
    }
  }

  lemma ComputesIs(section: Section, step: Step, p: nat)
    ensures p in Computes(section, step) <==> Names(section, step, p)
  {
  }

  lemma RootsIs(section: Section, target: ResolvedTarget, p: nat)
    ensures p in Roots(section, target) <==> PointsAt(section, target, p)
  {
  }

  /**
  The functions a section roots, besides those rooted before: those whose address
  an instruction computes, and those that relocations no branch took point at.
  */
  lemma SectionRootsAre(section: Section, calls: seq<PositionalCall>, taken: set<nat>, callers: seq<Caller>, p: nat)
    requires section.Valid()
    ensures p in SectionTransfers(section, calls, taken, callers).taken
        <==> || p in taken
             || (exists step :: StepOf(section, callers, step) && Names(section, step, p))
             || exists k :: 0 <= k < |section.relocations| && !Taken(section, callers, section.relocations[k].offset)
                            && PointsAt(section, section.relocations[k].target, p)
  {
    var consumed, n := Scanned(section, calls, taken, callers).consumed, |section.relocations|;
    TakenIs(section, Trace(calls, {}, taken), Steps(section, callers), p);
    RootedByIs(section, consumed, n, p);
    forall k | 0 <= k < n
      ensures section.relocations[k].offset in consumed <==> Taken(section, callers, section.relocations[k].offset)
      ensures p in Roots(section, section.relocations[k].target)
          <==> PointsAt(section, section.relocations[k].target, p)
    {
      ConsumedIsTaken(section, calls, taken, callers, section.relocations[k].offset);
      RootsIs(section, section.relocations[k].target, p);
    }
    forall step
      ensures step in Steps(section, callers) <==> StepOf(section, callers, step)
      ensures p in Computes(section, step) <==> Names(section, step, p)
    {
      StepsAre(section, callers, step);
      ComputesIs(section, step, p);
    }
  }
}
