/** The loops that gather calls and taken addresses, one text section at a time. */
module Transfers {
  import opened Boundaries
  import opened Branches
  import opened Fingerprints
  import opened SymbolIndexes
  import opened Wrappers

  /** Relocation `k` is the first PC-relative one at the last four bytes of an instruction long enough to hold them. */
  ghost predicate Applies(section: Section, instruction: Instruction, k: nat) {
    && 5 <= instruction.length && section.address <= instruction.ip
    && instruction.ip - section.address + instruction.length <= 0xffff_ffff_ffff_ffff
    && k < |section.relocations| && RelatesAt(section, instruction, k)
    && forall j :: 0 <= j < k ==> !RelatesAt(section, instruction, j)
  }

  ghost predicate RelatesAt(section: Section, instruction: Instruction, k: nat)
    requires k < |section.relocations|
  {
    var relocation := section.relocations[k];
    && (relocation.kind == Relative || relocation.kind == PltRelative)
    && section.address + relocation.offset == instruction.ip + instruction.length - 4
  }

  /** What a relocated branch yields, by what the relocation resolved to. */
  ghost predicate Relocated(resolved: ResolvedTarget, target: Option<nat>, unresolved: Option<UnresolvedCall>) {
    match resolved
    case Function(position) => target == Some(position) && unresolved == None
    case Undefined => target == None && unresolved == Some(ExternalImport)
    case UncoveredText(_) => target == None && unresolved == Some(MissingRelocation)
    case NotCode => target == None && unresolved == Some(MissingRelocation)
  }

  /** The function that starts at an address, as the table has it. */
  ghost predicate StartsAt(section: Section, address: nat, position: nat) {
    address in section.starts && section.starts[address] == position
  }

  /** The function in whose span an address lies. */
  ghost predicate SpanHolds(section: Section, address: nat, position: nat) {
    exists span :: span in section.spans && span.start <= address < span.end && span.position == position
  }

  /** What a branch to its own destination yields. */
  ghost predicate Unrelocated(section: Section, step: Step, target: Option<nat>, unresolved: Option<UnresolvedCall>)
    requires step.instruction.operand.Near?
  {
    var (destination, jump) := (step.instruction.operand.destination, step.instruction.flow == Jump);
    if jump && step.start <= destination < step.end then target == None && unresolved == None
    else
      && (forall position: nat :: target == Some(position) <==>
            || StartsAt(section, destination, position)
            || (jump && destination !in section.starts && SpanHolds(section, destination, position)))
      && unresolved == if target == None then Some(MissingRelocation) else None
  }

  lemma UsesWhatApplies(section: Section, instruction: Instruction, k: nat)
    requires section.Valid() && instruction.NearBranch()
    ensures Uses(section, instruction) == Some(k) <==> Applies(section, instruction, k)
  {
    var offset := Displacement(instruction, section.address);
    if offset.Some? {
      var used := Uses(section, instruction);
      assert used == Linear(section.relocations, offset.value, 0);
      forall j | 0 <= j < |section.relocations|
        ensures RelatesAt(section, instruction, j)
            <==> section.relocations[j].offset == offset.value && OfBranch(section.relocations[j].kind)
      {
      }
      if Applies(section, instruction, k) {
        assert used.Some? && used.value <= k;
        assert RelatesAt(section, instruction, used.value);
      }
    }
  }

  /** What a near branch comes to, by the relocation that applies to it or by where it goes. */
  lemma OutcomeIs(section: Section, step: Step)
    requires section.Valid() && step.instruction.NearBranch()
    ensures var (target, unresolved) := Outcome(section, step);
            && (forall k: nat :: Applies(section, step.instruction, k) ==>
                  && Relocated(section.relocations[k].target, target, unresolved)
                  && Consumes(section, step) == {section.relocations[k].offset})
            && ((forall k: nat :: !Applies(section, step.instruction, k)) ==>
                  Unrelocated(section, step, target, unresolved) && Consumes(section, step) == {})
  {
    forall k: nat
      ensures Uses(section, step.instruction) == Some(k) <==> Applies(section, step.instruction, k)
    {
      UsesWhatApplies(section, step.instruction, k);
    }
    var used := Uses(section, step.instruction);
    if used.Some? {
      assert Applies(section, step.instruction, used.value);
    } else {
      var span := SpanHolding(section.spans, step.instruction.operand.destination);
    }
  }

  /**
  `resolve`: a near branch enters what the relocation applying to it resolved to,
  or else the function its destination starts; a jump, also the one whose span
  holds the destination, unless it stays in its own function. A relocation that
  applies is consumed.
  */
  method Resolve(section: Section, step: Step, consumed: set<nat>)
      returns (target: Option<nat>, unresolved: Option<UnresolvedCall>, consumedNow: set<nat>)
    requires section.Valid() && step.instruction.NearBranch()
    ensures (target, unresolved) == Outcome(section, step)
    ensures consumedNow == consumed + Consumes(section, step)
    ensures forall k: nat :: Applies(section, step.instruction, k) ==>
              && Relocated(section.relocations[k].target, target, unresolved)
              && consumedNow == consumed + {section.relocations[k].offset}
    ensures (forall k: nat :: !Applies(section, step.instruction, k)) ==>
              Unrelocated(section, step, target, unresolved) && consumedNow == consumed
  {
    OutcomeIs(section, step);
    consumedNow := consumed;
    var instruction := step.instruction;
    var offset := Displacement(instruction, section.address);
    if offset.Some? {
      var found := BranchRelocation(section.relocations, offset.value);
      if found.Some? {
        var relocation := section.relocations[found.value];
        consumedNow := consumed + {relocation.offset};
        match relocation.target {
          case Function(position) => return Some(position), None, consumedNow;
          case Undefined => return None, Some(ExternalImport), consumedNow;
          case UncoveredText(_) => return None, Some(MissingRelocation), consumedNow;
          case NotCode => return None, Some(MissingRelocation), consumedNow;
        }
      }
    }
    var destination := instruction.operand.destination;
    var isJump := instruction.flow.Jump?;
    if isJump && step.start <= destination < step.end {
      return None, None, consumedNow;
    }
    target := Lookup(section.starts, destination);
    if target.None? && isJump {
      target := HolderOf(section.spans, destination);
    }
    unresolved := if target.None? then Some(MissingRelocation) else None;
  }

  class X86Transfers {
    var calls: seq<PositionalCall>
    var addressTaken: set<nat>

    constructor ()
      ensures calls == [] && addressTaken == {}
    {
      calls, addressTaken := [], {};
    }

    /** `note_relocation_target`. */
    method NoteRelocationTarget(section: Section, target: ResolvedTarget)
      modifies `addressTaken
      ensures addressTaken == old(addressTaken) + Roots(section, target)
    {
      match target {
        case Function(position) => addressTaken := addressTaken + {position};
        case UncoveredText(other) =>
          if other in section.owners {
            addressTaken := addressTaken + section.owners[other];
          }
        case NotCode =>
        case Undefined =>
      }
    }

    /** `note_address_taken`, when image addresses identify symbols. */
    method NoteAddressTaken(section: Section, step: Step)
      requires !step.instruction.invalid && step.instruction.flow.FallThrough?
      modifies `addressTaken
      ensures addressTaken == old(addressTaken) + Computes(section, step)
    {
      var addresses := step.instruction.addresses;
      for i := 0 to |addresses|
        invariant addressTaken == old(addressTaken) + ImagesAt(section, addresses[..i])
      {
        if addresses[i] in section.images {
          addressTaken := addressTaken + {section.images[addresses[i]]};
        }
      }
      assert addresses[..|addresses|] == addresses;
    }

    /** The body of `scan_function`'s loop for one decoded instruction. */
    method ScanInstruction(section: Section, step: Step, consumed: set<nat>) returns (consumedNow: set<nat>)
      requires section.Valid()
      modifies this
      ensures Trace(calls, consumedNow, addressTaken)
           == Next(section, Trace(old(calls), consumed, old(addressTaken)), step)
    {
      consumedNow := consumed;
      var instruction := step.instruction;
      if instruction.invalid {
        return;
      }
      if instruction.flow.FallThrough? {
        if section.images != map[] {
          NoteAddressTaken(section, step);
        }
        return;
      }
      if instruction.flow.Jump? && instruction.operand == Memory(true) {
        return;
      }
      var target, unresolved := None, Some(NativeIndirect);
      if instruction.operand.Near? {
        target, unresolved, consumedNow := Resolve(section, step, consumed);
      }
      if target.Some? || unresolved.Some? {
        calls := calls + [PositionalCall(step.position, target, unresolved)];
      }
    }

    /** `scan_function`: one step for each of a function's instructions. */
    method ScanFunction(section: Section, caller: Caller, start: nat, consumed: set<nat>)
        returns (consumedNow: set<nat>)
      requires section.Valid() && StartOf(section, caller) == Some(start)
      modifies this
      ensures Trace(calls, consumedNow, addressTaken)
           == Scan(section, Trace(old(calls), consumed, old(addressTaken)), StepsOf(section, caller))
    {
      consumedNow := consumed;
      var end := SaturatingAdd(start, caller.codeLength);
      ghost var before := Trace(calls, consumed, addressTaken);
      ghost var steps := StepsOf(section, caller);
      for i := 0 to |caller.instructions|
        invariant Trace(calls, consumedNow, addressTaken) == Scan(section, before, steps[..i])
      {
        ScanOneMore(section, before, steps[..i], steps[i]);
        assert steps[..i + 1] == steps[..i] + [steps[i]];
        consumedNow := ScanInstruction(section, Step(caller.position, start, end, caller.instructions[i]), consumedNow);
      }
      assert steps[..|steps|] == steps;
    }

    /** Every function of the section, in order; one that starts nowhere in memory is passed over. */
    method ScanFunctions(section: Section, callers: seq<Caller>) returns (consumed: set<nat>)
      requires section.Valid()
      modifies this
      ensures Trace(calls, consumed, addressTaken) == Scanned(section, old(calls), old(addressTaken), callers)
    {
      consumed := {};
      ghost var before := Trace(calls, {}, addressTaken);
      for i := 0 to |callers|
        invariant Trace(calls, consumed, addressTaken) == Scan(section, before, Steps(section, callers[..i]))
      {
        StepsOneMore(section, callers, i);
        ScanConcatenated(section, before, Steps(section, callers[..i]), StepsOf(section, callers[i]));
        var start := StartOf(section, callers[i]);
        if start.Some? {
          consumed := ScanFunction(section, callers[i], start.value, consumed);
        }
      }
      assert callers[..|callers|] == callers;
    }

    /** Root what is left: every relocation at an offset that was not consumed. */
    method NoteUnconsumed(section: Section, consumed: set<nat>)
      modifies `addressTaken
      ensures addressTaken == old(addressTaken) + RootedBy(section, consumed, |section.relocations|)
    {
      for k := 0 to |section.relocations|
        invariant addressTaken == old(addressTaken) + RootedBy(section, consumed, k)
      {
        if section.relocations[k].offset !in consumed {
          NoteRelocationTarget(section, section.relocations[k].target);
        }
      }
    }

    /** The part of `x86_transfers` that handles one text section. */
    method ScanSection(section: Section, callers: seq<Caller>) returns (ghost consumed: set<nat>)
      requires section.Valid()
      modifies this
      ensures Trace(calls, consumed, addressTaken)
           == SectionTransfers(section, old(calls), old(addressTaken), callers)
    {
      var used := ScanFunctions(section, callers);
      NoteUnconsumed(section, used);
      consumed := used;
    }
  }

  /** The functions that start at the given image addresses. */
  function ImagesAt(section: Section, addresses: seq<nat>): set<nat> {
    set address | address in addresses && address in section.images :: section.images[address]
  }

  lemma StepsOneMore(section: Section, callers: seq<Caller>, i: nat)
    requires i < |callers|
    ensures Steps(section, callers[..i + 1]) == Steps(section, callers[..i]) + StepsOf(section, callers[i])
  {
    assert callers[..i + 1][..i] == callers[..i];
  }
}
