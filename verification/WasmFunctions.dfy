/** Reading one WebAssembly function body: its two forms, the calls it makes and the functions it references. */
module WasmFunctions {
  import opened Bytes
  import opened Leb128
  import opened Sequences
  import opened WasmBodies
  import opened Wrappers

  /** What the operator reader reports of an operator: what it does to other functions, and where it starts. */
  datatype Effect =
    | Call(callee: nat)
    | Indirect(typeIndex: nat)
    | RefFunc(callee: nat)
    | Plain

  datatype Operator = Operator(effect: Effect, renumbers: bool, offset: nat)

  /** What one instruction calls, by index into the functions or the types. */
  datatype PendingCall = Direct(callee: nat) | Through(typeIndex: nat) | Untyped

  datatype PendingFunction = PendingFunction(
    form: seq<Byte>, normalized: seq<Byte>, calls: seq<PendingCall>, references: set<nat>)

  /** `span`: the bytes between two offsets, if the input has them. */
  function Span(bytes: seq<Byte>, start: nat, end: nat): Option<seq<Byte>> {
    if start <= end <= |bytes| then Some(bytes[start..end]) else None
  }

  /** `transfers_control`. */
  predicate TransfersControl(opcode: Byte) {
    0x10 <= opcode <= 0x15
  }

  /** A body as the reader lays it out: the module's bytes, the body's extent, and its operators. */
  datatype Extent = Extent(bytes: seq<Byte>, start: nat, operands: nat, end: nat, operators: seq<Operator>)
  {
    /** Where operator `i` ends: where the next one, or else the body, says. */
    function EndOf(i: nat): nat
      requires i < |operators|
    {
      if i + 1 < |operators| then operators[i + 1].offset else end
    }

    /** The bytes operator `i` contributes to the form. */
    function Piece(i: nat): Option<seq<Byte>>
      requires i < |operators|
    {
      var offset := operators[i].offset;
      Span(bytes, offset, if operators[i].renumbers then offset + 1 else EndOf(i))
    }

    /** What operator `i` adds to the calls. */
    function CallsAt(i: nat): seq<PendingCall>
      requires i < |operators|
    {
      match operators[i].effect
      case Call(callee) => [Direct(callee)]
      case Indirect(typeIndex) => [Through(typeIndex)]
      case RefFunc(_) => []
      case Plain =>
        var offset := operators[i].offset;
        if offset < |bytes| && TransfersControl(bytes[offset]) then [Untyped] else []
    }

    function CallsTo(k: nat): seq<PendingCall>
      requires k <= |operators|
    {
      if k == 0 then [] else CallsTo(k - 1) + CallsAt(k - 1)
    }

    /** The function operator `i` takes a reference of. */
    function ReferencesAt(i: nat): set<nat>
      requires i < |operators|
    {
      if operators[i].effect.RefFunc? then {operators[i].effect.callee} else {}
    }

    function References(k: nat): set<nat>
      requires k <= |operators|
    {
      if k == 0 then {} else References(k - 1) + ReferencesAt(k - 1)
    }

    ghost predicate PiecesReadTo(k: nat)
      requires k <= |operators|
    {
      forall i :: 0 <= i < k ==> Piece(i).Some?
    }

    ghost predicate OperationsReadTo(k: nat)
      requires k <= |operators|
    {
      forall i :: 0 <= i < k ==> OperationAt(bytes, operators[i].offset).Some?
    }

    /** Every part of the body lies in the module and can be read. */
    ghost predicate Readable() {
      Span(bytes, start, operands).Some? && PiecesReadTo(|operators|) && OperationsReadTo(|operators|)
    }

    ghost function Pieces(k: nat): (pieces: seq<seq<Byte>>)
      requires k <= |operators| && PiecesReadTo(k)
    {
      seq(k, i requires 0 <= i < k => Piece(i).value)
    }

    ghost function Operations(k: nat): (operations: seq<Operation>)
      requires k <= |operators| && OperationsReadTo(k)
    {
      seq(k, i requires 0 <= i < k => OperationAt(bytes, operators[i].offset).value)
    }

    /** What the body parses to when every part of it can be read. */
    ghost function Parsed(): PendingFunction
      requires Readable()
    {
      PendingFunction(bytes[start..operands] + Blocks(Pieces(|operators|)), KeyStream(Operations(|operators|)),
                      CallsTo(|operators|), References(|operators|))
    }

    /** The reader's extent is that of `body`: the parts stand one after the other, and operators are what they read. */
    ghost predicate Lays(body: Body) {
      && start <= operands <= end <= |bytes|
      && bytes[start..operands] == body.locals && bytes[operands..end] == Blocks(body.instructions)
      && |operators| == |body.instructions|
      && forall i :: 0 <= i < |operators| ==>
           && body.instructions[i] != []
           && operators[i].offset == operands + |Blocks(body.instructions[..i])|
           && operators[i].renumbers == NamesFunction(body.instructions[i][0])
    }
  }

  lemma {:induction false} BlocksJoined(a: seq<seq<Byte>>, b: seq<seq<Byte>>)
    ensures Blocks(a + b) == Blocks(a) + Blocks(b)
  {
    if a == [] {
      assert a + b == b;
    } else {
      BlocksJoined(a[1..], b);
      TailOfJoined(a, b);
      assert a[0] + (Blocks(a[1..]) + Blocks(b)) == a[0] + Blocks(a[1..]) + Blocks(b);
    }
  }

  lemma BlocksAt(pieces: seq<seq<Byte>>, i: nat)
    requires i < |pieces|
    ensures Blocks(pieces[..i + 1]) == Blocks(pieces[..i]) + pieces[i]
    ensures Blocks(pieces) == Blocks(pieces[..i]) + (pieces[i] + Blocks(pieces[i + 1..]))
  {
    BlocksAppend(pieces[..i], pieces[i]);
    OneMore(pieces, i);
    BlocksJoined(pieces[..i], pieces[i..]);
    Rejoined(pieces, i);
  }

  /** An operator ends where its instruction does. */
  lemma EndIs(extent: Extent, body: Body, i: nat)
    requires extent.Lays(body) && i < |extent.operators|
    ensures extent.EndOf(i) == extent.operands + |Blocks(body.instructions[..i + 1])|
  {
    if i + 1 == |body.instructions| {
      assert body.instructions[..i + 1] == body.instructions;
    }
  }

  /** An instruction stands in the module's bytes where its operator says. */
  lemma InstructionStands(extent: Extent, body: Body, i: nat)
    requires extent.Lays(body) && i < |extent.operators|
    ensures var offset := extent.operators[i].offset;
            && extent.EndOf(i) == offset + |body.instructions[i]| <= |extent.bytes|
            && extent.bytes[offset..extent.EndOf(i)] == body.instructions[i]
  {
    var all := body.instructions;
    EndIs(extent, body, i);
    BlocksAt(all, i);
    CutOut(extent.bytes, extent.operands, extent.end, Blocks(all[..i]), all[i], Blocks(all[i + 1..]));
  }

  lemma CutOut(bytes: seq<Byte>, start: nat, end: nat, before: seq<Byte>, middle: seq<Byte>, after: seq<Byte>)
    requires start <= end <= |bytes| && bytes[start..end] == before + (middle + after)
    ensures var offset := start + |before|;
            offset + |middle| <= end && bytes[offset..offset + |middle|] == middle
  {
    var offset, whole := start + |before|, before + (middle + after);
    assert |whole| == end - start;
    assert whole[|before|..|before| + |middle|] == middle;
    SliceOfPart(bytes, start, bytes[start..end], |before|, |before| + |middle|);
  }

  /** A body laid out in a module is read to its form. */
  lemma LaidOutIsItsForm(extent: Extent, body: Body)
    requires extent.Lays(body) && extent.Readable()
    ensures extent.Parsed().form == Form(body)
  {
    var n := |extent.operators|;
    forall i | 0 <= i < n
      ensures extent.Pieces(n)[i] == ShortenedAll(body.instructions)[i]
    {
      InstructionStands(extent, body, i);
    }
    assert extent.Pieces(n) == ShortenedAll(body.instructions);
  }

  lemma ReadingMoves(bytes: seq<Byte>, offset: nat, instruction: seq<Byte>)
    requires offset + |instruction| <= |bytes| && bytes[offset..offset + |instruction|] == instruction
    requires ReadingAt(instruction, 1).Read?
    ensures var reading := ReadingAt(instruction, 1);
            ReadingAt(bytes, offset + 1) == Read(reading.value, offset + reading.next)
  {
    var reading := ReadingAt(instruction, 1);
    SliceOfPart(bytes, offset, instruction, 1, reading.next);
    ReadingIsUnique(bytes, offset + 1, Read(reading.value, offset + reading.next));
  }

  lemma OperationMoves(bytes: seq<Byte>, offset: nat, instruction: seq<Byte>)
    requires offset + |instruction| <= |bytes| && bytes[offset..offset + |instruction|] == instruction
    requires OperationAt(instruction, 0).Some?
    ensures OperationAt(bytes, offset) == OperationAt(instruction, 0)
  {
    assert bytes[offset..offset + |instruction|][0] == bytes[offset];
    if Escape(instruction[0]) {
      ReadingMoves(bytes, offset, instruction);
    }
  }

  /** An operation is read from its own instruction's bytes, whatever follows them. */
  lemma OperationStands(extent: Extent, body: Body, i: nat)
    requires extent.Lays(body) && i < |extent.operators| && OperationAt(body.instructions[i], 0).Some?
    ensures OperationAt(extent.bytes, extent.operators[i].offset) == OperationAt(body.instructions[i], 0)
  {
    InstructionStands(extent, body, i);
    OperationMoves(extent.bytes, extent.operators[i].offset, body.instructions[i]);
  }

  /** The operations of a body's instructions. */
  ghost predicate Performs(body: Body, operations: seq<Operation>) {
    && |operations| == |body.instructions|
    && forall i :: 0 <= i < |operations| ==> OperationAt(body.instructions[i], 0) == Some(operations[i])
  }

  /** A laid-out body whose operations can be read always parses, to its form and its operations' keys. */
  lemma LaidOutParses(extent: Extent, body: Body, operations: seq<Operation>)
    requires extent.Lays(body) && Performs(body, operations)
    ensures extent.Readable() && extent.Parsed().form == Form(body)
    ensures extent.Parsed().normalized == KeyStream(operations)
  {
    var n := |extent.operators|;
    forall i | 0 <= i < n
      ensures extent.Piece(i).Some?
      ensures OperationAt(extent.bytes, extent.operators[i].offset) == Some(operations[i])
    {
      InstructionStands(extent, body, i);
      OperationStands(extent, body, i);
    }
    LaidOutIsItsForm(extent, body);
    assert extent.Operations(n) == operations;
  }

  /**
  What comparing two parsed functions tells: their forms agree exactly when the
  bodies do up to named functions, and their normalized instructions agree exactly
  when they perform the same operations.
  */
  lemma ParsedFormsCompareBodies(format: Format, x: Extent, a: Body, y: Extent, b: Body,
                                 xOperations: seq<Operation>, yOperations: seq<Operation>)
    requires format.Valid() && format.Has(a) && format.Has(b)
    requires x.Lays(a) && Performs(a, xOperations) && y.Lays(b) && Performs(b, yOperations)
    ensures x.Readable() && y.Readable()
    ensures x.Parsed().form == y.Parsed().form <==> SameButFunctions(a, b)
    ensures x.Parsed().normalized == y.Parsed().normalized <==> xOperations == yOperations
  {
    LaidOutParses(x, a, xOperations);
    LaidOutParses(y, b, yOperations);
    FormsEqualExactly(format, a, b);
    KeyStreamsEqualExactly(xOperations, yOperations);
  }

  /** `append_opcode_key`: the longer key stream and the leading opcode byte. */
  method AppendOpcodeKey(normalized: seq<Byte>, bytes: seq<Byte>, offset: nat)
      returns (longer: Option<(seq<Byte>, Byte)>)
    ensures var operation := OperationAt(bytes, offset);
            longer == if operation.Some? then Some((normalized + operation.value.Key(), bytes[offset])) else None
  {
    if offset >= |bytes| {
      return None;
    }
    var opcode := bytes[offset];
    if !Escape(opcode) {
      return Some((normalized + [opcode], opcode));
    }
    var reading := UnsignedLeb(bytes, offset + 1);
    match reading {
      case Read(subopcode, _) =>
        assert normalized + [opcode] + LittleEndian(subopcode, 4) == normalized + Extended(opcode, subopcode).Key();
        return Some((normalized + [opcode] + LittleEndian(subopcode, 4), opcode));
      case Truncated => return None;
      case TooLong => return None;
    }
  }

  lemma KeysOneMore(extent: Extent, i: nat)
    requires i < |extent.operators| && extent.OperationsReadTo(i + 1)
    ensures KeyStream(extent.Operations(i + 1))
         == KeyStream(extent.Operations(i)) + OperationAt(extent.bytes, extent.operators[i].offset).value.Key()
  {
    assert Keys(extent.Operations(i + 1))
        == Keys(extent.Operations(i)) + [extent.Operations(i + 1)[i].Key()];
    BlocksAppend(Keys(extent.Operations(i)), extent.Operations(i + 1)[i].Key());
  }

  lemma PiecesOneMore(extent: Extent, i: nat)
    requires i < |extent.operators| && extent.PiecesReadTo(i + 1)
    ensures Blocks(extent.Pieces(i + 1)) == Blocks(extent.Pieces(i)) + extent.Piece(i).value
  {
    assert extent.Pieces(i + 1) == extent.Pieces(i) + [extent.Piece(i).value];
    BlocksAppend(extent.Pieces(i), extent.Piece(i).value);
  }

  /** In a laid-out body an operator contributes its own instruction, shortened if it names a function. */
  lemma PieceIsShortened(extent: Extent, body: Body, i: nat)
    requires extent.Lays(body) && i < |extent.operators|
    ensures extent.Piece(i) == Some(Shortened(body.instructions[i]))
  {
    InstructionStands(extent, body, i);
    var offset, instruction := extent.operators[i].offset, body.instructions[i];
    SliceOfPart(extent.bytes, offset, instruction, 0, 1);
    assert instruction[0..1] == [instruction[0]];
  }

  lemma EveryPieceIsShortened(extent: Extent, i: nat)
    requires i < |extent.operators|
    ensures forall body :: extent.Lays(body) ==> extent.Piece(i) == Some(Shortened(body.instructions[i]))
  {
    forall body | extent.Lays(body)
      ensures extent.Piece(i) == Some(Shortened(body.instructions[i]))
    {
      PieceIsShortened(extent, body, i);
    }
  }

  /**
  `append_operand`: the form grows by operator `i`, whatever its bytes are, and by
  the shortened instruction when the operator is one of a laid-out body. It fails
  exactly when the operator's bytes lie outside the input.
  */
  method AppendOperand(extent: Extent, i: nat, form: seq<Byte>, ghost opening: seq<Byte>)
      returns (longer: Option<seq<Byte>>)
    requires i < |extent.operators| && extent.PiecesReadTo(i) && form == opening + Blocks(extent.Pieces(i))
    ensures longer.Some? <==> extent.PiecesReadTo(i + 1)
    ensures longer.Some? ==> longer.value == opening + Blocks(extent.Pieces(i + 1))
    ensures forall body :: extent.Lays(body) ==> longer == Some(form + Shortened(body.instructions[i]))
  {
    var operator := extent.operators[i];
    var end := if operator.renumbers then operator.offset + 1 else extent.EndOf(i);
    var piece := Span(extent.bytes, operator.offset, end);
    assert piece == extent.Piece(i);
    EveryPieceIsShortened(extent, i);
    if piece.None? {
      return None;
    }
    PiecesOneMore(extent, i);
    longer := Some(form + piece.value);
  }

  /** The key stream once operator `i` has been appended to it. */
  method AppendKey(extent: Extent, i: nat, normalized: seq<Byte>) returns (longer: Option<(seq<Byte>, Byte)>)
    requires i < |extent.operators| && extent.OperationsReadTo(i) && normalized == KeyStream(extent.Operations(i))
    ensures longer.Some? <==> extent.OperationsReadTo(i + 1)
    ensures longer.Some? ==> longer.value.0 == KeyStream(extent.Operations(i + 1))
    ensures longer.Some? ==>
              extent.operators[i].offset < |extent.bytes| && longer.value.1 == extent.bytes[extent.operators[i].offset]
  {
    longer := AppendOpcodeKey(normalized, extent.bytes, extent.operators[i].offset);
    if longer.Some? {
      KeysOneMore(extent, i);
    } else {
      assert OperationAt(extent.bytes, extent.operators[i].offset).None?;
    }
  }

  /** The call or reference operator `i` makes. */
  method Note(extent: Extent, i: nat, opcode: Byte, calls: seq<PendingCall>, references: set<nat>)
      returns (moreCalls: seq<PendingCall>, moreReferences: set<nat>)
    requires i < |extent.operators| && extent.operators[i].offset < |extent.bytes|
    requires opcode == extent.bytes[extent.operators[i].offset]
    ensures moreCalls == calls + extent.CallsAt(i)
    ensures moreReferences == references + extent.ReferencesAt(i)
  {
    moreCalls, moreReferences := calls, references;
    match extent.operators[i].effect {
      case Call(callee) => moreCalls := calls + [Direct(callee)];
      case Indirect(typeIndex) => moreCalls := calls + [Through(typeIndex)];
      case RefFunc(callee) => moreReferences := references + {callee};
      case Plain =>
        if TransfersControl(opcode) {
          moreCalls := calls + [Untyped];
        }
    }
  }

  /** Operator `i` makes `call`: by what it is, or for want of a type when its opcode transfers control. */
  ghost predicate Makes(extent: Extent, i: nat, call: PendingCall)
    requires i < |extent.operators|
  {
    match extent.operators[i].effect
    case Call(callee) => call == Direct(callee)
    case Indirect(typeIndex) => call == Through(typeIndex)
    case RefFunc(_) => false
    case Plain =>
      var offset := extent.operators[i].offset;
      call == Untyped && offset < |extent.bytes| && 0x10 <= extent.bytes[offset] <= 0x15
  }

  /** The calls are those of the first `k` operators, in order: call `n` is that of operator `makers[n]`. */
  ghost predicate ListsCalls(extent: Extent, k: nat, calls: seq<PendingCall>, makers: seq<nat>)
    requires k <= |extent.operators|
  {
    && |makers| == |calls|
    && (forall m, n :: 0 <= m < n < |makers| ==> makers[m] < makers[n])
    && (forall n :: 0 <= n < |makers| ==> makers[n] < k && Makes(extent, makers[n], calls[n]))
    && forall i, call :: 0 <= i < k && Makes(extent, i, call) ==> i in makers
  }

  lemma NoCallMore(extent: Extent, k: nat, calls: seq<PendingCall>, makers: seq<nat>)
    requires k < |extent.operators| && ListsCalls(extent, k, calls, makers)
    requires forall call :: !Makes(extent, k, call)
    ensures ListsCalls(extent, k + 1, calls, makers)
  {
  }

  lemma OneCallMore(extent: Extent, k: nat, calls: seq<PendingCall>, makers: seq<nat>, call: PendingCall)
    requires 0 < k <= |extent.operators| && ListsCalls(extent, k - 1, calls, makers) && Makes(extent, k - 1, call)
    ensures ListsCalls(extent, k, calls + [call], makers + [k - 1])
  {
    forall i, other | 0 <= i < k && Makes(extent, i, other)
      ensures i in makers + [k - 1]
    {
      if i == k - 1 {
        assert (makers + [k - 1])[|makers|] == i;
      } else {
        assert i in makers;
      }
    }
  }

  lemma CallsAtMakes(extent: Extent, i: nat)
    requires i < |extent.operators|
    ensures extent.CallsAt(i) == [] ==> forall call :: !Makes(extent, i, call)
    ensures extent.CallsAt(i) != [] ==> |extent.CallsAt(i)| == 1 && Makes(extent, i, extent.CallsAt(i)[0])
  {
  }

  lemma {:induction false} CallsAreListed(extent: Extent, k: nat) returns (makers: seq<nat>)
    requires k <= |extent.operators|
    ensures ListsCalls(extent, k, extent.CallsTo(k), makers)
  {
    if k == 0 {
      makers := [];
    } else {
      var before := CallsAreListed(extent, k - 1);
      var calls := extent.CallsTo(k - 1);
      CallsAtMakes(extent, k - 1);
      if extent.CallsAt(k - 1) == [] {
        makers := before;
        NoCallMore(extent, k - 1, calls, before);
      } else {
        makers := before + [k - 1];
        OneCallMore(extent, k, calls, before, extent.CallsAt(k - 1)[0]);
        assert extent.CallsAt(k - 1) == [extent.CallsAt(k - 1)[0]];
      }
    }
  }

  lemma {:induction false} ReferencesAre(extent: Extent, k: nat, callee: nat)
    requires k <= |extent.operators|
    ensures callee in extent.References(k)
        <==> exists i :: 0 <= i < k && extent.operators[i].effect == RefFunc(callee)
  {
    if k == 0 {
    } else {
      ReferencesAre(extent, k - 1, callee);
    }
  }

  /** A parsed function calls and references what its operators do. */
  lemma ParsedCallsAre(extent: Extent)
    requires extent.Readable()
    ensures exists makers :: ListsCalls(extent, |extent.operators|, extent.Parsed().calls, makers)
    ensures forall callee :: callee in extent.Parsed().references
              <==> exists i :: 0 <= i < |extent.operators| && extent.operators[i].effect == RefFunc(callee)
  {
    var makers := CallsAreListed(extent, |extent.operators|);
    forall callee
      ensures callee in extent.Parsed().references
          <==> exists i :: 0 <= i < |extent.operators| && extent.operators[i].effect == RefFunc(callee)
    {
      ReferencesAre(extent, |extent.operators|, callee);
    }
  }

  /** `parse_function`: an operator's bytes are appended only once the next one says where it ends. */
  method ParseFunction(extent: Extent) returns (parsed: Option<PendingFunction>)
    ensures parsed.Some? <==> extent.Readable()
    ensures parsed.Some? ==> parsed.value == extent.Parsed()
    ensures parsed.Some? ==>
              exists makers :: ListsCalls(extent, |extent.operators|, parsed.value.calls, makers)
    ensures parsed.Some? ==>
              forall callee :: callee in parsed.value.references
                <==> exists i :: 0 <= i < |extent.operators| && extent.operators[i].effect == RefFunc(callee)
  {
    var opening := Span(extent.bytes, extent.start, extent.operands);
    if opening.None? {
      return None;
    }
    var form, normalized, calls, references := opening.value, [], [], {};
    var pending := None;
    for i := 0 to |extent.operators|
      invariant pending == if i == 0 then None else Some(i - 1)
      invariant extent.OperationsReadTo(i) && normalized == KeyStream(extent.Operations(i))
      invariant var written := if i == 0 then 0 else i - 1;
                extent.PiecesReadTo(written) && form == opening.value + Blocks(extent.Pieces(written))
      invariant calls == extent.CallsTo(i) && references == extent.References(i)
    {
      if pending.Some? {
        var longer := AppendOperand(extent, pending.value, form, opening.value);
        if longer.None? {
          return None;
        }
        form := longer.value;
      }
      var key := AppendKey(extent, i, normalized);
      if key.None? {
        return None;
      }
      normalized := key.value.0;
      pending := Some(i);
      calls, references := Note(extent, i, key.value.1, calls, references);
    }
    if pending.Some? {
      var longer := AppendOperand(extent, pending.value, form, opening.value);
      if longer.None? {
        return None;
      }
      form := longer.value;
    }
    parsed := Some(PendingFunction(form, normalized, calls, references));
    ParsedCallsAre(extent);
  }
}
