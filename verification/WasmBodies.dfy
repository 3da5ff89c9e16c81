/**
The two forms kept of a WebAssembly function body: its bytes without function
indices, and its operations without any immediate. Both are compared between
builds, so each must determine exactly what it claims to.
*/
module WasmBodies {
  import opened Bytes
  import opened Leb128
  import opened Wrappers

  /** A body: its local declarations, and each instruction's bytes. */
  datatype Body = Body(locals: seq<Byte>, instructions: seq<seq<Byte>>)

  /** No string of the language is the start of another. */
  ghost predicate PrefixFree(language: iset<seq<Byte>>) {
    forall a, b :: a in language && b in language && a <= b ==> a == b
  }

  /**
  The binary format, as far as the forms depend on it (sections 5.4 and 5.5.13 of
  the WebAssembly Core Specification): declarations and instructions end where
  their own bytes say they do.
  */
  datatype Format = Format(locals: iset<seq<Byte>>, instructions: iset<seq<Byte>>)
  {
    ghost predicate Valid() {
      PrefixFree(locals) && PrefixFree(instructions) && [] !in instructions
    }

    ghost predicate Has(body: Body) {
      body.locals in locals && forall i :: 0 <= i < |body.instructions| ==> body.instructions[i] in instructions
    }
  }

  /** `call`, `return_call` and `ref.func`, the instructions whose immediate is a function index. */
  predicate NamesFunction(opcode: Byte) {
    opcode == 0x10 || opcode == 0x12 || opcode == 0xd2
  }

  /** What an instruction contributes to the form: its bytes, or its opcode alone if it names a function. */
  function Shortened(instruction: seq<Byte>): seq<Byte> {
    if instruction != [] && NamesFunction(instruction[0]) then [instruction[0]] else instruction
  }

  function ShortenedAll(instructions: seq<seq<Byte>>): (pieces: seq<seq<Byte>>) {
    seq(|instructions|, i requires 0 <= i < |instructions| => Shortened(instructions[i]))
  }

  /** The immediate-preserving form. */
  function Form(body: Body): seq<Byte> {
    body.locals + Blocks(ShortenedAll(body.instructions))
  }

  /** The same instruction, or two that name a function and begin with one of the three opcodes doing so. */
  predicate SameButFunction(a: seq<Byte>, b: seq<Byte>) {
    a == b || (a != [] && b != [] && a[0] == b[0] && (a[0] == 0x10 || a[0] == 0x12 || a[0] == 0xd2))
  }

  predicate SameButFunctions(a: Body, b: Body) {
    && a.locals == b.locals && |a.instructions| == |b.instructions|
    && forall i :: 0 <= i < |a.instructions| ==> SameButFunction(a.instructions[i], b.instructions[i])
  }

  lemma OneStartsTheOther(a: seq<Byte>, aRest: seq<Byte>, b: seq<Byte>, bRest: seq<Byte>)
    requires a + aRest == b + bRest
    ensures a <= b || b <= a
  {
    if |a| <= |b| {
      assert a == (a + aRest)[..|a|] == b[..|a|];
    } else {
      assert b == (b + bRest)[..|b|] == a[..|b|];
    }
  }

  /** Strings of a prefix-free language can be read back off the front. */
  lemma FrontIsUnique(language: iset<seq<Byte>>, a: seq<Byte>, aRest: seq<Byte>, b: seq<Byte>, bRest: seq<Byte>)
    requires PrefixFree(language) && a in language && b in language && a + aRest == b + bRest
    ensures a == b && aRest == bRest
  {
    OneStartsTheOther(a, aRest, b, bRest);
    assert aRest == (a + aRest)[|a|..];
    assert bRest == (b + bRest)[|b|..];
  }

  ghost predicate AllIn(language: iset<seq<Byte>>, pieces: seq<seq<Byte>>) {
    forall i :: 0 <= i < |pieces| ==> pieces[i] in language
  }

  /** A concatenation of nonempty strings of a prefix-free language has one way to be cut. */
  lemma {:induction false} CutIsUnique(language: iset<seq<Byte>>, a: seq<seq<Byte>>, b: seq<seq<Byte>>)
    requires PrefixFree(language) && [] !in language && AllIn(language, a) && AllIn(language, b)
    requires Blocks(a) == Blocks(b)
    ensures a == b
  {
    if a != [] {
      assert a[0] in language;
    }
    if b != [] {
      assert b[0] in language;
    }
    if a != [] && b != [] {
      FrontIsUnique(language, a[0], Blocks(a[1..]), b[0], Blocks(b[1..]));
      CutIsUnique(language, a[1..], b[1..]);
      assert a == [a[0]] + a[1..] && b == [b[0]] + b[1..];
    }
  }

  /** What instructions can contribute to a form. */
  ghost function Pieces(language: iset<seq<Byte>>): iset<seq<Byte>> {
    iset piece | Contributes(language, piece)
  }

  ghost predicate Contributes(language: iset<seq<Byte>>, piece: seq<Byte>) {
    exists instruction :: instruction in language && piece == Shortened(instruction)
  }

  /** Dropping the indices leaves the contributions as separable as the instructions were. */
  lemma PiecesPrefixFree(language: iset<seq<Byte>>)
    requires PrefixFree(language) && [] !in language
    ensures PrefixFree(Pieces(language)) && [] !in Pieces(language)
  {
    forall a, b | a in Pieces(language) && b in Pieces(language) && a <= b
      ensures a == b
    {
      var x :| x in language && a == Shortened(x);
      var y :| y in language && b == Shortened(y);
      assert a[0] == b[0];
    }
  }

  /**
  Two bodies have one immediate-preserving form exactly when they declare the same
  locals and hold the same instructions, up to the functions they name.
  */
  lemma FormsEqualExactly(format: Format, a: Body, b: Body)
    requires format.Valid() && format.Has(a) && format.Has(b)
    ensures Form(a) == Form(b) <==> SameButFunctions(a, b)
  {
    var aPieces, bPieces := ShortenedAll(a.instructions), ShortenedAll(b.instructions);
    if Form(a) == Form(b) {
      FrontIsUnique(format.locals, a.locals, Blocks(aPieces), b.locals, Blocks(bPieces));
      PiecesPrefixFree(format.instructions);
      CutIsUnique(Pieces(format.instructions), aPieces, bPieces);
      forall i | 0 <= i < |a.instructions|
        ensures SameButFunction(a.instructions[i], b.instructions[i])
      {
        assert aPieces[i] == bPieces[i];
        assert a.instructions[i] in format.instructions && b.instructions[i] in format.instructions;
      }
    }
    if SameButFunctions(a, b) {
      assert aPieces == bPieces;
    }
  }

  /** An operation without its immediates; extended ones are an escape byte and a subopcode. */
  datatype Operation = Single(opcode: Byte) | Extended(escape: Byte, subopcode: nat)
  {
    predicate Valid() {
      match this
      case Single(opcode) => !Escape(opcode)
      case Extended(escape, subopcode) => Escape(escape) && subopcode < U32_LIMIT
    }

    /** What `append_opcode_key` writes for it. */
    function Key(): (key: seq<Byte>) {
      match this
      case Single(opcode) => [opcode]
      case Extended(escape, subopcode) => [escape] + LittleEndian(subopcode, 4)
    }
  }

  predicate Escape(opcode: Byte) {
    0xfb <= opcode <= 0xfe
  }

  /** The operation at a place, if it can be read. */
  function OperationAt(bytes: seq<Byte>, offset: nat): (operation: Option<Operation>)
    ensures operation.Some? ==> operation.value.Valid()
  {
    if offset >= |bytes| then None
    else if !Escape(bytes[offset]) then Some(Single(bytes[offset]))
    else
      var reading := ReadingAt(bytes, offset + 1);
      if reading.Read? then Some(Extended(bytes[offset], reading.value)) else None
  }

  /** An opcode from 0xfb to 0xfe is extended by the value read behind it; any other stands alone. */
  lemma OperationIs(bytes: seq<Byte>, offset: nat)
    ensures offset >= |bytes| ==> OperationAt(bytes, offset) == None
    ensures offset < |bytes| && !(0xfb <= bytes[offset] <= 0xfe) ==>
              OperationAt(bytes, offset) == Some(Single(bytes[offset]))
    ensures offset < |bytes| && 0xfb <= bytes[offset] <= 0xfe ==>
              forall subopcode: nat :: OperationAt(bytes, offset) == Some(Extended(bytes[offset], subopcode)) <==>
                exists next: nat :: Reads(bytes, offset + 1, Read(subopcode, next))
  {
    if offset < |bytes| && 0xfb <= bytes[offset] <= 0xfe {
      var reading := ReadingAt(bytes, offset + 1);
      forall subopcode: nat, next: nat | Reads(bytes, offset + 1, Read(subopcode, next))
        ensures reading == Read(subopcode, next)
      {
        ReadingIsUnique(bytes, offset + 1, Read(subopcode, next));
      }
    }
  }

  function Keys(operations: seq<Operation>): (keys: seq<seq<Byte>>) {
    seq(|operations|, i requires 0 <= i < |operations| => operations[i].Key())
  }

  /** The normalized instructions: every operation's key in order. */
  function KeyStream(operations: seq<Operation>): seq<Byte> {
    Blocks(Keys(operations))
  }

  ghost function KeyLanguage(): iset<seq<Byte>> {
    iset key | IsKey(key)
  }

  ghost predicate IsKey(key: seq<Byte>) {
    exists operation: Operation :: operation.Valid() && key == operation.Key()
  }

  lemma KeyDetermines(a: Operation, b: Operation)
    requires a.Valid() && b.Valid() && a.Key() <= b.Key()
    ensures a == b
  {
    assert a.Key()[0] == b.Key()[0];
    if a.Extended? {
      assert a.Key() == b.Key();
      assert a.Key()[1..] == LittleEndian(a.subopcode, 4);
      assert b.Key()[1..] == LittleEndian(b.subopcode, 4);
      LittleEndianReadsBack(a.subopcode, 4);
      LittleEndianReadsBack(b.subopcode, 4);
    }
  }

  lemma KeysPrefixFree()
    ensures PrefixFree(KeyLanguage()) && [] !in KeyLanguage()
  {
    forall x, y | x in KeyLanguage() && y in KeyLanguage() && x <= y
      ensures x == y
    {
      var a: Operation :| a.Valid() && x == a.Key();
      var b: Operation :| b.Valid() && y == b.Key();
      KeyDetermines(a, b);
    }
  }

  ghost predicate AllValid(operations: seq<Operation>) {
    forall i :: 0 <= i < |operations| ==> operations[i].Valid()
  }

  /** The stream of opcode keys determines the operations: it can be decoded in one way. */
  lemma KeyStreamsEqualExactly(a: seq<Operation>, b: seq<Operation>)
    requires AllValid(a) && AllValid(b)
    ensures KeyStream(a) == KeyStream(b) <==> a == b
  {
    if KeyStream(a) == KeyStream(b) {
      KeysPrefixFree();
      CutIsUnique(KeyLanguage(), Keys(a), Keys(b));
      forall i | 0 <= i < |a|
        ensures a[i] == b[i]
      {
        assert Keys(a)[i] == Keys(b)[i];
        KeyDetermines(a[i], b[i]);
      }
    }
  }
}
