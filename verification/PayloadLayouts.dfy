/** The payloads byte by byte: which field stands where, and how lengths, counts and flags are spelled. */
module PayloadLayouts {
  import opened Bytes
  import opened Fingerprints
  import opened Payload
  import opened Wrappers

  /** A number below 256 in eight bytes, least significant first. */
  function Small(n: Byte): seq<Byte> {
    [n, 0, 0, 0, 0, 0, 0, 0]
  }

  lemma {:induction false} ZeroBytes(width: nat)
    ensures forall i :: 0 <= i < width ==> LittleEndian(0, width)[i] == 0
  {
    if width == 0 {
    } else {
      ZeroBytes(width - 1);
    }
  }

  lemma SmallIs(n: Byte)
    ensures U64(n) == Small(n)
  {
    ZeroBytes(7);
    assert U64(n) == [n] + LittleEndian(0, 7);
  }

  /** The eight bytes of a number, one by one. */
  lemma U64Is(n: nat)
    requires n <= 0xffff_ffff_ffff_ffff
    ensures |U64(n)| == 8 && FromLittleEndian(U64(n)) == n
  {
    assert Limit(4) == 256 * (256 * (256 * (256 * Limit(0))));
    assert Limit(8) == 256 * (256 * (256 * (256 * Limit(4))));
    LittleEndianReadsBack(n, 8);
  }

  lemma DigestIs(d: Digest)
    ensures |DigestBytes(d)| == 16 && FromBigEndian(DigestBytes(d)) == d
  {
    assert Limit(4) == 256 * (256 * (256 * (256 * Limit(0))));
    assert Limit(8) == 256 * (256 * (256 * (256 * Limit(4))));
    assert Limit(12) == 256 * (256 * (256 * (256 * Limit(8))));
    assert Limit(16) == 256 * (256 * (256 * (256 * Limit(12))));
    BigEndianReadsBack(d, 16);
  }

  lemma DigestField(d: Digest)
    ensures Field(DigestBytes(d)) == Small(16) + DigestBytes(d)
  {
    SmallIs(16);
  }

  /** A copy's first payload: content, a reachability byte, the size, and the body or an empty field. */
  lemma InitialLayout(content: Digest, rooted: bool, size: nat, body: Option<Digest>)
    ensures InitialPayload(content, rooted, size, body)
         == (Small(16) + DigestBytes(content))
            + ((Small(1) + [if rooted then 1 else 0])
            + ((Small(8) + U64(size))
            + (if body.Some? then Small(16) + DigestBytes(body.value) else Small(0))))
  {
    DigestField(content);
    FlagField(rooted);
    NumberField(size);
    SmallIs(0);
    if body.Some? {
      DigestField(body.value);
    } else {
      assert Field([]) == Small(0);
    }
  }

  lemma FlagField(raised: bool)
    ensures Field(Flag(raised)) == Small(1) + [if raised then 1 else 0]
  {
    SmallIs(1);
  }

  lemma NumberField(n: nat)
    ensures Field(U64(n)) == Small(8) + U64(n)
  {
    SmallIs(8);
  }

  /** The payload of a copy's fingerprint: content, colour, a byte for whether a number follows, the number. */
  lemma CopyLayout(content: Digest, colour: Digest, number: Option<nat>)
    ensures CopyPayload(content, colour, number)
         == (Small(16) + DigestBytes(content))
            + ((Small(16) + DigestBytes(colour))
            + ((Small(1) + [if number.Some? then 1 else 0])
            + (if number.Some? then Small(8) + U64(number.value) else [])))
  {
    DigestField(content);
    DigestField(colour);
    FlagField(number.Some?);
    if number.Some? {
      NumberField(number.value);
    }
  }

  lemma NoKeys(counts: multiset<Digest>)
    requires counts == multiset{}
    ensures Keys(counts) == []
  {
    AscendingUnique(Keys(counts), []);
  }

  lemma OneKey(counts: multiset<Digest>, d: Digest)
    requires forall e: Digest :: e in counts <==> e == d
    ensures Keys(counts) == [d]
  {
    AscendingUnique(Keys(counts), [d]);
  }

  /** No neighbour: a list of length nought. */
  lemma NoNeighbours()
    ensures NeighbourBytes(multiset{}) == Small(0)
  {
    NoKeys(multiset{});
    SmallIs(0);
  }

  lemma OneBlock(block: seq<Byte>)
    ensures Blocks([block]) == block
  {
    assert [block][1..] == [];
    assert Blocks([block]) == block + Blocks([]);
  }

  lemma OneEntry(d: Digest, counts: multiset<Digest>, counted: bool)
    ensures Blocks(Entries([d], counts, counted)) == EntryBytes(d, counts[d], counted)
  {
    OneBlock(EntryBytes(d, counts[d], counted));
    assert Entries([d], counts, counted) == [EntryBytes(d, counts[d], counted)];
  }

  /** One neighbour: a plain list of one colour. */
  lemma OneNeighbour(d: Digest)
    ensures NeighbourBytes(multiset{d}) == Small(1) + DigestBytes(d)
  {
    var counts := multiset{d};
    OneKey(counts, d);
    SmallIs(1);
    OneEntry(d, counts, false);
    assert EntryBytes(d, counts[d], false) == DigestBytes(d);
    assert !Repeats(counts);
  }

  /** Two neighbours of one colour: the mark of eight full bytes, one colour, and its count. */
  lemma TwoOfOneColour(d: Digest)
    ensures NeighbourBytes(multiset{d, d})
         == [255, 255, 255, 255, 255, 255, 255, 255] + (Small(1) + (DigestBytes(d) + Small(2)))
  {
    var counts := multiset{d, d};
    assert counts[d] == 2;
    OneKey(counts, d);
    SmallIs(1);
    SmallIs(2);
    MarkIs();
    OneEntry(d, counts, true);
    assert Repeats(counts);
  }

  function Ones(width: nat): (bytes: seq<Byte>) {
    if width == 0 then [] else [255] + Ones(width - 1)
  }

  lemma {:induction false} OnesIs(width: nat)
    ensures Limit(width) > 0 && LittleEndian(Limit(width) - 1, width) == Ones(width)
  {
    if width == 0 {
    } else {
      OnesIs(width - 1);
      OneLess(Limit(width - 1));
    }
  }

  lemma OneLess(limit: nat)
    requires limit > 0
    ensures (256 * limit - 1) % 256 == 255 && (256 * limit - 1) / 256 == limit - 1
  {
    assert 256 * limit - 1 == 256 * (limit - 1) + 255;
  }

  lemma EightOnes()
    ensures Ones(8) == [255, 255, 255, 255, 255, 255, 255, 255]
  {
    assert Ones(4) == [255] + ([255] + ([255] + ([255] + Ones(0))));
    assert Ones(8) == [255] + ([255] + ([255] + ([255] + Ones(4))));
  }

  lemma LimitOfEight()
    ensures Limit(8) == 0x1_0000_0000_0000_0000
  {
    assert Limit(4) == 256 * (256 * (256 * (256 * Limit(0))));
    assert Limit(8) == 256 * (256 * (256 * (256 * Limit(4))));
  }

  lemma MarkIs()
    ensures U64(COUNTED_NEIGHBOURS) == [255, 255, 255, 255, 255, 255, 255, 255]
  {
    EightOnes();
    LimitOfEight();
    MarkFrom(8, COUNTED_NEIGHBOURS);
  }

  lemma MarkFrom(width: nat, mark: nat)
    requires mark == Limit(width) - 1
    ensures LittleEndian(mark, width) == Ones(width)
  {
    OnesIs(width);
  }

  /** A round's payload: the own colour, the callers, the callees, and the number of reasons behind them. */
  lemma RoundLayout(own: Digest, caller: Digest, callee: Digest)
    ensures RoundPayload(own, multiset{caller}, multiset{callee, callee}, {})
         == (Small(16) + DigestBytes(own))
            + ((Small(1) + DigestBytes(caller))
            + (([255, 255, 255, 255, 255, 255, 255, 255] + (Small(1) + (DigestBytes(callee) + Small(2))))
            + Small(0)))
  {
    DigestField(own);
    OneNeighbour(caller);
    TwoOfOneColour(callee);
    NoReasons();
  }

  lemma NoReasons()
    ensures ReasonBytes({}) == Small(0)
  {
    assert Listed({}, 4) == [];
    SmallIs(0);
  }

  /** The reasons stand in the order of their spellings, each behind its length. */
  lemma ReasonsLayout()
    ensures ReasonBytes({IndirectTable, ExternalImport, NativeIndirect, MissingRelocation})
         == Small(4) + (Field(Ascii("external-import")) + (Field(Ascii("indirect-table"))
            + (Field(Ascii("missing-relocation")) + Field(Ascii("native-indirect")))))
  {
    AllListed();
    FourFields(Ascii("external-import"), Ascii("indirect-table"), Ascii("missing-relocation"),
               Ascii("native-indirect"));
    AllSpelled();
    SmallIs(4);
  }

  lemma AllListed()
    ensures Listed({IndirectTable, ExternalImport, NativeIndirect, MissingRelocation}, 4)
         == [ExternalImport, IndirectTable, MissingRelocation, NativeIndirect]
  {
    var all := {IndirectTable, ExternalImport, NativeIndirect, MissingRelocation};
    assert Listed(all, 1) == [ExternalImport];
    assert Listed(all, 2) == [ExternalImport, IndirectTable];
    assert Listed(all, 3) == [ExternalImport, IndirectTable, MissingRelocation];
  }

  lemma AllSpelled()
    ensures Spelled([ExternalImport, IndirectTable, MissingRelocation, NativeIndirect])
         == [Ascii("external-import"), Ascii("indirect-table"), Ascii("missing-relocation"), Ascii("native-indirect")]
  {
  }

  lemma FourFields(a: seq<Byte>, b: seq<Byte>, c: seq<Byte>, d: seq<Byte>)
    ensures Fields([a, b, c, d]) == Field(a) + (Field(b) + (Field(c) + Field(d)))
  {
    assert [a, b, c, d][1..] == [b, c, d] && [b, c, d][1..] == [c, d] && [c, d][1..] == [d] && [d][1..] == [];
    assert Fields([d]) == Field(d) + Fields([]);
    assert Fields([c, d]) == Field(c) + Fields([d]);
    assert Fields([b, c, d]) == Field(b) + Fields([c, d]);
  }
}
