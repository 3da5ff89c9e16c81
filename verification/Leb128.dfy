/** Unsigned LEB128 values of at most 32 bits, as the WebAssembly backend reads extended subopcodes. */
module Leb128 {
  import opened Bytes
  import opened Wrappers

  const U32_LIMIT: nat := 0x1_0000_0000

  /** What stops a read: the bytes run out, or five bytes all announce another. */
  datatype Reading = Read(value: nat, next: nat) | Truncated | TooLong

  /** The value of the seven-bit groups, least significant first. */
  function Groups(bytes: seq<Byte>): nat {
    if bytes == [] then 0 else bytes[0] % 128 + 128 * Groups(bytes[1..])
  }

  /** One LEB128 encoding: every byte but the last announces another. */
  ghost predicate Encodes(bytes: seq<Byte>) {
    && bytes != [] && bytes[|bytes| - 1] < 128
    && forall i :: 0 <= i < |bytes| - 1 ==> bytes[i] >= 128
  }

  function Canonical(n: nat): (bytes: seq<Byte>) {
    if n < 128 then [n] else [n % 128 + 128] + Canonical(n / 128)
  }

  function Power(k: nat): (power: nat) {
    if k == 0 then 1 else 128 * Power(k - 1)
  }

  lemma Powers()
    ensures Power(0) == 1 && Power(1) == 128 && Power(2) == 0x4000 && Power(3) == 0x20_0000 && Power(4) == 0x1000_0000
  {
    assert Power(2) == 128 * Power(1);
    assert Power(3) == 128 * Power(2);
    assert Power(4) == 128 * Power(3);
  }

  /** `reading` is what reading an unsigned value of at most five bytes at `start` should give. */
  ghost predicate Reads(bytes: seq<Byte>, start: nat, reading: Reading) {
    match reading
    case Read(value, next) =>
      && start < next <= |bytes| && next <= start + 5
      && Encodes(bytes[start..next]) && value == Groups(bytes[start..next]) % U32_LIMIT
    case Truncated =>
      |bytes| < start + 5 && forall i :: start <= i < |bytes| ==> bytes[i] >= 128
    case TooLong =>
      start + 5 <= |bytes| && forall i :: start <= i < start + 5 ==> bytes[i] >= 128
  }

  /** Where the encoding at `start` ends, looking at no more than `left` bytes. */
  function Ending(bytes: seq<Byte>, start: nat, left: nat): (next: Option<nat>)
    ensures next.Some? ==>
              && start < next.value <= |bytes| && next.value <= start + left
              && Encodes(bytes[start..next.value])
    ensures next.None? ==> forall i :: start <= i < |bytes| && i < start + left ==> bytes[i] >= 128
    decreases left
  {
    if left == 0 || start >= |bytes| then None
    else if bytes[start] < 128 then Some(start + 1)
    else Ending(bytes, start + 1, left - 1)
  }

  /** `unsigned_leb` as a function of the bytes. */
  function ReadingAt(bytes: seq<Byte>, start: nat): (reading: Reading)
    ensures Reads(bytes, start, reading)
  {
    var next := Ending(bytes, start, 5);
    if next.Some? then Read(Groups(bytes[start..next.value]) % U32_LIMIT, next.value)
    else if |bytes| < start + 5 then Truncated
    else TooLong
  }

  /** Where an encoding ends: at its first byte that announces no other. */
  lemma EncodingEnds(bytes: seq<Byte>, start: nat, next: nat)
    requires start < next <= |bytes| && Encodes(bytes[start..next])
    ensures bytes[next - 1] < 128
    ensures forall i :: start <= i < next - 1 ==> bytes[i] >= 128
  {
    var encoding := bytes[start..next];
    assert encoding[|encoding| - 1] == bytes[next - 1];
    assert forall i :: start <= i < next - 1 ==> bytes[i] == encoding[i - start];
  }

  /** The bytes at a place allow one reading. */
  lemma ReadingIsUnique(bytes: seq<Byte>, start: nat, reading: Reading)
    requires Reads(bytes, start, reading)
    ensures reading == ReadingAt(bytes, start)
  {
    var other := ReadingAt(bytes, start);
    if reading.Read? {
      EncodingEnds(bytes, start, reading.next);
    }
    if other.Read? {
      EncodingEnds(bytes, start, other.next);
    }
  }

  /** Any encoding of a 32-bit value in at most five bytes, shortest or padded, reads back. */
  lemma EncodingReadsBack(bytes: seq<Byte>, start: nat, encoding: seq<Byte>)
    requires Encodes(encoding) && |encoding| <= 5 && Groups(encoding) < U32_LIMIT
    requires start + |encoding| <= |bytes| && bytes[start..start + |encoding|] == encoding
    ensures ReadingAt(bytes, start) == Read(Groups(encoding), start + |encoding|)
  {
    ReadingIsUnique(bytes, start, Read(Groups(encoding), start + |encoding|));
  }

  lemma {:induction false} CanonicalEncodes(n: nat, limit: nat)
    requires n < Power(limit) && limit > 0
    ensures Encodes(Canonical(n)) && Groups(Canonical(n)) == n && |Canonical(n)| <= limit
  {
    var bytes := Canonical(n);
    if n >= 128 {
      assert limit > 1;
      CanonicalEncodes(n / 128, limit - 1);
      assert bytes[1..] == Canonical(n / 128);
      assert forall i :: 0 < i < |bytes| ==> bytes[i] == bytes[1..][i - 1];
    }
  }

  /** Every 32-bit value reads back from its shortest encoding, wherever it stands. */
  lemma CanonicalReadsBack(before: seq<Byte>, n: nat, after: seq<Byte>)
    requires n < 0x1_0000_0000
    ensures ReadingAt(before + Canonical(n) + after, |before|) == Read(n, |before| + |Canonical(n)|)
  {
    Powers();
    assert Power(5) == 128 * Power(4);
    CanonicalEncodes(n, 5);
    var bytes := before + Canonical(n) + after;
    assert bytes[|before|..|before| + |Canonical(n)|] == Canonical(n);
    EncodingReadsBack(bytes, |before|, Canonical(n));
  }

  lemma {:induction false} GroupsExtend(bytes: seq<Byte>, byte: Byte)
    ensures Groups(bytes + [byte]) == Groups(bytes) + byte % 128 * Power(|bytes|)
    ensures Groups(bytes) < Power(|bytes|)
  {
    if bytes == [] {
      assert [byte][1..] == [];
    } else {
      GroupsExtend(bytes[1..], byte);
      assert (bytes + [byte])[1..] == bytes[1..] + [byte];
      Distribute(bytes[0] % 128, Groups(bytes[1..]), byte % 128, Power(|bytes| - 1));
    }
  }

  lemma Distribute(head: nat, tail: nat, group: nat, power: nat)
    ensures head + 128 * (tail + group * power) == head + 128 * tail + group * (128 * power)
  {
  }

  /** The bits one more group sets are clear in what was read, so setting them adds them; bits past 32 are lost. */
  lemma GroupFits(read: nat, group: nat, k: nat, power: nat)
    requires k < 5 && power == Power(k) && read < power && group < 128
    ensures read % U32_LIMIT == read
    ensures (read + group * power) % U32_LIMIT == read + group * power % U32_LIMIT
  {
    Powers();
    if k < 4 {
      assert power <= 0x20_0000;
    }
  }

  lemma OneMoreGroup(bytes: seq<Byte>, start: nat, shift: nat)
    requires start + shift < |bytes| && shift < 5
    ensures Groups(bytes[start..start + shift + 1]) % U32_LIMIT
         == Groups(bytes[start..start + shift]) % U32_LIMIT + bytes[start + shift] % 128 * Power(shift) % U32_LIMIT
  {
    var read, byte := bytes[start..start + shift], bytes[start + shift];
    assert bytes[start..start + shift + 1] == read + [byte];
    GroupsExtend(read, byte);
    GroupFits(Groups(read), byte % 128, shift, Power(shift));
  }

  ghost predicate AllContinue(bytes: seq<Byte>, start: nat, end: nat) {
    forall i :: start <= i < end && i < |bytes| ==> bytes[i] >= 128
  }

  lemma ReadingEnds(bytes: seq<Byte>, start: nat, last: nat)
    requires start <= last < |bytes| && last < start + 5 && bytes[last] < 128 && AllContinue(bytes, start, last)
    ensures ReadingAt(bytes, start) == Read(Groups(bytes[start..last + 1]) % U32_LIMIT, last + 1)
  {
    ReadingIsUnique(bytes, start, Read(Groups(bytes[start..last + 1]) % U32_LIMIT, last + 1));
  }

  /** `unsigned_leb`. */
  method UnsignedLeb(bytes: seq<Byte>, start: nat) returns (reading: Reading)
    ensures reading == ReadingAt(bytes, start)
  {
    var value := 0;
    for shift := 0 to 5
      invariant start + shift <= |bytes| || shift == 0
      invariant start <= |bytes| ==> value == Groups(bytes[start..start + shift]) % U32_LIMIT
      invariant AllContinue(bytes, start, start + shift)
    {
      var index := start + shift;
      if index >= |bytes| {
        ReadingIsUnique(bytes, start, Truncated);
        return Truncated;
      }
      var byte := bytes[index];
      OneMoreGroup(bytes, start, shift);
      value := value + byte % 128 * Power(shift) % U32_LIMIT;
      if byte < 128 {
        ReadingEnds(bytes, start, index);
        return Read(value, index + 1);
      }
    }
    ReadingIsUnique(bytes, start, TooLong);
    return TooLong;
  }
}
