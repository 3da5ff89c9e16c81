/** Fixed-width integers and length-prefixed fields, as they are appended to a hash payload. */
module Bytes {
  type Byte = n: nat | n < 256

  const U64_MAX: nat := 0xffff_ffff_ffff_ffff

  /** One past the largest value `width` bytes can hold. */
  function Limit(width: nat): (limit: nat) {
    if width == 0 then 1 else 256 * Limit(width - 1)
  }

  /** `to_le_bytes`: least significant byte first. */
  function LittleEndian(n: nat, width: nat): (bytes: seq<Byte>)
    ensures |bytes| == width
  {
    if width == 0 then [] else [n % 256] + LittleEndian(n / 256, width - 1)
  }

  /** The value whose little-endian bytes these are. */
  function FromLittleEndian(bytes: seq<Byte>): nat {
    if bytes == [] then 0 else bytes[0] + 256 * FromLittleEndian(bytes[1..])
  }

  lemma {:induction false} LittleEndianReadsBack(n: nat, width: nat)
    requires n < Limit(width)
    ensures FromLittleEndian(LittleEndian(n, width)) == n
  {
    if width == 0 {
    } else {
      LittleEndianReadsBack(n / 256, width - 1);
      assert LittleEndian(n, width)[1..] == LittleEndian(n / 256, width - 1);
    }
  }

  /** A value's bytes, most significant first, the order fingerprints compare in. */
  function BigEndian(n: nat, width: nat): (bytes: seq<Byte>)
    ensures |bytes| == width
  {
    if width == 0 then [] else BigEndian(n / 256, width - 1) + [n % 256]
  }

  function FromBigEndian(bytes: seq<Byte>): nat {
    if bytes == [] then 0 else 256 * FromBigEndian(bytes[..|bytes| - 1]) + bytes[|bytes| - 1]
  }

  lemma {:induction false} BigEndianReadsBack(n: nat, width: nat)
    requires n < Limit(width)
    ensures FromBigEndian(BigEndian(n, width)) == n
  {
    if width == 0 {
    } else {
      BigEndianReadsBack(n / 256, width - 1);
      assert BigEndian(n, width)[..width - 1] == BigEndian(n / 256, width - 1);
    }
  }

  function U64(n: nat): (bytes: seq<Byte>) {
    LittleEndian(n, 8)
  }

  lemma U64Injective(n: nat, m: nat)
    requires n <= U64_MAX && m <= U64_MAX && U64(n) == U64(m)
    ensures n == m
  {
    LittleEndianReadsBack(n, 8);
    LittleEndianReadsBack(m, 8);
  }

  /** `field`: a length in front of the bytes it counts. */
  function Field(bytes: seq<Byte>): seq<Byte> {
    U64(|bytes|) + bytes
  }

  /** Equal concatenations with equal first lengths are equal part by part. */
  lemma Cancel<T>(a: seq<T>, b: seq<T>, c: seq<T>, d: seq<T>)
    requires a + b == c + d && |a| == |c|
    ensures a == c && b == d
  {
    assert a == (a + b)[..|a|] && b == (a + b)[|a|..];
    assert c == (c + d)[..|c|] && d == (c + d)[|c|..];
  }

  lemma Regroup<T>(a: seq<T>, b: seq<T>, c: seq<T>, d: seq<T>)
    ensures a + b + c + d == a + (b + (c + d))
  {
  }

  /** A count in front of some bytes reads back, whatever follows them. */
  lemma CountInjective(n: nat, x: seq<Byte>, rest: seq<Byte>, m: nat, y: seq<Byte>, other: seq<Byte>)
    requires n <= U64_MAX && m <= U64_MAX
    requires U64(n) + x + rest == U64(m) + y + other
    ensures n == m && x + rest == y + other
  {
    assert U64(n) + x + rest == U64(n) + (x + rest);
    assert U64(m) + y + other == U64(m) + (y + other);
    Cancel(U64(n), x + rest, U64(m), y + other);
    U64Injective(n, m);
  }

  /** A field ends where it says, whatever follows it. */
  lemma FieldInjective(a: seq<Byte>, rest: seq<Byte>, b: seq<Byte>, other: seq<Byte>)
    requires |a| <= U64_MAX && |b| <= U64_MAX
    requires Field(a) + rest == Field(b) + other
    ensures a == b && rest == other
  {
    assert Field(a) + rest == U64(|a|) + (a + rest);
    assert Field(b) + other == U64(|b|) + (b + other);
    Cancel(U64(|a|), a + rest, U64(|b|), b + other);
    U64Injective(|a|, |b|);
    Cancel(a, rest, b, other);
  }

  /** Fields in a row. */
  function Fields(list: seq<seq<Byte>>): seq<Byte> {
    if list == [] then [] else Field(list[0]) + Fields(list[1..])
  }

  lemma FieldThenMore(a: seq<Byte>, x: seq<Byte>, rest: seq<Byte>, b: seq<Byte>, y: seq<Byte>, other: seq<Byte>)
    requires |a| <= U64_MAX && |b| <= U64_MAX
    requires Field(a) + x + rest == Field(b) + y + other
    ensures a == b && x + rest == y + other
  {
    assert Field(a) + x + rest == Field(a) + (x + rest);
    assert Field(b) + y + other == Field(b) + (y + other);
    FieldInjective(a, x + rest, b, y + other);
  }

  lemma {:induction false} FieldsInjective(a: seq<seq<Byte>>, rest: seq<Byte>, b: seq<seq<Byte>>, other: seq<Byte>)
    requires |a| == |b| && Fields(a) + rest == Fields(b) + other
    requires forall i :: 0 <= i < |a| ==> |a[i]| <= U64_MAX && |b[i]| <= U64_MAX
    ensures a == b && rest == other
  {
    if a == [] {
      assert Fields(a) + rest == rest && Fields(b) + other == other;
    } else {
      FieldThenMore(a[0], Fields(a[1..]), rest, b[0], Fields(b[1..]), other);
      FieldsInjective(a[1..], rest, b[1..], other);
      assert a == [a[0]] + a[1..] && b == [b[0]] + b[1..];
    }
  }

  /** Blocks in a row, with nothing between them. */
  function Blocks(list: seq<seq<Byte>>): seq<Byte> {
    if list == [] then [] else list[0] + Blocks(list[1..])
  }

  /** As many blocks of one width read back, whatever follows them. */
  lemma {:induction false} BlocksInjective(a: seq<seq<Byte>>, rest: seq<Byte>, b: seq<seq<Byte>>, other: seq<Byte>,
                                           width: nat)
    requires |a| == |b| && Blocks(a) + rest == Blocks(b) + other
    requires forall i :: 0 <= i < |a| ==> |a[i]| == width && |b[i]| == width
    ensures a == b && rest == other
  {
    if a == [] {
      assert Blocks(a) + rest == rest && Blocks(b) + other == other;
    } else {
      assert Blocks(a) + rest == a[0] + (Blocks(a[1..]) + rest);
      assert Blocks(b) + other == b[0] + (Blocks(b[1..]) + other);
      Cancel(a[0], Blocks(a[1..]) + rest, b[0], Blocks(b[1..]) + other);
      BlocksInjective(a[1..], rest, b[1..], other, width);
      assert a == [a[0]] + a[1..] && b == [b[0]] + b[1..];
    }
  }

  lemma {:induction false} BlocksAppend(list: seq<seq<Byte>>, block: seq<Byte>)
    ensures Blocks(list + [block]) == Blocks(list) + block
  {
    if list == [] {
      assert list + [block] == [block] && [block][1..] == [];
    } else {
      assert (list + [block])[1..] == list[1..] + [block];
      BlocksAppend(list[1..], block);
    }
  }
}
