/** Bounds-checked big-endian reads over an immutable byte sequence.
    A read past the end of the buffer is `None`, the way `DataView.getUint8`,
    `getUint16(_, false)` and `getUint32(_, false)` throw a RangeError. */
module Bytes {
  import opened Wrappers

  type Byte = b: int | 0 <= b < 256

  const U16_LIMIT: nat := 0x1_0000
  const U32_LIMIT: nat := 0x1_0000_0000

  /** Big-endian value of two bytes. */
  function Be16(hi: Byte, lo: Byte): nat {
    hi * 256 + lo
  }

  /** Big-endian value of four bytes. */
  function Be32(b0: Byte, b1: Byte, b2: Byte, b3: Byte): nat {
    Be16(b0, b1) * U16_LIMIT + Be16(b2, b3)
  }

  function ReadU8(s: seq<Byte>, off: nat): (r: Option<Byte>)
    ensures r.Some? <==> off < |s|
    ensures r.Some? ==> r.value == s[off]
  {
    if off < |s| then Some(s[off]) else None
  }

  function ReadU16(s: seq<Byte>, off: nat): (r: Option<nat>)
    ensures r.Some? <==> off + 2 <= |s|
    ensures r.Some? ==> r.value < U16_LIMIT
  {
    if off + 2 <= |s| then Some(Be16(s[off], s[off + 1])) else None
  }

  function ReadU32(s: seq<Byte>, off: nat): (r: Option<nat>)
    ensures r.Some? <==> off + 4 <= |s|
    ensures r.Some? ==> r.value < U32_LIMIT
  {
    if off + 4 <= |s| then Some(Be32(s[off], s[off + 1], s[off + 2], s[off + 3])) else None
  }

  /** The two bytes a big-endian writer produces for `v`. */
  function EncodeU16(v: nat): (s: seq<Byte>)
    requires v < U16_LIMIT
    ensures |s| == 2
  {
    [v / 256, v % 256]
  }

  /** The four bytes a big-endian writer produces for `v`. */
  function EncodeU32(v: nat): (s: seq<Byte>)
    requires v < U32_LIMIT
    ensures |s| == 4
  {
    EncodeU16(v / U16_LIMIT) + EncodeU16(v % U16_LIMIT)
  }

  /** Reading back what was written yields the value. */
  lemma ReadU16OfEncode(v: nat, prefix: seq<Byte>, suffix: seq<Byte>)
    requires v < U16_LIMIT
    ensures ReadU16(prefix + EncodeU16(v) + suffix, |prefix|) == Some(v)
  {
    var s := prefix + EncodeU16(v) + suffix;
    assert s[|prefix|] == v / 256 && s[|prefix| + 1] == v % 256;
  }

  /** A successful read determines the bytes it read: the encoding of the
      value read is exactly the slice read. */
  lemma EncodeOfReadU16(s: seq<Byte>, off: nat)
    requires off + 2 <= |s|
    ensures EncodeU16(ReadU16(s, off).value) == s[off..off + 2]
  {
  }

  lemma ReadU32OfEncode(v: nat, prefix: seq<Byte>, suffix: seq<Byte>)
    requires v < U32_LIMIT
    ensures ReadU32(prefix + EncodeU32(v) + suffix, |prefix|) == Some(v)
  {
    var s := prefix + EncodeU32(v) + suffix;
    var hi, lo := v / U16_LIMIT, v % U16_LIMIT;
    assert s[|prefix|..|prefix| + 4] == EncodeU16(hi) + EncodeU16(lo);
    assert s[|prefix|] == hi / 256 && s[|prefix| + 1] == hi % 256;
    assert s[|prefix| + 2] == lo / 256 && s[|prefix| + 3] == lo % 256;
  }

  lemma EncodeOfReadU32(s: seq<Byte>, off: nat)
    requires off + 4 <= |s|
    ensures EncodeU32(ReadU32(s, off).value) == s[off..off + 4]
  {
    var hi := Be16(s[off], s[off + 1]);
    var lo := Be16(s[off + 2], s[off + 3]);
    assert ReadU32(s, off).value == hi * U16_LIMIT + lo;
    assert (hi * U16_LIMIT + lo) / U16_LIMIT == hi;
    assert (hi * U16_LIMIT + lo) % U16_LIMIT == lo;
  }

  /** The four encoded bytes, read back as a big-endian value, give `v`. */
  lemma Be32OfEncode(v: nat)
    requires v < U32_LIMIT
    ensures Be32(EncodeU32(v)[0], EncodeU32(v)[1], EncodeU32(v)[2], EncodeU32(v)[3]) == v
  {
    var hi, lo := v / U16_LIMIT, v % U16_LIMIT;
    assert EncodeU32(v) == [hi / 256, hi % 256, lo / 256, lo % 256];
  }

  /** Comparing a 32-bit read with a constant is comparing four bytes. */
  lemma ReadU32Matches(s: seq<Byte>, off: nat, k: nat)
    requires off + 4 <= |s| && k < U32_LIMIT
    ensures ReadU32(s, off) == Some(k) <==> s[off..off + 4] == EncodeU32(k)
  {
    EncodeOfReadU32(s, off);
    var e := EncodeU32(k);
    if s[off..off + 4] == e {
      assert s[off] == e[0] && s[off + 1] == e[1] && s[off + 2] == e[2] && s[off + 3] == e[3];
      Be32OfEncode(k);
    }
  }
}
