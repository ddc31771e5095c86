/** The byte packing the codec does with Python's `struct` module: unsigned
    little-endian fields of 1, 2 and 4 bytes. */
module LittleEndian {
  /** One unsigned byte, as `struct` packs with the codes `B` and `c`. */
  type Byte = x: int | 0 <= x < 0x100

  /** The values `struct.pack` accepts for the code `H`. */
  predicate IsU16(v: int) { 0 <= v < 0x1_0000 }

  /** The values `struct.pack` accepts for the code `I`. */
  predicate IsU32(v: int) { 0 <= v < 0x1_0000_0000 }

  /** `unpack('<H', buf[pos:pos+2])`. */
  function U16At(buf: seq<Byte>, pos: nat): (v: int)
    requires pos + 2 <= |buf|
    ensures IsU16(v)
  {
    buf[pos] as int + 0x100 * buf[pos + 1] as int
  }

  /** `unpack('<I', buf[pos:pos+4])`: the low half first. */
  function U32At(buf: seq<Byte>, pos: nat): (v: int)
    requires pos + 4 <= |buf|
    ensures IsU32(v)
  {
    U16At(buf, pos) + 0x1_0000 * U16At(buf, pos + 2)
  }

  /** `pack('<H', v)`; reading the two bytes back gives `v`. */
  function PackU16(v: int): (r: seq<Byte>)
    requires IsU16(v)
    ensures |r| == 2 && U16At(r, 0) == v
  {
    [v % 0x100, v / 0x100]
  }

  /** `pack('<I', v)`; reading the four bytes back gives `v`. */
  function PackU32(v: int): (r: seq<Byte>)
    requires IsU32(v)
    ensures |r| == 4 && U32At(r, 0) == v
  {
    var lo, hi := PackU16(v % 0x1_0000), PackU16(v / 0x1_0000);
    assert (lo + hi)[..2] == lo && (lo + hi)[2..] == hi;
    lo + hi
  }

  /** The other direction of the round trip: packing what was unpacked gives back the bytes. */
  lemma UnpackThenPack(buf: seq<Byte>, pos: nat)
    requires pos + 4 <= |buf|
    ensures PackU32(U32At(buf, pos)) == buf[pos..pos + 4]
  {
    var lo, hi := U16At(buf, pos), U16At(buf, pos + 2);
    assert (lo + 0x1_0000 * hi) % 0x1_0000 == lo && (lo + 0x1_0000 * hi) / 0x1_0000 == hi;
  }

  /** The 16-bit counterpart of UnpackThenPack. */
  lemma UnpackThenPack16(buf: seq<Byte>, pos: nat)
    requires pos + 2 <= |buf|
    ensures PackU16(U16At(buf, pos)) == buf[pos..pos + 2]
  {
  }

  /** Fields read inside a prefix do not see what follows it. */
  lemma FieldsInPrefix(a: seq<Byte>, b: seq<Byte>, pos: nat)
    requires pos + 4 <= |a|
    ensures U32At(a + b, pos) == U32At(a, pos) && U16At(a + b, pos) == U16At(a, pos)
  {
  }
}
