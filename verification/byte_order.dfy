/** Big-endian reading of unsigned 32-bit integers, as the `byteorder`
    crate's `read_u32::<BigEndian>` does, with the inverse writer used to
    state round trips. */
module ByteOrder {

  import DivMod

  const U32_LIMIT: nat := 0x1_0000_0000

  type U32 = x: nat | x < U32_LIMIT

  /** An unsigned byte. */
  type Byte = x: nat | x < 0x100

  /** The value of four bytes read most-significant first. */
  function BigEndianU32(b: seq<Byte>): (v: U32)
    requires |b| == 4
  {
    var b0: nat, b1: nat, b2: nat, b3: nat := b[0], b[1], b[2], b[3];
    b0 * 0x100_0000 + b1 * 0x1_0000 + b2 * 0x100 + b3
  }

  /** The four bytes of `v`, most-significant first. */
  function EncodeU32(v: U32): (b: seq<Byte>)
    ensures |b| == 4
  {
    [v / 0x100 / 0x100 / 0x100, v / 0x100 / 0x100 % 0x100, v / 0x100 % 0x100, v % 0x100]
  }

  /** Writing a value big-endian and reading it back yields the value. */
  lemma DecodeEncode(v: U32)
    ensures BigEndianU32(EncodeU32(v)) == v
  {
  }

  /** Reading four bytes big-endian and writing the value back yields the bytes. */
  lemma EncodeDecode(b: seq<Byte>)
    requires |b| == 4
    ensures EncodeU32(BigEndianU32(b)) == b
  {
    var v := BigEndianU32(b);
    var b0: nat, b1: nat, b2: nat, b3: nat := b[0], b[1], b[2], b[3];
    var c: nat := b0 * 0x100 + b1;
    var a: nat := c * 0x100 + b2;
    assert v == a * 0x100 + b3;
    DivMod.DivModUnique(v, 0x100, a, b[3]);
    DivMod.DivModUnique(a, 0x100, c, b[2]);
    DivMod.DivModUnique(c, 0x100, b[0], b[1]);
    var e := EncodeU32(v);
    assert e[0] == b[0] && e[1] == b[1] && e[2] == b[2] && e[3] == b[3];
  }
}
