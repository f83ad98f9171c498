/** The byte buffer of a log file and the little-endian integers read from it
    with `struct.unpack('<H')`, `'<I'` and `'<q'`. */
module Bytes {

  type Byte = x: int | 0 <= x < 256

  const TWO_63: int := 0x8000_0000_0000_0000
  const TWO_64: int := 0x1_0000_0000_0000_0000

  function Pow256(n: nat): (r: nat)
    ensures r > 0
  {
    if n == 0 then 1 else 256 * Pow256(n - 1)
  }

  /** Unsigned value of a little-endian byte group: the first byte is the least significant. */
  function LittleEndian(bs: seq<Byte>): (n: nat)
    ensures n < Pow256(|bs|)
  {
    if |bs| == 0 then 0 else bs[0] + 256 * LittleEndian(bs[1..])
  }

  /** The `width` low-order bytes of `n`, least significant first. */
  function ToLittleEndian(n: nat, width: nat): (bs: seq<Byte>)
    ensures |bs| == width
  {
    if width == 0 then [] else [n % 256] + ToLittleEndian(n / 256, width - 1)
  }

  lemma {:induction false} LittleEndianOfBytes(n: nat, width: nat)
    requires n < Pow256(width)
    ensures LittleEndian(ToLittleEndian(n, width)) == n
  {
    if width > 0 {
      LittleEndianOfBytes(n / 256, width - 1);
      assert ToLittleEndian(n, width)[1..] == ToLittleEndian(n / 256, width - 1);
    }
  }

  lemma {:induction false} BytesOfLittleEndian(bs: seq<Byte>)
    ensures ToLittleEndian(LittleEndian(bs), |bs|) == bs
  {
    if |bs| > 0 {
      BytesOfLittleEndian(bs[1..]);
      assert LittleEndian(bs) / 256 == LittleEndian(bs[1..]);
    }
  }

  /** Two's-complement reading of a 64-bit unsigned value (`struct` format `q`). */
  function Signed64(u: nat): (x: int)
    requires u < TWO_64
    ensures -TWO_63 <= x < TWO_63
    ensures x % TWO_64 == u
  {
    if u < TWO_63 then u else u - TWO_64
  }

  /** The unsigned 64-bit pattern that stores a signed value. */
  function Unsigned64(x: int): (u: nat)
    requires -TWO_63 <= x < TWO_63
    ensures u < TWO_64 && Signed64(u) == x
  {
    if x < 0 then x + TWO_64 else x
  }

  lemma Pow256Of8()
    ensures Pow256(8) == TWO_64
  {
  }

  function U16At(data: seq<Byte>, o: nat): (n: nat)
    requires o + 2 <= |data|
    ensures n < 0x1_0000
  {
    LittleEndian(data[o..o + 2])
  }

  function U32At(data: seq<Byte>, o: nat): (n: nat)
    requires o + 4 <= |data|
    ensures n < 0x1_0000_0000
  {
    assert Pow256(4) == 0x1_0000_0000;
    LittleEndian(data[o..o + 4])
  }

  function I64At(data: seq<Byte>, o: nat): (x: int)
    requires o + 8 <= |data|
    ensures -TWO_63 <= x < TWO_63
  {
    Pow256Of8();
    Signed64(LittleEndian(data[o..o + 8]))
  }
}
