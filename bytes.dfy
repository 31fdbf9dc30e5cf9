/** Fixed-width unsigned integers, little-endian field decoding and saturation to a byte. */
module Bytes {

  type byte = x: int | 0 <= x < 0x100
  type u16 = x: int | 0 <= x < 0x1_0000
  type u32 = x: int | 0 <= x < 0x1_0000_0000

  const U32_MODULUS: int := 0x1_0000_0000

  /** The unsigned 16-bit field stored little-endian at s[k], s[k + 1]. */
  function U16At(s: seq<byte>, k: nat): (v: u16)
    requires k + 2 <= |s|
    ensures v % 0x100 == s[k] && v / 0x100 == s[k + 1]
  {
    s[k] as int + 0x100 * s[k + 1] as int
  }

  /** The unsigned 32-bit field stored little-endian at s[k .. k + 4]. */
  function U32At(s: seq<byte>, k: nat): (v: u32)
    requires k + 4 <= |s|
    ensures v % 0x100 == s[k]
    ensures v / 0x100 % 0x100 == s[k + 1]
    ensures v / 0x1_0000 % 0x100 == s[k + 2]
    ensures v / 0x100_0000 == s[k + 3]
  {
    var high := s[k + 2] as int + 0x100 * s[k + 3] as int;
    var mid := s[k + 1] as int + 0x100 * high;
    SplitLowByte(s[k + 1], high);
    SplitLowByte(s[k], mid);
    assert (s[k] as int + 0x100 * mid) / 0x1_0000 == high by { DivDiv(s[k] as int + 0x100 * mid); }
    assert (s[k] as int + 0x100 * mid) / 0x100_0000 == s[k + 3] by { DivDivDiv(s[k] as int + 0x100 * mid); }
    s[k] as int + 0x100 * mid
  }

  lemma SplitLowByte(low: byte, rest: nat)
    ensures (low + 0x100 * rest) % 0x100 == low
    ensures (low + 0x100 * rest) / 0x100 == rest
  {
  }

  lemma DivDiv(v: nat)
    ensures v / 0x1_0000 == v / 0x100 / 0x100
  {
  }

  lemma DivDivDiv(v: nat)
    ensures v / 0x100_0000 == v / 0x100 / 0x100 / 0x100
  {
  }

  /** C's unsigned 32-bit subtraction a - b, which wraps around modulo 2^32. */
  function SubU32(a: u32, b: u32): (r: u32)
    ensures a >= b ==> r + b == a
    ensures a < b ==> r + b == a + U32_MODULUS
  {
    (a - b) % U32_MODULUS
  }

  function Dist(a: int, b: int): (d: nat)
  {
    if a >= b then a - b else b - a
  }

  /** Saturation into [0, 255]: the byte nearest to v. */
  function Clamp(v: int): (r: byte)
    ensures forall b: byte :: Dist(r, v) <= Dist(b, v)
    ensures 0 <= v < 0x100 ==> r == v
  {
    if v < 0 then 0 else if v > 255 then 255 else v
  }

  lemma ClampMonotone(a: int, b: int)
    requires a <= b
    ensures Clamp(a) <= Clamp(b)
  {
  }
}
