/**
  C integer types used by the record layer, with the conversions the source
  performs implicitly written out.
 */
module CTypes {

  type uint8 = x: int | 0 <= x < 0x100
  type uint16 = x: int | 0 <= x < 0x1_0000
  type uint32 = x: int | 0 <= x < 0x1_0000_0000
  type int32 = x: int | -0x8000_0000 <= x < 0x8000_0000
  type size_t = x: int | 0 <= x < 0x1_0000_0000_0000_0000

  const UINT32_MODULUS: int := 0x1_0000_0000

  /** The conversion `int left = data_size;`: the low 32 bits of the size,
      read as a two's-complement signed value. */
  function IntOfSize(n: size_t): (r: int32)
    ensures (r - n) % UINT32_MODULUS == 0
    ensures n < 0x8000_0000 ==> r == n
    ensures 0x8000_0000 <= n < UINT32_MODULUS ==> r < 0
  {
    var low := n % UINT32_MODULUS;
    if low < 0x8000_0000 then low else low - UINT32_MODULUS
  }

  /** Unsigned 32-bit addition as the source's `unsigned` accumulators do it. */
  function AddU32(a: uint32, b: uint32): (r: uint32)
    ensures a + b < UINT32_MODULUS ==> r == a + b
    ensures a + b >= UINT32_MODULUS ==> r == a + b - UINT32_MODULUS
  {
    (a + b) % UINT32_MODULUS
  }
}
