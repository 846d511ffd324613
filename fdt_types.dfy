/**
 * The fixed-width integer types, limit constants and big-endian wire types
 * of the freestanding libfdt environment header.
 */
module FdtTypes {

  /** Unsigned integers of exactly 8, 16, 32 and 64 bits. */
  type uint8 = x: nat | x < 0x100
  type uint16 = x: nat | x < 0x1_0000
  type uint32 = x: nat | x < 0x1_0000_0000
  type uint64 = x: nat | x < 0x1_0000_0000_0000_0000

  /** A signed 32-bit integer (the target's `int`). */
  type int32 = x: int | -0x8000_0000 <= x < 0x8000_0000

  /**
   * Words stored in the blob in big-endian order. In the header they are
   * plain aliases of the unsigned types; here each is a distinct wrapper, so
   * a wire word never mixes implicitly with a host integer: using it
   * unconverted takes an explicit `.raw`.
   */
  datatype Fdt16 = Fdt16(raw: uint16)
  datatype Fdt32 = Fdt32(raw: uint32)
  datatype Fdt64 = Fdt64(raw: uint64)

  /** The limit constants, each at the type its C literal has. */
  const INT_MAX: int32 := 2147483647
  const INT32_MAX: int32 := 2147483647
  const UINT32_MAX: uint32 := 4294967295
  const UINT64_MAX: uint64 := 18446744073709551615

  function Pow2(k: nat): (r: nat)
    ensures r > 0
  {
    if k == 0 then 1 else 2 * Pow2(k - 1)
  }

  lemma {:induction false} Pow2Add(a: nat, b: nat)
    ensures Pow2(a + b) == Pow2(a) * Pow2(b)
  {
    if a > 0 {
      Pow2Add(a - 1, b);
    }
  }

  /** Each limit is the mathematical maximum of its type. */
  lemma LimitConstants()
    ensures INT_MAX == INT32_MAX == Pow2(31) - 1
    ensures UINT32_MAX == Pow2(32) - 1
    ensures UINT64_MAX == Pow2(64) - 1
  {
    Pow2Add(8, 8);
    Pow2Add(16, 15);
    Pow2Add(16, 16);
    Pow2Add(32, 32);
  }
}
