# Byte-order layer of a freestanding libfdt environment

This project models the byte-order conversion layer of `libfdt_env.h`, the
header that lets the libfdt device-tree parser run inside a kernel without a C
library. A flattened device tree (DTB) stores every header field and
structure-block token as a big-endian word (Devicetree Specification,
chapter 5, section 5.2). The header provides six conversions between those
wire words and host integers: `fdt16_to_cpu`, `cpu_to_fdt16`, `fdt32_to_cpu`,
`cpu_to_fdt32`, `fdt64_to_cpu` and `cpu_to_fdt64`. On a little-endian host each
one is the compiler's `__builtin_bswapN`. On any other host each one is the
identity.

Modules, in dependency order:

- `FdtTypes` (`fdt_types.dfy`) holds the fixed-width unsigned types `uint8`,
  `uint16`, `uint32` and `uint64`, and the signed `int32`, all as subsets of the
  mathematical integers. It holds the limit constants `INT_MAX`, `INT32_MAX`,
  `UINT32_MAX` and `UINT64_MAX`, each at the type of its C literal, so Dafny
  checks that it fits. It also holds the wire types `Fdt16`, `Fdt32` and
  `Fdt64`. The header makes these plain aliases of `uint16_t`, `uint32_t` and
  `uint64_t`. Here each is a distinct single-field datatype, so a wire word never
  mixes implicitly with a host integer: a use of an unconverted word has to
  go through an explicit `.raw`.
- `Words` (`words.dfy`) views a word as bytes. `LeBytes`/`LeValue` give the
  least-significant-first layout, `BeBytes`/`BeValue` the
  most-significant-first layout, and `ByteOf(x, i)` is `(x >> 8*i) & 0xff`.
  Lemmas prove that splitting and reassembling round-trip, and that the layout
  agrees with `ByteOf`.
- `ByteSwap` (`byte_swap.dfy`) defines `Bswap(x, n)`, which reverses the n
  bytes of x, and `Bswap16`, `Bswap32`, `Bswap64` for the three builtins.
- `ByteOrder` (`byte_order.dfy`) defines the host byte order as a parameter
  `HostOrder = LittleEndian | BigEndian`, and the six conversions. It also has
  a model of host memory: `Load` and `Store` read and write a word as a host of
  the given order does. That model is used to state that the conversions
  decode and encode DTB fields correctly.

The header tests `__BYTE_ORDER__ == __ORDER_LITTLE_ENDIAN__`. On a compiler
that defines both macros, every host that is not little-endian takes the
identity branch. The model's `BigEndian` stands for that
whole `#else` branch. The memory-model lemmas (`ReadField*`, `WriteFields`)
are stated for a true big-endian host in that branch.

## Model

| member | source | states |
|---|---|---|
| FdtTypes.LimitConstants | src/kernel/fdt/libfdt_env.h:27-30 | `INT_MAX == INT32_MAX == 2^31-1`, `UINT32_MAX == 2^32-1`, `UINT64_MAX == 2^64-1`; the constants' types check that each fits its C type |
| ByteSwap.Bswap | src/kernel/fdt/libfdt_env.h:59-64 | reversal of an n-byte word stays below 256^n and byte i of the result is byte n-1-i of the input |
| ByteSwap.Bswap16 | src/kernel/fdt/libfdt_env.h:59-60 | `__builtin_bswap16` exchanges the two bytes of a 16-bit word |
| ByteSwap.Bswap32 | src/kernel/fdt/libfdt_env.h:61-62 | `__builtin_bswap32`: byte i of the result is byte 3-i of the input, for i in 0..3 |
| ByteSwap.Bswap64 | src/kernel/fdt/libfdt_env.h:63-64 | `__builtin_bswap64`: byte i of the result is byte 7-i of the input, for i in 0..7 |
| ByteSwap.BswapBytes | src/kernel/fdt/libfdt_env.h:59-64 | the byte sequence of the result is the input's byte sequence reversed |
| ByteSwap.BswapInvolution | src/kernel/fdt/libfdt_env.h:59-64 | reversing twice gives back the original word, for every width |
| ByteSwap.BswapReadsOtherOrder | src/kernel/fdt/libfdt_env.h:57-64 | reversing x gives the number that x's memory bytes denote when read most significant first |
| ByteSwap.BswapFixedIff | src/kernel/fdt/libfdt_env.h:59-64 | a word is unchanged by reversal exactly when its bytes form a palindrome |
| ByteSwap.BswapZero | src/kernel/fdt/libfdt_env.h:59-64 | reversal maps 0 to 0 at every width |
| ByteSwap.BswapAllOnes | src/kernel/fdt/libfdt_env.h:59-64 | reversal maps the all-ones word of a width to itself |
| ByteSwap.Bswap16Formula | src/kernel/fdt/libfdt_env.h:59-60 | the 16-bit reversal equals the low byte times 2^8 plus the high byte, the shift-and-mask form |
| ByteSwap.Bswap32Formula | src/kernel/fdt/libfdt_env.h:61-62 | the 32-bit reversal equals the sum of the four extracted bytes, each moved to its mirrored position |
| ByteSwap.Bswap64Formula | src/kernel/fdt/libfdt_env.h:63-64 | the 64-bit reversal equals the sum of the eight extracted bytes, each moved to its mirrored position |
| ByteOrder.Fdt16ToCpu | src/kernel/fdt/libfdt_env.h:59-66 | `fdt16_to_cpu`: on a little-endian host the two bytes are exchanged; on any other host the word is returned unchanged |
| ByteOrder.CpuToFdt16 | src/kernel/fdt/libfdt_env.h:60-67 | `cpu_to_fdt16`: on a little-endian host the two bytes are exchanged; on any other host the wire word holds the value unchanged |
| ByteOrder.Fdt32ToCpu | src/kernel/fdt/libfdt_env.h:61-68 | `fdt32_to_cpu`: on a little-endian host byte i of the result is byte 3-i of the wire word; on any other host the identity |
| ByteOrder.CpuToFdt32 | src/kernel/fdt/libfdt_env.h:62-69 | `cpu_to_fdt32`: on a little-endian host byte i of the wire word is byte 3-i of the value; on any other host the identity |
| ByteOrder.Fdt64ToCpu | src/kernel/fdt/libfdt_env.h:63-70 | `fdt64_to_cpu`: on a little-endian host byte i of the result is byte 7-i of the wire word; on any other host the identity |
| ByteOrder.CpuToFdt64 | src/kernel/fdt/libfdt_env.h:64-71 | `cpu_to_fdt64`: on a little-endian host byte i of the wire word is byte 7-i of the value; on any other host the identity |
| ByteOrder.RoundTrip16 | src/kernel/fdt/libfdt_env.h:59-67 | `fdt16_to_cpu(cpu_to_fdt16(x)) == x` and `cpu_to_fdt16(fdt16_to_cpu(w)) == w` on both host orders |
| ByteOrder.RoundTrip32 | src/kernel/fdt/libfdt_env.h:61-69 | `fdt32_to_cpu(cpu_to_fdt32(x)) == x` and `cpu_to_fdt32(fdt32_to_cpu(w)) == w` on both host orders |
| ByteOrder.RoundTrip64 | src/kernel/fdt/libfdt_env.h:63-71 | `fdt64_to_cpu(cpu_to_fdt64(x)) == x` and `cpu_to_fdt64(fdt64_to_cpu(w)) == w` on both host orders |
| ByteOrder.ToCpuIsToFdt | src/kernel/fdt/libfdt_env.h:59-71 | for every width and host order, to-host and to-wire compute the same bits |
| ByteOrder.LoadThenConvert | src/kernel/fdt/libfdt_env.h:57-72 | a word loaded from blob bytes and converted is their big-endian value, on a little-endian host through the reversal and on a big-endian host directly |
| ByteOrder.ReadField16 | src/kernel/fdt/libfdt_env.h:57-66 | a 16-bit field with bytes b0 b1, loaded and passed to `fdt16_to_cpu`, gives `b0*2^8 + b1` on either host |
| ByteOrder.ReadField32 | src/kernel/fdt/libfdt_env.h:57-68 | a 32-bit field with bytes b0..b3, loaded and passed to `fdt32_to_cpu`, gives `b0*2^24 + b1*2^16 + b2*2^8 + b3` on either host |
| ByteOrder.ReadField64 | src/kernel/fdt/libfdt_env.h:57-70 | a 64-bit field with bytes b0..b7, loaded and passed to `fdt64_to_cpu`, gives their big-endian value on either host |
| ByteOrder.ConvertThenStore | src/kernel/fdt/libfdt_env.h:57-72 | storing a converted n-byte word writes the value's bytes most significant first, on either host |
| ByteOrder.WriteFields | src/kernel/fdt/libfdt_env.h:57-71 | a value passed to `cpu_to_fdt16/32/64` and stored occupies the blob in big-endian order, on either host |
| ByteOrder.ConversionsKeepExtremes | src/kernel/fdt/libfdt_env.h:29-30 | all six conversions, to-host and to-wire, map 0 to 0 and `0xFFFF`, `UINT32_MAX` and `UINT64_MAX` to themselves, on either host |

Totality and width preservation hold for arguments of the wire type or of
the unsigned type of the same width. Each conversion is a total function from
its width's type to the same type, and `Bswap` ensures that its result stays
below 256^n.

## Left out

- The `memcpy`, `memset`, `memmove`, `memcmp`, `memchr`, `strlen`, `strncmp` and `strchr` macros (`libfdt_env.h:41-50`) only rename compiler builtins. There is no body to model.
- `strnlen`, `strrchr` and `strtoul` (`libfdt_env.h:53-55`) are only declared. They are implemented in `c_compat.zig`, which is not part of this model. Their bounded scanning, last-occurrence search, radix handling and overflow policy are therefore not modelled.
- The platform typedefs `int8_t`…`uint64_t`, `size_t` and `uintptr_t` (`libfdt_env.h:10-19`) are assumptions about the target's ABI. Only the unsigned widths the wire types rest on, plus a 32-bit signed type for `INT_MAX`, are modelled.
- `bool`, `true`, `false`, `NULL` and the include guard (`libfdt_env.h:6-7`, `33-38`, `74`) are declarations with no behaviour.
- Hosts whose order is neither little- nor big-endian (for example PDP-endian) get the identity branch, the same as in the header. The model has no separate order for them, so the decoding lemmas are not stated for such a host.
- Arguments of other types are not modelled. Every conversion here takes an in-range `uintN` or `FdtN`, which is what libfdt passes. In C, the little-endian branch (`libfdt_env.h:59-64`) converts a wider or negative argument to the N-bit unsigned type, which reduces it mod 2^N before the reversal. The identity branch (`libfdt_env.h:66-71`) returns the argument with its own type and value: nothing is truncated, and the width is not preserved.
- Compilers that leave `__BYTE_ORDER__` and `__ORDER_LITTLE_ENDIAN__` undefined are not modelled. On such a compiler the `#if` at `libfdt_env.h:58` compares 0 with 0 and takes the byte-reversal branch on every host. The model's choice of branch assumes both macros are defined.
- Alignment and unaligned loads are not modelled. `Load` and `Store` take a byte sequence of exactly the word's size.
- The libfdt parser that uses these conversions is not part of this model. Neither are the kernel's boot, allocation and logging.
