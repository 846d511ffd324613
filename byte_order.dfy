/**
 * The six byte-order conversions between the blob's big-endian wire words
 * and host integers: `fdt16_to_cpu`, `cpu_to_fdt16` and their 32- and 64-bit
 * counterparts. The host's byte order is a parameter: on a little-endian host
 * each conversion is the byte reversal of its width, on any other host it is
 * the identity. To-host and to-wire of one width are the same operation.
 */
module ByteOrder {
  import opened FdtTypes
  import opened Words
  import opened ByteSwap

  /** `LittleEndian` when `__BYTE_ORDER__ == __ORDER_LITTLE_ENDIAN__`; `BigEndian` for every other host. */
  datatype HostOrder = LittleEndian | BigEndian

  function Fdt16ToCpu(order: HostOrder, x: Fdt16): (r: uint16)
    ensures order == LittleEndian ==> ByteOf(r, 0) == ByteOf(x.raw, 1) && ByteOf(r, 1) == ByteOf(x.raw, 0)
    ensures order == BigEndian ==> r == x.raw
  {
    if order == LittleEndian then Bswap16(x.raw) else x.raw
  }

  function CpuToFdt16(order: HostOrder, x: uint16): (r: Fdt16)
    ensures order == LittleEndian ==> ByteOf(r.raw, 0) == ByteOf(x, 1) && ByteOf(r.raw, 1) == ByteOf(x, 0)
    ensures order == BigEndian ==> r.raw == x
  {
    Fdt16(if order == LittleEndian then Bswap16(x) else x)
  }

  function Fdt32ToCpu(order: HostOrder, x: Fdt32): (r: uint32)
    ensures order == LittleEndian ==> forall i :: 0 <= i < 4 ==> ByteOf(r, i) == ByteOf(x.raw, 3 - i)
    ensures order == BigEndian ==> r == x.raw
  {
    if order == LittleEndian then Bswap32(x.raw) else x.raw
  }

  function CpuToFdt32(order: HostOrder, x: uint32): (r: Fdt32)
    ensures order == LittleEndian ==> forall i :: 0 <= i < 4 ==> ByteOf(r.raw, i) == ByteOf(x, 3 - i)
    ensures order == BigEndian ==> r.raw == x
  {
    Fdt32(if order == LittleEndian then Bswap32(x) else x)
  }

  function Fdt64ToCpu(order: HostOrder, x: Fdt64): (r: uint64)
    ensures order == LittleEndian ==> forall i :: 0 <= i < 8 ==> ByteOf(r, i) == ByteOf(x.raw, 7 - i)
    ensures order == BigEndian ==> r == x.raw
  {
    if order == LittleEndian then Bswap64(x.raw) else x.raw
  }

  function CpuToFdt64(order: HostOrder, x: uint64): (r: Fdt64)
    ensures order == LittleEndian ==> forall i :: 0 <= i < 8 ==> ByteOf(r.raw, i) == ByteOf(x, 7 - i)
    ensures order == BigEndian ==> r.raw == x
  {
    Fdt64(if order == LittleEndian then Bswap64(x) else x)
  }

  /** Converting to the wire and back, or from the wire and back, is the identity. */
  lemma RoundTrip16(order: HostOrder, x: uint16, w: Fdt16)
    ensures Fdt16ToCpu(order, CpuToFdt16(order, x)) == x
    ensures CpuToFdt16(order, Fdt16ToCpu(order, w)) == w
  {
    BswapInvolution(x, 2);
    BswapInvolution(w.raw, 2);
  }

  lemma RoundTrip32(order: HostOrder, x: uint32, w: Fdt32)
    ensures Fdt32ToCpu(order, CpuToFdt32(order, x)) == x
    ensures CpuToFdt32(order, Fdt32ToCpu(order, w)) == w
  {
    BswapInvolution(x, 4);
    BswapInvolution(w.raw, 4);
  }

  lemma RoundTrip64(order: HostOrder, x: uint64, w: Fdt64)
    ensures Fdt64ToCpu(order, CpuToFdt64(order, x)) == x
    ensures CpuToFdt64(order, Fdt64ToCpu(order, w)) == w
  {
    BswapInvolution(x, 8);
    BswapInvolution(w.raw, 8);
  }

  /** To-host and to-wire of each width are the same operation on the underlying bits. */
  lemma ToCpuIsToFdt(order: HostOrder, x16: uint16, x32: uint32, x64: uint64)
    ensures Fdt16ToCpu(order, Fdt16(x16)) == CpuToFdt16(order, x16).raw
    ensures Fdt32ToCpu(order, Fdt32(x32)) == CpuToFdt32(order, x32).raw
    ensures Fdt64ToCpu(order, Fdt64(x64)) == CpuToFdt64(order, x64).raw
  {
  }

  /** What a host of the given order reads when it loads a word from the bytes bs in memory. */
  function Load(order: HostOrder, bs: seq<uint8>): (v: nat)
    ensures v < Pow256(|bs|)
  {
    if order == LittleEndian then LeValue(bs) else BeValue(bs)
  }

  /** The n bytes a host of the given order writes to memory when it stores the word x. */
  function Store(order: HostOrder, x: nat, n: nat): (bs: seq<uint8>)
    requires x < Pow256(n)
    ensures |bs| == n
    ensures Load(order, bs) == x
  {
    if order == LittleEndian then
      LeValueOfLeBytes(x, n);
      LeBytes(x, n)
    else
      BeValueOfBeBytes(x, n);
      BeBytes(x, n)
  }

  /** On either host order, a word loaded from the blob and converted to host order is the big-endian value of its bytes. */
  lemma {:induction false} LoadThenConvert(order: HostOrder, bs: seq<uint8>)
    ensures order == LittleEndian ==> Bswap(Load(order, bs), |bs|) == BeValue(bs)
    ensures order == BigEndian ==> Load(order, bs) == BeValue(bs)
  {
    if order == LittleEndian {
      LeBytesOfLeValue(bs);
      BeValueIsReversedLeValue(bs);
    }
  }

  /** Decoding a 16-bit field: bytes b0 b1 of the blob give b0 * 2^8 + b1 on either host. */
  lemma ReadField16(order: HostOrder, bs: seq<uint8>)
    requires |bs| == 2
    ensures Load(order, bs) < 0x1_0000
    ensures Fdt16ToCpu(order, Fdt16(Load(order, bs))) == bs[0] as int * 0x100 + bs[1]
  {
    LoadThenConvert(order, bs);
    assert bs[..1][..0] == [] && bs[..2] == bs;
  }

  /** Decoding a 32-bit field: bytes b0..b3 of the blob give b0 * 2^24 + b1 * 2^16 + b2 * 2^8 + b3 on either host. */
  lemma ReadField32(order: HostOrder, bs: seq<uint8>)
    requires |bs| == 4
    ensures Load(order, bs) < 0x1_0000_0000
    ensures Fdt32ToCpu(order, Fdt32(Load(order, bs)))
         == bs[0] as int * 0x100_0000 + bs[1] as int * 0x1_0000 + bs[2] as int * 0x100 + bs[3]
  {
    LoadThenConvert(order, bs);
    BeValue4(bs);
  }

  /** Decoding a 64-bit field: bytes b0..b7 of the blob give their big-endian value on either host. */
  lemma ReadField64(order: HostOrder, bs: seq<uint8>)
    requires |bs| == 8
    ensures Load(order, bs) < 0x1_0000_0000_0000_0000
    ensures Fdt64ToCpu(order, Fdt64(Load(order, bs)))
         == bs[0] as int * 0x100_0000_0000_0000 + bs[1] as int * 0x1_0000_0000_0000
            + bs[2] as int * 0x100_0000_0000 + bs[3] as int * 0x1_0000_0000
            + bs[4] as int * 0x100_0000 + bs[5] as int * 0x1_0000 + bs[6] as int * 0x100 + bs[7]
  {
    LoadThenConvert(order, bs);
    BeValue8(bs);
  }

  /** On either host order, storing a converted word lays its bytes out most significant first. */
  lemma ConvertThenStore(order: HostOrder, x: nat, n: nat)
    requires x < Pow256(n)
    ensures order == LittleEndian ==> Store(order, Bswap(x, n), n) == BeBytes(x, n)
    ensures order == BigEndian ==> Store(order, x, n) == BeBytes(x, n)
  {
    BswapBytes(x, n);
  }

  /** Encoding a field: a host value converted with cpu_to_fdtN and stored occupies the blob in big-endian order. */
  lemma WriteFields(order: HostOrder, x16: uint16, x32: uint32, x64: uint64)
    ensures Store(order, CpuToFdt16(order, x16).raw, 2) == BeBytes(x16, 2)
    ensures Store(order, CpuToFdt32(order, x32).raw, 4) == BeBytes(x32, 4)
    ensures Store(order, CpuToFdt64(order, x64).raw, 8) == BeBytes(x64, 8)
  {
    ConvertThenStore(order, x16, 2);
    ConvertThenStore(order, x32, 4);
    ConvertThenStore(order, x64, 8);
  }

  /** All six conversions map zero to zero and the all-ones limits to themselves on either host. */
  lemma ConversionsKeepExtremes(order: HostOrder)
    ensures Fdt16ToCpu(order, Fdt16(0)) == 0 && Fdt16ToCpu(order, Fdt16(0xFFFF)) == 0xFFFF
    ensures Fdt32ToCpu(order, Fdt32(0)) == 0 && Fdt32ToCpu(order, Fdt32(UINT32_MAX)) == UINT32_MAX
    ensures Fdt64ToCpu(order, Fdt64(0)) == 0 && Fdt64ToCpu(order, Fdt64(UINT64_MAX)) == UINT64_MAX
    ensures CpuToFdt16(order, 0).raw == 0 && CpuToFdt16(order, 0xFFFF).raw == 0xFFFF
    ensures CpuToFdt32(order, 0).raw == 0 && CpuToFdt32(order, UINT32_MAX).raw == UINT32_MAX
    ensures CpuToFdt64(order, 0).raw == 0 && CpuToFdt64(order, UINT64_MAX).raw == UINT64_MAX
  {
    BswapZero(2);
    BswapZero(4);
    BswapZero(8);
    BswapAllOnes(0xFFFF, 2);
    BswapAllOnes(UINT32_MAX, 4);
    BswapAllOnes(UINT64_MAX, 8);
  }
}
