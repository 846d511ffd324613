/**
 * The compiler's byte-reversal builtins `__builtin_bswap16/32/64`, on the
 * unsigned types of their width.
 */
module ByteSwap {
  import opened FdtTypes
  import opened Words

  /** Reverses the order of the n bytes of x. */
  function Bswap(x: nat, n: nat): (r: nat)
    requires x < Pow256(n)
    ensures r < Pow256(n)
    ensures forall i :: 0 <= i < n ==> ByteOf(r, i) == ByteOf(x, n - 1 - i)
  {
    var rev := LeValue(Reverse(LeBytes(x, n)));
    LeBytesOfLeValue(Reverse(LeBytes(x, n)));
    forall i | 0 <= i < n
      ensures ByteOf(rev, i) == ByteOf(x, n - 1 - i)
    {
      LeBytesAt(rev, n, i);
      LeBytesAt(x, n, n - 1 - i);
    }
    rev
  }

  /** The bytes of the result are the bytes of the input, reversed. */
  lemma BswapBytes(x: nat, n: nat)
    requires x < Pow256(n)
    ensures LeBytes(Bswap(x, n), n) == Reverse(LeBytes(x, n))
  {
    LeBytesOfLeValue(Reverse(LeBytes(x, n)));
  }

  /** Reversing twice gives the word back. */
  lemma BswapInvolution(x: nat, n: nat)
    requires x < Pow256(n)
    ensures Bswap(Bswap(x, n), n) == x
  {
    BswapBytes(x, n);
    ReverseReverse(LeBytes(x, n));
    LeValueOfLeBytes(x, n);
  }

  /** Reversal is reading the bytes of x, in memory order, most significant first. */
  lemma BswapReadsOtherOrder(x: nat, n: nat)
    requires x < Pow256(n)
    ensures Bswap(x, n) == BeValue(LeBytes(x, n))
  {
    BeValueIsReversedLeValue(LeBytes(x, n));
  }

  /** A word is left alone by reversal exactly when its bytes form a palindrome. */
  lemma BswapFixedIff(x: nat, n: nat)
    requires x < Pow256(n)
    ensures Bswap(x, n) == x <==> Reverse(LeBytes(x, n)) == LeBytes(x, n)
  {
    BswapBytes(x, n);
    LeValueOfLeBytes(x, n);
  }

  function Bswap16(x: uint16): (r: uint16)
    ensures ByteOf(r, 0) == ByteOf(x, 1) && ByteOf(r, 1) == ByteOf(x, 0)
  {
    Bswap(x, 2)
  }

  function Bswap32(x: uint32): (r: uint32)
    ensures forall i :: 0 <= i < 4 ==> ByteOf(r, i) == ByteOf(x, 3 - i)
  {
    Bswap(x, 4)
  }

  function Bswap64(x: uint64): (r: uint64)
    ensures forall i :: 0 <= i < 8 ==> ByteOf(r, i) == ByteOf(x, 7 - i)
  {
    Bswap(x, 8)
  }

  /** The shift-and-mask form of the 16-bit reversal. */
  lemma Bswap16Formula(x: uint16)
    ensures Bswap16(x) == ByteOf(x, 0) as int * 0x100 + ByteOf(x, 1)
  {
  }

  /** The shift-and-mask form of the 32-bit reversal. */
  lemma Bswap32Formula(x: uint32)
    ensures Bswap32(x) == ByteOf(x, 0) as int * 0x100_0000 + ByteOf(x, 1) as int * 0x1_0000
                          + ByteOf(x, 2) as int * 0x100 + ByteOf(x, 3)
  {
    BswapReadsOtherOrder(x, 4);
    var bs := LeBytes(x, 4);
    forall i | 0 <= i < 4 ensures bs[i] == ByteOf(x, i) {
      LeBytesAt(x, 4, i);
    }
    BeValue4(bs);
  }

  /** The shift-and-mask form of the 64-bit reversal. */
  lemma Bswap64Formula(x: uint64)
    ensures Bswap64(x) == ByteOf(x, 0) as int * 0x100_0000_0000_0000 + ByteOf(x, 1) as int * 0x1_0000_0000_0000
                          + ByteOf(x, 2) as int * 0x100_0000_0000 + ByteOf(x, 3) as int * 0x1_0000_0000
                          + ByteOf(x, 4) as int * 0x100_0000 + ByteOf(x, 5) as int * 0x1_0000
                          + ByteOf(x, 6) as int * 0x100 + ByteOf(x, 7)
  {
    BswapReadsOtherOrder(x, 8);
    var bs := LeBytes(x, 8);
    forall i | 0 <= i < 8 ensures bs[i] == ByteOf(x, i) {
      LeBytesAt(x, 8, i);
    }
    BeValue8(bs);
  }

  /** Every byte of the all-ones word is 0xff. */
  lemma {:induction false} AllOnesBytes(m: nat, n: nat, i: nat)
    requires m + 1 == Pow256(n) && i < n
    ensures LeBytes(m, n)[i] == 0xff
  {
    var p := Pow256(n - 1);
    assert m % 256 == 0xff && m / 256 + 1 == p;
    if i > 0 {
      AllOnesBytes(m / 256, n - 1, i - 1);
    }
  }

  /** Every byte of zero is zero. */
  lemma {:induction false} ZeroBytes(n: nat, i: nat)
    requires i < n
    ensures LeBytes(0, n)[i] == 0
  {
    if i > 0 {
      ZeroBytes(n - 1, i - 1);
    }
  }

  /** A word whose bytes are all equal is left alone by reversal. */
  lemma BswapUniform(x: nat, n: nat, b: uint8)
    requires x < Pow256(n)
    requires forall i :: 0 <= i < n ==> LeBytes(x, n)[i] == b
    ensures Bswap(x, n) == x
  {
    var bs := LeBytes(x, n);
    assert Reverse(bs) == bs;
    BswapFixedIff(x, n);
  }

  /** Reversal only permutes bytes, so it maps zero to zero. */
  lemma BswapZero(n: nat)
    ensures Bswap(0, n) == 0
  {
    var zs := LeBytes(0, n);
    forall i | 0 <= i < n ensures zs[i] == 0 {
      ZeroBytes(n, i);
    }
    BswapUniform(0, n, 0);
  }

  /** Reversal only permutes bytes, so it maps the all-ones word to itself. */
  lemma BswapAllOnes(m: nat, n: nat)
    requires m + 1 == Pow256(n)
    ensures Bswap(m, n) == m
  {
    var ones := LeBytes(m, n);
    forall i | 0 <= i < n ensures ones[i] == 0xff {
      AllOnesBytes(m, n, i);
    }
    BswapUniform(m, n, 0xff);
  }
}
