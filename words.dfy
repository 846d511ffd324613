/**
 * Multi-byte words as sequences of bytes: the little-endian and big-endian
 * layouts of a number, the number a layout denotes, and single-byte
 * extraction (`(x >> 8*i) & 0xff`).
 */
module Words {
  import opened FdtTypes

  /** 256^n: one more than the largest value of an n-byte word. */
  function Pow256(n: nat): (r: nat)
    ensures r > 0
  {
    if n == 0 then 1 else 256 * Pow256(n - 1)
  }

  function Reverse<T>(s: seq<T>): (r: seq<T>)
    ensures |r| == |s|
    ensures forall i :: 0 <= i < |s| ==> r[i] == s[|s| - 1 - i]
  {
    if s == [] then [] else Reverse(s[1..]) + [s[0]]
  }

  /** Byte i of x, counting from the least significant byte. */
  function ByteOf(x: nat, i: nat): uint8
  {
    (x / Pow256(i)) % 256
  }

  /** The n least significant bytes of x, least significant first. */
  function LeBytes(x: nat, n: nat): (bs: seq<uint8>)
    ensures |bs| == n
  {
    if n == 0 then [] else [x % 256] + LeBytes(x / 256, n - 1)
  }

  /** The number that bytes laid out least significant first denote. */
  function LeValue(bs: seq<uint8>): (v: nat)
    ensures v < Pow256(|bs|)
  {
    if bs == [] then 0 else bs[0] + 256 * LeValue(bs[1..])
  }

  /** The n least significant bytes of x, most significant first. */
  function BeBytes(x: nat, n: nat): (bs: seq<uint8>)
  {
    Reverse(LeBytes(x, n))
  }

  /** The number that bytes laid out most significant first denote. */
  function BeValue(bs: seq<uint8>): (v: nat)
    ensures v < Pow256(|bs|)
  {
    if bs == [] then 0 else 256 * BeValue(bs[..|bs| - 1]) + bs[|bs| - 1]
  }

  lemma ReverseReverse<T>(s: seq<T>)
    ensures Reverse(Reverse(s)) == s
  {
  }

  /** Splitting a word into bytes and reassembling them gives it back. */
  lemma {:induction false} LeValueOfLeBytes(x: nat, n: nat)
    requires x < Pow256(n)
    ensures LeValue(LeBytes(x, n)) == x
  {
    if n > 0 {
      LeValueOfLeBytes(x / 256, n - 1);
      assert LeBytes(x, n)[1..] == LeBytes(x / 256, n - 1);
    }
  }

  /** Assembling bytes into a word and splitting it again gives them back. */
  lemma {:induction false} LeBytesOfLeValue(bs: seq<uint8>)
    ensures LeBytes(LeValue(bs), |bs|) == bs
  {
    if bs != [] {
      var v := LeValue(bs);
      assert v % 256 == bs[0] && v / 256 == LeValue(bs[1..]);
      LeBytesOfLeValue(bs[1..]);
      assert bs == [bs[0]] + bs[1..];
    }
  }

  /** Reading bytes most significant first is reading them reversed least significant first. */
  lemma {:induction false} BeValueIsReversedLeValue(bs: seq<uint8>)
    ensures BeValue(bs) == LeValue(Reverse(bs))
  {
    if bs != [] {
      var n := |bs|;
      var r := Reverse(bs);
      BeValueIsReversedLeValue(bs[..n - 1]);
      assert r[1..] == Reverse(bs[..n - 1]);
    }
  }

  lemma BeValueOfBeBytes(x: nat, n: nat)
    requires x < Pow256(n)
    ensures BeValue(BeBytes(x, n)) == x
  {
    BeValueIsReversedLeValue(BeBytes(x, n));
    ReverseReverse(LeBytes(x, n));
    LeValueOfLeBytes(x, n);
  }

  lemma {:induction false} MulMonotone(d: nat, a: nat, b: nat)
    requires a <= b
    ensures d * a <= d * b
  {
    if a < b {
      MulMonotone(d, a, b - 1);
      assert d * b == d * (b - 1) + d;
    }
  }

  lemma MulLess(d: nat, a: nat, b: nat, ma: nat, mb: nat)
    requires ma < d
    ensures a < b ==> d * a + ma < d * b + mb
  {
    if a < b {
      assert d * (a + 1) == d * a + d;
      MulMonotone(d, a + 1, b);
    }
  }

  /** The quotient is the only q that leaves a remainder below the divisor. */
  lemma DivUnique(x: nat, d: nat, q: nat, m: nat)
    requires m < d && x == d * q + m
    ensures x / d == q
  {
    var q', m' := x / d, x % d;
    assert x == d * q' + m';
    MulLess(d, q', q, m', m);
    MulLess(d, q, q', m, m');
  }

  lemma DivOfProduct(x: nat, p: nat)
    requires p > 0
    ensures x / (256 * p) == (x / 256) / p
  {
    var q, r, s := (x / 256) / p, (x / 256) % p, x % 256;
    assert x / 256 == p * q + r;
    assert x == (256 * p) * q + (256 * r + s);
    DivUnique(x, 256 * p, q, 256 * r + s);
  }

  /** The byte-sequence layout agrees with byte extraction by shifting. */
  lemma {:induction false} LeBytesAt(x: nat, n: nat, i: nat)
    requires i < n
    ensures LeBytes(x, n)[i] == ByteOf(x, i)
  {
    if i > 0 {
      LeBytesAt(x / 256, n - 1, i - 1);
      DivOfProduct(x, Pow256(i - 1));
    }
  }

  /** The value of a 4-byte big-endian field. */
  lemma BeValue4(bs: seq<uint8>)
    requires |bs| == 4
    ensures BeValue(bs) == bs[0] as int * 0x100_0000 + bs[1] as int * 0x1_0000 + bs[2] as int * 0x100 + bs[3]
  {
    assert bs[..1][..0] == [] && bs[..2][..1] == bs[..1] && bs[..3][..2] == bs[..2] && bs[..4] == bs;
    assert BeValue(bs[..1]) == bs[0];
    assert BeValue(bs[..2]) == 256 * BeValue(bs[..1]) + bs[1];
    assert BeValue(bs[..3]) == 256 * BeValue(bs[..2]) + bs[2];
    assert BeValue(bs) == 256 * BeValue(bs[..3]) + bs[3];
  }

  /** The value of an 8-byte big-endian field. */
  lemma BeValue8(bs: seq<uint8>)
    requires |bs| == 8
    ensures BeValue(bs) == bs[0] as int * 0x100_0000_0000_0000 + bs[1] as int * 0x1_0000_0000_0000
                           + bs[2] as int * 0x100_0000_0000 + bs[3] as int * 0x1_0000_0000
                           + bs[4] as int * 0x100_0000 + bs[5] as int * 0x1_0000 + bs[6] as int * 0x100 + bs[7]
  {
    BeValue4(bs[..4]);
    assert bs[..5][..4] == bs[..4] && bs[..6][..5] == bs[..5] && bs[..7][..6] == bs[..6] && bs[..8] == bs;
    assert BeValue(bs[..5]) == 256 * BeValue(bs[..4]) + bs[4];
    assert BeValue(bs[..6]) == 256 * BeValue(bs[..5]) + bs[5];
    assert BeValue(bs[..7]) == 256 * BeValue(bs[..6]) + bs[6];
    assert BeValue(bs) == 256 * BeValue(bs[..7]) + bs[7];
  }
}
