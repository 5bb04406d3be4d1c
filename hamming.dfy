/**
 * `HammingDistance.d(long, long)`: the number of bit positions in which two
 * 64-bit signatures differ, the population count of their exclusive or.
 */
module HammingDistance {

  /** The lowest bit of `x`, as a number. */
  function LowBit(x: bv64): nat
  {
    if x & 1 == 1 then 1 else 0
  }

  /** Number of set bits among the lowest `n` bits of `x`. */
  function BitCount(x: bv64, n: nat): (r: nat)
    requires n <= 64
    ensures r <= n
    decreases n
  {
    if n == 0 then 0 else LowBit(x) + BitCount(x >> 1, n - 1)
  }

  /** The Hamming distance of two signatures. */
  function D(x: bv64, y: bv64): (r: nat)
    ensures r <= 64
  {
    BitCount(x ^ y, 64)
  }

  lemma Symmetric(x: bv64, y: bv64)
    ensures D(x, y) == D(y, x)
  {
    assert x ^ y == y ^ x;
  }

  lemma {:induction false} BitCountOfZero(n: nat)
    requires n <= 64
    ensures BitCount(0, n) == 0
  {
    if n > 0 {
      assert (0 as bv64) >> 1 == 0;
      BitCountOfZero(n - 1);
    }
  }

  /** Every signature is at distance zero from itself. */
  lemma SelfDistance(x: bv64)
    ensures D(x, x) == 0
  {
    assert x ^ x == 0;
    BitCountOfZero(64);
  }

  /** Bits in which `p ^ q` is set are set in `p` or in `q`. */
  lemma {:induction false} BitCountXor(p: bv64, q: bv64, n: nat)
    requires n <= 64
    ensures BitCount(p ^ q, n) <= BitCount(p, n) + BitCount(q, n)
    decreases n
  {
    if n > 0 {
      var p', q' := p >> 1, q >> 1;
      BitCountXor(p', q', n - 1);
      ShiftXor(p, q);
      LowBitXor(p, q);
    }
  }

  lemma ShiftXor(a: bv64, b: bv64)
    ensures (a ^ b) >> 1 == (a >> 1) ^ (b >> 1)
  {
  }

  lemma LowBitXor(a: bv64, b: bv64)
    ensures LowBit(a ^ b) <= LowBit(a) + LowBit(b)
  {
  }

  lemma XorCancel(x: bv64, y: bv64, z: bv64)
    ensures (x ^ y) ^ (y ^ z) == x ^ z
  {
  }

  /** The triangle inequality of the Hamming metric. */
  lemma Triangle(x: bv64, y: bv64, z: bv64)
    ensures D(x, z) <= D(x, y) + D(y, z)
  {
    var p, q, r := x ^ y, y ^ z, x ^ z;
    XorCancel(x, y, z);
    assert p ^ q == r;
    BitCountXor(p, q, 64);
  }
}
