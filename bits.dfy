/** Bits of a natural number, as the C fast-doubling engine walks them:
    right shifts, the bit length, and the reversal of the low bits. */
module Bits {
  import opened FibSpec

  function Pow2(j: nat): (r: nat)
    ensures r >= 1
  {
    if j == 0 then 1 else 2 * Pow2(j - 1)
  }

  /** `n >> s` on unsigned values. */
  function Shr(n: nat, s: nat): nat
  {
    if s == 0 then n else Shr(n / 2, s - 1)
  }

  /** Bit `i` of `n`, counting from the least significant bit 0. */
  function Bit(n: nat, i: nat): nat
  {
    Shr(n, i) % 2
  }

  /** The number of binary digits of `n`; 0 for `n == 0`. */
  function BitLength(n: nat): nat
  {
    if n == 0 then 0 else 1 + BitLength(n / 2)
  }

  /** The low `j` bits of `n` in reverse order: bit `t` of `n` becomes bit
      `j-1-t` of the result (see RevBits). */
  function Rev(n: nat, j: nat): nat
  {
    if j == 0 then 0 else 2 * Rev(n, j - 1) + Bit(n, j - 1)
  }

  /** Shifting by one more position halves the shifted value. */
  lemma {:induction false} ShrStep(n: nat, s: nat)
    ensures Shr(n, s + 1) == Shr(n, s) / 2
  {
    if s > 0 {
      ShrStep(n / 2, s - 1);
    }
  }

  /** Each shift below the bit length removes exactly one binary digit. */
  lemma {:induction false} ShrBitLength(n: nat, s: nat)
    requires s <= BitLength(n)
    ensures BitLength(Shr(n, s)) == BitLength(n) - s
  {
    if s > 0 {
      ShrBitLength(n / 2, s - 1);
    }
  }

  /** The most significant bit of a positive number is 1. */
  lemma {:induction false} TopBitIsOne(n: nat)
    requires n > 0
    ensures Shr(n, BitLength(n) - 1) == 1 && Bit(n, BitLength(n) - 1) == 1
  {
    if n > 1 {
      TopBitIsOne(n / 2);
    }
  }

  /** Bit `i` of the reversal of the low `j` bits is bit `j-1-i` of `n`. */
  lemma {:induction false} RevBits(n: nat, j: nat, i: nat)
    requires i < j
    ensures Bit(Rev(n, j), i) == Bit(n, j - 1 - i)
  {
    if i > 0 {
      assert Shr(Rev(n, j), i) == Shr(Rev(n, j) / 2, i - 1);
      assert Rev(n, j) / 2 == Rev(n, j - 1);
      RevBits(n, j - 1, i - 1);
    }
  }

  /** The reversal of the low `j` bits fits in `j` bits. */
  lemma {:induction false} RevBound(n: nat, j: nat)
    ensures Rev(n, j) < Pow2(j)
  {
    if j > 0 {
      RevBound(n, j - 1);
    }
  }

  /** A number below 2^j has at most j bits. */
  lemma {:induction false} BitLengthBound(n: nat, j: nat)
    requires n < Pow2(j)
    ensures BitLength(n) <= j
  {
    if n > 0 {
      BitLengthBound(n / 2, j - 1);
    }
  }

  /** 2^(i+j) = 2^i * 2^j. */
  lemma {:induction false} Pow2Add(i: nat, j: nat)
    ensures Pow2(i + j) == Pow2(i) * Pow2(j)
  {
    if i > 0 {
      Pow2Add(i - 1, j);
    }
  }

  /** Powers of two grow with the exponent. */
  lemma {:induction false} Pow2Monotonic(i: nat, j: nat)
    requires i <= j
    ensures Pow2(i) <= Pow2(j)
  {
    if i < j {
      Pow2Monotonic(i, j - 1);
    }
  }

  /** A `uint64_t` has at most 64 bits: 2^64 = Pow2(64). */
  lemma Pow2Is64Bits()
    ensures Pow2(64) == TWO_64
  {
    assert Pow2(1) == 2;
    Pow2Add(1, 1);
    assert Pow2(2) == 4;
    Pow2Add(2, 2);
    assert Pow2(4) == 16;
    Pow2Add(4, 4);
    assert Pow2(8) == 256;
    Pow2Add(8, 8);
    assert Pow2(16) == 65536;
    Pow2Add(16, 16);
    assert Pow2(32) == 4294967296;
    Pow2Add(32, 32);
  }
}
