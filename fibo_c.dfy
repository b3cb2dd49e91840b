/** The three Fibonacci engines of the C program. GMP integers are exact
    unbounded integers here (`int`); C `uint64_t` values have the type
    `U64`, so every assignment to one is checked not to wrap, and the one
    place where the C code does wrap (the naive sum) reduces modulo 2^64
    explicitly. Printing is left to the caller: each engine returns the
    value it would print. */
module FiboC {
  import opened FibSpec
  import opened Bits

  /** The values of a C `uint64_t`. */
  type U64 = x: int | 0 <= x < TWO_64

  /** The first loop of `fib_adv`: builds `inverted_n`, the bits of `n` in
      reverse order over the bit length of `n`. */
  method InvertBits(n: U64) returns (inverted: U64)
    ensures inverted == Rev(n, BitLength(n))
    ensures inverted < Pow2(BitLength(n))
  {
    BitLengthBound(n, 64) by { Pow2Is64Bits(); }
    inverted := 0;
    var nCopy: U64 := n;
    ghost var j: nat := 0;
    while nCopy > 0
      invariant j <= BitLength(n) <= 64
      invariant nCopy == Shr(n, j) && BitLength(nCopy) == BitLength(n) - j
      invariant inverted == Rev(n, j)
      decreases nCopy
    {
      InvertStep(n, j);
      inverted := inverted * 2;
      if nCopy % 2 == 1 {
        inverted := inverted + 1;
      }
      nCopy := nCopy / 2;
      j := j + 1;
    }
    RevBound(n, j);
  }

  /** One step of the reversal loop: below the bit length of `n` (at most
      64), shifting the reversal left and adding the next low bit of `n`
      stays within 64 bits and gives the reversal of one more bit. */
  lemma InvertStep(n: nat, j: nat)
    requires j < BitLength(n) <= 64
    ensures Rev(n, j) * 2 + 1 < TWO_64
    ensures Rev(n, j + 1) == Rev(n, j) * 2 + Shr(n, j) % 2
    ensures Shr(n, j + 1) == Shr(n, j) / 2
    ensures BitLength(Shr(n, j) / 2) == BitLength(n) - (j + 1)
  {
    RevBound(n, j);
    Pow2Monotonic(j + 1, 64);
    Pow2Is64Bits();
    ShrStep(n, j);
    ShrBitLength(n, j + 1);
  }

  /** `fib_adv`: fast doubling over the bits of `n`, most significant first.
      The five GMP slots are `fk`, `fk1`, `f2k`, `f2k1` and `temp`; after the
      bits consumed so far, read as a binary number k, `fk` = F(k) and
      `fk1` = F(k+1). The result is F(n), for every `n` including 0. */
  method FibAdv(n: U64) returns (fk: int)
    ensures fk == Fib(n)
  {
    var fk1: int, f2k: int, f2k1: int, temp: int;
    fk, fk1, f2k, f2k1, temp := 0, 1, 1, 1, 1;
    var invertedN := InvertBits(n);
    ghost var len := BitLength(n);
    ghost var s: nat := 0;
    var nCopy: U64 := n;
    ShrBitLength(n, len);
    assert Shr(n, len) == 0;
    while nCopy > 0
      invariant s <= len
      invariant nCopy == Shr(n, s) && BitLength(nCopy) == len - s
      invariant invertedN == Rev(n, len - s)
      invariant fk == Fib(Shr(n, len - s)) && fk1 == Fib(Shr(n, len - s) + 1)
      decreases nCopy
    {
      AdvStep(n, len, s);
      // F(2k) = F(k) * (2*F(k+1) - F(k))
      temp := fk1 * 2;
      temp := temp - fk;
      assert temp >= 0 by { FibMonotonic(Shr(n, len - s), Shr(n, len - s) + 1); }
      f2k := fk * temp;
      // F(2k+1) = F(k+1)^2 + F(k)^2
      f2k1 := fk1 * fk1;
      temp := fk * fk;
      f2k1 := f2k1 + temp;
      AdvSlots(n, len, s, fk, fk1, f2k, f2k1);
      fk, f2k := f2k, fk;
      fk1, f2k1 := f2k1, fk1;
      // the lowest bit of invertedN is bit len-1-s of n
      if invertedN % 2 == 1 {
        fk, fk1 := fk1, fk;
        fk1 := fk1 + fk;
      }
      nCopy, invertedN := nCopy / 2, invertedN / 2;
      s := s + 1;
    }
    // one step for each of the BitLength(n) bits of n
    assert s == len;
  }

  /** The first step of the doubling loop on a positive `n`: the top bit of
      `n` is 1, so after one step the consumed prefix k is 1 and the loop
      invariant of `FibAdv` has the slots at (F(1), F(2)) = (1, 1). */
  lemma FirstStepIsOne(n: nat)
    requires n > 0
    ensures Shr(n, BitLength(n) - 1) == 1
    ensures Fib(Shr(n, BitLength(n) - 1)) == 1 && Fib(Shr(n, BitLength(n) - 1) + 1) == 1
  {
    TopBitIsOne(n);
  }

  /** One step of the doubling loop on the bits of `n`: after `s` of its
      `len` bits, shifting `n` one place less appends bit `len-s-1`, which
      is also the lowest bit of the reversal of the remaining bits; the
      values of the next step follow. */
  lemma AdvStep(n: nat, len: nat, s: nat)
    requires s < len && len == BitLength(n)
    ensures Shr(n, len - (s + 1)) == 2 * Shr(n, len - s) + Bit(n, len - s - 1)
    ensures Rev(n, len - s) % 2 == Bit(n, len - s - 1)
    ensures Rev(n, len - s) / 2 == Rev(n, len - (s + 1))
    ensures Shr(n, s + 1) == Shr(n, s) / 2 && BitLength(Shr(n, s) / 2) == len - (s + 1)
    ensures Bit(n, len - s - 1) < 2
  {
    ShrStep(n, len - s - 1);
    ShrStep(n, s);
    ShrBitLength(n, s + 1);
  }

  /** One pass of the loop body on the slots: from F(k) and F(k+1), for k
      the bits of `n` consumed after `s` steps, the doubling block and the
      step taken when the low bit of `inverted_n` is 1 leave F(k') and
      F(k'+1) for k' the bits consumed after `s + 1` steps. */
  lemma AdvSlots(n: nat, len: nat, s: nat, fk: int, fk1: int, f2k: int, f2k1: int)
    requires s < len && len == BitLength(n)
    requires fk == Fib(Shr(n, len - s)) && fk1 == Fib(Shr(n, len - s) + 1)
    requires f2k == fk * (fk1 * 2 - fk) && f2k1 == fk1 * fk1 + fk * fk
    ensures (if Rev(n, len - s) % 2 == 1 then f2k1 else f2k) == Fib(Shr(n, len - (s + 1)))
    ensures (if Rev(n, len - s) % 2 == 1 then f2k + f2k1 else f2k1) == Fib(Shr(n, len - (s + 1)) + 1)
  {
    AdvStep(n, len, s);
    NextSlots(Shr(n, len - s), Bit(n, len - s - 1), fk, fk1, f2k, f2k1);
  }

  /** The doubling block followed by the conditional step: from F(k) and
      F(k+1) the slots end holding F(2k+bit) and F(2k+bit+1). */
  lemma NextSlots(k: nat, bit: nat, fk: int, fk1: int, f2k: int, f2k1: int)
    requires bit < 2 && fk == Fib(k) && fk1 == Fib(k + 1)
    requires f2k == fk * (fk1 * 2 - fk) && f2k1 == fk1 * fk1 + fk * fk
    ensures (if bit == 1 then f2k1 else f2k) == Fib(2 * k + bit)
    ensures (if bit == 1 then f2k + f2k1 else f2k1) == Fib(2 * k + bit + 1)
  {
    DoublingSlots(k, fk, fk1);
    assert Fib(2 * k + 2) == Fib(2 * k + 1) + Fib(2 * k);
  }

  /** The doubling block of `fib_adv` on slots holding F(k) and F(k+1):
      the factor `temp` is not negative and the two products are F(2k) and
      F(2k+1). */
  lemma DoublingSlots(k: nat, fk: int, fk1: int)
    requires fk == Fib(k) && fk1 == Fib(k + 1)
    ensures fk1 * 2 - fk >= 0
    ensures fk * (fk1 * 2 - fk) == Fib(2 * k)
    ensures fk1 * fk1 + fk * fk == Fib(2 * k + 1)
  {
    FibDoubling(k);
  }

  /** `fib_straight`: one addition per step from F(1) = F(2) = 1. The result
      is F(index) for index >= 1, and 1 when the loop does not run
      (index <= 2, including 0). */
  method FibStraight(index: U64) returns (leading: int)
    ensures index >= 1 ==> leading == Fib(index)
    ensures index <= 2 ==> leading == 1
  {
    var trailing: int := 1;
    leading := 1;
    var i: nat := 3;
    while i <= index
      invariant 3 <= i <= if index >= 2 then index + 1 else 3
      invariant trailing == Fib(i - 2) && leading == Fib(i - 1)
      decreases index + 1 - i
    {
      trailing, leading := leading, trailing;
      leading := trailing + leading;
      i := i + 1;
    }
  }

  /** `fib_naive`: the textbook double recursion in `uint64_t`, whose sum
      wraps modulo 2^64. The result is F(index) mod 2^64 for index >= 1
      (1 for index <= 2, including 0); it is exact exactly when
      index <= 93. */
  method FibNaive(index: U64) returns (result: U64)
    ensures index >= 1 ==> result == Fib(index) % TWO_64
    ensures 1 <= index ==> (result == Fib(index) <==> index <= 93)
    ensures index <= 2 ==> result == 1
    decreases index
  {
    if index <= 2 {
      result := 1;
      return;
    }
    var a := FibNaive(index - 1);
    var b := FibNaive(index - 2);
    NaiveSum(index, a, b);
    result := (a + b) % TWO_64;
  }

  /** The wrapped sum of the two wrapped values before `index` is F(index)
      mod 2^64, and it is F(index) itself exactly up to index 93. */
  lemma NaiveSum(index: nat, a: nat, b: nat)
    requires index >= 3 && a == Fib(index - 1) % TWO_64 && b == Fib(index - 2) % TWO_64
    ensures (a + b) % TWO_64 == Fib(index) % TWO_64
    ensures (a + b) % TWO_64 == Fib(index) <==> index <= 93
  {
    SumMod64(Fib(index - 1), Fib(index - 2));
    FibFitsIn64Bits(index);
    assert Fib(index) == Fib(index - 1) + Fib(index - 2);
  }

  /** Reducing the operands of a sum modulo 2^64 does not change the sum
      modulo 2^64. */
  lemma SumMod64(x: nat, y: nat)
    ensures (x % TWO_64 + y % TWO_64) % TWO_64 == (x + y) % TWO_64
  {
  }

  /** `fib_naive_caller`: runs the naive recursion and hands back the value
      it would print. */
  method FibNaiveCaller(index: U64) returns (result: U64)
    ensures index >= 1 ==> result == Fib(index) % TWO_64
    ensures index <= 2 ==> result == 1
  {
    result := FibNaive(index);
  }
}
