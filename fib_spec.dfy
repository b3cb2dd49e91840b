/** The Fibonacci sequence that every engine is measured against, and the
    identities the fast-doubling engines rely on.

    The program counts from index 1 (F(1) = F(2) = 1); the shared reference
    also defines F(0) = 0, which is the seed of the doubling engines. */
module FibSpec {

  /** 2^64: one more than the largest value of a C `uint64_t`. */
  const TWO_64: nat := 0x1_0000_0000_0000_0000

  /** The reference definition: F(0) = 0, F(1) = 1, F(n+2) = F(n+1) + F(n). */
  function Fib(n: nat): nat
  {
    if n == 0 then 0 else if n == 1 then 1 else Fib(n - 1) + Fib(n - 2)
  }

  /** The sequence never decreases: F(m) <= F(n) whenever m <= n. */
  lemma {:induction false} FibMonotonic(m: nat, n: nat)
    requires m <= n
    ensures Fib(m) <= Fib(n)
  {
    if m < n {
      FibMonotonic(m, n - 1);
      if n >= 2 {
        assert Fib(n) == Fib(n - 1) + Fib(n - 2);
      }
    }
  }

  /** The addition formula F(m+n+1) = F(m+1)*F(n+1) + F(m)*F(n), from which
      both doubling identities follow. */
  lemma {:induction false} FibAddition(m: nat, n: nat)
    ensures Fib(m + n + 1) == Fib(m + 1) * Fib(n + 1) + Fib(m) * Fib(n)
  {
    if n == 0 {
    } else if n == 1 {
      assert Fib(2) == 1;
      assert Fib(m + 2) == Fib(m + 1) + Fib(m);
    } else {
      FibAddition(m, n - 1);
      FibAddition(m, n - 2);
      AdditionStep(m, n);
    }
  }

  /** The inductive step of the addition formula: the cases n-1 and n-2
      give the case n. */
  lemma AdditionStep(m: nat, n: nat)
    requires n >= 2
    requires Fib(m + (n - 1) + 1) == Fib(m + 1) * Fib(n - 1 + 1) + Fib(m) * Fib(n - 1)
    requires Fib(m + (n - 2) + 1) == Fib(m + 1) * Fib(n - 2 + 1) + Fib(m) * Fib(n - 2)
    ensures Fib(m + n + 1) == Fib(m + 1) * Fib(n + 1) + Fib(m) * Fib(n)
  {
    assert m + (n - 1) + 1 == m + n && n - 1 + 1 == n;
    assert m + (n - 2) + 1 == m + n - 1 && n - 2 + 1 == n - 1;
    assert Fib(m + n + 1) == Fib(m + n) + Fib(m + n - 1);
    Regroup(Fib(m + 1), Fib(m), Fib(n), Fib(n - 1), Fib(n - 2),
            Fib(m + n), Fib(m + n - 1), Fib(m + n + 1), Fib(n + 1), Fib(n));
  }

  /** The regrouping step of the addition formula's induction: from
      p = a*x + b*y, q = a*y + b*z, r = p + q, s = x + y and t = y + z
      follows r = a*s + b*t. */
  lemma Regroup(a: int, b: int, x: int, y: int, z: int, p: int, q: int, r: int, s: int, t: int)
    requires p == a * x + b * y && q == a * y + b * z
    requires r == p + q && s == x + y && t == y + z
    ensures r == a * s + b * t
  {
  }

  /** The two doubling identities used by both fast-doubling engines:
      F(2k) = F(k) * (2*F(k+1) - F(k)) and F(2k+1) = F(k+1)^2 + F(k)^2,
      together with the fact that the factor 2*F(k+1) - F(k) is never
      negative (it is at least F(k+1)). */
  lemma FibDoubling(k: nat)
    ensures 2 * Fib(k + 1) - Fib(k) >= Fib(k + 1)
    ensures Fib(2 * k) == Fib(k) * (2 * Fib(k + 1) - Fib(k))
    ensures Fib(2 * k + 1) == Fib(k + 1) * Fib(k + 1) + Fib(k) * Fib(k)
  {
    FibMonotonic(k, k + 1);
    FibAddition(k, k);
    if k > 0 {
      FibAddition(k - 1, k);
      var a, b := Fib(k), Fib(k + 1);
      assert Fib(2 * k) == a * b + Fib(k - 1) * a;
      assert Fib(k - 1) == b - a;
      EvenRegroup(a, b);
    }
  }

  /** The regrouping step of the even doubling identity. */
  lemma EvenRegroup(a: int, b: int)
    ensures a * b + (b - a) * a == a * (2 * b - a)
  {
  }

  /** One doubling step on known values: from F(k) = a and F(k+1) = b,
      the values at 2k, 2k+1 and 2k+2. */
  lemma DoublingAt(k: nat, a: nat, b: nat)
    requires Fib(k) == a && Fib(k + 1) == b
    ensures Fib(2 * k) == a * (2 * b - a) && Fib(2 * k + 1) == b * b + a * a
    ensures Fib(2 * k + 2) == a * (2 * b - a) + b * b + a * a
  {
    FibDoubling(k);
  }

  /** Small values fixed by the program's tests and documentation:
      F(6) = 8 and F(10) = 55, computed by doubling. */
  lemma FibSmallValues()
    ensures Fib(6) == 8 && Fib(10) == 55
    ensures Fib(23) == 28657 && Fib(24) == 46368
  {
    assert Fib(2) == 1 && Fib(3) == 2;
    DoublingAt(2, 1, 2);
    DoublingAt(5, 5, 8);
    DoublingAt(11, 89, 144);
  }

  /** The 64-bit boundary: F(93) = 12200160415121876738 is below 2^64 and
      F(94) = 19740274219868223167 is not. */
  lemma FibBoundaryValues()
    ensures Fib(93) == 12200160415121876738 && Fib(93) < TWO_64
    ensures Fib(94) == 19740274219868223167 && Fib(94) >= TWO_64
  {
    FibSmallValues();
    DoublingAt(23, 28657, 46368);
    DoublingAt(46, 1836311903, 2971215073);
  }

  /** Exactly the indices 0..93 have a Fibonacci number that fits in a
      `uint64_t`: F(n) < 2^64 if and only if n <= 93. */
  lemma FibFitsIn64Bits(n: nat)
    ensures Fib(n) < TWO_64 <==> n <= 93
  {
    FibBoundaryValues();
    if n <= 93 {
      FibMonotonic(n, 93);
    } else {
      FibMonotonic(94, n);
    }
  }
}
