/** The Python engines. Python integers are unbounded, so every engine is
    exact; the arguments are `int`s, and the behaviour on indices below 1,
    which the index check keeps out, is stated as the code gives it. */
module FiboPython {
  import opened FibSpec
  import opened Decimal
  import opened Wrappers
  import FiboCArgs

  /** `fib_pair`: the pair (F(k), F(k+1)) by recursion on `k >> 1`. From the
      pair at h = k >> 1 it forms F(2h) and F(2h+1) by the doubling
      identities and, when `k` is odd, moves one step on. Below 2 it
      returns (k, 1), which is (F(k), F(k+1)) for k = 0 and k = 1. */
  function FibPair(k: int): (r: (int, int))
    ensures k >= 0 ==> r == (Fib(k), Fib(k + 1))
    ensures k < 0 ==> r == (k, 1)
    decreases if k <= 1 then 0 else k
  {
    if k <= 1 then (k, 1)
    else
      var h := k / 2;
      var p := FibPair(h);
      var fh, fh1 := p.0, p.1;
      DoublingAt(h, fh, fh1);
      var fk := fh * (2 * fh1 - fh);
      var fk1 := fh1 * fh1 + fh * fh;
      if k % 2 == 1 then (fk1, fk + fk1) else (fk, fk1)
  }

  /** `fib_adv`: the first component of the pair, F(n). */
  function FibAdv(n: int): (r: int)
    ensures n >= 0 ==> r == Fib(n)
    ensures n < 0 ==> r == n
  {
    FibPair(n).0
  }

  /** `fib_naive`: 1 up to index 2, otherwise the sum of the two previous
      values; F(n) for every n >= 1. */
  function FibNaive(n: int): (r: int)
    ensures n >= 1 ==> r == Fib(n)
    ensures n <= 2 ==> r == 1
    decreases n
  {
    if n > 2 then FibNaive(n - 1) + FibNaive(n - 2) else 1
  }

  /** `fib_straight`: the loop over `range(3, n + 1)` keeps
      (trailing, leading) = (F(i-1), F(i)) after step i. */
  method FibStraight(n: int) returns (leading: int)
    ensures n >= 1 ==> leading == Fib(n)
    ensures n <= 2 ==> leading == 1
  {
    var trailing := 1;
    leading := 1;
    var i := 3;
    while i < n + 1
      invariant 3 <= i <= if n >= 2 then n + 1 else 3
      invariant trailing == Fib(i - 2) && leading == Fib(i - 1)
      decreases n + 1 - i
    {
      trailing, leading := leading, trailing + leading;
      i := i + 1;
    }
  }

  /** The interpreter's default limit on the number of digits `int()`
      converts from a string; a longer digit string raises `ValueError`.
      `set_int_digits` raises the limit only when printing, after the
      arguments are parsed. */
  const MAX_STR_DIGITS: nat := 4300

  /** The index check given to the argument parser: the token must be all
      decimal digits (the empty string is not), `int()` must convert it
      (at most MAX_STR_DIGITS digits), and its value must be above 0; an
      accepted token converts to that value. */
  function AcceptIndex(token: string): (r: Option<nat>)
    ensures r.Some? <==>
      0 < |token| <= MAX_STR_DIGITS && AllDigits(token) && DigitsValue(token) > 0
    ensures r.Some? ==> r.value >= 1 && exists i :: 0 <= i < |token| && token[i] != '0'
    ensures r.Some? ==> r.value == DigitsValue(token)
  {
    if 0 < |token| <= MAX_STR_DIGITS && AllDigits(token) then
      PositiveIffNonzeroDigit(token);
      if DigitsValue(token) > 0 then Some(DigitsValue(token)) else None
    else None
  }

  /** A digit string longer than the conversion limit is refused, whatever
      its value. */
  lemma LongTokenRejected(token: string)
    requires |token| > MAX_STR_DIGITS
    ensures AcceptIndex(token) == None
  {
  }

  /** Every positive index whose decimal spelling is within the conversion
      limit is accepted with its value. */
  lemma AcceptsDecimal(n: nat)
    requires n >= 1 && |ToDecimal(n)| <= MAX_STR_DIGITS
    ensures AcceptIndex(ToDecimal(n)) == Some(n)
  {
    DecimalRoundTrip(n);
  }

  /** The two programs accept the same index tokens, up to each one's
      limit: a token of at most MAX_STR_DIGITS characters that the C scan
      takes as an index is accepted here with the same value, and a token
      accepted here whose value fits in 64 bits is taken by the C scan. */
  lemma AcceptanceMatchesC(token: string)
    ensures FiboCArgs.IndexTokenValid(token) && |token| <= MAX_STR_DIGITS ==>
      AcceptIndex(token) == FiboCArgs.ParseU64(token)
    ensures AcceptIndex(token).Some? && AcceptIndex(token).value < TWO_64 ==>
      FiboCArgs.IndexTokenValid(token)
  {
  }

  /** The cross-check behind the tests, for every index: the doubling and
      naive engines agree with each other and with F on every n >= 1. */
  lemma EnginesAgree(n: int)
    requires n >= 1
    ensures FibAdv(n) == FibNaive(n) == Fib(n)
  {
  }

  /** `test_same_results`: the three engines agree on every index in
      `range(1, bound)`. */
  method SameResults(bound: int) returns (agree: bool)
    ensures agree
  {
    agree := true;
    var i := 1;
    while i < bound
      invariant agree
    {
      var straight := FibStraight(i);
      agree := agree && straight == FibAdv(i) && FibAdv(i) == FibNaive(i);
      i := i + 1;
    }
  }

  /** `test_same_results_big_numbers`: the straight and doubling engines
      agree on every index in `range(1, bound)`. */
  method SameResultsBigNumbers(bound: int) returns (agree: bool)
    ensures agree
  {
    agree := true;
    var i := 1;
    while i < bound
      invariant agree
    {
      var straight := FibStraight(i);
      agree := agree && straight == FibAdv(i);
      i := i + 1;
    }
  }
}
