/** The end of the C program's `main`: after the argument scan, the chosen
    engine runs on the index and prints its value when printing is on. */
module FiboCMain {
  import opened FibSpec
  import opened Wrappers
  import opened FiboC
  import opened FiboCArgs
  import opened Decimal

  /** The value the chosen engine prints for `index`. The multi-precision
      engines print F(index); the naive engine prints F(index) reduced to
      64 bits, which is F(index) itself exactly up to index 93. At index 0,
      which only the unguarded scan can produce, the straight and naive
      engines print 1 and the doubling engine prints F(0) = 0. */
  function EngineValue(index: nat, algo: Algo): (v: nat)
    ensures index >= 1 && algo != Naive ==> v == Fib(index)
    ensures index >= 1 && algo == Naive ==> v == Fib(index) % TWO_64
    ensures index >= 1 ==> (v == Fib(index) <==> algo != Naive || index <= 93)
    ensures index == 0 ==> v == (if algo == Adv then 0 else 1)
  {
    FibFitsIn64Bits(index);
    if algo == Adv then Fib(index)
    else if index == 0 then 1
    else if algo == Naive then Fib(index) % TWO_64
    else Fib(index)
  }

  /** The dispatch on the algorithm name: each engine computes its value
      and it is printed only when printing is on. */
  method RunAlgorithm(index: U64, algo: Algo, printing: bool) returns (printed: Option<nat>)
    ensures printed == if printing then Some(EngineValue(index, algo)) else None
  {
    var value: nat;
    if algo == Naive {
      value := FibNaiveCaller(index);
    } else if algo == Straight {
      value := FibStraight(index);
    } else {
      value := FibAdv(index);
    }
    printed := if printing then Some(value) else None;
  }

  /** The whole program on a command line, as written: the scan, then the
      run. A run exits with status 0, help with status 0 and a usage error
      with status 1; only a run with printing on prints a value. A command
      line without an index token runs on index 0. */
  method Execute(argv: seq<string>) returns (status: nat, printed: Option<nat>)
    ensures status == ExitStatus(Decide(argv))
    ensures var o := Decide(argv);
      printed == if o.Run? && o.printing then Some(EngineValue(o.index, o.algo)) else None
  {
    var o := ScanArgs(argv);
    status := ExitStatus(o);
    if o.Run? {
      printed := RunAlgorithm(o.index, o.algo, o.printing);
    } else {
      printed := None;
    }
  }

  /** The whole program with the index required, as the usage text
      intends: a command line that would run without an index token is a
      usage error instead; every other command line behaves as in
      `Execute`. */
  method ExecuteRequiringIndex(argv: seq<string>) returns (status: nat, printed: Option<nat>)
    ensures status == ExitStatus(DecideRequiringIndex(argv))
    ensures var o := DecideRequiringIndex(argv);
      printed == if o.Run? && o.printing then Some(EngineValue(o.index, o.algo)) else None
  {
    var o := ScanArgs(argv);
    if o.Run? && o.index == 0 {
      // no index token was given: the index is required
      o := UsageError;
    }
    status := ExitStatus(o);
    if o.Run? {
      printed := RunAlgorithm(o.index, o.algo, o.printing);
    } else {
      printed := None;
    }
  }

  /** As written, `fibo --algo naive` exits with status 0 and prints 1
      (the naive engine at index 0); with the index required it is a usage
      error that prints nothing. */
  lemma MissingIndexRunsNaiveAtZero()
    ensures var argv := ["fibo", "--algo", "naive"];
      && ExitStatus(Decide(argv)) == 0 && Decide(argv).printing
      && EngineValue(Decide(argv).index, Decide(argv).algo) == 1
      && ExitStatus(DecideRequiringIndex(argv)) == 1
  {
    MissingIndexExamples();
  }

  /** The program's own tests pin F(6) = 8 for every engine: the command
      line "6 --algo <name>" runs that engine on 6 with printing on, and
      every engine prints 8. */
  lemma SixPrintsEight(prog: string, a: Algo)
    ensures Decide([prog, "6", "--algo", AlgoName(a)]) == Run(6, a, true)
    ensures DecideRequiringIndex([prog, "6", "--algo", AlgoName(a)]) == Run(6, a, true)
    ensures EngineValue(6, a) == 8
  {
    CanonicalCommandLine(prog, 6, a, true);
    assert ToDecimal(6) == "6";
    assert [prog, "6", "--algo", AlgoName(a)] == [prog, "6", "--algo", AlgoName(a)] + [];
    FibSmallValues();
  }
}
