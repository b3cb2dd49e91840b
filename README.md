# Fibonacci engines of `language_compare/fibonacci`

This project models the two Fibonacci programs of the `language_compare`
benchmark: the C program `fibo_c.c` and the Python module `fibo_python.py`.
Each program computes the n-th Fibonacci number in three ways:

- fast doubling over the bits of n;
- a straight two-variable accumulation loop;
- the textbook double recursion.

The C program also has an argument scan in `main` that ends in help, a
usage error or a run.

Every engine is proved against one reference definition, `FibSpec.Fib`
(F(0) = 0, F(1) = 1, F(n+2) = F(n+1) + F(n)). The programs count from index 1.

Modules:

- `FibSpec` (`fib_spec.dfy`): the reference definition and its lemmas.
  - The addition formula.
  - The two doubling identities used by both fast-doubling engines.
  - The 64-bit boundary: F(n) < 2^64 exactly when n <= 93.
- `Bits` (`bits.dfy`): right shift, bit, bit length and bit reversal on
  naturals, as the C doubling engine walks them.
- `Decimal` (`decimal.dfy`): digit strings, their value and the decimal
  spelling of a number.
- `Wrappers` (`wrappers.dfy`): `Option`.
- `FiboC` (`fibo_c.dfy`): the C engines, as imperative methods.
  - GMP `mpz_t` slots are unbounded `int`s.
  - A `uint64_t` is `U64`, the integers below 2^64.
  - The one wrapping addition, the naive sum, is reduced modulo 2^64
    explicitly.
- `FiboCArgs` (`fibo_c_args.dfy`): the argument scan of `main`.
  - `Decide` is a declarative reading: the arguments are grouped into
    items, with admissibility stated by counting items.
  - `ScanArgs` is the left-to-right loop with its set-once flags and early
    returns. It is proved to reach the same outcome as `Decide`.
- `FiboCMain` (`fibo_c_main.dfy`): the dispatch to an engine and the whole
  program from command line to exit status and printed value.
  - `Execute` is the program as written.
  - `ExecuteRequiringIndex` is the corrected program of the finding below.
- `FiboPython` (`fibo_python.dfy`): the Python engines and the index check.
  - `fib_pair`, `fib_adv` and `fib_naive` are functions.
  - `fib_straight` is a method with a loop.

Where the description of the program and its code disagree, the model
follows the code.

- The C program answers `--help` only when the scan reaches it. An invalid
  argument before the help flag is a usage error
  (`FiboCArgs.ErrorBeforeHelpWins`).
- A command line with no index token runs the chosen engine on index 0,
  instead of failing with a missing-index error. `FiboCArgs.Decide`,
  `FiboCArgs.ScanArgs` and `FiboCMain.Execute` model this as written. The
  corrected behaviour is kept apart, in `FiboCArgs.DecideRequiringIndex`
  and `FiboCMain.ExecuteRequiringIndex` (see Findings).
- The test script expects nothing on standard error for `--help` and
  `3000 --help` (test_inputs.py:101-102). The C program's `print_usage`
  writes the usage text to standard error (fibo_c.c:128). The model's
  `Help` outcome, with exit status 0, follows the code; the usage text
  itself is not modelled.

## Model

| member | source | states |
|---|---|---|
| FibSpec.FibDoubling | language_compare/fibonacci/fibo_c.c:13-14 | F(2k) = F(k)(2F(k+1) - F(k)) and F(2k+1) = F(k+1)^2 + F(k)^2 for every k; the factor 2F(k+1) - F(k) is at least F(k+1), so never negative |
| FibSpec.FibAddition | language_compare/fibonacci/fibo_c.c:13-15 | F(m+n+1) = F(m+1)F(n+1) + F(m)F(n), the identity both doubling formulas specialise |
| FibSpec.DoublingAt | language_compare/fibonacci/fibo_python.py:24-27 | from F(k) = a and F(k+1) = b, the values at 2k, 2k+1 and 2k+2 in terms of a and b |
| FibSpec.FibFitsIn64Bits | language_compare/fibonacci/fibo_c.c:95 | F(n) fits in a `uint64_t` if and only if n <= 93 |
| FibSpec.FibBoundaryValues | language_compare/fibonacci/fibo_c.c:95 | F(93) = 12200160415121876738 < 2^64 <= F(94) |
| FibSpec.FibSmallValues | language_compare/fibonacci/test_inputs.py:132-134 | F(6) = 8 (with F(10), F(23), F(24)) |
| Bits.RevBits | language_compare/fibonacci/fibo_c.c:25-34 | bit i of the reversal of the low j bits of n is bit j-1-i of n, so reading the reversal from its low end visits n from its top bit down |
| Bits.TopBitIsOne | language_compare/fibonacci/fibo_c.c:34 | the most significant bit of a positive n is 1: the shift by BitLength(n) - 1 leaves exactly 1 |
| FiboC.InvertBits | language_compare/fibonacci/fibo_c.c:25-31 | `inverted_n` ends as the bits of n reversed over the bit length of n, and is below 2^BitLength(n), so no shift overflows |
| FiboC.InvertStep | language_compare/fibonacci/fibo_c.c:27-31 | one step of the reversal loop: `inverted_n <<= 1` plus the low bit of `n_copy` stays below 2^64 and is the reversal of one more bit, and `n_copy >>= 1` drops one binary digit |
| FiboC.FibAdv | language_compare/fibonacci/fibo_c.c:16-60 | the doubling loop returns F(n) for every n; its invariant is (fk, fk1) = (F(k), F(k+1)) where k is the prefix of the bits of n consumed so far, seeded with k = 0; the loop's own `temp` slot is asserted never negative |
| FiboC.AdvStep | language_compare/fibonacci/fibo_c.c:34-57 | one loop step appends bit len-1-s of n to the consumed prefix, and that bit is the lowest bit of `inverted_n` at that step |
| FiboC.AdvSlots | language_compare/fibonacci/fibo_c.c:36-56 | one pass of the loop body takes slots holding F(k), F(k+1) for the prefix consumed after s steps to F(k'), F(k'+1) for the prefix after s + 1 steps, choosing by the low bit of `inverted_n` |
| FiboC.FirstStepIsOne | language_compare/fibonacci/fibo_c.c:33-57 | for a positive n, the first loop step consumes the top bit, which is 1, so the prefix becomes k = 1 and the slots F(1) = F(2) = 1 |
| FiboC.DoublingSlots | language_compare/fibonacci/fibo_c.c:37-45 | from slots holding F(k) and F(k+1), `temp` = 2F(k+1) - F(k) is not negative and the products are F(2k) and F(2k+1) |
| FiboC.NextSlots | language_compare/fibonacci/fibo_c.c:47-56 | after the swaps and the conditional swap-and-add, the slots hold F(2k+bit) and F(2k+bit+1) |
| FiboC.FibStraight | language_compare/fibonacci/fibo_c.c:72-86 | the loop keeps (trailing, leading) = (F(i-2), F(i-1)) and returns F(index) for index >= 1, and 1 when the loop does not run |
| FiboC.FibNaive | language_compare/fibonacci/fibo_c.c:95-107 | the wrapped recursion yields F(index) mod 2^64 for index >= 1 (1 for index <= 2), and equals F(index) exactly when index <= 93 |
| FiboC.NaiveSum | language_compare/fibonacci/fibo_c.c:103-106 | the wrapped sum of the two wrapped predecessors is F(index) mod 2^64, exact if and only if index <= 93 |
| FiboC.FibNaiveCaller | language_compare/fibonacci/fibo_c.c:109-115 | hands back the naive result, F(index) mod 2^64 |
| FiboCArgs.Head | language_compare/fibonacci/fibo_c.c:148-166 | the branch a token takes: help flags, `-n`, `--algo` with the token after it (or none), anything else an index token |
| FiboCArgs.AdmissibleExtend | language_compare/fibonacci/fibo_c.c:152-175 | an admissible prefix extended by one item stays admissible exactly when the item is valid and its kind has not occurred (set-once flags) |
| FiboCArgs.DecideRejects | language_compare/fibonacci/fibo_c.c:154-174 | an item that breaks admissibility before any help flag makes the whole command line a usage error, whatever follows |
| FiboCArgs.DecideAtHelp | language_compare/fibonacci/fibo_c.c:148-151 | a help flag after an admissible, help-free prefix decides help, whatever follows |
| FiboCArgs.HelpAt | language_compare/fibonacci/fibo_c.c:148-151 | a help flag reached by the scan means the outcome is help |
| FiboCArgs.RejectAt | language_compare/fibonacci/fibo_c.c:152-175 | an argument the scan returns 1 on (an invalid item or one set twice) means the outcome is a usage error |
| FiboCArgs.AcceptAt | language_compare/fibonacci/fibo_c.c:146-177 | an accepted argument advances the scan past one item (two tokens for `--algo`) with its flags updated |
| FiboCArgs.EndAt | language_compare/fibonacci/fibo_c.c:141-143 | a scan that reaches the end runs with the flags it holds, starting from index 0, printing on and `adv` |
| FiboCArgs.ScanAlgoValue | language_compare/fibonacci/fibo_c.c:157-164 | `--algo` is taken exactly when it is not set yet, a token follows and names naive, straight or adv; the algorithm is then that name |
| FiboCArgs.ScanIndexToken | language_compare/fibonacci/fibo_c.c:166-175 | an index token is taken exactly when no index is set yet, it does not start with '-', converts and is not 0; the index is then its value |
| FiboCArgs.ScanArgs | language_compare/fibonacci/fibo_c.c:131-177 | the scan loop reaches the outcome `Decide` gives on every `argv`, and a run's index fits in 64 bits |
| FiboCArgs.RunReflectsTokens | language_compare/fibonacci/fibo_c.c:141-175 | a run means there was no help flag; printing is on if and only if `-n` is absent; the algorithm is `adv` when `--algo` is absent; a positive index is the value of one of the tokens |
| FiboCArgs.ExtensionDecides | language_compare/fibonacci/fibo_c.c:146-175 | after a prefix that would run, the next token decides: a help flag gives help; a second `-n`, a second `--algo`, a bad `--algo` value, a second or invalid index give a usage error |
| FiboCArgs.CanonicalCommandLine | language_compare/fibonacci/fibo_c.c:146-177 | `prog <n> --algo <name> [-n]` runs that engine on n with printing as given, for every 1 <= n < 2^64 |
| FiboCArgs.SingleIndexToken | language_compare/fibonacci/fibo_c.c:166-175 | a lone non-flag token runs `adv` on its value with printing on if it is a valid index, and is a usage error otherwise |
| FiboCArgs.AlgoValueRejected | language_compare/fibonacci/fibo_c.c:162-163 | `--algo` followed by a name outside naive, straight, adv is a usage error |
| FiboCArgs.AlgoName | language_compare/fibonacci/fibo_c.c:162 | each algorithm has a name the scan accepts for it |
| FiboCArgs.RunAtZeroIffNoIndexToken | language_compare/fibonacci/fibo_c.c:141 | as written, a run has index 0 exactly when no index token was given |
| FiboCArgs.MissingIndexExamples | language_compare/fibonacci/fibo_c.c:141-143 | as written, `fibo -n` runs `adv` on 0 without printing and `fibo --algo naive` runs naive on 0 |
| FiboCArgs.DecideRequiringIndex | language_compare/fibonacci/fibo_c.c:122-123 | the corrected scan: a run has an index between 1 and 2^64 - 1 taken from a token, and it differs from the as-written scan only by rejecting a run without an index token |
| FiboCArgs.ErrorBeforeHelpWins | language_compare/fibonacci/fibo_c.c:146-151 | `fibo 0 --help` is a usage error: the bad index returns before the help flag is reached |
| FiboCArgs.ArgsTestVectorsRejected | language_compare/fibonacci/test_inputs.py:84-90 | no argument, `0`, `**`, `-11`, `1.2` and `hello` are usage errors |
| FiboCArgs.ArgsTestVectorSecondIndex | language_compare/fibonacci/test_inputs.py:89 | `1 --algo adv 2` is a usage error |
| FiboCArgs.ArgsTestVectorsUnknownAlgo | language_compare/fibonacci/test_inputs.py:91-92 | `--algo hello` and `--algo 2` are usage errors |
| FiboCArgs.ArgsTestVectorAlgoAtEnd | language_compare/fibonacci/test_inputs.py:93 | `2 --algo` is a usage error |
| FiboCArgs.ArgsTestVectorUnknownFlag | language_compare/fibonacci/test_inputs.py:94 | `1 --helpa` is a usage error |
| FiboCArgs.ArgsTestVectorsAccepted | language_compare/fibonacci/test_inputs.py:97-101 | `1` runs `adv` on 1 with printing; `--help` is help |
| FiboCArgs.ArgsTestVectorLoneIndex | language_compare/fibonacci/test_inputs.py:98 | `4` runs `adv` on 4 with printing |
| FiboCArgs.ArgsTestVectorAlgoAfterIndex | language_compare/fibonacci/test_inputs.py:99 | `4 --algo adv` runs `adv` on 4 with printing |
| FiboCArgs.ArgsTestVectorAlgoBeforeIndex | language_compare/fibonacci/test_inputs.py:100 | `--algo adv 4` runs `adv` on 4 with printing |
| FiboCArgs.ArgsTestVectorHelpAfterIndex | language_compare/fibonacci/test_inputs.py:102 | `3000 --help` is help |
| FiboCMain.EngineValue | language_compare/fibonacci/fibo_c.c:179-182 | the value each engine prints: F(index) for the GMP engines and F(index) mod 2^64 for naive, equal to F(index) if and only if the engine is not naive or index <= 93 |
| FiboCMain.RunAlgorithm | language_compare/fibonacci/fibo_c.c:179-182 | dispatching on the algorithm runs that engine, and the value is printed exactly when printing is on |
| FiboCMain.Execute | language_compare/fibonacci/fibo_c.c:131-184 | the whole program as written: exit status 1 for a usage error and 0 for help or a run; a value is printed only for a run with printing on, and it is the chosen engine's value, including EngineValue(0, algo) when no index token was given |
| FiboCMain.ExecuteRequiringIndex | language_compare/fibonacci/fibo_c.c:122-123 | the corrected program: as `Execute`, except that a command line without an index token exits with status 1 and prints nothing |
| FiboCMain.MissingIndexRunsNaiveAtZero | language_compare/fibonacci/fibo_c.c:141-182 | as written, `fibo --algo naive` exits with status 0 and prints 1; with the index required it exits with status 1 |
| FiboCMain.SixPrintsEight | language_compare/fibonacci/test_inputs.py:132-134 | `6 --algo <name>` runs each engine on 6 with printing, under the scan as written and the corrected one alike, and each prints 8 |
| FiboPython.FibPair | language_compare/fibonacci/fibo_python.py:19-28 | `fib_pair(k)` = (F(k), F(k+1)) for every k >= 0, (k, 1) below 0; it recurses on k >> 1 and terminates |
| FiboPython.FibAdv | language_compare/fibonacci/fibo_python.py:17-29 | `fib_adv(n)` = F(n) for n >= 0 |
| FiboPython.FibNaive | language_compare/fibonacci/fibo_python.py:31-32 | `fib_naive(n)` = F(n) for n >= 1, and 1 for n <= 2, as an unbounded recursion (the recursion limit is under Left out) |
| FiboPython.FibStraight | language_compare/fibonacci/fibo_python.py:34-39 | the loop over range(3, n+1) returns F(n) for n >= 1, and 1 for n <= 2 |
| FiboPython.AcceptIndex | language_compare/fibonacci/fibo_python.py:56 | an index token is accepted if and only if it is non-empty, all digits, at most 4300 characters long (the default limit of `int()` on a digit string) and its value is above 0; the accepted value is the decimal value of the token, `int(i)`, and so at least 1 |
| FiboPython.AcceptsDecimal | language_compare/fibonacci/fibo_python.py:56 | every positive index whose decimal spelling has at most 4300 digits is accepted with its own value |
| FiboPython.AcceptanceMatchesC | language_compare/fibonacci/fibo_python.py:56 | the Python check and the C scan accept the same index tokens with the same value, up to each one's limit: tokens of at most 4300 characters on the Python side, values below 2^64 on the C side |
| FiboPython.LongTokenRejected | language_compare/fibonacci/fibo_python.py:56 | a token of more than 4300 characters is refused: `int()` raises under the default digit limit, and the parser reports a usage error |
| FiboPython.SameResults | language_compare/fibonacci/fibo_python.py:106-108 | the three engines agree on every index in range(1, bound) |
| FiboPython.SameResultsBigNumbers | language_compare/fibonacci/fibo_python.py:110-112 | the straight and doubling engines agree on every index in range(1, bound) |
| FiboPython.EnginesAgree | language_compare/fibonacci/fibo_python.py:106-112 | the doubling and naive engines, as unbounded recursions, agree with each other and with F on every index n >= 1, not only on the tested ranges (the recursion limit is under Left out) |

## Left out

- Printing: `gmp_printf`, `printf` and `print` are not modelled. Each engine hands back the value it would print.
- The usage text and the messages on standard error are not modelled. Only the outcome and the exit status are.
- GMP is not modelled. Every `mpz_*` call is exact arithmetic on `int`, and a swap is a parallel assignment.
- `strtoull` and `errno` are abstracted: a token converts when it is all decimal digits and its value is below 2^64.
  - Not modelled: leading white space, a leading '+', and the fact that `errno` is never reset.
- The Python index check uses `str.isdigit`, which also accepts non-ASCII digits. The model accepts only '0'..'9'.
- `calc_necessary_digits` and `set_int_digits` are not modelled: they compute a floating-point digit estimate and change an interpreter-wide limit.
  - The default value of that limit, 4300 digits, is modelled as `FiboPython.MAX_STR_DIGITS`. The index check runs before `set_int_digits` can raise it.
- The argparse wiring, `__main__` and `exit` of `fibo_python.py` are not modelled. Of that wiring, only the index check passed to argparse is modelled.
- The Python `--algo` check is argparse wiring and is not modelled.
- `evaluation_aid.py` and `plot_results.py` are not part of this model.
- `test_inputs.py` is not modelled as code. Its assertions appear as lemmas about the C scan and the engines.
- The subprocess-driven tests of `fibo_python.py` (lines 77-103) are argparse behaviour and are not modelled.
- FiboC.FibStraight: the loop counter is an unbounded `nat`. The C `uint64_t` counter would wrap at index 2^64 - 1 and never leave the loop.
- FiboC.FibNaive: the recursion depth and the exponential running time are not modelled.
- FiboPython.FibNaive: the model is the unbounded recursion. `fib_naive(n)` first evaluates `fib_naive(n-1)`, about n frames deep, so under Python's default recursion limit of 1000 it raises `RecursionError` from an index of about 1000 on instead of returning F(n).
- FiboPython.FibPair: the same limit applies to its depth of about log2 k frames, so it is reached only for indices of about 300 decimal digits; the model does not bound the depth.
- FiboPython.EnginesAgree: the agreement holds for the mathematical engines. The Python program agrees only where neither recursion reaches the recursion limit.
- FiboPython.SameResults and FiboPython.SameResultsBigNumbers: `bound` is a parameter. The tests fix it at 20 and 2000.
- `main` ends without a `return`, which in C yields exit status 0 after a run. The model states that status directly.

## Findings

| source | as written | input that shows it | evidently intended | confidence | as-written member | corrected member |
|---|---|---|---|---|---|---|
| language_compare/fibonacci/fibo_c.c:141-182 | a command line without an index token runs the chosen engine on the initial index 0 | `fibo -n` (runs `adv` on 0) and `fibo --algo naive` (prints 1) | a usage error: the usage text lists the index under required arguments and the index branch is commented as required | not executed | FiboCArgs.MissingIndexExamples | FiboCArgs.DecideRequiringIndex |

`FiboCArgs.RunAtZeroIffNoIndexToken` shows that, as written, index 0 occurs
exactly when no index token was given. `FiboCMain.MissingIndexRunsNaiveAtZero`
states the difference at the level of the whole program, between
`FiboCMain.Execute` (as written) and `FiboCMain.ExecuteRequiringIndex`
(corrected).
