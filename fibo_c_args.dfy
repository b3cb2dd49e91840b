/** The argument scan of the C program's `main` and the dispatch to an
    engine. Only the decisions are modelled: what is printed to standard
    error, and the usage text, are not.

    `argv` includes the program name at position 0. A scan ends in one of
    three outcomes: help (exit status 0), a usage error (exit status 1), or
    a run of one engine on an index with printing on or off (exit status 0).

    The declarative reading `Decide` groups the arguments into items (a flag,
    `--algo` with the token after it, or an index token) and states when the
    command line is admissible by counting items; `ScanArgs` is the
    left-to-right loop of `main` and is proved to reach the same outcome. */
module FiboCArgs {
  import opened FibSpec
  import opened Decimal
  import opened Wrappers
  import FiboC

  datatype Algo = Naive | Straight | Adv

  datatype Outcome = Help | UsageError | Run(index: nat, algo: Algo, printing: bool)

  /** The process exit status of an outcome. */
  function ExitStatus(o: Outcome): nat
  {
    if o.UsageError? then 1 else 0
  }

  /** The algorithm names `--algo` accepts. */
  function AlgoNamed(name: string): Option<Algo>
  {
    if name == "naive" then Some(Naive)
    else if name == "straight" then Some(Straight)
    else if name == "adv" then Some(Adv)
    else None
  }

  predicate IsHelpFlag(t: string)
  {
    t == "-h" || t == "--help"
  }

  /** The `strtoull` conversion, abstracted: a token is converted exactly
      when it is all decimal digits and its value fits in 64 bits (the
      empty token converts to 0). */
  function ParseU64(t: string): Option<nat>
  {
    if AllDigits(t) && DigitsValue(t) < TWO_64 then Some(DigitsValue(t)) else None
  }

  /** An index token is accepted when it does not start with '-', converts,
      and is not 0. */
  predicate IndexTokenValid(t: string)
  {
    !(|t| > 0 && t[0] == '-') && ParseU64(t).Some? && ParseU64(t).value > 0
  }

  /** One argument as `main` reads it: `--algo` takes the token after it
      with it (or finds none). */
  datatype Item = HelpItem | NoPrintItem | AlgoItem(name: string) | AlgoMissingItem | IndexItem(token: string)

  datatype Kind = HelpK | NoPrintK | AlgoK | IndexK

  function KindOf(x: Item): Kind
  {
    match x
    case HelpItem => HelpK
    case NoPrintItem => NoPrintK
    case AlgoItem(_) => AlgoK
    case AlgoMissingItem => AlgoK
    case IndexItem(_) => IndexK
  }

  /** The arguments after the program name, grouped into items: the first
      item, then the items of the tokens it leaves. */
  function Items(rest: seq<string>): seq<Item>
    decreases |rest|
  {
    if rest == [] then [] else [Head(rest)] + Items(rest[Skip(rest)..])
  }

  /** The first item of a non-empty argument list: a flag, `--algo` with the
      token after it (or with none), or an index token. */
  function Head(rest: seq<string>): (x: Item)
    requires rest != []
    ensures IsHelpFlag(rest[0]) <==> x == HelpItem
    ensures rest[0] == "-n" <==> x == NoPrintItem
    ensures rest[0] == "--algo" <==> KindOf(x) == AlgoK
    ensures x.IndexItem? ==> x.token == rest[0]
    ensures x.AlgoItem? <==> rest[0] == "--algo" && |rest| >= 2
    ensures x.AlgoItem? ==> x.name == rest[1]
  {
    FlagSpellings();
    if IsHelpFlag(rest[0]) then HelpItem
    else if rest[0] == "-n" then NoPrintItem
    else if rest[0] == "--algo" then (if |rest| == 1 then AlgoMissingItem else AlgoItem(rest[1]))
    else IndexItem(rest[0])
  }

  /** How many tokens the first item of a non-empty list takes. */
  function Skip(rest: seq<string>): (n: nat)
    requires rest != []
    ensures 1 <= n <= |rest|
  {
    if rest[0] == "--algo" && |rest| >= 2 then 2 else 1
  }

  function CountKind(its: seq<Item>, k: Kind): nat
  {
    if its == [] then 0 else (if KindOf(its[0]) == k then 1 else 0) + CountKind(its[1..], k)
  }

  /** An item that is wrong on its own: an unknown algorithm name, `--algo`
      without a following token, or a rejected index token. */
  predicate ItemValid(x: Item)
  {
    match x
    case AlgoItem(name) => AlgoNamed(name).Some?
    case AlgoMissingItem => false
    case IndexItem(t) => IndexTokenValid(t)
    case _ => true
  }

  /** Items that `main` lets through: each is valid on its own, and `-n`,
      `--algo` and the index each occur at most once. */
  predicate Admissible(its: seq<Item>)
  {
    && (forall i :: 0 <= i < |its| ==> ItemValid(its[i]))
    && CountKind(its, NoPrintK) <= 1
    && CountKind(its, AlgoK) <= 1
    && CountKind(its, IndexK) <= 1
  }

  /** The position of the first help flag, or the length if there is none. */
  function FirstHelp(its: seq<Item>): (h: nat)
    ensures h <= |its|
    ensures h < |its| ==> its[h] == HelpItem
  {
    if its == [] then 0 else if its[0] == HelpItem then 0 else 1 + FirstHelp(its[1..])
  }

  /** The value of the first index item, 0 if there is none (the initial
      value of `index` in `main`). */
  function IndexIn(its: seq<Item>): nat
  {
    if its == [] then 0
    else if its[0].IndexItem? then
      (match ParseU64(its[0].token) case Some(v) => v case None => 0)
    else IndexIn(its[1..])
  }

  /** The algorithm named by the first `--algo` item, `adv` if there is none
      (the default of `main`). */
  function AlgoIn(its: seq<Item>): Algo
  {
    if its == [] then Adv
    else if its[0].AlgoItem? then
      (match AlgoNamed(its[0].name) case Some(a) => a case None => Adv)
    else if its[0].AlgoMissingItem? then Adv
    else AlgoIn(its[1..])
  }

  /** The outcome decided by the items: help when a help flag occurs and the
      items before the first one are admissible; a usage error when those
      items are not admissible; otherwise a run with the index given (0 if
      none was), the algorithm named (`adv` by default), and printing on
      unless `-n` occurs. */
  function DecideItems(its: seq<Item>): Outcome
  {
    var h := FirstHelp(its);
    if !Admissible(its[..h]) then UsageError
    else if h < |its| then Help
    else Run(IndexIn(its), AlgoIn(its), CountKind(its, NoPrintK) == 0)
  }

  /** The outcome of `main`'s argument handling on `argv`: fewer than two
      entries is a usage error. */
  function Decide(argv: seq<string>): Outcome
  {
    if |argv| < 2 then UsageError else DecideItems(Items(argv[1..]))
  }

  lemma {:induction false} CountKindAppend(a: seq<Item>, b: seq<Item>, k: Kind)
    ensures CountKind(a + b, k) == CountKind(a, k) + CountKind(b, k)
  {
    if a != [] {
      assert (a + b)[0] == a[0] && (a + b)[1..] == a[1..] + b;
      CountKindAppend(a[1..], b, k);
    } else {
      assert a + b == b;
    }
  }

  lemma {:induction false} FirstHelpAppend(a: seq<Item>, b: seq<Item>)
    requires FirstHelp(a) == |a|
    ensures FirstHelp(a + b) == |a| + FirstHelp(b)
  {
    if a != [] {
      assert (a + b)[1..] == a[1..] + b;
      FirstHelpAppend(a[1..], b);
    } else {
      assert a + b == b;
    }
  }

  lemma {:induction false} IndexInAppend(a: seq<Item>, b: seq<Item>)
    ensures IndexIn(a + b) == if CountKind(a, IndexK) > 0 then IndexIn(a) else IndexIn(b)
  {
    if a != [] {
      assert (a + b)[1..] == a[1..] + b;
      IndexInAppend(a[1..], b);
    } else {
      assert a + b == b;
    }
  }

  lemma {:induction false} AlgoInAppend(a: seq<Item>, b: seq<Item>)
    ensures AlgoIn(a + b) == if CountKind(a, AlgoK) > 0 then AlgoIn(a) else AlgoIn(b)
  {
    if a != [] {
      assert (a + b)[1..] == a[1..] + b;
      AlgoInAppend(a[1..], b);
    } else {
      assert a + b == b;
    }
  }

  lemma Regroup(a: seq<Item>, x: Item, b: seq<Item>)
    ensures a + ([x] + b) == (a + [x]) + b
  {
  }

  /** Appending one item keeps the items admissible exactly when the item is
      valid and is not a second `-n`, `--algo` or index. */
  lemma AdmissibleExtend(done: seq<Item>, x: Item)
    requires Admissible(done)
    ensures Admissible(done + [x]) <==>
      ItemValid(x) && (KindOf(x) == HelpK || CountKind(done, KindOf(x)) == 0)
  {
    CountKindAppend(done, [x], NoPrintK);
    CountKindAppend(done, [x], AlgoK);
    CountKindAppend(done, [x], IndexK);
    assert CountKind([x], KindOf(x)) == 1;
    if Admissible(done + [x]) {
      assert (done + [x])[|done|] == x;
    }
  }

  /** Every prefix of admissible items is admissible. */
  lemma AdmissiblePrefix(its: seq<Item>, n: nat)
    requires n <= |its| && Admissible(its)
    ensures Admissible(its[..n])
  {
    assert its == its[..n] + its[n..];
    CountKindAppend(its[..n], its[n..], NoPrintK);
    CountKindAppend(its[..n], its[n..], AlgoK);
    CountKindAppend(its[..n], its[n..], IndexK);
  }

  /** Once the items before the first help flag stop being admissible, the
      outcome is a usage error whatever follows. */
  lemma DecideRejects(done: seq<Item>, x: Item, tail: seq<Item>)
    requires FirstHelp(done) == |done| && x != HelpItem
    requires !Admissible(done + [x])
    ensures DecideItems(done + ([x] + tail)) == UsageError
  {
    var its := done + ([x] + tail);
    FirstHelpAppend(done, [x] + tail);
    var h := FirstHelp(its);
    Regroup(done, x, tail);
    TakeOfAppend(done + [x], tail, h);
    if Admissible(its[..h]) {
      AdmissiblePrefix(its[..h], |done| + 1);
    }
  }

  /** Taking the first |a| elements of a prefix of a + b that covers a. */
  lemma TakeOfAppend(a: seq<Item>, b: seq<Item>, n: nat)
    requires |a| <= n <= |a| + |b|
    ensures (a + b)[..n][..|a|] == a
  {
    assert (a + b)[..n][..|a|] == (a + b)[..|a|];
  }

  /** A help flag reached with admissible items before it is a help outcome. */
  lemma DecideAtHelp(done: seq<Item>, tail: seq<Item>)
    requires FirstHelp(done) == |done| && Admissible(done)
    ensures DecideItems(done + ([HelpItem] + tail)) == Help
  {
    var its := done + ([HelpItem] + tail);
    FirstHelpAppend(done, [HelpItem] + tail);
    assert its[..|done|] == done;
  }

  /** The variables `main` keeps while scanning. */
  datatype Flags = Flags(index: nat, isSetIndex: bool, isPrinting: bool, isSetPrinting: bool,
                         algo: Algo, isSetAlgo: bool)

  /** The scan's variables after the items `done`: no help flag so far, the
      items admissible, each `is_set_*` flag set exactly when its item
      occurred, and the values the items recorded. */
  ghost predicate Tracks(done: seq<Item>, st: Flags)
  {
    && FirstHelp(done) == |done| && Admissible(done)
    && st.isSetPrinting == (CountKind(done, NoPrintK) == 1) && st.isPrinting == !st.isSetPrinting
    && st.isSetAlgo == (CountKind(done, AlgoK) == 1) && st.algo == AlgoIn(done)
    && st.isSetIndex == (CountKind(done, IndexK) == 1) && st.index == IndexIn(done)
  }

  /** What the scan does to its variables on an admissible item. */
  function Update(st: Flags, x: Item): Flags
  {
    match x
    case NoPrintItem => st.(isSetPrinting := true, isPrinting := false)
    case AlgoItem(name) =>
      st.(isSetAlgo := true, algo := match AlgoNamed(name) case Some(a) => a case None => Adv)
    case IndexItem(t) =>
      st.(isSetIndex := true, index := match ParseU64(t) case Some(v) => v case None => 0)
    case _ => st
  }

  /** The scan has consumed the tokens before position `i` of `argv`, which
      grouped into the items `done`, and its variables track them. */
  ghost predicate ScannedUpTo(argv: seq<string>, i: nat, done: seq<Item>, st: Flags)
  {
    1 <= i <= |argv| && done + Items(argv[i..]) == Items(argv[1..]) && Tracks(done, st)
  }

  /** The item that starts at position `i` and the position after it. */
  lemma ItemAt(argv: seq<string>, i: nat)
    requires 1 <= i < |argv|
    ensures Items(argv[i..]) == [Head(argv[i..])] + Items(argv[i + Skip(argv[i..])..])
    ensures Head(argv[i..]) == HelpItem <==> IsHelpFlag(argv[i])
    ensures Head(argv[i..]) == NoPrintItem <==> argv[i] == "-n"
    ensures argv[i] == "--algo" ==>
      Head(argv[i..]) == (if i + 1 < |argv| then AlgoItem(argv[i + 1]) else AlgoMissingItem)
    ensures !IsHelpFlag(argv[i]) && argv[i] != "-n" && argv[i] != "--algo" ==>
      Head(argv[i..]) == IndexItem(argv[i])
    ensures Skip(argv[i..]) == (if argv[i] == "--algo" && i + 1 < |argv| then 2 else 1)
  {
  }

  /** A help flag at position `i` decides help. */
  lemma HelpAt(argv: seq<string>, i: nat, done: seq<Item>, st: Flags)
    requires ScannedUpTo(argv, i, done, st) && i < |argv| && IsHelpFlag(argv[i])
    ensures Decide(argv) == Help
  {
    ItemAt(argv, i);
    DecideAtHelp(done, Items(argv[i + 1..]));
  }

  /** An item at position `i` that is wrong on its own or repeats a kind
      already seen decides a usage error. */
  lemma RejectAt(argv: seq<string>, i: nat, done: seq<Item>, st: Flags)
    requires ScannedUpTo(argv, i, done, st) && i < |argv| && !IsHelpFlag(argv[i])
    requires var x := Head(argv[i..]); !ItemValid(x) || CountKind(done, KindOf(x)) > 0
    ensures Decide(argv) == UsageError
  {
    ItemAt(argv, i);
    var x := Head(argv[i..]);
    AdmissibleExtend(done, x);
    DecideRejects(done, x, Items(argv[i + Skip(argv[i..])..]));
  }

  /** An admissible item at position `i` moves the scan past it, with the
      variables updated as the item says. */
  lemma AcceptAt(argv: seq<string>, i: nat, done: seq<Item>, st: Flags, next: Flags, k: nat)
    requires ScannedUpTo(argv, i, done, st) && i < |argv| && !IsHelpFlag(argv[i])
    requires var x := Head(argv[i..]); ItemValid(x) && CountKind(done, KindOf(x)) == 0
    requires next == Update(st, Head(argv[i..])) && k == i + Skip(argv[i..])
    ensures ScannedUpTo(argv, k, done + [Head(argv[i..])], next)
  {
    ItemAt(argv, i);
    var x := Head(argv[i..]);
    AdmissibleExtend(done, x);
    Advance(done, x);
    var tail := Items(argv[i + Skip(argv[i..])..]);
    Regroup(done, x, tail);
  }

  /** Once every token is consumed, the tracked variables are the run. */
  lemma EndAt(argv: seq<string>, done: seq<Item>, st: Flags)
    requires |argv| >= 2 && ScannedUpTo(argv, |argv|, done, st)
    ensures Decide(argv) == Run(st.index, st.algo, st.isPrinting)
  {
    assert argv[|argv|..] == [];
    assert done == Items(argv[1..]);
    assert done[..FirstHelp(done)] == done;
  }

  /** The `--algo` branch of `main`'s loop at position `i`: a second
      `--algo`, a missing value or an unknown name is rejected; otherwise
      the named algorithm is recorded and the flag set. */
  method ScanAlgoValue(argv: seq<string>, i: nat, algo0: Algo, isSetAlgo0: bool)
    returns (ok: bool, algo: Algo, isSetAlgo: bool)
    ensures ok <==> !isSetAlgo0 && i + 1 < |argv| && AlgoNamed(argv[i + 1]).Some?
    ensures ok ==> algo == AlgoNamed(argv[i + 1]).value && isSetAlgo
  {
    algo, isSetAlgo := algo0, isSetAlgo0;
    if isSetAlgo {
      return false, algo, isSetAlgo;
    } else {
      isSetAlgo := true;
    }
    if i + 1 >= |argv| {
      return false, algo, isSetAlgo;
    }
    var named := AlgoNamed(argv[i + 1]);
    if named.Some? {
      algo := named.value;
    } else {
      return false, algo, isSetAlgo;
    }
    ok := true;
  }

  /** The index branch of `main`'s loop: a second index, a token starting
      with '-', one that does not convert to a 64-bit value, and 0 are
      rejected; otherwise the value is recorded and the flag set. */
  method ScanIndexToken(arg: string, index0: FiboC.U64, isSetIndex0: bool)
    returns (ok: bool, index: FiboC.U64, isSetIndex: bool)
    ensures ok <==> !isSetIndex0 && IndexTokenValid(arg)
    ensures ok ==> index == ParseU64(arg).value && isSetIndex
  {
    index, isSetIndex := index0, isSetIndex0;
    if isSetIndex {
      return false, index, isSetIndex;
    } else {
      isSetIndex := true;
    }
    if |arg| > 0 && arg[0] == '-' {
      return false, index, isSetIndex;
    }
    var parsed := ParseU64(arg);
    if parsed.None? {
      return false, index, isSetIndex;
    }
    index := parsed.value;
    if index == 0 {
      return false, index, isSetIndex;
    }
    ok := true;
  }

  /** The loop of `main` (lines 146-177), proved to reach the outcome
      `Decide` states; a run carries a 64-bit index. */
  method ScanArgs(argv: seq<string>) returns (o: Outcome)
    ensures o == Decide(argv)
    ensures o.Run? ==> o.index < TWO_64
  {
    if |argv| < 2 {
      return UsageError;
    }
    var index: FiboC.U64 := 0;
    var isSetIndex := false;
    var isPrinting := true;
    var isSetPrinting := false;
    var algo := Adv;
    var isSetAlgo := false;
    ghost var done: seq<Item> := [];
    var i := 1;
    assert argv[1..] == argv[i..];
    while i < |argv|
      invariant ScannedUpTo(argv, i, done, Flags(index, isSetIndex, isPrinting, isSetPrinting, algo, isSetAlgo))
      decreases |argv| - i
    {
      ghost var st := Flags(index, isSetIndex, isPrinting, isSetPrinting, algo, isSetAlgo);
      ghost var x, i0 := Head(argv[i..]), i;
      var arg := argv[i];
      ItemAt(argv, i);
      if arg == "-h" || arg == "--help" {
        HelpAt(argv, i, done, st);
        return Help;
      } else if arg == "-n" {
        if isSetPrinting {
          RejectAt(argv, i, done, st);
          return UsageError;
        } else {
          isSetPrinting := true;
        }
        isPrinting := false;
      } else if arg == "--algo" {
        var ok;
        ok, algo, isSetAlgo := ScanAlgoValue(argv, i, algo, isSetAlgo);
        if !ok {
          RejectAt(argv, i, done, st);
          return UsageError;
        }
        i := i + 1;
      } else {
        var ok;
        ok, index, isSetIndex := ScanIndexToken(arg, index, isSetIndex);
        if !ok {
          RejectAt(argv, i, done, st);
          return UsageError;
        }
      }
      AcceptAt(argv, i0, done, st, Flags(index, isSetIndex, isPrinting, isSetPrinting, algo, isSetAlgo), i + 1);
      done := done + [x];
      i := i + 1;
    }
    EndAt(argv, done, Flags(index, isSetIndex, isPrinting, isSetPrinting, algo, isSetAlgo));
    o := Run(index, algo, isPrinting);
  }


  /** Moving one item other than help from the pending arguments to the
      processed ones: how the counts and the recorded index and algorithm
      change. */
  lemma Advance(done: seq<Item>, x: Item)
    requires FirstHelp(done) == |done| && x != HelpItem
    ensures FirstHelp(done + [x]) == |done| + 1
    ensures CountKind(done + [x], NoPrintK) == CountKind(done, NoPrintK) + (if x.NoPrintItem? then 1 else 0)
    ensures CountKind(done + [x], AlgoK) == CountKind(done, AlgoK) + (if KindOf(x) == AlgoK then 1 else 0)
    ensures CountKind(done + [x], IndexK) == CountKind(done, IndexK) + (if x.IndexItem? then 1 else 0)
    ensures IndexIn(done + [x]) == if CountKind(done, IndexK) > 0 then IndexIn(done) else IndexIn([x])
    ensures AlgoIn(done + [x]) == if CountKind(done, AlgoK) > 0 then AlgoIn(done) else AlgoIn([x])
  {
    FirstHelpAppend(done, [x]);
    CountKindAppend(done, [x], NoPrintK);
    CountKindAppend(done, [x], AlgoK);
    CountKindAppend(done, [x], IndexK);
    IndexInAppend(done, [x]);
    AlgoInAppend(done, [x]);
  }

  /** Grouping two argument lists separately and together agree unless the
      first ends with a dangling `--algo`. */
  lemma {:induction false} ItemsAppend(a: seq<string>, b: seq<string>)
    requires AlgoMissingItem !in Items(a)
    ensures Items(a + b) == Items(a) + Items(b)
    decreases |a|
  {
    if a == [] {
      assert a + b == b;
    } else {
      var ab := a + b;
      var k := Skip(a);
      assert Items(a) == [Head(a)] + Items(a[k..]);
      assert Head(a) != AlgoMissingItem;
      assert ab[0] == a[0];
      assert a[0] == "--algo" ==> |a| >= 2 && ab[1] == a[1];
      assert Head(ab) == Head(a) && Skip(ab) == k;
      assert ab[k..] == a[k..] + b;
      assert AlgoMissingItem !in Items(a[k..]);
      ItemsAppend(a[k..], b);
      assert Items(ab) == [Head(a)] + Items(a[k..] + b);
      Assoc([Head(a)], Items(a[k..]), Items(b));
    }
  }

  lemma Assoc(a: seq<Item>, b: seq<Item>, c: seq<Item>)
    ensures a + (b + c) == (a + b) + c
  {
  }

  /** The four flag spellings are distinct. */
  lemma FlagSpellings()
    ensures "-h" != "-n" && "-h" != "--algo" && "--help" != "-n" && "--help" != "--algo"
  {
  }

  /** The first item of a non-empty list and what it says about the first
      tokens; the remaining items are those of the remaining tokens. */
  lemma ItemsUncons(rest: seq<string>)
    requires rest != []
    ensures Skip(rest) <= |rest| && Items(rest) != []
    ensures Items(rest) == [Items(rest)[0]] + Items(rest[Skip(rest)..])
    ensures Items(rest)[0] == Head(rest)
    ensures var x := Items(rest)[0];
      && (IsHelpFlag(rest[0]) <==> x == HelpItem)
      && (rest[0] == "-n" <==> x == NoPrintItem)
      && (rest[0] == "--algo" <==> KindOf(x) == AlgoK)
      && (x.IndexItem? ==> x.token == rest[0])
      && (x.AlgoItem? ==> Skip(rest) == 2 && x.name == rest[1])
      && (!x.AlgoItem? ==> Skip(rest) == 1)
  {
  }

  /** Arguments that group into admissible items with no help flag. */
  ghost predicate Clean(rest: seq<string>)
  {
    Admissible(Items(rest)) && FirstHelp(Items(rest)) == |Items(rest)|
  }

  /** Removing the first item of a clean list leaves a clean list; the first
      item is valid and counts once towards its kind. */
  lemma CleanTail(rest: seq<string>)
    requires rest != [] && Clean(rest)
    ensures Skip(rest) <= |rest| && Clean(rest[Skip(rest)..])
    ensures var x := Items(rest)[0];
      && x != HelpItem && ItemValid(x)
      && CountKind(Items(rest), NoPrintK) == (if x.NoPrintItem? then 1 else 0) + CountKind(Items(rest[Skip(rest)..]), NoPrintK)
      && CountKind(Items(rest), AlgoK) == (if KindOf(x) == AlgoK then 1 else 0) + CountKind(Items(rest[Skip(rest)..]), AlgoK)
      && CountKind(Items(rest), IndexK) == (if x.IndexItem? then 1 else 0) + CountKind(Items(rest[Skip(rest)..]), IndexK)
  {
  }

  /** No token of a clean list is a help flag. */
  lemma {:induction false} CleanHasNoHelp(rest: seq<string>)
    requires Clean(rest)
    ensures forall j :: 0 <= j < |rest| ==> !IsHelpFlag(rest[j])
    decreases |rest|
  {
    if rest != [] {
      CleanTail(rest);
      ItemsUncons(rest);
      var more := rest[Skip(rest)..];
      CleanHasNoHelp(more);
      forall j | Skip(rest) <= j < |rest| ensures !IsHelpFlag(rest[j]) {
        assert rest[j] == more[j - Skip(rest)];
      }
      if Skip(rest) == 2 {
        assert AlgoNamed(rest[1]).Some?;
      }
    }
  }

  /** In a clean list, `-n` is a token exactly when the items count it. */
  lemma {:induction false} CleanNoPrint(rest: seq<string>)
    requires Clean(rest)
    ensures "-n" in rest <==> CountKind(Items(rest), NoPrintK) > 0
    decreases |rest|
  {
    if rest != [] {
      CleanTail(rest);
      ItemsUncons(rest);
      var more := rest[Skip(rest)..];
      CleanNoPrint(more);
      assert rest == rest[..Skip(rest)] + more;
      if Skip(rest) == 2 {
        assert AlgoNamed(rest[1]).Some?;
        assert rest[..2] == [rest[0], rest[1]];
      } else {
        assert rest[..1] == [rest[0]];
      }
    }
  }

  /** In a clean list, `--algo` is a token exactly when the items count it,
      and without it the algorithm is `adv`. */
  lemma {:induction false} CleanAlgo(rest: seq<string>)
    requires Clean(rest)
    ensures "--algo" in rest <==> CountKind(Items(rest), AlgoK) > 0
    ensures CountKind(Items(rest), AlgoK) == 0 ==> AlgoIn(Items(rest)) == Adv
    decreases |rest|
  {
    if rest != [] {
      CleanTail(rest);
      ItemsUncons(rest);
      var more := rest[Skip(rest)..];
      CleanAlgo(more);
      assert rest == rest[..Skip(rest)] + more;
      if Skip(rest) == 2 {
        assert AlgoNamed(rest[1]).Some?;
        assert rest[..2] == [rest[0], rest[1]];
      } else {
        assert rest[..1] == [rest[0]];
      }
    }
  }

  /** In a clean list, the recorded index is positive exactly when an index
      item occurs, and then it is the value of one of the tokens. */
  lemma {:induction false} CleanIndex(rest: seq<string>)
    requires Clean(rest)
    ensures IndexIn(Items(rest)) > 0 <==> CountKind(Items(rest), IndexK) > 0
    ensures IndexIn(Items(rest)) > 0 ==>
      exists j :: 0 <= j < |rest| && ParseU64(rest[j]) == Some(IndexIn(Items(rest)))
    decreases |rest|
  {
    if rest != [] {
      CleanTail(rest);
      ItemsUncons(rest);
      var its := Items(rest);
      var more := rest[Skip(rest)..];
      CleanIndex(more);
      if its[0].IndexItem? {
        assert IndexTokenValid(rest[0]);
      } else if IndexIn(its) > 0 {
        var j :| 0 <= j < |more| && ParseU64(more[j]) == Some(IndexIn(Items(more)));
        assert rest[j + Skip(rest)] == more[j];
      }
    }
  }

  /** A run reflects the tokens: no help flag occurs, printing is on
      exactly when `-n` does not occur, the algorithm is `adv` unless
      `--algo` occurs, and a non-zero index is the value of one of the
      tokens. */
  lemma RunReflectsTokens(argv: seq<string>)
    requires Decide(argv).Run?
    ensures |argv| >= 2
    ensures forall j :: 1 <= j < |argv| ==> !IsHelpFlag(argv[j])
    ensures Decide(argv).printing <==> "-n" !in argv[1..]
    ensures "--algo" !in argv[1..] ==> Decide(argv).algo == Adv
    ensures Decide(argv).index > 0 ==>
      exists j :: 1 <= j < |argv| && ParseU64(argv[j]) == Some(Decide(argv).index)
  {
    var rest := argv[1..];
    var its := Items(rest);
    assert its[..FirstHelp(its)] == its;
    CleanHasNoHelp(rest);
    CleanNoPrint(rest);
    CleanAlgo(rest);
    CleanIndex(rest);
    forall j | 1 <= j < |argv| ensures !IsHelpFlag(argv[j]) {
      assert argv[j] == rest[j - 1];
    }
    if Decide(argv).index > 0 {
      var j :| 0 <= j < |rest| && ParseU64(rest[j]) == Some(IndexIn(its));
      assert argv[j + 1] == rest[j];
    }
  }

  /** The scan of `main` on one more token, after a prefix that would run
      on its own: a help flag gives help, and a second `-n`, a second
      `--algo`, `--algo` without a valid name after it, a second index or
      an index token that is rejected give a usage error. */
  lemma ExtensionDecides(argv: seq<string>, j: nat)
    requires 2 <= j < |argv| && Decide(argv[..j]).Run?
    ensures IsHelpFlag(argv[j]) ==> Decide(argv) == Help
    ensures argv[j] == "-n" && !Decide(argv[..j]).printing ==> Decide(argv) == UsageError
    ensures argv[j] == "--algo" && "--algo" in argv[1..j] ==> Decide(argv) == UsageError
    ensures argv[j] == "--algo" && (j + 1 == |argv| || AlgoNamed(argv[j + 1]).None?) ==>
      Decide(argv) == UsageError
    ensures (&& !IsHelpFlag(argv[j]) && argv[j] != "-n" && argv[j] != "--algo"
             && (Decide(argv[..j]).index > 0 || !IndexTokenValid(argv[j]))) ==>
      Decide(argv) == UsageError
  {
    var pre, post := argv[1..j], argv[j..];
    assert argv[..j][1..] == pre;
    var done := Items(pre);
    assert done[..FirstHelp(done)] == done;
    CleanAlgo(pre);
    CleanIndex(pre);
    assert AlgoMissingItem !in done;
    assert argv[1..] == pre + post;
    ItemsAppend(pre, post);
    var st := Flags(IndexIn(done), CountKind(done, IndexK) == 1,
                    CountKind(done, NoPrintK) == 0, CountKind(done, NoPrintK) == 1,
                    AlgoIn(done), CountKind(done, AlgoK) == 1);
    assert Tracks(done, st);
    assert ScannedUpTo(argv, j, done, st);
    ItemAt(argv, j);
    var x := Head(argv[j..]);
    if x == HelpItem {
      HelpAt(argv, j, done, st);
    } else if !ItemValid(x) || CountKind(done, KindOf(x)) > 0 {
      RejectAt(argv, j, done, st);
    }
  }

  /** Every run can be asked for: the index in decimal, `--algo` with the
      algorithm's name, and `-n` when printing is off. */
  lemma CanonicalCommandLine(prog: string, n: nat, a: Algo, printing: bool)
    requires 1 <= n < TWO_64
    ensures var argv := [prog, ToDecimal(n), "--algo", AlgoName(a)] + (if printing then [] else ["-n"]);
      Decide(argv) == Run(n, a, printing)
  {
    var t := ToDecimal(n);
    DecimalRoundTrip(n);
    assert IsDigit(t[0]);
    var flags: seq<string> := if printing then [] else ["-n"];
    var rest := [t, "--algo", AlgoName(a)] + flags;
    CanonicalDecides(t, a, printing);
    var argv := [prog, t, "--algo", AlgoName(a)] + flags;
    assert argv[1..] == rest;
  }

  /** The items of a canonical command line decide a run of the index the
      token converts to. */
  lemma CanonicalDecides(t: string, a: Algo, printing: bool)
    requires |t| > 0 && IsDigit(t[0]) && IndexTokenValid(t)
    ensures DecideItems(Items([t, "--algo", AlgoName(a)] + (if printing then [] else ["-n"])))
         == Run(ParseU64(t).value, a, printing)
  {
    CanonicalItems(t, a, printing);
    CanonicalCounts(t, AlgoName(a), printing);
    var its := [IndexItem(t), AlgoItem(AlgoName(a))] + (if printing then [] else [NoPrintItem]);
    assert its[..FirstHelp(its)] == its;
    assert its[1..][0] == AlgoItem(AlgoName(a));
    assert forall i :: 0 <= i < |its| ==> ItemValid(its[i]);
    assert IndexIn(its) == ParseU64(t).value && AlgoIn(its) == a;
  }

  /** The counts of a canonical list of items: one index, one algorithm,
      and `-n` only when printing is off; there is no help item. */
  lemma CanonicalCounts(t: string, name: string, printing: bool)
    ensures var its := [IndexItem(t), AlgoItem(name)] + (if printing then [] else [NoPrintItem]);
      && FirstHelp(its) == |its|
      && CountKind(its, NoPrintK) == (if printing then 0 else 1)
      && CountKind(its, AlgoK) == 1 && CountKind(its, IndexK) == 1
  {
    var tailItems: seq<Item> := if printing then [] else [NoPrintItem];
    var pair := [IndexItem(t), AlgoItem(name)];
    var its := pair + tailItems;
    assert pair[1..][1..] == [] && (!printing ==> tailItems[1..] == []);
    CountKindAppend(pair, tailItems, NoPrintK);
    CountKindAppend(pair, tailItems, AlgoK);
    CountKindAppend(pair, tailItems, IndexK);
    FirstHelpAppend(pair, tailItems);
  }

  /** The grouping of a canonical command line's arguments into items. */
  lemma CanonicalItems(t: string, a: Algo, printing: bool)
    requires |t| > 0 && IsDigit(t[0])
    ensures Items([t, "--algo", AlgoName(a)] + (if printing then [] else ["-n"]))
         == [IndexItem(t), AlgoItem(AlgoName(a))] + (if printing then [] else [NoPrintItem])
  {
    var flags: seq<string> := if printing then [] else ["-n"];
    var rest := [t, "--algo", AlgoName(a)] + flags;
    assert !IsHelpFlag(t) && t != "-n" && t != "--algo";
    var r1 := rest[1..];
    assert r1 == ["--algo", AlgoName(a)] + flags;
    assert r1[2..] == flags;
    ItemsUncons(rest);
    ItemsUncons(r1);
    var tailItems: seq<Item> := if printing then [] else [NoPrintItem];
    if !printing {
      ItemsUncons(flags);
      assert flags[1..] == [];
    }
    assert Items(flags) == tailItems;
    assert Items(r1) == [AlgoItem(AlgoName(a))] + tailItems;
  }

  function AlgoName(a: Algo): (name: string)
    ensures AlgoNamed(name) == Some(a)
  {
    match a
    case Naive => "naive"
    case Straight => "straight"
    case Adv => "adv"
  }

  /** As written, a run with no index token uses `index`'s initial value 0:
      for a run, the index is 0 exactly when no index token was given. */
  lemma RunAtZeroIffNoIndexToken(argv: seq<string>)
    requires Decide(argv).Run?
    ensures Decide(argv).index == 0 <==> CountKind(Items(argv[1..]), IndexK) == 0
  {
    var its := Items(argv[1..]);
    assert its[..FirstHelp(its)] == its;
    CleanIndex(argv[1..]);
  }

  /** Two command lines that reach the engines with index 0 although the
      usage text calls the index required. */
  lemma MissingIndexExamples()
    ensures Decide(["fibo", "-n"]) == Run(0, Adv, false)
    ensures Decide(["fibo", "--algo", "naive"]) == Run(0, Naive, true)
  {
  }

  /** The argument handling with the index required, as the usage text and
      the comment on the index branch intend: a command line that would run
      without an index token is a usage error. Every run then carries an
      index >= 1 written as one of the tokens, and nothing else changes. */
  function DecideRequiringIndex(argv: seq<string>): (o: Outcome)
    ensures o.Run? ==> o.index >= 1 && o.index < TWO_64
    ensures o.Run? ==> exists j :: 1 <= j < |argv| && ParseU64(argv[j]) == Some(o.index)
    ensures o != Decide(argv) ==>
      o == UsageError && Decide(argv).Run? && CountKind(Items(argv[1..]), IndexK) == 0
  {
    var d := Decide(argv);
    if d.Run? then
      RunReflectsTokens(argv);
      RunAtZeroIffNoIndexToken(argv);
      if d.index == 0 then UsageError else d
    else d
  }

  /** A single argument that is not a flag is read as the index. */
  lemma SingleIndexToken(prog: string, t: string)
    requires !IsHelpFlag(t) && t != "-n" && t != "--algo"
    ensures Decide([prog, t]) ==
      if IndexTokenValid(t) then Run(ParseU64(t).value, Adv, true) else UsageError
  {
    var rest := [prog, t][1..];
    assert rest == [t];
    ItemsUncons(rest);
    assert rest[1..] == [];
    var its := Items(rest);
    assert its == [IndexItem(t)];
    assert its[1..] == [];
    if IndexTokenValid(t) {
      assert FirstHelp(its) == 1 && its[..1] == its;
      assert CountKind(its, NoPrintK) == 0 && CountKind(its, AlgoK) == 0 && CountKind(its, IndexK) == 1;
      assert IndexIn(its) == ParseU64(t).value && AlgoIn(its) == Adv;
    } else {
      assert !ItemValid(its[0]);
    }
  }

  /** The single-argument vectors the test script rejects: index 0,
      "**", "-11", "1.2" and "hello", and no argument at all. Each token is
      read literally; the script passes "**" through a shell, which may
      expand it to file names, and a name that is not a flag fails the
      index checks in the same way. */
  lemma ArgsTestVectorsRejected()
    ensures Decide(["fibo"]) == UsageError
    ensures Decide(["fibo", "0"]) == UsageError
    ensures Decide(["fibo", "**"]) == UsageError
    ensures Decide(["fibo", "-11"]) == UsageError
    ensures Decide(["fibo", "1.2"]) == UsageError
    ensures Decide(["fibo", "hello"]) == UsageError
  {
    RejectedToken("0") by { assert "0"[..0] == ""; }
    RejectedToken("**") by { assert !IsDigit("**"[0]); }
    RejectedToken("-11");
    RejectedToken("1.2") by { assert !IsDigit("1.2"[1]); }
    RejectedToken("hello") by { assert !IsDigit("hello"[0]); }
  }

  lemma RejectedToken(t: string)
    requires !IsHelpFlag(t) && t != "-n" && t != "--algo" && !IndexTokenValid(t)
    ensures Decide(["fibo", t]) == UsageError
  {
  }

  /** The single-argument vectors the test script accepts: "1" runs the
      default algorithm with printing on, and "--help" asks for help. */
  lemma ArgsTestVectorsAccepted()
    ensures Decide(["fibo", "1"]) == Run(1, Adv, true)
    ensures Decide(["fibo", "--help"]) == Help
  {
  }

  /** The several-argument vectors the test script checks: a second index
      after a complete command line is rejected. */
  lemma ArgsTestVectorSecondIndex()
    ensures Decide(["fibo", "1", "--algo", "adv", "2"]) == UsageError
  {
  }

  /** An index followed by `--algo` and a known name runs that engine. */
  lemma ArgsTestVectorAlgoAfterIndex()
    ensures Decide(["fibo", "4", "--algo", "adv"]) == Run(4, Adv, true)
  {
  }

  /** `--algo` as the last argument has no value and is rejected. */
  lemma ArgsTestVectorAlgoAtEnd()
    ensures Decide(["fibo", "2", "--algo"]) == UsageError
  {
  }

  /** An unknown flag after the index is rejected, not taken for help. */
  lemma ArgsTestVectorUnknownFlag()
    ensures Decide(["fibo", "1", "--helpa"]) == UsageError
  {
  }

  /** Help after a valid index still asks for help. */
  lemma ArgsTestVectorHelpAfterIndex()
    ensures Decide(["fibo", "3000", "--help"]) == Help
  {
    assert DigitsValue("3000") == 3000 by {
      assert "3000"[..3] == "300" && "300"[..2] == "30" && "30"[..1] == "3" && "3"[..0] == "";
    }
    SingleIndexToken("fibo", "3000");
    assert ["fibo", "3000", "--help"][..2] == ["fibo", "3000"];
    ExtensionDecides(["fibo", "3000", "--help"], 2);
  }

  /** The index may also come after `--algo` and its name. */
  lemma ArgsTestVectorAlgoBeforeIndex()
    ensures Decide(["fibo", "--algo", "adv", "4"]) == Run(4, Adv, true)
  {
  }

  /** A lone index 4 runs the default engine with printing on. */
  lemma ArgsTestVectorLoneIndex()
    ensures Decide(["fibo", "4"]) == Run(4, Adv, true)
  {
  }

  /** Help is only reached when nothing before it was rejected: an invalid
      index ahead of `--help` ends the scan with a usage error. */
  lemma ErrorBeforeHelpWins()
    ensures Decide(["fibo", "0", "--help"]) == UsageError
  {
  }

  /** Unknown algorithm names are rejected. */
  lemma ArgsTestVectorsUnknownAlgo()
    ensures Decide(["fibo", "--algo", "hello"]) == UsageError
    ensures Decide(["fibo", "--algo", "2"]) == UsageError
  {
  }

  /** `--algo` followed only by a name it does not know is a usage error. */
  lemma AlgoValueRejected(name: string)
    requires AlgoNamed(name).None?
    ensures Decide(["fibo", "--algo", name]) == UsageError
  {
  }
}
