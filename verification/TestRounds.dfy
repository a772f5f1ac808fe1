/** The order of a round: which permutations a seed gives, and what a round by such an order runs. */
module TestRounds {
  import opened Arith
  import opened Shuffle
  import opened TestRegistration
  import opened TestSelection

  // ---- random seeds ----

  const MAX_RANDOM_SEED: nat := 99999

  function GetRandomSeedFromFlag(flag: nat, time: nat): (seed: nat)
    requires flag < 0x1_0000_0000
    ensures 1 <= seed <= MAX_RANDOM_SEED
  {
    var raw := if flag == 0 then time % 0x1_0000_0000 else flag;
    (raw - 1) % 0x1_0000_0000 % MAX_RANDOM_SEED + 1
  }

  function GetNextRandomSeed(seed: nat): (next: nat)
    requires 1 <= seed <= MAX_RANDOM_SEED
    ensures 1 <= next <= MAX_RANDOM_SEED
  {
    if seed + 1 > MAX_RANDOM_SEED then 1 else seed + 1
  }

  function SeedAfter(seed: nat, rounds: nat): (s: nat)
    requires 1 <= seed <= MAX_RANDOM_SEED
    ensures 1 <= s <= MAX_RANDOM_SEED
  {
    if rounds == 0 then seed else GetNextRandomSeed(SeedAfter(seed, rounds - 1))
  }

  /** A flag in the range of seeds is the seed; any other flag, or the time, is counted on from there. */
  lemma FlagIsSeed(flag: nat, time: nat)
    requires flag < 0x1_0000_0000
    ensures 1 <= flag <= MAX_RANDOM_SEED ==> GetRandomSeedFromFlag(flag, time) == flag
    ensures flag > MAX_RANDOM_SEED ==>
              GetRandomSeedFromFlag(flag, time) == GetRandomSeedFromFlag(flag - MAX_RANDOM_SEED, time)
  {
    if flag > MAX_RANDOM_SEED { SameRemainder(flag - MAX_RANDOM_SEED - 1, flag - 1, MAX_RANDOM_SEED); }
  }

  lemma SameRemainder(x: nat, y: nat, n: nat)
    requires x <= y && n > 0
    ensures x % n == y % n <==> (y - x) % n == 0
  {
    var d, r := (y - x) / n, (y - x) % n;
    var q, s := x / n, x % n;
    assert y == (q + d) * n + (s + r);
    if s + r < n {
      Digits(q + d, s + r, n);
    } else {
      assert y == (q + d + 1) * n + (s + r - n);
      Digits(q + d + 1, s + r - n, n);
    }
  }

  /** The seeds of the rounds go round the whole range: each comes back after as many rounds, and not before. */
  lemma {:induction false} SeedAfterIs(seed: nat, rounds: nat)
    requires 1 <= seed <= MAX_RANDOM_SEED
    ensures SeedAfter(seed, rounds) == (seed - 1 + rounds) % MAX_RANDOM_SEED + 1
  {
    if rounds > 0 { SeedAfterIs(seed, rounds - 1); }
  }

  lemma SeedsDiffer(seed: nat, a: nat, b: nat)
    requires 1 <= seed <= MAX_RANDOM_SEED && a <= b
    ensures SeedAfter(seed, a) == SeedAfter(seed, b) <==> (b - a) % MAX_RANDOM_SEED == 0
  {
    SeedAfterIs(seed, a);
    SeedAfterIs(seed, b);
    SameRemainder(seed - 1 + a, seed - 1 + b, MAX_RANDOM_SEED);
  }

  // ---- shuffles of permutations ----

  /** Entries move inside the range only. */
  ghost predicate StaysInside(v: seq<nat>, w: seq<nat>, begin: nat, end: nat)
    requires begin <= end <= |v| == |w|
  {
    && (forall i :: 0 <= i < |v| && !(begin <= i < end) ==> w[i] == v[i])
    && (forall i :: begin <= i < end ==> InPart(v, begin, end, w[i]))
  }

  ghost predicate InPart(v: seq<nat>, begin: nat, end: nat, x: nat)
    requires begin <= end <= |v|
  {
    exists j :: begin <= j < end && x == v[j]
  }

  /** A rearranged part of a permutation keeps the part's numbers in the part. */
  lemma RearrangedStays(v: seq<nat>, w: seq<nat>, begin: nat, end: nat)
    requires begin <= end <= |v| && Rearranged(v, w, begin, end)
    ensures StaysInside(v, w, begin, end)
  {
    forall i | begin <= i < end ensures InPart(v, begin, end, w[i]) { FromInside(v, w, begin, end, i); }
  }

  lemma FromInside(v: seq<nat>, w: seq<nat>, begin: nat, end: nat, i: nat)
    requires begin <= i < end <= |v| && Rearranged(v, w, begin, end)
    ensures InPart(v, begin, end, w[i])
  {
    var j := PlaceOf(w[begin..end], v[begin..end], i - begin);
    assert w[i] == v[begin + j];
  }

  lemma StaysPermutation(v: seq<nat>, w: seq<nat>, begin: nat, end: nat, n: nat)
    requires IsPermutation(v, n) && begin <= end <= n == |w| && StaysInside(v, w, begin, end) && Distinct(w)
    ensures IsPermutation(w, n)
  {
    forall i | 0 <= i < n ensures w[i] < n { StaysBelow(v, w, begin, end, n, i); }
  }

  lemma StaysBelow(v: seq<nat>, w: seq<nat>, begin: nat, end: nat, n: nat, i: nat)
    requires IsPermutation(v, n) && begin <= end <= n == |w| && StaysInside(v, w, begin, end) && i < n
    ensures w[i] < n
  {
    if begin <= i < end { assert InPart(v, begin, end, w[i]); }
  }

  /** A shuffle of part of a permutation is a permutation, and keeps the part's numbers in the part. */
  lemma ShuffledPermutes(state: nat, begin: nat, width: nat, v: seq<nat>, n: nat)
    requires IsPermutation(v, n) && begin + width <= n
    ensures var w := Shuffled(state, begin, width, v).0;
            IsPermutation(w, n) && StaysInside(v, w, begin, begin + width)
  {
    var w := Shuffled(state, begin, width, v).0;
    ShuffledRearranges(state, begin, width, v);
    RearrangedStays(v, w, begin, begin + width);
    StaysPermutation(v, w, begin, begin + width, n);
  }

  /** The indices of the test cases after a shuffle: the first deaths of them, then the rest. */
  function ShuffledCases(state: nat, deaths: nat, v: seq<nat>): (r: (seq<nat>, nat))
    requires deaths <= |v|
    ensures |r.0| == |v|
  {
    var (w, s) := Shuffled(state, 0, deaths, v);
    ShuffledLength(state, 0, deaths, v);
    ShuffledLength(s, deaths, |v| - deaths, w);
    Shuffled(s, deaths, |v| - deaths, w)
  }

  lemma ShuffledLength(state: nat, begin: nat, width: nat, v: seq<nat>)
    requires begin + width <= |v|
    ensures |Shuffled(state, begin, width, v).0| == |v|
  {
    ShuffledRearranges(state, begin, width, v);
  }

  lemma ShuffledCasesPartition(state: nat, deaths: nat, v: seq<nat>, n: nat)
    requires IsPermutation(v, n) && deaths <= n
    ensures var w := ShuffledCases(state, deaths, v).0;
            IsPermutation(w, n) && (Partitioned(v, deaths) ==> Partitioned(w, deaths))
  {
    var (u, s) := Shuffled(state, 0, deaths, v);
    PartKeeps(state, 0, deaths, v, n, deaths);
    PartKeeps(s, deaths, n - deaths, u, n, deaths);
  }

  /** A shuffle on one side of the border keeps the permutation and the sides. */
  lemma PartKeeps(state: nat, begin: nat, width: nat, v: seq<nat>, n: nat, deaths: nat)
    requires IsPermutation(v, n) && begin + width <= n && (begin + width <= deaths || deaths <= begin)
    ensures var w := Shuffled(state, begin, width, v).0;
            IsPermutation(w, n) && (Partitioned(v, deaths) ==> Partitioned(w, deaths))
  {
    ShuffledPermutes(state, begin, width, v, n);
    if Partitioned(v, deaths) { KeepsPart(v, Shuffled(state, begin, width, v).0, begin, begin + width, deaths); }
  }

  /** Rearranging a part on one side of the border keeps the sides. */
  lemma KeepsPart(v: seq<nat>, w: seq<nat>, begin: nat, end: nat, deaths: nat)
    requires Partitioned(v, deaths) && begin <= end <= |v| == |w| && (end <= deaths || deaths <= begin)
    requires StaysInside(v, w, begin, end)
    ensures Partitioned(w, deaths)
  {}

  // ---- orders ----

  /** The indices of the test cases, and for every test case those of its tests. */
  datatype Order = Order(cases: seq<nat>, tests: seq<seq<nat>>)

  ghost predicate IsOrder(o: Order, infos: seq<seq<TestInfo>>) {
    IsPermutation(o.cases, |infos|) && ArePermutations(o.tests, infos)
  }

  ghost predicate ArePermutations(orders: seq<seq<nat>>, infos: seq<seq<TestInfo>>) {
    |orders| == |infos| && forall i :: 0 <= i < |infos| ==> IsPermutation(orders[i], |infos[i]|)
  }

  function Unshuffled(infos: seq<seq<TestInfo>>): (o: Order)
    ensures IsOrder(o, infos)
  {
    Order(Identity(|infos|), seq(|infos|, i requires 0 <= i < |infos| => Identity(|infos[i]|)))
  }

  lemma UnshuffledInsert(infos: seq<seq<TestInfo>>, o: Order, at: nat)
    requires at <= |infos| && o == Unshuffled(infos)
    ensures Order(o.cases + [|infos|], Insert(o.tests, at, [])) == Unshuffled(Insert(infos, at, []))
  {
    assert Identity(0) == [];
  }

  lemma UnshuffledAdd(infos: seq<seq<TestInfo>>, o: Order, i: nat, info: TestInfo)
    requires i < |infos| && o == Unshuffled(infos)
    ensures Order(o.cases, o.tests[i := o.tests[i] + [|o.tests[i]|]]) == Unshuffled(infos[i := infos[i] + [info]])
  {
    assert Identity(|infos[i]| + 1) == Identity(|infos[i]|) + [|infos[i]|];
  }

  /** The marks have no part in it. */
  lemma SameUnshuffled(was: seq<seq<TestInfo>>, now: seq<seq<TestInfo>>)
    requires |was| == |now| && forall i :: 0 <= i < |was| ==> TestNames(now[i]) == TestNames(was[i])
    ensures Unshuffled(was) == Unshuffled(now)
  {
    forall i | 0 <= i < |was| ensures |was[i]| == |now[i]| { assert TestNames(now[i]) == TestNames(was[i]); }
  }

  /** The tests of the first n test cases shuffled one test case after the other, and the generator's state then. */
  function ShuffledTests(state: nat, orders: seq<seq<nat>>, n: nat): (r: (seq<seq<nat>>, nat))
    requires n <= |orders|
    ensures |r.0| == |orders|
  {
    if n == 0 then (orders, state)
    else
      var (now, s) := ShuffledTests(state, orders, n - 1);
      var (v, t) := Shuffled(s, 0, |now[n - 1]|, now[n - 1]);
      (now[n - 1 := v], t)
  }

  lemma ShuffledTestsStep(state: nat, orders: seq<seq<nat>>, n: nat, now: seq<seq<nat>>, s: nat, v: seq<nat>, t: nat)
    requires n < |orders| && (now, s) == ShuffledTests(state, orders, n) && (v, t) == Shuffled(s, 0, |now[n]|, now[n])
    ensures (now[n := v], t) == ShuffledTests(state, orders, n + 1)
  {}

  lemma {:induction false} ShuffledTestsPermute(state: nat, orders: seq<seq<nat>>, infos: seq<seq<TestInfo>>, n: nat)
    requires ArePermutations(orders, infos) && n <= |orders|
    ensures ArePermutations(ShuffledTests(state, orders, n).0, infos)
  {
    if n > 0 {
      ShuffledTestsPermute(state, orders, infos, n - 1);
      var (now, s) := ShuffledTests(state, orders, n - 1);
      ShuffledPermutes(s, 0, |now[n - 1]|, now[n - 1], |infos[n - 1]|);
    }
  }

  /** The order after a shuffle from the generator's state. */
  function ShuffledOrder(state: nat, deaths: nat, o: Order): (Order, nat)
    requires deaths <= |o.cases|
  {
    var (cases, s) := ShuffledCases(state, deaths, o.cases);
    var (tests, t) := ShuffledTests(s, o.tests, |o.tests|);
    (Order(cases, tests), t)
  }

  /** The order a seed gives test cases of which the first deaths are death tests. */
  function SeededOrder(seed: nat, deaths: nat, infos: seq<seq<TestInfo>>): Order
    requires deaths <= |infos|
  {
    ShuffledOrder(seed, deaths, Unshuffled(infos)).0
  }

  lemma ShuffledIsOrder(state: nat, deaths: nat, o: Order, infos: seq<seq<TestInfo>>)
    requires IsOrder(o, infos) && deaths <= |infos|
    ensures var w := ShuffledOrder(state, deaths, o).0;
            IsOrder(w, infos) && (Partitioned(o.cases, deaths) ==> Partitioned(w.cases, deaths))
  {
    ShuffledCasesPartition(state, deaths, o.cases, |infos|);
    ShuffledTestsPermute(ShuffledCases(state, deaths, o.cases).1, o.tests, infos, |o.tests|);
  }

  /** The order of round r. */
  function RoundOrder(shuffle: bool, seed: nat, r: nat, deaths: nat, infos: seq<seq<TestInfo>>): Order
    requires 1 <= seed <= MAX_RANDOM_SEED && deaths <= |infos|
  {
    if shuffle then SeededOrder(SeedAfter(seed, r), deaths, infos) else Unshuffled(infos)
  }

  lemma RoundOrderIsOrder(shuffle: bool, seed: nat, r: nat, deaths: nat, infos: seq<seq<TestInfo>>)
    requires 1 <= seed <= MAX_RANDOM_SEED && deaths <= |infos|
    ensures var o := RoundOrder(shuffle, seed, r, deaths, infos); IsOrder(o, infos) && Partitioned(o.cases, deaths)
  {
    if shuffle { ShuffledIsOrder(SeedAfter(seed, r), deaths, Unshuffled(infos), infos); }
  }

  // ---- the tests of the registrations ----

  /** The test cases hold the tests of the registrations, in order. */
  ghost predicate HoldTests(names: seq<string>, infos: seq<seq<TestInfo>>, entries: seq<Entry>) {
    && |names| == |infos|
    && forall i :: 0 <= i < |names| ==> HoldsTestsOf(infos[i], names[i], entries)
  }

  ghost predicate HoldsTestsOf(infos: seq<TestInfo>, name: string, entries: seq<Entry>) {
    TestNames(infos) == TestsOf(entries, name)
  }

  lemma HoldInserted(names: seq<string>, infos: seq<seq<TestInfo>>, entries: seq<Entry>, at: nat, name: string)
    requires HoldTests(names, infos, entries) && at <= |names| && name !in CaseNames(entries)
    ensures HoldTests(Insert(names, at, name), Insert(infos, at, []), entries)
  {
    NoTestsYet(entries, name);
    assert HoldsTestsOf([], name, entries);
    var more, lists := Insert(names, at, name), Insert(infos, at, []);
    forall i | 0 <= i < |more| ensures HoldsTestsOf(lists[i], more[i], entries) {
      assert more[i] == if i < at then names[i] else if i == at then name else names[i - 1];
      assert lists[i] == if i < at then infos[i] else if i == at then [] else infos[i - 1];
    }
  }

  lemma HoldAdded(names: seq<string>, infos: seq<seq<TestInfo>>, entries: seq<Entry>, i: nat, test: string)
    requires HoldTests(names, infos, entries) && DistinctNames(names) && i < |names|
    ensures HoldTests(names, infos[i := infos[i] + [TestInfo(test, false)]], entries + [Entry(names[i], test)])
  {
    var lists := infos[i := infos[i] + [TestInfo(test, false)]];
    forall k | 0 <= k < |names| ensures HoldsTestsOf(lists[k], names[k], entries + [Entry(names[i], test)]) {
      OneMoreEntry(entries, Entry(names[i], test), names[k]);
      assert HoldsTestsOf(infos[k], names[k], entries);
      if k == i { assert TestNames(lists[k]) == TestNames(infos[k]) + [test]; }
    }
  }

  // ---- what runs ----

  /** The tests that run, in the order of the indices. */
  function Running(infos: seq<TestInfo>, indices: seq<nat>): (ran: seq<nat>)
    requires forall i :: 0 <= i < |indices| ==> indices[i] < |infos|
  {
    if indices == [] then []
    else
      var n := |indices| - 1;
      Running(infos, indices[..n]) + if infos[indices[n]].should_run then [indices[n]] else []
  }

  lemma RunningStep(infos: seq<TestInfo>, indices: seq<nat>, n: nat)
    requires n < |indices| && forall i :: 0 <= i < |indices| ==> indices[i] < |infos|
    ensures Running(infos, indices[..n + 1]) ==
            Running(infos, indices[..n]) + if infos[indices[n]].should_run then [indices[n]] else []
  {
    assert indices[..n + 1][..n] == indices[..n];
  }

  lemma {:induction false} RunningHas(infos: seq<TestInfo>, indices: seq<nat>, k: nat)
    requires forall i :: 0 <= i < |indices| ==> indices[i] < |infos|
    ensures k in Running(infos, indices) <==> k in indices && infos[k].should_run
  {
    if indices != [] {
      var n := |indices| - 1;
      RunningHas(infos, indices[..n], k);
      assert indices == indices[..n] + [indices[n]];
    }
  }

  lemma {:induction false} RunningDistinct(infos: seq<TestInfo>, indices: seq<nat>)
    requires Distinct(indices) && forall i :: 0 <= i < |indices| ==> indices[i] < |infos|
    ensures Distinct(Running(infos, indices))
  {
    if indices != [] {
      var n := |indices| - 1;
      RunningDistinct(infos, indices[..n]);
      RunningHas(infos, indices[..n], indices[n]);
    }
  }

  lemma {:induction false} NothingRuns(infos: seq<TestInfo>, indices: seq<nat>)
    requires !AnyToRun(infos) && forall i :: 0 <= i < |indices| ==> indices[i] < |infos|
    ensures Running(infos, indices) == []
  {
    if indices != [] { NothingRuns(infos, indices[..|indices| - 1]); }
  }

  /** ran lists the tests that should run, each once. */
  ghost predicate RunsOnce(ran: seq<nat>, infos: seq<TestInfo>) {
    Distinct(ran) && forall k: nat :: k in ran <==> k < |infos| && infos[k].should_run
  }

  lemma RunningOnce(infos: seq<TestInfo>, indices: seq<nat>)
    requires IsPermutation(indices, |infos|)
    ensures RunsOnce(Running(infos, indices), infos)
  {
    RunningDistinct(infos, indices);
    forall k: nat ensures k in Running(infos, indices) <==> k < |infos| && infos[k].should_run {
      RunningHas(infos, indices, k);
      if k < |infos| { var i := PermutationCovers(indices, |infos|, k); }
    }
  }

  /** The names of the test cases in the order they ran, and for each the positions of the tests it ran. */
  datatype Round = Round(order: seq<string>, ran: seq<seq<nat>>)

  /** The round of an order. */
  ghost predicate GoesBy(round: Round, names: seq<string>, infos: seq<seq<TestInfo>>, o: Order) {
    && |names| == |infos| && IsOrder(o, infos)
    && round.order == InOrder(names, o.cases)
    && |round.ran| == |names|
    && forall i :: 0 <= i < |names| ==> round.ran[i] == Running(infos[o.cases[i]], o.tests[o.cases[i]])
  }

  /** The first i turns of the round. */
  ghost predicate GoesUpTo(order: seq<string>, ran: seq<seq<nat>>, i: nat, names: seq<string>,
                           infos: seq<seq<TestInfo>>,
                           o: Order)
  {
    && |names| == |infos| && IsOrder(o, infos) && |order| == |ran| == i <= |names|
    && forall j :: 0 <= j < i ==>
         order[j] == names[o.cases[j]] && ran[j] == Running(infos[o.cases[j]], o.tests[o.cases[j]])
  }

  lemma OneMoreTurn(order: seq<string>, ran: seq<seq<nat>>, i: nat, names: seq<string>, infos: seq<seq<TestInfo>>,
                    o: Order,
                    name: string, tests: seq<nat>)
    requires GoesUpTo(order, ran, i, names, infos, o) && i < |names|
    requires name == names[o.cases[i]] && tests == Running(infos[o.cases[i]], o.tests[o.cases[i]])
    ensures GoesUpTo(order + [name], ran + [tests], i + 1, names, infos, o)
  {}

  lemma AllTurns(order: seq<string>, ran: seq<seq<nat>>, names: seq<string>, infos: seq<seq<TestInfo>>, o: Order)
    requires GoesUpTo(order, ran, |names|, names, infos, o)
    ensures GoesBy(Round(order, ran), names, infos, o)
  {
    assert order == InOrder(names, o.cases);
  }

  /** Round number r of a run, which is empty when nothing is to run. */
  ghost predicate IsRound(round: Round, names: seq<string>, infos: seq<seq<TestInfo>>, has_tests_to_run: bool,
                          o: Order) {
    if has_tests_to_run then GoesBy(round, names, infos, o) else round == Round([], [])
  }

  lemma RanBy(round: Round, names: seq<string>, infos: seq<seq<TestInfo>>, o: Order)
    requires GoesBy(round, names, infos, o)
    ensures IsRound(round, names, infos, true, o)
  {}

  /** Every round goes by the order that its number gives. */
  ghost predicate AreRounds(rounds: seq<Round>, names: seq<string>, infos: seq<seq<TestInfo>>, has_tests_to_run: bool,
                            shuffle: bool, seed: nat, deaths: nat)
    requires 1 <= seed <= MAX_RANDOM_SEED && deaths <= |infos|
  {
    forall r :: 0 <= r < |rounds| ==>
      IsRound(rounds[r], names, infos, has_tests_to_run, RoundOrder(shuffle, seed, r, deaths, infos))
  }

  lemma OneMoreRound(rounds: seq<Round>, round: Round, names: seq<string>, infos: seq<seq<TestInfo>>,
                     has_tests_to_run: bool, shuffle: bool, seed: nat, deaths: nat)
    requires 1 <= seed <= MAX_RANDOM_SEED && deaths <= |infos|
    requires AreRounds(rounds, names, infos, has_tests_to_run, shuffle, seed, deaths)
    requires IsRound(round, names, infos, has_tests_to_run, RoundOrder(shuffle, seed, |rounds|, deaths, infos))
    ensures AreRounds(rounds + [round], names, infos, has_tests_to_run, shuffle, seed, deaths)
  {
    var more := rounds + [round];
    forall r | 0 <= r < |more|
      ensures IsRound(more[r], names, infos, has_tests_to_run, RoundOrder(shuffle, seed, r, deaths, infos))
    {
      assert more[r] == if r < |rounds| then rounds[r] else round;
    }
  }

  // ---- what a round guarantees ----

  /** Test case k has one turn, in which the tests that should run, and no others, run once each. */
  ghost predicate HasOneTurn(round: Round, names: seq<string>, infos: seq<seq<TestInfo>>, k: nat)
    requires k < |names| == |infos|
  {
    exists i :: 0 <= i < |round.order| && TurnOf(round, names, infos, k, i)
  }

  ghost predicate TurnOf(round: Round, names: seq<string>, infos: seq<seq<TestInfo>>, k: nat, i: nat)
    requires k < |names| == |infos|
  {
    && |round.ran| == |round.order| && i < |round.order| && round.order[i] == names[k]
    && RunsOnce(round.ran[i], infos[k])
    && forall j :: 0 <= j < |round.order| && round.order[j] == names[k] ==> j == i
  }

  /** In a round every test case has exactly one turn, and in it every test that should run runs exactly once. */
  lemma EveryTestRunsOnce(round: Round, names: seq<string>, infos: seq<seq<TestInfo>>, o: Order, k: nat)
    requires GoesBy(round, names, infos, o) && DistinctNames(names) && k < |names|
    ensures HasOneTurn(round, names, infos, k)
  {
    var i := PermutationCovers(o.cases, |names|, k);
    RunningOnce(infos[k], o.tests[k]);
    forall j | 0 <= j < |round.order| && round.order[j] == names[k] ensures j == i {
      assert names[o.cases[j]] == names[k];
    }
    assert TurnOf(round, names, infos, k, i);
  }

  /** What the rounds promise whoever wrote the tests. */
  ghost predicate RoundIsGood(round: Round, names: seq<string>, infos: seq<seq<TestInfo>>) {
    && |names| == |infos| && |round.order| == |round.ran| == |names|
    && DeathTestsFirst(round.order)
    && forall k :: 0 <= k < |names| ==> HasOneTurn(round, names, infos, k)
  }

  lemma GoodRound(round: Round, names: seq<string>, infos: seq<seq<TestInfo>>, o: Order, deaths: nat)
    requires GoesBy(round, names, infos, o) && DistinctNames(names)
    requires DeathUpTo(names, deaths) && Partitioned(o.cases, deaths)
    ensures RoundIsGood(round, names, infos)
  {
    DeathAt(names, o.cases, deaths);
    forall k | 0 <= k < |names| ensures HasOneTurn(round, names, infos, k) {
      EveryTestRunsOnce(round, names, infos, o, k);
    }
  }

  /** Every round runs every test that should run once, death tests first. */
  lemma RoundsAreGood(rounds: seq<Round>, names: seq<string>, infos: seq<seq<TestInfo>>, shuffle: bool, seed: nat,
                      deaths: nat)
    requires 1 <= seed <= MAX_RANDOM_SEED && deaths <= |infos| == |names|
    requires AreRounds(rounds, names, infos, true, shuffle, seed, deaths) && DistinctNames(names)
    requires DeathUpTo(names, deaths)
    ensures forall r :: 0 <= r < |rounds| ==> RoundIsGood(rounds[r], names, infos)
  {
    forall r | 0 <= r < |rounds| ensures RoundIsGood(rounds[r], names, infos) {
      var o := RoundOrder(shuffle, seed, r, deaths, infos);
      RoundOrderIsOrder(shuffle, seed, r, deaths, infos);
      assert IsRound(rounds[r], names, infos, true, o);
      GoodRound(rounds[r], names, infos, o, deaths);
    }
  }

  // ---- a run of the program ----

  /**
    From registrations to rounds: the test cases are those registered, death tests first, with their tests in order;
    marked are the tests of the selection; every round runs those once, or is empty when there are none.
   */
  ghost predicate IsRun(entries: seq<Entry>, sel: Selection, names: seq<string>, infos: seq<seq<TestInfo>>,
                        rounds: seq<Round>)
    requires sel.shard.Valid()
  {
    && names == DeathFirst(CaseNames(entries)) && HoldTests(names, infos, entries)
    && AreMarked(sel, names, infos, infos)
    && forall r :: 0 <= r < |rounds| ==>
         if SomeToRun(infos) then RoundIsGood(rounds[r], names, infos) else rounds[r] == Round([], [])
  }

  /** The test cases are laid out as the registrations say. */
  ghost predicate LaidOutFor(entries: seq<Entry>, names: seq<string>, infos: seq<seq<TestInfo>>, last: int) {
    -1 <= last < |infos| == |names| && Layout(names, last, CaseNames(entries)) && HoldTests(names, infos, entries)
  }

  /** The tests are marked, and the rounds are those of the marks, the seed and the number of death tests. */
  ghost predicate RanMarked(sel: Selection, names: seq<string>, infos: seq<seq<TestInfo>>, rounds: seq<Round>,
                            shuffle: bool, seed: nat, last: int)
    requires sel.shard.Valid() && 1 <= seed <= MAX_RANDOM_SEED
  {
    && -1 <= last < |infos| && AreMarked(sel, names, infos, infos)
    && AreRounds(rounds, names, infos, SomeToRun(infos), shuffle, seed, last + 1)
  }

  lemma RoundsAreRun(entries: seq<Entry>, sel: Selection, names: seq<string>, infos: seq<seq<TestInfo>>,
                     rounds: seq<Round>, shuffle: bool, seed: nat, last: int)
    requires sel.shard.Valid() && 1 <= seed <= MAX_RANDOM_SEED && LaidOutFor(entries, names, infos, last)
    requires RanMarked(sel, names, infos, rounds, shuffle, seed, last)
    ensures IsRun(entries, sel, names, infos, rounds)
  {
    if SomeToRun(infos) {
      RoundsAreGood(rounds, names, infos, shuffle, seed, last + 1);
    } else {
      forall r | 0 <= r < |rounds| ensures rounds[r] == Round([], []) {
        assert IsRound(rounds[r], names, infos, false, RoundOrder(shuffle, seed, r, last + 1, infos));
      }
    }
  }
}
