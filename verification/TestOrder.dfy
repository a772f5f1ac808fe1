/** The test program: registering test cases and tests, selecting them, running them in rounds. */
module TestOrder {
  import opened Shuffle
  import opened TestFilter
  import opened TestRegistration
  import opened TestRounds
  import opened TestSelection

  class TestCase {
    const name: string
    var test_info_list: seq<TestInfo>
    var test_indices: seq<nat>
    var should_run: bool

    ghost predicate Valid()
      reads this
    {
      && IsPermutation(test_indices, |test_info_list|) && |test_info_list| <= MAX_RANGE
      && should_run == AnyToRun(test_info_list)
    }

    constructor (name: string)
      ensures Valid() && this.name == name && test_info_list == [] && test_indices == []
    {
      this.name := name;
      test_info_list, test_indices, should_run := [], [], false;
    }

    method AddTestInfo(test_info: string)
      requires Valid() && |test_info_list| < MAX_RANGE
      modifies this`test_info_list, this`test_indices
      ensures Valid() && test_info_list == old(test_info_list) + [TestInfo(test_info, false)]
      ensures test_indices == old(test_indices) + [|old(test_indices)|]
    {
      assert forall k :: 0 <= k < |test_info_list| ==>
             (test_info_list + [TestInfo(test_info, false)])[k] == test_info_list[k];
      test_info_list := test_info_list + [TestInfo(test_info, false)];
      test_indices := test_indices + [|test_indices|];
    }

    method ShuffleTests(random: Random)
      requires Valid()
      modifies this`test_indices, random
      ensures Valid()
      ensures (test_indices, random.state) == Shuffled(old(random.state), 0, |old(test_indices)|, old(test_indices))
    {
      var n := |test_indices|;
      ShuffledPermutes(random.state, 0, n, test_indices, n);
      test_indices := ShuffleRange(random, 0, n, test_indices);
    }

    method UnshuffleTests()
      requires Valid()
      modifies this`test_indices
      ensures Valid() && test_indices == Identity(|test_info_list|)
    {
      var i := 0;
      while i < |test_indices|
        invariant 0 <= i <= |test_indices| == |test_info_list|
        invariant forall j :: 0 <= j < i ==> test_indices[j] == j
      {
        test_indices := test_indices[i := i];
        i := i + 1;
      }
      assert test_indices == Identity(|test_info_list|);
    }

    /** The positions of the tests that ran, in the order of the indices. */
    method Run() returns (ran: seq<nat>)
      requires Valid()
      ensures ran == Running(test_info_list, test_indices) && RunsOnce(ran, test_info_list)
    {
      RunningOnce(test_info_list, test_indices);
      ran := [];
      if !should_run {
        NothingRuns(test_info_list, test_indices);
        return;
      }
      var i := 0;
      while i < |test_info_list|
        invariant 0 <= i <= |test_info_list| && ran == Running(test_info_list, test_indices[..i])
      {
        RunningStep(test_info_list, test_indices, i);
        var test := test_indices[i];
        if test_info_list[test].should_run { ran := ran + [test]; }
        i := i + 1;
      }
      assert test_indices[..i] == test_indices;
    }

    /** Marks the tests that the selection runs; num_runnable_tests of earlier test cases can run. */
    method FilterTests(sel: Selection, num_runnable_tests: nat) returns (runnable: nat, selected: nat)
      requires Valid() && sel.shard.Valid()
      modifies this`test_info_list, this`should_run
      ensures Valid()
      ensures IsNextMarked(sel, name, old(test_info_list), num_runnable_tests, test_info_list, runnable, selected)
    {
      test_info_list, runnable, selected, should_run := MarkTests(sel, name, test_info_list, num_runnable_tests);
    }
  }

  function Names(cases: seq<TestCase>): (names: seq<string>)
    ensures |names| == |cases| && forall i :: 0 <= i < |cases| ==> names[i] == cases[i].name
  {
    seq(|cases|, i requires 0 <= i < |cases| => cases[i].name)
  }

  ghost function Infos(cases: seq<TestCase>): (infos: seq<seq<TestInfo>>)
    reads cases
    ensures |infos| == |cases| && forall i :: 0 <= i < |cases| ==> infos[i] == cases[i].test_info_list
  {
    seq(|cases|, i requires 0 <= i < |cases| reads cases => cases[i].test_info_list)
  }

  ghost function TestOrders(cases: seq<TestCase>): (orders: seq<seq<nat>>)
    reads cases
    ensures |orders| == |cases| && forall i :: 0 <= i < |cases| ==> orders[i] == cases[i].test_indices
  {
    seq(|cases|, i requires 0 <= i < |cases| reads cases => cases[i].test_indices)
  }

  ghost predicate AllValid(cases: seq<TestCase>)
    reads cases
  {
    forall i :: 0 <= i < |cases| ==> cases[i].Valid()
  }

  lemma Inserted(cases: seq<TestCase>, at: nat, c: TestCase)
    requires at <= |cases|
    ensures Names(Insert(cases, at, c)) == Insert(Names(cases), at, c.name)
  {}

  lemma StillProper(cases: seq<TestCase>, at: nat, c: TestCase)
    requires at <= |cases| && Proper(cases) && c.Valid() && c.name !in Names(cases)
    ensures Proper(Insert(cases, at, c))
  {
    Inserted(cases, at, c);
    InsertDistinct(Names(cases), at, c.name);
  }

  lemma InsertedTests(cases: seq<TestCase>, at: nat, c: TestCase)
    requires at <= |cases|
    ensures Infos(Insert(cases, at, c)) == Insert(Infos(cases), at, c.test_info_list)
    ensures TestOrders(Insert(cases, at, c)) == Insert(TestOrders(cases), at, c.test_indices)
  {}

  /** Test cases of different names are different objects. */
  lemma Apart(cases: seq<TestCase>, i: nat)
    requires i < |cases| && DistinctNames(Names(cases))
    ensures forall k :: 0 <= k < |cases| && k != i ==> cases[k] != cases[i]
  {
    forall k | 0 <= k < |cases| && k != i ensures cases[k] != cases[i] {
      assert Names(cases)[k] != Names(cases)[i];
    }
  }

  /** Only the tests of test case i, or their indices, have changed. */
  lemma OneChanged(cases: seq<TestCase>, i: nat, infos: seq<seq<TestInfo>>, orders: seq<seq<nat>>)
    requires i < |cases| == |infos| == |orders|
    requires forall k :: 0 <= k < |cases| && k != i ==>
               cases[k].test_info_list == infos[k] && cases[k].test_indices == orders[k]
    ensures Infos(cases) == infos[i := cases[i].test_info_list]
    ensures TestOrders(cases) == orders[i := cases[i].test_indices]
  {}

  // ---- the loops over all test cases ----

  /** Each a valid test case of its own. */
  ghost predicate Proper(cases: seq<TestCase>)
    reads cases
  {
    AllValid(cases) && DistinctNames(Names(cases))
  }

  method FilterCase(cases: seq<TestCase>, i: nat, sel: Selection, num_runnable_tests: nat)
    returns (runnable: nat, selected: nat)
    requires Proper(cases) && i < |cases| && sel.shard.Valid()
    modifies cases[i]
    ensures Proper(cases) && TestOrders(cases) == old(TestOrders(cases))
    ensures Infos(cases) == old(Infos(cases))[i := cases[i].test_info_list]
    ensures IsNextMarked(sel, Names(cases)[i], old(Infos(cases))[i], num_runnable_tests, cases[i].test_info_list,
                         runnable, selected)
  {
    Apart(cases, i);
    runnable, selected := cases[i].FilterTests(sel, num_runnable_tests);
    OneChanged(cases, i, old(Infos(cases)), old(TestOrders(cases)));
  }

  method FilterEachCase(cases: seq<TestCase>, sel: Selection) returns (num_selected_tests: nat)
    requires Proper(cases) && sel.shard.Valid()
    modifies cases
    ensures Proper(cases) && TestOrders(cases) == old(TestOrders(cases))
    ensures AreMarked(sel, Names(cases), old(Infos(cases)), Infos(cases))
    ensures num_selected_tests ==
            Share(OnShard(sel.shard), RunnableBefore(sel, Names(cases), old(Infos(cases)), |cases|))
  {
    ghost var names, was := Names(cases), Infos(cases);
    var num_runnable_tests, i := 0, 0;
    num_selected_tests := 0;
    while i < |cases|
      invariant i <= |cases| && Proper(cases) && TestOrders(cases) == old(TestOrders(cases))
      invariant AreMarkedUpTo(sel, names, was, Infos(cases), i, num_runnable_tests, num_selected_tests)
    {
      ghost var now := Infos(cases);
      var runnable, selected := FilterCase(cases, i, sel, num_runnable_tests);
      MarkOneMore(sel, names, was, now, i, num_runnable_tests, num_selected_tests, cases[i].test_info_list, runnable,
                  selected);
      num_runnable_tests, num_selected_tests := runnable, num_selected_tests + selected;
      i := i + 1;
    }
  }

  method ShuffleCase(cases: seq<TestCase>, i: nat, random: Random)
    requires Proper(cases) && i < |cases|
    modifies cases[i], random
    ensures Proper(cases) && Infos(cases) == old(Infos(cases))
    ensures var was := old(TestOrders(cases));
            var (v, s) := Shuffled(old(random.state), 0, |was[i]|, was[i]);
            TestOrders(cases) == was[i := v] && random.state == s
  {
    Apart(cases, i);
    cases[i].ShuffleTests(random);
    OneChanged(cases, i, old(Infos(cases)), old(TestOrders(cases)));
  }

  /** The test cases so far are shuffled, from that state and those orders. */
  ghost predicate ShuffledUpTo(cases: seq<TestCase>, random: Random, i: nat, state: nat, orders: seq<seq<nat>>,
                               infos: seq<seq<TestInfo>>)
    reads cases, random
  {
    && i <= |orders| == |cases| && Infos(cases) == infos
    && (TestOrders(cases), random.state) == ShuffledTests(state, orders, i)
  }

  method ShuffleNext(cases: seq<TestCase>, i: nat, random: Random, ghost state: nat, ghost orders: seq<seq<nat>>,
                     ghost infos: seq<seq<TestInfo>>)
    requires Proper(cases) && i < |cases| && ShuffledUpTo(cases, random, i, state, orders, infos)
    modifies cases[i], random
    ensures Proper(cases) && ShuffledUpTo(cases, random, i + 1, state, orders, infos)
  {
    ghost var now, s := TestOrders(cases), random.state;
    ShuffleCase(cases, i, random);
    ghost var (v, t) := Shuffled(s, 0, |now[i]|, now[i]);
    ShuffledTestsStep(state, orders, i, now, s, v, t);
  }

  /** The tests inside each test case. */
  method ShuffleEachCase(cases: seq<TestCase>, random: Random)
    requires Proper(cases)
    modifies cases, random
    ensures Proper(cases)
    ensures ShuffledUpTo(cases, random, |cases|, old(random.state), old(TestOrders(cases)), old(Infos(cases)))
  {
    ghost var state, orders, infos := random.state, TestOrders(cases), Infos(cases);
    var i := 0;
    while i < |cases|
      invariant 0 <= i <= |cases| && Proper(cases) && ShuffledUpTo(cases, random, i, state, orders, infos)
    {
      ShuffleNext(cases, i, random, state, orders, infos);
      i := i + 1;
    }
  }

  method UnshuffleCase(cases: seq<TestCase>, i: nat)
    requires Proper(cases) && i < |cases|
    modifies cases[i]
    ensures Proper(cases) && Infos(cases) == old(Infos(cases))
    ensures TestOrders(cases) == old(TestOrders(cases))[i := Identity(|Infos(cases)[i]|)]
  {
    Apart(cases, i);
    cases[i].UnshuffleTests();
    OneChanged(cases, i, old(Infos(cases)), old(TestOrders(cases)));
  }

  method UnshuffleEachCase(cases: seq<TestCase>, indices: seq<nat>) returns (test_case_indices: seq<nat>)
    requires Proper(cases) && |indices| == |cases|
    modifies cases
    ensures Proper(cases) && Infos(cases) == old(Infos(cases))
    ensures Order(test_case_indices, TestOrders(cases)) == Unshuffled(Infos(cases))
  {
    ghost var order := Unshuffled(Infos(cases));
    test_case_indices := indices;
    var i := 0;
    while i < |cases|
      invariant 0 <= i <= |cases| == |test_case_indices| && Proper(cases) && Infos(cases) == old(Infos(cases))
      invariant forall j :: 0 <= j < i ==> test_case_indices[j] == j && TestOrders(cases)[j] == order.tests[j]
    {
      UnshuffleCase(cases, i);
      test_case_indices := test_case_indices[i := i];
      i := i + 1;
    }
    assert test_case_indices == order.cases && TestOrders(cases) == order.tests;
  }

  class UnitTestImpl {
    var test_cases: seq<TestCase>
    var test_case_indices: seq<nat>
    var last_death_test_case: int
    var random_seed: nat
    const random: Random
    ghost var registered: seq<string>
    ghost var Repr: set<TestCase>

    ghost predicate Valid()
      reads this, test_cases
    {
      && |test_cases| <= MAX_RANGE && IsPermutation(test_case_indices, |test_cases|)
      && -1 <= last_death_test_case < |test_cases|
      && Proper(test_cases)
    }

    ghost predicate LaidOut()
      reads this
    {
      Layout(Names(test_cases), last_death_test_case, registered)
    }

    ghost predicate Owns()
      reads this
    {
      forall c :: c in test_cases ==> c in Repr
    }

    ghost function CurrentOrder(): Order
      reads this, test_cases
    {
      Order(test_case_indices, TestOrders(test_cases))
    }

    /** Nothing is shuffled. */
    ghost predicate InPlace()
      reads this, test_cases
    {
      CurrentOrder() == Unshuffled(Infos(test_cases))
    }

    /** The test cases and their tests are those of the registrations, in order. */
    ghost predicate Registers(entries: seq<Entry>)
      reads this, test_cases
    {
      registered == CaseNames(entries) && HoldTests(Names(test_cases), Infos(test_cases), entries)
    }

    /** Everything is in order after these registrations. */
    ghost predicate Holding(entries: seq<Entry>)
      reads this, test_cases
    {
      Valid() && LaidOut() && InPlace() && Registers(entries)
    }

    constructor (seed: nat)
      ensures Holding([]) && fresh(random) && test_cases == [] && Repr == {}
    {
      random := new Random(seed);
      test_cases, test_case_indices, last_death_test_case, random_seed := [], [], -1, 0;
      registered, Repr := [], {};
      new;
      assert Names(test_cases) == [];
      assert Layout([], -1, []);
    }

    /** The test case of that name, registered if it was not; a death test goes after the death tests so far. */
    method GetTestCase(name: string) returns (test_case: TestCase)
      requires Valid() && LaidOut() && |test_cases| < MAX_RANGE
      requires Owns()
      modifies this`test_cases, this`test_case_indices, this`last_death_test_case, this`registered, this`Repr
      ensures Valid() && LaidOut() && test_case in test_cases && test_case.name == name
      ensures Owns() && fresh(Repr - old(Repr))
      ensures if name in old(registered) then Same(old(test_cases), old(test_case_indices), old(registered))
              else HasNew(old(test_cases), old(test_case_indices), old(registered), old(last_death_test_case),
                          test_case)
    {
      VectorHolds(registered, name);
      var i := FindTestCase(name);
      if i < |test_cases| { return test_cases[i]; }
      test_case := Register(name);
    }

    ghost predicate Same(cases: seq<TestCase>, indices: seq<nat>, names: seq<string>)
      reads this
    {
      test_cases == cases && test_case_indices == indices && registered == names
    }

    /** c, which has no tests, is new behind the death tests or at the end, and its index is the last. */
    ghost predicate HasNew(cases: seq<TestCase>, indices: seq<nat>, names: seq<string>, last: int, c: TestCase)
      reads this, c
    {
      var at := PlaceFor(c.name, last, |cases|);
      && c.test_info_list == [] && c.test_indices == []
      && 0 <= at <= |cases| && test_cases == Insert(cases, at, c) && test_case_indices == indices + [|cases|]
      && registered == names + [c.name] && last_death_test_case == last + if IsDeathTestCase(c.name) then 1 else 0
    }

    static method MatchesDeathFilter(name: string) returns (death: bool)
      ensures death <==> IsDeathTestCase(name)
    {
      death := MatchesFilter(name, DEATH_TEST_CASE_FILTER);
      DeathFilterMeans(name);
    }

    /** A new test case of that name, at its place. */
    method Register(name: string) returns (test_case: TestCase)
      requires Valid() && LaidOut() && |test_cases| < MAX_RANGE && name !in Names(test_cases)
      requires Owns()
      modifies this`test_cases, this`test_case_indices, this`last_death_test_case, this`registered, this`Repr
      ensures Valid() && LaidOut() && test_case in test_cases && test_case.name == name
      ensures Owns() && fresh(Repr - old(Repr))
      ensures HasNew(old(test_cases), old(test_case_indices), old(registered), old(last_death_test_case), test_case)
    {
      ghost var cases, indices, names, last := test_cases, test_case_indices, registered, last_death_test_case;
      test_case := new TestCase(name);
      var death := MatchesDeathFilter(name);
      var at := |test_cases|;
      if death {
        last_death_test_case := last_death_test_case + 1;
        at := last_death_test_case;
      }
      InsertHolds(test_cases, at, test_case);
      test_cases := Insert(test_cases, at, test_case);
      test_case_indices := test_case_indices + [|test_case_indices|];
      registered, Repr := registered + [name], Repr + {test_case};
      NewIsValid(cases, indices, names, last, test_case);
    }

    /** A new test case at its place keeps everything valid. */
    lemma NewIsValid(cases: seq<TestCase>, indices: seq<nat>, names: seq<string>, last: int, c: TestCase)
      requires HasNew(cases, indices, names, last, c) && c.Valid() && c.name !in Names(cases) && |cases| < MAX_RANGE
      requires Proper(cases) && IsPermutation(indices, |cases|) && -1 <= last && Layout(Names(cases), last, names)
      ensures Valid() && LaidOut()
    {
      var at := PlaceFor(c.name, last, |cases|);
      Registered(names, Names(cases), last, c.name);
      Inserted(cases, at, c);
      StillProper(cases, at, c);
      OneMorePlace(indices, |cases|);
    }

    /** The position of the test case of that name, or the number of test cases. */
    method FindTestCase(name: string) returns (i: nat)
      ensures i <= |test_cases|
      ensures i < |test_cases| ==> test_cases[i].name == name
      ensures i == |test_cases| ==> name !in Names(test_cases)
    {
      i := 0;
      while i < |test_cases|
        invariant i <= |test_cases|
        invariant forall j :: 0 <= j < i ==> Names(test_cases)[j] != name
      {
        if test_cases[i].name == name { return; }
        i := i + 1;
      }
    }

    /** Registers a test in a test case. */
    method AddTestInfo(test_case: string, test: string, ghost entries: seq<Entry>)
      requires Holding(entries) && Owns() && |entries| < MAX_RANGE
      modifies this`test_cases, this`test_case_indices, this`last_death_test_case, this`registered, this`Repr, Repr
      ensures Holding(entries + [Entry(test_case, test)])
      ensures Owns() && fresh(Repr - old(Repr))
    {
      SelectLengths(registered);
      ghost var cases, indices, last := test_cases, test_case_indices, last_death_test_case;
      ghost var infos, orders := Infos(cases), TestOrders(cases);
      var c := GetTestCase(test_case);
      assert Infos(cases) == infos && TestOrders(cases) == orders;
      if test_case !in CaseNames(entries) { NewCase(cases, indices, last, c, entries, infos, orders); }
      AddToCase(c, test, entries);
      OneMoreEntry(entries, Entry(test_case, test), test_case);
    }

    /** Its test case has the tests registered so far, and now one more. */
    method AddToCase(c: TestCase, test: string, ghost entries: seq<Entry>)
      requires Proper(test_cases) && c in test_cases && InPlace() &&
               HoldTests(Names(test_cases), Infos(test_cases), entries)
      requires |entries| < MAX_RANGE
      modifies c
      ensures Proper(test_cases) && InPlace()
      ensures HoldTests(Names(test_cases), Infos(test_cases), entries + [Entry(c.name, test)])
    {
      ghost var i :| 0 <= i < |test_cases| && test_cases[i] == c;
      ghost var infos, order := Infos(test_cases), CurrentOrder();
      assert HoldsTestsOf(infos[i], Names(test_cases)[i], entries);
      Apart(test_cases, i);
      c.AddTestInfo(test);
      OneChanged(test_cases, i, infos, order.tests);
      HoldAdded(Names(test_cases), infos, entries, i, test);
      UnshuffledAdd(infos, order, i, TestInfo(test, false));
    }

    /** With a new test case that has no tests, everything is as the registrations say. */
    lemma NewCase(cases: seq<TestCase>, indices: seq<nat>, last: int, c: TestCase, entries: seq<Entry>,
                  infos: seq<seq<TestInfo>>, orders: seq<seq<nat>>)
      requires HasNew(cases, indices, CaseNames(entries), last, c) && c.name !in CaseNames(entries)
      requires infos == Infos(cases) && orders == TestOrders(cases)
      requires Order(indices, orders) == Unshuffled(infos) && HoldTests(Names(cases), infos, entries)
      ensures InPlace() && HoldTests(Names(test_cases), Infos(test_cases), entries)
    {
      var at := PlaceFor(c.name, last, |cases|);
      Inserted(cases, at, c);
      InsertedTests(cases, at, c);
      HoldInserted(Names(cases), infos, entries, at, c.name);
      UnshuffledInsert(infos, Order(indices, orders), at);
    }

    method ShuffleTests()
      requires Valid()
      modifies this`test_case_indices, test_cases, random
      ensures Valid() && Infos(test_cases) == old(Infos(test_cases))
      ensures (CurrentOrder(), random.state) ==
              ShuffledOrder(old(random.state), last_death_test_case + 1, old(CurrentOrder()))
    {
      ShuffleCases();
      ShuffleEachCase(test_cases, random);
    }

    /** The death tests, then the others. */
    method ShuffleCases()
      requires Valid()
      modifies this`test_case_indices, random
      ensures Valid()
      ensures (test_case_indices, random.state) ==
              ShuffledCases(old(random.state), last_death_test_case + 1, old(test_case_indices))
    {
      var deaths := last_death_test_case + 1;
      ShuffledCasesPartition(random.state, deaths, test_case_indices, |test_cases|);
      ShuffledLength(random.state, 0, deaths, test_case_indices);
      test_case_indices := ShuffleRange(random, 0, deaths, test_case_indices);
      test_case_indices := ShuffleRange(random, deaths, |test_cases|, test_case_indices);
    }

    /** The marks of the selection, and how many tests it selects. */
    method FilterTests(sel: Selection) returns (num_selected_tests: nat)
      requires Valid() && sel.shard.Valid()
      modifies test_cases
      ensures Valid() && TestOrders(test_cases) == old(TestOrders(test_cases))
      ensures AreMarked(sel, Names(test_cases), old(Infos(test_cases)), Infos(test_cases))
      ensures num_selected_tests ==
              Share(OnShard(sel.shard), RunnableBefore(sel, Names(test_cases), old(Infos(test_cases)), |test_cases|))
    {
      num_selected_tests := FilterEachCase(test_cases, sel);
    }

    method UnshuffleTests()
      requires Valid()
      modifies this`test_case_indices, test_cases
      ensures Valid() && InPlace() && Infos(test_cases) == old(Infos(test_cases))
    {
      test_case_indices := UnshuffleEachCase(test_cases, test_case_indices);
    }

    method RunTestCases() returns (round: Round)
      requires Valid()
      ensures GoesBy(round, Names(test_cases), Infos(test_cases), CurrentOrder())
    {
      ghost var names, infos, o := Names(test_cases), Infos(test_cases), CurrentOrder();
      var order, ran := [], [];
      var i := 0;
      while i < |test_cases|
        invariant i <= |test_cases| && GoesUpTo(order, ran, i, names, infos, o)
      {
        var test_case := test_cases[test_case_indices[i]];
        var tests := test_case.Run();
        OneMoreTurn(order, ran, i, names, infos, o, test_case.name, tests);
        order, ran := order + [test_case.name], ran + [tests];
        i := i + 1;
      }
      AllTurns(order, ran, names, infos, o);
      round := Round(order, ran);
    }

    /** Nothing is shuffled, and the test cases have these names and tests. */
    ghost predicate Ready(names: seq<string>, infos: seq<seq<TestInfo>>)
      reads this, test_cases
    {
      Valid() && InPlace() && Names(test_cases) == names && Infos(test_cases) == infos
    }

    method ShuffleFromSeed()
      requires Valid() && InPlace()
      modifies this`test_case_indices, test_cases, random
      ensures Valid() && Infos(test_cases) == old(Infos(test_cases))
      ensures CurrentOrder() == SeededOrder(random_seed, last_death_test_case + 1, Infos(test_cases))
    {
      random.Reseed(random_seed);
      ShuffleTests();
    }

    /** Shuffle if asked, and run. */
    method RunInOrder(shuffle: bool, ghost names: seq<string>, ghost infos: seq<seq<TestInfo>>) returns (round: Round)
      requires Ready(names, infos)
      modifies this`test_case_indices, test_cases, random
      ensures Valid() && Infos(test_cases) == infos
      ensures GoesBy(round, names, infos,
                     if shuffle then SeededOrder(random_seed, last_death_test_case + 1, infos) else Unshuffled(infos))
    {
      if shuffle { ShuffleFromSeed(); }
      round := RunTestCases();
    }

    /** One round: shuffle if asked, run, put back. */
    method RunRound(shuffle: bool, has_tests_to_run: bool, ghost names: seq<string>, ghost infos: seq<seq<TestInfo>>)
      returns (round: Round)
      requires Ready(names, infos)
      modifies this`test_case_indices, test_cases, random
      ensures Ready(names, infos)
      ensures IsRound(round, names, infos, has_tests_to_run,
                      if shuffle then SeededOrder(random_seed, last_death_test_case + 1, infos) else Unshuffled(infos))
    {
      round := Round([], []);
      if has_tests_to_run {
        round := RunInOrder(shuffle, names, infos);
        RanBy(round, names, infos,
              if shuffle then SeededOrder(random_seed, last_death_test_case + 1, infos) else Unshuffled(infos));
      }
      UnshuffleTests();
    }

    /** Round number r, and the seed of the next one. */
    method RunNumberedRound(shuffle: bool, has_tests_to_run: bool, ghost names: seq<string>,
                            ghost infos: seq<seq<TestInfo>>, ghost seed: nat, ghost r: nat)
      returns (round: Round)
      requires Ready(names, infos) && 1 <= seed <= MAX_RANDOM_SEED
      requires shuffle ==> random_seed == SeedAfter(seed, r)
      modifies this`test_case_indices, this`random_seed, test_cases, random
      ensures Ready(names, infos)
      ensures shuffle ==> random_seed == SeedAfter(seed, r + 1)
      ensures IsRound(round, names, infos, has_tests_to_run,
                      RoundOrder(shuffle, seed, r, last_death_test_case + 1, infos))
    {
      round := RunRound(shuffle, has_tests_to_run, names, infos);
      if shuffle { random_seed := GetNextRandomSeed(random_seed); }
    }

    /** The loop over the rounds, each with the next seed. */
    method RunRounds(shuffle: bool, seed_flag: nat, time: nat, repeat: nat, has_tests_to_run: bool,
                     ghost names: seq<string>, ghost infos: seq<seq<TestInfo>>)
      returns (rounds: seq<Round>)
      requires Ready(names, infos) && seed_flag < 0x1_0000_0000
      modifies this`test_case_indices, this`random_seed, test_cases, random
      ensures Ready(names, infos) && |rounds| == repeat
      ensures AreRounds(rounds, names, infos, has_tests_to_run, shuffle, GetRandomSeedFromFlag(seed_flag, time),
                        last_death_test_case + 1)
    {
      random_seed := if shuffle then GetRandomSeedFromFlag(seed_flag, time) else 0;
      ghost var seed, deaths := GetRandomSeedFromFlag(seed_flag, time), last_death_test_case + 1;
      rounds := [];
      while |rounds| < repeat
        invariant |rounds| <= repeat && Ready(names, infos)
        invariant shuffle ==> random_seed == SeedAfter(seed, |rounds|)
        invariant deaths <= |infos| && AreRounds(rounds, names, infos, has_tests_to_run, shuffle, seed, deaths)
        decreases repeat - |rounds|
      {
        rounds := RunOneMore(shuffle, has_tests_to_run, names, infos, seed, deaths, rounds);
      }
    }

    method RunOneMore(shuffle: bool, has_tests_to_run: bool, ghost names: seq<string>, ghost infos: seq<seq<TestInfo>>,
                      ghost seed: nat, ghost deaths: nat, rounds: seq<Round>)
      returns (more: seq<Round>)
      requires Ready(names, infos) && 1 <= seed <= MAX_RANDOM_SEED && deaths == last_death_test_case + 1 <= |infos|
      requires shuffle ==> random_seed == SeedAfter(seed, |rounds|)
      requires AreRounds(rounds, names, infos, has_tests_to_run, shuffle, seed, deaths)
      modifies this`test_case_indices, this`random_seed, test_cases, random
      ensures Ready(names, infos) && |more| == |rounds| + 1
      ensures shuffle ==> random_seed == SeedAfter(seed, |more|)
      ensures AreRounds(more, names, infos, has_tests_to_run, shuffle, seed, deaths)
    {
      var round := RunNumberedRound(shuffle, has_tests_to_run, names, infos, seed, |rounds|);
      OneMoreRound(rounds, round, names, infos, has_tests_to_run, shuffle, seed, deaths);
      more := rounds + [round];
    }

    /** Marks the tests of the selection; are there any? */
    method SelectTests(sel: Selection, ghost entries: seq<Entry>) returns (has_tests_to_run: bool)
      requires Holding(entries) && sel.shard.Valid()
      modifies test_cases
      ensures Holding(entries) && AreMarked(sel, Names(test_cases), Infos(test_cases), Infos(test_cases))
      ensures has_tests_to_run == SomeToRun(Infos(test_cases))
    {
      ghost var names, was := Names(test_cases), Infos(test_cases);
      var num_selected_tests := FilterTests(sel);
      has_tests_to_run := num_selected_tests > 0;
      SomeToRunIff(sel, names, was, Infos(test_cases));
      MarksOnly(sel, names, was, Infos(test_cases));
      SameUnshuffled(was, Infos(test_cases));
    }

    /** In order, with these names and tests. */
    ghost predicate HoldingThese(entries: seq<Entry>, names: seq<string>, infos: seq<seq<TestInfo>>)
      reads this, test_cases
    {
      Holding(entries) && Names(test_cases) == names && Infos(test_cases) == infos
    }

    /** The rounds of a run, which leave everything in order. */
    method RunSelected(shuffle: bool, seed_flag: nat, time: nat, repeat: nat, has_tests_to_run: bool,
                       ghost entries: seq<Entry>, ghost names: seq<string>, ghost infos: seq<seq<TestInfo>>)
      returns (rounds: seq<Round>)
      requires HoldingThese(entries, names, infos) && seed_flag < 0x1_0000_0000
      modifies this`test_case_indices, this`random_seed, test_cases, random
      ensures HoldingThese(entries, names, infos) && |rounds| == repeat
      ensures AreRounds(rounds, names, infos, has_tests_to_run, shuffle, GetRandomSeedFromFlag(seed_flag, time),
                        last_death_test_case + 1)
    {
      rounds := RunRounds(shuffle, seed_flag, time, repeat, has_tests_to_run, names, infos);
    }

    lemma HoldingMeans(entries: seq<Entry>, names: seq<string>, infos: seq<seq<TestInfo>>)
      requires HoldingThese(entries, names, infos)
      ensures LaidOutFor(entries, names, infos, last_death_test_case)
    {}

    /** What a run of the test program has done and left behind. */
    ghost predicate HasRun(entries: seq<Entry>, sel: Selection, shuffle: bool, seed: nat, rounds: seq<Round>,
                           names: seq<string>, infos: seq<seq<TestInfo>>)
      requires sel.shard.Valid() && 1 <= seed <= MAX_RANDOM_SEED
      reads this, test_cases
    {
      && HoldingThese(entries, names, infos) && IsRun(entries, sel, names, infos, rounds)
      && RanMarked(sel, names, infos, rounds, shuffle, seed, last_death_test_case)
    }

    /**
     * The test program: tests are selected, and in every round each test case has one turn, in which each of its
     * selected tests runs once, death tests before the others. A shuffled round depends on its own seed only;
     * afterwards everything is back in place.
     */
    method RunAllTests(sel: Selection, shuffle: bool, seed_flag: nat, time: nat, repeat: nat, ghost entries: seq<Entry>)
      returns (rounds: seq<Round>, ghost names: seq<string>, ghost infos: seq<seq<TestInfo>>)
      requires Holding(entries) && sel.shard.Valid() && seed_flag < 0x1_0000_0000
      modifies this`test_case_indices, this`random_seed, test_cases, random
      ensures |rounds| == repeat
      ensures HasRun(entries, sel, shuffle, GetRandomSeedFromFlag(seed_flag, time), rounds, names, infos)
    {
      var has_tests_to_run := SelectTests(sel, entries);
      names, infos := Names(test_cases), Infos(test_cases);
      rounds := RunSelected(shuffle, seed_flag, time, repeat, has_tests_to_run, entries, names, infos);
      HoldingMeans(entries, names, infos);
      RoundsAreRun(entries, sel, names, infos, rounds, shuffle, GetRandomSeedFromFlag(seed_flag, time),
                   last_death_test_case);
    }
  }

  /** Registers every test, and runs the test program. */
  method RunTestProgram(entries: seq<Entry>, sel: Selection, shuffle: bool, seed_flag: nat, time: nat, repeat: nat)
    returns (rounds: seq<Round>, ghost names: seq<string>, ghost infos: seq<seq<TestInfo>>)
    requires |entries| <= MAX_RANGE && sel.shard.Valid() && seed_flag < 0x1_0000_0000
    ensures |rounds| == repeat && IsRun(entries, sel, names, infos, rounds)
  {
    var impl := RegisterAll(entries);
    assert forall i :: 0 <= i < |impl.test_cases| ==> impl.test_cases[i] in impl.Repr;
    rounds, names, infos := impl.RunAllTests(sel, shuffle, seed_flag, time, repeat, entries);
  }

  method RegisterAll(entries: seq<Entry>) returns (impl: UnitTestImpl)
    requires |entries| <= MAX_RANGE
    ensures fresh(impl) && fresh(impl.random) && impl.Owns() && fresh(impl.Repr)
    ensures impl.Holding(entries)
  {
    impl := new UnitTestImpl(0);
    var i := 0;
    assert entries[..0] == [];
    while i < |entries|
      invariant 0 <= i <= |entries|
      invariant fresh(impl) && fresh(impl.random) && impl.Owns() && fresh(impl.Repr)
      invariant impl.Holding(entries[..i])
    {
      NextEntry(entries, i);
      impl.AddTestInfo(entries[i].test_case, entries[i].test, entries[..i]);
      i := i + 1;
    }
    assert entries[..i] == entries;
  }

  // ---- reading the order ----

  function GetElementOr(v: seq<nat>, i: int, default_value: int): int {
    if i < 0 || i >= |v| then default_value else v[i]
  }

  /** The accessor for callers that may change the test case. */
  function GetMutableTestCase(cases: seq<TestCase>, indices: seq<nat>, i: int): TestCase?
    requires IsPermutation(indices, |cases|)
  {
    var index := GetElementOr(indices, i, -1);
    if index < 0 then null else cases[index]
  }

  /** The read-only accessor: it looks the index up and then uses the position instead. */
  function ConstGetTestCase(cases: seq<TestCase>, indices: seq<nat>, i: int): TestCase?
    requires IsPermutation(indices, |cases|)
  {
    var index := GetElementOr(indices, i, -1);
    if index < 0 then null else cases[i]
  }

  /** The two accessors give the same order exactly while nothing is shuffled. */
  lemma AccessorsAgreeIff(cases: seq<TestCase>, indices: seq<nat>)
    requires IsPermutation(indices, |cases|) && DistinctNames(Names(cases))
    ensures (forall i: int :: ConstGetTestCase(cases, indices, i) == GetMutableTestCase(cases, indices, i)) <==>
            indices == Identity(|cases|)
  {
    if indices != Identity(|cases|) {
      var k :| 0 <= k < |cases| && indices[k] != k;
      assert Names(cases)[k] != Names(cases)[indices[k]];
      assert ConstGetTestCase(cases, indices, k) != GetMutableTestCase(cases, indices, k);
    }
  }

  /** With two test cases in the order b, a, the read-only accessor gives a first and the other one b. */
  lemma AccessorsDisagree(a: TestCase, b: TestCase)
    requires a.name != b.name
    ensures var cases, indices := [a, b], [1, 0];
            && IsPermutation(indices, |cases|) && DistinctNames(Names(cases))
            && ConstGetTestCase(cases, indices, 0) == a && GetMutableTestCase(cases, indices, 0) == b && a != b
  {}
}
