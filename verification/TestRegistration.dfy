/** The vector of test cases that registrations build: death tests first, each kind in order of registration. */
module TestRegistration {
  import opened Shuffle
  import opened TestFilter

  ghost function Select(names: seq<string>, death: bool): seq<string> {
    if names == [] then []
    else
      var n := |names| - 1;
      Select(names[..n], death) + if IsDeathTestCase(names[n]) == death then [names[n]] else []
  }

  /** One more name, whatever kinds the names are of. */
  lemma SelectSnoc(names: seq<string>, name: string, death: bool)
    ensures Select(names + [name], death) ==
            Select(names, death) + if IsDeathTestCase(name) == death then [name] else []
  {
    assert (names + [name])[..|names|] == names;
  }

  /** The names a list of registrations gives, in the order of the vector of test cases: death tests first. */
  ghost function DeathFirst(names: seq<string>): seq<string> {
    Select(names, true) + Select(names, false)
  }

  predicate DistinctNames(names: seq<string>) { forall i, j :: 0 <= i < j < |names| ==> names[i] != names[j] }

  function Insert<T>(s: seq<T>, at: nat, x: T): seq<T>
    requires at <= |s|
  { s[..at] + [x] + s[at..] }

  lemma InsertHolds<T>(s: seq<T>, at: nat, x: T)
    requires at <= |s|
    ensures x in Insert(s, at, x) && forall y :: y in Insert(s, at, x) ==> y in s || y == x
  {
    assert Insert(s, at, x)[at] == x;
  }

  /** The vector of test cases holds the registered names, death tests first, up to position last. */
  ghost predicate Layout(names: seq<string>, last: int, registered: seq<string>) {
    && DistinctNames(names) && names == DeathFirst(registered)
    && last + 1 == |Select(registered, true)| <= |names|
    && DeathUpTo(names, last + 1)
  }

  /** The death tests are the first deaths names. */
  ghost predicate DeathUpTo(names: seq<string>, deaths: int) {
    forall i :: 0 <= i < |names| ==> (IsDeathTestCase(names[i]) <==> i < deaths)
  }

  /** Where a new test case goes: behind the death tests, or at the end. */
  ghost function PlaceFor(name: string, last: int, n: nat): int { if IsDeathTestCase(name) then last + 1 else n }

  lemma Registered(registered: seq<string>, names: seq<string>, last: int, name: string)
    requires Layout(names, last, registered) && name !in names
    ensures 0 <= PlaceFor(name, last, |names|) <= |names|
    ensures Layout(Insert(names, PlaceFor(name, last, |names|), name), if IsDeathTestCase(name) then last + 1 else last,
                   registered + [name])
  {
    SelectSnoc(registered, name, true);
    SelectSnoc(registered, name, false);
    var at := PlaceFor(name, last, |names|);
    InsertedOrder(Select(registered, true), Select(registered, false), name, IsDeathTestCase(name), at);
    InsertDistinct(names, at, name);
    InsertDeath(names, at, name, last + 1);
  }

  lemma InsertedOrder(deaths: seq<string>, others: seq<string>, name: string, death: bool, at: int)
    requires at == if death then |deaths| else |deaths + others|
    ensures Insert(deaths + others, at, name) ==
            (deaths + if death then [name] else []) + (others + if death then [] else [name])
  {}

  lemma InsertDistinct(names: seq<string>, at: nat, name: string)
    requires at <= |names| && DistinctNames(names) && name !in names
    ensures DistinctNames(Insert(names, at, name))
  {}

  lemma InsertDeath(names: seq<string>, at: nat, name: string, deaths: nat)
    requires DeathUpTo(names, deaths) && deaths <= |names| && at == if IsDeathTestCase(name) then deaths else |names|
    ensures DeathUpTo(Insert(names, at, name), if IsDeathTestCase(name) then deaths + 1 else deaths)
  {
    var more := Insert(names, at, name);
    forall i | 0 <= i < |more|
      ensures IsDeathTestCase(more[i]) <==> i < if IsDeathTestCase(name) then deaths + 1 else deaths
    {
      assert more[i] == if i < at then names[i] else if i == at then name else names[i - 1];
    }
  }

  lemma {:induction false} SelectIn(names: seq<string>, name: string, death: bool)
    ensures name in Select(names, death) <==> name in names && IsDeathTestCase(name) == death
  {
    if names != [] {
      var n := |names| - 1;
      SelectIn(names[..n], name, death);
      assert names == names[..n] + [names[n]];
    }
  }

  lemma VectorHolds(registered: seq<string>, name: string)
    ensures name in DeathFirst(registered) <==> name in registered
  {
    SelectIn(registered, name, true);
    SelectIn(registered, name, false);
  }

  lemma {:induction false} SelectLengths(names: seq<string>)
    ensures |Select(names, true)| + |Select(names, false)| == |names|
  {
    if names != [] { SelectLengths(names[..|names| - 1]); }
  }

  // ---- registrations ----

  /** The registration of a test in a test case. */
  datatype Entry = Entry(test_case: string, test: string)

  /** The test cases in the order of their first registration. */
  function CaseNames(entries: seq<Entry>): (names: seq<string>)
    ensures |names| <= |entries|
  {
    if entries == [] then []
    else
      var names, name := CaseNames(entries[..|entries| - 1]), entries[|entries| - 1].test_case;
      if name in names then names else names + [name]
  }

  /** The tests of a test case in the order of their registration. */
  function TestsOf(entries: seq<Entry>, test_case: string): (tests: seq<string>)
    ensures |tests| <= |entries|
  {
    if entries == [] then []
    else
      var last := entries[|entries| - 1];
      TestsOf(entries[..|entries| - 1], test_case) + if last.test_case == test_case then [last.test] else []
  }

  lemma {:induction false} CaseNamesAre(entries: seq<Entry>, name: string)
    ensures name in CaseNames(entries) <==> exists i :: 0 <= i < |entries| && entries[i].test_case == name
  {
    if entries != [] {
      var n := |entries| - 1;
      CaseNamesAre(entries[..n], name);
      assert forall i :: 0 <= i < n ==> entries[..n][i] == entries[i];
    }
  }

  lemma {:induction false} NoTestsYet(entries: seq<Entry>, name: string)
    requires name !in CaseNames(entries)
    ensures TestsOf(entries, name) == []
  {
    if entries != [] { NoTestsYet(entries[..|entries| - 1], name); }
  }

  lemma NextEntry(entries: seq<Entry>, i: nat)
    requires i < |entries|
    ensures entries[..i + 1] == entries[..i] + [entries[i]]
  {}

  lemma OneMoreEntry(entries: seq<Entry>, entry: Entry, name: string)
    ensures CaseNames(entries + [entry]) ==
            CaseNames(entries) + if entry.test_case in CaseNames(entries) then [] else [entry.test_case]
    ensures TestsOf(entries + [entry], name) ==
            TestsOf(entries, name) + if entry.test_case == name then [entry.test] else []
  {
    assert (entries + [entry])[..|entries|] == entries;
  }

  // ---- registering while the order is shuffled ----

  /** Which positions hold the death tests. */
  predicate Partitioned(v: seq<nat>, deaths: nat) {
    forall i :: 0 <= i < |v| ==> (v[i] < deaths <==> i < deaths)
  }

  ghost predicate DeathTestsFirst(order: seq<string>) {
    forall i, j :: 0 <= i < j < |order| && IsDeathTestCase(order[j]) ==> IsDeathTestCase(order[i])
  }

  /** The names in the order of the indices. */
  function InOrder(names: seq<string>, indices: seq<nat>): (order: seq<string>)
    requires IsPermutation(indices, |names|)
    ensures |order| == |names|
  {
    seq(|names|, i requires 0 <= i < |names| => names[indices[i]])
  }

  lemma DeathAt(names: seq<string>, indices: seq<nat>, deaths: nat)
    requires IsPermutation(indices, |names|) && DeathUpTo(names, deaths)
    ensures forall i :: 0 <= i < |names| ==> (IsDeathTestCase(InOrder(names, indices)[i]) <==> indices[i] < deaths)
  {}

  /** The index behind the death tests is its own, or there is none. */
  predicate NextInPlace(indices: seq<nat>, deaths: nat) { deaths < |indices| ==> indices[deaths] == deaths }

  /**
    Registering a death test case while the order is shuffled, death tests in front, keeps them in front exactly when
    the first index behind them is its own, or there is none.
   */
  lemma RegisterDeathKeepsOrderIff(names: seq<string>, indices: seq<nat>, deaths: nat, name: string)
    requires IsPermutation(indices, |names|) && deaths <= |names| && DeathUpTo(names, deaths)
    requires Partitioned(indices, deaths) && IsDeathTestCase(name)
    ensures IsPermutation(indices + [|names|], |names| + 1)
    ensures DeathTestsFirst(InOrder(Insert(names, deaths, name), indices + [|names|])) <==> NextInPlace(indices, deaths)
  {
    var v, more := indices + [|names|], Insert(names, deaths, name);
    InsertDeath(names, deaths, name, deaths);
    DeathAt(more, v, deaths + 1);
    var order := InOrder(more, v);
    if NextInPlace(indices, deaths) {
      forall i | 0 <= i < |v| ensures v[i] < deaths + 1 <==> i < deaths + 1 {
        if deaths < i < |names| { assert indices[deaths] != indices[i]; }
      }
    } else {
      var j := PermutationCovers(indices, |names|, deaths);
      assert v[deaths] == indices[deaths] && v[j] == indices[j];
      assert !IsDeathTestCase(order[deaths]) && IsDeathTestCase(order[j]);
    }
  }

  /** With the test cases A and B in the order B, A, a new death test case XDeathTest comes second. */
  lemma RegisterDeathLosesOrder()
    ensures var names, v := ["A", "B"], [1, 0];
            && IsPermutation(v, 2) && IsPermutation(v + [2], 3)
            && DeathTestsFirst(InOrder(names, v))
            && InOrder(Insert(names, 0, "XDeathTest"), v + [2]) == ["A", "XDeathTest", "B"]
            && !DeathTestsFirst(["A", "XDeathTest", "B"])
  {
    var order := ["A", "XDeathTest", "B"];
    assert "XDeathTest"[1..] == "DeathTest";
    NoDeath("A");
    NoDeath("B");
    assert IsDeathTestCase(order[1]) && !IsDeathTestCase(order[0]);
  }

  lemma NoDeath(name: string)
    requires |name| < 9
    ensures !IsDeathTestCase(name)
  {}
}
