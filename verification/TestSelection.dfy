/** Which tests a run selects: the user's filter, disabled tests, and the shard the program runs as. */
module TestSelection {
  import opened Arith
  import opened TestFilter

  datatype TestInfo = TestInfo(name: string, should_run: bool)

  /** The whole run, or one of total parts of it. */
  datatype Shard = Whole | Part(total: nat, index: nat) {
    predicate Valid() { Part? ==> index < total }
  }

  datatype Selection = Selection(filter: string, also_run_disabled: bool, shard: Shard)

  // ---- the filter flag ----

  /** The place of the first dash, or the end. */
  function DashAt(filter: string): (i: nat)
    ensures i <= |filter| && '-' !in filter[..i] && (i < |filter| ==> filter[i] == '-')
  {
    if filter == "" || filter[0] == '-' then 0 else
    var i := DashAt(filter[1..]);
    assert filter[..i + 1] == [filter[0]] + filter[1..][..i];
    i + 1
  }

  /** The name is in the part before the dash, everything if that is empty, and not in the part behind it. */
  ghost predicate FilterSelects(filter: string, full_name: string) {
    var dash := DashAt(filter);
    && (InFilter(filter[..dash], full_name) || (dash == 0 < |filter|))
    && !(dash < |filter| && InFilter(filter[dash + 1..], full_name))
  }

  method FilterMatchesTest(filter: string, test_case_name: string, test_name: string) returns (matches: bool)
    ensures matches <==> FilterSelects(filter, test_case_name + "." + test_name)
  {
    var full_name := test_case_name + "." + test_name;
    var dash := DashAt(filter);
    var positive, negative := filter, "";
    if dash < |filter| {
      positive, negative := filter[..dash], filter[dash + 1..];
      if positive == "" {
        positive := "*";
        EverythingMatches(full_name);
      }
    } else {
      assert filter[..dash] == filter;
      EmptyMatchesNothing(full_name);
    }
    matches := MatchesFilter(full_name, positive);
    if matches {
      var excluded := MatchesFilter(full_name, negative);
      matches := !excluded;
    }
  }

  lemma EverythingMatches(name: string)
    ensures InFilter("*", name)
  {
    SegmentIs("*", "");
    StarMatches(name);
    assert "*" + "" == "*";
  }

  lemma EmptyMatchesNothing(name: string)
    requires name != ""
    ensures !InFilter("", name)
  {}

  // ---- disabled tests ----

  const DISABLE_TEST_FILTER := "DISABLED_*:*/DISABLED_*"

  /** The name begins with DISABLED_, or has /DISABLED_ in it. */
  ghost predicate IsDisabled(name: string) {
    "DISABLED_" <= name || exists k :: 0 <= k <= |name| && "/DISABLED_" <= name[k..]
  }

  lemma DisableFilterText()
    ensures DISABLE_TEST_FILTER == "DISABLED_" + "*" + ":" + ("*" + "/DISABLED_" + "*")
    ensures IsLiteral("DISABLED_") && IsLiteral("/DISABLED_")
  {}

  lemma PrefixMeans(lit: string, name: string)
    requires IsLiteral(lit)
    ensures InPattern(lit + "*", name) <==> lit <= name
  {
    LiteralThen(lit, "*", name);
    if lit <= name { StarMatches(name[|lit|..]); }
  }

  lemma PrefixOrInside(a: string, b: string, name: string)
    requires IsLiteral(a) && IsLiteral(b)
    ensures InFilter(a + "*" + ":" + ("*" + b + "*"), name) <==>
            a <= name || exists k :: 0 <= k <= |name| && b <= name[k..]
  {
    PrefixMeans(a, name);
    StarLiteralStar(b, name);
    TwoPatterns(a + "*", "*" + b + "*", name);
  }

  /** The filter for disabled tests matches exactly the names that begin with DISABLED_ or contain /DISABLED_. */
  lemma DisableFilterMeans(name: string)
    ensures InFilter(DISABLE_TEST_FILTER, name) <==> IsDisabled(name)
  {
    DisableFilterText();
    PrefixOrInside("DISABLED_", "/DISABLED_", name);
  }

  // ---- what runs ----

  ghost predicate Runnable(sel: Selection, test_case: string, test: string) {
    && (sel.also_run_disabled || !(IsDisabled(test_case) || IsDisabled(test)))
    && FilterSelects(sel.filter, test_case + "." + test)
  }

  method IsRunnable(sel: Selection, test_case: string, test: string) returns (runnable: bool)
    ensures runnable <==> Runnable(sel, test_case, test)
  {
    DisableFilterMeans(test_case);
    DisableFilterMeans(test);
    var is_disabled := MatchesFilter(test_case, DISABLE_TEST_FILTER);
    if !is_disabled { is_disabled := MatchesFilter(test, DISABLE_TEST_FILTER); }
    var matches_filter := FilterMatchesTest(sel.filter, test_case, test);
    runnable := (sel.also_run_disabled || !is_disabled) && matches_filter;
  }

  predicate ShouldRunTestOnShard(shard: Shard, id: nat)
    requires shard.Valid()
  {
    shard.Whole? || id % shard.total == shard.index
  }

  /** The numbers of the tests that the shard runs. */
  function OnShard(shard: Shard): nat -> bool
    requires shard.Valid()
  {
    (id: nat) => ShouldRunTestOnShard(shard, id)
  }

  /** How many of the first n numbers are in it. */
  function Share(on: nat -> bool, n: nat): nat {
    if n == 0 then 0 else Share(on, n - 1) + if on(n - 1) then 1 else 0
  }

  /** Every test is on exactly one of the shards. */
  lemma OneShardEach(total: nat, id: nat)
    requires total > 0
    ensures exists index: nat :: index < total && OnShard(Part(total, index))(id)
    ensures forall i: nat, j: nat ::
              i < total && j < total && OnShard(Part(total, i))(id) && OnShard(Part(total, j))(id) ==>
              i == j
  {
    assert OnShard(Part(total, id % total))(id);
  }

  lemma NextQuotient(n: nat, total: nat, index: nat)
    requires index < total
    ensures (n + total - index) / total == (n + total - 1 - index) / total + if n % total == index then 1 else 0
  {
    var q, r := n / total, n % total;
    assert n == q * total + r && (q + 1) * total == q * total + total;
    if r >= index {
      Digits(q + 1, r - index, total);
      if r > index { Digits(q + 1, r - 1 - index, total); } else { Digits(q, total - 1, total); }
    } else {
      Digits(q, r + total - index, total);
      Digits(q, r + total - 1 - index, total);
    }
  }

  /** The shards get equal shares of n tests, up to one. */
  lemma {:induction false} ShareIs(total: nat, index: nat, n: nat)
    requires index < total
    ensures Share(OnShard(Part(total, index)), n) == (n + total - 1 - index) / total
  {
    if n == 0 {
      Digits(0, total - 1 - index, total);
    } else {
      ShareIs(total, index, n - 1);
      NextQuotient(n - 1, total, index);
    }
  }

  // ---- counting ----

  /** How many of the first n flags are set. */
  function Count(flags: seq<bool>, n: nat): nat
    requires n <= |flags|
  {
    if n == 0 then 0 else Count(flags, n - 1) + if flags[n - 1] then 1 else 0
  }

  lemma {:induction false} CountPositive(flags: seq<bool>, n: nat)
    requires n <= |flags|
    ensures Count(flags, n) > 0 <==> true in flags[..n]
  {
    if n > 0 {
      CountPositive(flags, n - 1);
      assert flags[..n] == flags[..n - 1] + [flags[n - 1]];
    }
  }

  /** Of the tests that can run, those whose number, the count of such tests before, is on the shard. */
  function OnShardOf(on: nat -> bool, runnable: seq<bool>, before: nat): (marks: seq<bool>)
    ensures |marks| == |runnable|
  {
    seq(|runnable|, j requires 0 <= j < |runnable| =>
      runnable[j] && on(before + Count(runnable, j)))
  }

  lemma {:induction false} CountOnShard(on: nat -> bool, runnable: seq<bool>, before: nat, n: nat)
    requires n <= |runnable|
    ensures Share(on, before) + Count(OnShardOf(on, runnable, before), n) ==
            Share(on, before + Count(runnable, n))
  {
    if n > 0 {
      CountOnShard(on, runnable, before, n - 1);
    }
  }

  // ---- test cases ----

  ghost function Runnables(sel: Selection, test_case: string, tests: seq<string>): (flags: seq<bool>)
    ensures |flags| == |tests|
  {
    seq(|tests|, j requires 0 <= j < |tests| => Runnable(sel, test_case, tests[j]))
  }

  function Marks(infos: seq<TestInfo>): (marks: seq<bool>)
    ensures |marks| == |infos| && forall j :: 0 <= j < |infos| ==> marks[j] == infos[j].should_run
  {
    seq(|infos|, j requires 0 <= j < |infos| => infos[j].should_run)
  }

  function TestNames(infos: seq<TestInfo>): (names: seq<string>)
    ensures |names| == |infos| && forall j :: 0 <= j < |infos| ==> names[j] == infos[j].name
  {
    seq(|infos|, j requires 0 <= j < |infos| => infos[j].name)
  }

  predicate AnyToRun(infos: seq<TestInfo>) { exists j :: 0 <= j < |infos| && infos[j].should_run }

  lemma CountAny(infos: seq<TestInfo>)
    ensures Count(Marks(infos), |infos|) > 0 <==> AnyToRun(infos)
  {
    var marks := Marks(infos);
    CountPositive(marks, |marks|);
    assert marks[..|marks|] == marks;
  }

  /** now are the tests of was with the marks of the selection, before tests of earlier test cases being runnable. */
  ghost predicate IsMarked(sel: Selection, test_case: string, was: seq<TestInfo>, before: nat, now: seq<TestInfo>)
    requires sel.shard.Valid()
  {
    && TestNames(now) == TestNames(was)
    && Marks(now) == OnShardOf(OnShard(sel.shard), Runnables(sel, test_case, TestNames(was)), before)
  }

  /** The first j tests are marked; some are to run if any is true. */
  ghost predicate MarkedUpTo(on: nat -> bool, flags: seq<bool>, names: seq<string>, before: nat, now: seq<TestInfo>,
                             j: nat,
                             runnable: nat, selected: nat, any: bool)
  {
    && j <= |flags| == |names| && TestNames(now) == names
    && (forall k :: 0 <= k < j ==> now[k].should_run == OnShardOf(on, flags, before)[k])
    && runnable == before + Count(flags, j) && selected == Count(OnShardOf(on, flags, before), j)
    && any == (selected > 0)
  }

  lemma MarkNext(on: nat -> bool, flags: seq<bool>, names: seq<string>, before: nat, now: seq<TestInfo>, j: nat,
                 runnable: nat, selected: nat, any: bool, is_selected: bool)
    requires j < |flags| && MarkedUpTo(on, flags, names, before, now, j, runnable, selected, any)
    requires is_selected == (flags[j] && on(runnable))
    ensures MarkedUpTo(on, flags, names, before, now[j := TestInfo(names[j], is_selected)], j + 1,
                       runnable + (if flags[j] then 1 else 0), selected + (if is_selected then 1 else 0),
                       any || is_selected)
  {
    var more := now[j := TestInfo(names[j], is_selected)];
    assert TestNames(more) == names;
  }

  lemma AllAreMarked(on: nat -> bool, flags: seq<bool>, names: seq<string>, before: nat, now: seq<TestInfo>,
                     runnable: nat, selected: nat, any: bool)
    requires MarkedUpTo(on, flags, names, before, now, |flags|, runnable, selected, any)
    ensures Marks(now) == OnShardOf(on, flags, before) && any == AnyToRun(now)
    ensures Share(on, before) + selected == Share(on, runnable)
  {
    CountOnShard(on, flags, before, |flags|);
    assert Marks(now) == OnShardOf(on, flags, before);
    CountAny(now);
  }

  /** The loop over the tests of a test case, num_runnable_tests of earlier test cases being runnable. */
  method MarkTests(sel: Selection, test_case: string, infos: seq<TestInfo>, num_runnable_tests: nat)
    returns (now: seq<TestInfo>, runnable: nat, selected: nat, should_run: bool)
    requires sel.shard.Valid()
    ensures IsNextMarked(sel, test_case, infos, num_runnable_tests, now, runnable, selected)
    ensures should_run == AnyToRun(now)
  {
    ghost var names, on := TestNames(infos), OnShard(sel.shard);
    ghost var flags := Runnables(sel, test_case, names);
    now, runnable, selected, should_run := infos, num_runnable_tests, 0, false;
    var j := 0;
    while j < |infos|
      invariant MarkedUpTo(on, flags, names, num_runnable_tests, now, j, runnable, selected, should_run)
    {
      var is_runnable := IsRunnable(sel, test_case, infos[j].name);
      var is_selected := is_runnable && ShouldRunTestOnShard(sel.shard, runnable);
      MarkNext(on, flags, names, num_runnable_tests, now, j, runnable, selected, should_run, is_selected);
      now := now[j := TestInfo(infos[j].name, is_selected)];
      runnable := runnable + if is_runnable then 1 else 0;
      selected := selected + if is_selected then 1 else 0;
      should_run := should_run || is_selected;
      j := j + 1;
    }
    AllAreMarked(on, flags, names, num_runnable_tests, now, runnable, selected, should_run);
  }

  /** The runnable tests of the first i test cases. */
  function SumCount(flags: seq<seq<bool>>, i: nat): nat
    requires i <= |flags|
  {
    if i == 0 then 0 else SumCount(flags, i - 1) + Count(flags[i - 1], |flags[i - 1]|)
  }

  /** The marks of all test cases, the runnable tests being numbered through. */
  predicate AllOnShard(on: nat -> bool, runnable: seq<seq<bool>>, marks: seq<seq<bool>>) {
    && |marks| == |runnable|
    && forall i {:trigger marks[i]} :: 0 <= i < |runnable| ==>
       marks[i] == OnShardOf(on, runnable[i], SumCount(runnable, i))
  }

  /** The number of marks is the shard's share of the runnable tests. */
  lemma {:induction false} AllOnShardCount(on: nat -> bool, runnable: seq<seq<bool>>, marks: seq<seq<bool>>, i: nat)
    requires i <= |runnable| && AllOnShard(on, runnable, marks)
    ensures SumCount(marks, i) == Share(on, SumCount(runnable, i))
  {
    if i > 0 {
      AllOnShardCount(on, runnable, marks, i - 1);
      CountOnShard(on, runnable[i - 1], SumCount(runnable, i - 1), |runnable[i - 1]|);
    }
  }

  lemma {:induction false} SumCountPositive(flags: seq<seq<bool>>, i: nat)
    requires i <= |flags|
    ensures SumCount(flags, i) > 0 <==> exists k :: 0 <= k < i && true in flags[k]
  {
    if i > 0 {
      SumCountPositive(flags, i - 1);
      var last := flags[i - 1];
      CountPositive(last, |last|);
      assert last[..|last|] == last;
    }
  }

  // ---- all tests ----

  ghost function AllRunnables(sel: Selection, names: seq<string>, infos: seq<seq<TestInfo>>): (flags: seq<seq<bool>>)
    requires |names| == |infos|
    ensures |flags| == |infos|
  {
    seq(|infos|, i requires 0 <= i < |infos| => Runnables(sel, names[i], TestNames(infos[i])))
  }

  /** The runnable tests of the first i test cases. */
  ghost function RunnableBefore(sel: Selection, names: seq<string>, infos: seq<seq<TestInfo>>, i: nat): nat
    requires i <= |names| == |infos|
  {
    SumCount(AllRunnables(sel, names, infos), i)
  }

  /** now are the tests of was with the marks of the selection. */
  ghost predicate AreMarked(sel: Selection, names: seq<string>, was: seq<seq<TestInfo>>, now: seq<seq<TestInfo>>)
    requires sel.shard.Valid()
  {
    && |names| == |was| == |now|
    && forall i {:trigger now[i]} :: 0 <= i < |names| ==>
         IsMarked(sel, names[i], was[i], RunnableBefore(sel, names, was, i), now[i])
  }

  /** The first n test cases are marked, the others as they were; the counters are those of the first n. */
  ghost predicate AreMarkedUpTo(sel: Selection, names: seq<string>, was: seq<seq<TestInfo>>, now: seq<seq<TestInfo>>,
                                n: nat,
                                runnable: nat, selected: nat)
    requires sel.shard.Valid()
  {
    && n <= |names| == |was| == |now|
    && (forall i {:trigger now[i]} :: 0 <= i < |names| ==>
         if i < n then IsMarked(sel, names[i], was[i], RunnableBefore(sel, names, was, i), now[i])
         else now[i] == was[i])
    && runnable == RunnableBefore(sel, names, was, n) && selected == Share(OnShard(sel.shard), runnable)
  }

  /** infos are the tests of the next test case marked, and the counters go on to runnable and selected more. */
  ghost predicate IsNextMarked(sel: Selection, test_case: string, was: seq<TestInfo>, before: nat, now: seq<TestInfo>,
                               runnable: nat, selected: nat)
    requires sel.shard.Valid()
  {
    && IsMarked(sel, test_case, was, before, now)
    && var flags := Runnables(sel, test_case, TestNames(was));
    && runnable == before + Count(flags, |flags|)
    && Share(OnShard(sel.shard), before) + selected == Share(OnShard(sel.shard), runnable)
  }

  lemma MarkOneMore(sel: Selection, names: seq<string>, was: seq<seq<TestInfo>>, now: seq<seq<TestInfo>>, n: nat,
                    before: nat, selected: nat, infos: seq<TestInfo>, runnable: nat, more: nat)
    requires sel.shard.Valid() && AreMarkedUpTo(sel, names, was, now, n, before, selected) && n < |names|
    requires IsNextMarked(sel, names[n], now[n], before, infos, runnable, more)
    ensures AreMarkedUpTo(sel, names, was, now[n := infos], n + 1, runnable, selected + more)
  {}

  function AllMarks(infos: seq<seq<TestInfo>>): (marks: seq<seq<bool>>)
    ensures |marks| == |infos|
  {
    seq(|infos|, i requires 0 <= i < |infos| => Marks(infos[i]))
  }

  /** As many tests are marked as the shard has numbers among the runnable tests. */
  lemma MarkedShare(sel: Selection, names: seq<string>, was: seq<seq<TestInfo>>, now: seq<seq<TestInfo>>)
    requires sel.shard.Valid() && AreMarked(sel, names, was, now)
    ensures SumCount(AllMarks(now), |now|) == Share(OnShard(sel.shard), RunnableBefore(sel, names, was, |names|))
  {
    var runnable, marks := AllRunnables(sel, names, was), AllMarks(now);
    forall i | 0 <= i < |runnable|
      ensures marks[i] == OnShardOf(OnShard(sel.shard), runnable[i], SumCount(runnable, i)) {
      assert IsMarked(sel, names[i], was[i], RunnableBefore(sel, names, was, i), now[i]);
    }
    AllOnShardCount(OnShard(sel.shard), runnable, marks, |now|);
  }

  lemma MarkedPositive(infos: seq<seq<TestInfo>>)
    ensures SumCount(AllMarks(infos), |infos|) > 0 <==> exists i :: 0 <= i < |infos| && AnyToRun(infos[i])
  {
    var marks := AllMarks(infos);
    SumCountPositive(marks, |infos|);
    forall i | 0 <= i < |infos| ensures true in marks[i] <==> AnyToRun(infos[i]) {
      CountAny(infos[i]);
      CountPositive(marks[i], |marks[i]|);
      assert marks[i][..|marks[i]|] == marks[i];
    }
  }

  predicate SomeToRun(infos: seq<seq<TestInfo>>) { exists i :: 0 <= i < |infos| && AnyToRun(infos[i]) }

  /** There are tests to run exactly when the shard's share of the runnable tests is positive. */
  lemma SomeToRunIff(sel: Selection, names: seq<string>, was: seq<seq<TestInfo>>, now: seq<seq<TestInfo>>)
    requires sel.shard.Valid() && AreMarked(sel, names, was, now)
    ensures Share(OnShard(sel.shard), RunnableBefore(sel, names, was, |names|)) > 0 <==> SomeToRun(now)
  {
    MarkedShare(sel, names, was, now);
    MarkedPositive(now);
  }

  /** The marks do not depend on the marks before. */
  lemma MarksOnly(sel: Selection, names: seq<string>, was: seq<seq<TestInfo>>, now: seq<seq<TestInfo>>)
    requires sel.shard.Valid() && AreMarked(sel, names, was, now)
    ensures AreMarked(sel, names, now, now) && forall i :: 0 <= i < |names| ==> TestNames(now[i]) == TestNames(was[i])
  {
    forall i | 0 <= i < |names| ensures TestNames(now[i]) == TestNames(was[i]) {
      assert IsMarked(sel, names[i], was[i], RunnableBefore(sel, names, was, i), now[i]);
    }
    assert AllRunnables(sel, names, now) == AllRunnables(sel, names, was);
  }
}
