/** What a shuffle makes of the generator's numbers: a draw without replacement, each rearrangement in one way. */
module FisherYates {
  import opened Shuffle

  /** What the generator's numbers select from n elements, from n - 1, and so on down to 2. */
  function Selections(state: nat, n: nat): seq<nat>
    decreases n
  {
    if n < 2 then [] else [NextState(state) % n] + Selections(NextState(state), n - 1)
  }

  /** A selection for every number of elements from n down to 2, each below that number. */
  predicate AreSelections(choices: seq<nat>, n: nat) {
    |choices| == (if n == 0 then 0 else n - 1) && forall k :: 0 <= k < |choices| ==> choices[k] < n - k
  }

  /** What is left when the element at i is drawn: the last one takes its place. */
  function Without(r: seq<nat>, i: nat): (left: seq<nat>)
    requires i < |r|
    ensures |left| == |r| - 1
  {
    r[i := r[|r| - 1]][..|r| - 1]
  }

  /** The elements drawn, the first one in the last place, the next one before it, and so on down. */
  function Drawn(r: seq<nat>, choices: seq<nat>): (w: seq<nat>)
    requires AreSelections(choices, |r|)
    ensures |w| == |r|
    decreases |r|
  {
    if |r| < 2 then r else Drawn(Without(r, choices[0]), choices[1..]) + [r[choices[0]]]
  }

  lemma {:induction false} SelectionsAre(state: nat, n: nat)
    ensures AreSelections(Selections(state, n), n)
    decreases n
  {
    if n >= 2 { SelectionsAre(NextState(state), n - 1); }
  }

  // ---- the shuffle is the draw ----

  /** The range of the shuffled vector holds the draw of the range of the vector. */
  predicate ShufflesTo(state: nat, begin: nat, n: nat, v: seq<nat>, w: seq<nat>, choices: seq<nat>) {
    && begin + n <= |v| && IsShuffle(state, begin, n, v, w) && |w| == |v|
    && AreSelections(choices, n) && w[begin..begin + n] == Drawn(v[begin..begin + n], choices)
  }

  /** The first selection swaps its element to the last place, and the rest is a shuffle of what is left. */
  lemma FirstSelection(state: nat, begin: nat, n: nat, v: seq<nat>, i: nat)
    requires begin + n <= |v| && n >= 2 && i == NextState(state) % n
    ensures Shuffled(state, begin, n, v) ==
            Shuffled(NextState(state), begin, n - 1, v[begin + i := v[begin + n - 1]][begin + n - 1 := v[begin + i]])
  {}

  lemma LeftInRange(v: seq<nat>, begin: nat, n: nat, i: nat, u: seq<nat>)
    requires begin + n <= |v| && i < n && u == v[begin + i := v[begin + n - 1]][begin + n - 1 := v[begin + i]]
    ensures u[begin..begin + n - 1] == Without(v[begin..begin + n], i) && u[begin + n - 1] == v[begin..begin + n][i]
  {}

  lemma DrawnStep(r: seq<nat>, i: nat, more: seq<nat>, w: seq<nat>)
    requires |r| >= 2 && i < |r| && AreSelections(more, |r| - 1) && |w| == |r|
    requires w[..|r| - 1] == Drawn(Without(r, i), more) && w[|r| - 1] == r[i]
    ensures AreSelections([i] + more, |r|) && w == Drawn(r, [i] + more)
  {
    assert ([i] + more)[1..] == more;
    assert w == w[..|r| - 1] + [w[|r| - 1]];
  }

  lemma {:induction false} ShuffleDraws(state: nat, begin: nat, n: nat, v: seq<nat>) returns (w: seq<nat>)
    requires begin + n <= |v|
    ensures ShufflesTo(state, begin, n, v, w, Selections(state, n))
    decreases n
  {
    w := Shuffled(state, begin, n, v).0;
    if n >= 2 {
      var i, s := NextState(state) % n, NextState(state);
      var u := v[begin + i := v[begin + n - 1]][begin + n - 1 := v[begin + i]];
      FirstSelection(state, begin, n, v, i);
      var w' := ShuffleDraws(s, begin, n - 1, u);
      ShuffledRearranges(s, begin, n - 1, u);
      LeftInRange(v, begin, n, i, u);
      assert w[begin..begin + n][..n - 1] == w[begin..begin + n - 1];
      DrawnStep(v[begin..begin + n], i, Selections(s, n - 1), w[begin..begin + n]);
    } else {
      ShuffledRearranges(state, begin, n, v);
    }
  }

  /** A shuffled range is the draw that the generator's numbers select, each modulo what is left. */
  lemma ShuffleIsDraw(state: nat, begin: nat, n: nat, v: seq<nat>)
    requires begin + n <= |v|
    ensures AreSelections(Selections(state, n), n) && |Shuffled(state, begin, n, v).0| == |v|
    ensures Shuffled(state, begin, n, v).0[begin..begin + n] == Drawn(v[begin..begin + n], Selections(state, n))
  {
    var w := ShuffleDraws(state, begin, n, v);
  }

  /** What is left after k draws. */
  function Left(r: seq<nat>, choices: seq<nat>, k: nat): (left: seq<nat>)
    requires AreSelections(choices, |r|) && k <= |choices|
    ensures |left| == |r| - k
    decreases k
  {
    if k == 0 then r else Left(Without(r, choices[0]), choices[1..], k - 1)
  }

  /** Counted from the last, place k holds the element that selection k points at among what was left then. */
  lemma {:induction false} DrawnAt(r: seq<nat>, choices: seq<nat>, k: nat)
    requires AreSelections(choices, |r|) && k < |choices|
    ensures Drawn(r, choices)[|r| - 1 - k] == Left(r, choices, k)[choices[k]]
    decreases k
  {
    if k > 0 { DrawnAt(Without(r, choices[0]), choices[1..], k - 1); }
  }

  /** The last place of a shuffled range holds the element at the first number modulo the width. */
  lemma LastIsFirstNumber(state: nat, begin: nat, n: nat, v: seq<nat>)
    requires begin + n <= |v| && n >= 2
    ensures |Shuffled(state, begin, n, v).0| == |v|
    ensures Shuffled(state, begin, n, v).0[begin + n - 1] == v[begin + NextState(state) % n]
  {
    ShuffleIsDraw(state, begin, n, v);
    var choices := Selections(state, n);
    DrawnAt(v[begin..begin + n], choices, 0);
    assert choices[0] == NextState(state) % n;
  }

  // ---- every rearrangement in exactly one way ----

  lemma WithoutIs(r: seq<nat>, i: nat)
    requires i < |r|
    ensures multiset(Without(r, i)) + multiset{r[i]} == multiset(r)
    ensures Distinct(r) ==> Distinct(Without(r, i))
  {
    var n := |r| - 1;
    assert r == r[..n] + [r[n]];
    if i < n { assert Without(r, i) == r[..n][i := r[n]]; } else { assert Without(r, i) == r[..n]; }
  }

  /** A draw is a rearrangement. */
  lemma {:induction false} DrawnRearranges(r: seq<nat>, choices: seq<nat>)
    requires AreSelections(choices, |r|)
    ensures multiset(Drawn(r, choices)) == multiset(r)
    decreases |r|
  {
    if |r| >= 2 {
      WithoutIs(r, choices[0]);
      DrawnRearranges(Without(r, choices[0]), choices[1..]);
    }
  }

  /** From distinct elements, different selections draw differently. */
  lemma {:induction false} DrawnOnce(r: seq<nat>, a: seq<nat>, b: seq<nat>)
    requires Distinct(r) && AreSelections(a, |r|) && AreSelections(b, |r|) && Drawn(r, a) == Drawn(r, b)
    ensures a == b
    decreases |r|
  {
    if |r| >= 2 {
      var n := |r| - 1;
      assert Drawn(r, a)[n] == r[a[0]] && Drawn(r, b)[n] == r[b[0]];
      assert a[0] == b[0];
      WithoutIs(r, a[0]);
      assert Drawn(r, a)[..n] == Drawn(Without(r, a[0]), a[1..]) && Drawn(r, b)[..n] == Drawn(Without(r, b[0]), b[1..]);
      DrawnOnce(Without(r, a[0]), a[1..], b[1..]);
      assert a == [a[0]] + a[1..] && b == [b[0]] + b[1..];
    }
  }

  lemma SameWithout(r: seq<nat>, w: seq<nat>, i: nat)
    requires multiset(w) == multiset(r) && |w| == |r| && i < |r| && r[i] == w[|w| - 1]
    ensures multiset(w[..|w| - 1]) == multiset(Without(r, i))
  {
    WithoutIs(r, i);
    assert w == w[..|w| - 1] + [w[|w| - 1]];
    assert multiset(w) == multiset(w[..|w| - 1]) + multiset{w[|w| - 1]};
    Cancel(multiset(w[..|w| - 1]), multiset(Without(r, i)), r[i]);
  }

  lemma Cancel(a: multiset<nat>, b: multiset<nat>, x: nat)
    requires a + multiset{x} == b + multiset{x}
    ensures a == b
  {
    forall y: nat ensures a[y] == b[y] { assert (a + multiset{x})[y] == (b + multiset{x})[y]; }
  }

  /** Every rearrangement is drawn. */
  lemma {:induction false} DrawsAll(r: seq<nat>, w: seq<nat>) returns (choices: seq<nat>)
    requires multiset(w) == multiset(r)
    ensures AreSelections(choices, |r|) && Drawn(r, choices) == w
    decreases |r|
  {
    SameLength(r, w);
    if |r| < 2 {
      choices := [];
      if |r| == 1 { assert w[0] in multiset(r); }
    } else {
      var n := |r| - 1;
      assert w == w[..n] + [w[n]];
      assert w[n] in multiset(r);
      var i :| 0 <= i < |r| && r[i] == w[n];
      SameWithout(r, w, i);
      var more := DrawsAll(Without(r, i), w[..n]);
      DrawnStep(r, i, more, w);
      choices := [i] + more;
    }
  }

  lemma SameLength(r: seq<nat>, w: seq<nat>)
    requires multiset(w) == multiset(r)
    ensures |w| == |r|
  {
    assert |multiset(w)| == |w| && |multiset(r)| == |r|;
  }

  /** Fisher and Yates: every rearrangement of distinct elements comes from exactly one sequence of selections. */
  lemma EachRearrangementOnce(r: seq<nat>, w: seq<nat>) returns (choices: seq<nat>)
    requires Distinct(r) && multiset(w) == multiset(r)
    ensures AreSelections(choices, |r|) && Drawn(r, choices) == w
    ensures forall other :: AreSelections(other, |r|) && Drawn(r, other) == w ==> other == choices
  {
    choices := DrawsAll(r, w);
    forall other | AreSelections(other, |r|) && Drawn(r, other) == w ensures other == choices {
      DrawnOnce(r, other, choices);
    }
  }

  /** Three elements, for two seeds. */
  lemma ShufflesOfThree()
    ensures Shuffled(1, 0, 3, [0, 1, 2]).0 == [2, 1, 0] && Shuffled(3, 0, 3, [0, 1, 2]).0 == [0, 2, 1]
  {
    assert NextState(1) == 1103527590 && NextState(1103527590) == 377401575;
    assert NextState(3) == 1163074432;
  }

  // ---- the generator ----

  lemma NextStateIs(state: nat) returns (q: int)
    ensures NextState(state) == 1103515245 * state + 12345 - q * MAX_RANGE
  {
    var n := 1103515245 * state + 12345;
    var high := n / 0x1_0000_0000;
    var low := n % 0x1_0000_0000;
    q := 2 * high + low / MAX_RANGE;
  }

  /** The generator never merges two states: different seeds go on differently for ever. */
  lemma NextStateInjective(a: nat, b: nat)
    requires a < MAX_RANGE && b < MAX_RANGE && NextState(a) == NextState(b)
    ensures a == b
  {
    var p := NextStateIs(a);
    var q := NextStateIs(b);
    var d := a - b;
    assert 1103515245 * d == (p - q) * MAX_RANGE;
    // 1857678181 is the inverse of the multiplier
    assert 1857678181 * 1103515245 == 954594553 * MAX_RANGE + 1;
    assert d == (1857678181 * (p - q) - 954594553 * d) * MAX_RANGE;
  }
}
