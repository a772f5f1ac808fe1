/** The test framework's random numbers and its in-place shuffle of part of a vector. */
module Shuffle {
  const MAX_RANGE: nat := 0x8000_0000

  /** The generator's next state, in 32-bit unsigned arithmetic. */
  function NextState(state: nat): (next: nat)
    ensures next < MAX_RANGE
  { ((1103515245 * state + 12345) % 0x1_0000_0000) % MAX_RANGE }

  class Random {
    var state: nat

    constructor (seed: nat)
      ensures state == seed
    { state := seed; }

    method Reseed(seed: nat)
      modifies this
      ensures state == seed
    { state := seed; }

    /** A number below range. */
    method Generate(range: nat) returns (r: nat)
      requires 0 < range <= MAX_RANGE
      modifies this
      ensures state == NextState(old(state)) && r == state % range
    {
      state := (1103515245 * state + 12345) % 0x1_0000_0000 % MAX_RANGE;
      r := state % range;
    }
  }

  function Swap(v: seq<nat>, i: nat, j: nat): seq<nat>
    requires i < |v| && j < |v|
  { v[i := v[j]][j := v[i]] }

  /** The place of the element that the next number of the generator selects. */
  function Selected(state: nat, begin: nat, width: nat): (i: nat)
    requires width > 0
    ensures begin <= i < begin + width
  { begin + NextState(state) % width }

  /** The vector and the generator's state after a shuffle of width elements from begin on. */
  function Shuffled(state: nat, begin: nat, width: nat, v: seq<nat>): (seq<nat>, nat)
    requires begin + width <= |v|
    decreases width
  {
    if width < 2 then (v, state)
    else
      Shuffled(NextState(state), begin, width - 1, Swap(v, Selected(state, begin, width), begin + width - 1))
  }

  method ShuffleRange(random: Random, begin: nat, end: nat, v: seq<nat>) returns (w: seq<nat>)
    requires begin <= end <= |v| <= MAX_RANGE
    modifies random
    ensures (w, random.state) == Shuffled(old(random.state), begin, end - begin, v)
  {
    w := v;
    var range_width := end - begin;
    while range_width >= 2
      invariant 0 <= range_width <= end - begin && |w| == |v|
      invariant Shuffled(random.state, begin, range_width, w) == Shuffled(old(random.state), begin, end - begin, v)
      decreases range_width
    {
      var last_in_range := begin + range_width - 1;
      var selected := random.Generate(range_width);
      selected := begin + selected;
      w := w[selected := w[last_in_range]][last_in_range := w[selected]];
      range_width := range_width - 1;
    }
  }

  // ---- permutations ----

  predicate Distinct(v: seq<nat>) { forall i, j :: 0 <= i < j < |v| ==> v[i] != v[j] }

  /** v lists the numbers below n, each once. */
  predicate IsPermutation(v: seq<nat>, n: nat) {
    |v| == n && Distinct(v) && forall i :: 0 <= i < n ==> v[i] < n
  }

  function Identity(n: nat): (v: seq<nat>)
    ensures IsPermutation(v, n) && forall i :: 0 <= i < n ==> v[i] == i
  { seq(n, i => i) }

  lemma OneMorePlace(v: seq<nat>, n: nat)
    requires IsPermutation(v, n)
    ensures IsPermutation(v + [n], n + 1)
  {}

  /** w agrees with v outside the range and holds the range's elements of v inside it. */
  ghost predicate Rearranged(v: seq<nat>, w: seq<nat>, begin: nat, end: nat)
    requires begin <= end <= |v|
  {
    && |w| == |v|
    && (forall i :: 0 <= i < |v| && !(begin <= i < end) ==> w[i] == v[i])
    && multiset(w[begin..end]) == multiset(v[begin..end])
    && (Distinct(v) ==> Distinct(w))
  }

  lemma SwapMultiset(r: seq<nat>, i: nat, j: nat)
    requires i < |r| && j < |r|
    ensures multiset(Swap(r, i, j)) == multiset(r)
  {}

  lemma SwapDistinct(v: seq<nat>, i: nat, j: nat)
    requires i < |v| && j < |v| && Distinct(v)
    ensures Distinct(Swap(v, i, j))
  {}

  lemma SwapInside(v: seq<nat>, i: nat, j: nat, begin: nat, end: nat)
    requires begin <= i < end <= |v| && begin <= j < end
    ensures multiset(Swap(v, i, j)[begin..end]) == multiset(v[begin..end])
  {
    assert Swap(v, i, j)[begin..end] == Swap(v[begin..end], i - begin, j - begin);
    SwapMultiset(v[begin..end], i - begin, j - begin);
  }

  lemma SwapRearranges(v: seq<nat>, i: nat, j: nat, begin: nat, end: nat)
    requires begin <= i < end <= |v| && begin <= j < end
    ensures Rearranged(v, Swap(v, i, j), begin, end)
  {
    SwapInside(v, i, j, begin, end);
    if Distinct(v) { SwapDistinct(v, i, j); }
  }

  lemma RearrangedTwice(u: seq<nat>, v: seq<nat>, w: seq<nat>, begin: nat, end: nat)
    requires begin <= end <= |u| && Rearranged(u, v, begin, end) && Rearranged(v, w, begin, end)
    ensures Rearranged(u, w, begin, end)
  {}

  lemma SwapThen(v: seq<nat>, u: seq<nat>, w: seq<nat>, i: nat, j: nat, begin: nat, end: nat)
    requires begin <= i < end <= |v| && begin <= j < end && u == Swap(v, i, j) && Rearranged(u, w, begin, end)
    ensures Rearranged(v, w, begin, end)
  {
    SwapRearranges(v, i, j, begin, end);
    RearrangedTwice(v, u, w, begin, end);
  }

  predicate IsShuffle(state: nat, begin: nat, width: nat, v: seq<nat>, w: seq<nat>) {
    begin + width <= |v| && w == Shuffled(state, begin, width, v).0
  }

  lemma ShuffleFrom(state: nat, begin: nat, width: nat, v: seq<nat>, i: nat, u: seq<nat>, w: seq<nat>)
    requires begin + width <= |v| && width >= 2 && i == Selected(state, begin, width)
    requires u == Swap(v, i, begin + width - 1) && IsShuffle(NextState(state), begin, width - 1, u, w)
    ensures IsShuffle(state, begin, width, v, w)
  {}

  /** Every swap of a shuffle stays in the range. */
  lemma {:induction false} ShuffledTo(state: nat, begin: nat, width: nat, v: seq<nat>, end: nat) returns (w: seq<nat>)
    requires begin + width <= end <= |v|
    ensures IsShuffle(state, begin, width, v, w) && Rearranged(v, w, begin, end)
    decreases width
  {
    if width < 2 {
      w := v;
    } else {
      var i, j := Selected(state, begin, width), begin + width - 1;
      var u := Swap(v, i, j);
      w := ShuffledTo(NextState(state), begin, width - 1, u, end);
      SwapThen(v, u, w, i, j, begin, end);
      ShuffleFrom(state, begin, width, v, i, u, w);
    }
  }

  /** A shuffle of the range rearranges it and touches nothing else. */
  lemma ShuffledRearranges(state: nat, begin: nat, width: nat, v: seq<nat>)
    requires begin + width <= |v|
    ensures Rearranged(v, Shuffled(state, begin, width, v).0, begin, begin + width)
  {
    var w := ShuffledTo(state, begin, width, v, begin + width);
  }

  /** In a permutation of the numbers below n, every one of them has its place. */
  lemma {:induction false} PermutationCovers(v: seq<nat>, n: nat, k: nat) returns (i: nat)
    requires IsPermutation(v, n) && k < n
    ensures i < n && v[i] == k
    decreases n
  {
    if v[n - 1] == k { return n - 1; }
    if j :| 0 <= j < n - 1 && v[j] == n - 1 {
      if k == n - 1 { return j; }
      // the last entry takes the place of n - 1, and the search goes on among the first n - 1 places
      i := PermutationCovers(v[..n - 1][j := v[n - 1]], n - 1, k);
    } else if v[n - 1] == n - 1 {
      i := PermutationCovers(v[..n - 1], n - 1, k);
    } else {
      NoRoom(v, n);
    }
  }

  /** n distinct numbers do not fit below n - 1. */
  lemma {:induction false} NoRoom(v: seq<nat>, n: nat)
    requires |v| == n > 0 && Distinct(v) && forall i :: 0 <= i < n ==> v[i] < n - 1
    ensures false
    decreases n
  {
    if n >= 2 {
      if j :| 0 <= j < n - 1 && v[j] == n - 2 {
        NoRoom(v[..n - 1][j := v[n - 1]], n - 1);
      } else {
        NoRoom(v[..n - 1], n - 1);
      }
    }
  }

  /** From a multiset to a place. */
  lemma PlaceOf(s: seq<nat>, t: seq<nat>, i: nat) returns (j: nat)
    requires multiset(s) == multiset(t) && i < |s|
    ensures j < |t| && t[j] == s[i]
  {
    assert s[i] in multiset(s);
    assert s[i] in t;
    j :| 0 <= j < |t| && t[j] == s[i];
  }
}
