/** The sum and maximum reducers, and folds in loop order. */
module Reducers {
  import opened Sums

  /** `initv` of the maximum reducer stands for the lowest representable number. */
  datatype Reducer = SumRed | MaxRed(initv: real) {
    function InitV(): real {
      match this
      case SumRed => 0.0
      case MaxRed(v) => v
    }

    function Reduce(dst: real, src: real): real {
      match this
      case SumRed => dst + src
      case MaxRed(_) => if dst < src then src else dst
    }

    function PartialGrad(redres: real, redsrc: real): real {
      match this
      case SumRed => 1.0
      case MaxRed(_) => if redres == redsrc then 1.0 else 0.0
    }
  }

  /** The accumulator after reducing f over s, starting from acc. */
  function Fold<T>(red: Reducer, acc: real, s: seq<T>, f: T -> real): real {
    if |s| == 0 then acc else red.Reduce(Fold(red, acc, s[..|s| - 1], f), f(s[|s| - 1]))
  }

  lemma {:induction false} FoldExt<T>(red: Reducer, acc: real, s: seq<T>, f: T -> real, g: T -> real)
    requires forall t :: t in s ==> f(t) == g(t)
    ensures Fold(red, acc, s, f) == Fold(red, acc, s, g)
  {
    if |s| > 0 {
      FoldExt(red, acc, s[..|s| - 1], f, g);
    }
  }

  lemma FoldSnoc<T>(red: Reducer, acc: real, s: seq<T>, t: T, f: T -> real)
    ensures Fold(red, acc, s + [t], f) == red.Reduce(Fold(red, acc, s, f), f(t))
  {
    assert (s + [t])[..|s|] == s;
  }

  lemma {:induction false} FoldConcat<T>(red: Reducer, acc: real, a: seq<T>, b: seq<T>, f: T -> real)
    ensures Fold(red, acc, a + b, f) == Fold(red, Fold(red, acc, a, f), b, f)
  {
    if |b| == 0 {
      assert a + b == a;
    } else {
      FoldConcat(red, acc, a, b[..|b| - 1], f);
      assert (a + b)[..|a + b| - 1] == a + b[..|b| - 1];
    }
  }

  /** Folding with the sum reducer is summing. */
  lemma {:induction false} FoldIsSum<T>(acc: real, s: seq<T>, f: T -> real)
    ensures Fold(SumRed, acc, s, f) == acc + Sum(s, f)
  {
    if |s| > 0 {
      FoldIsSum(acc, s[..|s| - 1], f);
    }
  }

  /** Folding with the maximum reducer gives the least upper bound of the start value and the data. */
  lemma {:induction false} FoldIsMax<T>(red: Reducer, acc: real, s: seq<T>, f: T -> real)
    requires red.MaxRed?
    ensures var r := Fold(red, acc, s, f);
            acc <= r && (forall t :: t in s ==> f(t) <= r) && (r == acc || exists t :: t in s && f(t) == r)
  {
    if |s| > 0 {
      var p := s[..|s| - 1];
      FoldIsMax(red, acc, p, f);
      assert s[|s| - 1] in s;
      assert forall t :: t in s ==> t in p || t == s[|s| - 1];
    }
  }

  lemma FoldOne<T>(red: Reducer, acc: real, t: T, f: T -> real)
    ensures Fold(red, acc, [t], f) == red.Reduce(acc, f(t))
  {
    assert [t][..0] == [];
  }

  /** Reducing a partial fold into an accumulator that already includes the start value. */
  lemma {:induction false} FoldNested<T>(red: Reducer, acc: real, s: seq<T>, f: T -> real)
    requires red.MaxRed? ==> red.initv <= acc
    ensures red.Reduce(acc, Fold(red, red.InitV(), s, f)) == Fold(red, acc, s, f)
    ensures red.MaxRed? ==> red.initv <= Fold(red, acc, s, f)
  {
    if |s| > 0 {
      FoldNested(red, acc, s[..|s| - 1], f);
    }
  }

  /** Reducing the rest of s into its first element: the sum of s, or its greatest element. */
  lemma FoldFromFirst<T>(red: Reducer, s: seq<T>, f: T -> real)
    requires |s| > 0
    ensures red == SumRed ==> Fold(red, f(s[0]), s[1..], f) == Sum(s, f)
    ensures red.MaxRed? ==> (forall t :: t in s ==> f(t) <= Fold(red, f(s[0]), s[1..], f)) &&
                            exists t :: t in s && f(t) == Fold(red, f(s[0]), s[1..], f)
  {
    assert s == [s[0]] + s[1..];
    if red == SumRed {
      FoldIsSum(f(s[0]), s[1..], f);
      SumConcat([s[0]], s[1..], f);
      assert [s[0]][..0] == [];
    } else {
      FoldIsMax(red, f(s[0]), s[1..], f);
      assert forall t :: t in s <==> t == s[0] || t in s[1..];
    }
  }
}
