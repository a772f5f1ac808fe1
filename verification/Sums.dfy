/** Finite sums over duplicate-free sequences, and the double-counting law every adjoint pair rests on. */
module Sums {

  ghost predicate NoDup<T>(s: seq<T>) {
    forall i, j :: 0 <= i < j < |s| ==> s[i] != s[j]
  }

  lemma NoDupConcat<T>(a: seq<T>, b: seq<T>)
    requires NoDup(a) && NoDup(b) && forall t :: t in a ==> t !in b
    ensures NoDup(a + b)
    ensures forall t :: t in a + b <==> t in a || t in b
  {
    assert forall i :: 0 <= i < |a| ==> a[i] in a;
    assert forall i :: 0 <= i < |b| ==> b[i] in b;
  }

  /** Sum of f over s, in the order a loop over s accumulates it. */
  function Sum<T>(s: seq<T>, f: T -> real): real {
    if |s| == 0 then 0.0 else Sum(s[..|s| - 1], f) + f(s[|s| - 1])
  }

  function Map<S, T>(s: seq<S>, f: S -> T): (r: seq<T>)
    ensures |r| == |s|
    ensures forall i :: 0 <= i < |s| ==> r[i] == f(s[i])
  {
    seq(|s|, i requires 0 <= i < |s| => f(s[i]))
  }

  lemma {:induction false} SumExt<T>(s: seq<T>, f: T -> real, g: T -> real)
    requires forall t :: t in s ==> f(t) == g(t)
    ensures Sum(s, f) == Sum(s, g)
  {
    if |s| == 0 {
    } else {
      SumExt(s[..|s| - 1], f, g);
    }
  }

  lemma SumSnoc<T>(s: seq<T>, t: T, f: T -> real)
    ensures Sum(s + [t], f) == Sum(s, f) + f(t)
  {
    assert (s + [t])[..|s|] == s;
  }

  lemma {:induction false} SumConcat<T>(a: seq<T>, b: seq<T>, f: T -> real)
    ensures Sum(a + b, f) == Sum(a, f) + Sum(b, f)
  {
    if |b| == 0 {
      assert a + b == a;
    } else {
      SumConcat(a, b[..|b| - 1], f);
      assert (a + b)[..|a + b| - 1] == a + b[..|b| - 1];
    }
  }

  lemma {:induction false} SumAdd<T>(s: seq<T>, f: T -> real, g: T -> real, h: T -> real)
    requires forall t :: t in s ==> h(t) == f(t) + g(t)
    ensures Sum(s, h) == Sum(s, f) + Sum(s, g)
  {
    if |s| == 0 {
    } else {
      SumAdd(s[..|s| - 1], f, g, h);
    }
  }

  lemma {:induction false} SumScaleLeft<T>(s: seq<T>, c: real, f: T -> real, g: T -> real)
    requires forall t :: t in s ==> g(t) == Mul(c, f(t))
    ensures Sum(s, g) == Mul(c, Sum(s, f))
  {
    if |s| > 0 {
      var p, t := s[..|s| - 1], s[|s| - 1];
      SumScaleLeft(p, c, f, g);
      DistribLeft(c, Sum(p, f), f(t));
    }
  }

  lemma {:induction false} SumScaleRight<T>(s: seq<T>, c: real, f: T -> real, g: T -> real)
    requires forall t :: t in s ==> g(t) == Mul(f(t), c)
    ensures Sum(s, g) == Mul(Sum(s, f), c)
  {
    if |s| > 0 {
      var p, t := s[..|s| - 1], s[|s| - 1];
      SumScaleRight(p, c, f, g);
      DistribRight(Sum(p, f), f(t), c);
    }
  }

  lemma DistribLeft(c: real, x: real, y: real)
    ensures c * (x + y) == c * x + c * y
  {
  }

  lemma DistribRight(x: real, y: real, c: real)
    ensures (x + y) * c == x * c + y * c
  {
  }

  lemma {:induction false} SumZero<T>(s: seq<T>, f: T -> real)
    requires forall t :: t in s ==> f(t) == 0.0
    ensures Sum(s, f) == 0.0
  {
    if |s| == 0 {
    } else {
      SumZero(s[..|s| - 1], f);
    }
  }

  lemma {:induction false} SumSwap<S, T>(us: seq<S>, vs: seq<T>, k: (S, T) -> real)
    ensures Sum(us, u => Sum(vs, v => k(u, v))) == Sum(vs, v => Sum(us, u => k(u, v)))
  {
    if |us| == 0 {
      SumZero(vs, v => Sum(us, u => k(u, v)));
    } else {
      var p, last := us[..|us| - 1], us[|us| - 1];
      SumSwap(p, vs, k);
      SumAdd(vs, v => Sum(p, u => k(u, v)), v => k(last, v), v => Sum(us, u => k(u, v)));
    }
  }

  /** Changing a summand at one point of a duplicate-free sequence changes the sum by that much. */
  lemma {:induction false} SumPoint<T>(s: seq<T>, a: T, f: T -> real, g: T -> real)
    requires NoDup(s) && a in s
    requires forall t :: t in s && t != a ==> f(t) == g(t)
    ensures Sum(s, g) == Sum(s, f) + g(a) - f(a)
  {
    var p, last := s[..|s| - 1], s[|s| - 1];
    if last == a {
      forall t | t in p ensures f(t) == g(t) {
        assert t != a;
      }
      SumExt(p, f, g);
    } else {
      assert a in p;
      SumPoint(p, a, f, g);
    }
  }

  /** Summing over a duplicate-free sub-collection is summing over the whole with an indicator. */
  lemma {:induction false} SumEmbed<T>(l: seq<T>, whole: seq<T>, f: T -> real)
    requires NoDup(l) && NoDup(whole)
    requires forall t :: t in l ==> t in whole
    ensures Sum(l, f) == Sum(whole, t => if t in l then f(t) else 0.0)
  {
    if |l| == 0 {
      SumZero(whole, t => if t in l then f(t) else 0.0);
    } else {
      var p, a := l[..|l| - 1], l[|l| - 1];
      SumEmbed(p, whole, f);
      assert a !in p;
      SumPoint(whole, a, t => if t in p then f(t) else 0.0, t => if t in l then f(t) else 0.0);
    }
  }

  /**
    Double counting: `win` lists for each u the v's it touches, `cov` lists for each v the u's
    touching it, and the two describe the same relation, each pair once.
   */
  ghost predicate Dual<S, T>(us: seq<S>, vs: seq<T>, win: S -> seq<T>, cov: T -> seq<S>) {
    && NoDup(us) && NoDup(vs)
    && (forall u :: u in us ==> NoDup(win(u)) && forall v :: v in win(u) ==> v in vs)
    && (forall v :: v in vs ==> NoDup(cov(v)) && forall u :: u in cov(v) ==> u in us)
    && (forall u, v :: u in us && v in vs ==> (v in win(u) <==> u in cov(v)))
  }

  /** hw(u)(v) and hc(v)(u) weigh the same pair; counting pairs by u or by v gives the same total. */
  lemma DoubleCount<S, T>(us: seq<S>, vs: seq<T>, win: S -> seq<T>, cov: T -> seq<S>,
                                             hw: S -> (T -> real), hc: T -> (S -> real), p: S -> real, q: T -> real)
    requires Dual(us, vs, win, cov)
    requires forall u, v :: u in us && v in vs ==> hw(u)(v) == hc(v)(u)
    requires forall u :: u in us ==> p(u) == Sum(win(u), hw(u))
    requires forall v :: v in vs ==> q(v) == Sum(cov(v), hc(v))
    ensures Sum(us, p) == Sum(vs, q)
  {
    var k := (u, v) => if v in win(u) then hw(u)(v) else 0.0;
    forall u | u in us ensures p(u) == Sum(vs, v => k(u, v)) {
      SumEmbed(win(u), vs, hw(u));
      SumExt(vs, v => if v in win(u) then hw(u)(v) else 0.0, v => k(u, v));
    }
    SumExt(us, p, u => Sum(vs, v => k(u, v)));
    SumSwap(us, vs, k);
    forall v | v in vs ensures q(v) == Sum(us, u => k(u, v)) {
      SumEmbed(cov(v), us, hc(v));
      SumExt(us, u => if u in cov(v) then hc(v)(u) else 0.0, u => k(u, v));
    }
    SumExt(vs, v => Sum(us, u => k(u, v)), q);
  }

  /** A product as a named term. */
  function Mul(x: real, y: real): real {
    x * y
  }

  /** The operators that read through `win` and through `cov` are adjoint to each other. */
  lemma AdjointOfDual<S, T>(us: seq<S>, vs: seq<T>, win: S -> seq<T>, cov: T -> seq<S>,
                                               a: T -> real, b: S -> real, p: S -> real, q: T -> real)
    requires Dual(us, vs, win, cov)
    requires forall u :: u in us ==> p(u) == Mul(Sum(win(u), a), b(u))
    requires forall v :: v in vs ==> q(v) == Mul(a(v), Sum(cov(v), b))
    ensures Sum(us, p) == Sum(vs, q)
  {
    var hw, hc := (u: S) => (v: T) => Mul(a(v), b(u)), (v: T) => (u: S) => Mul(a(v), b(u));
    forall u | u in us ensures p(u) == Sum(win(u), hw(u)) {
      SumScaleRight(win(u), b(u), a, hw(u));
    }
    forall v | v in vs ensures q(v) == Sum(cov(v), hc(v)) {
      SumScaleLeft(cov(v), a(v), b, hc(v));
    }
    DoubleCount(us, vs, win, cov, hw, hc, p, q);
  }

  /** How many elements of s satisfy p. */
  function Count<T>(s: seq<T>, p: T -> bool): nat {
    if |s| == 0 then 0 else Count(s[..|s| - 1], p) + if p(s[|s| - 1]) then 1 else 0
  }

  lemma {:induction false} CountScale<T>(s: seq<T>, p: T -> bool, c: real, f: T -> real)
    requires forall t :: t in s ==> f(t) == Mul(if p(t) then 1.0 else 0.0, c)
    ensures Sum(s, f) == Mul(Count(s, p) as real, c)
  {
    if |s| > 0 {
      CountScale(s[..|s| - 1], p, c, f);
      DistribRight(Count(s[..|s| - 1], p) as real, if p(s[|s| - 1]) then 1.0 else 0.0, c);
    }
  }

  lemma {:induction false} CountPositive<T>(s: seq<T>, p: T -> bool)
    ensures Count(s, p) >= 1 <==> exists t :: t in s && p(t)
  {
    if |s| > 0 {
      CountPositive(s[..|s| - 1], p);
      assert s[|s| - 1] in s;
      assert forall t :: t in s <==> t in s[..|s| - 1] || t == s[|s| - 1];
    }
  }
}
