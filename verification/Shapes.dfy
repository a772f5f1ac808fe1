/** Shapes, strided tensors, and the row-major order of multi-indices. */
module Shapes {
  import opened Arith

  /** Product of dims[lo..hi), multiplied in the order of the loops that compute it. */
  function Prod(dims: seq<nat>, lo: nat, hi: nat): nat
    requires hi <= |dims|
  {
    if lo >= hi then 1 else Prod(dims, lo, hi - 1) * dims[hi - 1]
  }

  /** dims[0] is the lowest (fastest) dimension; stride is the distance between consecutive rows. */
  datatype Shape = Shape(dims: seq<nat>, stride: nat) {
    predicate Valid() { |dims| >= 1 }

    method ProdShape(dimstart: nat, dimend: nat) returns (num: nat)
      requires dimend <= |dims|
      ensures num == Prod(dims, dimstart, dimend)
    {
      num := 1;
      var i := dimstart;
      while i < dimend
        invariant dimstart <= i
        invariant if dimstart <= dimend then i <= dimend && num == Prod(dims, dimstart, i) else num == 1
      {
        num := num * dims[i];
        i := i + 1;
      }
    }

    method Size() returns (memsz: nat)
      requires Valid()
      ensures memsz == Prod(dims, 0, |dims|)
    {
      memsz := dims[0];
      for i := 1 to |dims|
        invariant memsz == Prod(dims, 0, i)
      {
        memsz := memsz * dims[i];
      }
    }

    method MSize() returns (memsz: nat)
      requires Valid()
      ensures memsz == stride * Prod(dims, 1, |dims|)
    {
      memsz := stride;
      for i := 1 to |dims|
        invariant memsz == stride * Prod(dims, 1, i)
      {
        memsz := memsz * dims[i];
      }
    }

    method FlatTo2D() returns (s: Shape)
      requires Valid()
      ensures s == Flat()
    {
      var ymax := 1;
      for i := 1 to |dims|
        invariant ymax == Prod(dims, 1, i)
      {
        ymax := ymax * dims[i];
      }
      s := Shape([dims[0], ymax], stride);
    }

    function Flat(): Shape
      requires Valid()
    {
      Shape([dims[0], Prod(dims, 1, |dims|)], stride)
    }

    function Width(): nat
      requires Valid()
    {
      dims[0]
    }

    function Rows(): nat
      requires Valid()
    {
      Prod(dims, 1, |dims|)
    }

    function SubShape(): Shape
      requires |dims| > 1
    {
      Shape(dims[..|dims| - 1], stride)
    }
  }

  /** A handle on strided memory: element (y, x) of the flattened view lives at dptr + y * stride + x. */
  datatype Tensor = Tensor(dptr: nat, shape: Shape) {
    function Addr(y: int, x: int): int { dptr + y * shape.stride + x }

    /** t[idx]: one dimension less, idx sub-blocks further on. */
    function Sub(idx: nat): Tensor
      requires |shape.dims| > 1
    {
      var s := shape.SubShape();
      Tensor(dptr + s.stride * Prod(s.dims, 1, |s.dims|) * idx, s)
    }
  }

  /** idx is a multi-index within dims. */
  ghost predicate InDims(dims: seq<nat>, idx: seq<nat>) {
    |idx| == |dims| && forall k :: 0 <= k < |dims| ==> idx[k] < dims[k]
  }

  /** Row-major position of idx within dimensions lo..hi. */
  function Position(dims: seq<nat>, idx: seq<nat>, lo: nat, hi: nat): nat
    requires |idx| == |dims| && hi <= |dims|
    decreases hi - lo
  {
    if lo >= hi then 0 else Position(dims, idx, lo + 1, hi) * dims[lo] + idx[lo]
  }

  lemma {:induction false} ProdSplit(dims: seq<nat>, lo: nat, mid: nat, hi: nat)
    requires lo <= mid <= hi <= |dims|
    ensures Prod(dims, lo, hi) == Prod(dims, mid, hi) * Prod(dims, lo, mid)
    decreases hi
  {
    if mid < hi {
      ProdSplit(dims, lo, mid, hi - 1);
      MulRotate(Prod(dims, mid, hi - 1), Prod(dims, lo, mid), dims[hi - 1]);
    }
  }

  lemma {:induction false} ProdPrefix(dims: seq<nat>, lo: nat, hi: nat, n: nat)
    requires hi <= n <= |dims|
    ensures Prod(dims[..n], lo, hi) == Prod(dims, lo, hi)
    decreases hi
  {
    if lo < hi { ProdPrefix(dims, lo, hi - 1, n); }
  }

  lemma ProdHead(dims: seq<nat>, lo: nat, hi: nat)
    requires lo < hi <= |dims|
    ensures Prod(dims, lo, hi) == Prod(dims, lo + 1, hi) * dims[lo]
  {
    ProdSplit(dims, lo, lo + 1, hi);
    assert Prod(dims, lo, lo) == 1;
  }

  /** A position in dimensions lo..hi is below their product. */
  lemma {:induction false} PositionBound(dims: seq<nat>, idx: seq<nat>, lo: nat, hi: nat)
    requires InDims(dims, idx) && lo <= hi <= |dims|
    ensures Position(dims, idx, lo, hi) < Prod(dims, lo, hi)
    decreases hi - lo
  {
    if lo < hi {
      PositionBound(dims, idx, lo + 1, hi);
      ProdHead(dims, lo, hi);
      DigitsBound(Position(dims, idx, lo + 1, hi), idx[lo], Prod(dims, lo + 1, hi), dims[lo]);
    }
  }

  /** The position splits at any dimension into a high and a low digit. */
  lemma {:induction false} PositionSplit(dims: seq<nat>, idx: seq<nat>, lo: nat, mid: nat, hi: nat)
    requires |idx| == |dims| && lo <= mid <= hi <= |dims|
    ensures Position(dims, idx, lo, hi) ==
            Position(dims, idx, mid, hi) * Prod(dims, lo, mid) + Position(dims, idx, lo, mid)
    decreases mid - lo
  {
    if lo < mid {
      PositionSplit(dims, idx, lo + 1, mid, hi);
      ProdHead(dims, lo, mid);
      var p, q := Position(dims, idx, mid, hi), Prod(dims, lo + 1, mid);
      MulDistrib(p * q, Position(dims, idx, lo + 1, mid), dims[lo]);
      MulAssoc(p, q, dims[lo]);
    }
  }

  /** The position seen from dimension a: the part above it, the digit at a, the part below. */
  lemma PositionAround(dims: seq<nat>, idx: seq<nat>, lo: nat, a: nat, hi: nat)
    requires InDims(dims, idx) && lo <= a < hi <= |dims|
    ensures Position(dims, idx, lo, hi)
         == Join(Join(Position(dims, idx, a + 1, hi), dims[a], idx[a]), Prod(dims, lo, a), Position(dims, idx, lo, a))
    ensures Position(dims, idx, lo, a) < Prod(dims, lo, a)
  {
    PositionSplit(dims, idx, lo, a, hi);
    PositionBound(dims, idx, lo, a);
  }

  /** Every row number is the position of a multi-index. */
  lemma {:induction false} PositionOnto(dims: seq<nat>, lo: nat, hi: nat, r: nat) returns (idx: seq<nat>)
    requires lo <= hi <= |dims| && r < Prod(dims, lo, hi)
    ensures |idx| == |dims| && (forall k :: lo <= k < hi ==> idx[k] < dims[k]) && Position(dims, idx, lo, hi) == r
    decreases hi - lo
  {
    if lo == hi {
      idx := seq(|dims|, _ => 0);
    } else {
      ProdHead(dims, lo, hi);
      SplitBound(r, Prod(dims, lo + 1, hi), dims[lo]);
      var rest := PositionOnto(dims, lo + 1, hi, Quot(r, dims[lo]));
      idx := rest[lo := Rem(r, dims[lo])];
      PositionAgrees(dims, dims, rest, idx, lo + 1, hi);
    }
  }

  /** Every cell of the flattened view is a multi-index. */
  lemma CellIndex(dims: seq<nat>, y: nat, x: nat) returns (idx: seq<nat>)
    requires |dims| >= 1 && y < Prod(dims, 1, |dims|) && x < dims[0]
    ensures InDims(dims, idx) && idx[0] == x && Position(dims, idx, 1, |dims|) == y
  {
    var rest := PositionOnto(dims, 1, |dims|, y);
    idx := rest[0 := x];
    PositionAgrees(dims, dims, rest, idx, 1, |dims|);
  }

  lemma {:induction false} PositionAgrees(d1: seq<nat>, d2: seq<nat>, i1: seq<nat>, i2: seq<nat>, lo: nat, hi: nat)
    requires |d1| == |d2| == |i1| == |i2| && hi <= |d1|
    requires forall k :: lo <= k < hi ==> d1[k] == d2[k] && i1[k] == i2[k]
    ensures Position(d1, i1, lo, hi) == Position(d2, i2, lo, hi)
    decreases hi - lo
  {
    if lo < hi { PositionAgrees(d1, d2, i1, i2, lo + 1, hi); }
  }

  lemma {:induction false} ProdAgrees(d1: seq<nat>, d2: seq<nat>, lo: nat, hi: nat)
    requires hi <= |d1| && hi <= |d2| && forall k :: lo <= k < hi ==> d1[k] == d2[k]
    ensures Prod(d1, lo, hi) == Prod(d2, lo, hi)
    decreases hi
  {
    if lo < hi { ProdAgrees(d1, d2, lo, hi - 1); }
  }

  /** Address reached by subscripting t with idx from the highest dimension down. */
  function Subscript(t: Tensor, idx: seq<nat>): int
    requires |idx| == |t.shape.dims| >= 1
    decreases |idx|
  {
    if |idx| == 1 then t.dptr + idx[0]
    else Subscript(t.Sub(idx[|idx| - 1]), idx[..|idx| - 1])
  }

  /** Repeated subscripting lands on the flattened row-major cell, for tensors of any dimension. */
  lemma {:induction false} SubscriptIsFlat(t: Tensor, idx: seq<nat>)
    requires |idx| == |t.shape.dims| >= 1
    ensures Subscript(t, idx) == t.Addr(Position(t.shape.dims, idx, 1, |idx|), idx[0])
    decreases |idx|
  {
    var n, dims := |idx|, t.shape.dims;
    if n > 1 {
      var s, rest := t.Sub(idx[n - 1]), idx[..n - 1];
      SubscriptIsFlat(s, rest);
      var p := Prod(dims, 1, n - 1);
      ProdPrefix(dims, 1, n - 1, n - 1);
      PositionPrefix(dims, idx, 1, n - 1);
      PositionSplit(dims, idx, 1, n - 1, n);
      var low, st, top := Position(dims, idx, 1, n - 1), t.shape.stride, idx[n - 1];
      assert Position(dims, idx, n - 1, n) == top;
      SubAddress(st, p, top, low);
    }
  }

  lemma SubAddress(stride: int, p: int, top: int, low: int)
    ensures stride * p * top + low * stride == (top * p + low) * stride
  {
    MulDistrib(top * p, low, stride);
    MulRotate(stride, p, top);
    MulAssoc(stride, top, p);
  }

  lemma {:induction false} PositionPrefix(dims: seq<nat>, idx: seq<nat>, lo: nat, n: nat)
    requires |idx| == |dims| && n <= |dims|
    ensures Position(dims[..n], idx[..n], lo, n) == Position(dims, idx, lo, n)
    decreases n - lo
  {
    if lo < n { PositionPrefix(dims, idx, lo + 1, n); }
  }

  /** With stride at least the width, distinct cells have distinct addresses. */
  lemma AddrInjective(t: Tensor, y: nat, x: nat, y': nat, x': nat)
    requires t.shape.Valid() && t.shape.Width() <= t.shape.stride
    requires x < t.shape.Width() && x' < t.shape.Width()
    requires t.Addr(y, x) == t.Addr(y', x')
    ensures y == y' && x == x'
  {
    Digits(y, x, t.shape.stride);
    Digits(y', x', t.shape.stride);
  }

  /** Distinct multi-indices have distinct addresses. */
  lemma SubscriptInjective(t: Tensor, a: seq<nat>, b: seq<nat>)
    requires t.shape.Valid() && t.shape.Width() <= t.shape.stride
    requires InDims(t.shape.dims, a) && InDims(t.shape.dims, b)
    requires Subscript(t, a) == Subscript(t, b)
    ensures a == b
  {
    var n, dims := |a|, t.shape.dims;
    SubscriptIsFlat(t, a);
    SubscriptIsFlat(t, b);
    AddrInjective(t, Position(dims, a, 1, n), a[0], Position(dims, b, 1, n), b[0]);
    PositionInjective(dims, a, b, 1, n);
  }

  lemma {:induction false} PositionInjective(dims: seq<nat>, a: seq<nat>, b: seq<nat>, lo: nat, hi: nat)
    requires InDims(dims, a) && InDims(dims, b) && hi <= |dims|
    requires Position(dims, a, lo, hi) == Position(dims, b, lo, hi)
    ensures forall k :: lo <= k < hi ==> a[k] == b[k]
    decreases hi - lo
  {
    if lo < hi {
      Digits(Position(dims, a, lo + 1, hi), a[lo], dims[lo]);
      Digits(Position(dims, b, lo + 1, hi), b[lo], dims[lo]);
      PositionInjective(dims, a, b, lo + 1, hi);
    }
  }
}
