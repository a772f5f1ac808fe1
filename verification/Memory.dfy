/** Flat memory, the views tensors have of it, and what a pair of loops over a view has written so far. */
module Memory {
  import opened Grid
  import opened Shapes

  function At(m: seq<real>, a: int): real { if 0 <= a < |m| then m[a] else 0.0 }

  /** (r, c) is an element of the flattened view of t. */
  predicate InStorage(t: Tensor, r: int, c: int) {
    t.shape.Valid() && InTable(Cell(r, c), t.shape.Rows(), t.shape.Width())
  }

  /** Every element of t is inside a memory of n cells. */
  ghost predicate Fits(t: Tensor, n: int) {
    forall y, x :: InStorage(t, y, x) ==> 0 <= t.Addr(y, x) < n
  }

  /** No element of a shares its address with an element of b. */
  ghost predicate Disjoint(a: Tensor, b: Tensor) {
    forall r, c, y, x :: InStorage(a, r, c) && InStorage(b, y, x) ==> a.Addr(r, c) != b.Addr(y, x)
  }

  /** The identical view: same elements at the same addresses. */
  predicate SameView(a: Tensor, b: Tensor) {
    a.dptr == b.dptr && a.shape.dims == b.shape.dims && (a.shape.stride == b.shape.stride || |a.shape.dims| == 1)
  }

  /** t is a view of which every element has an address of its own. */
  predicate Injective(t: Tensor) {
    t.shape.Valid() && t.shape.Width() <= t.shape.stride
  }

  lemma InjectiveAddr(t: Tensor, r: int, c: int, y: int, x: int)
    requires Injective(t) && InStorage(t, r, c) && InStorage(t, y, x) && t.Addr(r, c) == t.Addr(y, x)
    ensures r == y && c == x
  {
    AddrInjective(t, r, c, y, x);
  }

  /** a is not the address of an element of t: it is outside t, or in the padding at the end of a row. */
  ghost predicate Outside(t: Tensor, a: int) {
    forall r, c :: InStorage(t, r, c) ==> t.Addr(r, c) != a
  }

  /** (r, c) comes before (y, x) in the order of the loops. */
  predicate Before(r: int, c: int, y: int, x: int) {
    r < y || (r == y && c < x)
  }

  /**
    Memory m, reached from m0 by loops over dst that are now at (y, x): elements before it hold newv;
    everything else, padding included, is as it was.
   */
  ghost predicate Progress(m0: seq<real>, m: seq<real>, dst: Tensor, newv: Cell -> real, y: int, x: int) {
    && |m| == |m0|
    && (forall r, c :: InStorage(dst, r, c) ==>
          At(m, dst.Addr(r, c)) == if Before(r, c, y, x) then newv(Cell(r, c)) else At(m0, dst.Addr(r, c)))
    && (forall a :: Outside(dst, a) ==> At(m, a) == At(m0, a))
  }

  /** Every element of dst holds newv, and nothing else changed. */
  ghost predicate Stored(m0: seq<real>, m: seq<real>, dst: Tensor, newv: Cell -> real) {
    && |m| == |m0|
    && (forall r, c :: InStorage(dst, r, c) ==> At(m, dst.Addr(r, c)) == newv(Cell(r, c)))
    && (forall a :: Outside(dst, a) ==> At(m, a) == At(m0, a))
  }

  lemma ProgressStep(m0: seq<real>, m: seq<real>, m': seq<real>, dst: Tensor, newv: Cell -> real, y: int, x: int,
                     a: int, v: real)
    requires Progress(m0, m, dst, newv, y, x) && Injective(dst) && InStorage(dst, y, x)
    requires a == dst.Addr(y, x) && v == newv(Cell(y, x)) && 0 <= a < |m| && m' == m[a := v]
    ensures Progress(m0, m', dst, newv, y, x + 1)
  {
    forall r, c | InStorage(dst, r, c)
      ensures At(m', dst.Addr(r, c)) == if Before(r, c, y, x + 1) then newv(Cell(r, c)) else At(m0, dst.Addr(r, c))
    {
      if dst.Addr(r, c) == dst.Addr(y, x) { InjectiveAddr(dst, r, c, y, x); }
    }
  }

  /** The element the loops are at is as it was. */
  lemma Pending(m0: seq<real>, m: seq<real>, dst: Tensor, newv: Cell -> real, y: int, x: int, a: int)
    requires Progress(m0, m, dst, newv, y, x) && InStorage(dst, y, x) && a == dst.Addr(y, x) && Fits(dst, |m|)
    ensures 0 <= a < |m| && m[a] == At(m0, a)
  {
    assert At(m, dst.Addr(y, x)) == At(m0, dst.Addr(y, x));
  }

  lemma ProgressRow(m0: seq<real>, m: seq<real>, dst: Tensor, newv: Cell -> real, y: nat)
    requires dst.shape.Valid() && Progress(m0, m, dst, newv, y, dst.shape.Width())
    ensures Progress(m0, m, dst, newv, y + 1, 0)
  {
  }

  lemma ProgressDone(m0: seq<real>, m: seq<real>, dst: Tensor, newv: Cell -> real)
    requires dst.shape.Valid() && Progress(m0, m, dst, newv, dst.shape.Rows(), 0)
    ensures Stored(m0, m, dst, newv)
  {
  }

  /** m differs from m0 at most at elements of dst other than (y, x). */
  ghost predicate Behind(m0: seq<real>, m: seq<real>, dst: Tensor, y: int, x: int) {
    && (forall a :: Outside(dst, a) ==> At(m, a) == At(m0, a))
    && At(m, dst.Addr(y, x)) == At(m0, dst.Addr(y, x))
  }
}
