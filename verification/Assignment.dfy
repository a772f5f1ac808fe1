/** Assigning an expression to a tensor in memory, in place or not. */
module Assignment {
  import opened Expressions
  import opened Grid
  import opened Memory
  import opened Plans
  import opened Shapes
  import opened Soundness
  import opened Wrappers

  /** How a computed value is stored over the old one: =, +=, -=, *=, /= or any other saver. */
  type Saver = (real, real) -> real

  /** Every tensor e mentions satisfies p. */
  ghost predicate AllTensors(e: Exp, p: Tensor -> bool) {
    match e
    case Scalar(_) => true
    case Leaf(t) => p(t)
    case Unary(_, src) => AllTensors(src, p)
    case Binary(_, l, r) => AllTensors(l, p) && AllTensors(r, p)
    case Broadcast1D(vec, _, _) => p(vec)
    case PackCol(mat, _, _, _) => p(mat)
    case UnPooling(_, src, pooled, grad, _, _) => p(src) && p(pooled) && p(grad)
    case MakeTensor(_, src) => AllTensors(src, p)
  }

  /** The tensors e reads elementwise are disjoint from dst or the same view; all others are disjoint. */
  ghost predicate InPlaceSafe(e: Exp, dst: Tensor) {
    match e
    case Scalar(_) => true
    case Leaf(t) => SameView(t, dst) || Disjoint(t, dst)
    case Unary(_, src) => InPlaceSafe(src, dst)
    case Binary(_, l, r) => InPlaceSafe(l, dst) && InPlaceSafe(r, dst)
    case _ => AllTensors(e, (t: Tensor) => Disjoint(t, dst))
  }

  /** A fact about every tensor and a fact about every read combine. */
  lemma {:induction false} TensorReads(e: Exp, y: int, x: int, p: Tensor -> bool, q: (Tensor, int, int) -> bool,
                                       r: (Tensor, int, int) -> bool)
    requires AllTensors(e, p) && AllReads(e, y, x, q)
    requires forall t, i, j :: p(t) && q(t, i, j) ==> r(t, i, j)
    ensures AllReads(e, y, x, r)
  {
    match e
    case Unary(_, src) => TensorReads(src, y, x, p, q, r);
    case Binary(_, a, b) => TensorReads(a, y, x, p, q, r); TensorReads(b, y, x, p, q, r);
    case MakeTensor(op, src) =>
      forall c | c in SourceCells(op, DimsOf(src), DimsOf(e), y, x) ensures AllReads(src, c.y, c.x, r) {
        TensorReads(src, c.y, c.x, p, q, r);
      }
    case _ =>
  }

  /** In-place evaluation at (y, x) does not see the elements already overwritten. */
  lemma {:induction false} InPlaceReads(e: Exp, dst: Tensor, y: int, x: int, m0: seq<real>, m: seq<real>)
    requires InPlaceSafe(e, dst) && AllReads(e, y, x, InStorage) && InStorage(dst, y, x) && Behind(m0, m, dst, y, x)
    ensures AllReads(e, y, x, (t: Tensor, r: int, c: int) => SameAt(m0, m, t, r, c))
  {
    match e
    case Scalar(_) =>
    case Leaf(t) =>
      var r := if |t.shape.dims| == 1 then 0 else y;
      if SameView(t, dst) {
        if |t.shape.dims| == 1 { assert Prod(dst.shape.dims, 1, 1) == 1; }
        assert t.Addr(r, x) == dst.Addr(y, x);
      } else {
        assert InStorage(t, r, x);
      }
    case Unary(_, src) => InPlaceReads(src, dst, y, x, m0, m);
    case Binary(_, a, b) => InPlaceReads(a, dst, y, x, m0, m); InPlaceReads(b, dst, y, x, m0, m);
    case _ =>
      TensorReads(e, y, x, (t: Tensor) => Disjoint(t, dst), InStorage,
                  (t: Tensor, r: int, c: int) => SameAt(m0, m, t, r, c));
  }

  /** What assigning e to dst with sv stores: everything read from the old memory. */
  ghost function Assigned(m0: seq<real>, dst: Tensor, sv: Saver, e: Exp): Cell -> real {
    (c: Cell) => sv(At(m0, dst.Addr(c.y, c.x)), Eval(e, m0, c.y, c.x))
  }

  /**
    The assignment loops. Whatever tensors e shares with dst (as identical views) or does not, each
    element of dst receives sv(old value, e over the old memory), and no other cell changes.
   */
  method MapPlan(mem: array<real>, dst: Tensor, sv: Saver, e: Exp)
    requires Injective(dst) && Fits(dst, mem.Length)
    requires AllTensors(e, (t: Tensor) => Fits(t, mem.Length)) && InPlaceSafe(e, dst)
    requires forall y, x :: InStorage(dst, y, x) ==> AllReads(e, y, x, InStorage)
    modifies mem
    ensures Stored(old(mem[..]), mem[..], dst, Assigned(old(mem[..]), dst, sv, e))
  {
    ghost var m0 := mem[..];
    var rows, width := dst.shape.Rows(), dst.shape.Width();
    for y := 0 to rows
      invariant Progress(m0, mem[..], dst, Assigned(m0, dst, sv, e), y, 0)
    {
      for x := 0 to width
        invariant Progress(m0, mem[..], dst, Assigned(m0, dst, sv, e), y, x)
      {
        ghost var m := mem[..];
        assert InStorage(dst, y, x);
        var a := dst.dptr + y * dst.shape.stride + x;
        TensorReads(e, y, x, (t: Tensor) => Fits(t, mem.Length), InStorage, Readable(mem.Length));
        InPlaceReads(e, dst, y, x, m0, m);
        EvalDependsOnReads(e, m0, m, y, x);
        var v := EvalPlan(e, mem, y, x);
        v := sv(mem[a], v);
        mem[a] := v;
        ProgressStep(m0, m, mem[..], dst, Assigned(m0, dst, sv, e), y, x, a, v);
      }
      ProgressRow(m0, mem[..], dst, Assigned(m0, dst, sv, e), y);
    }
    ProgressDone(m0, mem[..], dst, Assigned(m0, dst, sv, e));
  }

  /**
    MapExp: rejects an expression that fails a check or whose shape differs from dst's, and otherwise
    assigns it. The shape check guarantees that every read is in bounds.
   */
  method MapExp(mem: array<real>, dst: Tensor, sv: Saver, e: Exp) returns (ok: bool)
    requires Injective(dst) && Fits(dst, mem.Length)
    requires AllTensors(e, (t: Tensor) => Fits(t, mem.Length))
    requires Accepts(e, dst) ==> InPlaceSafe(e, dst) && Obligations(e) && TrueMark(e)
    modifies mem
    ensures ok == Accepts(e, dst)
    ensures if ok then Stored(old(mem[..]), mem[..], dst, Assigned(old(mem[..]), dst, sv, e))
            else mem[..] == old(mem[..])
  {
    ok := false;
    if KDim(e) == 0 || KDim(e) == |dst.shape.dims| {
      var eshape := ShapeCheck(e, |dst.shape.dims|);
      if eshape.Some? && (Dim(eshape.value, 0) == 0 || eshape.value == dst.shape.dims) {
        ok := true;
        forall y, x | InStorage(dst, y, x) ensures AllReads(e, y, x, InStorage) {
          AcceptedReads(e, dst, y, x);
        }
        MapPlan(mem, dst, sv, e);
      }
    }
  }

  /** MapExp's type check and shape check against dst. */
  predicate Accepts(e: Exp, dst: Tensor) {
    && (KDim(e) == 0 || KDim(e) == |dst.shape.dims|)
    && var s := ShapeCheck(e, |dst.shape.dims|); s.Some? && (Dim(s.value, 0) == 0 || s.value == dst.shape.dims)
  }

  /** An accepted expression is read only in bounds at every cell of dst. */
  lemma AcceptedReads(e: Exp, dst: Tensor, y: int, x: int)
    requires Accepts(e, dst) && Obligations(e) && TrueMark(e) && InStorage(dst, y, x)
    ensures AllReads(e, y, x, InStorage)
  {
    if KDim(e) == 0 {
      ScalarOperand(e, |dst.shape.dims|);
    } else {
      ReadsInBounds(e, y, x);
    }
  }
}
