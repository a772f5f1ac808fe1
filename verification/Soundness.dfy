/** Shape checking is sound: a checked expression never divides by zero nor reads outside a tensor's storage. */
module Soundness {
  import opened Arith
  import opened Expressions
  import opened Grid
  import opened Layout
  import opened Memory
  import opened Patches
  import opened PoolGeometry
  import opened Reducers
  import opened Shapes
  import opened Sums
  import opened Wrappers

  /** What op asks of the caller without checking it, over a source of shape s. */
  predicate OpObligation(op: TensorOp, s: seq<nat>) {
    match op
    case UnpackPatch(_, pstride) => pstride > 0
    case Pooling(_, pshape, _, kstride) => pshape == None ==> kstride > 0
    case Cropping(cheight, cwidth, Some((top, left))) => top + cheight <= Dim(s, 1) && left + cwidth <= Dim(s, 0)
    case _ => true
  }

  /** Width 0 is ShapeCheck's mark for "scalar"; the mark is true when only scalars carry it. */
  predicate TrueMark(e: Exp) {
    KDim(e) == 0 || Dim(DimsOf(e), 0) != 0
  }

  /** What the code asks of the caller without checking it, anywhere in e. */
  predicate Obligations(e: Exp) {
    match e
    case Unary(_, src) => Obligations(src)
    case Binary(_, l, r) => TrueMark(l) && TrueMark(r) && Obligations(l) && Obligations(r)
    case PackCol(_, _, _, pstride) => pstride > 0
    case UnPooling(_, _, _, _, _, kstride) => kstride > 0
    case MakeTensor(op, src) => OpObligation(op, DimsOf(src)) && Obligations(src)
    case _ => true
  }

  /** The numbers op, of shape d over a source of shape s, divides by. */
  function Divisors(op: TensorOp, s: seq<nat>, d: seq<nat>): seq<int> {
    match op
    case UnpackPatch(psize, pstride) => var g := GeometryOf(s, psize, pstride); [psize, g.OWidth(), g.OHeight()]
    case Reshape(_) => [Dim(s, 0)]
    case SwapAxis(a1, a2) =>
      if !(a1 < a2 < |d|) then []
      else if a1 == 0 then [Prod(d, 1, a2), d[a2]]
      else [Prod(d, 1, a1), d[a1], Prod(d, a1 + 1, a2), d[a2]]
    case Pooling(_, _, _, _) => [Dim(d, 1)]
    case Padding(_) => [Dim(d, 1)]
    case Cropping(_, _, _) => [Dim(d, 1)]
    case Mirroring => []
    case ChannelPooling(_, _) => [Dim(s, 1), Dim(s, 2)]
  }

  /** Evaluating e at (y, x) divides by nothing zero, and every tensor read it makes satisfies p. */
  ghost predicate AllReads(e: Exp, y: int, x: int, p: (Tensor, int, int) -> bool) {
    match e
    case Scalar(_) => true
    case Leaf(t) => p(t, if |t.shape.dims| == 1 then 0 else y, x)
    case Unary(_, src) => AllReads(src, y, x, p)
    case Binary(_, l, r) => AllReads(l, y, x, p) && AllReads(r, y, x, p)
    case Broadcast1D(vec, shape, d) =>
      (0 < d < |shape| ==> Prod(shape, 1, d) != 0 && shape[d] != 0) && p(vec, 0, BroadcastIndex(shape, d, y, x))
    case PackCol(mat, shape, psize, pstride) =>
      && |mat.shape.dims| == 2 && Dim(shape, 1) != 0 && Dim(shape, 2) != 0 && pstride != 0
      && forall c :: c in PackCells(GeometryOf(shape, psize, pstride), y, x) ==> p(mat, c.y, c.x)
    case UnPooling(_, src, pooled, grad, _, kstride) =>
      && |src.shape.dims| == |pooled.shape.dims| == |grad.shape.dims| == 4
      && Dim(src.shape.dims, 1) != 0 && kstride != 0 && p(src, y, x)
      && forall c :: c in UnpoolCells(UnpoolKernel(e), y, x) ==> p(pooled, c.y, c.x) && p(grad, c.y, c.x)
    case MakeTensor(op, src) =>
      && (forall d :: d in Divisors(op, DimsOf(src), DimsOf(e)) ==> d != 0)
      && forall c :: c in SourceCells(op, DimsOf(src), DimsOf(e), y, x) ==> AllReads(src, c.y, c.x, p)
  }

  predicate InDimsTable(dims: seq<nat>, y: int, x: int) {
    |dims| >= 1 && InTable(Cell(y, x), Prod(dims, 1, |dims|), dims[0])
  }

  // ---- one lemma per kind of node: reads land inside the source, divisors are nonzero ----

  ghost predicate OpReadsIn(op: TensorOp, s: seq<nat>, d: seq<nat>, y: int, x: int) {
    && (forall k :: k in Divisors(op, s, d) ==> k != 0)
    && forall c :: c in SourceCells(op, s, d, y, x) ==> InDimsTable(s, c.y, c.x)
  }

  /** op was accepted over s with shape d, its obligation holds, and (y, x) is a cell of d. */
  ghost predicate OpAt(op: TensorOp, s: seq<nat>, d: seq<nat>, y: int, x: int) {
    |s| >= 1 && OpShape(op, s) == Some(d) && InDimsTable(d, y, x) && OpObligation(op, s)
  }

  /** Rows of an image batch: planes of height rows, or images of channels of height rows. */
  lemma BatchRows(dims: seq<nat>)
    requires |dims| >= 2
    ensures Prod(dims, 1, |dims|) == Prod(dims, 2, |dims|) * dims[1]
    ensures |dims| >= 3 ==> Prod(dims, 1, |dims|) == Prod(dims, 3, |dims|) * dims[2] * dims[1]
  {
    ProdHead(dims, 1, |dims|);
    if |dims| >= 3 { ProdHead(dims, 2, |dims|); }
  }

  lemma TailProd(d: seq<nat>, s: seq<nat>)
    requires |d| == |s| >= 2 && d[2..] == s[2..]
    ensures Prod(d, 2, |d|) == Prod(s, 2, |s|)
  {
    forall k | 2 <= k < |s| ensures d[k] == s[k] { assert d[k] == d[2..][k - 2] && s[k] == s[2..][k - 2]; }
    ProdAgrees(d, s, 2, |s|);
  }

  lemma ImageRows(s: seq<nat>, psize: nat, pstride: nat)
    requires |s| >= 3
    ensures GeometryOf(s, psize, pstride).ImgRows() == Prod(s, 1, |s|)
  {
    BatchRows(s);
    MulShuffle(Prod(s, 3, |s|), s[2], s[1]);
    MulRotate(s[1], s[2], Prod(s, 3, |s|));
    MulRotate(s[2], s[1], Prod(s, 3, |s|));
  }

  lemma UnpackOp(op: TensorOp, s: seq<nat>, d: seq<nat>, y: int, x: int)
    requires op.UnpackPatch? && OpAt(op, s, d, y, x)
    ensures OpReadsIn(op, s, d, y, x)
  {
    var g := GeometryOf(s, op.psize, op.pstride);
    assert Prod(d, 1, 2) == d[1] by { assert Prod(d, 1, 1) == 1; }
    var n, c, py, px, yo, xo := MatSplit(g, Cell(y, x));
    UnpackReads(g, n, c, py, px, yo, xo);
    ImgInTable(g, n, c, py * g.pstride + yo, px * g.pstride + xo);
    ImageRows(s, op.psize, op.pstride);
  }

  lemma ReshapeOp(op: TensorOp, s: seq<nat>, d: seq<nat>, y: int, x: int)
    requires op.Reshape? && OpAt(op, s, d, y, x)
    ensures OpReadsIn(op, s, d, y, x)
  {
    ProdHead(s, 0, |s|);
    ProdHead(d, 0, |d|);
    ReshapeKeepsOrder(d[0], Prod(d, 1, |d|), s[0], Prod(s, 1, |s|), y, x);
    DigitsBound(y, x, Prod(d, 1, |d|), d[0]);
    SplitBound(y * d[0] + x, Prod(s, 1, |s|), s[0]);
  }

  /** A cell exists only where every dimension is nonzero. */
  lemma NonzeroDims(dims: seq<nat>, y: int, x: int, lo: nat, hi: nat)
    requires InDimsTable(dims, y, x) && lo <= hi <= |dims|
    ensures Prod(dims, lo, hi) > 0
    ensures forall k :: 0 <= k < |dims| ==> dims[k] > 0
  {
    var idx := CellIndex(dims, y, x);
    assert forall k :: 0 <= k < |dims| ==> idx[k] < dims[k];
    PositionBound(dims, idx, lo, hi);
  }

  lemma SwapOp(op: TensorOp, s: seq<nat>, d: seq<nat>, y: int, x: int)
    requires op.SwapAxis? && OpAt(op, s, d, y, x)
    ensures OpReadsIn(op, s, d, y, x)
  {
    SwapInRange(d, op.a1, op.a2, y, x);
    assert Swapped(d, op.a1, op.a2) == s;
    NonzeroDims(d, y, x, 1, op.a2);
    if op.a1 > 0 {
      NonzeroDims(d, y, x, 1, op.a1);
      NonzeroDims(d, y, x, op.a1 + 1, op.a2);
    }
  }

  lemma PoolOp(op: TensorOp, s: seq<nat>, d: seq<nat>, y: int, x: int)
    requires op.Pooling? && OpAt(op, s, d, y, x)
    ensures OpReadsIn(op, s, d, y, x)
  {
    var k := KernelOf(s, d, op.ksize, op.kstride);
    BatchRows(s);
    BatchRows(d);
    TailProd(d, s);
    PoolCellsAre(k, Cell(y, x));
    SplitBound(y, k.planes, k.pheight);
  }

  lemma PadOp(op: TensorOp, s: seq<nat>, d: seq<nat>, y: int, x: int)
    requires op.Padding? && OpAt(op, s, d, y, x)
    ensures OpReadsIn(op, s, d, y, x)
  {
    BatchRows(s);
    BatchRows(d);
    TailProd(d, s);
    PadInRange(op.pad, s[1], s[0], Prod(s, 2, |s|), y, x);
    SplitBound(y, Prod(s, 2, |s|), d[1]);
  }

  lemma CropOp(op: TensorOp, s: seq<nat>, d: seq<nat>, y: int, x: int)
    requires op.Cropping? && OpAt(op, s, d, y, x)
    ensures OpReadsIn(op, s, d, y, x)
  {
    BatchRows(s);
    BatchRows(d);
    TailProd(d, s);
    var start := CropStart(op, s[1], s[0]);
    CropInRange(start.0, start.1, op.cheight, op.cwidth, s[1], s[0], Prod(s, 2, |s|), y, x);
    SplitBound(y, Prod(s, 2, |s|), d[1]);
  }

  lemma ChannelOp(op: TensorOp, s: seq<nat>, d: seq<nat>, y: int, x: int)
    requires op.ChannelPooling? && OpAt(op, s, d, y, x)
    ensures OpReadsIn(op, s, d, y, x)
  {
    BatchRows(s);
    ChannelCellsAre(op.nsize / 2, s[2], s[1], Prod(s, 3, |s|), s[0], Cell(y, x));
    NonzeroDims(s, y, x, 0, 0);
  }

  lemma OpReads(op: TensorOp, s: seq<nat>, d: seq<nat>, y: int, x: int)
    requires OpAt(op, s, d, y, x)
    ensures OpReadsIn(op, s, d, y, x)
  {
    match op
    case UnpackPatch(_, _) => UnpackOp(op, s, d, y, x);
    case Reshape(_) => ReshapeOp(op, s, d, y, x);
    case SwapAxis(_, _) => SwapOp(op, s, d, y, x);
    case Pooling(_, _, _, _) => PoolOp(op, s, d, y, x);
    case Padding(_) => PadOp(op, s, d, y, x);
    case Cropping(_, _, _) => CropOp(op, s, d, y, x);
    case Mirroring =>
    case ChannelPooling(_, _) => ChannelOp(op, s, d, y, x);
  }

  lemma BroadcastReads(e: Exp, y: int, x: int)
    requires e.Broadcast1D? && ShapeCheck(e, |e.shape|).Some? && InDimsTable(e.shape, y, x)
    ensures AllReads(e, y, x, InStorage)
  {
    var shape, d := e.shape, e.dimcast;
    NonzeroDims(shape, y, x, 1, if d == 0 then 1 else d);
    assert Prod(e.vec.shape.dims, 1, 1) == 1;
  }

  lemma PackReads(e: Exp, y: int, x: int)
    requires e.PackCol? && ShapeCheck(e, |e.shape|).Some? && InDimsTable(e.shape, y, x) && Obligations(e)
    ensures AllReads(e, y, x, InStorage)
  {
    var g, dims := GeometryOf(e.shape, e.psize, e.pstride), e.mat.shape.dims;
    ImageRows(e.shape, e.psize, e.pstride);
    NonzeroDims(e.shape, y, x, 0, 0);
    assert Prod(dims, 1, 2) == dims[1] by { assert Prod(dims, 1, 1) == 1; }
    forall c | c in PackCells(g, y, x) ensures InStorage(e.mat, c.y, c.x) {
      PackCellsAre(g, Cell(y, x), c);
    }
  }

  lemma UnPoolReads(e: Exp, y: int, x: int)
    requires e.UnPooling? && ShapeCheck(e, 4).Some? && InDimsTable(e.dataSrc.shape.dims, y, x) && Obligations(e)
    ensures AllReads(e, y, x, InStorage)
  {
    var k, s, p := UnpoolKernel(e), e.dataSrc.shape.dims, e.dataPooled.shape.dims;
    BatchRows(s);
    BatchRows(p);
    ProdAgrees(s, p, 2, 4);
    UnpoolCellsAre(k, Cell(y, x));
    NonzeroDims(s, y, x, 0, 0);
  }

  /**
    Soundness. If e passes its checks and its unchecked obligations hold, then evaluating it at any cell
    of its shape divides by nothing zero and reads every tensor inside that tensor's storage.
   */
  lemma {:induction false} ReadsInBounds(e: Exp, y: int, x: int)
    requires KDim(e) > 0 && ShapeCheck(e, KDim(e)).Some? && Obligations(e)
    requires InDimsTable(DimsOf(e), y, x)
    ensures AllReads(e, y, x, InStorage)
    decreases e, 0
  {
    match e
    case Scalar(_) =>
    case Leaf(t) =>
      if |t.shape.dims| == 1 { assert Prod(t.shape.dims, 1, 1) == 1; }
    case Unary(_, src) => ReadsInBounds(src, y, x);
    case Binary(_, l, r) =>
      OperandReads(e, l, r, y, x);
      OperandReads(e, r, l, y, x);
    case Broadcast1D(_, _, _) => BroadcastReads(e, y, x);
    case PackCol(_, _, _, _) => PackReads(e, y, x);
    case UnPooling(_, _, _, _, _, _) => UnPoolReads(e, y, x);
    case MakeTensor(op, src) =>
      var s, d := DimsOf(src), DimsOf(e);
      OpReads(op, s, d, y, x);
      forall c | c in SourceCells(op, s, d, y, x) ensures AllReads(src, c.y, c.x, InStorage) {
        ReadsInBounds(src, c.y, c.x);
      }
  }

  /** Each operand of a checked binary node is a scalar tree or has the node's own shape. */
  lemma {:induction false} OperandReads(e: Exp, a: Exp, b: Exp, y: int, x: int)
    requires e.Binary? && ((a == e.lhs && b == e.rhs) || (a == e.rhs && b == e.lhs))
    requires KDim(e) > 0 && ShapeCheck(e, KDim(e)).Some? && Obligations(e)
    requires InDimsTable(DimsOf(e), y, x)
    ensures AllReads(a, y, x, InStorage)
    decreases a, 1
  {
    if KDim(a) == 0 {
      ScalarOperand(a, KDim(e));
    } else {
      if KDim(b) == 0 { ScalarOperand(b, KDim(e)); }
      ReadsInBounds(a, y, x);
    }
  }

  /** A tree of scalars carries the scalar mark at any dimension and reads no tensor. */
  lemma {:induction false} ScalarOperand(e: Exp, dim: nat)
    requires KDim(e) == 0 && ShapeCheck(e, dim).Some? && dim >= 1
    ensures Dim(ShapeCheck(e, dim).value, 0) == 0
    ensures forall y, x, p :: AllReads(e, y, x, p)
  {
    match e
    case Unary(_, src) => ScalarOperand(src, dim);
    case Binary(_, l, r) => ScalarOperand(l, dim); ScalarOperand(r, dim);
    case _ =>
  }

  // ---- evaluation depends only on the reads ----

  ghost predicate SameAt(m: seq<real>, m': seq<real>, t: Tensor, r: int, c: int) {
    At(m, t.Addr(r, c)) == At(m', t.Addr(r, c))
  }

  lemma GradSumDependsOnReads(cells: seq<Cell>, red: Reducer, v: real, pooled: Tensor, grad: Tensor, m: seq<real>,
                              m': seq<real>)
    requires forall c :: c in cells ==> SameAt(m, m', pooled, c.y, c.x) && SameAt(m, m', grad, c.y, c.x)
    ensures Sum(cells, GradTerm(red, v, pooled, grad, m)) == Sum(cells, GradTerm(red, v, pooled, grad, m'))
  {
    var f, f' := GradTerm(red, v, pooled, grad, m), GradTerm(red, v, pooled, grad, m');
    forall c | c in cells ensures f(c) == f'(c) {
      assert Element(pooled, m)(c) == Element(pooled, m')(c) && Element(grad, m)(c) == Element(grad, m')(c);
    }
    SumExt(cells, f, f');
  }

  /** Memories that agree on every cell Eval reads give the same value. */
  lemma {:induction false} EvalDependsOnReads(e: Exp, m: seq<real>, m': seq<real>, y: int, x: int)
    requires AllReads(e, y, x, (t: Tensor, r: int, c: int) => SameAt(m, m', t, r, c))
    ensures Eval(e, m, y, x) == Eval(e, m', y, x)
  {
    match e
    case Scalar(_) =>
    case Leaf(_) =>
    case Unary(_, src) => EvalDependsOnReads(src, m, m', y, x);
    case Binary(_, l, r) => EvalDependsOnReads(l, m, m', y, x); EvalDependsOnReads(r, m, m', y, x);
    case Broadcast1D(_, _, _) =>
    case PackCol(mat, shape, psize, pstride) =>
      SumExt(PackCells(GeometryOf(shape, psize, pstride), y, x), Element(mat, m), Element(mat, m'));
    case UnPooling(red, src, pooled, grad, _, _) =>
      assert SameAt(m, m', src, y, x);
      GradSumDependsOnReads(UnpoolCells(UnpoolKernel(e), y, x), red, At(m, src.Addr(y, x)), pooled, grad, m, m');
    case MakeTensor(op, src) =>
      var cells := SourceCells(op, DimsOf(src), DimsOf(e), y, x);
      forall c | c in cells ensures Eval(src, m, c.y, c.x) == Eval(src, m', c.y, c.x) {
        EvalDependsOnReads(src, m, m', c.y, c.x);
      }
      FoldExt(OpReducer(op), OpReducer(op).InitV(), cells, (c: Cell) => Eval(src, m, c.y, c.x),
              (c: Cell) => Eval(src, m', c.y, c.x));
  }
}
