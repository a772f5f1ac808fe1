/** Plans as they run: the loops of each Eval, reading tensor memory. */
module Plans {
  import opened Arith
  import opened Expressions
  import opened Grid
  import opened Layout
  import opened Memory
  import opened Patches
  import opened PoolGeometry
  import opened Reducers
  import opened Shapes
  import opened Soundness
  import opened Sums
  import opened Windows
  import opened Wrappers

  /** The element is inside a memory of n cells. */
  ghost function Readable(n: int): (Tensor, int, int) -> bool {
    (t: Tensor, r: int, c: int) => 0 <= t.Addr(r, c) < n
  }

  ghost predicate CanEval(e: Exp, mem: array<real>, y: int, x: int) {
    AllReads(e, y, x, Readable(mem.Length))
  }

  /** Termination measure: the loops over tensors evaluate leaf expressions. */
  ghost function Size(e: Exp): nat {
    match e
    case Unary(_, src) => 1 + Size(src)
    case Binary(_, l, r) => 1 + Size(l) + Size(r)
    case MakeTensor(_, src) => 1 + Size(src)
    case PackCol(_, _, _, _) => 2
    case UnPooling(_, _, _, _, _, _) => 4
    case _ => 1
  }

  /** Evaluates e at (y, x) by reading mem; no read is out of bounds, and the result is Eval's. */
  method EvalPlan(e: Exp, mem: array<real>, y: int, x: int) returns (r: real)
    requires CanEval(e, mem, y, x)
    ensures r == Eval(e, mem[..], y, x)
    decreases Size(e), 1
  {
    match e
    case Scalar(v) =>
      r := v;
    case Leaf(t) =>
      r := if |t.shape.dims| == 1 then mem[t.dptr + x] else mem[t.dptr + y * t.shape.stride + x];
    case Unary(f, src) =>
      var a := EvalPlan(src, mem, y, x);
      r := f(a);
    case Binary(f, lhs, rhs) =>
      var a := EvalPlan(lhs, mem, y, x);
      var b := EvalPlan(rhs, mem, y, x);
      r := f(a, b);
    case Broadcast1D(vec, shape, d) =>
      r := mem[vec.dptr + BroadcastIndex(shape, d, y, x)];
    case PackCol(mat, shape, psize, pstride) =>
      PackIsFold(mat, shape, psize, pstride, mem[..], y, x);
      r := EvalPack(GeometryOf(shape, psize, pstride), mat, mem, y, x);
    case UnPooling(red, src, pooled, grad, _, _) =>
      var v := mem[src.Addr(y, x)];
      UnPoolIsFold(e, v, mem[..], y, x);
      r := EvalUnPool(red, UnpoolKernel(e), v, pooled, grad, mem, y, x);
    case MakeTensor(op, src) =>
      r := EvalTensor(op, src, mem, y, x);
  }

  /** The plan of an operator. */
  method EvalTensor(op: TensorOp, src: Exp, mem: array<real>, y: int, x: int) returns (r: real)
    requires CanEval(MakeTensor(op, src), mem, y, x)
    ensures r == Eval(MakeTensor(op, src), mem[..], y, x)
    decreases Size(MakeTensor(op, src)), 0
  {
    var s, d := DimsOf(src), DimsOf(MakeTensor(op, src));
    MakeTensorIsFold(op, src, mem[..], y, x);
    match op {
      case Pooling(red, _, ksize, kstride) =>
        r := EvalPool(red, KernelOf(s, d, ksize, kstride), src, mem, y, x);
      case ChannelPooling(red, nsize) =>
        r := EvalChannelPool(red, nsize / 2, Dim(s, 2), Dim(s, 1), src, mem, y, x);
      case _ =>
        r := EvalGather(op, s, d, src, mem, y, x);
    }
  }

  ghost function EvalAt(e: Exp, m: seq<real>): Cell -> real {
    (c: Cell) => Eval(e, m, c.y, c.x)
  }

  lemma PackIsFold(mat: Tensor, shape: seq<nat>, psize: nat, pstride: nat, m: seq<real>, y: int, x: int)
    requires |mat.shape.dims| != 1
    ensures Eval(PackCol(mat, shape, psize, pstride), m, y, x)
         == Fold(SumRed, 0.0, PackCells(GeometryOf(shape, psize, pstride), y, x), EvalAt(Leaf(mat), m))
  {
    var cells := PackCells(GeometryOf(shape, psize, pstride), y, x);
    FoldIsSum(0.0, cells, Element(mat, m));
    FoldExt(SumRed, 0.0, cells, EvalAt(Leaf(mat), m), Element(mat, m));
  }

  lemma GradExpIsTerm(red: Reducer, v: real, pooled: Tensor, grad: Tensor, m: seq<real>, c: Cell)
    requires |pooled.shape.dims| != 1 && |grad.shape.dims| != 1
    ensures EvalAt(GradExp(red, v, pooled, grad), m)(c) == GradTerm(red, v, pooled, grad, m)(c)
  {
    assert Eval(Leaf(pooled), m, c.y, c.x) == Element(pooled, m)(c);
    assert Eval(Leaf(grad), m, c.y, c.x) == Element(grad, m)(c);
  }

  lemma UnPoolIsFold(e: Exp, v: real, m: seq<real>, y: int, x: int)
    requires e.UnPooling? && v == At(m, e.dataSrc.Addr(y, x))
    requires |e.dataPooled.shape.dims| != 1 && |e.gradPooled.shape.dims| != 1
    ensures Eval(e, m, y, x)
         == Fold(SumRed, 0.0, UnpoolCells(UnpoolKernel(e), y, x),
                 EvalAt(GradExp(e.red, v, e.dataPooled, e.gradPooled), m))
  {
    var cells := UnpoolCells(UnpoolKernel(e), y, x);
    var f, g := GradTerm(e.red, v, e.dataPooled, e.gradPooled, m),
      EvalAt(GradExp(e.red, v, e.dataPooled, e.gradPooled), m);
    FoldIsSum(0.0, cells, f);
    forall c | c in cells ensures g(c) == f(c) {
      GradExpIsTerm(e.red, v, e.dataPooled, e.gradPooled, m, c);
    }
    FoldExt(SumRed, 0.0, cells, g, f);
  }

  lemma MakeTensorIsFold(op: TensorOp, src: Exp, m: seq<real>, y: int, x: int)
    ensures Eval(MakeTensor(op, src), m, y, x)
         == Fold(OpReducer(op), OpReducer(op).InitV(),
                 SourceCells(op, DimsOf(src), DimsOf(MakeTensor(op, src)), y, x), EvalAt(src, m))
  {
    var e := MakeTensor(op, src);
    FoldExt(OpReducer(op), OpReducer(op).InitV(), SourceCells(op, DimsOf(src), DimsOf(e), y, x),
            EvalAt(src, m), (c: Cell) => Eval(src, m, c.y, c.x));
  }

  /** The plans that read one cell of their source, or none. */
  method EvalGather(op: TensorOp, s: seq<nat>, d: seq<nat>, src: Exp, mem: array<real>, y: int, x: int)
    returns (r: real)
    requires !op.Pooling? && !op.ChannelPooling?
    requires forall c :: c in SourceCells(op, s, d, y, x) ==> CanEval(src, mem, c.y, c.x)
    ensures r == Fold(SumRed, 0.0, SourceCells(op, s, d, y, x), EvalAt(src, mem[..]))
    decreases Size(src), 2
  {
    var c: Option<Cell>;
    match op {
      case UnpackPatch(psize, pstride) => c := UnpackCell(GeometryOf(s, psize, pstride), y, x);
      case Reshape(_) => c := Some(ReshapeCell(Dim(d, 0), Dim(s, 0), y, x));
      case SwapAxis(a1, a2) => c := if a1 < a2 < |d| then Some(SwapCell(d, a1, a2, y, x)) else None;
      case Padding(pad) => c := PadCell(pad, Dim(d, 1), Dim(s, 1), Dim(s, 0), y, x);
      case Cropping(_, _, _) =>
        var start := CropStart(op, Dim(s, 1), Dim(s, 0));
        c := Some(CropCell(start.0, start.1, Dim(d, 1), Dim(s, 1), y, x));
      case Mirroring => c := Some(Cell(y, Dim(d, 0) - x - 1));
    }
    assert SourceCells(op, s, d, y, x) == if c.Some? then [c.value] else [];
    match c {
      case None => r := 0.0;
      case Some(c) =>
        FoldOne(SumRed, 0.0, c, EvalAt(src, mem[..]));
        r := EvalPlan(src, mem, c.y, c.x);
    }
  }

  /**
    The accumulation loops of the windowed plans: rows y0..y1, columns x0..x1, reading e at `at` of each
    loop position.
   */
  method FoldRect(red: Reducer, e: Exp, mem: array<real>, y0: int, y1: int, x0: int, x1: int, at: Cell -> Cell)
    returns (res: real)
    requires forall q :: InRect(q, y0, y1, x0, x1) ==> CanEval(e, mem, at(q).y, at(q).x)
    ensures res == Fold(red, red.InitV(), Map(Rect(y0, y1, x0, x1), at), EvalAt(e, mem[..]))
    decreases Size(e), 3
  {
    ghost var f := EvalAt(e, mem[..]);
    res := red.InitV();
    var y := y0;
    while y < y1
      invariant y0 <= y && (y == y0 || y <= y1)
      invariant Folded(res, red, f, at, Rect(y0, y, x0, x1))
    {
      res := FoldRow(red, e, mem, y0, y, x0, x1, at, res);
      y := y + 1;
    }
    RectDone(y0, y1, x0, x1, y);
  }

  /** Row y of the loops. */
  method FoldRow(red: Reducer, e: Exp, mem: array<real>, ghost y0: int, y: int, x0: int, x1: int, at: Cell -> Cell,
                 res0: real)
    returns (res: real)
    requires y0 <= y && forall x :: x0 <= x < x1 ==> CanEval(e, mem, at(Cell(y, x)).y, at(Cell(y, x)).x)
    requires Folded(res0, red, EvalAt(e, mem[..]), at, Rect(y0, y, x0, x1))
    ensures Folded(res, red, EvalAt(e, mem[..]), at, Rect(y0, y + 1, x0, x1))
    decreases Size(e), 2
  {
    ghost var f := EvalAt(e, mem[..]);
    res := res0;
    var x := x0;
    VisitedStart(y0, x0, x1, y);
    while x < x1
      invariant x0 <= x && (x == x0 || x <= x1)
      invariant Folded(res, red, f, at, Visited(y0, x0, x1, y, x))
    {
      var c := at(Cell(y, x));
      var v := EvalPlan(e, mem, c.y, c.x);
      FoldedStep(res, red, f, at, Visited(y0, x0, x1, y, x), Cell(y, x));
      VisitedStep(y0, x0, x1, y, x);
      res := red.Reduce(res, v);
      x := x + 1;
    }
    VisitedRow(y0, x0, x1, y, x);
  }

  /** res is the accumulator after reducing f over the cells `at` maps qs to. */
  ghost predicate Folded(res: real, red: Reducer, f: Cell -> real, at: Cell -> Cell, qs: seq<Cell>) {
    res == Fold(red, red.InitV(), Map(qs, at), f)
  }

  lemma FoldedStep(res: real, red: Reducer, f: Cell -> real, at: Cell -> Cell, qs: seq<Cell>, q: Cell)
    requires Folded(res, red, f, at, qs)
    ensures Folded(red.Reduce(res, f(at(q))), red, f, at, qs + [q])
  {
    assert Map(qs + [q], at) == Map(qs, at) + [at(q)];
    FoldSnoc(red, red.InitV(), Map(qs, at), at(q), f);
  }

  lemma RectDone(y0: int, y1: int, x0: int, x1: int, y: int)
    requires y1 <= y && y0 <= y && (y == y0 || y <= y1)
    ensures Rect(y0, y, x0, x1) == Rect(y0, y1, x0, x1)
  {
  }

  lemma InMap<T>(f: Cell -> T, y0: int, y1: int, x0: int, x1: int)
    ensures forall q :: InRect(q, y0, y1, x0, x1) ==> f(q) in Map(Rect(y0, y1, x0, x1), f)
  {
    var s := Rect(y0, y1, x0, x1);
    RectVisits(y0, y1, x0, x1);
    forall q | InRect(q, y0, y1, x0, x1) ensures f(q) in Map(s, f) {
      var k :| 0 <= k < |s| && s[k] == q;
      assert Map(s, f)[k] == f(q);
    }
  }

  method EvalPack(g: Geometry, mat: Tensor, mem: array<real>, i: int, j: int) returns (res: real)
    requires |mat.shape.dims| != 1
    requires forall c :: c in PackCells(g, i, j) ==> 0 <= mat.Addr(c.y, c.x) < mem.Length
    ensures res == Fold(SumRed, 0.0, PackCells(g, i, j), EvalAt(Leaf(mat), mem[..]))
    decreases 1, 4
  {
    var y := Rem(i, g.height);
    var py_min, py_max := CoverLo(y, g.psize, g.pstride), CoverHi(y, g.pstride, g.OHeight());
    var px_min, px_max := CoverLo(j, g.psize, g.pstride), CoverHi(j, g.pstride, g.OWidth());
    var at := (q: Cell) => PackCell(g, i, j, q);
    assert PackCells(g, i, j) == Map(Rect(py_min, py_max, px_min, px_max), at);
    InMap(at, py_min, py_max, px_min, px_max);
    res := FoldRect(SumRed, Leaf(mat), mem, py_min, py_max, px_min, px_max, at);
  }

  /** One term of the unpooling sum, as an expression over the pooled tensors. */
  function GradExp(red: Reducer, vsrc: real, pooled: Tensor, grad: Tensor): Exp {
    Binary((p, g) => red.PartialGrad(vsrc, p) * g, Leaf(pooled), Leaf(grad))
  }

  lemma GradExpReads(red: Reducer, vsrc: real, pooled: Tensor, grad: Tensor, mem: array<real>, y: int, x: int)
    requires |pooled.shape.dims| != 1 && |grad.shape.dims| != 1
    requires 0 <= pooled.Addr(y, x) < mem.Length && 0 <= grad.Addr(y, x) < mem.Length
    ensures CanEval(GradExp(red, vsrc, pooled, grad), mem, y, x)
  {
    var e := GradExp(red, vsrc, pooled, grad);
    assert AllReads(e.lhs, y, x, Readable(mem.Length)) && AllReads(e.rhs, y, x, Readable(mem.Length));
  }

  method EvalUnPool(red: Reducer, k: Kernel, vsrc: real, pooled: Tensor, grad: Tensor, mem: array<real>, i: int, j: int)
    returns (val: real)
    requires |pooled.shape.dims| != 1 && |grad.shape.dims| != 1
    requires forall c :: c in UnpoolCells(k, i, j) ==>
                         0 <= pooled.Addr(c.y, c.x) < mem.Length && 0 <= grad.Addr(c.y, c.x) < mem.Length
    ensures val == Fold(SumRed, 0.0, UnpoolCells(k, i, j), EvalAt(GradExp(red, vsrc, pooled, grad), mem[..]))
    decreases 3, 4
  {
    var y, c := Rem(i, k.height), Quot(i, k.height);
    var py_min, py_max := CoverLo(y, k.ksize, k.kstride), CoverHi(y, k.kstride, k.pheight);
    var px_min, px_max := CoverLo(j, k.ksize, k.kstride), CoverHi(j, k.kstride, k.pwidth);
    var at := (q: Cell) => Cell(c * k.pheight + q.y, q.x);
    InPlaneIsMap(c, k.pheight, Rect(py_min, py_max, px_min, px_max), at);
    InMap(at, py_min, py_max, px_min, px_max);
    assert Size(Leaf(pooled)) == Size(Leaf(grad)) == 1;
    forall q | InRect(q, py_min, py_max, px_min, px_max)
      ensures CanEval(GradExp(red, vsrc, pooled, grad), mem, at(q).y, at(q).x)
    {
      GradExpReads(red, vsrc, pooled, grad, mem, at(q).y, at(q).x);
    }
    val := FoldRect(SumRed, GradExp(red, vsrc, pooled, grad), mem, py_min, py_max, px_min, px_max, at);
  }

  method EvalPool(red: Reducer, k: Kernel, src: Exp, mem: array<real>, i: int, j: int) returns (res: real)
    requires forall c :: c in PoolCells(k, i, j) ==> CanEval(src, mem, c.y, c.x)
    ensures res == Fold(red, red.InitV(), PoolCells(k, i, j), EvalAt(src, mem[..]))
    decreases Size(src), 4
  {
    var py, c := Rem(i, k.pheight), Quot(i, k.pheight);
    var y_start, x_start := py * k.kstride, j * k.kstride;
    var y_end, x_end := Min(y_start + k.ksize, k.height), Min(x_start + k.ksize, k.width);
    var at := (q: Cell) => Cell(c * k.height + q.y, q.x);
    InPlaneIsMap(c, k.height, Rect(y_start, y_end, x_start, x_end), at);
    PoolWindowIs(k, i, j, y_start, x_start);
    InMap(at, y_start, y_end, x_start, x_end);
    res := FoldRect(red, src, mem, y_start, y_end, x_start, x_end, at);
  }

  /** A single row of the loops: the channels near channel c. */
  method EvalChannelPool(red: Reducer, half: nat, channel: nat, height: nat, src: Exp, mem: array<real>, i: int, j: int)
    returns (res: real)
    requires forall c :: c in ChannelCells(half, channel, height, i, j) ==> CanEval(src, mem, c.y, c.x)
    ensures res == Fold(red, red.InitV(), ChannelCells(half, channel, height, i, j), EvalAt(src, mem[..]))
    decreases Size(src), 4
  {
    var y := Rem(i, height);
    var c, n := Rem(Quot(i, height), channel), Quot(Quot(i, height), channel);
    var cstart, cend := NearLo(c, half), NearHi(c, half, channel);
    var at := (q: Cell) => Cell((n * channel + q.x) * height + y, j);
    assert Rect(0, 1, cstart, cend) == RowCells(0, cstart, cend) by { assert Rect(0, 0, cstart, cend) == []; }
    assert ChannelCells(half, channel, height, i, j) == Map(Rect(0, 1, cstart, cend), at);
    InMap(at, 0, 1, cstart, cend);
    res := FoldRect(red, src, mem, 0, 1, cstart, cend, at);
  }
}
