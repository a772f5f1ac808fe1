/**
  Operators that come in pairs. An operator and the one that carries gradients back are adjoint: their
  inner products with any data agree.
 */
module Adjoints {
  import opened Expressions
  import opened Grid
  import opened Memory
  import opened Patches
  import opened Plans
  import opened PoolGeometry
  import opened Reducers
  import opened Shapes
  import opened Soundness
  import opened Sums
  import opened Wrappers

  /** All cells of an expression's shape. */
  function CellsOf(e: Exp): seq<Cell> {
    Table(ProdFrom(DimsOf(e), 1), Dim(DimsOf(e), 0))
  }

  ghost function Times(f: Cell -> real, g: Cell -> real): Cell -> real {
    (c: Cell) => Mul(f(c), g(c))
  }

  /** Sum over the cells of a's shape of a's value times b's. */
  ghost function Inner(a: Exp, b: Exp, m: seq<real>): real {
    Sum(CellsOf(a), Times(EvalAt(a, m), EvalAt(b, m)))
  }

  ghost predicate Checked(e: Exp) {
    KDim(e) > 0 && ShapeCheck(e, KDim(e)).Some?
  }

  lemma ProdPrefixTotal(d: seq<nat>)
    requires |d| == 2
    ensures ProdFrom(d, 1) == d[1]
  {
    assert Prod(d, 1, 1) == 1;
  }

  /** fwd sums f through win, bwd sums g through cov, and win and cov are dual: fwd and bwd are adjoint. */
  lemma PairIsAdjoint(us: seq<Cell>, vs: seq<Cell>, win: Cell -> seq<Cell>, cov: Cell -> seq<Cell>,
                      fwd: Cell -> real, f: Cell -> real, bwd: Cell -> real, g: Cell -> real)
    requires Dual(us, vs, win, cov)
    requires forall u :: u in us ==> fwd(u) == Sum(win(u), f)
    requires forall v :: v in vs ==> bwd(v) == Sum(cov(v), g)
    ensures Sum(us, Times(fwd, g)) == Sum(vs, Times(f, bwd))
  {
    AdjointOfDual(us, vs, win, cov, f, g, Times(fwd, g), Times(f, bwd));
  }

  /** A tensor operator that does not take a maximum sums what it reads. */
  lemma SumOp(op: TensorOp, src: Exp, m: seq<real>, y: int, x: int)
    requires OpReducer(op) == SumRed
    ensures Eval(MakeTensor(op, src), m, y, x)
         == Sum(SourceCells(op, DimsOf(src), DimsOf(MakeTensor(op, src)), y, x), EvalAt(src, m))
  {
    MakeTensorIsFold(op, src, m, y, x);
    FoldIsSum(0.0, SourceCells(op, DimsOf(src), DimsOf(MakeTensor(op, src)), y, x), EvalAt(src, m));
  }

  /** The shapes of the two sides of an unpack/pack pair. */
  lemma PatchShapes(img: Exp, mat: Tensor, psize: nat, pstride: nat)
    requires Checked(MakeTensor(UnpackPatch(psize, pstride), img)) && Checked(PackCol(mat, DimsOf(img), psize, pstride))
    requires pstride > 0
    ensures var g := GeometryOf(DimsOf(img), psize, pstride);
            && g.Valid() && |mat.shape.dims| == 2
            && CellsOf(MakeTensor(UnpackPatch(psize, pstride), img)) == Table(g.MatRows(), g.MatCols())
            && CellsOf(img) == Table(g.ImgRows(), g.width)
  {
    ProdPrefixTotal(DimsOf(MakeTensor(UnpackPatch(psize, pstride), img)));
    ImageRows(DimsOf(img), psize, pstride);
  }

  lemma PackIsSum(mat: Tensor, shape: seq<nat>, psize: nat, pstride: nat, m: seq<real>, v: Cell)
    requires |mat.shape.dims| != 1
    ensures EvalAt(PackCol(mat, shape, psize, pstride), m)(v)
         == Sum(PackCells(GeometryOf(shape, psize, pstride), v.y, v.x), EvalAt(Leaf(mat), m))
  {
    PackIsFold(mat, shape, psize, pstride, m, v.y, v.x);
    FoldIsSum(0.0, PackCells(GeometryOf(shape, psize, pstride), v.y, v.x), EvalAt(Leaf(mat), m));
  }

  /** With the sum reducer every covering window passes its gradient on unchanged. */
  lemma UnpoolIsSum(e: Exp, m: seq<real>, v: Cell)
    requires e.UnPooling? && e.red == SumRed && |e.gradPooled.shape.dims| != 1
    ensures EvalAt(e, m)(v) == Sum(UnpoolCells(UnpoolKernel(e), v.y, v.x), EvalAt(Leaf(e.gradPooled), m))
  {
    var cells := UnpoolCells(UnpoolKernel(e), v.y, v.x);
    var f, g := GradTerm(SumRed, At(m, e.dataSrc.Addr(v.y, v.x)), e.dataPooled, e.gradPooled, m),
      EvalAt(Leaf(e.gradPooled), m);
    forall c | c in cells ensures f(c) == g(c) {
      assert g(c) == Element(e.gradPooled, m)(c);
    }
    SumExt(cells, f, g);
  }

  /**
    Unpacking patches and packing columns are exact adjoints, for every image expression, batch, patch size
    and positive stride: overlapping, gapped, or leaving a remainder.
   */
  lemma UnpackPackAdjoint(img: Exp, mat: Tensor, psize: nat, pstride: nat, m: seq<real>)
    requires pstride > 0
    requires Checked(MakeTensor(UnpackPatch(psize, pstride), img))
    requires Checked(PackCol(mat, DimsOf(img), psize, pstride))
    ensures Inner(MakeTensor(UnpackPatch(psize, pstride), img), Leaf(mat), m)
         == Inner(img, PackCol(mat, DimsOf(img), psize, pstride), m)
  {
    var unpack, pack, s := MakeTensor(UnpackPatch(psize, pstride), img), PackCol(mat, DimsOf(img), psize, pstride),
      DimsOf(img);
    var g := GeometryOf(s, psize, pstride);
    PatchShapes(img, mat, psize, pstride);
    UnpackPackDual(g);
    var us, vs := CellsOf(unpack), CellsOf(img);
    var win, cov := (u: Cell) => UnpackCells(g, u.y, u.x), (v: Cell) => PackCells(g, v.y, v.x);
    forall u | u in us ensures EvalAt(unpack, m)(u) == Sum(win(u), EvalAt(img, m)) {
      SumOp(UnpackPatch(psize, pstride), img, m, u.y, u.x);
    }
    forall v | v in vs ensures EvalAt(pack, m)(v) == Sum(cov(v), EvalAt(Leaf(mat), m)) {
      PackIsSum(mat, s, psize, pstride, m, v);
    }
    PairIsAdjoint(us, vs, win, cov, EvalAt(unpack, m), EvalAt(img, m), EvalAt(pack, m), EvalAt(Leaf(mat), m));
  }

  /** Shapes of a pooling and of the unpooling that carries its gradient back. */
  ghost predicate PoolPair(pool: Exp, unpool: Exp) {
    && Checked(pool) && Checked(unpool)
    && pool.MakeTensor? && pool.op.Pooling? && unpool.UnPooling?
    && pool.op.red == unpool.red && pool.op.ksize == unpool.ksize && pool.op.kstride == unpool.kstride
    && unpool.kstride > 0
    && unpool.dataSrc.shape.dims == DimsOf(pool.src) && unpool.dataPooled.shape.dims == DimsOf(pool)
  }

  lemma PoolPairDual(pool: Exp, unpool: Exp)
    requires PoolPair(pool, unpool)
    ensures var k := UnpoolKernel(unpool);
            && k == KernelOf(DimsOf(pool.src), DimsOf(pool), pool.op.ksize, pool.op.kstride)
            && |unpool.dataSrc.shape.dims| == |unpool.gradPooled.shape.dims| == |unpool.dataPooled.shape.dims| == 4
            && CellsOf(pool.src) == CellsOf(unpool)
            && Dual(CellsOf(pool), CellsOf(unpool), (u: Cell) => PoolCells(k, u.y, u.x),
                    (v: Cell) => UnpoolCells(k, v.y, v.x))
  {
    PoolUnpoolDual(UnpoolKernel(unpool));
    BatchRows(DimsOf(pool.src));
    BatchRows(DimsOf(pool));
    TailProd(DimsOf(pool), DimsOf(pool.src));
  }

  /**
    Sum unpooling is the adjoint of sum pooling, for every source expression and output size: windows may
    overlap, leave gaps, or be clipped at the border.
   */
  lemma PoolUnpoolAdjoint(pool: Exp, unpool: Exp, m: seq<real>)
    requires PoolPair(pool, unpool) && unpool.red == SumRed
    ensures Inner(pool, Leaf(unpool.gradPooled), m) == Inner(pool.src, unpool, m)
  {
    PoolPairDual(pool, unpool);
    var k, grad := UnpoolKernel(unpool), Leaf(unpool.gradPooled);
    var us, vs := CellsOf(pool), CellsOf(unpool);
    var win, cov := (u: Cell) => PoolCells(k, u.y, u.x), (v: Cell) => UnpoolCells(k, v.y, v.x);
    forall u | u in us ensures EvalAt(pool, m)(u) == Sum(win(u), EvalAt(pool.src, m)) {
      SumOp(pool.op, pool.src, m, u.y, u.x);
    }
    forall v | v in vs ensures EvalAt(unpool, m)(v) == Sum(cov(v), EvalAt(grad, m)) {
      UnpoolIsSum(unpool, m, v);
    }
    PairIsAdjoint(us, vs, win, cov, EvalAt(pool, m), EvalAt(pool.src, m), EvalAt(unpool, m), EvalAt(grad, m));
  }

  /** The cells at which the data has the value top. */
  ghost function Attains(data: Cell -> real, top: real): Cell -> bool {
    (v: Cell) => data(v) == top
  }

  /** The source cells under pooled cell u whose data equals what u holds. */
  ghost function Maximisers(unpool: Exp, m: seq<real>, u: Cell): nat
    requires unpool.UnPooling?
  {
    Count(PoolCells(UnpoolKernel(unpool), u.y, u.x),
          Attains(Element(unpool.dataSrc, m), Element(unpool.dataPooled, m)(u)))
  }

  /** Each pooled gradient times the number of source elements that attain its maximum. */
  ghost function Shares(unpool: Exp, m: seq<real>): Cell -> real
    requires unpool.UnPooling?
  {
    (u: Cell) => Mul(Maximisers(unpool, m, u) as real, Element(unpool.gradPooled, m)(u))
  }

  /** What a source element takes of each pooled gradient. */
  ghost function GradTerms(unpool: Exp, m: seq<real>): Cell -> Cell -> real
    requires unpool.UnPooling?
  {
    (v: Cell) => GradTerm(unpool.red, Element(unpool.dataSrc, m)(v), unpool.dataPooled, unpool.gradPooled, m)
  }

  lemma GradTermsAre(unpool: Exp, m: seq<real>, u: Cell, v: Cell)
    requires unpool.UnPooling? && unpool.red.MaxRed?
    ensures GradTerms(unpool, m)(v)(u)
         == Mul(if Element(unpool.dataSrc, m)(v) == Element(unpool.dataPooled, m)(u) then 1.0 else 0.0,
                Element(unpool.gradPooled, m)(u))
  {}

  lemma SharesAre(unpool: Exp, m: seq<real>, u: Cell)
    requires unpool.UnPooling?
    ensures Shares(unpool, m)(u)
         == Mul(Count(PoolCells(UnpoolKernel(unpool), u.y, u.x),
                      Attains(Element(unpool.dataSrc, m), Element(unpool.dataPooled, m)(u))) as real,
                Element(unpool.gradPooled, m)(u))
  {}

  lemma UnpoolSums(unpool: Exp, m: seq<real>, v: Cell)
    requires unpool.UnPooling?
    ensures EvalAt(unpool, m)(v) == Sum(UnpoolCells(UnpoolKernel(unpool), v.y, v.x), GradTerms(unpool, m)(v))
  {
    var f := GradTerm(unpool.red, At(m, unpool.dataSrc.Addr(v.y, v.x)), unpool.dataPooled, unpool.gradPooled, m);
    UnpoolValue(unpool, m, v.y, v.x, f);
    forall u { GradTermIs(unpool, m, u, v, f); }
    SumExt(UnpoolCells(UnpoolKernel(unpool), v.y, v.x), f, GradTerms(unpool, m)(v));
  }

  lemma UnpoolValue(unpool: Exp, m: seq<real>, y: int, x: int, f: Cell -> real)
    requires unpool.UnPooling?
    requires f == GradTerm(unpool.red, At(m, unpool.dataSrc.Addr(y, x)), unpool.dataPooled, unpool.gradPooled, m)
    ensures EvalAt(unpool, m)(Cell(y, x)) == Sum(UnpoolCells(UnpoolKernel(unpool), y, x), f)
  {}

  lemma GradTermIs(unpool: Exp, m: seq<real>, u: Cell, v: Cell, f: Cell -> real)
    requires unpool.UnPooling?
    requires f == GradTerm(unpool.red, At(m, unpool.dataSrc.Addr(v.y, v.x)), unpool.dataPooled, unpool.gradPooled, m)
    ensures f(u) == GradTerms(unpool, m)(v)(u)
  {
    assert Element(unpool.dataSrc, m)(v) == At(m, unpool.dataSrc.Addr(v.y, v.x));
    assert f(u) == Mul(unpool.red.PartialGrad(Element(unpool.dataSrc, m)(v), Element(unpool.dataPooled, m)(u)),
                       Element(unpool.gradPooled, m)(u));
  }

  /**
    The gradient that max unpooling hands out in total is each pooled gradient times the number of source
    elements that attain its maximum.
   */
  lemma MaxUnpoolTotal(pool: Exp, unpool: Exp, m: seq<real>)
    requires PoolPair(pool, unpool) && unpool.red.MaxRed?
    ensures Sum(CellsOf(unpool), EvalAt(unpool, m))
         == Sum(CellsOf(pool), Shares(unpool, m))
  {
    PoolPairDual(pool, unpool);
    var k := UnpoolKernel(unpool);
    forall u, v { GradTermsAre(unpool, m, u, v); }
    forall u { SharesAre(unpool, m, u); }
    forall v { UnpoolSums(unpool, m, v); }
    CountedPairs(CellsOf(pool), CellsOf(unpool), (u: Cell) => PoolCells(k, u.y, u.x),
                 (v: Cell) => UnpoolCells(k, v.y, v.x),
                 Element(unpool.dataSrc, m), Element(unpool.dataPooled, m), Element(unpool.gradPooled, m),
                 GradTerms(unpool, m), Shares(unpool, m), EvalAt(unpool, m));
  }

  /** Handing grad(u) to every v under u with data(v) == pooled(u) hands out grad(u) once for each such v. */
  lemma CountedPairs(us: seq<Cell>, vs: seq<Cell>, win: Cell -> seq<Cell>, cov: Cell -> seq<Cell>,
                     data: Cell -> real, pooled: Cell -> real, grad: Cell -> real,
                     hc: Cell -> Cell -> real, p: Cell -> real, q: Cell -> real)
    requires Dual(us, vs, win, cov)
    requires forall u, v :: hc(v)(u) == Mul(if data(v) == pooled(u) then 1.0 else 0.0, grad(u))
    requires forall u :: p(u) == Mul(Count(win(u), Attains(data, pooled(u))) as real, grad(u))
    requires forall v :: v in vs ==> q(v) == Sum(cov(v), hc(v))
    ensures Sum(vs, q) == Sum(us, p)
  {
    var hw := (u: Cell) => (v: Cell) => Mul(if data(v) == pooled(u) then 1.0 else 0.0, grad(u));
    forall u | u in us ensures p(u) == Sum(win(u), hw(u)) {
      CountScale(win(u), Attains(data, pooled(u)), grad(u), hw(u));
    }
    DoubleCount(us, vs, win, cov, hw, hc, p, q);
  }

  /**
    Every nonempty window has a maximiser when the pooled tensor holds the pooled data and no datum is below the
    start value.
   */
  lemma MaximiserExists(pool: Exp, unpool: Exp, m: seq<real>, u: Cell)
    requires PoolPair(pool, unpool) && unpool.red.MaxRed? && pool.src == Leaf(unpool.dataSrc)
    requires Element(unpool.dataPooled, m)(u) == Eval(pool, m, u.y, u.x)
    requires var k := UnpoolKernel(unpool);
             |PoolCells(k, u.y, u.x)| > 0 && forall v :: v in PoolCells(k, u.y, u.x) ==>
               unpool.red.initv <= Element(unpool.dataSrc, m)(v)
    ensures Maximisers(unpool, m, u) >= 1
  {
    PoolPairDual(pool, unpool);
    var k, red, data := UnpoolKernel(unpool), unpool.red, Element(unpool.dataSrc, m);
    var cells := PoolCells(k, u.y, u.x);
    MakeTensorIsFold(pool.op, pool.src, m, u.y, u.x);
    FoldExt(red, red.InitV(), cells, EvalAt(pool.src, m), data);
    FoldIsMax(red, red.InitV(), cells, data);
    assert cells[0] in cells;
    CountPositive(cells, Attains(data, Element(unpool.dataPooled, m)(u)));
  }

  function ChannelPool(nsize: nat, a: Exp): Exp { MakeTensor(ChannelPooling(SumRed, nsize), a) }

  /** The cells pooled into a cell. */
  function ChannelWindow(nsize: nat, s: seq<nat>): Cell -> seq<Cell> {
    (u: Cell) => ChannelCells(nsize / 2, Dim(s, 2), Dim(s, 1), u.y, u.x)
  }

  lemma ChannelPoolDual(a: Exp, nsize: nat)
    requires Checked(ChannelPool(nsize, a))
    ensures CellsOf(ChannelPool(nsize, a)) == CellsOf(a)
    ensures Dual(CellsOf(a), CellsOf(a), ChannelWindow(nsize, DimsOf(a)), ChannelWindow(nsize, DimsOf(a)))
  {
    var s := DimsOf(a);
    BatchRows(s);
    ChannelSelfDual(nsize / 2, s[2], s[1], Prod(s, 3, |s|), s[0]);
  }

  lemma ChannelPoolIsSum(a: Exp, nsize: nat, m: seq<real>)
    ensures forall u :: EvalAt(ChannelPool(nsize, a), m)(u) == Sum(ChannelWindow(nsize, DimsOf(a))(u), EvalAt(a, m))
  {
    forall u ensures EvalAt(ChannelPool(nsize, a), m)(u) == Sum(ChannelWindow(nsize, DimsOf(a))(u), EvalAt(a, m)) {
      SumOp(ChannelPooling(SumRed, nsize), a, m, u.y, u.x);
    }
  }

  /** Sum pooling across channels is its own adjoint, on any two expressions of one shape. */
  lemma ChannelPoolSelfAdjoint(a: Exp, b: Exp, nsize: nat, m: seq<real>)
    requires Checked(ChannelPool(nsize, a)) && Checked(ChannelPool(nsize, b)) && DimsOf(a) == DimsOf(b)
    ensures Inner(ChannelPool(nsize, a), b, m) == Inner(a, ChannelPool(nsize, b), m)
  {
    ChannelPoolDual(a, nsize);
    ChannelPoolIsSum(a, nsize, m);
    ChannelPoolIsSum(b, nsize, m);
    var win := ChannelWindow(nsize, DimsOf(a));
    PairIsAdjoint(CellsOf(a), CellsOf(a), win, win, EvalAt(ChannelPool(nsize, a), m), EvalAt(a, m),
                  EvalAt(ChannelPool(nsize, b), m), EvalAt(b, m));
  }
}
