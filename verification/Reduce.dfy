/** Reducing a tensor expression to the vector of one kept dimension, and broadcasting such a vector back. */
module Reduce {
  import opened Adjoints
  import opened Arith
  import opened Assignment
  import opened Expressions
  import opened Grid
  import opened Layout
  import opened Memory
  import opened Plans
  import opened Reducers
  import opened Shapes
  import opened Soundness
  import opened Sums
  import opened Wrappers

  /** BroadcastIndex is the coordinate of a cell in dimension k: the k-th entry of its multi-index. */
  lemma BroadcastIndexIsCoordinate(dims: seq<nat>, k: nat, idx: seq<nat>)
    requires k < |dims| && InDims(dims, idx)
    ensures var c := CellOf(dims, idx); BroadcastIndex(dims, k, c.y, c.x) == idx[k]
  {
    if k > 0 {
      PositionAround(dims, idx, 1, k, |dims|);
      Digits(Join(Position(dims, idx, k + 1, |dims|), dims[k], idx[k]), Position(dims, idx, 1, k), Prod(dims, 1, k));
      Digits(Position(dims, idx, k + 1, |dims|), idx[k], dims[k]);
    }
  }

  // ---- the cells each reduction visits ----

  /** Rows above, along and below the kept dimension, and the row width. */
  datatype Split = Split(above: nat, kept: nat, below: nat, width: nat) {
    function Rows(): nat { above * kept * below }
  }

  function SplitAt(dims: seq<nat>, k: nat): Split
    requires 1 <= k < |dims|
  {
    Split(Prod(dims, k + 1, |dims|), dims[k], Prod(dims, 1, k), dims[0])
  }

  lemma SplitRows(dims: seq<nat>, k: nat)
    requires 1 <= k < |dims|
    ensures SplitAt(dims, k).Rows() == Prod(dims, 1, |dims|)
  {
    ProdSplit(dims, 1, k, |dims|);
    ProdHead(dims, k, |dims|);
  }

  /** Slab n of kept index c: the cells of one pass of the inner loops. */
  function SlabCell(s: Split, n: int, c: int, q: Cell): Cell {
    Cell((n * s.kept + c) * s.below + q.y, q.x)
  }

  function Slab(s: Split, n: int, c: int): seq<Cell> {
    Map(Table(s.below, s.width), q => SlabCell(s, n, c, q))
  }

  /** The cells visited for kept index c before slab n, in loop order. */
  function KeptCells(s: Split, n: nat, c: int): seq<Cell> {
    if n == 0 then [] else KeptCells(s, n - 1, c) + Slab(s, n - 1, c)
  }

  /** The cells of column x, top to bottom. */
  function ColumnCells(rows: nat, x: int): seq<Cell> {
    Map(RowCells(0, 0, rows), (q: Cell) => Cell(q.x, x))
  }

  /** u lies in one of the first n slabs of kept index c. */
  ghost predicate InSlabs(s: Split, n: nat, c: int, u: Cell) {
    && 0 <= u.y && 0 <= u.x < s.width && s.below > 0 && s.kept > 0
    && Rem(Quot(u.y, s.below), s.kept) == c && Quot(Quot(u.y, s.below), s.kept) < n
  }

  lemma SlabDigits(s: Split, n: nat, c: nat, q: Cell)
    requires c < s.kept && InTable(q, s.below, s.width)
    ensures var u := SlabCell(s, n, c, q);
            0 <= u.y && Rem(u.y, s.below) == q.y && Rem(Quot(u.y, s.below), s.kept) == c &&
              Quot(Quot(u.y, s.below), s.kept) == n
  {
    Digits(n * s.kept + c, q.y, s.below);
    Digits(n, c, s.kept);
    MulMono(0, n, s.kept);
    MulMono(0, n * s.kept + c, s.below);
  }

  lemma SlabIs(s: Split, n: nat, c: nat)
    requires c < s.kept
    ensures NoDup(Slab(s, n, c))
    ensures forall u :: u in Slab(s, n, c) <==> InSlabs(s, n + 1, c, u) && !InSlabs(s, n, c, u)
  {
    var qs, f := Table(s.below, s.width), (q: Cell) => SlabCell(s, n, c, q);
    RectVisits(0, s.below, 0, s.width);
    forall q | q in qs
      ensures InSlabs(s, n + 1, c, f(q)) && !InSlabs(s, n, c, f(q)) && Rem(f(q).y, s.below) == q.y
    {
      SlabDigits(s, n, c, q);
    }
    NoDupMap(qs, f);
    forall u | InSlabs(s, n + 1, c, u) && !InSlabs(s, n, c, u) ensures u in Slab(s, n, c) {
      var q := Cell(Rem(u.y, s.below), u.x);
      assert u.y == Quot(u.y, s.below) * s.below + q.y;
      assert Quot(u.y, s.below) == n * s.kept + c;
      assert q in qs;
      var i :| 0 <= i < |qs| && qs[i] == q;
      assert Slab(s, n, c)[i] == u;
    }
    assert Map(qs, f) == Slab(s, n, c);
  }

  lemma {:induction false} KeptCellsAre(s: Split, n: nat, c: nat)
    requires c < s.kept
    ensures NoDup(KeptCells(s, n, c))
    ensures forall u :: u in KeptCells(s, n, c) <==> InSlabs(s, n, c, u)
  {
    if n == 0 {
      forall u | InSlabs(s, 0, c, u) ensures false {
        QuotNat(u.y, s.below);
        QuotNat(Quot(u.y, s.below), s.kept);
      }
    } else {
      KeptCellsAre(s, n - 1, c);
      SlabIs(s, n - 1, c);
      NoDupConcat(KeptCells(s, n - 1, c), Slab(s, n - 1, c));
      forall u | InSlabs(s, n - 1, c, u) ensures InSlabs(s, n, c, u) {
      }
    }
  }

  lemma QuotNat(a: nat, b: nat)
    ensures Quot(a, b) >= 0
  {
  }

  /** The cells reduced into element c of the result: the kept dimension k fixed at c. */
  function ReduceCells(dims: seq<nat>, k: nat, c: int): seq<Cell>
    requires k < |dims|
  {
    if k == 0 then ColumnCells(Prod(dims, 1, |dims|), c)
    else KeptCells(SplitAt(dims, k), SplitAt(dims, k).above, c)
  }

  /** Every cell with coordinate c in dimension k is visited, exactly once, and no other. */
  lemma ReduceVisitsOnce(dims: seq<nat>, k: nat, c: nat)
    requires k < |dims| && c < dims[k]
    ensures NoDup(ReduceCells(dims, k, c))
    ensures forall u: Cell :: u in ReduceCells(dims, k, c) <==>
            InDimsTable(dims, u.y, u.x) && BroadcastIndex(dims, k, u.y, u.x) == c
  {
    var rows := Prod(dims, 1, |dims|);
    if k == 0 {
      var qs, f := RowCells(0, 0, rows), (q: Cell) => Cell(q.x, c);
      NoDupMap(qs, f);
      forall u: Cell | InDimsTable(dims, u.y, u.x) && u.x == c ensures u in Map(qs, f) {
        assert Map(qs, f)[u.y] == u;
      }
      assert ReduceCells(dims, k, c) == Map(qs, f);
    } else {
      var s := SplitAt(dims, k);
      KeptCellsAre(s, s.above, c);
      SplitRows(dims, k);
      forall u ensures InSlabs(s, s.above, c, u) <==>
        InDimsTable(dims, u.y, u.x) && BroadcastIndex(dims, k, u.y, u.x) == c {
        RowRange(s, c, u);
      }
    }
  }

  lemma RowRange(s: Split, c: nat, u: Cell)
    requires c < s.kept
    ensures InSlabs(s, s.above, c, u) <==>
            InTable(u, s.Rows(), s.width) && Rem(Quot(u.y, s.below), s.kept) == c
  {
    if InTable(u, s.Rows(), s.width) {
      MulMono(0, s.above, s.kept);
      SplitBound(u.y, s.above * s.kept, s.below);
      SplitBound(Quot(u.y, s.below), s.above, s.kept);
    }
    if InSlabs(s, s.above, c, u) {
      var q, r := Quot(u.y, s.below), Rem(u.y, s.below);
      QuotNat(u.y, s.below);
      QuotNat(q, s.kept);
      assert q == Quot(q, s.kept) * s.kept + c;
      DigitsBound(Quot(q, s.kept), c, s.above, s.kept);
      assert u.y == q * s.below + r;
      DigitsBound(q, r, s.above * s.kept, s.below);
    }
  }

  lemma CoordinateInRange(dims: seq<nat>, k: nat, u: Cell)
    requires k < |dims| && InDimsTable(dims, u.y, u.x)
    ensures 0 <= BroadcastIndex(dims, k, u.y, u.x) < dims[k]
  {
    NonzeroDims(dims, u.y, u.x, 0, 0);
  }

  function CoordinateCell(dims: seq<nat>, k: nat): Cell -> seq<Cell> {
    (u: Cell) => [Cell(0, BroadcastIndex(dims, k, u.y, u.x))]
  }

  function ReducedCells(dims: seq<nat>, k: nat): Cell -> seq<Cell>
    requires k < |dims|
  {
    (v: Cell) => ReduceCells(dims, k, v.x)
  }

  /** Broadcasting along dimension k and summing over all dimensions but k are dual. */
  lemma BroadcastReduceDual(dims: seq<nat>, k: nat)
    requires k < |dims|
    ensures Dual(Table(Prod(dims, 1, |dims|), dims[0]), Table(1, dims[k]), CoordinateCell(dims, k),
                 ReducedCells(dims, k))
  {
    RectVisits(0, Prod(dims, 1, |dims|), 0, dims[0]);
    RectVisits(0, 1, 0, dims[k]);
    var win, cov := CoordinateCell(dims, k), ReducedCells(dims, k);
    forall u: Cell | InDimsTable(dims, u.y, u.x) ensures forall v :: v in win(u) ==> InTable(v, 1, dims[k]) {
      CoordinateInRange(dims, k, u);
    }
    forall v | InTable(v, 1, dims[k])
      ensures NoDup(cov(v))
      ensures forall u: Cell :: u in cov(v) <==> InDimsTable(dims, u.y, u.x) && v in win(u)
    {
      ReduceVisitsOnce(dims, k, v.x);
    }
  }

  /** A broadcast reads the one cell of its vector. */
  lemma BroadcastReads(vec: Tensor, dims: seq<nat>, k: nat, m: seq<real>, u: Cell, f: Cell -> real)
    requires k < |dims| && forall v: Cell :: f(v) == At(m, vec.dptr + v.x)
    ensures EvalAt(Broadcast1D(vec, dims, k), m)(u) == Sum(CoordinateCell(dims, k)(u), f)
  {
    var c := Cell(0, BroadcastIndex(dims, k, u.y, u.x));
    SumSnoc([], c, f);
    assert [] + [c] == [c];
  }

  /** The pairing of a broadcast with g is the pairing of its vector with the sums of g. */
  lemma BroadcastReducePair(dims: seq<nat>, k: nat, fwd: Cell -> real, f: Cell -> real, g: Cell -> real,
                            out: Cell -> real)
    requires k < |dims| && forall u :: fwd(u) == Sum(CoordinateCell(dims, k)(u), f)
    requires forall v: Cell :: out(v) == Mul(f(v), Sum(ReduceCells(dims, k, v.x), g))
    ensures Sum(Table(Prod(dims, 1, |dims|), dims[0]), Times(fwd, g)) == Sum(Table(1, dims[k]), out)
  {
    BroadcastReduceDual(dims, k);
    var vs, bwd := Table(1, dims[k]), (v: Cell) => Sum(ReduceCells(dims, k, v.x), g);
    PairIsAdjoint(Table(Prod(dims, 1, |dims|), dims[0]), vs, CoordinateCell(dims, k), ReducedCells(dims, k), fwd, f,
                  bwd, g);
    SumExt(vs, Times(f, bwd), out);
  }

  /** sumall_except_dim<k> is the adjoint of broadcast<k>. */
  lemma BroadcastReduceAdjoint(vec: Tensor, e: Exp, k: nat, m: seq<real>)
    requires Checked(e) && Checked(Broadcast1D(vec, DimsOf(e), k))
    ensures k < |DimsOf(e)|
    ensures Inner(Broadcast1D(vec, DimsOf(e), k), e, m)
         == Sum(Table(1, DimsOf(e)[k]),
                (v: Cell) => Mul(At(m, vec.dptr + v.x), Sum(ReduceCells(DimsOf(e), k, v.x), EvalAt(e, m))))
  {
    var b, dims := Broadcast1D(vec, DimsOf(e), k), DimsOf(e);
    assert DimsOf(b) == dims;
    var f := (v: Cell) => At(m, vec.dptr + v.x);
    forall u { BroadcastReads(vec, dims, k, m, u, f); }
    BroadcastReducePair(dims, k, EvalAt(b, m), f, EvalAt(e, m),
                        (v: Cell) => Mul(At(m, vec.dptr + v.x), Sum(ReduceCells(DimsOf(e), k, v.x), EvalAt(e, m))));
  }

  // ---- the reductions as they run ----

  /** The reduction of f over cells, from the start value. */
  ghost function Reduced(red: Reducer, cells: seq<Cell>, f: Cell -> real): real {
    Fold(red, red.InitV(), cells, f)
  }

  /** The reduction of f over cells, the first of them starting the fold. */
  ghost function ReducedFromFirst(red: Reducer, cells: seq<Cell>, f: Cell -> real): real {
    if |cells| == 0 then red.InitV() else Fold(red, f(cells[0]), cells[1..], f)
  }

  /** What reducing f over all dimensions but k >= 1 of dims stores at element c of dst. */
  ghost function HighValue(m0: seq<real>, dst: Tensor, sv: Saver, red: Reducer, dims: seq<nat>, k: nat, f: Cell -> real,
                           scale: real): Cell -> real
    requires k < |dims|
  {
    (v: Cell) => sv(At(m0, dst.Addr(v.y, v.x)), Mul(Reduced(red, ReduceCells(dims, k, v.x), f), scale))
  }

  /** What reducing f over all dimensions but the lowest of dims stores at element x of dst. */
  ghost function LowestValue(m0: seq<real>, dst: Tensor, sv: Saver, red: Reducer, dims: seq<nat>, f: Cell -> real,
                             scale: real): Cell -> real
    requires |dims| > 0
  {
    (v: Cell) => sv(At(m0, dst.Addr(v.y, v.x)), Mul(ReducedFromFirst(red, ReduceCells(dims, 0, v.x), f), scale))
  }

  /** dst is a vector in memory, e is checked, its tensors are in memory and apart from dst. */
  ghost predicate CanReduce(e: Exp, dst: Tensor, n: int) {
    && |dst.shape.dims| == 1 && Injective(dst) && Fits(dst, n)
    && Obligations(e) && AllTensors(e, (t: Tensor) => Fits(t, n)) && AllTensors(e, (t: Tensor) => Disjoint(t, dst))
  }

  /** Only elements of dst differ. */
  ghost predicate SameOutside(dst: Tensor, m0: seq<real>, m: seq<real>) {
    forall a :: Outside(dst, a) ==> At(m, a) == At(m0, a)
  }

  /** While only dst is being written, e is readable and has its original value at every cell of its shape. */
  lemma CellUnseen(e: Exp, dst: Tensor, m0: seq<real>, m: seq<real>, c: Cell)
    requires CanReduce(e, dst, |m0|) && Checked(e) && InDimsTable(DimsOf(e), c.y, c.x)
    requires SameOutside(dst, m0, m)
    ensures AllReads(e, c.y, c.x, Readable(|m0|)) && EvalAt(e, m)(c) == EvalAt(e, m0)(c)
  {
    ReadsInBounds(e, c.y, c.x);
    TensorReads(e, c.y, c.x, (t: Tensor) => Fits(t, |m0|), InStorage, Readable(|m0|));
    TensorReads(e, c.y, c.x, (t: Tensor) => Disjoint(t, dst), InStorage,
                (t: Tensor, r: int, i: int) => SameAt(m0, m, t, r, i));
    EvalDependsOnReads(e, m0, m, c.y, c.x);
  }

  /** The slab cells of a checked expression are cells of its shape. */
  lemma SlabInShape(dims: seq<nat>, k: nat, n: nat, c: nat, q: Cell)
    requires 1 <= k < |dims| && n < SplitAt(dims, k).above && c < dims[k] && InTable(q, SplitAt(dims, k).below, dims[0])
    ensures var u := SlabCell(SplitAt(dims, k), n, c, q); InDimsTable(dims, u.y, u.x)
  {
    var s := SplitAt(dims, k);
    SplitRows(dims, k);
    DigitsBound(n, c, s.above, s.kept);
    DigitsBound(n * s.kept + c, q.y, s.above * s.kept, s.below);
  }

  /** One pass of the inner loops: the fold of slab n, from the original memory. */
  method ReduceSlab(mem: array<real>, ghost m0: seq<real>, red: Reducer, k: nat, e: Exp, ghost dst: Tensor, n: nat,
                    c: nat)
    returns (tres: real)
    requires mem.Length == |m0| && CanReduce(e, dst, |m0|) && Checked(e) && 1 <= k < |DimsOf(e)|
    requires n < SplitAt(DimsOf(e), k).above && c < DimsOf(e)[k]
    requires SameOutside(dst, m0, mem[..])
    ensures tres == Fold(red, red.InitV(), Slab(SplitAt(DimsOf(e), k), n, c), EvalAt(e, m0))
  {
    var s := SplitAt(DimsOf(e), k);
    var at := (q: Cell) => SlabCell(s, n, c, q);
    forall q | InRect(q, 0, s.below, 0, s.width)
      ensures CanEval(e, mem, at(q).y, at(q).x) && EvalAt(e, mem[..])(at(q)) == EvalAt(e, m0)(at(q))
    {
      SlabInShape(DimsOf(e), k, n, c, q);
      CellUnseen(e, dst, m0, mem[..], at(q));
    }
    tres := FoldRect(red, e, mem, 0, s.below, 0, s.width, at);
    RectVisits(0, s.below, 0, s.width);
    assert Slab(s, n, c) == Map(Table(s.below, s.width), at);
    forall u | u in Slab(s, n, c) ensures EvalAt(e, mem[..])(u) == EvalAt(e, m0)(u) {
      var i :| 0 <= i < |Slab(s, n, c)| && Slab(s, n, c)[i] == u;
      assert Table(s.below, s.width)[i] in Table(s.below, s.width);
    }
    FoldExt(red, red.InitV(), Slab(s, n, c), EvalAt(e, mem[..]), EvalAt(e, m0));
  }

  /** The two outer loops for one element of the result. */
  method ReduceOne(mem: array<real>, ghost m0: seq<real>, red: Reducer, dims: seq<nat>, k: nat, e: Exp,
                   ghost dst: Tensor, c: nat)
    returns (res: real)
    requires mem.Length == |m0| && CanReduce(e, dst, |m0|) && Checked(e) && dims == DimsOf(e) && 1 <= k < |dims| &&
             c < dims[k]
    requires SameOutside(dst, m0, mem[..])
    ensures res == Reduced(red, ReduceCells(dims, k, c), EvalAt(e, m0))
  {
    var s := SplitAt(dims, k);
    ghost var f := EvalAt(e, m0);
    res := red.InitV();
    NoSlabs(red, s, c, f);
    for n := 0 to s.above
      invariant SlabsDone(red, s, n, c, f, res)
    {
      var tres := ReduceSlab(mem, m0, red, k, e, dst, n, c);
      SlabAdded(red, s, n, c, f, res, tres);
      res := red.Reduce(res, tres);
    }
    AllSlabs(red, dims, k, c, f, res);
  }

  /** res is the reduction of the first n slabs. */
  ghost predicate SlabsDone(red: Reducer, s: Split, n: nat, c: int, f: Cell -> real, res: real) {
    res == Reduced(red, KeptCells(s, n, c), f) && (red.MaxRed? ==> red.initv <= res)
  }

  lemma NoSlabs(red: Reducer, s: Split, c: int, f: Cell -> real)
    ensures SlabsDone(red, s, 0, c, f, red.InitV())
  {}

  lemma AllSlabs(red: Reducer, dims: seq<nat>, k: nat, c: int, f: Cell -> real, res: real)
    requires 1 <= k < |dims| && SlabsDone(red, SplitAt(dims, k), SplitAt(dims, k).above, c, f, res)
    ensures res == Reduced(red, ReduceCells(dims, k, c), f)
  {}

  lemma SlabAdded(red: Reducer, s: Split, n: nat, c: int, f: Cell -> real, res: real, tres: real)
    requires SlabsDone(red, s, n, c, f, res) && tres == Reduced(red, Slab(s, n, c), f)
    ensures SlabsDone(red, s, n + 1, c, f, red.Reduce(res, tres))
  {
    FoldNested(red, res, Slab(s, n, c), f);
    FoldConcat(red, red.InitV(), KeptCells(s, n, c), Slab(s, n, c), f);
  }

  /** Storing one element of a vector result. */
  method StoreElement(mem: array<real>, ghost m0: seq<real>, dst: Tensor, sv: Saver, ghost newv: Cell -> real, c: nat,
                      v: real)
    requires |dst.shape.dims| == 1 && Injective(dst) && Fits(dst, mem.Length) && c < dst.shape.dims[0]
    requires Progress(m0, mem[..], dst, newv, 0, c) && newv(Cell(0, c)) == sv(At(m0, dst.Addr(0, c)), v)
    modifies mem
    ensures Progress(m0, mem[..], dst, newv, 0, c + 1)
  {
    ghost var m1 := mem[..];
    assert InStorage(dst, 0, c);
    var w := sv(mem[dst.dptr + c], v);
    mem[dst.dptr + c] := w;
    ProgressStep(m0, m1, mem[..], dst, newv, 0, c, dst.dptr + c, w);
  }

  lemma VectorDone(m0: seq<real>, m: seq<real>, dst: Tensor, newv: Cell -> real)
    requires |dst.shape.dims| == 1 && Progress(m0, m, dst, newv, 0, dst.shape.dims[0])
    ensures Stored(m0, m, dst, newv)
  {
    assert dst.shape.Rows() == 1;
    ProgressRow(m0, m, dst, newv, 0);
    ProgressDone(m0, m, dst, newv);
  }

  /** dst = sv(dst, scale * reduce(e)) keeping dimension k >= 1. */
  method MapReduceKeepHighDim(mem: array<real>, dst: Tensor, sv: Saver, red: Reducer, k: nat, e: Exp, scale: real)
    returns (ok: bool)
    requires CanReduce(e, dst, mem.Length) && k >= 1
    modifies mem
    ensures ok <==> KDim(e) > k && Checked(e) && DimsOf(e)[k] == dst.shape.dims[0]
    ensures if ok then Stored(old(mem[..]), mem[..], dst,
                              HighValue(old(mem[..]), dst, sv, red, DimsOf(e), k, EvalAt(e, old(mem[..])), scale))
            else mem[..] == old(mem[..])
  {
    ok := KDim(e) > k && ShapeCheck(e, KDim(e)).Some? && DimsOf(e)[k] == dst.shape.dims[0];
    if ok {
      ReduceHighLoop(mem, dst, sv, red, DimsOf(e), k, e, scale);
    }
  }

  method ReduceHighLoop(mem: array<real>, dst: Tensor, sv: Saver, red: Reducer, dims: seq<nat>, k: nat, e: Exp,
                        scale: real)
    requires CanReduce(e, dst, mem.Length) && Checked(e) && dims == DimsOf(e) && 1 <= k < |dims| &&
             dims[k] == dst.shape.dims[0]
    modifies mem
    ensures Stored(old(mem[..]), mem[..], dst,
                   HighValue(old(mem[..]), dst, sv, red, dims, k, EvalAt(e, old(mem[..])), scale))
  {
    ghost var m0 := mem[..];
    ghost var newv := HighValue(m0, dst, sv, red, dims, k, EvalAt(e, m0), scale);
    for c := 0 to dims[k]
      invariant Progress(m0, mem[..], dst, newv, 0, c)
    {
      var res := ReduceOne(mem, m0, red, dims, k, e, dst, c);
      StoreElement(mem, m0, dst, sv, newv, c, Mul(res, scale));
    }
    VectorDone(m0, mem[..], dst, newv);
  }

  /** The value of e at a cell, from the original memory. */
  method EvalUnseen(mem: array<real>, ghost m0: seq<real>, e: Exp, ghost dst: Tensor, y: nat, x: nat) returns (v: real)
    requires mem.Length == |m0| && CanReduce(e, dst, |m0|) && Checked(e) && InDimsTable(DimsOf(e), y, x)
    requires SameOutside(dst, m0, mem[..])
    ensures v == EvalAt(e, m0)(Cell(y, x))
  {
    CellUnseen(e, dst, m0, mem[..], Cell(y, x));
    v := EvalPlan(e, mem, y, x);
  }

  /** Column x of e, reduced from its first element down. */
  method ReduceColumn(mem: array<real>, ghost m0: seq<real>, red: Reducer, dims: seq<nat>, e: Exp, ghost dst: Tensor,
                      rows: nat, x: nat)
    returns (res: real)
    requires mem.Length == |m0| && CanReduce(e, dst, |m0|) && Checked(e) && dims == DimsOf(e)
    requires |dims| >= 1 && rows == Prod(dims, 1, |dims|) > 0 && x < dims[0]
    requires SameOutside(dst, m0, mem[..])
    ensures res == ReducedFromFirst(red, ReduceCells(dims, 0, x), EvalAt(e, m0))
  {
    ghost var f := EvalAt(e, m0);
    res := EvalUnseen(mem, m0, e, dst, 0, x);
    FirstRow(red, rows, x, f);
    for y := 1 to rows
      invariant RowsDone(red, rows, x, y, f, res)
    {
      var v := EvalUnseen(mem, m0, e, dst, y, x);
      RowAdded(red, rows, x, y, f, res, v);
      res := red.Reduce(res, v);
    }
    AllRows(red, dims, rows, x, f, res);
  }

  /** res is the reduction of the first y cells of the column. */
  ghost predicate RowsDone(red: Reducer, rows: nat, x: int, y: nat, f: Cell -> real, res: real) {
    1 <= y <= rows && res == Fold(red, f(Cell(0, x)), ColumnCells(rows, x)[1..y], f)
  }

  lemma FirstRow(red: Reducer, rows: nat, x: int, f: Cell -> real)
    requires rows > 0
    ensures RowsDone(red, rows, x, 1, f, f(Cell(0, x)))
  {
    assert ColumnCells(rows, x)[1..1] == [];
  }

  lemma RowAdded(red: Reducer, rows: nat, x: int, y: nat, f: Cell -> real, res: real, v: real)
    requires RowsDone(red, rows, x, y, f, res) && y < rows && v == f(Cell(y, x))
    ensures RowsDone(red, rows, x, y + 1, f, red.Reduce(res, v))
  {
    var cells := ColumnCells(rows, x);
    assert cells[1..y + 1] == cells[1..y] + [Cell(y, x)];
    FoldSnoc(red, f(Cell(0, x)), cells[1..y], Cell(y, x), f);
  }

  lemma AllRows(red: Reducer, dims: seq<nat>, rows: nat, x: int, f: Cell -> real, res: real)
    requires |dims| >= 1 && rows == Prod(dims, 1, |dims|) && RowsDone(red, rows, x, rows, f, res)
    ensures res == ReducedFromFirst(red, ReduceCells(dims, 0, x), f)
  {
    var cells := ColumnCells(rows, x);
    assert cells[0] == Cell(0, x) && cells[1..rows] == cells[1..];
  }

  /** dst = sv(dst, scale * reduce(e)) keeping the lowest dimension. */
  method MapReduceKeepLowest(mem: array<real>, dst: Tensor, sv: Saver, red: Reducer, e: Exp, scale: real)
    returns (ok: bool)
    requires CanReduce(e, dst, mem.Length)
    modifies mem
    ensures ok <==> KDim(e) > 1 && Checked(e) && DimsOf(e)[0] == dst.shape.dims[0] && ProdFrom(DimsOf(e), 1) != 0
    ensures if ok then Stored(old(mem[..]), mem[..], dst,
                              LowestValue(old(mem[..]), dst, sv, red, DimsOf(e), EvalAt(e, old(mem[..])), scale))
            else mem[..] == old(mem[..])
  {
    ok := KDim(e) > 1 && ShapeCheck(e, KDim(e)).Some? && DimsOf(e)[0] == dst.shape.dims[0] &&
      ProdFrom(DimsOf(e), 1) != 0;
    if ok {
      ReduceLowestLoop(mem, dst, sv, red, DimsOf(e), e, scale);
    }
  }

  method ReduceLowestLoop(mem: array<real>, dst: Tensor, sv: Saver, red: Reducer, dims: seq<nat>, e: Exp, scale: real)
    requires CanReduce(e, dst, mem.Length) && Checked(e) && dims == DimsOf(e)
    requires |dims| >= 1 && dims[0] == dst.shape.dims[0] && Prod(dims, 1, |dims|) != 0
    modifies mem
    ensures Stored(old(mem[..]), mem[..], dst,
                   LowestValue(old(mem[..]), dst, sv, red, dims, EvalAt(e, old(mem[..])), scale))
  {
    ghost var m0 := mem[..];
    ghost var newv := LowestValue(m0, dst, sv, red, dims, EvalAt(e, m0), scale);
    for x := 0 to dims[0]
      invariant Progress(m0, mem[..], dst, newv, 0, x)
    {
      var res := ReduceColumn(mem, m0, red, dims, e, dst, Prod(dims, 1, |dims|), x);
      StoreElement(mem, m0, dst, sv, newv, x, Mul(res, scale));
    }
    VectorDone(m0, mem[..], dst, newv);
  }

  /** With the sum reducer both reductions are the sum over every cell whose coordinate is kept. */
  lemma ReductionsSum(cells: seq<Cell>, f: Cell -> real)
    ensures Reduced(SumRed, cells, f) == ReducedFromFirst(SumRed, cells, f) == Sum(cells, f)
  {
    FoldIsSum(0.0, cells, f);
    if |cells| > 0 { FoldFromFirst(SumRed, cells, f); }
  }

  /** With the maximum reducer both are the greatest element, when no datum is below the start value. */
  lemma ReductionsMax(red: Reducer, cells: seq<Cell>, f: Cell -> real)
    requires red.MaxRed? && |cells| > 0 && forall c :: c in cells ==> red.initv <= f(c)
    ensures Reduced(red, cells, f) == ReducedFromFirst(red, cells, f)
    ensures forall c :: c in cells ==> f(c) <= Reduced(red, cells, f)
    ensures exists c :: c in cells && f(c) == Reduced(red, cells, f)
  {
    FoldIsMax(red, red.InitV(), cells, f);
    FoldFromFirst(red, cells, f);
    assert cells[0] in cells;
  }
}
