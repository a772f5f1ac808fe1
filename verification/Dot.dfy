/**
  Matrix products through column-major BLAS routines called with swapped operands. Gemm, Gemv and Ger stand
  for the Level 3 and Level 2 BLAS routines of those names, which are trusted to compute what they specify.
 */
module Dot {
  import opened Grid
  import opened Memory
  import opened Shapes
  import opened Sums

  function Range(n: nat): seq<int> { seq(n, i => i) }

  lemma SumStep(l: nat, f: int -> real)
    ensures Sum(Range(l + 1), f) == Sum(Range(l), f) + f(l)
  {
    assert Range(l + 1) == Range(l) + [l];
    SumSnoc(Range(l), l, f);
  }

  /** The savers that BLAS can implement, with their alpha and beta. */
  datatype Saver = SaveTo | PlusTo | MinusTo {
    function Save(a: real, b: real): real {
      match this
      case SaveTo => b
      case PlusTo => a + b
      case MinusTo => a - b
    }
    function Alpha(): real { if this == MinusTo then -1.0 else 1.0 }
    function Beta(): real { if this == SaveTo then 0.0 else 1.0 }
  }

  /** BLAS's update of an element that held c. */
  function Update(alpha: real, s: real, beta: real, c: real): real {
    alpha * s + beta * c
  }

  /** alpha and beta make BLAS's update the saver's. */
  lemma AlphaBeta(sv: Saver, scale: real, c: real, s: real)
    ensures Update(Mul(scale, sv.Alpha()), s, sv.Beta(), c) == sv.Save(c, Mul(scale, s))
  {
    if sv == MinusTo { assert scale * -1.0 * s == -(scale * s); }
  }

  /** Element (i, j) of op(M), M being stored column by column from ptr with leading dimension ld. */
  function OpElem(m: seq<real>, ptr: int, ld: int, trans: bool, i: int, j: int): real {
    if trans then At(m, ptr + i * ld + j) else At(m, ptr + j * ld + i)
  }

  /** The storage of M where op(M) is rows x cols, as a row-major view. */
  function OpView(ptr: nat, ld: nat, trans: bool, rows: nat, cols: nat): Tensor {
    Tensor(ptr, Shape(if trans then [cols, rows] else [rows, cols], ld))
  }

  /** BLAS takes the stride of t for a leading dimension: at least 1, and at least the length of a stored column. */
  predicate Leading(t: Tensor) {
    Injective(t) && t.shape.stride >= 1
  }

  lemma ViewStorage(t: Tensor, r: int, c: int)
    requires |t.shape.dims| <= 2
    ensures |t.shape.dims| == 2 ==> (InStorage(t, r, c) <==> 0 <= r < t.shape.dims[1] && 0 <= c < t.shape.dims[0])
    ensures |t.shape.dims| == 1 ==> (InStorage(t, r, c) <==> r == 0 && 0 <= c < t.shape.dims[0])
  {
    if |t.shape.dims| == 2 { assert Prod(t.shape.dims, 1, 1) == 1; }
  }

  function GemmTerm(m: seq<real>, transa: bool, transb: bool, a: int, lda: int, b: int, ldb: int, i: int,
                    j: int): int -> real {
    l => Mul(OpElem(m, a, lda, transa, i, l), OpElem(m, b, ldb, transb, l, j))
  }

  /** What GEMM leaves in row i, column j of C (cell (j, i) of its row-major view). */
  function GemmValue(m: seq<real>, transa: bool, transb: bool, k: nat, alpha: real, a: int, lda: int, b: int, ldb: int,
                     beta: real, c: int, ldc: int): Cell -> real
  {
    (q: Cell) => Update(alpha, Sum(Range(k), GemmTerm(m, transa, transb, a, lda, b, ldb, q.x, q.y)), beta,
                        At(m, c + q.y * ldc + q.x))
  }

  /** Row i of op(A) times column j of op(B), while the output view is being overwritten. */
  method InnerProduct(mem: array<real>, ghost m0: seq<real>, ghost view: Tensor, transa: bool, transb: bool, m: nat,
                      n: nat, k: nat,
                      a: nat, lda: nat, b: nat, ldb: nat, i: nat, j: nat)
    returns (s: real)
    requires i < m && j < n && mem.Length == |m0|
    requires Fits(OpView(a, lda, transa, m, k), |m0|) && Disjoint(OpView(a, lda, transa, m, k), view)
    requires Fits(OpView(b, ldb, transb, k, n), |m0|) && Disjoint(OpView(b, ldb, transb, k, n), view)
    requires forall p :: Outside(view, p) ==> At(mem[..], p) == At(m0, p)
    ensures s == Sum(Range(k), GemmTerm(m0, transa, transb, a, lda, b, ldb, i, j))
  {
    s := 0.0;
    for l := 0 to k
      invariant s == Sum(Range(l), GemmTerm(m0, transa, transb, a, lda, b, ldb, i, j))
    {
      OpRead(m0, mem[..], a, lda, transa, m, k, view, i, l);
      OpRead(m0, mem[..], b, ldb, transb, k, n, view, l, j);
      var x := mem[if transa then a + i * lda + l else a + l * lda + i];
      var y := mem[if transb then b + l * ldb + j else b + j * ldb + l];
      SumStep(l, GemmTerm(m0, transa, transb, a, lda, b, ldb, i, j));
      s := s + Mul(x, y);
    }
  }

  /** The operands of GEMM are in memory and apart from the output view. */
  ghost predicate GemmOperands(transa: bool, transb: bool, m: nat, n: nat, k: nat, a: nat, lda: nat, b: nat, ldb: nat,
                               view: Tensor, len: int) {
    && Fits(OpView(a, lda, transa, m, k), len) && Fits(OpView(b, ldb, transb, k, n), len)
    && Disjoint(OpView(a, lda, transa, m, k), view) && Disjoint(OpView(b, ldb, transb, k, n), view)
    && Leading(OpView(a, lda, transa, m, k)) && Leading(OpView(b, ldb, transb, k, n)) && Leading(view)
  }

  lemma CellPlace(c: nat, ldc: nat, m: nat, n: nat, i: nat, j: nat, p: int)
    requires m <= ldc && i < m && j < n && p == c + j * ldc + i
    ensures var view := OpView(c, ldc, false, m, n);
            Injective(view) && InStorage(view, j, i) && view.Addr(j, i) == p
  {
    ViewStorage(OpView(c, ldc, false, m, n), j, i);
  }

  lemma GemmValueAt(m0: seq<real>, transa: bool, transb: bool, k: nat, alpha: real, a: int, lda: int, b: int, ldb: int,
                    beta: real, c: int, ldc: int, i: int, j: int, p: int, s: real, u: real)
    requires p == c + j * ldc + i && u == At(m0, p)
    requires s == Sum(Range(k), GemmTerm(m0, transa, transb, a, lda, b, ldb, i, j))
    ensures GemmValue(m0, transa, transb, k, alpha, a, lda, b, ldb, beta, c, ldc)(Cell(j, i)) ==
            Update(alpha, s, beta, u)
  {}

  /** The update of one element of C. */
  method GemmCell(mem: array<real>, ghost m0: seq<real>, transa: bool, transb: bool, m: nat, n: nat, k: nat,
                  alpha: real,
                  a: nat, lda: nat, b: nat, ldb: nat, beta: real, c: nat, ldc: nat, i: nat, j: nat)
    requires m <= ldc && i < m && j < n && Fits(OpView(c, ldc, false, m, n), mem.Length)
    requires GemmOperands(transa, transb, m, n, k, a, lda, b, ldb, OpView(c, ldc, false, m, n), mem.Length)
    requires Progress(m0, mem[..], OpView(c, ldc, false, m, n),
                      GemmValue(m0, transa, transb, k, alpha, a, lda, b, ldb, beta, c, ldc), j, i)
    modifies mem
    ensures Progress(m0, mem[..], OpView(c, ldc, false, m, n),
                     GemmValue(m0, transa, transb, k, alpha, a, lda, b, ldb, beta, c, ldc), j, i + 1)
  {
    ghost var m1 := mem[..];
    ghost var view := OpView(c, ldc, false, m, n);
    ghost var newv := GemmValue(m0, transa, transb, k, alpha, a, lda, b, ldb, beta, c, ldc);
    var s := InnerProduct(mem, m0, view, transa, transb, m, n, k, a, lda, b, ldb, i, j);
    var p := c + j * ldc + i;
    CellPlace(c, ldc, m, n, i, j, p);
    Pending(m0, m1, view, newv, j, i, p);
    var u := mem[p];
    GemmValueAt(m0, transa, transb, k, alpha, a, lda, b, ldb, beta, c, ldc, i, j, p, s, u);
    var v := Update(alpha, s, beta, u);
    mem[p] := v;
    ProgressStep(m0, m1, mem[..], view, newv, j, i, p, v);
  }

  /** C := alpha * op(A) * op(B) + beta * C, with op(A) m x k, op(B) k x n, all column-major. */
  method Gemm(mem: array<real>, transa: bool, transb: bool, m: nat, n: nat, k: nat, alpha: real,
              a: nat, lda: nat, b: nat, ldb: nat, beta: real, c: nat, ldc: nat)
    requires Fits(OpView(c, ldc, false, m, n), mem.Length)
    requires GemmOperands(transa, transb, m, n, k, a, lda, b, ldb, OpView(c, ldc, false, m, n), mem.Length)
    modifies mem
    ensures Stored(old(mem[..]), mem[..], OpView(c, ldc, false, m, n),
                   GemmValue(old(mem[..]), transa, transb, k, alpha, a, lda, b, ldb, beta, c, ldc))
  {
    ghost var m0 := mem[..];
    ghost var view := OpView(c, ldc, false, m, n);
    ghost var newv := GemmValue(m0, transa, transb, k, alpha, a, lda, b, ldb, beta, c, ldc);
    ViewStorage(view, 0, 0);
    assert view.shape.Rows() == n by { assert Prod(view.shape.dims, 1, 1) == 1; }
    for j := 0 to n
      invariant Progress(m0, mem[..], view, newv, j, 0)
    {
      for i := 0 to m
        invariant Progress(m0, mem[..], view, newv, j, i)
      {
        GemmCell(mem, m0, transa, transb, m, n, k, alpha, a, lda, b, ldb, beta, c, ldc, i, j);
      }
      ProgressRow(m0, mem[..], view, newv, j);
    }
    ProgressDone(m0, mem[..], view, newv);
  }

  /** Operands are disjoint from the output, so they read as they were throughout. */
  lemma OpRead(m0: seq<real>, m1: seq<real>, ptr: nat, ld: nat, trans: bool, rows: nat, cols: nat, view: Tensor, i: nat,
               j: nat)
    requires i < rows && j < cols && |m1| == |m0|
    requires Fits(OpView(ptr, ld, trans, rows, cols), |m0|) && Disjoint(OpView(ptr, ld, trans, rows, cols), view)
    requires forall a :: Outside(view, a) ==> At(m1, a) == At(m0, a)
    ensures 0 <= (if trans then ptr + i * ld + j else ptr + j * ld + i) < |m1|
    ensures m1[if trans then ptr + i * ld + j else ptr + j * ld + i] == OpElem(m0, ptr, ld, trans, i, j)
  {
    var t := OpView(ptr, ld, trans, rows, cols);
    var r, c := if trans then i else j, if trans then j else i;
    ViewStorage(t, r, c);
    assert t.Addr(r, c) == if trans then ptr + i * ld + j else ptr + j * ld + i;
    assert Outside(view, t.Addr(r, c));
  }

  /** Element (r, c) of lhs or rhs, transposed or not. */
  function MatElem(m: seq<real>, t: Tensor, trans: bool, r: int, c: int): real {
    if trans then At(m, t.Addr(c, r)) else At(m, t.Addr(r, c))
  }

  function DotTerm(m: seq<real>, tl: bool, tr: bool, lhs: Tensor, rhs: Tensor, y: int, x: int): int -> real {
    l => Mul(MatElem(m, lhs, tl, y, l), MatElem(m, rhs, tr, l, x))
  }

  /** sv(dst, scale * lhs[.T] * rhs[.T]) at each row-major element of dst. */
  function DotValue(m: seq<real>, sv: Saver, tl: bool, tr: bool, dst: Tensor, lhs: Tensor, rhs: Tensor, inner: nat,
                    scale: real): Cell -> real {
    (q: Cell) => sv.Save(At(m, dst.Addr(q.y, q.x)),
                         Mul(scale, Sum(Range(inner), DotTerm(m, tl, tr, lhs, rhs, q.y, q.x))))
  }

  /** GetShape: the shape of a matrix after an optional transpose. */
  function GetShape(dims: seq<nat>, transpose: bool): seq<nat>
    requires |dims| == 2
  {
    if transpose then [dims[1], dims[0]] else dims
  }

  /** The swapped-operand column-major value is the row-major product. */
  lemma GemmIsDot(m: seq<real>, sv: Saver, tl: bool, tr: bool, dst: Tensor, lhs: Tensor, rhs: Tensor, k: nat,
                  scale: real, q: Cell)
    ensures GemmValue(m, tr, tl, k, Mul(scale, sv.Alpha()), rhs.dptr, rhs.shape.stride, lhs.dptr, lhs.shape.stride,
                      sv.Beta(), dst.dptr, dst.shape.stride)(q)
         == DotValue(m, sv, tl, tr, dst, lhs, rhs, k, scale)(q)
  {
    var f := GemmTerm(m, tr, tl, rhs.dptr, rhs.shape.stride, lhs.dptr, lhs.shape.stride, q.x, q.y);
    var g := DotTerm(m, tl, tr, lhs, rhs, q.y, q.x);
    forall l | l in Range(k) ensures f(l) == g(l) {
      MulCommutes(OpElem(m, rhs.dptr, rhs.shape.stride, tr, q.x, l), OpElem(m, lhs.dptr, lhs.shape.stride, tl, l, q.y));
    }
    SumExt(Range(k), f, g);
    AlphaBeta(sv, scale, At(m, dst.Addr(q.y, q.x)), Sum(Range(k), g));
  }

  lemma MulCommutes(x: real, y: real)
    ensures Mul(x, y) == Mul(y, x)
  {
  }

  lemma StoredSame(m0: seq<real>, m: seq<real>, dst: Tensor, f: Cell -> real, g: Cell -> real)
    requires Stored(m0, m, dst, f) && forall r, c :: InStorage(dst, r, c) ==> f(Cell(r, c)) == g(Cell(r, c))
    ensures Stored(m0, m, dst, g)
  {
  }

  /** dst = sv(dst, scale * dot(lhs[.T], rhs[.T])), for matrices with any strides; padding is untouched. */
  method DotGemm(mem: array<real>, sv: Saver, tl: bool, tr: bool, dst: Tensor, lhs: Tensor, rhs: Tensor, scale: real)
    returns (ok: bool)
    requires |dst.shape.dims| == |lhs.shape.dims| == |rhs.shape.dims| == 2
    requires Leading(dst) && Leading(lhs) && Leading(rhs)
    requires Fits(dst, mem.Length) && Fits(lhs, mem.Length) && Fits(rhs, mem.Length)
    requires Disjoint(lhs, dst) && Disjoint(rhs, dst)
    modifies mem
    ensures ok <==> DotShapes(tl, tr, dst, lhs, rhs)
    ensures if ok then Stored(old(mem[..]), mem[..], dst,
                              DotValue(old(mem[..]), sv, tl, tr, dst, lhs, rhs, GetShape(lhs.shape.dims, tl)[0], scale))
            else mem[..] == old(mem[..])
  {
    var d, sleft, sright := dst.shape.dims, GetShape(lhs.shape.dims, tl), GetShape(rhs.shape.dims, tr);
    ok := d[1] == sleft[1] && d[0] == sright[0] && sleft[0] == sright[1];
    if ok {
      ghost var m0 := mem[..];
      var r, l := rhs.shape.dims, lhs.shape.dims;
      assert OpView(dst.dptr, dst.shape.stride, false, d[0], d[1]) == dst;
      assert OpView(rhs.dptr, rhs.shape.stride, tr, d[0], sright[1]) == rhs;
      assert OpView(lhs.dptr, lhs.shape.stride, tl, sleft[0], d[1]) == lhs;
      Gemm(mem, tr, tl, if tr then r[1] else r[0], if tl then l[0] else l[1], if tr then r[0] else r[1],
           Mul(scale, sv.Alpha()), rhs.dptr, rhs.shape.stride, lhs.dptr, lhs.shape.stride, sv.Beta(), dst.dptr,
             dst.shape.stride);
      var k := if tr then r[0] else r[1];
      forall q { GemmIsDot(m0, sv, tl, tr, dst, lhs, rhs, k, scale, q); }
      StoredSame(m0, mem[..], dst,
                 GemmValue(m0, tr, tl, k, Mul(scale, sv.Alpha()), rhs.dptr, rhs.shape.stride, lhs.dptr,
                           lhs.shape.stride,
                           sv.Beta(), dst.dptr, dst.shape.stride),
                 DotValue(m0, sv, tl, tr, dst, lhs, rhs, k, scale));
    }
  }

  /** The shapes fit: dst is rows(lhs) x columns(rhs) and the inner sizes agree. */
  predicate DotShapes(tl: bool, tr: bool, dst: Tensor, lhs: Tensor, rhs: Tensor)
    requires |dst.shape.dims| == |lhs.shape.dims| == |rhs.shape.dims| == 2
  {
    var sleft, sright := GetShape(lhs.shape.dims, tl), GetShape(rhs.shape.dims, tr);
    dst.shape.dims == [sright[0], sleft[1]] && sleft[0] == sright[1]
  }

  // ---- vector times matrix ----

  function GemvTerm(m: seq<real>, trans: bool, a: int, lda: int, x: int, i: int): int -> real {
    l => Mul(OpElem(m, a, lda, trans, i, l), At(m, x + l))
  }

  /** What GEMV leaves in element i of Y. */
  function GemvValue(m: seq<real>, trans: bool, k: nat, alpha: real, a: int, lda: int, x: int, beta: real,
                     y: Tensor): Cell -> real {
    (q: Cell) => Update(alpha, Sum(Range(k), GemvTerm(m, trans, a, lda, x, q.x)), beta, At(m, y.dptr + q.x))
  }

  /** A vector of n elements stored without gaps. */
  function Vec(ptr: nat, n: nat): Tensor { Tensor(ptr, Shape([n], n)) }

  /** Row i of op(A) times X, while Y is being overwritten. */
  method RowProduct(mem: array<real>, ghost m0: seq<real>, ghost y: Tensor, trans: bool, len: nat, k: nat, a: nat,
                    lda: nat, x: nat, i: nat)
    returns (s: real)
    requires i < len && mem.Length == |m0|
    requires GemvOperands(trans, len, k, a, lda, x, y, |m0|)
    requires forall p :: Outside(y, p) ==> At(mem[..], p) == At(m0, p)
    ensures s == Sum(Range(k), GemvTerm(m0, trans, a, lda, x, i))
  {
    s := 0.0;
    for l := 0 to k
      invariant s == Sum(Range(l), GemvTerm(m0, trans, a, lda, x, i))
    {
      OpRead(m0, mem[..], a, lda, trans, len, k, y, i, l);
      VecRead(m0, mem[..], x, k, y, l);
      var u := mem[if trans then a + i * lda + l else a + l * lda + i];
      var v := mem[x + l];
      assert u == OpElem(m0, a, lda, trans, i, l) && v == At(m0, x + l);
      SumStep(l, GemvTerm(m0, trans, a, lda, x, i));
      s := s + Mul(u, v);
    }
  }

  lemma GemvValueAt(m0: seq<real>, trans: bool, k: nat, alpha: real, a: int, lda: int, x: int, beta: real, y: Tensor,
                    i: nat, s: real, u: real)
    requires u == At(m0, y.dptr + i) && s == Sum(Range(k), GemvTerm(m0, trans, a, lda, x, i))
    ensures GemvValue(m0, trans, k, alpha, a, lda, x, beta, y)(Cell(0, i)) == Update(alpha, s, beta, u)
  {}

  /** The update of one element of Y. */
  method GemvCell(mem: array<real>, ghost m0: seq<real>, trans: bool, len: nat, k: nat, alpha: real, a: nat, lda: nat,
                  x: nat, beta: real, y: Tensor, i: nat)
    requires y.shape.dims == [len] && Injective(y) && Fits(y, mem.Length) && i < len
    requires GemvOperands(trans, len, k, a, lda, x, y, mem.Length)
    requires Progress(m0, mem[..], y, GemvValue(m0, trans, k, alpha, a, lda, x, beta, y), 0, i)
    modifies mem
    ensures Progress(m0, mem[..], y, GemvValue(m0, trans, k, alpha, a, lda, x, beta, y), 0, i + 1)
  {
    ghost var m1 := mem[..];
    ghost var newv := GemvValue(m0, trans, k, alpha, a, lda, x, beta, y);
    var s := RowProduct(mem, m0, y, trans, len, k, a, lda, x, i);
    ViewStorage(y, 0, i);
    var p := y.dptr + i;
    assert y.Addr(0, i) == p;
    Pending(m0, m1, y, newv, 0, i, p);
    var u := mem[p];
    GemvValueAt(m0, trans, k, alpha, a, lda, x, beta, y, i, s, u);
    var v := Update(alpha, s, beta, u);
    mem[p] := v;
    ProgressStep(m0, m1, mem[..], y, newv, 0, i, p, v);
  }

  /** Y := alpha * op(A) * X + beta * Y with A column-major, rows x cols, and unit increments. */
  method Gemv(mem: array<real>, trans: bool, rows: nat, cols: nat, alpha: real, a: nat, lda: nat, x: nat, beta: real,
              y: Tensor)
    requires y.shape.dims == [if trans then cols else rows] && Injective(y) && Fits(y, mem.Length)
    requires GemvOperands(trans, if trans then cols else rows, if trans then rows else cols, a, lda, x, y, mem.Length)
    modifies mem
    ensures Stored(old(mem[..]), mem[..], y,
                   GemvValue(old(mem[..]), trans, if trans then rows else cols, alpha, a, lda, x, beta, y))
  {
    ghost var m0 := mem[..];
    var len, k := if trans then cols else rows, if trans then rows else cols;
    ghost var newv := GemvValue(m0, trans, k, alpha, a, lda, x, beta, y);
    assert y.shape.Rows() == 1;
    for i := 0 to len
      invariant Progress(m0, mem[..], y, newv, 0, i)
    {
      GemvCell(mem, m0, trans, len, k, alpha, a, lda, x, beta, y, i);
    }
    ProgressRow(m0, mem[..], y, newv, 0);
    ProgressDone(m0, mem[..], y, newv);
  }

  /** op(A), len x k, and X are in memory and apart from Y. */
  ghost predicate GemvOperands(trans: bool, len: nat, k: nat, a: nat, lda: nat, x: nat, y: Tensor, n: int) {
    && Fits(OpView(a, lda, trans, len, k), n) && Disjoint(OpView(a, lda, trans, len, k), y)
    && Leading(OpView(a, lda, trans, len, k))
    && Fits(Vec(x, k), n) && Disjoint(Vec(x, k), y)
  }

  lemma VecRead(m0: seq<real>, m1: seq<real>, x: nat, n: nat, view: Tensor, i: nat)
    requires i < n && |m1| == |m0| && Fits(Vec(x, n), |m0|) && Disjoint(Vec(x, n), view)
    requires forall a :: Outside(view, a) ==> At(m1, a) == At(m0, a)
    ensures 0 <= x + i < |m1| && m1[x + i] == At(m0, x + i)
  {
    ViewStorage(Vec(x, n), 0, i);
    assert Vec(x, n).Addr(0, i) == x + i;
    assert Outside(view, x + i);
  }

  function VecDotTerm(m: seq<real>, tr: bool, lhs: Tensor, rhs: Tensor, x: int): int -> real {
    l => Mul(At(m, lhs.dptr + l), MatElem(m, rhs, tr, l, x))
  }

  /** sv(dst, scale * lhs * rhs[.T]) for a row vector lhs. */
  function VecDotValue(m: seq<real>, sv: Saver, tr: bool, dst: Tensor, lhs: Tensor, rhs: Tensor, inner: nat,
                       scale: real): Cell -> real {
    (q: Cell) => sv.Save(At(m, dst.dptr + q.x), Mul(scale, Sum(Range(inner), VecDotTerm(m, tr, lhs, rhs, q.x))))
  }

  lemma GemvIsDot(m: seq<real>, sv: Saver, tr: bool, dst: Tensor, lhs: Tensor, rhs: Tensor, k: nat, scale: real,
                  q: Cell)
    ensures GemvValue(m, tr, k, Mul(scale, sv.Alpha()), rhs.dptr, rhs.shape.stride, lhs.dptr, sv.Beta(), dst)(q)
         == VecDotValue(m, sv, tr, dst, lhs, rhs, k, scale)(q)
  {
    var f, g := GemvTerm(m, tr, rhs.dptr, rhs.shape.stride, lhs.dptr, q.x), VecDotTerm(m, tr, lhs, rhs, q.x);
    forall l | l in Range(k) ensures f(l) == g(l) {
      MulCommutes(OpElem(m, rhs.dptr, rhs.shape.stride, tr, q.x, l), At(m, lhs.dptr + l));
    }
    SumExt(Range(k), f, g);
    AlphaBeta(sv, scale, At(m, dst.dptr + q.x), Sum(Range(k), g));
  }

  /** dst = sv(dst, scale * dot(lhs, rhs[.T])) for vectors dst and lhs. */
  method DotGemv(mem: array<real>, sv: Saver, tr: bool, dst: Tensor, lhs: Tensor, rhs: Tensor, scale: real)
    returns (ok: bool)
    requires |dst.shape.dims| == |lhs.shape.dims| == 1 && |rhs.shape.dims| == 2
    requires Leading(rhs) && Injective(dst)
    requires Fits(dst, mem.Length) && Fits(lhs, mem.Length) && Fits(rhs, mem.Length)
    requires Disjoint(lhs, dst) && Disjoint(rhs, dst)
    modifies mem
    ensures ok <==>
            dst.shape.dims[0] == GetShape(rhs.shape.dims, tr)[0] &&
            lhs.shape.dims[0] == GetShape(rhs.shape.dims, tr)[1]
    ensures if ok then Stored(old(mem[..]), mem[..], dst,
                              VecDotValue(old(mem[..]), sv, tr, dst, lhs, rhs, lhs.shape.dims[0], scale))
            else mem[..] == old(mem[..])
  {
    var sright := GetShape(rhs.shape.dims, tr);
    ok := dst.shape.dims[0] == sright[0] && lhs.shape.dims[0] == sright[1];
    if ok {
      ghost var m0 := mem[..];
      var r, k := rhs.shape.dims, lhs.shape.dims[0];
      assert OpView(rhs.dptr, rhs.shape.stride, tr, sright[0], k) == rhs;
      VecSame(lhs, dst, mem.Length);
      Gemv(mem, tr, r[0], r[1], Mul(scale, sv.Alpha()), rhs.dptr, rhs.shape.stride, lhs.dptr, sv.Beta(), dst);
      forall q { GemvIsDot(m0, sv, tr, dst, lhs, rhs, k, scale, q); }
      StoredSame(m0, mem[..], dst, GemvValue(m0, tr, k, Mul(scale, sv.Alpha()), rhs.dptr, rhs.shape.stride, lhs.dptr,
                                             sv.Beta(), dst),
                 VecDotValue(m0, sv, tr, dst, lhs, rhs, k, scale));
    }
  }

  /** The stride of a vector is never used. */
  lemma VecSame(t: Tensor, dst: Tensor, n: int)
    requires |t.shape.dims| == 1
    ensures Fits(t, n) ==> Fits(Vec(t.dptr, t.shape.dims[0]), n)
    ensures Disjoint(t, dst) ==> Disjoint(Vec(t.dptr, t.shape.dims[0]), dst)
  {
    var v := Vec(t.dptr, t.shape.dims[0]);
    forall r, c ensures InStorage(v, r, c) <==> InStorage(t, r, c) {
      ViewStorage(v, r, c);
      ViewStorage(t, r, c);
    }
    assert forall r, c :: InStorage(t, r, c) ==> t.Addr(r, c) == v.Addr(r, c);
  }

  // ---- outer product ----

  /** What GER adds to cell (j, i) of the row-major view of A. */
  function GerValue(m: seq<real>, alpha: real, x: Tensor, y: Tensor, a: Tensor): Cell -> real {
    (q: Cell) => At(m, a.Addr(q.y, q.x)) + Mul(alpha, Mul(At(m, x.dptr + q.x), At(m, y.dptr + q.y)))
  }

  /** The operands of GER still read as they did, and the element is in memory as it was. */
  lemma GerReads(m0: seq<real>, m1: seq<real>, newv: Cell -> real, x: Tensor, y: Tensor, a: Tensor, i: nat, j: nat,
                 p: int)
    requires |x.shape.dims| == |y.shape.dims| == 1 && a.shape.dims == [x.shape.dims[0], y.shape.dims[0]]
    requires i < x.shape.dims[0] && j < y.shape.dims[0] && Fits(a, |m1|) && p == a.Addr(j, i)
    requires var v := Vec(x.dptr, x.shape.dims[0]); Fits(v, |m1|) && Disjoint(v, a)
    requires var v := Vec(y.dptr, y.shape.dims[0]); Fits(v, |m1|) && Disjoint(v, a)
    requires Progress(m0, m1, a, newv, j, i)
    ensures x.dptr + i < |m1| && m1[x.dptr + i] == At(m0, x.dptr + i)
    ensures y.dptr + j < |m1| && m1[y.dptr + j] == At(m0, y.dptr + j)
    ensures InStorage(a, j, i) && 0 <= p < |m1| && m1[p] == At(m0, p)
  {
    VecRead(m0, m1, x.dptr, x.shape.dims[0], a, i);
    VecRead(m0, m1, y.dptr, y.shape.dims[0], a, j);
    ViewStorage(a, j, i);
    assert At(m1, p) == At(m0, p);
  }

  lemma GerValueAt(m0: seq<real>, alpha: real, x: Tensor, y: Tensor, a: Tensor, i: nat, j: nat, p: int,
                   u: real, s: real, t: real)
    requires p == a.Addr(j, i)
    requires u == At(m0, p)
    requires s == At(m0, x.dptr + i)
    requires t == At(m0, y.dptr + j)
    ensures GerValue(m0, alpha, x, y, a)(Cell(j, i)) == u + Mul(alpha, Mul(s, t))
  {}

  /** The update of one element of A. */
  method GerCell(mem: array<real>, alpha: real, x: Tensor, y: Tensor, a: Tensor, i: nat, j: nat, ghost m0: seq<real>)
    requires |x.shape.dims| == |y.shape.dims| == 1 && a.shape.dims == [x.shape.dims[0], y.shape.dims[0]]
    requires i < x.shape.dims[0] && j < y.shape.dims[0] && Injective(a) && Fits(a, mem.Length)
    requires var v := Vec(x.dptr, x.shape.dims[0]); Fits(v, mem.Length) && Disjoint(v, a)
    requires var v := Vec(y.dptr, y.shape.dims[0]); Fits(v, mem.Length) && Disjoint(v, a)
    requires Progress(m0, mem[..], a, GerValue(m0, alpha, x, y, a), j, i)
    modifies mem
    ensures Progress(m0, mem[..], a, GerValue(m0, alpha, x, y, a), j, i + 1)
  {
    ghost var m1 := mem[..];
    ghost var newv := GerValue(m0, alpha, x, y, a);
    var p := a.Addr(j, i);
    GerReads(m0, m1, newv, x, y, a, i, j, p);
    var u, s, t := mem[p], mem[x.dptr + i], mem[y.dptr + j];
    GerValueAt(m0, alpha, x, y, a, i, j, p, u, s, t);
    var v := u + Mul(alpha, Mul(s, t));
    mem[p] := v;
    ProgressStep(m0, m1, mem[..], a, newv, j, i, p, v);
  }

  /** A := alpha * X * Y.T + A with A column-major: a's row-major view is updated with Y.T * X. */
  method Ger(mem: array<real>, alpha: real, x: Tensor, y: Tensor, a: Tensor)
    requires |x.shape.dims| == |y.shape.dims| == 1 && a.shape.dims == [x.shape.dims[0], y.shape.dims[0]]
    requires Leading(a) && Fits(a, mem.Length) && Fits(x, mem.Length) && Fits(y, mem.Length)
    requires Disjoint(x, a) && Disjoint(y, a)
    modifies mem
    ensures Stored(old(mem[..]), mem[..], a, GerValue(old(mem[..]), alpha, x, y, a))
  {
    ghost var m0 := mem[..];
    ghost var newv := GerValue(m0, alpha, x, y, a);
    var m, n := x.shape.dims[0], y.shape.dims[0];
    VecSame(x, a, mem.Length);
    VecSame(y, a, mem.Length);
    assert a.shape.Rows() == n by { assert Prod(a.shape.dims, 1, 1) == 1; }
    for j := 0 to n
      invariant Progress(m0, mem[..], a, newv, j, 0)
    {
      for i := 0 to m
        invariant Progress(m0, mem[..], a, newv, j, i)
      {
        GerCell(mem, alpha, x, y, a, i, j, m0);
      }
      ProgressRow(m0, mem[..], a, newv, j);
    }
    ProgressDone(m0, mem[..], a, newv);
  }

  /** scale times the outer product of lhs and rhs. */
  function OuterTerm(m: seq<real>, lhs: Tensor, rhs: Tensor, scale: real, q: Cell): real {
    Mul(scale, Mul(At(m, lhs.dptr + q.y), At(m, rhs.dptr + q.x)))
  }

  /** What the engine stores for dst = sv(dst, scale * lhs.T * rhs): the overwriting saver accumulates instead. */
  function OuterValue(m: seq<real>, sv: Saver, dst: Tensor, lhs: Tensor, rhs: Tensor, scale: real): Cell -> real {
    (q: Cell) => (if sv == SaveTo then PlusTo else sv).Save(At(m, dst.Addr(q.y, q.x)), OuterTerm(m, lhs, rhs, scale, q))
  }

  /** What the saver promises. */
  function OuterPromise(m: seq<real>, sv: Saver, dst: Tensor, lhs: Tensor, rhs: Tensor, scale: real): Cell -> real {
    (q: Cell) => sv.Save(At(m, dst.Addr(q.y, q.x)), OuterTerm(m, lhs, rhs, scale, q))
  }

  lemma OneTermDot(m: seq<real>, sv: Saver, dst: Tensor, lhs: Tensor, rhs: Tensor, scale: real, q: Cell)
    requires |lhs.shape.dims| == |rhs.shape.dims| == 1
    ensures DotValue(m, sv, true, false, dst, Tensor(lhs.dptr, lhs.shape.Flat()), Tensor(rhs.dptr, rhs.shape.Flat()), 1,
                     scale)(q)
         == OuterPromise(m, sv, dst, lhs, rhs, scale)(q)
  {
    var f := DotTerm(m, true, false, Tensor(lhs.dptr, lhs.shape.Flat()), Tensor(rhs.dptr, rhs.shape.Flat()), q.y, q.x);
    assert Range(1) == [] + [0];
    SumSnoc([], 0, f);
    assert f(0) == Mul(At(m, lhs.dptr + q.y), At(m, rhs.dptr + q.x));
  }

  lemma GerIsOuter(m: seq<real>, sv: Saver, dst: Tensor, lhs: Tensor, rhs: Tensor, scale: real, q: Cell)
    requires sv.Beta() < 0.000001
    ensures GerValue(m, Mul(scale, sv.Alpha()), rhs, lhs, dst)(q) == OuterValue(m, sv, dst, lhs, rhs, scale)(q)
  {
    MulCommutes(At(m, rhs.dptr + q.x), At(m, lhs.dptr + q.y));
  }

  /** dst = sv(dst, scale * dot(lhs.T, rhs)) for vectors lhs and rhs. */
  method DotGer(mem: array<real>, sv: Saver, dst: Tensor, lhs: Tensor, rhs: Tensor, scale: real) returns (ok: bool)
    requires |lhs.shape.dims| == |rhs.shape.dims| == 1 && |dst.shape.dims| == 2
    requires Leading(dst) && (sv != SaveTo ==> Leading(lhs) && Leading(rhs))
    requires Fits(dst, mem.Length) && Fits(lhs, mem.Length) && Fits(rhs, mem.Length)
    requires Disjoint(lhs, dst) && Disjoint(rhs, dst)
    modifies mem
    ensures ok <==> dst.shape.dims == [rhs.shape.dims[0], lhs.shape.dims[0]]
    ensures if ok then Stored(old(mem[..]), mem[..], dst, OuterValue(old(mem[..]), sv, dst, lhs, rhs, scale))
            else mem[..] == old(mem[..])
  {
    ghost var m0 := mem[..];
    ok := dst.shape.dims[1] == lhs.shape.dims[0] && dst.shape.dims[0] == rhs.shape.dims[0];
    if !ok { return; }
    if sv.Beta() < 0.000001 {
      Ger(mem, Mul(scale, sv.Alpha()), rhs, lhs, dst);
      forall q { GerIsOuter(m0, sv, dst, lhs, rhs, scale, q); }
      StoredSame(m0, mem[..], dst, GerValue(m0, Mul(scale, sv.Alpha()), rhs, lhs, dst),
                 OuterValue(m0, sv, dst, lhs, rhs, scale));
    } else {
      var l, r := Tensor(lhs.dptr, lhs.shape.Flat()), Tensor(rhs.dptr, rhs.shape.Flat());
      FlatSame(lhs, dst, mem.Length);
      FlatSame(rhs, dst, mem.Length);
      var done := DotGemm(mem, sv, true, false, dst, l, r, scale);
      forall q { OneTermDot(m0, sv, dst, lhs, rhs, scale, q); }
      StoredSame(m0, mem[..], dst, DotValue(m0, sv, true, false, dst, l, r, 1, scale),
                 OuterValue(m0, sv, dst, lhs, rhs, scale));
    }
  }

  /** A vector and its flattened 1 x n matrix are the same elements. */
  lemma FlatSame(t: Tensor, dst: Tensor, n: int)
    requires |t.shape.dims| == 1
    ensures t.shape.Flat().dims == [t.shape.dims[0], 1]
    ensures Fits(t, n) ==> Fits(Tensor(t.dptr, t.shape.Flat()), n)
    ensures Disjoint(t, dst) ==> Disjoint(Tensor(t.dptr, t.shape.Flat()), dst)
  {
    var v := Tensor(t.dptr, t.shape.Flat());
    forall r, c ensures InStorage(v, r, c) <==> InStorage(t, r, c) {
      ViewStorage(v, r, c);
      ViewStorage(t, r, c);
    }
    assert forall r, c :: t.Addr(r, c) == v.Addr(r, c);
  }

  /**
    The outer product keeps the saver's promise exactly when the saver is not the overwriting one, or every
    element of dst was already zero.
   */
  lemma OuterKeepsPromiseIff(m: seq<real>, sv: Saver, dst: Tensor, lhs: Tensor, rhs: Tensor, scale: real)
    ensures (forall r, c :: InStorage(dst, r, c) ==>
               OuterValue(m, sv, dst, lhs, rhs, scale)(Cell(r, c)) ==
                 OuterPromise(m, sv, dst, lhs, rhs, scale)(Cell(r, c)))
       <==> sv != SaveTo || (forall r, c :: InStorage(dst, r, c) ==> At(m, dst.Addr(r, c)) == 0.0)
  {
    if sv == SaveTo {
      forall r, c
        ensures OuterValue(m, sv, dst, lhs, rhs, scale)(Cell(r, c)) ==
                OuterPromise(m, sv, dst, lhs, rhs, scale)(Cell(r, c))
           <==> At(m, dst.Addr(r, c)) == 0.0
      {
      }
    }
  }

  /** Assigning the outer product 1 * 1 to an element that held 5 leaves 6. */
  lemma OuterAccumulates()
    ensures var m := [5.0, 1.0, 1.0];
            var dst, lhs, rhs := Tensor(0, Shape([1, 1], 1)), Tensor(1, Shape([1], 1)), Tensor(2, Shape([1], 1));
            && InStorage(dst, 0, 0)
            && OuterValue(m, SaveTo, dst, lhs, rhs, 1.0)(Cell(0, 0)) == 6.0
            && OuterPromise(m, SaveTo, dst, lhs, rhs, 1.0)(Cell(0, 0)) == 1.0
  {
    ViewStorage(Tensor(0, Shape([1, 1], 1)), 0, 0);
  }
}
