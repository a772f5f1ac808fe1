/** Expression trees, their static and run-time shape checks, and the value each plan computes. */
module Expressions {
  import opened Arith
  import opened Grid
  import opened Layout
  import opened Memory
  import opened Patches
  import opened PoolGeometry
  import opened Reducers
  import opened Shapes
  import opened Sums
  import opened Windows
  import opened Wrappers

  /** The expressions that build a tensor out of one source expression. */
  datatype TensorOp =
    | UnpackPatch(psize: nat, pstride: nat)
    | Reshape(shape: seq<nat>)
    | SwapAxis(a1: nat, a2: nat)
    | Pooling(red: Reducer, pshape: Option<(nat, nat)>, ksize: nat, kstride: nat)
    | Padding(pad: nat)
    | Cropping(cheight: nat, cwidth: nat, start: Option<(nat, nat)>)
    | Mirroring
    | ChannelPooling(red: Reducer, nsize: nat)

  /** Elementwise operators are arbitrary total functions, as user-defined operators are. */
  datatype Exp =
    | Scalar(scalar: real)
    | Leaf(t: Tensor)
    | Unary(umap: real -> real, src: Exp)
    | Binary(bmap: (real, real) -> real, lhs: Exp, rhs: Exp)
    | Broadcast1D(vec: Tensor, shape: seq<nat>, dimcast: nat)
    | PackCol(mat: Tensor, shape: seq<nat>, psize: nat, pstride: nat)
    | UnPooling(red: Reducer, dataSrc: Tensor, dataPooled: Tensor, gradPooled: Tensor, ksize: nat, kstride: nat)
    | MakeTensor(op: TensorOp, src: Exp)

  /** ExpInfo::kDim: the dimension of the expression, 0 for scalars, -1 for a mismatch. */
  function KDim(e: Exp): int {
    match e
    case Scalar(_) => 0
    case Leaf(t) => if |t.shape.dims| >= 1 then |t.shape.dims| else -1
    case Unary(_, src) => KDim(src)
    case Binary(_, l, r) =>
      if KDim(l) < 0 || KDim(r) < 0 then -1
      else if KDim(l) == 0 then KDim(r)
      else if KDim(r) == 0 || KDim(l) == KDim(r) then KDim(l)
      else -1
    case Broadcast1D(_, shape, _) => |shape|
    case PackCol(_, shape, _, _) => |shape|
    case UnPooling(_, _, _, _, _, _) => 4
    case MakeTensor(op, src) =>
      if KDim(src) < 0 then -1 else
      match op
      case UnpackPatch(_, _) => 2
      case Reshape(shape) => |shape|
      case _ => KDim(src)
  }

  /** Size of dimension i, and the product of the dimensions from lo up; both total. */
  function Dim(dims: seq<nat>, i: nat): nat { if i < |dims| then dims[i] else 0 }
  function ProdFrom(dims: seq<nat>, lo: nat): nat { Prod(dims, lo, |dims|) }

  /** The planes of an image batch: everything above height and width. */
  function KernelOf(src: seq<nat>, pooled: seq<nat>, ksize: nat, kstride: nat): Kernel {
    Kernel(ksize, kstride, Dim(src, 1), Dim(src, 0), Dim(pooled, 1), Dim(pooled, 0), ProdFrom(src, 2))
  }

  function GeometryOf(img: seq<nat>, psize: nat, pstride: nat): Geometry {
    Geometry(psize, pstride, Dim(img, 2), Dim(img, 1), Dim(img, 0), ProdFrom(img, 3))
  }

  /** A shape is acceptable where dim dimensions are expected. */
  function Of(dim: nat, dims: seq<nat>): Option<seq<nat>> {
    if |dims| == dim then Some(dims) else None
  }

  /**
    ShapeCheck<dim,E>::Check, together with the checks the constructors and factory functions of e make.
    None: e is rejected, by the compiler or by an Assert. A scalar is marked by width 0; its other sizes
    are never set, and are 0 here.
   */
  function ShapeCheck(e: Exp, dim: nat): (r: Option<seq<nat>>)
    ensures r.Some? ==> |r.value| == dim
  {
    match e
    case Scalar(_) => Some(seq(dim, _ => 0))
    case Leaf(t) => Of(dim, t.shape.dims)
    case Unary(_, src) => ShapeCheck(src, dim)
    case Binary(_, l, r) =>
      (match (ShapeCheck(l, dim), ShapeCheck(r, dim))
       case (Some(s1), Some(s2)) =>
         if Dim(s1, 0) == 0 then Some(s2)
         else if Dim(s2, 0) == 0 then Some(s1)
         else if s1 == s2 then Some(s1) else None
       case _ => None)
    case Broadcast1D(vec, shape, d) =>
      if d < |shape| && |vec.shape.dims| == 1 && vec.shape.dims[0] == shape[d] then Of(dim, shape) else None
    case PackCol(mat, shape, psize, pstride) =>
      if |shape| >= 3 && |mat.shape.dims| == 2 && shape[0] >= psize && shape[1] >= psize
         && var g := GeometryOf(shape, psize, pstride);
            mat.shape.dims[0] == g.MatCols() && mat.shape.dims[1] == g.MatRows()
      then Of(dim, shape) else None
    case UnPooling(_, src, pooled, grad, _, _) =>
      var (s, p, g) := (src.shape.dims, pooled.shape.dims, grad.shape.dims);
      if |s| == |p| == |g| == 4 && g == p && g[2] == s[2] && g[3] == s[3] then Of(dim, s) else None
    case MakeTensor(op, src) =>
      if KDim(src) < 1 then None else
      match ShapeCheck(src, KDim(src))
      case None => None
      case Some(s) => match OpShape(op, s) { case None => None case Some(d) => Of(dim, d) }
  }

  /** shape_ of an expression over a source of shape s, or None when its constructor rejects s. */
  function OpShape(op: TensorOp, s: seq<nat>): Option<seq<nat>> {
    match op
    case UnpackPatch(psize, pstride) =>
      var g := GeometryOf(s, psize, pstride);
      if |s| >= 3 && s[0] >= psize && s[1] >= psize then Some([g.MatCols(), g.MatRows()]) else None
    case Reshape(shape) =>
      if |shape| >= 1 && Prod(s, 0, |s|) == Prod(shape, 0, |shape|) then Some(shape) else None
    case SwapAxis(a1, a2) =>
      if a1 < a2 < |s| then Some(Swapped(s, a1, a2)) else None
    case Pooling(_, pshape, ksize, kstride) =>
      if |s| >= 2 && s[0] >= ksize && s[1] >= ksize then
        (match pshape
         case Some((ph, pw)) => Some([pw, ph] + s[2..])
         case None => Some([WindowCount(s[0], ksize, kstride), WindowCount(s[1], ksize, kstride)] + s[2..]))
      else None
    case Padding(pad) =>
      if |s| >= 2 then Some([s[0] + 2 * pad, s[1] + 2 * pad] + s[2..]) else None
    case Cropping(cheight, cwidth, _) =>
      if |s| >= 2 && s[1] >= cheight && s[0] >= cwidth then Some([cwidth, cheight] + s[2..]) else None
    case Mirroring =>
      if |s| >= 2 then Some(s) else None
    case ChannelPooling(_, nsize) =>
      if |s| >= 3 && nsize % 2 == 1 && s[2] >= nsize then Some(s) else None
  }

  /** The shape an expression was constructed with. */
  function DimsOf(e: Exp): seq<nat> {
    if KDim(e) < 0 then [] else
    match ShapeCheck(e, KDim(e)) case Some(d) => d case None => []
  }

  /** Where a crop starts in a plane of the given height and width: as told, or so as to be centred. */
  function CropStart(op: TensorOp, height: nat, width: nat): (nat, nat)
    requires op.Cropping?
  {
    match op.start
    case Some(p) => p
    case None =>
      (if height >= op.cheight then (height - op.cheight) / 2 else 0,
       if width >= op.cwidth then (width - op.cwidth) / 2 else 0)
  }

  /** The cells of a source of shape s that op, of shape d, reads at (y, x), in loop order. */
  function SourceCells(op: TensorOp, s: seq<nat>, d: seq<nat>, y: int, x: int): seq<Cell> {
    match op
    case UnpackPatch(psize, pstride) => UnpackCells(GeometryOf(s, psize, pstride), y, x)
    case Reshape(_) => [ReshapeCell(Dim(d, 0), Dim(s, 0), y, x)]
    case SwapAxis(a1, a2) => if a1 < a2 < |d| then [SwapCell(d, a1, a2, y, x)] else []
    case Pooling(_, _, ksize, kstride) => PoolCells(KernelOf(s, d, ksize, kstride), y, x)
    case Padding(pad) =>
      (match PadCell(pad, Dim(d, 1), Dim(s, 1), Dim(s, 0), y, x)
       case None => []
       case Some(c) => [c])
    case Cropping(_, _, _) =>
      var start := CropStart(op, Dim(s, 1), Dim(s, 0));
      [CropCell(start.0, start.1, Dim(d, 1), Dim(s, 1), y, x)]
    case Mirroring => [Cell(y, Dim(d, 0) - x - 1)]
    case ChannelPooling(_, nsize) => ChannelCells(nsize / 2, Dim(s, 2), Dim(s, 1), y, x)
  }

  /** How op combines what it reads: a fold, or the single value read (0 when none is). */
  function OpReducer(op: TensorOp): Reducer {
    match op
    case Pooling(red, _, _, _) => red
    case ChannelPooling(red, _) => red
    case _ => SumRed
  }

  /** The element of a 1-D tensor that broadcast<dimcast> reads at (y, x). */
  function BroadcastIndex(shape: seq<nat>, dimcast: nat, y: int, x: int): int {
    if dimcast == 0 then x
    else if dimcast < |shape| then Rem(Quot(y, Prod(shape, 1, dimcast)), shape[dimcast])
    else 0
  }

  /** The plan of a 1-D tensor ignores the row. */
  function LeafAddr(t: Tensor, y: int, x: int): int {
    if |t.shape.dims| == 1 then t.dptr + x else t.Addr(y, x)
  }

  function UnpoolKernel(e: Exp): Kernel
    requires e.UnPooling?
  {
    KernelOf(e.dataSrc.shape.dims, e.dataPooled.shape.dims, e.ksize, e.kstride)
  }

  /** The elements of a tensor, as a function of the flattened cell. */
  function Element(t: Tensor, m: seq<real>): Cell -> real {
    (c: Cell) => At(m, t.Addr(c.y, c.x))
  }

  /** How much of each pooled gradient flows to a source element of value vsrc. */
  function GradTerm(red: Reducer, vsrc: real, pooled: Tensor, grad: Tensor, m: seq<real>): Cell -> real {
    (c: Cell) => Mul(red.PartialGrad(vsrc, Element(pooled, m)(c)), Element(grad, m)(c))
  }

  /** Plan::Eval(y, x) of e on memory m. */
  function Eval(e: Exp, m: seq<real>, y: int, x: int): real {
    match e
    case Scalar(v) => v
    case Leaf(t) => At(m, LeafAddr(t, y, x))
    case Unary(f, src) => f(Eval(src, m, y, x))
    case Binary(f, l, r) => f(Eval(l, m, y, x), Eval(r, m, y, x))
    case Broadcast1D(vec, shape, d) => At(m, vec.dptr + BroadcastIndex(shape, d, y, x))
    case PackCol(mat, shape, psize, pstride) =>
      Sum(PackCells(GeometryOf(shape, psize, pstride), y, x), Element(mat, m))
    case UnPooling(red, src, pooled, grad, _, _) =>
      Sum(UnpoolCells(UnpoolKernel(e), y, x), GradTerm(red, At(m, src.Addr(y, x)), pooled, grad, m))
    case MakeTensor(op, src) =>
      Fold(OpReducer(op), OpReducer(op).InitV(), SourceCells(op, DimsOf(src), DimsOf(e), y, x),
           (c: Cell) => Eval(src, m, c.y, c.x))
  }

  // ---- what the shape check accepts ----

  /** What the elementwise operators of e combine, from left to right. */
  function Operands(e: Exp): (ps: seq<Exp>)
    ensures |ps| > 0
  {
    match e
    case Unary(_, src) => Operands(src)
    case Binary(_, l, r) => Operands(l) + Operands(r)
    case _ => [e]
  }

  predicate IsMarked(e: Exp, dim: nat) { ShapeCheck(e, dim).Some? && Dim(ShapeCheck(e, dim).value, 0) == 0 }

  /** Every operand is accepted, and those without the scalar mark have shape s, or are none. */
  predicate AllOfShape(ps: seq<Exp>, dim: nat, s: seq<nat>) {
    forall i :: 0 <= i < |ps| ==>
      ShapeCheck(ps[i], dim).Some? && (!IsMarked(ps[i], dim) ==> ShapeCheck(ps[i], dim) == Some(s))
  }

  ghost predicate Agree(ps: seq<Exp>, dim: nat) { exists s :: AllOfShape(ps, dim, s) }

  predicate AllMarked(ps: seq<Exp>, dim: nat) { forall i :: 0 <= i < |ps| ==> IsMarked(ps[i], dim) }

  lemma AllOfShapeBoth(a: seq<Exp>, b: seq<Exp>, dim: nat, s: seq<nat>)
    ensures AllOfShape(a + b, dim, s) <==> AllOfShape(a, dim, s) && AllOfShape(b, dim, s)
    ensures AllMarked(a + b, dim) <==> AllMarked(a, dim) && AllMarked(b, dim)
  {
    forall i | 0 <= i < |a| ensures (a + b)[i] == a[i] {}
    forall i | 0 <= i < |b| ensures (a + b)[|a| + i] == b[i] {}
  }

  lemma MarkedAnyShape(ps: seq<Exp>, dim: nat, s: seq<nat>)
    requires AllMarked(ps, dim)
    ensures AllOfShape(ps, dim, s)
  {
    forall i | 0 <= i < |ps| ensures ShapeCheck(ps[i], dim).Some? && IsMarked(ps[i], dim) {
      assert IsMarked(ps[i], dim);
    }
  }

  lemma {:induction false} AcceptedAgree(e: Exp, dim: nat)
    requires ShapeCheck(e, dim).Some?
    ensures AllOfShape(Operands(e), dim, ShapeCheck(e, dim).value)
    ensures IsMarked(e, dim) ==> AllMarked(Operands(e), dim)
  {
    if e.Unary? {
      AcceptedAgree(e.src, dim);
    } else if e.Binary? {
      AcceptedAgree(e.lhs, dim);
      AcceptedAgree(e.rhs, dim);
      var s := ShapeCheck(e, dim).value;
      if IsMarked(e.lhs, dim) { MarkedAnyShape(Operands(e.lhs), dim, s); }
      if IsMarked(e.rhs, dim) { MarkedAnyShape(Operands(e.rhs), dim, s); }
      AllOfShapeBoth(Operands(e.lhs), Operands(e.rhs), dim, s);
    } else {
      assert Operands(e) == [e];
    }
  }

  lemma {:induction false} AgreeingAccepted(e: Exp, dim: nat, s: seq<nat>)
    requires AllOfShape(Operands(e), dim, s)
    ensures ShapeCheck(e, dim).Some? && (!IsMarked(e, dim) ==> ShapeCheck(e, dim) == Some(s))
  {
    if e.Unary? {
      AgreeingAccepted(e.src, dim, s);
    } else if e.Binary? {
      AllOfShapeBoth(Operands(e.lhs), Operands(e.rhs), dim, s);
      AgreeingAccepted(e.lhs, dim, s);
      AgreeingAccepted(e.rhs, dim, s);
    } else {
      assert Operands(e)[0] == e;
    }
  }

  /**
    An elementwise expression is accepted exactly when its operands are, and those without the scalar mark have one
    shape, which is then the shape of the expression; it carries the mark itself exactly when all of them do.
   */
  lemma OperandsAgreeIff(e: Exp, dim: nat)
    ensures ShapeCheck(e, dim).Some? <==> Agree(Operands(e), dim)
    ensures ShapeCheck(e, dim).Some? ==> AllOfShape(Operands(e), dim, ShapeCheck(e, dim).value)
    ensures IsMarked(e, dim) <==> AllMarked(Operands(e), dim)
  {
    if ShapeCheck(e, dim).Some? { AcceptedAgree(e, dim); }
    if Agree(Operands(e), dim) {
      var s :| AllOfShape(Operands(e), dim, s);
      AgreeingAccepted(e, dim, s);
    }
    if AllMarked(Operands(e), dim) {
      MarkedAnyShape(Operands(e), dim, []);
      AgreeingAccepted(e, dim, []);
    }
  }
}
