/** What assigning an expression does to the elements of tensors, multi-index by multi-index. */
module ExpressionLaws {
  import opened Adjoints
  import opened Assignment
  import opened Expressions
  import opened Grid
  import opened Layout
  import opened Memory
  import opened Plans
  import opened Reducers
  import opened Shapes
  import opened Soundness
  import opened Wrappers

  /** The element of t at a multi-index, found by subscripting t from the highest dimension down. */
  function ElementAt(t: Tensor, m: seq<real>, idx: seq<nat>): real
    requires |idx| == |t.shape.dims| >= 1
  {
    At(m, Subscript(t, idx))
  }

  /** Memory m is what assigning e to dst with sv makes of m0. */
  ghost predicate Assigns(m0: seq<real>, m: seq<real>, dst: Tensor, sv: Saver, e: Exp) {
    Stored(m0, m, dst, Assigned(m0, dst, sv, e))
  }

  // ---- one node over tensors ----

  lemma LeafValue(t: Tensor, m: seq<real>, idx: seq<nat>)
    requires t.shape.Valid() && InDims(t.shape.dims, idx)
    ensures var c := CellOf(t.shape.dims, idx);
            && InStorage(t, c.y, c.x) && t.Addr(c.y, c.x) == Subscript(t, idx)
            && Eval(Leaf(t), m, c.y, c.x) == ElementAt(t, m, idx)
  {
    SubscriptIsFlat(t, idx);
    CellOfInTable(t.shape.dims, idx);
  }

  /** What is stored at a multi-index of dst. */
  lemma AssignedAt(m0: seq<real>, m: seq<real>, dst: Tensor, sv: Saver, e: Exp, idx: seq<nat>)
    requires Assigns(m0, m, dst, sv, e) && dst.shape.Valid() && InDims(dst.shape.dims, idx)
    ensures var c := CellOf(dst.shape.dims, idx);
            ElementAt(dst, m, idx) == sv(ElementAt(dst, m0, idx), Eval(e, m0, c.y, c.x))
  {
    LeafValue(dst, m, idx);
    var c := CellOf(dst.shape.dims, idx);
    assert At(m, dst.Addr(c.y, c.x)) == Assigned(m0, dst, sv, e)(Cell(c.y, c.x));
  }

  /** dst = v: every element receives the scalar. */
  lemma ScalarMeans(m0: seq<real>, m: seq<real>, dst: Tensor, sv: Saver, v: real, idx: seq<nat>)
    requires Assigns(m0, m, dst, sv, Scalar(v)) && dst.shape.Valid() && InDims(dst.shape.dims, idx)
    ensures ElementAt(dst, m, idx) == sv(ElementAt(dst, m0, idx), v)
  {
    AssignedAt(m0, m, dst, sv, Scalar(v), idx);
  }

  /** dst = f(a): every element receives f of a's element at the same multi-index. */
  lemma UnaryMeans(m0: seq<real>, m: seq<real>, dst: Tensor, sv: Saver, f: real -> real, a: Tensor, idx: seq<nat>)
    requires Assigns(m0, m, dst, sv, Unary(f, Leaf(a))) && dst.shape.Valid() && a.shape.dims == dst.shape.dims
    requires InDims(dst.shape.dims, idx)
    ensures ElementAt(dst, m, idx) == sv(ElementAt(dst, m0, idx), f(ElementAt(a, m0, idx)))
  {
    AssignedAt(m0, m, dst, sv, Unary(f, Leaf(a)), idx);
    LeafValue(a, m0, idx);
  }

  /** dst = f(a, b): every element receives f of the elements of a and b, in that order, at the same multi-index. */
  lemma BinaryMeans(m0: seq<real>, m: seq<real>, dst: Tensor, sv: Saver, f: (real, real) -> real, a: Tensor, b: Tensor,
                    idx: seq<nat>)
    requires Assigns(m0, m, dst, sv, Binary(f, Leaf(a), Leaf(b))) && dst.shape.Valid() && InDims(dst.shape.dims, idx)
    requires a.shape.dims == b.shape.dims == dst.shape.dims
    ensures ElementAt(dst, m, idx) == sv(ElementAt(dst, m0, idx), f(ElementAt(a, m0, idx), ElementAt(b, m0, idx)))
  {
    AssignedAt(m0, m, dst, sv, Binary(f, Leaf(a), Leaf(b)), idx);
    LeafValue(a, m0, idx);
    LeafValue(b, m0, idx);
  }

  // ---- the same on memory ----

  lemma LeafAccepted(t: Tensor, dim: nat)
    requires t.shape.Valid() && dim >= 1
    ensures KDim(Leaf(t)) == |t.shape.dims| && ShapeCheck(Leaf(t), dim) == Of(dim, t.shape.dims)
    ensures DimsOf(Leaf(t)) == t.shape.dims && Obligations(Leaf(t)) && (TrueMark(Leaf(t)) <==> t.shape.Width() > 0)
  {}

  lemma UnaryStep(f: real -> real, src: Exp, dim: nat)
    ensures KDim(Unary(f, src)) == KDim(src) && ShapeCheck(Unary(f, src), dim) == ShapeCheck(src, dim)
    ensures Obligations(Unary(f, src)) <==> Obligations(src)
  {}

  lemma BinaryStep(f: (real, real) -> real, l: Exp, r: Exp)
    requires KDim(l) >= 1 && KDim(r) >= 1
    ensures KDim(Binary(f, l, r)) == if KDim(l) == KDim(r) then KDim(l) else -1
    ensures Obligations(Binary(f, l, r)) <==> TrueMark(l) && TrueMark(r) && Obligations(l) && Obligations(r)
  {}

  lemma BinaryCheck(f: (real, real) -> real, l: Exp, r: Exp, dim: nat, s: seq<nat>, s': seq<nat>)
    requires ShapeCheck(l, dim) == Some(s) && ShapeCheck(r, dim) == Some(s') && Dim(s, 0) > 0 && Dim(s', 0) > 0
    ensures ShapeCheck(Binary(f, l, r), dim) == if s == s' then Some(s) else None
  {}

  /** An elementwise operator over tensors of nonzero width is accepted exactly when all shapes agree. */
  lemma UnaryAccepted(f: real -> real, a: Tensor, dst: Tensor)
    requires dst.shape.Valid() && a.shape.Valid() && a.shape.Width() > 0
    ensures Accepts(Unary(f, Leaf(a)), dst) <==> a.shape.dims == dst.shape.dims
    ensures Obligations(Unary(f, Leaf(a))) && TrueMark(Unary(f, Leaf(a)))
  {
    LeafAccepted(a, |dst.shape.dims|);
    UnaryStep(f, Leaf(a), |dst.shape.dims|);
    UnaryStep(f, Leaf(a), |a.shape.dims|);
  }

  lemma BinaryAccepted(f: (real, real) -> real, a: Tensor, b: Tensor, dst: Tensor)
    requires dst.shape.Valid() && a.shape.Valid() && a.shape.Width() > 0 && b.shape.Valid() && b.shape.Width() > 0
    ensures Accepts(Binary(f, Leaf(a), Leaf(b)), dst) <==> a.shape.dims == b.shape.dims == dst.shape.dims
    ensures Accepts(Binary(f, Leaf(a), Leaf(b)), dst) ==>
              TrueMark(Binary(f, Leaf(a), Leaf(b))) && Obligations(Binary(f, Leaf(a), Leaf(b)))
  {
    var n := |dst.shape.dims|;
    LeafAccepted(a, n);
    LeafAccepted(b, n);
    BinaryStep(f, Leaf(a), Leaf(b));
    if |a.shape.dims| == |b.shape.dims| == n { BinaryCheck(f, Leaf(a), Leaf(b), n, a.shape.dims, b.shape.dims); }
  }

  /** A tensor that dst may be computed from in place. */
  ghost predicate Operand(a: Tensor, dst: Tensor, n: int) {
    a.shape.Valid() && a.shape.Width() > 0 && Fits(a, n) && (SameView(a, dst) || Disjoint(a, dst))
  }

  /** dst = v on memory. */
  method AssignScalar(mem: array<real>, dst: Tensor, sv: Saver, v: real) returns (ok: bool)
    requires Injective(dst) && Fits(dst, mem.Length)
    modifies mem
    ensures ok
    ensures forall idx :: InDims(dst.shape.dims, idx) ==>
              ElementAt(dst, mem[..], idx) == sv(ElementAt(dst, old(mem[..]), idx), v)
    ensures forall k :: Outside(dst, k) ==> At(mem[..], k) == At(old(mem[..]), k)
  {
    ghost var m0 := mem[..];
    ok := MapExp(mem, dst, sv, Scalar(v));
    forall idx | InDims(dst.shape.dims, idx) ensures ElementAt(dst, mem[..], idx) == sv(ElementAt(dst, m0, idx), v) {
      ScalarMeans(m0, mem[..], dst, sv, v, idx);
    }
  }

  /** dst = f(a) on memory: done exactly when the shapes agree, whatever the strides and in place or not. */
  method AssignUnary(mem: array<real>, dst: Tensor, sv: Saver, f: real -> real, a: Tensor) returns (ok: bool)
    requires Injective(dst) && Fits(dst, mem.Length) && Operand(a, dst, mem.Length)
    modifies mem
    ensures ok <==> a.shape.dims == dst.shape.dims
    ensures ok ==> forall idx :: InDims(dst.shape.dims, idx) ==>
              ElementAt(dst, mem[..], idx) ==
              sv(ElementAt(dst, old(mem[..]), idx), f(ElementAt(a, old(mem[..]), idx)))
    ensures forall k :: !ok || Outside(dst, k) ==> At(mem[..], k) == At(old(mem[..]), k)
  {
    ghost var m0 := mem[..];
    UnaryAccepted(f, a, dst);
    ok := MapExp(mem, dst, sv, Unary(f, Leaf(a)));
    if ok {
      forall idx | InDims(dst.shape.dims, idx)
        ensures ElementAt(dst, mem[..], idx) == sv(ElementAt(dst, m0, idx), f(ElementAt(a, m0, idx)))
      {
        UnaryMeans(m0, mem[..], dst, sv, f, a, idx);
      }
    }
  }

  /** dst = f(a, b) on memory. */
  method AssignBinary(mem: array<real>, dst: Tensor, sv: Saver, f: (real, real) -> real, a: Tensor, b: Tensor)
    returns (ok: bool)
    requires Injective(dst) && Fits(dst, mem.Length) && Operand(a, dst, mem.Length) && Operand(b, dst, mem.Length)
    modifies mem
    ensures ok <==> a.shape.dims == b.shape.dims == dst.shape.dims
    ensures ok ==> forall idx :: InDims(dst.shape.dims, idx) ==>
              ElementAt(dst, mem[..], idx) ==
              sv(ElementAt(dst, old(mem[..]), idx),
                 f(ElementAt(a, old(mem[..]), idx), ElementAt(b, old(mem[..]), idx)))
    ensures forall k :: !ok || Outside(dst, k) ==> At(mem[..], k) == At(old(mem[..]), k)
  {
    ghost var m0 := mem[..];
    BinaryAccepted(f, a, b, dst);
    ok := MapExp(mem, dst, sv, Binary(f, Leaf(a), Leaf(b)));
    if ok {
      forall idx | InDims(dst.shape.dims, idx)
        ensures ElementAt(dst, mem[..], idx) ==
                sv(ElementAt(dst, m0, idx), f(ElementAt(a, m0, idx), ElementAt(b, m0, idx)))
      {
        BinaryMeans(m0, mem[..], dst, sv, f, a, b, idx);
      }
    }
  }

  // ---- substitution ----

  /** The overwriting saver. */
  function SaveTo(): Saver { (was: real, v: real) => v }

  ghost predicate Apart(e: Exp, t: Tensor) { AllTensors(e, (u: Tensor) => Disjoint(u, t)) }

  /** t holds, in memory m, what e is worth in memory m0. */
  ghost predicate Holds(t: Tensor, m: seq<real>, e: Exp, m0: seq<real>) {
    forall y, x :: InStorage(t, y, x) ==> At(m, t.Addr(y, x)) == Eval(e, m0, y, x)
  }

  lemma AssignedHolds(m0: seq<real>, m: seq<real>, t: Tensor, e: Exp)
    requires Assigns(m0, m, t, SaveTo(), e)
    ensures Holds(t, m, e, m0)
  {
    forall y, x | InStorage(t, y, x) ensures At(m, t.Addr(y, x)) == Eval(e, m0, y, x) {
      assert Assigned(m0, t, SaveTo(), e)(Cell(y, x)) == Eval(e, m0, y, x);
    }
  }

  /** Assigning to a tensor apart from t leaves what t holds. */
  lemma StillHolds(m0: seq<real>, m: seq<real>, m': seq<real>, t: Tensor, e: Exp, u: Tensor, sv: Saver, e': Exp)
    requires Holds(t, m, e, m0) && Assigns(m, m', u, sv, e') && Disjoint(t, u)
    ensures Holds(t, m', e, m0)
  {
    forall y, x | InStorage(t, y, x) ensures At(m', t.Addr(y, x)) == Eval(e, m0, y, x) {
      assert Outside(u, t.Addr(y, x));
    }
  }

  /** Assigning to a tensor that e does not mention does not change what e is worth. */
  lemma Unaffected(m0: seq<real>, m: seq<real>, t: Tensor, sv: Saver, e': Exp, e: Exp, y: int, x: int)
    requires Assigns(m0, m, t, sv, e') && Apart(e, t) && AllReads(e, y, x, InStorage)
    ensures Eval(e, m, y, x) == Eval(e, m0, y, x)
  {
    TensorReads(e, y, x, (u: Tensor) => Disjoint(u, t), InStorage,
                (u: Tensor, r: int, c: int) => SameAt(m0, m, u, r, c));
    EvalDependsOnReads(e, m0, m, y, x);
  }

  /** What a temporary that holds e is worth as an expression. */
  lemma TemporaryValue(t: Tensor, m: seq<real>, e: Exp, m0: seq<real>, y: int, x: int)
    requires Holds(t, m, e, m0) && InStorage(t, y, x)
    ensures Eval(Leaf(t), m, y, x) == Eval(e, m0, y, x)
  {
    if |t.shape.dims| == 1 { assert Prod(t.shape.dims, 1, 1) == 1; }
  }

  /** m and m' agree except perhaps at elements of the temporaries. */
  ghost predicate AgreeOutside(m: seq<real>, m': seq<real>, ts: set<Tensor>) {
    forall a :: (forall t :: t in ts ==> Outside(t, a)) ==> At(m, a) == At(m', a)
  }

  /** t can hold what is to be assigned to dst. */
  ghost predicate Temporary(t: Tensor, dst: Tensor) { t.shape.dims == dst.shape.dims && Disjoint(t, dst) }

  /** e' over m is worth at every element of dst what e is over m0. */
  ghost predicate SameWorth(e: Exp, m0: seq<real>, e': Exp, m: seq<real>, dst: Tensor) {
    forall y, x :: InStorage(dst, y, x) ==> Eval(e', m, y, x) == Eval(e, m0, y, x)
  }

  lemma SameElement(m0: seq<real>, m: seq<real>, m': seq<real>, direct: seq<real>, dst: Tensor, sv: Saver, e: Exp,
                    e': Exp, y: int, x: int)
    requires Assigns(m0, direct, dst, sv, e) && Assigns(m, m', dst, sv, e') && InStorage(dst, y, x)
    requires At(m, dst.Addr(y, x)) == At(m0, dst.Addr(y, x)) && Eval(e', m, y, x) == Eval(e, m0, y, x)
    ensures At(m', dst.Addr(y, x)) == At(direct, dst.Addr(y, x))
  {
    assert Assigned(m0, dst, sv, e)(Cell(y, x)) == sv(At(m0, dst.Addr(y, x)), Eval(e, m0, y, x));
    assert Assigned(m, dst, sv, e')(Cell(y, x)) == sv(At(m, dst.Addr(y, x)), Eval(e', m, y, x));
  }

  /** Equal values over equal old elements, stored to dst, and nothing else but the temporaries changed. */
  lemma SameStored(m0: seq<real>, m: seq<real>, m': seq<real>, direct: seq<real>, dst: Tensor, sv: Saver, e: Exp,
                   e': Exp, ts: set<Tensor>)
    requires Assigns(m0, direct, dst, sv, e) && Assigns(m, m', dst, sv, e')
    requires AgreeOutside(m0, m, ts) && SameWorth(e, m0, e', m, dst)
    ensures AgreeOutside(m', direct, ts)
  {
    forall a | forall t :: t in ts ==> Outside(t, a) ensures At(m', a) == At(direct, a) {
      assert At(m, a) == At(m0, a);
      if !Outside(dst, a) {
        var y, x :| InStorage(dst, y, x) && dst.Addr(y, x) == a;
        SameElement(m0, m, m', direct, dst, sv, e, e', y, x);
      }
    }
  }

  lemma OneChanged(m0: seq<real>, m: seq<real>, t: Tensor, sv: Saver, e: Exp)
    requires Assigns(m0, m, t, sv, e)
    ensures AgreeOutside(m0, m, {t})
  {}

  lemma TwoChanged(m0: seq<real>, m1: seq<real>, m2: seq<real>, t1: Tensor, t2: Tensor, sv: Saver, e1: Exp, e2: Exp)
    requires Assigns(m0, m1, t1, sv, e1) && Assigns(m1, m2, t2, sv, e2)
    ensures AgreeOutside(m0, m2, {t1, t2})
  {}

  /**
    Unary substitution. Assigning f(e) is assigning e to a temporary and then f of the temporary, for any
    expression e, any f and any saver.
   */
  lemma UnarySubstitution(m0: seq<real>, m1: seq<real>, m2: seq<real>, direct: seq<real>, dst: Tensor, sv: Saver,
                          f: real -> real, e: Exp, t: Tensor)
    requires dst.shape.Valid() && Accepts(Unary(f, e), dst) && Temporary(t, dst)
    requires Assigns(m0, direct, dst, sv, Unary(f, e))
    requires Assigns(m0, m1, t, SaveTo(), e) && Assigns(m1, m2, dst, sv, Unary(f, Leaf(t)))
    ensures Accepts(e, t) && Accepts(Unary(f, Leaf(t)), dst)
    ensures AgreeOutside(m2, direct, {t})
  {
    var n := |dst.shape.dims|;
    UnaryStep(f, e, n);
    LeafAccepted(t, n);
    UnaryStep(f, Leaf(t), n);
    AssignedHolds(m0, m1, t, e);
    OneChanged(m0, m1, t, SaveTo(), e);
    forall y, x | InStorage(dst, y, x) ensures Eval(Unary(f, Leaf(t)), m1, y, x) == Eval(Unary(f, e), m0, y, x) {
      TemporaryValue(t, m1, e, m0, y, x);
    }
    assert SameWorth(Unary(f, e), m0, Unary(f, Leaf(t)), m1, dst);
    SameStored(m0, m1, m2, direct, dst, sv, Unary(f, e), Unary(f, Leaf(t)), {t});
  }

  /** Both operands of an accepted binary node are accepted where the node is. */
  lemma OperandsAccepted(f: (real, real) -> real, e1: Exp, e2: Exp, dst: Tensor)
    requires dst.shape.Valid() && Accepts(Binary(f, e1, e2), dst) && Obligations(Binary(f, e1, e2))
    ensures Accepts(e1, dst) && Accepts(e2, dst) && Obligations(e2) && TrueMark(e2)
  {
    var n := |dst.shape.dims|;
    if KDim(e1) == 0 { ScalarOperand(e1, n); }
    if KDim(e2) == 0 { ScalarOperand(e2, n); }
  }

  lemma AcceptsSameDims(e: Exp, t: Tensor, dst: Tensor)
    requires Accepts(e, dst) && t.shape.dims == dst.shape.dims
    ensures Accepts(e, t)
  {}

  lemma TemporariesAccepted(f: (real, real) -> real, t1: Tensor, t2: Tensor, dst: Tensor)
    requires dst.shape.Valid() && t1.shape.dims == t2.shape.dims == dst.shape.dims
    ensures Accepts(Binary(f, Leaf(t1), Leaf(t2)), dst)
  {
    LeafAccepted(t1, |dst.shape.dims|);
    LeafAccepted(t2, |dst.shape.dims|);
    BinaryStep(f, Leaf(t1), Leaf(t2));
  }

  /** e1 assigned to t1, then e2 to t2, then f of the two temporaries to dst. */
  ghost predicate InThreeSteps(m0: seq<real>, m1: seq<real>, m2: seq<real>, m3: seq<real>, dst: Tensor, sv: Saver,
                               f: (real, real) -> real, e1: Exp, e2: Exp, t1: Tensor, t2: Tensor)
  {
    && Assigns(m0, m1, t1, SaveTo(), e1) && Assigns(m1, m2, t2, SaveTo(), e2)
    && Assigns(m2, m3, dst, sv, Binary(f, Leaf(t1), Leaf(t2)))
  }

  /** What the two temporaries hold before the third step. */
  lemma TemporariesHold(m0: seq<real>, m1: seq<real>, m2: seq<real>, e1: Exp, e2: Exp, t1: Tensor, t2: Tensor)
    requires Assigns(m0, m1, t1, SaveTo(), e1) && Assigns(m1, m2, t2, SaveTo(), e2)
    requires Disjoint(t1, t2) && Apart(e2, t1) && Accepts(e2, t2) && Obligations(e2) && TrueMark(e2)
    ensures Holds(t1, m2, e1, m0) && Holds(t2, m2, e2, m0)
  {
    AssignedHolds(m0, m1, t1, e1);
    StillHolds(m0, m1, m2, t1, e1, t2, SaveTo(), e2);
    AssignedHolds(m1, m2, t2, e2);
    forall y, x | InStorage(t2, y, x) ensures At(m2, t2.Addr(y, x)) == Eval(e2, m0, y, x) {
      AcceptedReads(e2, t2, y, x);
      Unaffected(m0, m1, t1, SaveTo(), e1, e2, y, x);
    }
  }

  lemma BinaryValue(f: (real, real) -> real, t1: Tensor, t2: Tensor, m: seq<real>, e1: Exp, e2: Exp, m0: seq<real>,
                    y: int, x: int)
    requires Holds(t1, m, e1, m0) && Holds(t2, m, e2, m0) && InStorage(t1, y, x) && InStorage(t2, y, x)
    ensures Eval(Binary(f, Leaf(t1), Leaf(t2)), m, y, x) == Eval(Binary(f, e1, e2), m0, y, x)
  {
    TemporaryValue(t1, m, e1, m0, y, x);
    TemporaryValue(t2, m, e2, m0, y, x);
  }

  /**
    Binary substitution. For any expressions e1 and e2, any f and any saver, assigning f(e1, e2) leaves in memory,
    outside the temporaries, what assigning e1 and e2 to disjoint temporaries and then f of those to dst leaves.
   */
  lemma BinarySubstitution(m0: seq<real>, m1: seq<real>, m2: seq<real>, m3: seq<real>, direct: seq<real>, dst: Tensor,
                           sv: Saver, f: (real, real) -> real, e1: Exp, e2: Exp, t1: Tensor, t2: Tensor)
    requires dst.shape.Valid() && Accepts(Binary(f, e1, e2), dst) && Obligations(Binary(f, e1, e2))
    requires Temporary(t1, dst) && Temporary(t2, dst) && Disjoint(t1, t2) && Apart(e2, t1)
    requires Assigns(m0, direct, dst, sv, Binary(f, e1, e2))
    requires InThreeSteps(m0, m1, m2, m3, dst, sv, f, e1, e2, t1, t2)
    ensures Accepts(e1, t1) && Accepts(e2, t2) && Accepts(Binary(f, Leaf(t1), Leaf(t2)), dst)
    ensures AgreeOutside(m3, direct, {t1, t2})
  {
    OperandsAccepted(f, e1, e2, dst);
    AcceptsSameDims(e1, t1, dst);
    AcceptsSameDims(e2, t2, dst);
    TemporariesAccepted(f, t1, t2, dst);
    TemporariesHold(m0, m1, m2, e1, e2, t1, t2);
    TwoChanged(m0, m1, m2, t1, t2, SaveTo(), e1, e2);
    forall y, x | InStorage(dst, y, x)
      ensures Eval(Binary(f, Leaf(t1), Leaf(t2)), m2, y, x) == Eval(Binary(f, e1, e2), m0, y, x)
    {
      BinaryValue(f, t1, t2, m2, e1, e2, m0, y, x);
    }
    SameStored(m0, m2, m3, direct, dst, sv, Binary(f, e1, e2), Binary(f, Leaf(t1), Leaf(t2)), {t1, t2});
  }

  lemma OperatorStep(op: TensorOp, src: Exp, dim: nat)
    requires KDim(src) >= 1 && ShapeCheck(src, KDim(src)).Some?
    ensures KDim(MakeTensor(op, src)) == OpDim(op, KDim(src))
    ensures ShapeCheck(MakeTensor(op, src), dim) ==
            (match OpShape(op, DimsOf(src)) case None => None case Some(d) => Of(dim, d))
  {}

  function OpDim(op: TensorOp, dim: int): int {
    match op
    case UnpackPatch(_, _) => 2
    case Reshape(shape) => |shape|
    case _ => dim
  }

  /** A temporary of the source's shape can take its place under a tensor operator. */
  lemma OperatorShapes(op: TensorOp, src: Exp, t: Tensor)
    requires KDim(src) >= 1 && ShapeCheck(src, KDim(src)).Some? && t.shape.Valid() && t.shape.dims == DimsOf(src)
    ensures forall dim :: ShapeCheck(MakeTensor(op, Leaf(t)), dim) == ShapeCheck(MakeTensor(op, src), dim)
    ensures KDim(MakeTensor(op, Leaf(t))) == KDim(MakeTensor(op, src))
    ensures DimsOf(MakeTensor(op, Leaf(t))) == DimsOf(MakeTensor(op, src))
  {
    LeafAccepted(t, KDim(src));
    forall dim: nat ensures ShapeCheck(MakeTensor(op, Leaf(t)), dim) == ShapeCheck(MakeTensor(op, src), dim) {
      OperatorStep(op, src, dim);
      OperatorStep(op, Leaf(t), dim);
    }
    OperatorStep(op, src, 0);
    OperatorStep(op, Leaf(t), 0);
  }

  lemma OperatorValue(op: TensorOp, src: Exp, t: Tensor, m: seq<real>, m0: seq<real>, y: int, x: int)
    requires Checked(MakeTensor(op, src)) && InDimsTable(DimsOf(MakeTensor(op, src)), y, x)
    requires OpObligation(op, DimsOf(src)) && t.shape.Valid() && t.shape.dims == DimsOf(src) && Holds(t, m, src, m0)
    ensures Eval(MakeTensor(op, Leaf(t)), m, y, x) == Eval(MakeTensor(op, src), m0, y, x)
  {
    var s, d := DimsOf(src), DimsOf(MakeTensor(op, src));
    OperatorShapes(op, src, t);
    LeafAccepted(t, KDim(src));
    OpReads(op, s, d, y, x);
    var cells := SourceCells(op, s, d, y, x);
    MakeTensorIsFold(op, src, m0, y, x);
    MakeTensorIsFold(op, Leaf(t), m, y, x);
    forall c | c in cells ensures EvalAt(Leaf(t), m)(c) == EvalAt(src, m0)(c) {
      TemporaryValue(t, m, src, m0, c.y, c.x);
    }
    FoldExt(OpReducer(op), OpReducer(op).InitV(), cells, EvalAt(Leaf(t), m), EvalAt(src, m0));
  }

  /**
    Substitution under a tensor operator. Assigning op(e) is assigning e to a temporary of e's shape and then op of the
    temporary: pooling, padding, unpacking patches and the others see only the values of their source.
   */
  lemma OperatorSubstitution(m0: seq<real>, m1: seq<real>, m2: seq<real>, direct: seq<real>, dst: Tensor, sv: Saver,
                             op: TensorOp, e: Exp, t: Tensor)
    requires dst.shape.Valid() && Accepts(MakeTensor(op, e), dst) && TrueMark(MakeTensor(op, e))
    requires OpObligation(op, DimsOf(e)) && t.shape.Valid() && t.shape.dims == DimsOf(e)
    requires Assigns(m0, direct, dst, sv, MakeTensor(op, e))
    requires Assigns(m0, m1, t, SaveTo(), e) && Assigns(m1, m2, dst, sv, MakeTensor(op, Leaf(t)))
    ensures Accepts(e, t) && Accepts(MakeTensor(op, Leaf(t)), dst)
    ensures AgreeOutside(m2, direct, {t})
  {
    OperatorShapes(op, e, t);
    AssignedHolds(m0, m1, t, e);
    OneChanged(m0, m1, t, SaveTo(), e);
    forall y, x | InStorage(dst, y, x)
      ensures Eval(MakeTensor(op, Leaf(t)), m1, y, x) == Eval(MakeTensor(op, e), m0, y, x)
    {
      OperatorValue(op, e, t, m1, m0, y, x);
    }
    assert SameWorth(MakeTensor(op, e), m0, MakeTensor(op, Leaf(t)), m1, dst);
    SameStored(m0, m1, m2, direct, dst, sv, MakeTensor(op, e), MakeTensor(op, Leaf(t)), {t});
  }
}
