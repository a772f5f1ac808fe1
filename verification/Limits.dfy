/**
  Where the engine's checks stop short of its promises: exactly which callers are affected, and a concrete
  case for each.
 */
module Limits {
  import opened Arith
  import opened Assignment
  import opened Expressions
  import opened Grid
  import opened Layout
  import opened Memory
  import opened Shapes
  import opened Soundness
  import opened Wrappers

  /** Elementwise maps, and the operators that read one cell and lose no element: reshape, swapaxis and mirror. */
  predicate Rearranging(e: Exp) {
    match e
    case Scalar(_) => true
    case Leaf(_) => true
    case Unary(_, src) => Rearranging(src)
    case Binary(_, l, r) => Rearranging(l) && Rearranging(r)
    case MakeTensor(op, src) => (op.Reshape? || op.SwapAxis? || op.Mirroring?) && Rearranging(src)
    case _ => false
  }

  predicate AllPositive(dims: seq<nat>) { forall k :: 0 <= k < |dims| ==> dims[k] > 0 }

  lemma {:induction false} ProdPositive(dims: seq<nat>, n: nat)
    requires n <= |dims|
    ensures Prod(dims, 0, n) > 0 <==> forall k :: 0 <= k < n ==> dims[k] > 0
  {
    if n > 0 {
      ProdPositive(dims, n - 1);
      var p, d := Prod(dims, 0, n - 1), dims[n - 1];
      if p > 0 && d > 0 { MulMono(1, p, d); }
    }
  }

  lemma ReshapedPositive(s: seq<nat>, d: seq<nat>)
    requires Prod(s, 0, |s|) == Prod(d, 0, |d|) && AllPositive(s)
    ensures AllPositive(d)
  {
    ProdPositive(s, |s|);
    ProdPositive(d, |d|);
  }

  /** e keeps its obligations, and if it is a tensor it has no empty dimension. */
  predicate Sound(e: Exp) {
    Obligations(e) && TrueMark(e) && (KDim(e) > 0 ==> |DimsOf(e)| == KDim(e) && AllPositive(DimsOf(e)))
  }

  /** If such an expression reads in bounds at one cell, no tensor in it carries the scalar mark. */
  lemma {:induction false} ReadsImplyTrueMarks(e: Exp, dim: nat, y: int, x: int)
    requires Rearranging(e) && AllReads(e, y, x, InStorage) && dim >= 1
    requires (KDim(e) == 0 || KDim(e) == dim) && ShapeCheck(e, dim).Some?
    ensures Sound(e)
  {
    match e
    case Leaf(t) => LeafIsSound(t, if |t.shape.dims| == 1 then 0 else y, x);
    case Unary(_, src) => ReadsImplyTrueMarks(src, dim, y, x);
    case Binary(_, l, r) =>
      ReadsImplyTrueMarks(l, dim, y, x);
      ReadsImplyTrueMarks(r, dim, y, x);
      if KDim(l) == 0 { ScalarOperand(l, dim); }
      if KDim(r) == 0 { ScalarOperand(r, dim); }
    case MakeTensor(op, src) =>
      var c := OperatorCell(op, src, dim, y, x);
      ReadsImplyTrueMarks(src, KDim(src), c.y, c.x);
      OperatorIsSound(op, src, dim);
    case _ =>
  }

  /** The one cell that such an operator reads. */
  lemma OperatorCell(op: TensorOp, src: Exp, dim: nat, y: int, x: int) returns (c: Cell)
    requires var e := MakeTensor(op, src);
             Rearranging(e) && AllReads(e, y, x, InStorage) && ShapeCheck(e, dim).Some? && KDim(e) == dim >= 1
    ensures Rearranging(src) && AllReads(src, c.y, c.x, InStorage) && KDim(src) >= 1 && ShapeCheck(src, KDim(src)).Some?
  {
    var cells := SourceCells(op, DimsOf(src), DimsOf(MakeTensor(op, src)), y, x);
    assert |cells| == 1 && cells[0] in cells;
    c := cells[0];
  }

  lemma OperatorIsSound(op: TensorOp, src: Exp, dim: nat)
    requires var e := MakeTensor(op, src); Rearranging(e) && ShapeCheck(e, dim).Some? && KDim(e) == dim >= 1
    requires Sound(src)
    ensures Sound(MakeTensor(op, src))
  {
    if op.Reshape? { ReshapedPositive(DimsOf(src), DimsOf(MakeTensor(op, src))); }
  }

  lemma LeafIsSound(t: Tensor, y: int, x: int)
    requires InStorage(t, y, x)
    ensures Sound(Leaf(t))
  {
    NonzeroDims(t.shape.dims, y, x, 0, 0);
  }

  /**
    For such an expression accepted by MapExp and a destination with at least one element: all reads stay inside
    storage if and only if no operand that is a tensor has width 0, the mark of a scalar.
   */
  lemma RearrangingSafeIff(e: Exp, dst: Tensor, y0: int, x0: int)
    requires Rearranging(e) && Accepts(e, dst) && InStorage(dst, y0, x0)
    ensures (forall y, x :: InStorage(dst, y, x) ==> AllReads(e, y, x, InStorage)) <==> Obligations(e) && TrueMark(e)
  {
    if forall y, x :: InStorage(dst, y, x) ==> AllReads(e, y, x, InStorage) {
      ReadsImplyTrueMarks(e, |dst.shape.dims|, y0, x0);
    }
    if Obligations(e) && TrueMark(e) {
      forall y, x | InStorage(dst, y, x) ensures AllReads(e, y, x, InStorage) {
        AcceptedReads(e, dst, y, x);
      }
    }
  }

  /** The equivalence ends there: a crop to width 0 carries the mark of a scalar and still reads in bounds. */
  lemma EmptyCropReadsInBounds(p: nat, q: nat)
    ensures var leaf, dst := Leaf(Tensor(p, Shape([1, 1], 1))), Tensor(q, Shape([1, 1], 1));
            var e := MakeTensor(Cropping(1, 0, None), leaf);
            && Accepts(e, dst) && !TrueMark(e)
            && forall y, x :: InStorage(dst, y, x) ==> AllReads(e, y, x, InStorage)
  {
    var leaf, dst := Leaf(Tensor(p, Shape([1, 1], 1))), Tensor(q, Shape([1, 1], 1));
    var op := Cropping(1, 0, None);
    var e := MakeTensor(op, leaf);
    var s: seq<nat>, d: seq<nat> := [1, 1], [0, 1];
    assert OpShape(op, s) == Some(d) by { assert d + s[2..] == d; }
    assert KDim(leaf) == KDim(e) == 2;
    assert ShapeCheck(leaf, 2) == Some(s);
    assert ShapeCheck(e, 2) == Some(d);
    assert DimsOf(e) == d && DimsOf(leaf) == s;
    assert Prod(s, 1, 2) == 1 by { assert Prod(s, 1, 1) == 1; }
    forall y, x | InStorage(dst, y, x) ensures AllReads(e, y, x, InStorage) {
      assert y == 0 && x == 0;
      assert SourceCells(op, s, d, 0, 0) == [Cell(0, 0)];
      assert Divisors(op, s, d) == [1];
      assert InStorage(leaf.t, 0, 0);
    }
  }

  /** An empty tensor assigned to a tensor with an element is accepted, and read out of bounds. */
  lemma ZeroWidthAccepted(p: nat, q: nat)
    ensures var e, dst := Leaf(Tensor(p, Shape([0], 0))), Tensor(q, Shape([1], 1));
            Accepts(e, dst) && InStorage(dst, 0, 0) && !AllReads(e, 0, 0, InStorage)
  {
    var e, dst := Leaf(Tensor(p, Shape([0], 0))), Tensor(q, Shape([1], 1));
    assert ShapeCheck(e, 1) == Some([0]);
    assert dst.shape.Rows() == 1;
  }

  /** The last cell of the last plane of a crop, and the source cell it reads. */
  lemma LastCropCell(planes: nat, height: nat, cheight: nat, cwidth: nat, top: nat, left: nat)
    requires planes > 0 && cheight > 0 && cwidth > 0
    ensures var y, x := (planes - 1) * cheight + (cheight - 1), cwidth - 1;
            && 0 <= y < planes * cheight
            && CropCell(top, left, cheight, height, y, x) ==
               Cell((planes - 1) * height + top + cheight - 1, left + cwidth - 1)
  {
    Digits(planes - 1, cheight - 1, cheight);
    DigitsBound(planes - 1, cheight - 1, planes, cheight);
  }

  /** A crop that reads inside its source in its last cell fits. */
  lemma CropMustFit(s: seq<nat>, cheight: nat, cwidth: nat, top: nat, left: nat, d: seq<nat>, y: int, x: int)
    requires |s| >= 2 && OpShape(Cropping(cheight, cwidth, Some((top, left))), s) == Some(d)
    requires Prod(s, 2, |s|) > 0 && cheight > 0 && cwidth > 0
    requires y == (Prod(s, 2, |s|) - 1) * cheight + (cheight - 1) && x == cwidth - 1
    requires OpReadsIn(Cropping(cheight, cwidth, Some((top, left))), s, d, y, x)
    ensures top + cheight <= s[1] && left + cwidth <= s[0]
  {
    var op, planes := Cropping(cheight, cwidth, Some((top, left))), Prod(s, 2, |s|);
    BatchRows(s);
    LastCropCell(planes, s[1], cheight, cwidth, top, left);
    var c := CropCell(top, left, cheight, s[1], y, x);
    assert SourceCells(op, s, d, y, x) == [c];
    assert c in SourceCells(op, s, d, y, x);
    LastRow(planes, s[1], top + cheight);
  }

  lemma LastRow(planes: nat, height: nat, end: nat)
    requires planes > 0 && end > 0 && (planes - 1) * height + end - 1 < planes * height
    ensures end <= height
  {
    assert (planes - 1) * height + height == planes * height;
  }

  /** A crop that has a cell has a last one. */
  lemma LastCellOfCrop(s: seq<nat>, cheight: nat, cwidth: nat, d: seq<nat>, y0: int, x0: int)
    requires |s| >= 2 && d == [cwidth, cheight] + s[2..] && InDimsTable(d, y0, x0)
    ensures cheight > 0 && cwidth > 0 && Prod(s, 2, |s|) > 0
    ensures InDimsTable(d, (Prod(s, 2, |s|) - 1) * cheight + (cheight - 1), cwidth - 1)
  {
    var planes := Prod(s, 2, |s|);
    BatchRows(d);
    TailProd(d, s);
    SplitBound(y0, planes, cheight);
    DigitsBound(planes - 1, cheight - 1, planes, cheight);
  }

  /**
    A crop with an explicit start keeps every read inside its source if and only if the cropped window fits:
    the constructor checks the size but not start plus size.
   */
  lemma CropSafeIff(s: seq<nat>, cheight: nat, cwidth: nat, top: nat, left: nat, d: seq<nat>, y0: int, x0: int)
    requires |s| >= 2 && OpShape(Cropping(cheight, cwidth, Some((top, left))), s) == Some(d) && InDimsTable(d, y0, x0)
    ensures var op := Cropping(cheight, cwidth, Some((top, left)));
            (forall y, x :: InDimsTable(d, y, x) ==> OpReadsIn(op, s, d, y, x)) <==>
            top + cheight <= s[1] && left + cwidth <= s[0]
  {
    var op := Cropping(cheight, cwidth, Some((top, left)));
    if top + cheight <= s[1] && left + cwidth <= s[0] {
      forall y, x | InDimsTable(d, y, x) ensures OpReadsIn(op, s, d, y, x) { OpReads(op, s, d, y, x); }
    }
    if forall y, x :: InDimsTable(d, y, x) ==> OpReadsIn(op, s, d, y, x) {
      LastCellOfCrop(s, cheight, cwidth, d, y0, x0);
      CropMustFit(s, cheight, cwidth, top, left, d, (Prod(s, 2, |s|) - 1) * cheight + (cheight - 1), cwidth - 1);
    }
  }

  /** A crop of a 4 x 4 image to 2 x 2 from row 3 is accepted, and its second row is read outside the image. */
  lemma CropReadsOutside()
    ensures var op := Cropping(2, 2, Some((3, 0)));
            && OpShape(op, [4, 4]) == Some([2, 2]) && InDimsTable([2, 2], 1, 0)
            && !OpReadsIn(op, [4, 4], [2, 2], 1, 0)
  {
    var op := Cropping(2, 2, Some((3, 0)));
    assert [2, 2] + [4, 4][2..] == [2, 2];
    assert Prod([2, 2], 1, 2) == 2 by { assert Prod([2, 2], 1, 1) == 1; }
    assert Prod([4, 4], 1, 2) == 4 by { assert Prod([4, 4], 1, 1) == 1; }
    assert SourceCells(op, [4, 4], [2, 2], 1, 0) == [Cell(4, 0)];
    assert Cell(4, 0) in SourceCells(op, [4, 4], [2, 2], 1, 0);
  }
}
