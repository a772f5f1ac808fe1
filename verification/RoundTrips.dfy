/** Expressions that rearrange their source: what they read, and which of them undo each other. */
module RoundTrips {
  import opened Adjoints
  import opened Arith
  import opened Expressions
  import opened Grid
  import opened Layout
  import opened Reducers
  import opened Plans
  import opened Shapes
  import opened Soundness
  import opened Wrappers

  /** An operator that reads a single cell has that cell's value. */
  lemma GatherValue(op: TensorOp, src: Exp, m: seq<real>, y: int, x: int, c: Cell)
    requires OpReducer(op) == SumRed && SourceCells(op, DimsOf(src), DimsOf(MakeTensor(op, src)), y, x) == [c]
    ensures Eval(MakeTensor(op, src), m, y, x) == Eval(src, m, c.y, c.x)
  {
    MakeTensorIsFold(op, src, m, y, x);
    FoldOne(SumRed, 0.0, c, EvalAt(src, m));
  }

  function SwapExp(src: Exp, a1: nat, a2: nat): Exp { MakeTensor(SwapAxis(a1, a2), src) }
  function ReshapeExp(src: Exp, shape: seq<nat>): Exp { MakeTensor(Reshape(shape), src) }

  lemma SwapDims(src: Exp, a1: nat, a2: nat)
    requires Checked(SwapExp(src, a1, a2))
    ensures Checked(src) && a1 < a2 < |DimsOf(src)| && DimsOf(SwapExp(src, a1, a2)) == Swapped(DimsOf(src), a1, a2)
  {
  }

  /** swapaxis<a1,a2> reads, at every multi-index, the element with those two coordinates exchanged. */
  lemma SwapAxisMeans(src: Exp, a1: nat, a2: nat, m: seq<real>, idx: seq<nat>)
    requires Checked(SwapExp(src, a1, a2)) && InDims(DimsOf(SwapExp(src, a1, a2)), idx) && a1 < a2 < |idx|
    ensures |DimsOf(src)| == |idx| == |DimsOf(SwapExp(src, a1, a2))|
    ensures var c, s := CellOf(DimsOf(SwapExp(src, a1, a2)), idx), CellOf(DimsOf(src), Swapped(idx, a1, a2));
            Eval(SwapExp(src, a1, a2), m, c.y, c.x) == Eval(src, m, s.y, s.x)
  {
    SwapDims(src, a1, a2);
    var d := DimsOf(SwapExp(src, a1, a2));
    SwapSwapsCoordinates(d, a1, a2, idx);
    assert Swapped(d, a1, a2) == DimsOf(src);
    var c := CellOf(d, idx);
    GatherValue(SwapAxis(a1, a2), src, m, c.y, c.x, SwapCell(d, a1, a2, c.y, c.x));
  }

  /** Swapping the same two axes twice gives back every element. */
  lemma SwapAxisTwice(src: Exp, a1: nat, a2: nat, m: seq<real>, y: int, x: int)
    requires Checked(SwapExp(SwapExp(src, a1, a2), a1, a2)) && InDimsTable(DimsOf(src), y, x)
    ensures DimsOf(SwapExp(SwapExp(src, a1, a2), a1, a2)) == DimsOf(src)
    ensures Eval(SwapExp(SwapExp(src, a1, a2), a1, a2), m, y, x) == Eval(src, m, y, x)
  {
    var once, twice := SwapExp(src, a1, a2), SwapExp(SwapExp(src, a1, a2), a1, a2);
    SwapDims(once, a1, a2);
    SwapDims(src, a1, a2);
    var d := DimsOf(src);
    assert Swapped(Swapped(d, a1, a2), a1, a2) == d;
    SwapTwice(d, a1, a2, y, x);
    var c := SwapCell(d, a1, a2, y, x);
    GatherValue(SwapAxis(a1, a2), once, m, y, x, c);
    GatherValue(SwapAxis(a1, a2), src, m, c.y, c.x, Cell(y, x));
  }

  lemma ReshapeDims(src: Exp, shape: seq<nat>)
    requires Checked(ReshapeExp(src, shape))
    ensures Checked(src) && |DimsOf(src)| >= 1 && |shape| >= 1 && DimsOf(ReshapeExp(src, shape)) == shape
    ensures Prod(DimsOf(src), 1, |DimsOf(src)|) * DimsOf(src)[0] == Prod(shape, 1, |shape|) * shape[0]
  {
    ProdHead(DimsOf(src), 0, |DimsOf(src)|);
    ProdHead(shape, 0, |shape|);
  }

  lemma ReshapeValue(src: Exp, shape: seq<nat>, m: seq<real>, y: int, x: int)
    requires Checked(ReshapeExp(src, shape))
    ensures var c := ReshapeCell(Dim(shape, 0), Dim(DimsOf(src), 0), y, x);
            Eval(ReshapeExp(src, shape), m, y, x) == Eval(src, m, c.y, c.x)
  {
    ReshapeDims(src, shape);
    GatherValue(Reshape(shape), src, m, y, x, ReshapeCell(shape[0], DimsOf(src)[0], y, x));
  }

  lemma ReshapeAccepted(src: Exp, mid: seq<nat>, shape: seq<nat>)
    requires Checked(ReshapeExp(ReshapeExp(src, mid), shape))
    ensures Checked(ReshapeExp(src, shape)) && DimsOf(ReshapeExp(src, shape)) == shape
  {
    ReshapeDims(ReshapeExp(src, mid), shape);
    ReshapeDims(src, mid);
  }

  /** Reshaping twice is reshaping to the second shape. */
  lemma ReshapeOfReshape(src: Exp, mid: seq<nat>, shape: seq<nat>, m: seq<real>, y: int, x: int)
    requires Checked(ReshapeExp(ReshapeExp(src, mid), shape)) && InDimsTable(shape, y, x)
    ensures Checked(ReshapeExp(src, shape))
    ensures Eval(ReshapeExp(ReshapeExp(src, mid), shape), m, y, x) == Eval(ReshapeExp(src, shape), m, y, x)
  {
    ReshapeDims(ReshapeExp(src, mid), shape);
    ReshapeDims(src, mid);
    ReshapeChain(shape[0], Prod(shape, 1, |shape|), mid[0], Prod(mid, 1, |mid|), DimsOf(src)[0], y, x);
    ReshapeValue(ReshapeExp(src, mid), shape, m, y, x);
    var c := ReshapeCell(shape[0], mid[0], y, x);
    ReshapeValue(src, mid, m, c.y, c.x);
    ReshapeValue(src, shape, m, y, x);
  }

  /** a and b have the same shape and, there, the same values. */
  ghost predicate SameValues(a: Exp, b: Exp, m: seq<real>) {
    && Checked(a) && Checked(b) && DimsOf(a) == DimsOf(b)
    && forall y, x :: InDimsTable(DimsOf(a), y, x) ==> Eval(a, m, y, x) == Eval(b, m, y, x)
  }

  lemma ReshapeCellInside(src: Exp, shape: seq<nat>, y: int, x: int)
    requires Checked(ReshapeExp(src, shape)) && InDimsTable(shape, y, x)
    ensures var c := ReshapeCell(Dim(shape, 0), Dim(DimsOf(src), 0), y, x); InDimsTable(DimsOf(src), c.y, c.x)
  {
    ReshapeDims(src, shape);
    var s := DimsOf(src);
    ReshapeKeepsOrder(shape[0], Prod(shape, 1, |shape|), s[0], Prod(s, 1, |s|), y, x);
  }

  lemma ReshapeSameValues(a: Exp, b: Exp, shape: seq<nat>, m: seq<real>)
    requires Checked(ReshapeExp(a, shape)) && SameValues(a, b, m)
    ensures SameValues(ReshapeExp(a, shape), ReshapeExp(b, shape), m)
  {
    ReshapeDims(a, shape);
    ReshapeDims(b, shape);
    forall y, x | InDimsTable(shape, y, x)
      ensures Eval(ReshapeExp(a, shape), m, y, x) == Eval(ReshapeExp(b, shape), m, y, x)
    {
      ReshapeCellInside(a, shape, y, x);
      ReshapeValue(a, shape, m, y, x);
      ReshapeValue(b, shape, m, y, x);
    }
  }

  function ReshapeAll(src: Exp, shapes: seq<seq<nat>>): Exp {
    if shapes == [] then src else ReshapeExp(ReshapeAll(src, shapes[..|shapes| - 1]), shapes[|shapes| - 1])
  }

  /** Reshaping through a chain of any length is reshaping to the last shape, and is accepted if the chain is. */
  lemma {:induction false} ReshapeChainIsLast(src: Exp, shapes: seq<seq<nat>>, m: seq<real>)
    requires shapes != [] && Checked(ReshapeAll(src, shapes))
    ensures SameValues(ReshapeAll(src, shapes), ReshapeExp(src, shapes[|shapes| - 1]), m)
  {
    var n := |shapes| - 1;
    var last, init := shapes[n], shapes[..n];
    ReshapeDims(ReshapeAll(src, init), last);
    if n > 0 {
      var mid := ReshapeExp(src, shapes[n - 1]);
      ReshapeChainIsLast(src, init, m);
      ReshapeSameValues(ReshapeAll(src, init), mid, last, m);
      ReshapeTwice(src, shapes[n - 1], last, m);
    }
  }

  lemma ReshapeTwice(src: Exp, mid: seq<nat>, shape: seq<nat>, m: seq<real>)
    requires Checked(ReshapeExp(ReshapeExp(src, mid), shape))
    ensures SameValues(ReshapeExp(ReshapeExp(src, mid), shape), ReshapeExp(src, shape), m)
  {
    ReshapeDims(ReshapeExp(src, mid), shape);
    ReshapeAccepted(src, mid, shape);
    forall y, x | InDimsTable(shape, y, x)
      ensures Eval(ReshapeExp(ReshapeExp(src, mid), shape), m, y, x) == Eval(ReshapeExp(src, shape), m, y, x)
    {
      ReshapeOfReshape(src, mid, shape, m, y, x);
    }
  }

  /** Reshaping to any shape of equal size and back is the identity. */
  lemma ReshapeThereAndBack(src: Exp, mid: seq<nat>, m: seq<real>, y: int, x: int)
    requires Checked(ReshapeExp(ReshapeExp(src, mid), DimsOf(src))) && InDimsTable(DimsOf(src), y, x)
    ensures Eval(ReshapeExp(ReshapeExp(src, mid), DimsOf(src)), m, y, x) == Eval(src, m, y, x)
  {
    ReshapeOfReshape(src, mid, DimsOf(src), m, y, x);
    ReshapeToItself(src, m, y, x);
  }

  lemma SameCell(width: nat, y: int, x: int)
    requires 0 <= x < width
    ensures ReshapeCell(width, width, y, x) == Cell(y, x)
  {
    Digits(y, x, width);
  }

  lemma ReshapeToItself(src: Exp, m: seq<real>, y: int, x: int)
    requires Checked(ReshapeExp(src, DimsOf(src))) && InDimsTable(DimsOf(src), y, x)
    ensures Eval(ReshapeExp(src, DimsOf(src)), m, y, x) == Eval(src, m, y, x)
  {
    ReshapeValue(src, DimsOf(src), m, y, x);
    SameCell(Dim(DimsOf(src), 0), y, x);
  }

  function PadExp(src: Exp, pad: nat): Exp { MakeTensor(Padding(pad), src) }
  function CropExp(src: Exp, height: nat, width: nat): Exp { MakeTensor(Cropping(height, width, None), src) }

  lemma PadShape(src: Exp, pad: nat)
    requires Checked(PadExp(src, pad))
    ensures Checked(src) && |DimsOf(src)| >= 2
    ensures var s := DimsOf(src); DimsOf(PadExp(src, pad)) == [s[0] + 2 * pad, s[1] + 2 * pad] + s[2..]
  {}

  lemma CropShape(src: Exp, height: nat, width: nat)
    requires Checked(src) && |DimsOf(src)| >= 2 && height <= DimsOf(src)[1] && width <= DimsOf(src)[0]
    ensures Checked(CropExp(src, height, width))
    ensures DimsOf(CropExp(src, height, width)) == [width, height] + DimsOf(src)[2..]
  {}

  lemma PadValue(src: Exp, pad: nat, m: seq<real>, y: int, x: int, c: Cell)
    requires Checked(PadExp(src, pad))
    requires var s := DimsOf(src); PadCell(pad, Dim(s, 1) + 2 * pad, Dim(s, 1), Dim(s, 0), y, x) == Some(c)
    ensures Eval(PadExp(src, pad), m, y, x) == Eval(src, m, c.y, c.x)
  {
    PadShape(src, pad);
    GatherValue(Padding(pad), src, m, y, x, c);
  }

  lemma CropValue(src: Exp, height: nat, width: nat, m: seq<real>, y: int, x: int)
    requires Checked(src) && |DimsOf(src)| >= 2 && height <= DimsOf(src)[1] && width <= DimsOf(src)[0]
    ensures var s := DimsOf(src);
            var c := CropCell((s[1] - height) / 2, (s[0] - width) / 2, height, s[1], y, x);
            Eval(CropExp(src, height, width), m, y, x) == Eval(src, m, c.y, c.x)
  {
    CropShape(src, height, width);
    var s := DimsOf(src);
    GatherValue(Cropping(height, width, None), src, m, y, x,
                CropCell((s[1] - height) / 2, (s[0] - width) / 2, height, s[1], y, x));
  }

  lemma CropOfPadShape(s: seq<nat>, padded: seq<nat>, pad: nat)
    requires |s| >= 2 && padded == [s[0] + 2 * pad, s[1] + 2 * pad] + s[2..]
    ensures |padded| >= 2 && padded[0] == s[0] + 2 * pad && padded[1] == s[1] + 2 * pad
    ensures (padded[0] - s[0]) / 2 == pad && (padded[1] - s[1]) / 2 == pad && [s[0], s[1]] + padded[2..] == s
  {}

  lemma CropOfPadCell(s: seq<nat>, pad: nat, y: int, x: int)
    requires |s| >= 2 && InDimsTable(s, y, x)
    ensures var c := CropCell(pad, pad, Dim(s, 1), Dim(s, 1) + 2 * pad, y, x);
            PadCell(pad, Dim(s, 1) + 2 * pad, Dim(s, 1), Dim(s, 0), c.y, c.x) == Some(Cell(y, x))
  {
    BatchRows(s);
    CropOfPad(pad, s[1], s[0], Prod(s, 2, |s|), y, x);
  }

  /** Cropping the centre of pad(src, p) to src's own size is src, for every p, batch and channel. */
  lemma CropOfPadIsSource(src: Exp, pad: nat, m: seq<real>, y: int, x: int)
    requires Checked(PadExp(src, pad)) && InDimsTable(DimsOf(src), y, x)
    ensures var s := DimsOf(src);
            var e := CropExp(PadExp(src, pad), Dim(s, 1), Dim(s, 0));
            Checked(e) && DimsOf(e) == s && Eval(e, m, y, x) == Eval(src, m, y, x)
  {
    PadShape(src, pad);
    var s, e := DimsOf(src), PadExp(src, pad);
    CropOfPadShape(s, DimsOf(e), pad);
    CropShape(e, s[1], s[0]);
    CropOfPadCell(s, pad, y, x);
    var c := CropCell(pad, pad, s[1], s[1] + 2 * pad, y, x);
    CropValue(e, s[1], s[0], m, y, x);
    PadValue(src, pad, m, c.y, c.x, Cell(y, x));
  }
}
