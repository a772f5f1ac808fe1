/** Index maps of the expressions that only rearrange their source: reshape, swapaxis, pad, crop, mirror. */
module Layout {
  import opened Arith
  import opened Grid
  import opened Shapes
  import opened Wrappers

  /** Source cell read by a reshape from rows of width iwidth to rows of width owidth. */
  function ReshapeCell(owidth: nat, iwidth: nat, y: int, x: int): Cell {
    var idx := y * owidth + x;
    Cell(Quot(idx, iwidth), Rem(idx, iwidth))
  }

  function FlatIndex(width: nat, c: Cell): int { c.y * width + c.x }

  /** A reshape of equal size keeps the flattened order and stays in range. */
  lemma ReshapeKeepsOrder(owidth: nat, orows: nat, iwidth: nat, irows: nat, y: int, x: int)
    requires InTable(Cell(y, x), orows, owidth) && orows * owidth == irows * iwidth
    ensures InTable(ReshapeCell(owidth, iwidth, y, x), irows, iwidth)
    ensures FlatIndex(iwidth, ReshapeCell(owidth, iwidth, y, x)) == y * owidth + x
  {
    DigitsBound(y, x, orows, owidth);
    SplitBound(y * owidth + x, irows, iwidth);
  }

  /** Reshaping through any intermediate width is the same as reshaping directly. */
  lemma ReshapeChain(owidth: nat, orows: nat, mwidth: nat, mrows: nat, iwidth: nat, y: int, x: int)
    requires InTable(Cell(y, x), orows, owidth) && orows * owidth == mrows * mwidth
    ensures var m := ReshapeCell(owidth, mwidth, y, x);
            ReshapeCell(mwidth, iwidth, m.y, m.x) == ReshapeCell(owidth, iwidth, y, x)
  {
    ReshapeKeepsOrder(owidth, orows, mwidth, mrows, y, x);
  }

  /** Source cell read by swapaxis<a1,a2> at (i, j) when its own shape is dims. */
  function SwapCell(dims: seq<nat>, a1: nat, a2: nat, i: int, j: int): Cell
    requires a1 < a2 < |dims|
  {
    if a1 == 0 then
      var shape0, shape1, shape2 := dims[0], Prod(dims, 1, a2), dims[a2];
      var y := Rem(i, shape1);
      var i1 := Quot(i, shape1);
      var z := Rem(i1, shape2);
      var n := Quot(i1, shape2);
      Cell((n * shape0 + j) * shape1 + y, z)
    else
      var shape1, shape2, shape3, shape4 := Prod(dims, 1, a1), dims[a1], Prod(dims, a1 + 1, a2), dims[a2];
      var y := Rem(i, shape1);
      var i1 := Quot(i, shape1);
      var z := Rem(i1, shape2);
      var i2 := Quot(i1, shape2);
      var c := Rem(i2, shape3);
      var i3 := Quot(i2, shape3);
      var n := Rem(i3, shape4);
      Cell((((Quot(i3, shape4) * shape2 + z) * shape3 + c) * shape4 + n) * shape1 + y, j)
  }

  function Swapped<T>(s: seq<T>, a1: nat, a2: nat): (r: seq<T>)
    requires a1 < |s| && a2 < |s|
    ensures |r| == |s| && r[a1] == s[a2] && r[a2] == s[a1]
    ensures forall k :: 0 <= k < |s| && k != a1 && k != a2 ==> r[k] == s[k]
  {
    s[a1 := s[a2]][a2 := s[a1]]
  }

  /** The flattened cell of a multi-index. */
  function CellOf(dims: seq<nat>, idx: seq<nat>): Cell
    requires |idx| == |dims| >= 1
  {
    Cell(Position(dims, idx, 1, |dims|), idx[0])
  }

  /** The digits of a row number around dimensions a1 and a2. */
  lemma RowDigits(dims: seq<nat>, idx: seq<nat>, a1: nat, a2: nat)
    requires InDims(dims, idx) && 1 <= a1 < a2 < |dims|
    ensures var top, mid, low := Position(dims, idx, a2 + 1, |dims|), Position(dims, idx, a1 + 1, a2),
            Position(dims, idx, 1, a1);
            && Position(dims, idx, 1, |dims|) ==
               Digits5(Prod(dims, 1, a1), dims[a1], Prod(dims, a1 + 1, a2), dims[a2], top, idx[a2], mid, idx[a1], low)
            && mid < Prod(dims, a1 + 1, a2) && low < Prod(dims, 1, a1)
  {
    PositionAround(dims, idx, 1, a1, |dims|);
    PositionAround(dims, idx, a1 + 1, a2, |dims|);
  }

  /** The number with digits top, n, c, z, y in the mixed radix s4, s3, s2, s1. */
  function Digits5(s1: int, s2: int, s3: int, s4: int, top: int, n: int, c: int, z: int, y: int): int {
    Join(Join(Join(Join(top, s4, n), s3, c), s2, z), s1, y)
  }

  lemma SplitDigits5(s1: nat, s2: nat, s3: nat, s4: nat, top: int, n: int, c: int, z: int, y: int)
    requires 0 <= y < s1 && 0 <= z < s2 && 0 <= c < s3 && 0 <= n < s4
    ensures var i := Digits5(s1, s2, s3, s4, top, n, c, z, y);
            && Rem(i, s1) == y && Rem(Quot(i, s1), s2) == z && Rem(Quot(Quot(i, s1), s2), s3) == c
            && Rem(Quot(Quot(Quot(i, s1), s2), s3), s4) == n && Quot(Quot(Quot(Quot(i, s1), s2), s3), s4) == top
  {
    Digits(((top * s4 + n) * s3 + c) * s2 + z, y, s1);
    Digits((top * s4 + n) * s3 + c, z, s2);
    Digits(top * s4 + n, c, s3);
    Digits(top, n, s4);
  }

  /** The lower-axis plan (a1 = 0) on a row whose digits are known. */
  lemma SwapLowestDigits(dims: seq<nat>, a2: nat, top: nat, n: nat, mid: nat, x: int)
    requires 0 < a2 < |dims| && n < dims[a2] && mid < Prod(dims, 1, a2)
    ensures SwapCell(dims, 0, a2, Join(Join(top, dims[a2], n), Prod(dims, 1, a2), mid), x)
         == Cell(Join(Join(top, dims[0], x), Prod(dims, 1, a2), mid), n)
  {
    Digits(top * dims[a2] + n, mid, Prod(dims, 1, a2));
    Digits(top, n, dims[a2]);
  }

  lemma SwapLowest(dims: seq<nat>, a2: nat, idx: seq<nat>)
    requires 0 < a2 < |dims| && InDims(dims, idx)
    ensures var c := CellOf(dims, idx);
            SwapCell(dims, 0, a2, c.y, c.x) == CellOf(Swapped(dims, 0, a2), Swapped(idx, 0, a2))
  {
    var sdims, sidx, n := Swapped(dims, 0, a2), Swapped(idx, 0, a2), |dims|;
    SwappedPositions(dims, a2, idx);
    SwapLowestDigits(dims, a2, Position(dims, idx, a2 + 1, n), idx[a2], Position(dims, idx, 1, a2), idx[0]);
  }

  /** The rows of an index and of the swapped one, seen from dimension a2. */
  lemma SwappedPositions(dims: seq<nat>, a2: nat, idx: seq<nat>)
    requires 0 < a2 < |dims| && InDims(dims, idx)
    ensures var sdims, sidx, n := Swapped(dims, 0, a2), Swapped(idx, 0, a2), |dims|;
            var top, mid, low := Position(dims, idx, a2 + 1, n), Position(dims, idx, 1, a2), Prod(dims, 1, a2);
            && mid < low && InDims(sdims, sidx)
            && Position(dims, idx, 1, n) == Join(Join(top, dims[a2], idx[a2]), low, mid)
            && Position(sdims, sidx, 1, n) == Join(Join(top, dims[0], idx[0]), low, mid)
  {
    var sdims, sidx, n := Swapped(dims, 0, a2), Swapped(idx, 0, a2), |dims|;
    assert InDims(sdims, sidx);
    PositionAgrees(dims, sdims, idx, sidx, a2 + 1, n);
    PositionAgrees(dims, sdims, idx, sidx, 1, a2);
    ProdAgrees(dims, sdims, 1, a2);
    PositionAround(dims, idx, 1, a2, n);
    PositionAround(sdims, sidx, 1, a2, n);
  }

  /** The general plan (a1 >= 1) on a row whose digits are known. */
  lemma SwapHigher(dims: seq<nat>, a1: nat, a2: nat, idx: seq<nat>)
    requires 1 <= a1 < a2 < |dims| && InDims(dims, idx)
    ensures var c := CellOf(dims, idx);
            SwapCell(dims, a1, a2, c.y, c.x) == CellOf(Swapped(dims, a1, a2), Swapped(idx, a1, a2))
  {
    var sdims, sidx, n := Swapped(dims, a1, a2), Swapped(idx, a1, a2), |dims|;
    assert InDims(sdims, sidx);
    PositionAgrees(dims, sdims, idx, sidx, a2 + 1, n);
    PositionAgrees(dims, sdims, idx, sidx, a1 + 1, a2);
    PositionAgrees(dims, sdims, idx, sidx, 1, a1);
    ProdAgrees(dims, sdims, a1 + 1, a2);
    ProdAgrees(dims, sdims, 1, a1);
    RowDigits(dims, idx, a1, a2);
    RowDigits(sdims, sidx, a1, a2);
    SplitDigits5(Prod(dims, 1, a1), dims[a1], Prod(dims, a1 + 1, a2), dims[a2],
                 Position(dims, idx, a2 + 1, n), idx[a2], Position(dims, idx, a1 + 1, a2), idx[a1],
                   Position(dims, idx, 1, a1));
  }

  /** swapaxis reads the element whose multi-index has coordinates a1 and a2 exchanged, in any dimension. */
  lemma SwapSwapsCoordinates(dims: seq<nat>, a1: nat, a2: nat, idx: seq<nat>)
    requires a1 < a2 < |dims| && InDims(dims, idx)
    ensures var c := CellOf(dims, idx);
            SwapCell(dims, a1, a2, c.y, c.x) == CellOf(Swapped(dims, a1, a2), Swapped(idx, a1, a2))
    ensures InDims(Swapped(dims, a1, a2), Swapped(idx, a1, a2))
  {
    if a1 == 0 {
      SwapLowest(dims, a2, idx);
    } else {
      SwapHigher(dims, a1, a2, idx);
    }
  }

  lemma CellOfInTable(dims: seq<nat>, idx: seq<nat>)
    requires |dims| >= 1 && InDims(dims, idx)
    ensures InTable(CellOf(dims, idx), Prod(dims, 1, |dims|), dims[0])
  {
    PositionBound(dims, idx, 1, |dims|);
  }

  lemma SwapInRange(dims: seq<nat>, a1: nat, a2: nat, i: int, j: int)
    requires a1 < a2 < |dims| && InTable(Cell(i, j), Prod(dims, 1, |dims|), dims[0])
    ensures var s := Swapped(dims, a1, a2); InTable(SwapCell(dims, a1, a2, i, j), Prod(s, 1, |s|), s[0])
  {
    var idx := CellIndex(dims, i, j);
    SwapSwapsCoordinates(dims, a1, a2, idx);
    CellOfInTable(Swapped(dims, a1, a2), Swapped(idx, a1, a2));
  }

  /** Swapping the same two axes twice reads every element from where it was. */
  lemma SwapTwice(dims: seq<nat>, a1: nat, a2: nat, i: int, j: int)
    requires a1 < a2 < |dims| && InTable(Cell(i, j), Prod(dims, 1, |dims|), dims[0])
    ensures var c := SwapCell(dims, a1, a2, i, j);
            SwapCell(Swapped(dims, a1, a2), a1, a2, c.y, c.x) == Cell(i, j)
  {
    var idx := CellIndex(dims, i, j);
    SwapSwapsCoordinates(dims, a1, a2, idx);
    SwapSwapsCoordinates(Swapped(dims, a1, a2), a1, a2, Swapped(idx, a1, a2));
    assert Swapped(Swapped(dims, a1, a2), a1, a2) == dims;
    assert Swapped(Swapped(idx, a1, a2), a1, a2) == idx;
  }

  /** Source cell under a border of pad zeros; None on the border. */
  function PadCell(pad: nat, nheight: nat, height: nat, width: nat, i: int, j: int): Option<Cell> {
    var y, c := Rem(i, nheight), Quot(i, nheight);
    if y < pad || j < pad then None
    else if y - pad < height && j - pad < width then Some(Cell(c * height + (y - pad), j - pad))
    else None
  }

  /** Source cell of a crop that starts at (top, left) of each plane. */
  function CropCell(top: nat, left: nat, nheight: nat, height: nat, i: int, j: int): Cell {
    var y, c := Rem(i, nheight), Quot(i, nheight);
    Cell(c * height + (y + top), j + left)
  }

  /** A pad read is a zero or stays inside the source. */
  lemma PadInRange(pad: nat, height: nat, width: nat, planes: nat, i: int, j: int)
    requires InTable(Cell(i, j), planes * (height + 2 * pad), width + 2 * pad)
    ensures var r := PadCell(pad, height + 2 * pad, height, width, i, j);
            r.Some? ==> InTable(r.value, planes * height, width)
  {
    SplitBound(i, planes, height + 2 * pad);
    var y, c := Rem(i, height + 2 * pad), Quot(i, height + 2 * pad);
    if pad <= y < pad + height { DigitsBound(c, y - pad, planes, height); }
  }

  /** A crop that fits its source plane stays inside the source. */
  lemma CropInRange(top: nat, left: nat, nheight: nat, nwidth: nat, height: nat, width: nat, planes: nat, i: int,
                    j: int)
    requires InTable(Cell(i, j), planes * nheight, nwidth) && top + nheight <= height && left + nwidth <= width
    ensures InTable(CropCell(top, left, nheight, height, i, j), planes * height, width)
  {
    SplitBound(i, planes, nheight);
    DigitsBound(Quot(i, nheight), Rem(i, nheight) + top, planes, height);
  }

  /** Cropping the centre of a padded plane back to the source size reads every source cell in place. */
  lemma CropOfPad(pad: nat, height: nat, width: nat, planes: nat, i: int, j: int)
    requires InTable(Cell(i, j), planes * height, width)
    ensures var nheight, nwidth := height + 2 * pad, width + 2 * pad;
            var c := CropCell((nheight - height) / 2, (nwidth - width) / 2, height, nheight, i, j);
            PadCell(pad, nheight, height, width, c.y, c.x) == Some(Cell(i, j))
  {
    SplitBound(i, planes, height);
    Digits(Quot(i, height), Rem(i, height) + pad, height + 2 * pad);
  }
}
