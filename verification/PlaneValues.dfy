/** Padding, cropping, mirroring and pooling: the value at each position of each plane. */
module PlaneValues {
  import opened Adjoints
  import opened Arith
  import opened Expressions
  import opened Grid
  import opened Layout
  import opened Plans
  import opened PoolGeometry
  import opened Reducers
  import opened RoundTrips
  import opened Shapes
  import opened Soundness
  import opened Sums
  import opened Windows
  import opened Wrappers

  /** The values of an expression, cell by cell. */
  type Values = Cell -> real

  /** Row y of plane c: c planes of h rows come before it. */
  function PlaneRow(h: nat, c: nat, y: int): int { if c == 0 then y else h + PlaneRow(h, c - 1, y) }

  lemma {:induction false} PlaneRowIs(h: nat, c: nat, y: int)
    ensures PlaneRow(h, c, y) == c * h + y
  {
    if c > 0 { PlaneRowIs(h, c - 1, y); }
  }

  /** The value at row y and column x of plane c. */
  function PlaneValue(f: Values, dims: seq<nat>, c: nat, y: int, x: int): real {
    f(Cell(PlaneRow(Dim(dims, 1), c, y), x))
  }

  /** A plane has a position (y, x). */
  predicate IsPosition(dims: seq<nat>, y: int, x: int) { 0 <= y < Dim(dims, 1) && 0 <= x < Dim(dims, 0) }

  /** Every cell is a position of a plane. */
  lemma PositionOf(dims: seq<nat>, y: int, x: int) returns (c: nat, py: int)
    requires |dims| >= 2 && InDimsTable(dims, y, x)
    ensures c < Prod(dims, 2, |dims|) && IsPosition(dims, py, x) && y == PlaneRow(Dim(dims, 1), c, py)
  {
    BatchRows(dims);
    SplitBound(y, Prod(dims, 2, |dims|), dims[1]);
    c, py := Quot(y, dims[1]), Rem(y, dims[1]);
    PlaneRowIs(dims[1], c, py);
  }

  function FoldOver(red: Reducer, cells: seq<Cell>, f: Values): real { Fold(red, red.InitV(), cells, f) }

  /** g is, at (y, x), what op of shape d makes of values f of shape s. */
  ghost predicate IsOpAt(op: TensorOp, s: seq<nat>, d: seq<nat>, f: Values, g: Values, y: int, x: int) {
    g(Cell(y, x)) == FoldOver(OpReducer(op), SourceCells(op, s, d, y, x), f)
  }

  lemma OpAtCell(op: TensorOp, src: Exp, e: Exp, m: seq<real>, y: int, x: int)
    requires e == MakeTensor(op, src)
    ensures IsOpAt(op, DimsOf(src), DimsOf(e), EvalAt(src, m), EvalAt(e, m), y, x)
  {
    MakeTensorIsFold(op, src, m, y, x);
  }

  lemma ReadsOne(op: TensorOp, s: seq<nat>, d: seq<nat>, f: Values, g: Values, y: int, x: int, cell: Cell)
    requires IsOpAt(op, s, d, f, g, y, x) && OpReducer(op) == SumRed && SourceCells(op, s, d, y, x) == [cell]
    ensures g(Cell(y, x)) == f(cell)
  {
    FoldOne(SumRed, 0.0, cell, f);
  }

  lemma ReadsNone(op: TensorOp, s: seq<nat>, d: seq<nat>, f: Values, g: Values, y: int, x: int)
    requires IsOpAt(op, s, d, f, g, y, x) && OpReducer(op) == SumRed && SourceCells(op, s, d, y, x) == []
    ensures g(Cell(y, x)) == 0.0
  {}

  // ---- padding ----

  /** d is s with a border of pad all round every plane. */
  predicate HasBorder(s: seq<nat>, d: seq<nat>, pad: nat) {
    && |s| >= 2 && |d| >= 2 && d[0] == s[0] + 2 * pad && d[1] == s[1] + 2 * pad
  }

  lemma PadPositions(src: Exp, pad: nat)
    requires Checked(PadExp(src, pad))
    ensures HasBorder(DimsOf(src), DimsOf(PadExp(src, pad)), pad)
  {
    PadShape(src, pad);
  }

  /** The source position under position (y, x) of the padded plane, if there is one. */
  lemma PadCellIs(pad: nat, height: nat, width: nat, c: nat, y: int, x: int)
    requires 0 <= y < height + 2 * pad
    ensures PadCell(pad, height + 2 * pad, height, width, PlaneRow(height + 2 * pad, c, y), x) ==
            if pad <= y < pad + height && pad <= x < pad + width then Some(Cell(PlaneRow(height, c, y - pad), x - pad))
            else None
  {
    Digits(c, y, height + 2 * pad);
    PlaneRowIs(height + 2 * pad, c, y);
    PlaneRowIs(height, c, y - pad);
  }

  lemma PadAt(s: seq<nat>, d: seq<nat>, pad: nat, f: Values, g: Values, c: nat, y: int, x: int)
    requires HasBorder(s, d, pad) && IsPosition(d, y, x)
    requires IsOpAt(Padding(pad), s, d, f, g, PlaneRow(Dim(d, 1), c, y), x)
    ensures PlaneValue(g, d, c, y, x) ==
            if IsPosition(s, y - pad, x - pad) then PlaneValue(f, s, c, y - pad, x - pad) else 0.0
  {
    var i := PlaneRow(d[1], c, y);
    PadCellIs(pad, s[1], s[0], c, y, x);
    if IsPosition(s, y - pad, x - pad) {
      ReadsOne(Padding(pad), s, d, f, g, i, x, Cell(PlaneRow(s[1], c, y - pad), x - pad));
    } else {
      ReadsNone(Padding(pad), s, d, f, g, i, x);
    }
  }

  lemma PadOf(src: Exp, e: Exp, pad: nat, m: seq<real>, s: seq<nat>, d: seq<nat>, c: nat, y: int, x: int)
    requires e == PadExp(src, pad) && Checked(e) && s == DimsOf(src) && d == DimsOf(e) && IsPosition(d, y, x)
    ensures PlaneValue(EvalAt(e, m), d, c, y, x) ==
            if IsPosition(s, y - pad, x - pad) then PlaneValue(EvalAt(src, m), s, c, y - pad, x - pad) else 0.0
  {
    PadPositions(src, pad);
    OpAtCell(Padding(pad), src, e, m, PlaneRow(Dim(d, 1), c, y), x);
    PadAt(s, d, pad, EvalAt(src, m), EvalAt(e, m), c, y, x);
  }

  /** pad(src, p) is src moved by p rows and p columns, and 0 on the border, in every plane. */
  lemma PadMeans(src: Exp, pad: nat, m: seq<real>, c: nat, y: int, x: int)
    requires Checked(PadExp(src, pad)) && IsPosition(DimsOf(PadExp(src, pad)), y, x)
    ensures var (e, s) := (PadExp(src, pad), DimsOf(src));
            PlaneValue(EvalAt(e, m), DimsOf(e), c, y, x) ==
            if IsPosition(s, y - pad, x - pad) then PlaneValue(EvalAt(src, m), s, c, y - pad, x - pad) else 0.0
  {
    PadOf(src, PadExp(src, pad), pad, m, DimsOf(src), DimsOf(PadExp(src, pad)), c, y, x);
  }

  // ---- padding and cropping back are adjoint ----

  function PadWindow(pad: nat, s: seq<nat>): Cell -> seq<Cell> {
    (u: Cell) => match PadCell(pad, Dim(s, 1) + 2 * pad, Dim(s, 1), Dim(s, 0), u.y, u.x)
                 case None => []
                 case Some(c) => [c]
  }

  function CropWindow(pad: nat, s: seq<nat>): Cell -> seq<Cell> {
    (v: Cell) => [CropCell(pad, pad, Dim(s, 1), Dim(s, 1) + 2 * pad, v.y, v.x)]
  }

  /** Each source cell is read by exactly the padded cell that the crop reads it back from. */
  lemma PadReadsIff(pad: nat, height: nat, width: nat, planes: nat, u: Cell, v: Cell)
    requires InTable(u, planes * (height + 2 * pad), width + 2 * pad) && InTable(v, planes * height, width)
    ensures PadCell(pad, height + 2 * pad, height, width, u.y, u.x) == Some(v) <==>
            u == CropCell(pad, pad, height, height + 2 * pad, v.y, v.x)
  {
    CropOfPad(pad, height, width, planes, v.y, v.x);
    assert (height + 2 * pad - height) / 2 == pad;
    SplitBound(u.y, planes, height + 2 * pad);
    var c, y := Quot(u.y, height + 2 * pad), Rem(u.y, height + 2 * pad);
    PadCellIs(pad, height, width, c, y, u.x);
    PlaneRowIs(height + 2 * pad, c, y);
    PlaneRowIs(height, c, y - pad);
    if PadCell(pad, height + 2 * pad, height, width, u.y, u.x) == Some(v) { Digits(c, y - pad, height); }
  }

  lemma PadWindowIs(pad: nat, s: seq<nat>, u: Cell)
    ensures var r := PadCell(pad, Dim(s, 1) + 2 * pad, Dim(s, 1), Dim(s, 0), u.y, u.x);
            PadWindow(pad, s)(u) == if r.None? then [] else [r.value]
  {}

  lemma PadWindowIn(pad: nat, s: seq<nat>, planes: nat, u: Cell)
    requires |s| >= 2 && InTable(u, planes * (s[1] + 2 * pad), s[0] + 2 * pad)
    ensures NoDup(PadWindow(pad, s)(u)) && forall v :: v in PadWindow(pad, s)(u) ==> InTable(v, planes * s[1], s[0])
  {
    PadWindowIs(pad, s, u);
    PadInRange(pad, s[1], s[0], planes, u.y, u.x);
  }

  lemma CropWindowIn(pad: nat, s: seq<nat>, planes: nat, v: Cell)
    requires |s| >= 2 && InTable(v, planes * s[1], s[0])
    ensures var cov := CropWindow(pad, s)(v);
            NoDup(cov) && forall u :: u in cov ==> InTable(u, planes * (s[1] + 2 * pad), s[0] + 2 * pad)
  {
    SplitBound(v.y, planes, s[1]);
    DigitsBound(Quot(v.y, s[1]), Rem(v.y, s[1]) + pad, planes, s[1] + 2 * pad);
  }

  lemma WindowsMatch(pad: nat, s: seq<nat>, planes: nat, u: Cell, v: Cell)
    requires |s| >= 2 && InTable(u, planes * (s[1] + 2 * pad), s[0] + 2 * pad) && InTable(v, planes * s[1], s[0])
    ensures v in PadWindow(pad, s)(u) <==> u in CropWindow(pad, s)(v)
  {
    PadWindowIs(pad, s, u);
    PadReadsIff(pad, s[1], s[0], planes, u, v);
  }

  lemma PadCropDual(pad: nat, s: seq<nat>, planes: nat)
    requires |s| >= 2
    ensures Dual(Table(planes * (s[1] + 2 * pad), s[0] + 2 * pad), Table(planes * s[1], s[0]), PadWindow(pad, s),
                 CropWindow(pad, s))
  {
    var us, vs := Table(planes * (s[1] + 2 * pad), s[0] + 2 * pad), Table(planes * s[1], s[0]);
    RectVisits(0, planes * (s[1] + 2 * pad), 0, s[0] + 2 * pad);
    RectVisits(0, planes * s[1], 0, s[0]);
    var win, cov := PadWindow(pad, s), CropWindow(pad, s);
    forall u | u in us ensures NoDup(win(u)) && forall v :: v in win(u) ==> v in vs { PadWindowIn(pad, s, planes, u); }
    forall v | v in vs ensures NoDup(cov(v)) && forall u :: u in cov(v) ==> u in us { CropWindowIn(pad, s, planes, v); }
    forall u, v | u in us && v in vs ensures v in win(u) <==> u in cov(v) {
      WindowsMatch(pad, s, planes, u, v);
    }
  }

  /** The cells of a padded expression and of its source. */
  lemma PadTables(src: Exp, e: Exp, pad: nat, s: seq<nat>)
    requires e == PadExp(src, pad) && Checked(e) && s == DimsOf(src)
    ensures |s| >= 2
    ensures CellsOf(e) == Table(ProdFrom(s, 2) * (s[1] + 2 * pad), s[0] + 2 * pad)
    ensures CellsOf(src) == Table(ProdFrom(s, 2) * s[1], s[0])
  {
    PadShape(src, pad);
    TailProd(DimsOf(e), s);
    BatchRows(DimsOf(e));
    BatchRows(s);
  }

  /** The crop of anything of the padded shape has the source's shape. */
  lemma PadCropShapes(src: Exp, g: Exp, pad: nat)
    requires Checked(PadExp(src, pad)) && Checked(g) && DimsOf(g) == DimsOf(PadExp(src, pad))
    ensures HasBorder(DimsOf(src), DimsOf(g), pad)
    ensures var (s, crop) := (DimsOf(src), CropExp(g, DimsOf(src)[1], DimsOf(src)[0]));
            Checked(crop) && DimsOf(crop) == s
  {
    PadShape(src, pad);
    var s := DimsOf(src);
    CropShape(g, s[1], s[0]);
    CropOfPadShape(s, DimsOf(g), pad);
  }

  ghost predicate PadCropPair(us: seq<Cell>, vs: seq<Cell>, pad: nat, s: seq<nat>) {
    Dual(us, vs, PadWindow(pad, s), CropWindow(pad, s))
  }

  lemma DualCells(us: seq<Cell>, vs: seq<Cell>, pad: nat, s: seq<nat>, planes: nat)
    requires |s| >= 2 && us == Table(planes * (s[1] + 2 * pad), s[0] + 2 * pad) && vs == Table(planes * s[1], s[0])
    ensures PadCropPair(us, vs, pad, s)
  {
    PadCropDual(pad, s, planes);
  }

  lemma PadCropCells(src: Exp, e: Exp, pad: nat, s: seq<nat>)
    requires e == PadExp(src, pad) && Checked(e) && s == DimsOf(src)
    ensures PadCropPair(CellsOf(e), CellsOf(src), pad, s)
  {
    PadTables(src, e, pad, s);
    DualCells(CellsOf(e), CellsOf(src), pad, s, ProdFrom(s, 2));
  }

  /** g sums f through win at every cell of us. */
  ghost predicate SumsThrough(us: seq<Cell>, g: Values, win: Cell -> seq<Cell>, f: Values) {
    forall u :: u in us ==> g(u) == Sum(win(u), f)
  }

  /** g sums f through win, and f' sums g' back through cov. */
  ghost predicate AreAdjoint(us: seq<Cell>, vs: seq<Cell>, win: Cell -> seq<Cell>, cov: Cell -> seq<Cell>, g: Values,
                             f: Values, f': Values, g': Values)
  {
    Dual(us, vs, win, cov) && SumsThrough(us, g, win, f) && SumsThrough(vs, f', cov, g')
  }

  lemma AdjointSums(us: seq<Cell>, vs: seq<Cell>, win: Cell -> seq<Cell>, cov: Cell -> seq<Cell>, g: Values, f: Values,
                    f': Values, g': Values)
    requires AreAdjoint(us, vs, win, cov, g, f, f', g')
    ensures Sum(us, Times(g, g')) == Sum(vs, Times(f, f'))
  {
    PairIsAdjoint(us, vs, win, cov, g, f, f', g');
  }

  lemma PadSums(s: seq<nat>, d: seq<nat>, pad: nat, f: Values, g: Values, u: Cell)
    requires HasBorder(s, d, pad) && IsOpAt(Padding(pad), s, d, f, g, u.y, u.x)
    ensures g(u) == Sum(PadWindow(pad, s)(u), f)
  {
    PadWindowIs(pad, s, u);
    FoldIsSum(0.0, SourceCells(Padding(pad), s, d, u.y, u.x), f);
  }

  lemma CropSums(s: seq<nat>, d: seq<nat>, pad: nat, f: Values, g: Values, v: Cell)
    requires HasBorder(s, d, pad) && IsOpAt(Cropping(s[1], s[0], None), d, s, f, g, v.y, v.x)
    ensures g(v) == Sum(CropWindow(pad, s)(v), f)
  {
    assert (d[1] - s[1]) / 2 == pad && (d[0] - s[0]) / 2 == pad;
    FoldIsSum(0.0, SourceCells(Cropping(s[1], s[0], None), d, s, v.y, v.x), f);
  }

  lemma PadSumsThrough(src: Exp, e: Exp, pad: nat, m: seq<real>, us: seq<Cell>)
    requires e == PadExp(src, pad) && HasBorder(DimsOf(src), DimsOf(e), pad)
    ensures SumsThrough(us, EvalAt(e, m), PadWindow(pad, DimsOf(src)), EvalAt(src, m))
  {
    forall u ensures EvalAt(e, m)(u) == Sum(PadWindow(pad, DimsOf(src))(u), EvalAt(src, m)) {
      OpAtCell(Padding(pad), src, e, m, u.y, u.x);
      PadSums(DimsOf(src), DimsOf(e), pad, EvalAt(src, m), EvalAt(e, m), u);
    }
  }

  lemma CropSumsThrough(g: Exp, e: Exp, s: seq<nat>, pad: nat, m: seq<real>, vs: seq<Cell>)
    requires HasBorder(s, DimsOf(g), pad) && e == CropExp(g, s[1], s[0]) && DimsOf(e) == s
    ensures SumsThrough(vs, EvalAt(e, m), CropWindow(pad, s), EvalAt(g, m))
  {
    forall v ensures EvalAt(e, m)(v) == Sum(CropWindow(pad, s)(v), EvalAt(g, m)) {
      OpAtCell(Cropping(s[1], s[0], None), g, e, m, v.y, v.x);
      CropSums(s, DimsOf(g), pad, EvalAt(g, m), EvalAt(e, m), v);
    }
  }

  /**
    Padding and the centred crop back are adjoint: the sum of pad(src, p) times g is the sum of src times crop(g), for
    every p, every source expression of any number of planes, and every g of the padded shape.
   */
  lemma PadCropAdjoint(src: Exp, g: Exp, pad: nat, m: seq<real>)
    requires Checked(PadExp(src, pad)) && Checked(g) && DimsOf(g) == DimsOf(PadExp(src, pad))
    ensures var crop := CropExp(g, Dim(DimsOf(src), 1), Dim(DimsOf(src), 0));
            Checked(crop) && DimsOf(crop) == DimsOf(src) && Inner(PadExp(src, pad), g, m) == Inner(src, crop, m)
  {
    PadCropShapes(src, g, pad);
    var s, e, us, vs := DimsOf(src), PadExp(src, pad), CellsOf(PadExp(src, pad)), CellsOf(src);
    var crop := CropExp(g, s[1], s[0]);
    PadCropCells(src, e, pad, s);
    PadSumsThrough(src, e, pad, m, us);
    CropSumsThrough(g, crop, s, pad, m, vs);
    AdjointSums(us, vs, PadWindow(pad, s), CropWindow(pad, s), EvalAt(e, m), EvalAt(src, m), EvalAt(crop, m),
                EvalAt(g, m));
  }

  // ---- cropping and mirroring ----

  function CropFrom(src: Exp, height: nat, width: nat, start: Option<(nat, nat)>): Exp {
    MakeTensor(Cropping(height, width, start), src)
  }

  /** A crop is accepted exactly when it is no larger than its source; where it starts is not checked. */
  lemma CropAcceptedIff(src: Exp, height: nat, width: nat, start: Option<(nat, nat)>)
    requires Checked(src)
    ensures Checked(CropFrom(src, height, width, start)) <==>
            |DimsOf(src)| >= 2 && height <= DimsOf(src)[1] && width <= DimsOf(src)[0]
    ensures Checked(CropFrom(src, height, width, start)) ==>
            DimsOf(CropFrom(src, height, width, start)) == [width, height] + DimsOf(src)[2..]
  {}

  /** A crop of a source of shape s starts where it is told to, or so that it is centred. */
  predicate StartsAt(start: Option<(nat, nat)>, height: nat, width: nat, s: seq<nat>, top: int, left: int) {
    match start
    case Some((t, l)) => top == t && left == l
    case None => top == (Dim(s, 1) - height) / 2 && left == (Dim(s, 0) - width) / 2
  }

  lemma CropCellIs(top: nat, left: nat, nheight: nat, height: nat, c: nat, y: int, x: int)
    requires 0 <= y < nheight
    ensures CropCell(top, left, nheight, height, PlaneRow(nheight, c, y), x) ==
            Cell(PlaneRow(height, c, y + top), x + left)
  {
    Digits(c, y, nheight);
    PlaneRowIs(nheight, c, y);
    PlaneRowIs(height, c, y + top);
  }

  lemma CropAt(op: TensorOp, s: seq<nat>, d: seq<nat>, f: Values, g: Values, top: int, left: int, c: nat, y: int,
               x: int)
    requires op.Cropping? && Dim(d, 1) == op.cheight && IsPosition(d, y, x)
    requires CropStart(op, Dim(s, 1), Dim(s, 0)) == (top, left)
    requires IsOpAt(op, s, d, f, g, PlaneRow(Dim(d, 1), c, y), x)
    ensures PlaneValue(g, d, c, y, x) == PlaneValue(f, s, c, y + top, x + left)
  {
    CropCellIs(top, left, op.cheight, Dim(s, 1), c, y, x);
    ReadsOne(op, s, d, f, g, PlaneRow(Dim(d, 1), c, y), x, Cell(PlaneRow(Dim(s, 1), c, y + top), x + left));
  }

  lemma CropStartIs(start: Option<(nat, nat)>, height: nat, width: nat, s: seq<nat>, top: int, left: int)
    requires StartsAt(start, height, width, s, top, left) && height <= Dim(s, 1) && width <= Dim(s, 0)
    ensures CropStart(Cropping(height, width, start), Dim(s, 1), Dim(s, 0)) == (top, left)
  {}

  /** A crop is its source from the starting row and column on, in every plane. */
  lemma CropMeans(src: Exp, height: nat, width: nat, start: Option<(nat, nat)>, m: seq<real>, top: int, left: int,
                  c: nat, y: int, x: int)
    requires Checked(CropFrom(src, height, width, start)) && StartsAt(start, height, width, DimsOf(src), top, left)
    requires IsPosition(DimsOf(CropFrom(src, height, width, start)), y, x)
    ensures var e := CropFrom(src, height, width, start);
            PlaneValue(EvalAt(e, m), DimsOf(e), c, y, x) ==
            PlaneValue(EvalAt(src, m), DimsOf(src), c, y + top, x + left)
  {
    var op, e := Cropping(height, width, start), CropFrom(src, height, width, start);
    CropAcceptedIff(src, height, width, start);
    CropStartIs(start, height, width, DimsOf(src), top, left);
    OpAtCell(op, src, e, m, PlaneRow(Dim(DimsOf(e), 1), c, y), x);
    CropAt(op, DimsOf(src), DimsOf(e), EvalAt(src, m), EvalAt(e, m), top, left, c, y, x);
  }

  function MirrorExp(src: Exp): Exp { MakeTensor(Mirroring, src) }

  lemma MirrorShape(src: Exp)
    requires Checked(MirrorExp(src))
    ensures Checked(src) && |DimsOf(src)| >= 2 && DimsOf(MirrorExp(src)) == DimsOf(src)
  {}

  lemma MirrorAt(s: seq<nat>, f: Values, g: Values, c: nat, y: int, x: int)
    requires IsOpAt(Mirroring, s, s, f, g, PlaneRow(Dim(s, 1), c, y), x)
    ensures PlaneValue(g, s, c, y, x) == PlaneValue(f, s, c, y, Dim(s, 0) - 1 - x)
  {
    var i := PlaneRow(Dim(s, 1), c, y);
    ReadsOne(Mirroring, s, s, f, g, i, x, Cell(i, Dim(s, 0) - 1 - x));
  }

  lemma MirrorOf(src: Exp, e: Exp, m: seq<real>, s: seq<nat>, c: nat, y: int, x: int)
    requires e == MirrorExp(src) && s == DimsOf(src) == DimsOf(e)
    ensures PlaneValue(EvalAt(e, m), s, c, y, x) == PlaneValue(EvalAt(src, m), s, c, y, Dim(s, 0) - 1 - x)
  {
    OpAtCell(Mirroring, src, e, m, PlaneRow(Dim(s, 1), c, y), x);
    MirrorAt(s, EvalAt(src, m), EvalAt(e, m), c, y, x);
  }

  /** mirror(src) reads every row backwards. */
  lemma MirrorMeans(src: Exp, m: seq<real>, c: nat, y: int, x: int)
    requires Checked(MirrorExp(src))
    ensures DimsOf(MirrorExp(src)) == DimsOf(src)
    ensures var s := DimsOf(src);
            PlaneValue(EvalAt(MirrorExp(src), m), s, c, y, x) ==
            PlaneValue(EvalAt(src, m), s, c, y, Dim(s, 0) - 1 - x)
  {
    MirrorShape(src);
    MirrorOf(src, MirrorExp(src), m, DimsOf(src), c, y, x);
  }

  // ---- pooling ----

  function PoolExp(red: Reducer, src: Exp, pshape: Option<(nat, nat)>, ksize: nat, kstride: nat): Exp {
    MakeTensor(Pooling(red, pshape, ksize, kstride), src)
  }

  lemma {:induction false} InPlaneRect(c: int, h: int, y0: int, y1: int, x0: int, x1: int)
    ensures InPlane(c, h, Rect(y0, y1, x0, x1)) == Rect(c * h + y0, c * h + y1, x0, x1)
    decreases y1 - y0
  {
    if y0 < y1 {
      InPlaneRect(c, h, y0, y1 - 1, x0, x1);
      assert InPlane(c, h, RowCells(y1 - 1, x0, x1)) == RowCells(c * h + (y1 - 1), x0, x1);
    }
  }

  /** The window that starts at row y * kstride and column x * kstride of plane c, clipped at the plane's border. */
  function PlaneWindow(c: nat, h: nat, w: int, ksize: int, kstride: int, y: int, x: int): seq<Cell> {
    Rect(PlaneRow(h, c, y * kstride), PlaneRow(h, c, Min(y * kstride + ksize, h)), x * kstride,
         Min(x * kstride + ksize, w))
  }

  /** The source cells under a position of a pooled plane. */
  lemma PoolRect(k: Kernel, c: nat, y: int, x: int)
    requires 0 <= y < k.pheight
    ensures PoolCells(k, PlaneRow(k.pheight, c, y), x) == PlaneWindow(c, k.height, k.width, k.ksize, k.kstride, y, x)
  {
    Digits(c, y, k.pheight);
    PlaneRowIs(k.pheight, c, y);
    PlaneRowIs(k.height, c, y * k.kstride);
    PlaneRowIs(k.height, c, Min(y * k.kstride + k.ksize, k.height));
    PoolWindowIs(k, c * k.pheight + y, x, y * k.kstride, x * k.kstride);
    InPlaneRect(c, k.height, y * k.kstride, Min(y * k.kstride + k.ksize, k.height), x * k.kstride,
                Min(x * k.kstride + k.ksize, k.width));
  }

  lemma PoolAt(red: Reducer, op: TensorOp, ksize: nat, kstride: nat, s: seq<nat>, d: seq<nat>, f: Values, g: Values,
               c: nat, y: int, x: int)
    requires op.Pooling? && op.red == red && op.ksize == ksize && op.kstride == kstride
    requires IsPosition(d, y, x) && IsOpAt(op, s, d, f, g, PlaneRow(Dim(d, 1), c, y), x)
    ensures PlaneValue(g, d, c, y, x) ==
            FoldOver(red, PlaneWindow(c, Dim(s, 1), Dim(s, 0), ksize, kstride, y, x), f)
  {
    var cells := SourceCells(op, s, d, PlaneRow(Dim(d, 1), c, y), x);
    assert cells == PlaneWindow(c, Dim(s, 1), Dim(s, 0), ksize, kstride, y, x) by {
      PoolRect(KernelOf(s, d, ksize, kstride), c, y, x);
    }
  }

  lemma PoolOf(red: Reducer, op: TensorOp, src: Exp, e: Exp, ksize: nat, kstride: nat, m: seq<real>, s: seq<nat>,
               d: seq<nat>, c: nat, y: int, x: int)
    requires op.Pooling? && op.red == red && op.ksize == ksize && op.kstride == kstride
    requires e == MakeTensor(op, src) && s == DimsOf(src) && d == DimsOf(e) && IsPosition(d, y, x)
    ensures PlaneValue(EvalAt(e, m), d, c, y, x) ==
            FoldOver(red, PlaneWindow(c, Dim(s, 1), Dim(s, 0), ksize, kstride, y, x), EvalAt(src, m))
  {
    OpAtCell(op, src, e, m, PlaneRow(Dim(d, 1), c, y), x);
    PoolAt(red, op, ksize, kstride, s, d, EvalAt(src, m), EvalAt(e, m), c, y, x);
  }

  /** pool(src) folds the window under each position, in every plane. */
  lemma PoolMeans(red: Reducer, src: Exp, pshape: Option<(nat, nat)>, ksize: nat, kstride: nat, m: seq<real>, c: nat,
                  y: int, x: int)
    requires IsPosition(DimsOf(PoolExp(red, src, pshape, ksize, kstride)), y, x)
    ensures var (e, s) := (PoolExp(red, src, pshape, ksize, kstride), DimsOf(src));
            PlaneValue(EvalAt(e, m), DimsOf(e), c, y, x) ==
            FoldOver(red, PlaneWindow(c, Dim(s, 1), Dim(s, 0), ksize, kstride, y, x), EvalAt(src, m))
  {
    var e := PoolExp(red, src, pshape, ksize, kstride);
    PoolOf(red, Pooling(red, pshape, ksize, kstride), src, e, ksize, kstride, m, DimsOf(src), DimsOf(e), c, y, x);
  }

  /** With the default output shape a plane has a position exactly where a whole window fits: none is clipped. */
  lemma WholeWindows(red: Reducer, src: Exp, ksize: nat, kstride: nat, y: nat, x: nat)
    requires Checked(PoolExp(red, src, None, ksize, kstride)) && kstride > 0
    ensures IsPosition(DimsOf(PoolExp(red, src, None, ksize, kstride)), y, x) <==>
            y * kstride + ksize <= Dim(DimsOf(src), 1) && x * kstride + ksize <= Dim(DimsOf(src), 0)
  {
    var s := DimsOf(src);
    WindowInside(s[1], ksize, kstride, y);
    WindowInside(s[0], ksize, kstride, x);
  }

  /** With a given output shape it has the positions of that shape, however few windows fit. */
  lemma GivenWindows(red: Reducer, src: Exp, ph: nat, pw: nat, ksize: nat, kstride: nat, y: int, x: int)
    requires Checked(PoolExp(red, src, Some((ph, pw)), ksize, kstride))
    ensures IsPosition(DimsOf(PoolExp(red, src, Some((ph, pw)), ksize, kstride)), y, x) <==> 0 <= y < ph && 0 <= x < pw
  {}
}
