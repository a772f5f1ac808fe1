/** Unpacking image patches into matrix columns, and packing columns back into an image. */
module Patches {
  import opened Arith
  import opened Grid
  import opened Sums
  import opened Windows
  import opened Wrappers

  /** Patch size and stride, and the image they slide over: num images of channel x height x width. */
  datatype Geometry = Geometry(psize: nat, pstride: nat, channel: nat, height: nat, width: nat, num: nat) {
    function OHeight(): int { WindowCount(height, psize, pstride) }
    function OWidth(): int { WindowCount(width, psize, pstride) }

    predicate Valid() {
      pstride > 0 && psize <= height && psize <= width
    }

    /** The matrix of columns, as rows x columns. */
    function MatRows(): nat { MulNat(psize, psize); MulNat(psize * psize, channel); psize * psize * channel }
    function MatCols(): (r: int)
      ensures psize <= height && psize <= width ==> 0 <= r
    {
      if psize <= height && psize <= width then
        MulNat(OHeight(), OWidth());
        MulNat(OHeight() * OWidth(), num);
        OHeight() * OWidth() * num
      else OHeight() * OWidth() * num
    }
    function ImgRows(): int { height * channel * num }
  }

  /** The image cell that matrix cell (i, j) is read from; None is the zero-fill branch. */
  function UnpackCell(g: Geometry, i: int, j: int): Option<Cell> {
    var x_offset := Rem(i, g.psize);
    var idivp := Quot(i, g.psize);
    var y_offset := Rem(idivp, g.psize);
    var c := Quot(idivp, g.psize);
    var x := Rem(j, g.OWidth()) * g.pstride + x_offset;
    var jdivw := Quot(j, g.OWidth());
    var y := Rem(jdivw, g.OHeight()) * g.pstride + y_offset;
    var n := Quot(jdivw, g.OHeight());
    if x < g.width && y < g.height then Some(Cell((n * g.channel + c) * g.height + y, x)) else None
  }

  /** The windows the packing loops visit for image cell (i, j). */
  function PackWindows(g: Geometry, i: int, j: int): seq<Cell> {
    var y := Rem(i, g.height);
    Rect(CoverLo(y, g.psize, g.pstride), CoverHi(y, g.pstride, g.OHeight()),
         CoverLo(j, g.psize, g.pstride), CoverHi(j, g.pstride, g.OWidth()))
  }

  /** The matrix cell the packing loops read at window q for image cell (i, j). */
  function PackCell(g: Geometry, i: int, j: int, q: Cell): Cell {
    var y := Rem(i, g.height);
    var idivh := Quot(i, g.height);
    var c := Rem(idivh, g.channel);
    var n := Quot(idivh, g.channel);
    Cell((c * g.psize + y - q.y * g.pstride) * g.psize + j - q.x * g.pstride,
         (n * g.OHeight() + q.y) * g.OWidth() + q.x)
  }

  function PackCells(g: Geometry, i: int, j: int): seq<Cell> {
    Map(PackWindows(g, i, j), q => PackCell(g, i, j, q))
  }

  /** Matrix coordinates of offset (yo, xo) of window (py, px) in channel c of image n. */
  function MatAt(g: Geometry, n: int, c: int, py: int, px: int, yo: int, xo: int): Cell {
    Cell((c * g.psize + yo) * g.psize + xo, (n * g.OHeight() + py) * g.OWidth() + px)
  }

  function ImgAt(g: Geometry, n: int, c: int, y: int, x: int): Cell {
    Cell((n * g.channel + c) * g.height + y, x)
  }

  ghost predicate MatDigits(g: Geometry, n: int, c: int, py: int, px: int, yo: int, xo: int) {
    && 0 <= n < g.num && 0 <= c < g.channel && 0 <= py < g.OHeight() && 0 <= px < g.OWidth()
    && 0 <= yo < g.psize && 0 <= xo < g.psize
  }

  ghost predicate ImgDigits(g: Geometry, n: int, c: int, y: int, x: int) {
    0 <= n < g.num && 0 <= c < g.channel && 0 <= y < g.height && 0 <= x < g.width
  }

  /** Offset (yo, xo) of window (py, px) lies on a pixel of the image. */
  lemma OffsetInImage(g: Geometry, py: int, px: int, yo: int, xo: int)
    requires g.Valid() && 0 <= py < g.OHeight() && 0 <= px < g.OWidth() && 0 <= yo < g.psize && 0 <= xo < g.psize
    ensures 0 <= py * g.pstride + yo < g.height && 0 <= px * g.pstride + xo < g.width
  {
    WindowInside(g.height, g.psize, g.pstride, py);
    WindowInside(g.width, g.psize, g.pstride, px);
    MulMono(0, py, g.pstride);
    MulMono(0, px, g.pstride);
  }

  lemma MatInTable(g: Geometry, n: int, c: int, py: int, px: int, yo: int, xo: int)
    requires MatDigits(g, n, c, py, px, yo, xo)
    ensures InTable(MatAt(g, n, c, py, px, yo, xo), g.MatRows(), g.MatCols())
  {
    DigitsBound(c, yo, g.channel, g.psize);
    DigitsBound(c * g.psize + yo, xo, g.channel * g.psize, g.psize);
    DigitsBound(n, py, g.num, g.OHeight());
    DigitsBound(n * g.OHeight() + py, px, g.num * g.OHeight(), g.OWidth());
    MulShuffle(g.channel, g.psize, g.psize);
    MulShuffle(g.num, g.OHeight(), g.OWidth());
  }

  lemma MulShuffle(a: int, b: int, c: int)
    ensures a * b * c == b * c * a
  {
  }

  /** The digits unpacking extracts from a matrix cell. */
  lemma UnpackDigits(g: Geometry, n: int, c: int, py: int, px: int, yo: int, xo: int)
    requires MatDigits(g, n, c, py, px, yo, xo)
    ensures var u := MatAt(g, n, c, py, px, yo, xo);
            && Rem(u.y, g.psize) == xo && Rem(Quot(u.y, g.psize), g.psize) == yo
            && Quot(Quot(u.y, g.psize), g.psize) == c
            && Rem(u.x, g.OWidth()) == px && Rem(Quot(u.x, g.OWidth()), g.OHeight()) == py
            && Quot(Quot(u.x, g.OWidth()), g.OHeight()) == n
  {
    Digits(c * g.psize + yo, xo, g.psize);
    Digits(c, yo, g.psize);
    Digits(n * g.OHeight() + py, px, g.OWidth());
    Digits(n, py, g.OHeight());
  }

  /** Unpacking copies offset (yo, xo) of window (py, px) from the pixel it lies on, and never zero-fills. */
  lemma UnpackReads(g: Geometry, n: int, c: int, py: int, px: int, yo: int, xo: int)
    requires g.Valid() && MatDigits(g, n, c, py, px, yo, xo)
    ensures ImgDigits(g, n, c, py * g.pstride + yo, px * g.pstride + xo)
    ensures var u := MatAt(g, n, c, py, px, yo, xo);
            UnpackCell(g, u.y, u.x) == Some(ImgAt(g, n, c, py * g.pstride + yo, px * g.pstride + xo))
  {
    OffsetInImage(g, py, px, yo, xo);
    UnpackDigits(g, n, c, py, px, yo, xo);
  }

  lemma MatSplit(g: Geometry, u: Cell) returns (n: int, c: int, py: int, px: int, yo: int, xo: int)
    requires g.Valid() && InTable(u, g.MatRows(), g.MatCols())
    ensures MatDigits(g, n, c, py, px, yo, xo) && u == MatAt(g, n, c, py, px, yo, xo)
  {
    WindowInside(g.height, g.psize, g.pstride, 0);
    WindowInside(g.width, g.psize, g.pstride, 0);
    MulMono(0, g.channel, g.psize);
    MulMono(0, g.num, g.OHeight());
    assert g.MatRows() == (g.channel * g.psize) * g.psize;
    assert g.MatCols() == (g.num * g.OHeight()) * g.OWidth();
    SplitBound(u.y, g.channel * g.psize, g.psize);
    SplitBound(Quot(u.y, g.psize), g.channel, g.psize);
    SplitBound(u.x, g.num * g.OHeight(), g.OWidth());
    SplitBound(Quot(u.x, g.OWidth()), g.num, g.OHeight());
    xo := Rem(u.y, g.psize);
    yo := Rem(Quot(u.y, g.psize), g.psize);
    c := Quot(Quot(u.y, g.psize), g.psize);
    px := Rem(u.x, g.OWidth());
    py := Rem(Quot(u.x, g.OWidth()), g.OHeight());
    n := Quot(Quot(u.x, g.OWidth()), g.OHeight());
  }

  lemma ImgInTable(g: Geometry, n: int, c: int, y: int, x: int)
    requires ImgDigits(g, n, c, y, x)
    ensures InTable(ImgAt(g, n, c, y, x), g.ImgRows(), g.width)
    ensures var v := ImgAt(g, n, c, y, x);
            Rem(v.y, g.height) == y && Rem(Quot(v.y, g.height), g.channel) == c &&
            Quot(Quot(v.y, g.height), g.channel) == n
  {
    Digits(n * g.channel + c, y, g.height);
    Digits(n, c, g.channel);
    DigitsBound(n, c, g.num, g.channel);
    DigitsBound(n * g.channel + c, y, g.num * g.channel, g.height);
    assert g.num * g.channel * g.height == g.height * g.channel * g.num;
  }

  lemma ImgSplit(g: Geometry, v: Cell) returns (n: int, c: int, y: int)
    requires InTable(v, g.ImgRows(), g.width)
    ensures ImgDigits(g, n, c, y, v.x) && v == ImgAt(g, n, c, y, v.x)
  {
    MulMono(0, g.num, g.channel);
    assert g.ImgRows() == (g.num * g.channel) * g.height;
    SplitBound(v.y, g.num * g.channel, g.height);
    SplitBound(Quot(v.y, g.height), g.num, g.channel);
    y := Rem(v.y, g.height);
    c := Rem(Quot(v.y, g.height), g.channel);
    n := Quot(Quot(v.y, g.height), g.channel);
  }

  /** The packing loops visit window q for a pixel exactly when q covers the pixel, at the offset it covers it. */
  lemma PackVisits(g: Geometry, n: int, c: int, y: int, x: int, q: Cell)
    requires g.Valid() && ImgDigits(g, n, c, y, x)
    ensures var v := ImgAt(g, n, c, y, x);
            && (q in PackWindows(g, v.y, v.x) <==>
                MatDigits(g, n, c, q.y, q.x, y - q.y * g.pstride, x - q.x * g.pstride))
            && PackCell(g, v.y, v.x, q) == MatAt(g, n, c, q.y, q.x, y - q.y * g.pstride, x - q.x * g.pstride)
  {
    ImgInTable(g, n, c, y, x);
    CoverExact(y, g.psize, g.pstride, g.OHeight(), q.y);
    CoverExact(x, g.psize, g.pstride, g.OWidth(), q.x);
    RectVisits(CoverLo(y, g.psize, g.pstride), CoverHi(y, g.pstride, g.OHeight()),
               CoverLo(x, g.psize, g.pstride), CoverHi(x, g.pstride, g.OWidth()));
  }

  /** What packing visits for a pixel is a matrix cell that unpacking fills from the pixel. */
  lemma PackedUnpacks(g: Geometry, n: int, c: int, y: int, x: int, q: Cell)
    requires g.Valid() && ImgDigits(g, n, c, y, x)
    requires var v := ImgAt(g, n, c, y, x); q in PackWindows(g, v.y, v.x)
    ensures var v := ImgAt(g, n, c, y, x);
            var u := PackCell(g, v.y, v.x, q);
            InTable(u, g.MatRows(), g.MatCols()) && UnpackCell(g, u.y, u.x) == Some(v)
  {
    PackVisits(g, n, c, y, x, q);
    UnpackReads(g, n, c, q.y, q.x, y - q.y * g.pstride, x - q.x * g.pstride);
    MatInTable(g, n, c, q.y, q.x, y - q.y * g.pstride, x - q.x * g.pstride);
  }

  /** A matrix cell that unpacking fills from a pixel is at an offset of a window that covers the pixel. */
  lemma UnpackedPacks(g: Geometry, n: int, c: int, y: int, x: int, u: Cell) returns (q: Cell)
    requires g.Valid() && ImgDigits(g, n, c, y, x) && InTable(u, g.MatRows(), g.MatCols())
    requires UnpackCell(g, u.y, u.x) == Some(ImgAt(g, n, c, y, x))
    ensures var v := ImgAt(g, n, c, y, x); q in PackWindows(g, v.y, v.x) && PackCell(g, v.y, v.x, q) == u
  {
    var n', c', py, px, yo, xo := MatSplit(g, u);
    UnpackReads(g, n', c', py, px, yo, xo);
    ImgInTable(g, n', c', py * g.pstride + yo, px * g.pstride + xo);
    ImgInTable(g, n, c, y, x);
    q := Cell(py, px);
    PackVisits(g, n, c, y, x, q);
  }

  lemma InMap(g: Geometry, v: Cell, qs: seq<Cell>, q: Cell)
    requires q in qs
    ensures PackCell(g, v.y, v.x, q) in Map(qs, p => PackCell(g, v.y, v.x, p))
  {
    var k :| 0 <= k < |qs| && qs[k] == q;
    assert Map(qs, p => PackCell(g, v.y, v.x, p))[k] == PackCell(g, v.y, v.x, q);
  }

  lemma PackCellsAre(g: Geometry, v: Cell, u: Cell)
    requires g.Valid() && InTable(v, g.ImgRows(), g.width)
    ensures u in PackCells(g, v.y, v.x) <==>
            InTable(u, g.MatRows(), g.MatCols()) && UnpackCell(g, u.y, u.x) == Some(v)
  {
    var n, c, y := ImgSplit(g, v);
    var qs := PackWindows(g, v.y, v.x);
    if u in PackCells(g, v.y, v.x) {
      var k :| 0 <= k < |qs| && u == PackCell(g, v.y, v.x, qs[k]);
      PackedUnpacks(g, n, c, y, v.x, qs[k]);
    }
    if InTable(u, g.MatRows(), g.MatCols()) && UnpackCell(g, u.y, u.x) == Some(v) {
      var q := UnpackedPacks(g, n, c, y, v.x, u);
      InMap(g, v, qs, q);
    }
  }

  lemma PackCellsDistinct(g: Geometry, v: Cell)
    requires g.Valid() && InTable(v, g.ImgRows(), g.width)
    ensures NoDup(PackCells(g, v.y, v.x))
  {
    var n, c, y := ImgSplit(g, v);
    RectVisits(CoverLo(y, g.psize, g.pstride), CoverHi(y, g.pstride, g.OHeight()),
               CoverLo(v.x, g.psize, g.pstride), CoverHi(v.x, g.pstride, g.OWidth()));
    ImgInTable(g, n, c, y, v.x);
    var qs := PackWindows(g, v.y, v.x);
    forall a, b | a in qs && b in qs && PackCell(g, v.y, v.x, a) == PackCell(g, v.y, v.x, b) ensures a == b {
      PackVisits(g, n, c, y, v.x, a);
      PackVisits(g, n, c, y, v.x, b);
      Digits(n * g.OHeight() + a.y, a.x, g.OWidth());
      Digits(n * g.OHeight() + b.y, b.x, g.OWidth());
    }
    NoDupMap(qs, q => PackCell(g, v.y, v.x, q));
  }

  /** The list of cells unpacking reads for one matrix cell: one pixel, or none when it zero-fills. */
  function UnpackCells(g: Geometry, i: int, j: int): seq<Cell> {
    match UnpackCell(g, i, j)
    case None => []
    case Some(c) => [c]
  }

  lemma UnpackPackDual(g: Geometry)
    requires g.Valid()
    ensures Dual(Table(g.MatRows(), g.MatCols()), Table(g.ImgRows(), g.width),
                 (u: Cell) => UnpackCells(g, u.y, u.x), (v: Cell) => PackCells(g, v.y, v.x))
  {
    var rows, cols, irows := g.MatRows(), g.MatCols(), g.ImgRows();
    RectVisits(0, rows, 0, cols);
    RectVisits(0, irows, 0, g.width);
    forall u | InTable(u, rows, cols) ensures forall v :: v in UnpackCells(g, u.y, u.x) ==> InTable(v, irows, g.width) {
      var n, c, py, px, yo, xo := MatSplit(g, u);
      UnpackReads(g, n, c, py, px, yo, xo);
      ImgInTable(g, n, c, py * g.pstride + yo, px * g.pstride + xo);
    }
    forall v | InTable(v, irows, g.width)
      ensures NoDup(PackCells(g, v.y, v.x))
      ensures forall u :: u in PackCells(g, v.y, v.x) <==>
                          InTable(u, rows, cols) && v in UnpackCells(g, u.y, u.x)
    {
      PackCellsDistinct(g, v);
      forall u { PackCellsAre(g, v, u); }
    }
  }
}
