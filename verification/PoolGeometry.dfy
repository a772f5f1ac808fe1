/** Cells visited by spatial pooling, by its gradient, and by pooling across channels. */
module PoolGeometry {
  import opened Arith
  import opened Grid
  import opened Sums
  import opened Windows

  /** Kernel size and stride, source plane height x width, pooled plane pheight x pwidth, and the number of planes. */
  datatype Kernel = Kernel(ksize: nat, kstride: nat, height: nat, width: nat, pheight: nat, pwidth: nat, planes: nat) {
    function SrcRows(): int { planes * height }
    function PooledRows(): int { planes * pheight }
  }

  /** The source positions under window q of one plane, clipped at the border. */
  function Window(k: Kernel, py: int, px: int): seq<Cell> {
    Rect(py * k.kstride, Min(py * k.kstride + k.ksize, k.height), px * k.kstride,
         Min(px * k.kstride + k.ksize, k.width))
  }

  /** The source cells pooled into output cell (i, j), in loop order. */
  function PoolCells(k: Kernel, i: int, j: int): seq<Cell> {
    var py := Rem(i, k.pheight);
    var c := Quot(i, k.pheight);
    InPlane(c, k.height, Window(k, py, j))
  }

  lemma PoolWindowIs(k: Kernel, i: int, j: int, y_start: int, x_start: int)
    requires y_start == Rem(i, k.pheight) * k.kstride && x_start == j * k.kstride
    ensures PoolCells(k, i, j) == InPlane(Quot(i, k.pheight), k.height,
                                          Rect(y_start, Min(y_start + k.ksize, k.height), x_start,
                                               Min(x_start + k.ksize, k.width)))
  {}

  /** The pooled positions whose windows the gradient loops visit for plane position (y, x). */
  function Covers(k: Kernel, y: int, x: int): seq<Cell> {
    Rect(CoverLo(y, k.ksize, k.kstride), CoverHi(y, k.kstride, k.pheight),
         CoverLo(x, k.ksize, k.kstride), CoverHi(x, k.kstride, k.pwidth))
  }

  /** The pooled cells whose gradient flows back to source cell (i, j), in loop order. */
  function UnpoolCells(k: Kernel, i: int, j: int): seq<Cell> {
    var y := Rem(i, k.height);
    var c := Quot(i, k.height);
    InPlane(c, k.pheight, Covers(k, y, j))
  }

  ghost predicate Under(k: Kernel, py: int, px: int, y: int, x: int) {
    && py * k.kstride <= y < py * k.kstride + k.ksize
    && px * k.kstride <= x < px * k.kstride + k.ksize
  }

  /** The rows of plane c, listed in plane coordinates qs, as rows of the whole table. */
  function InPlane(c: int, h: int, qs: seq<Cell>): seq<Cell> {
    Map(qs, (q: Cell) => Cell(c * h + q.y, q.x))
  }

  lemma InPlaneIsMap(c: int, h: int, qs: seq<Cell>, at: Cell -> Cell)
    requires forall q :: at(q) == Cell(c * h + q.y, q.x)
    ensures InPlane(c, h, qs) == Map(qs, at)
  {}

  lemma PlaneToTable(c: int, h: int, planes: nat, q: Cell)
    requires 0 <= c < planes && 0 <= q.y < h
    ensures 0 <= c * h + q.y < planes * h && Quot(c * h + q.y, h) == c && Rem(c * h + q.y, h) == q.y
  {
    Digits(c, q.y, h);
    DigitsBound(c, q.y, planes, h);
  }

  lemma TableToPlane(c: int, h: int, planes: nat, v: Cell)
    requires 0 <= v.y < planes * h && Quot(v.y, h) == c && 0 <= h
    ensures c * h + Rem(v.y, h) == v.y
  {
    SplitBound(v.y, planes, h);
  }

  lemma InPlaneMember(c: int, h: int, qs: seq<Cell>, v: Cell)
    ensures v in InPlane(c, h, qs) <==> Cell(v.y - c * h, v.x) in qs
  {
    var s := InPlane(c, h, qs);
    if v in s {
      var k :| 0 <= k < |qs| && s[k] == v;
      assert qs[k] == Cell(v.y - c * h, v.x);
    }
    if Cell(v.y - c * h, v.x) in qs {
      var k :| 0 <= k < |qs| && qs[k] == Cell(v.y - c * h, v.x);
      assert s[k] == v;
    }
  }

  lemma InPlaneIs(c: int, h: nat, planes: nat, qs: seq<Cell>)
    requires NoDup(qs) && 0 <= c < planes
    requires forall q: Cell :: q in qs ==> 0 <= q.y < h
    ensures NoDup(InPlane(c, h, qs))
    ensures forall v: Cell :: v in InPlane(c, h, qs) <==>
              0 <= v.y < planes * h && Quot(v.y, h) == c && Cell(Rem(v.y, h), v.x) in qs
  {
    NoDupMap(qs, (q: Cell) => Cell(c * h + q.y, q.x));
    forall v: Cell ensures v in InPlane(c, h, qs) <==>
                           0 <= v.y < planes * h && Quot(v.y, h) == c && Cell(Rem(v.y, h), v.x) in qs
    {
      InPlaneMember(c, h, qs, v);
      var q := Cell(v.y - c * h, v.x);
      if q in qs { PlaneToTable(c, h, planes, q); }
      if 0 <= v.y < planes * h && Quot(v.y, h) == c { TableToPlane(c, h, planes, v); }
    }
  }

  lemma WindowIs(k: Kernel, py: nat, px: nat, q: Cell)
    ensures NoDup(Window(k, py, px))
    ensures q in Window(k, py, px) <==> 0 <= q.y < k.height && 0 <= q.x < k.width && Under(k, py, px, q.y, q.x)
  {
    RectVisits(py * k.kstride, Min(py * k.kstride + k.ksize, k.height), px * k.kstride,
               Min(px * k.kstride + k.ksize, k.width));
    MulMono(0, py, k.kstride);
    MulMono(0, px, k.kstride);
  }

  lemma CoversIs(k: Kernel, y: nat, x: nat, q: Cell)
    requires k.kstride > 0
    ensures NoDup(Covers(k, y, x))
    ensures q in Covers(k, y, x) <==> 0 <= q.y < k.pheight && 0 <= q.x < k.pwidth && Under(k, q.y, q.x, y, x)
  {
    RectVisits(CoverLo(y, k.ksize, k.kstride), CoverHi(y, k.kstride, k.pheight),
               CoverLo(x, k.ksize, k.kstride), CoverHi(x, k.kstride, k.pwidth));
    CoverExact(y, k.ksize, k.kstride, k.pheight, q.y);
    CoverExact(x, k.ksize, k.kstride, k.pwidth, q.x);
  }

  /** Source cell v lies under the window of pooled cell u. */
  ghost predicate Pooled(k: Kernel, u: Cell, v: Cell) {
    && InTable(u, k.PooledRows(), k.pwidth) && InTable(v, k.SrcRows(), k.width)
    && Quot(u.y, k.pheight) == Quot(v.y, k.height)
    && Under(k, Rem(u.y, k.pheight), u.x, Rem(v.y, k.height), v.x)
  }

  /** Pooling reads, once each, the pixels of its own plane that lie under its window. */
  lemma PoolCellsAre(k: Kernel, u: Cell)
    requires InTable(u, k.PooledRows(), k.pwidth)
    ensures NoDup(PoolCells(k, u.y, u.x))
    ensures forall v :: v in PoolCells(k, u.y, u.x) <==> Pooled(k, u, v)
  {
    SplitBound(u.y, k.planes, k.pheight);
    var c, py := Quot(u.y, k.pheight), Rem(u.y, k.pheight);
    var qs := Window(k, py, u.x);
    forall q ensures NoDup(qs) && (q in qs <==>
                                   0 <= q.y < k.height && 0 <= q.x < k.width && Under(k, py, u.x, q.y, q.x)) {
      WindowIs(k, py, u.x, q);
    }
    InPlaneIs(c, k.height, k.planes, qs);
    forall v: Cell | 0 <= v.y < k.SrcRows() ensures 0 <= Rem(v.y, k.height) < k.height {
      SplitBound(v.y, k.planes, k.height);
    }
  }

  /** The gradient reads, once each, the pooled cells of its own plane whose windows contain it. */
  lemma UnpoolCellsAre(k: Kernel, v: Cell)
    requires k.kstride > 0 && InTable(v, k.SrcRows(), k.width)
    ensures NoDup(UnpoolCells(k, v.y, v.x))
    ensures forall u :: u in UnpoolCells(k, v.y, v.x) <==> Pooled(k, u, v)
  {
    SplitBound(v.y, k.planes, k.height);
    var c, y := Quot(v.y, k.height), Rem(v.y, k.height);
    var qs := Covers(k, y, v.x);
    forall q ensures NoDup(qs) && (q in qs <==>
                                   0 <= q.y < k.pheight && 0 <= q.x < k.pwidth && Under(k, q.y, q.x, y, v.x)) {
      CoversIs(k, y, v.x, q);
    }
    InPlaneIs(c, k.pheight, k.planes, qs);
    forall u: Cell | 0 <= u.y < k.PooledRows() ensures 0 <= Rem(u.y, k.pheight) < k.pheight {
      SplitBound(u.y, k.planes, k.pheight);
    }
  }

  lemma PoolUnpoolDual(k: Kernel)
    requires k.kstride > 0
    ensures Dual(Table(k.PooledRows(), k.pwidth), Table(k.SrcRows(), k.width),
                 (u: Cell) => PoolCells(k, u.y, u.x), (v: Cell) => UnpoolCells(k, v.y, v.x))
  {
    RectVisits(0, k.PooledRows(), 0, k.pwidth);
    RectVisits(0, k.SrcRows(), 0, k.width);
    forall u | InTable(u, k.PooledRows(), k.pwidth)
      ensures NoDup(PoolCells(k, u.y, u.x))
      ensures forall v :: v in PoolCells(k, u.y, u.x) <==> Pooled(k, u, v)
    {
      PoolCellsAre(k, u);
    }
    forall v | InTable(v, k.SrcRows(), k.width)
      ensures NoDup(UnpoolCells(k, v.y, v.x))
      ensures forall u :: u in UnpoolCells(k, v.y, v.x) <==> Pooled(k, u, v)
    {
      UnpoolCellsAre(k, v);
    }
  }

  /** Channels pooled together with channel c: at most half on each side, clipped to the channel range. */
  function NearLo(c: int, half: nat): int {
    if c < half then 0 else c - half
  }

  function NearHi(c: int, half: nat, channel: int): int {
    Min(c + half + 1, channel)
  }

  /** The cells channel pooling folds for cell (i, j): the same pixel in the neighbouring channels. */
  function ChannelCells(half: nat, channel: nat, height: nat, i: int, j: int): seq<Cell> {
    var y := Rem(i, height);
    var c := Rem(Quot(i, height), channel);
    var n := Quot(Quot(i, height), channel);
    Map(RowCells(0, NearLo(c, half), NearHi(c, half, channel)), (q: Cell) => Cell((n * channel + q.x) * height + y, j))
  }

  /** Two cells hold the same pixel of the same image in channels at most half apart. */
  ghost predicate Near(half: nat, channel: nat, height: nat, num: nat, width: nat, u: Cell, v: Cell) {
    && InTable(u, num * channel * height, width) && InTable(v, num * channel * height, width)
    && u.x == v.x && Rem(u.y, height) == Rem(v.y, height)
    && Quot(Quot(u.y, height), channel) == Quot(Quot(v.y, height), channel)
    && Rem(Quot(v.y, height), channel) - half <= Rem(Quot(u.y, height), channel) <= Rem(Quot(v.y, height), channel) +
       half
  }

  lemma ChannelSplit(num: nat, channel: nat, height: nat, r: int)
    requires 0 <= r < num * channel * height
    ensures var y, c, n := Rem(r, height), Rem(Quot(r, height), channel), Quot(Quot(r, height), channel);
            0 <= y < height && 0 <= c < channel && 0 <= n < num && r == (n * channel + c) * height + y
  {
    MulMono(0, num, channel);
    SplitBound(r, num * channel, height);
    SplitBound(Quot(r, height), num, channel);
  }

  lemma ChannelDigits(num: nat, channel: nat, height: nat, n: int, c: int, y: int)
    requires 0 <= n < num && 0 <= c < channel && 0 <= y < height
    ensures 0 <= (n * channel + c) * height + y < num * channel * height
    ensures var r := (n * channel + c) * height + y;
            Rem(r, height) == y && Rem(Quot(r, height), channel) == c && Quot(Quot(r, height), channel) == n
  {
    DigitsBound(n, c, num, channel);
    DigitsBound(n * channel + c, y, num * channel, height);
    Digits(n * channel + c, y, height);
    Digits(n, c, channel);
  }

  lemma ChannelCellsAre(half: nat, channel: nat, height: nat, num: nat, width: nat, v: Cell)
    requires InTable(v, num * channel * height, width)
    ensures NoDup(ChannelCells(half, channel, height, v.y, v.x))
    ensures forall u :: u in ChannelCells(half, channel, height, v.y, v.x) <==>
            Near(half, channel, height, num, width, u, v)
  {
    ChannelSplit(num, channel, height, v.y);
    var y, c, n := Rem(v.y, height), Rem(Quot(v.y, height), channel), Quot(Quot(v.y, height), channel);
    var lo, hi := NearLo(c, half), NearHi(c, half, channel);
    var qs := RowCells(0, lo, hi);
    var f := (q: Cell) => Cell((n * channel + q.x) * height + y, v.x);
    forall q | q in qs
      ensures 0 <= q.x < channel && c - half <= q.x <= c + half && q.y == 0
      ensures Near(half, channel, height, num, width, f(q), v)
      ensures Rem(Quot(f(q).y, height), channel) == q.x
    {
      ChannelDigits(num, channel, height, n, q.x, y);
    }
    NoDupMap(qs, f);
    forall u | Near(half, channel, height, num, width, u, v) ensures u in Map(qs, f) {
      ChannelSplit(num, channel, height, u.y);
      var d := Rem(Quot(u.y, height), channel);
      assert qs[d - lo] == Cell(0, d);
      assert Map(qs, f)[d - lo] == u;
    }
  }

  /** "Pooled together" is symmetric, so channel pooling is its own dual. */
  lemma ChannelSelfDual(half: nat, channel: nat, height: nat, num: nat, width: nat)
    ensures var cells := (u: Cell) => ChannelCells(half, channel, height, u.y, u.x);
            Dual(Table(num * channel * height, width), Table(num * channel * height, width), cells, cells)
  {
    RectVisits(0, num * channel * height, 0, width);
    forall u | InTable(u, num * channel * height, width)
      ensures NoDup(ChannelCells(half, channel, height, u.y, u.x))
      ensures forall v :: v in ChannelCells(half, channel, height, u.y, u.x) <==>
              Near(half, channel, height, num, width, v, u)
    {
      ChannelCellsAre(half, channel, height, num, width, u);
    }
  }
}
