/** Cells of a two-dimensional index space, and the order in which nested y/x loops visit them. */
module Grid {
  import opened Sums

  datatype Cell = Cell(y: int, x: int)

  /** The cells of row y with x0 <= x < x1, left to right. */
  function RowCells(y: int, x0: int, x1: int): (r: seq<Cell>)
    ensures |r| == if x0 <= x1 then x1 - x0 else 0
    ensures forall i :: 0 <= i < |r| ==> r[i] == Cell(y, x0 + i)
  {
    if x0 >= x1 then [] else seq(x1 - x0, i => Cell(y, x0 + i))
  }

  /** The cells a loop `for y in [y0,y1) for x in [x0,x1)` visits, in order. */
  function Rect(y0: int, y1: int, x0: int, x1: int): seq<Cell>
    decreases y1 - y0
  {
    if y0 >= y1 then [] else Rect(y0, y1 - 1, x0, x1) + RowCells(y1 - 1, x0, x1)
  }

  function Table(h: int, w: int): seq<Cell> {
    Rect(0, h, 0, w)
  }

  predicate InRect(c: Cell, y0: int, y1: int, x0: int, x1: int) {
    y0 <= c.y < y1 && x0 <= c.x < x1
  }

  predicate InTable(c: Cell, h: int, w: int) {
    InRect(c, 0, h, 0, w)
  }

  lemma {:induction false} RectVisits(y0: int, y1: int, x0: int, x1: int)
    ensures NoDup(Rect(y0, y1, x0, x1))
    ensures forall c :: c in Rect(y0, y1, x0, x1) <==> InRect(c, y0, y1, x0, x1)
    decreases y1 - y0
  {
    if y0 >= y1 {
    } else {
      RectVisits(y0, y1 - 1, x0, x1);
      var p, row := Rect(y0, y1 - 1, x0, x1), RowCells(y1 - 1, x0, x1);
      assert forall i :: 0 <= i < |p| ==> p[i] in p;
      forall c | InRect(c, y1 - 1, y1, x0, x1) ensures c in row {
        assert row[c.x - x0] == c;
      }
      assert forall c :: c in p + row <==> c in p || c in row;
    }
  }

  lemma NoDupMap<S, T>(s: seq<S>, f: S -> T)
    requires NoDup(s)
    requires forall a, b :: a in s && b in s && f(a) == f(b) ==> a == b
    ensures NoDup(Map(s, f))
  {
    forall i, j | 0 <= i < j < |s| ensures Map(s, f)[i] != Map(s, f)[j] {
      assert s[i] in s && s[j] in s && s[i] != s[j];
    }
  }

  /** The cells a nested loop over rows y0.. and columns x0..x1 has visited when it reaches (y, x). */
  function Visited(y0: int, x0: int, x1: int, y: int, x: int): seq<Cell> {
    Rect(y0, y, x0, x1) + RowCells(y, x0, x)
  }

  lemma VisitedStart(y0: int, x0: int, x1: int, y: int)
    ensures Visited(y0, x0, x1, y, x0) == Rect(y0, y, x0, x1)
  {
  }

  lemma VisitedStep(y0: int, x0: int, x1: int, y: int, x: int)
    requires x0 <= x
    ensures Visited(y0, x0, x1, y, x + 1) == Visited(y0, x0, x1, y, x) + [Cell(y, x)]
  {
    assert RowCells(y, x0, x + 1) == RowCells(y, x0, x) + [Cell(y, x)];
  }

  lemma VisitedRow(y0: int, x0: int, x1: int, y: int, x: int)
    requires y0 <= y && x0 <= x && (x == x0 || x <= x1) && x1 <= x
    ensures Rect(y0, y + 1, x0, x1) == Visited(y0, x0, x1, y, x)
  {
    assert RowCells(y, x0, x) == RowCells(y, x0, x1);
  }
}
