/** Cells of a grid, the rectangles of cells a grid covers, and the
    numeric keys `x + y * scale` that stand for cells in sets of numbers:
    when they tell cells apart (KeyInjective, KeysMember, KeysCard) and
    when two cells share one (KeyCollides). */
module Plane {

  /** A cell `[x, y]`: column x of row y. */
  datatype Cell = Cell(x: int, y: int)

  ghost function RowCells(w: nat, y: int): set<Cell> {
    set x | 0 <= x < w :: Cell(x, y)
  }

  /** The cells of a w-by-h grid. */
  ghost function RectCells(w: nat, h: nat): set<Cell> {
    set x, y | 0 <= x < w && 0 <= y < h :: Cell(x, y)
  }

  lemma RectCellsMember(w: nat, h: nat, c: Cell)
    ensures c in RectCells(w, h) <==> 0 <= c.x < w && 0 <= c.y < h
  {
    if 0 <= c.x < w && 0 <= c.y < h {
      assert c == Cell(c.x, c.y);
    }
  }

  lemma {:induction false} RowCellsCard(w: nat, y: int)
    ensures |RowCells(w, y)| == w
  {
    if w > 0 {
      assert RowCells(w, y) == RowCells(w - 1, y) + {Cell(w - 1, y)};
      RowCellsCard(w - 1, y);
    } else {
      assert RowCells(w, y) == {};
    }
  }

  /** A w-by-h grid has w * h cells. */
  lemma {:induction false} RectCellsCard(w: nat, h: nat)
    ensures |RectCells(w, h)| == w * h
  {
    if h > 0 {
      var a, b := RectCells(w, h - 1), RowCells(w, h - 1);
      forall c | c in RectCells(w, h)
        ensures c in a + b
      {
        if c.y < h - 1 {
          assert c == Cell(c.x, c.y);
        } else {
          assert c == Cell(c.x, h - 1);
        }
      }
      assert RectCells(w, h) == a + b;
      assert a !! b;
      RectCellsCard(w, h - 1);
      RowCellsCard(w, h - 1);
      assert w * (h - 1) + w == w * h;
    } else {
      assert RectCells(w, h) == {};
    }
  }

  /** The number a solver stores in a `Set` for a cell: `x + y * scale`. */
  function Key(c: Cell, scale: int): int {
    c.x + c.y * scale
  }

  /** On grids narrower than the scale the stored numbers identify cells,
      so a set of cells stands for the set of numbers. */
  lemma KeyInjective(a: Cell, b: Cell, scale: int)
    requires 0 <= a.x < scale && 0 <= b.x < scale
    ensures Key(a, scale) == Key(b, scale) <==> a == b
  {
    if Key(a, scale) == Key(b, scale) {
      var k := a.y - b.y;
      assert k * scale == b.x - a.x;
      MultipleAway(k, scale);
    }
  }

  /** A non-zero multiple of s is at least s away from zero. */
  lemma {:induction false} MultipleAway(k: int, s: int)
    requires s > 0
    ensures k > 0 ==> k * s >= s
    ensures k < 0 ==> k * s <= -s
    decreases if k < 0 then -k else k
  {
    if k > 1 {
      MultipleAway(k - 1, s);
      assert k * s == (k - 1) * s + s;
    } else if k < -1 {
      MultipleAway(k + 1, s);
      assert k * s == (k + 1) * s - s;
    }
  }

  /** The numbers a solver's `Set` holds for a set of cells. */
  ghost function Keys(s: set<Cell>, scale: int): set<int> {
    set c | c in s :: Key(c, scale)
  }

  /** On cells narrower than the scale, a cell's number is stored exactly
      when the cell is among the cells: `seen.has` answers for the cell. */
  lemma KeysMember(s: set<Cell>, scale: int, c: Cell)
    requires 0 <= c.x < scale && forall d :: d in s ==> 0 <= d.x < scale
    ensures Key(c, scale) in Keys(s, scale) <==> c in s
  {
    if Key(c, scale) in Keys(s, scale) {
      var d :| d in s && Key(d, scale) == Key(c, scale);
      KeyInjective(c, d, scale);
    }
  }

  /** And the `Set` of numbers is as large as the set of cells, so its
      `size` counts the cells. */
  lemma {:induction false} KeysCard(s: set<Cell>, scale: int)
    requires forall d :: d in s ==> 0 <= d.x < scale
    ensures |Keys(s, scale)| == |s|
    decreases |s|
  {
    if s != {} {
      var c :| c in s;
      var rest := s - {c};
      KeysCard(rest, scale);
      KeysMember(rest, scale, c);
      assert Keys(s, scale) == Keys(rest, scale) + {Key(c, scale)};
    } else {
      assert Keys(s, scale) == {};
    }
  }

  /** On a grid as wide as the scale two cells share a number. */
  lemma KeyCollides(scale: int)
    ensures Key(Cell(scale, 0), scale) == Key(Cell(0, 1), scale)
  {
  }
}
