/** The research table's hexagonal field: which (column, row) cells exist for a
    field radius, in the order the generator creates them, and the pixel box
    each cell is drawn in and annotated with. */
module HexGrid {
  import opened Numeric
  import opened Sequences

  /** A lattice cell in offset coordinates: column x, row y. */
  datatype Cell = Cell(x: int, y: int)

  /** First row of column x (inclusive): -r + (|x| + 1) // 2. */
  function RowLow(r: nat, x: int): int {
    (Abs(x) + 1) / 2 - r
  }

  /** Last row of column x (inclusive): r - |x| // 2; the script's range() stops one past it. */
  function RowHigh(r: nat, x: int): int {
    r - Abs(x) / 2
  }

  /** The cells of the field of radius r. */
  predicate InField(r: nat, c: Cell) {
    -(r as int) <= c.x <= r && RowLow(r, c.x) <= c.y <= RowHigh(r, c.x)
  }

  /** The cells (x, lo), (x, lo + 1), ..., (x, hi). */
  function ColumnCells(x: int, lo: int, hi: int): seq<Cell>
    decreases hi - lo
  {
    if lo > hi then [] else [Cell(x, lo)] + ColumnCells(x, lo + 1, hi)
  }

  /** Columns x, x + 1, ..., r of the field, each in increasing row order. */
  function ColumnsFrom(r: nat, x: int): seq<Cell>
    decreases r - x
  {
    if x > r then [] else ColumnCells(x, RowLow(r, x), RowHigh(r, x)) + ColumnsFrom(r, x + 1)
  }

  /** Every cell of the field in the order the two nested loops insert them
      into the cell dictionary: column by column from -r, row by row upwards.
      This is also the order in which cells are drawn and annotated. */
  function Cells(r: nat): seq<Cell> {
    ColumnsFrom(r, -(r as int))
  }

  /** Cells are listed column first, then row. */
  predicate Before(a: Cell, b: Cell) {
    a.x < b.x || (a.x == b.x && a.y < b.y)
  }

  predicate StrictlyOrdered(s: seq<Cell>) {
    forall i, j :: 0 <= i < j < |s| ==> Before(s[i], s[j])
  }

  lemma {:induction false} ColumnCellsAt(x: int, lo: int, hi: int)
    ensures |ColumnCells(x, lo, hi)| == if lo > hi then 0 else hi - lo + 1
    ensures forall k :: 0 <= k < |ColumnCells(x, lo, hi)| ==> ColumnCells(x, lo, hi)[k] == Cell(x, lo + k)
    decreases hi - lo
  {
    if lo <= hi {
      ColumnCellsAt(x, lo + 1, hi);
    }
  }

  /** Twice the number of cells in columns x..r, in closed form. */
  function TwiceCountFrom(r: nat, x: int): int {
    if x >= 0 then (r + 1 - x) * (3 * r + 2 - x)
    else (r + 1) * (3 * r + 2) + (-x) * (4 * r + 1 + x)
  }

  /** The height of a column of the field: 2r + 1 - |x| rows. */
  lemma ColumnHeight(r: nat, x: int)
    requires -(r as int) <= x <= r
    ensures |ColumnCells(x, RowLow(r, x), RowHigh(r, x))| == 2 * r + 1 - Abs(x)
  {
    ColumnCellsAt(x, RowLow(r, x), RowHigh(r, x));
    assert Abs(x) / 2 + (Abs(x) + 1) / 2 == Abs(x);
  }

  /** Adding column x to the count of columns x + 1..r gives the closed form at x. */
  lemma TwiceCountStep(r: nat, x: int)
    requires -(r as int) <= x <= r
    ensures TwiceCountFrom(r, x) == 2 * (2 * r + 1 - Abs(x)) + TwiceCountFrom(r, x + 1)
  {
    if x >= 0 {
      var a := r - x;
      assert (a + 1) * (3 * r + 2 - x) == a * (3 * r + 1 - x) + a + 3 * r + 2 - x;
    } else if x < -1 {
      var n := -x;
      assert (n - 1) * (4 * r + 2 - n) == n * (4 * r + 2 - n) - (4 * r + 2 - n);
    }
  }

  /** Columns x..r hold TwiceCountFrom(r, x) / 2 cells. */
  lemma {:induction false} ColumnsFromLength(r: nat, x: int)
    requires -(r as int) <= x <= r + 1
    ensures 2 * |ColumnsFrom(r, x)| == TwiceCountFrom(r, x)
    decreases r - x
  {
    if x <= r {
      ColumnsFromLength(r, x + 1);
      ColumnHeight(r, x);
      TwiceCountStep(r, x);
    }
  }

  /** Columns x..r hold exactly the field cells whose column is at least x. */
  lemma {:induction false} ColumnsFromMembers(r: nat, x: int)
    requires -(r as int) <= x <= r + 1
    ensures forall c :: c in ColumnsFrom(r, x) <==> x <= c.x && InField(r, c)
    decreases r - x
  {
    if x <= r {
      var lo, hi := RowLow(r, x), RowHigh(r, x);
      var col := ColumnCells(x, lo, hi);
      var rest := ColumnsFrom(r, x + 1);
      ColumnCellsAt(x, lo, hi);
      ColumnsFromMembers(r, x + 1);
      assert ColumnsFrom(r, x) == col + rest;
      forall c: Cell
        ensures c in col + rest <==> x <= c.x && InField(r, c)
      {
        if c in col {
          var k :| 0 <= k < |col| && col[k] == c;
        }
        if c.x == x && InField(r, c) {
          assert col[c.y - lo] == c;
        }
      }
    }
  }

  /** Columns x..r are listed by column, then by row. */
  lemma {:induction false} ColumnsFromOrdered(r: nat, x: int)
    requires -(r as int) <= x <= r + 1
    ensures StrictlyOrdered(ColumnsFrom(r, x))
    decreases r - x
  {
    if x <= r {
      var lo, hi := RowLow(r, x), RowHigh(r, x);
      var col := ColumnCells(x, lo, hi);
      var rest := ColumnsFrom(r, x + 1);
      ColumnCellsAt(x, lo, hi);
      ColumnsFromOrdered(r, x + 1);
      ColumnsFromMembers(r, x + 1);
      assert ColumnsFrom(r, x) == col + rest;
      forall i, j | 0 <= i < j < |col + rest|
        ensures Before((col + rest)[i], (col + rest)[j])
      {
        if j >= |col| && i < |col| {
          assert rest[j - |col|] in rest;
        }
      }
    }
  }

  /** The closed form at column -r, multiplied out. */
  lemma TwiceCountAll(r: nat)
    ensures TwiceCountFrom(r, -(r as int)) == 2 * (3 * r * r + 3 * r + 1)
  {
    if r > 0 {
      var n: int := r;
      assert TwiceCountFrom(r, -n) == (n + 1) * (3 * n + 2) + n * (4 * n + 1 - n);
      assert (n + 1) * (3 * n + 2) == 3 * n * n + 5 * n + 2;
      assert n * (3 * n + 1) == 3 * n * n + n;
    }
  }

  /** The field of radius r has 3r^2 + 3r + 1 cells. */
  lemma CellsCount(r: nat)
    ensures |Cells(r)| == 3 * r * r + 3 * r + 1
  {
    ColumnsFromLength(r, -(r as int));
    TwiceCountAll(r);
  }

  /** The field lists no cell twice, and its cells are exactly those whose
      column lies in [-r, r] and whose row lies in that column's range. */
  lemma CellsFacts(r: nat)
    ensures Distinct(Cells(r))
    ensures forall c :: c in Cells(r) <==> InField(r, c)
    ensures forall c :: c in Cells(r) ==> -(r as int) <= c.x <= r
  {
    ColumnsFromMembers(r, -(r as int));
    ColumnsFromOrdered(r, -(r as int));
    OrderedDistinct(Cells(r));
  }

  /** A strictly ordered list of cells lists no cell twice. */
  lemma OrderedDistinct(s: seq<Cell>)
    requires StrictlyOrdered(s)
    ensures Distinct(s)
  {
    forall i, j | 0 <= i < j < |s|
      ensures s[i] != s[j]
    {
      assert Before(s[i], s[j]);
    }
  }

  /** Pixel position of the central cell and the row pitch; both are exact
      binary fractions, so real arithmetic reproduces the float values. */
  const CenterX: real := 72.0
  const CenterY: real := 72.0
  const SlotSizeY: real := 15.5

  /** The column pitch 15.5 * cos(pi / 6) is irrational and is a parameter
      here, as is the global resolution multiplier (QUALITY_MODIFIER, 2 in the script). */
  datatype Layout = Layout(slotSizeX: real, quality: real)

  /** A pixel box [x, y, width, height], the annotation's bbox. */
  datatype Box = Box(x: int, y: int, width: int, height: int)

  /** The side of every cell box, int(15.5 * multiplier). */
  function SlotPixels(l: Layout): int {
    Trunc(SlotSizeY * l.quality)
  }

  /** The pixel box of cell c. Odd columns (x % 2 == 1, which with Python's
      and Dafny's modulo also holds for negative odd x) sit half a row higher. */
  function CellBox(l: Layout, c: Cell): (b: Box)
    ensures b.width == b.height == SlotPixels(l)
  {
    Box(Trunc(PixelX(l, c)), Trunc(PixelY(l, c)), SlotPixels(l), SlotPixels(l))
  }

  /** The box corner before truncation to whole pixels. */
  function PixelX(l: Layout, c: Cell): real {
    (CenterX + l.slotSizeX * c.x as real) * l.quality
  }

  /** Row 0's vertical position in column x: odd columns are lifted by half a row. */
  function ColumnBase(x: int): real {
    CenterY - (x % 2) as real * (SlotSizeY / 2.0)
  }

  function PixelY(l: Layout, c: Cell): real {
    (ColumnBase(c.x) + SlotSizeY * c.y as real) * l.quality
  }

  /** Scaling the gap between two pitch multiples: a gap of d >= 1 pitches
      of p, scaled by q with p * q >= 2, is at least two pixels. */
  lemma ScaledGap(base: real, p: real, q: real, a: real, b: real)
    requires 2.0 <= p * q && a + 1.0 <= b
    ensures (base + p * a) * q + 2.0 <= (base + p * b) * q
  {
    var d := b - a;
    calc {
      (base + p * b) * q;
    ==
      base * q + p * q * b;
    ==
      base * q + p * q * a + p * q * d;
    ==
      (base + p * a) * q + p * q * d;
    }
    var pq := p * q;
    assert pq * d == pq + pq * (d - 1.0);
    NonNegativeProduct(pq, d - 1.0);
  }

  lemma NonNegativeProduct(u: real, v: real)
    requires 0.0 <= u && 0.0 <= v
    ensures 0.0 <= u * v
  {
  }

  /** When the scaled column pitch and row pitch are both at least two pixels
      (26.8 and 31 in the script's configuration), distinct cells get boxes
      at distinct positions: boxes of later columns lie further right, and
      within a column boxes of higher rows lie further down. */
  lemma BoxesDistinct(l: Layout, a: Cell, b: Cell)
    requires 2.0 <= l.slotSizeX * l.quality && 2.0 <= SlotSizeY * l.quality
    requires Before(a, b)
    ensures CellBox(l, a).x < CellBox(l, b).x || (a.x == b.x && CellBox(l, a).y < CellBox(l, b).y)
  {
    var q := l.quality;
    if a.x < b.x {
      ScaledGap(CenterX, l.slotSizeX, q, a.x as real, b.x as real);
      TruncSeparates(PixelX(l, a), PixelX(l, b));
    } else {
      ScaledGap(ColumnBase(a.x), SlotSizeY, q, a.y as real, b.y as real);
      TruncSeparates(PixelY(l, a), PixelY(l, b));
    }
  }
}
