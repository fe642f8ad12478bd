/** The enumeration and placement of subplot cells. */
module SubplotCells {
  import opened Numbers
  import opened Subplots

  /** The number of a cell, in column-major or row-major order. */
  function IndexOf(row: int, col: int, rows: int, cols: int, colMajor: bool): int {
    if colMajor then col * rows + row else row * cols + col
  }

  function RowOf(idx: int, rows: int, cols: int, colMajor: bool): int
    requires rows > 0 && cols > 0
  {
    if colMajor then idx % rows else idx / cols
  }

  function ColOf(idx: int, rows: int, cols: int, colMajor: bool): int
    requires rows > 0 && cols > 0
  {
    if colMajor then idx / rows else idx % cols
  }

  lemma QuotientBelow(x: int, d: int, n: int)
    requires d > 0 && 0 <= x < n * d
    ensures 0 <= x / d < n && (x / d) * d + x % d == x
  {
    var q := x / d;
    assert x == q * d + x % d;
    assert q >= n ==> q * d >= n * d;
  }

  lemma QuotientNext(x: int, d: int)
    requires d > 0
    ensures if x % d < d - 1 then (x + 1) / d == x / d && (x + 1) % d == x % d + 1 else (x + 1) / d == x / d + 1 && (x + 1) % d == 0
  {
    if x % d < d - 1 {
      DivModIs(x + 1, d, x / d, x % d + 1);
    } else {
      DivModIs(x + 1, d, x / d + 1, 0);
    }
  }

  lemma ProductBelow(q: int, r: int, n: int, d: int)
    requires 0 <= q < n && 0 <= r < d
    ensures 0 <= q * d + r < n * d
  {
    assert (q + 1) * d <= n * d;
  }

  /** From number to cell and back. */
  lemma IndexOfCell(idx: int, rows: int, cols: int, colMajor: bool)
    requires rows > 0 && cols > 0 && 0 <= idx < rows * cols
    ensures var row, col := RowOf(idx, rows, cols, colMajor), ColOf(idx, rows, cols, colMajor);
            0 <= row < rows && 0 <= col < cols && IndexOf(row, col, rows, cols, colMajor) == idx
  {
    if colMajor {
      QuotientBelow(idx, rows, cols);
    } else {
      QuotientBelow(idx, cols, rows);
    }
  }

  /** From cell to number and back: every cell has a number. */
  lemma CellOfIndex(row: int, col: int, rows: int, cols: int, colMajor: bool)
    requires 0 <= row < rows && 0 <= col < cols
    ensures var idx := IndexOf(row, col, rows, cols, colMajor);
            0 <= idx < rows * cols && RowOf(idx, rows, cols, colMajor) == row && ColOf(idx, rows, cols, colMajor) == col
  {
    if colMajor {
      ProductBelow(col, row, cols, rows);
      DivModIs(col * rows + row, rows, col, row);
    } else {
      ProductBelow(row, col, rows, cols);
      DivModIs(row * cols + col, cols, row, col);
    }
  }

  /** IM_ROUND. */
  function Round(x: real): int {
    Trunc(x + 0.5)
  }

  /** The nearest whole number, halves going up; below -1/2 the next one above that, unless it is exact there. */
  predicate IsRounded(n: int, x: real) {
    if x >= -0.5 then x - 0.5 < n as real <= x + 0.5 else x + 0.5 <= n as real < x + 1.5
  }

  lemma RoundIs(x: real)
    ensures IsRounded(Round(x), x)
  {
  }

  /** Where row or column n starts along its axis, in whole pixels. */
  function EdgeOf(ratios: seq<real>, n: int, start: real, length: real): int
    requires 0 <= n <= |ratios|
  {
    EdgeAfter(Sum(ratios[..n]), start, length)
  }

  function EdgeAfter(share: real, start: real, length: real): int {
    Round(start + share * length)
  }

  function ExtentOf(ratio: real, length: real): int {
    Round(length * ratio)
  }

  lemma RoundedEdge(share: real, start: real, length: real, x: real)
    requires x == start + share * length
    ensures IsRounded(EdgeAfter(share, start, length), x)
  {
    RoundIs(x);
  }

  lemma RoundedExtent(ratio: real, length: real, x: real)
    requires x == length * ratio
    ensures IsRounded(ExtentOf(ratio, length), x)
  {
    RoundIs(x);
  }

  datatype Cell = Cell(row: int, col: int)

  datatype Place = Place(x: int, y: int, w: int, h: int)

  class CellGrid {
    const Rows: int
    const Cols: int
    const ColMajor: bool
    const RowRatios: seq<real>
    const ColRatios: seq<real>
    const MinX: real
    const MinY: real
    const Width: real
    const Height: real
    var CurrentIdx: int
    var CursorX: int
    var CursorY: int
    var CellW: int
    var CellH: int
    /** The cell the cursor stands at. */
    ghost var At: Cell

    predicate Shaped() {
      Rows > 0 && Cols > 0 && |RowRatios| == Rows && |ColRatios| == Cols
    }

    constructor (rows: int, cols: int, colMajor: bool, rowRatios: seq<real>, colRatios: seq<real>,
                 minX: real, minY: real, width: real, height: real)
      requires rows > 0 && cols > 0 && |rowRatios| == rows && |colRatios| == cols
      ensures Shaped() && Rows == rows && Cols == cols && ColMajor == colMajor
    {
      Rows, Cols, ColMajor, RowRatios, ColRatios := rows, cols, colMajor, rowRatios, colRatios;
      MinX, MinY, Width, Height := minX, minY, width, height;
      CurrentIdx, CursorX, CursorY, CellW, CellH, At := 0, 0, 0, 0, 0, Cell(0, 0);
    }

    function CursorXOf(col: int): int
      requires Shaped() && 0 <= col <= Cols
    {
      EdgeOf(ColRatios, col, MinX, Width)
    }

    function CursorYOf(row: int): int
      requires Shaped() && 0 <= row <= Rows
    {
      EdgeOf(RowRatios, row, MinY, Height)
    }

    /** Where the cursor has to stand for a cell, and the size of that cell. */
    function PlaceOf(cell: Cell): Place
      requires Shaped() && InGrid(cell)
    {
      Place(CursorXOf(cell.col), CursorYOf(cell.row), ExtentOf(ColRatios[cell.col], Width), ExtentOf(RowRatios[cell.row], Height))
    }

    predicate Placed(cell: Cell)
      requires Shaped() && InGrid(cell)
      reads this
    {
      Place(CursorX, CursorY, CellW, CellH) == PlaceOf(cell)
    }

    /** The share of the grid before row or column n. */
    static method OffsetBefore(ratios: seq<real>, n: int) returns (off: real)
      requires 0 <= n <= |ratios|
      ensures off == Sum(ratios[..n])
    {
      off := 0.0;
      for i := 0 to n
        invariant off == Sum(ratios[..i])
      {
        assert ratios[..i + 1][..i] == ratios[..i];
        off := off + ratios[i];
      }
    }

    /** SubplotSetCell(row, col): a cell outside the grid is ignored. */
    method SetCell(row: int, col: int)
      requires Shaped() && row >= 0 && col >= 0
      modifies this
      ensures row >= Rows || col >= Cols ==> unchanged(this)
      ensures row < Rows && col < Cols ==>
                At == Cell(row, col) && CurrentIdx == IndexOf(row, col, Rows, Cols, ColMajor) && Placed(At)
    {
      hide Round, Sum;
      if row >= Rows || col >= Cols {
        return;
      }
      var xoff := OffsetBefore(ColRatios, col);
      var yoff := OffsetBefore(RowRatios, row);
      CursorX := Round(MinX + xoff * Width);
      CursorY := Round(MinY + yoff * Height);
      CellW := Round(Width * ColRatios[col]);
      CellH := Round(Height * RowRatios[row]);
      At := Cell(row, col);
      if ColMajor {
        CurrentIdx := col * Rows + row;
      } else {
        CurrentIdx := row * Cols + col;
      }
    }

    /** SubplotSetCell(idx): the cell with that number, if there is one. */
    method SetCellIndex(idx: int)
      requires Shaped() && idx >= 0
      modifies this
      ensures idx >= Rows * Cols ==> unchanged(this)
      ensures idx < Rows * Cols ==> CurrentIdx == idx && At == CellAt(idx) && InGrid(At) && Placed(At)
    {
      if idx >= Rows * Cols {
        return;
      }
      var row, col := 0, 0;
      if ColMajor {
        row := idx % Rows;
        col := idx / Rows;
      } else {
        row := idx / Cols;
        col := idx % Cols;
      }
      IndexOfCell(idx, Rows, Cols, ColMajor);
      SetCell(row, col);
    }

    predicate InGrid(cell: Cell) {
      0 <= cell.row < Rows && 0 <= cell.col < Cols
    }

    function CellAt(idx: int): Cell
      requires Shaped()
    {
      Cell(RowOf(idx, Rows, Cols, ColMajor), ColOf(idx, Rows, Cols, ColMajor))
    }

    /** In row-major order the next cell lies to the right, or at the start of the next row; in column-major
        order below, or at the top of the next column. */
    lemma NextCellIs(idx: int)
      requires Shaped() && 0 <= idx < Rows * Cols - 1
      ensures CellAt(0) == Cell(0, 0)
      ensures var from, to := CellAt(idx), CellAt(idx + 1);
              if ColMajor then to == (if from.row < Rows - 1 then Cell(from.row + 1, from.col) else Cell(0, from.col + 1))
              else to == (if from.col < Cols - 1 then Cell(from.row, from.col + 1) else Cell(from.row + 1, 0))
    {
      CellOfIndex(0, 0, Rows, Cols, ColMajor);
      QuotientNext(idx, if ColMajor then Rows else Cols);
    }

    /** SubplotNextCell: one cell on; past the last cell only the number moves. */
    method NextCell()
      requires Shaped() && CurrentIdx >= 0
      modifies this
      ensures CurrentIdx == old(CurrentIdx) + 1
      ensures At == if CurrentIdx < Rows * Cols then CellAt(CurrentIdx) else old(At)
      ensures if CurrentIdx < Rows * Cols then InGrid(At) && Placed(At) else CursorX == old(CursorX) && CursorY == old(CursorY)
    {
      CurrentIdx := CurrentIdx + 1;
      SetCellIndex(CurrentIdx);
    }

    /** Starting at the first cell, as BeginSubplots does, and going on cell by cell: `visited` collects
        the cells the code moves to, and `places` where it puts the cursor. */
    method VisitAll() returns (places: seq<Place>, ghost visited: seq<Cell>)
      requires Shaped()
      modifies this
      ensures |places| == |visited| == Rows * Cols
      ensures forall k :: 0 <= k < Rows * Cols ==>
                visited[k] == CellAt(k) && InGrid(CellAt(k)) && places[k] == PlaceOf(CellAt(k))
    {
      hide Round, Sum;
      CellOfIndex(0, 0, Rows, Cols, ColMajor);
      SetCell(0, 0);
      places, visited := [Place(CursorX, CursorY, CellW, CellH)], [At];
      while |places| < Rows * Cols
        invariant 1 <= |places| == |visited| <= Rows * Cols && CurrentIdx == |places| - 1
        invariant forall k :: 0 <= k < |places| ==>
                    visited[k] == CellAt(k) && InGrid(CellAt(k)) && places[k] == PlaceOf(CellAt(k))
        decreases Rows * Cols - |places|
      {
        NextCell();
        places, visited := places + [Place(CursorX, CursorY, CellW, CellH)], visited + [At];
      }
    }

    /** ... visits every cell exactly once, in either order. */
    lemma EachVisitedOnce(visited: seq<Cell>, row: int, col: int)
      requires Shaped() && 0 <= row < Rows && 0 <= col < Cols
      requires |visited| == Rows * Cols && forall k :: 0 <= k < Rows * Cols ==> visited[k] == CellAt(k)
      ensures Cell(row, col) in visited
      ensures forall j, k :: 0 <= j < k < |visited| ==> visited[j] != visited[k]
    {
      hide RowOf, ColOf, IndexOf;
      CellOfIndex(row, col, Rows, Cols, ColMajor);
      assert visited[IndexOf(row, col, Rows, Cols, ColMajor)] == Cell(row, col);
      forall j, k | 0 <= j < k < |visited| ensures visited[j] != visited[k] {
        IndexOfCell(j, Rows, Cols, ColMajor);
        IndexOfCell(k, Rows, Cols, ColMajor);
      }
    }

    /** Cursor and size are the exact place and size of the cell, rounded to whole pixels. */
    lemma PlacedNear(cell: Cell, x: real, y: real, w: real, h: real)
      requires Shaped() && InGrid(cell)
      requires x == MinX + Sum(ColRatios[..cell.col]) * Width && y == MinY + Sum(RowRatios[..cell.row]) * Height
      requires w == Width * ColRatios[cell.col] && h == Height * RowRatios[cell.row]
      ensures var place := PlaceOf(cell);
              IsRounded(place.x, x) && IsRounded(place.y, y) && IsRounded(place.w, w) && IsRounded(place.h, h)
    {
      hide Round, Sum, IsRounded, EdgeAfter, ExtentOf;
      RoundedEdge(Sum(ColRatios[..cell.col]), MinX, Width, x);
      RoundedEdge(Sum(RowRatios[..cell.row]), MinY, Height, y);
      RoundedExtent(ColRatios[cell.col], Width, w);
      RoundedExtent(RowRatios[cell.row], Height, h);
    }

    /** The first cell starts where the grid starts, and the last one leads to where it ends. */
    lemma GridEnds()
      requires Shaped() && Sum(ColRatios) == 1.0 && Sum(RowRatios) == 1.0
      ensures CursorXOf(0) == Round(MinX) && CursorXOf(Cols) == Round(MinX + Width)
      ensures CursorYOf(0) == Round(MinY) && CursorYOf(Rows) == Round(MinY + Height)
    {
      assert ColRatios[..Cols] == ColRatios && RowRatios[..Rows] == RowRatios;
      assert Sum(ColRatios[..0]) == 0.0 && Sum(RowRatios[..0]) == 0.0;
    }

    /** With shares that are not negative each cell ends within two pixels of where the next one starts, across
        and down, and within one pixel along an axis on which the grid does not start before the origin. */
    lemma CellsAdjoin(row: int, col: int)
      requires Shaped() && 0 <= row < Rows && 0 <= col < Cols && Width >= 0.0 && Height >= 0.0
      requires (forall c :: 0 <= c < Cols ==> ColRatios[c] >= 0.0) && forall r :: 0 <= r < Rows ==> RowRatios[r] >= 0.0
      ensures var gap := CursorXOf(col) + ExtentOf(ColRatios[col], Width) - CursorXOf(col + 1);
              -2 <= gap <= 2 && (MinX >= 0.0 ==> -1 <= gap <= 1)
      ensures var gap := CursorYOf(row) + ExtentOf(RowRatios[row], Height) - CursorYOf(row + 1);
              -2 <= gap <= 2 && (MinY >= 0.0 ==> -1 <= gap <= 1)
    {
      EdgesAdjoin(ColRatios, col, MinX, Width);
      EdgesAdjoin(RowRatios, row, MinY, Height);
    }
  }

  lemma EdgesAdjoin(ratios: seq<real>, n: int, start: real, length: real)
    requires 0 <= n < |ratios| && length >= 0.0 && forall i :: 0 <= i < |ratios| ==> ratios[i] >= 0.0
    ensures var gap := EdgeOf(ratios, n, start, length) + ExtentOf(ratios[n], length) - EdgeOf(ratios, n + 1, start, length);
            -2 <= gap <= 2 && (start >= 0.0 ==> -1 <= gap <= 1)
  {
    hide Round, Sum, EdgeAfter, ExtentOf;
    var off := Sum(ratios[..n]);
    SumNonNegative(ratios[..n]);
    assert ratios[..n + 1][..n] == ratios[..n];
    SumNext(ratios[..n + 1]);
    RoundedEdges(start, off, ratios[n], length);
  }

  lemma RoundedEdges(start: real, off: real, ratio: real, length: real)
    requires off >= 0.0 && ratio >= 0.0 && length >= 0.0
    ensures var gap := EdgeAfter(off, start, length) + ExtentOf(ratio, length) - EdgeAfter(off + ratio, start, length);
            -2 <= gap <= 2 && (start >= 0.0 ==> -1 <= gap <= 1)
  {
    hide Round;
    Products(off, ratio, length);
    RoundSum(start + off * length, length * ratio);
  }

  lemma SumNext(s: seq<real>)
    requires |s| > 0
    ensures Sum(s) == Sum(s[..|s| - 1]) + s[|s| - 1]
  {
  }

  lemma Products(x: real, y: real, w: real)
    requires x >= 0.0 && y >= 0.0 && w >= 0.0
    ensures (x + y) * w == x * w + w * y && x * w >= 0.0 && w * y >= 0.0
  {
  }

  lemma {:induction false} SumNonNegative(s: seq<real>)
    requires forall i :: 0 <= i < |s| ==> s[i] >= 0.0
    ensures Sum(s) >= 0.0
  {
    if |s| > 0 {
      SumNonNegative(s[..|s| - 1]);
    }
  }

  lemma RoundSum(x: real, y: real)
    requires y >= 0.0
    ensures var gap := Round(x) + Round(y) - Round(x + y);
            -2 <= gap <= 2 && (x >= 0.0 ==> -1 <= gap <= 1)
  {
  }

  /** Left of the origin, where IM_ROUND rounds up, two halves of a grid can be two pixels apart. */
  lemma CellsAdjoinFails(ratios: seq<real>)
    requires ratios == [0.5, 0.5]
    ensures EdgeOf(ratios, 0, -1.4, 3.0) + ExtentOf(ratios[0], 3.0) - EdgeOf(ratios, 1, -1.4, 3.0) == 2
  {
    assert ratios[..1] == [0.5] && ratios[..0] == [];
    assert Sum([0.5]) == Sum([]) + 0.5 by {
      assert [0.5][..0] == [];
    }
  }
}
