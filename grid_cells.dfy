/**
 * Cells of the occupancy grid, the planner's table of four unit moves, the
 * storage index used when the map is loaded, and a bound on sets of cells.
 */
module GridCells {
  import Angles

  /** A signed byte: the occupancy values of the map message and the grid (-1 unknown, 0 free, up to 100 occupied). */
  newtype int8 = x: int | -128 <= x < 128

  /** A grid cell: x is the first (row) index, y the second (column) index. */
  datatype Cell = Cell(x: int, y: int)

  predicate InBounds(c: Cell, rows: int, cols: int)
  {
    0 <= c.x < rows && 0 <= c.y < cols
  }

  function IntAbs(n: int): nat
  {
    if n < 0 then -n else n
  }

  /** Manhattan distance: the heuristic the planner stores for every cell. */
  function Manhattan(a: Cell, b: Cell): nat
  {
    IntAbs(a.x - b.x) + IntAbs(a.y - b.y)
  }

  /** Two cells are adjacent when they differ by one unit step along one axis. */
  predicate Adjacent(a: Cell, b: Cell)
  {
    Manhattan(a, b) == 1
  }

  /** First column of the move table: 0 = (-1, 0), 1 = (0, -1), 2 = (1, 0), 3 = (0, 1). */
  function DeltaX(i: int): int
    requires 0 <= i < 4
  {
    if i == 0 then -1 else if i == 2 then 1 else 0
  }

  /** Second column of the move table. */
  function DeltaY(i: int): int
    requires 0 <= i < 4
  {
    if i == 1 then -1 else if i == 3 then 1 else 0
  }

  /** Third column of the move table: the heading the robot faces after the move. */
  function MoveYaw(i: int): real
    requires 0 <= i < 4
  {
    if i == 0 then Angles.PI
    else if i == 1 then -Angles.PI / 2.0
    else if i == 2 then 0.0
    else Angles.PI / 2.0
  }

  /** The cell reached from c by move i. */
  function Neighbour(c: Cell, i: int): (n: Cell)
    requires 0 <= i < 4
    ensures Adjacent(c, n)
  {
    Cell(c.x + DeltaX(i), c.y + DeltaY(i))
  }

  /** The cell from which move i reaches c: the step taken when walking a path backwards. */
  function Back(c: Cell, i: int): (b: Cell)
    requires 0 <= i < 4
    ensures Neighbour(b, i) == c
  {
    Cell(c.x - DeltaX(i), c.y - DeltaY(i))
  }

  /** The four moves reach exactly the adjacent cells: every adjacent cell is reached by one move. */
  function MoveBetween(a: Cell, b: Cell): (i: int)
    requires Adjacent(a, b)
    ensures 0 <= i < 4 && Neighbour(a, i) == b
  {
    if b.x == a.x - 1 then 0
    else if b.y == a.y - 1 then 1
    else if b.x == a.x + 1 then 2
    else 3
  }

  /** Storage index of grid cell (row, col) in the map buffer: row + rows * col. */
  function MapIndex(row: int, col: int, rows: int): int
  {
    row + rows * col
  }

  /** For an in-range cell the storage index lies inside a buffer of rows * cols values. */
  lemma MapIndexInRange(row: int, col: int, rows: int, cols: int)
    requires 0 <= row < rows && 0 <= col < cols
    ensures 0 <= MapIndex(row, col, rows) < rows * cols
  {
    assert rows * col + rows == rows * (col + 1);
    assert rows * (col + 1) <= rows * cols by {
      MulMonotone(rows, col + 1, cols);
    }
  }

  lemma MulMonotone(a: nat, b: int, c: int)
    requires b <= c
    ensures a * b <= a * c
  {
    assert a * c - a * b == a * (c - b);
  }

  /** Two different in-range cells never read the same value of the buffer. */
  lemma MapIndexInjective(r1: int, c1: int, r2: int, c2: int, rows: int)
    requires 0 <= r1 < rows && 0 <= r2 < rows && 0 <= c1 && 0 <= c2
    requires MapIndex(r1, c1, rows) == MapIndex(r2, c2, rows)
    ensures r1 == r2 && c1 == c2
  {
    if c1 < c2 {
      assert rows * (c1 + 1) == rows * c1 + rows;
      MulMonotone(rows, c1 + 1, c2);
      assert false;
    } else if c2 < c1 {
      assert rows * (c2 + 1) == rows * c2 + rows;
      MulMonotone(rows, c2 + 1, c1);
      assert false;
    }
  }

  /** Every value of the buffer lands in some in-range cell: the cell (k % rows, k / rows). */
  lemma MapIndexCovers(k: int, rows: nat, cols: nat)
    requires 0 <= k < rows * cols
    ensures rows > 0
    ensures 0 <= k % rows < rows && 0 <= k / rows < cols
    ensures MapIndex(k % rows, k / rows, rows) == k
  {
    var q := k / rows;
    if q >= cols {
      MulMonotone(rows, cols, q);
      assert false;
    }
  }

  /**
   * The world cell an occupancy-grid message stores at index k. The message
   * data is row-major, so index k holds column k % width of row k / width,
   * which is the world cell (x, y) = (k % width, k / width).
   */
  function MessageCell(k: int, width: int): Cell
    requires width > 0
  {
    Cell(k % width, k / width)
  }

  lemma DivModUnique(k: int, n: int, q: int, r: int)
    requires 0 <= r < n && k == q * n + r
    ensures k / n == q && k % n == r
  {
    var q', r' := k / n, k % n;
    assert (q - q') * n == r' - r;
    if q > q' {
      MulMonotone(n, 1, q - q');
      assert false;
    } else if q < q' {
      MulMonotone(n, 1, q' - q);
      assert false;
    }
  }

  /**
   * On a square map the storage index of grid cell (x, y) holds the
   * message's world cell (x, y): the grid is indexed by world coordinates.
   */
  lemma MapIndexSquare(x: int, y: int, n: int)
    requires 0 <= x < n && 0 <= y < n
    ensures MessageCell(MapIndex(x, y, n), n) == Cell(x, y)
  {
    DivModUnique(x + n * y, n, y, x);
  }

  /**
   * On a map whose height and width differ (width at least 2), grid cell
   * (0, 1) holds a different world cell of the message: the grid is
   * scrambled.
   */
  lemma MapIndexNonSquare(height: int, width: int)
    requires 1 <= height && 2 <= width && height != width
    ensures MessageCell(MapIndex(0, 1, height), width) != Cell(0, 1)
  {
    assert height == (height / width) * width + height % width;
  }

  /** The in-range cells whose first index is x. */
  lemma RowSetBound(s: set<Cell>, x: int, cols: nat)
    requires forall c :: c in s ==> c.x == x && 0 <= c.y < cols
    ensures |s| <= cols
    decreases cols
  {
    if cols > 0 {
      var last := Cell(x, cols - 1);
      RowSetBound(s - {last}, x, cols - 1);
    } else {
      assert s == {} by {
        if c :| c in s { assert false; }
      }
    }
  }

  /** A set of in-range cells has at most rows * cols elements. */
  lemma CellSetBound(s: set<Cell>, rows: nat, cols: nat)
    requires forall c :: c in s ==> InBounds(c, rows, cols)
    ensures |s| <= rows * cols
    decreases rows
  {
    if rows == 0 {
      assert s == {} by {
        if c :| c in s { assert false; }
      }
    } else {
      var top := set c | c in s && c.x == rows - 1;
      var rest := s - top;
      RowSetBound(top, rows - 1, cols);
      CellSetBound(rest, rows - 1, cols);
      assert s == rest + top;
      assert |s| == |rest| + |top|;
      assert rows * cols == (rows - 1) * cols + cols;
    }
  }
}
