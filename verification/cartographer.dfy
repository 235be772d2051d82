/** The occupancy map of `src/Cartographer.py`: a grid of cell states over
    integer world bounds, with bounds and obstacle tests, the world/cell
    conversions, and the one-step expansion `getNextBorder` that the
    wavefront planner is built on. */
module Cartography {
  import opened PyErrors

  /** A grid cell as the source's tuples hold it: `(row, col)`. */
  type Cell = (int, int)

  /** A world position, the source's `{'X': x, 'Y': y}` dictionary. */
  datatype Coord = Coord(x: real, y: real)

  /** The world bounds the map is built over. */
  datatype Bounds = Bounds(xMin: int, xMax: int, yMin: int, yMax: int)

  /** A cartographer: its bounds and its map, one row of cell states per grid
      row. The source stores the map as a numpy float array; only equality
      with the three state constants is ever asked of a cell. */
  datatype Cartographer = Cartographer(bounds: Bounds, grid: seq<seq<int>>)

  const CELL_SIZE: int := 1
  const EMPTY: int := 0
  const OCCUPIED: int := 1
  const UNKNOWN: int := -1

  // ---------------------------------------------------------------------
  // Grid dimensions and construction
  // ---------------------------------------------------------------------

  /** The number of grid rows. Python's `//` floors; Dafny's `/` agrees
      with it for the positive divisor CELL_SIZE. */
  function Height(b: Bounds): (h: int)
    ensures h == b.yMax - b.yMin
  {
    (b.yMax - b.yMin) / CELL_SIZE
  }

  /** The number of grid columns. */
  function Width(b: Bounds): (w: int)
    ensures w == b.xMax - b.xMin
  {
    (b.xMax - b.xMin) / CELL_SIZE
  }

  /** The shape every constructed cartographer keeps: `Height` rows of
      `Width` cells. */
  predicate Valid(c: Cartographer)
  {
    && Height(c.bounds) >= 0
    && Width(c.bounds) >= 0
    && |c.grid| == Height(c.bounds)
    && forall row :: 0 <= row < |c.grid| ==> |c.grid[row]| == Width(c.bounds)
  }

  /** The constructor: a `Height` x `Width` map of UNKNOWN cells. numpy
      refuses a negative dimension with a ValueError. */
  function Build(xMin: int, xMax: int, yMin: int, yMax: int): (r: Result<Cartographer>)
    ensures r.Ok? <==> xMin <= xMax && yMin <= yMax
    ensures r.Err? ==> r.error == ValueError
    ensures r.Ok? ==> r.value.bounds == Bounds(xMin, xMax, yMin, yMax) && Valid(r.value)
    ensures r.Ok? ==> |r.value.grid| == yMax - yMin
    ensures r.Ok? ==> forall row, col :: 0 <= row < |r.value.grid| && 0 <= col < |r.value.grid[row]| ==>
                        r.value.grid[row][col] == UNKNOWN
  {
    var b := Bounds(xMin, xMax, yMin, yMax);
    var h := Height(b);
    var w := Width(b);
    if h < 0 || w < 0 then Err(ValueError)
    else Ok(Cartographer(b, seq(h, _ => seq(w, _ => UNKNOWN))))
  }

  // ---------------------------------------------------------------------
  // Bounds, states and obstacles
  // ---------------------------------------------------------------------

  /** The bounds test. On a valid map it agrees exactly with the shape of
      the stored grid. */
  function IsOutOfBound(c: Cartographer, row: int, col: int): (out: bool)
    ensures Valid(c) ==> (out <==> !(0 <= row < |c.grid| && 0 <= col < |c.grid[row]|))
  {
    !(0 <= row < Height(c.bounds) && 0 <= col < Width(c.bounds))
  }

  /** Python/numpy indexing of a sequence of length `n`: a negative index
      counts from the end; anything else out of range raises IndexError. */
  function PyIndex(i: int, n: nat): (r: Result<nat>)
    ensures r.Ok? <==> -(n as int) <= i < n
    ensures r.Ok? ==> r.value < n && (r.value == i || r.value == i + n)
    ensures r.Err? ==> r.error == IndexError
  {
    if 0 <= i < n then Ok(i)
    else if -(n as int) <= i < 0 then Ok(i + n)
    else Err(IndexError)
  }

  /** `map[row][col]`. It is defined for every in-bounds cell, and also for
      negative indices down to minus the dimension, which numpy wraps to
      the far edge; anything further raises IndexError. */
  function GetState(c: Cartographer, row: int, col: int): (s: Result<int>)
    ensures Valid(c) ==> (s.Ok? <==> -|c.grid| <= row < |c.grid| && -Width(c.bounds) <= col < Width(c.bounds))
    ensures Valid(c) && !IsOutOfBound(c, row, col) ==> s == Ok(c.grid[row][col])
    ensures s.Err? ==> s.error == IndexError
  {
    match PyIndex(row, |c.grid|)
    case Err(e) => Err(e)
    case Ok(r) =>
      match PyIndex(col, |c.grid[r]|)
      case Err(e) => Err(e)
      case Ok(k) => Ok(c.grid[r][k])
  }

  /** The obstacle test: only an OCCUPIED cell blocks; EMPTY and UNKNOWN
      cells are passable. */
  function IsObstacle(c: Cartographer, row: int, col: int): (o: Result<bool>)
    ensures o.Ok? <==> GetState(c, row, col).Ok?
    ensures Valid(c) && !IsOutOfBound(c, row, col) ==>
              o.Ok? && (o.value <==> c.grid[row][col] == OCCUPIED)
    ensures Valid(c) && !IsOutOfBound(c, row, col) && c.grid[row][col] in {EMPTY, UNKNOWN} ==>
              o == Ok(false)
  {
    match GetState(c, row, col)
    case Ok(s) => Ok(s == OCCUPIED)
    case Err(e) => Err(e)
  }

  /** A cell a wave may enter: inside the grid and not OCCUPIED. The middle
      conjunct follows from the bounds test on a valid map; it keeps the
      predicate total. */
  predicate Passable(c: Cartographer, cell: Cell)
  {
    && !IsOutOfBound(c, cell.0, cell.1)
    && 0 <= cell.0 < |c.grid| && 0 <= cell.1 < |c.grid[cell.0]|
    && c.grid[cell.0][cell.1] != OCCUPIED
  }

  /** On a valid map, passable means exactly what the source tests: in
      bounds, and `isObstacle` answers False. */
  lemma PassableMeansNoObstacle(c: Cartographer, cell: Cell)
    requires Valid(c)
    ensures Passable(c, cell) <==> !IsOutOfBound(c, cell.0, cell.1) && IsObstacle(c, cell.0, cell.1) == Ok(false)
  {
  }

  /** Every cell of a freshly built map is passable. */
  lemma FreshMapPassable(xMin: int, xMax: int, yMin: int, yMax: int, cell: Cell)
    requires Build(xMin, xMax, yMin, yMax).Ok?
    requires !IsOutOfBound(Build(xMin, xMax, yMin, yMax).value, cell.0, cell.1)
    ensures Passable(Build(xMin, xMax, yMin, yMax).value, cell)
  {
  }

  // ---------------------------------------------------------------------
  // World <-> cell conversions
  // ---------------------------------------------------------------------

  /** A world position inside the bounds. */
  predicate InWorld(c: Cartographer, p: Coord)
  {
    && c.bounds.xMin as real <= p.x < c.bounds.xMax as real
    && c.bounds.yMin as real <= p.y < c.bounds.yMax as real
  }

  /** `getGridPosition`: the cell containing a world position, row from Y
      and column from X. Positions inside the bounds land in the grid. */
  function GetGridPosition(c: Cartographer, p: Coord): (cell: Cell)
    ensures cell.0 as real <= p.y - c.bounds.yMin as real < cell.0 as real + 1.0
    ensures cell.1 as real <= p.x - c.bounds.xMin as real < cell.1 as real + 1.0
    ensures InWorld(c, p) ==> !IsOutOfBound(c, cell.0, cell.1)
  {
    var col := ((p.x - c.bounds.xMin as real) / CELL_SIZE as real).Floor;
    var row := ((p.y - c.bounds.yMin as real) / CELL_SIZE as real).Floor;
    (row, col)
  }

  /** `getRealPosition` as written: it reads `square[0]` as the X (column)
      index and `square[1]` as the Y (row) index, the opposite of the
      `(row, col)` cells `getGridPosition` produces, so the round trip
      swaps the two components. */
  function GetRealPosition(c: Cartographer, square: Cell): (p: Coord)
    ensures GetGridPosition(c, p) == (square.1, square.0)
  {
    var x := (square.0 * CELL_SIZE + c.bounds.xMin) as real + CELL_SIZE as real / 2.0;
    var y := (square.1 * CELL_SIZE + c.bounds.yMin) as real + CELL_SIZE as real / 2.0;
    Coord(x, y)
  }

  /** The centre of a `(row, col)` cell: the conversion `getRealPosition`
      evidently means, X from the column and Y from the row. It inverts
      `getGridPosition` on every cell. */
  function CellCenter(c: Cartographer, cell: Cell): (p: Coord)
    ensures GetGridPosition(c, p) == cell
    ensures !IsOutOfBound(c, cell.0, cell.1) ==> InWorld(c, p)
  {
    var x := (cell.1 * CELL_SIZE + c.bounds.xMin) as real + CELL_SIZE as real / 2.0;
    var y := (cell.0 * CELL_SIZE + c.bounds.yMin) as real + CELL_SIZE as real / 2.0;
    Coord(x, y)
  }

  /** The other direction of the round trip: the centre of the cell that
      contains a position is within half a cell of it on each axis. */
  lemma CellCenterNearest(c: Cartographer, p: Coord)
    ensures var q := CellCenter(c, GetGridPosition(c, p));
            -0.5 <= p.x - q.x < 0.5 && -0.5 <= p.y - q.y < 0.5
  {
  }

  // ---------------------------------------------------------------------
  // Neighbourhoods
  // ---------------------------------------------------------------------

  function Abs(x: int): nat
  {
    if x < 0 then -x else x
  }

  /** Von Neumann (4-connected) adjacency. */
  predicate Adjacent4(a: Cell, b: Cell)
  {
    Abs(a.0 - b.0) + Abs(a.1 - b.1) == 1
  }

  /** Moore (8-connected) adjacency: a different cell at most one step
      away on each axis. */
  predicate Adjacent8(a: Cell, b: Cell)
  {
    a != b && Abs(a.0 - b.0) <= 1 && Abs(a.1 - b.1) <= 1
  }

  /** The four offsets `getNextBorder` tries, in its order. */
  const OFFSETS: seq<Cell> := [(-1, 0), (1, 0), (0, -1), (0, 1)]

  function Shift(cell: Cell, d: Cell): Cell
  {
    (cell.0 + d.0, cell.1 + d.1)
  }

  /** A sequence without repeated elements. */
  predicate NoDup(s: seq<Cell>)
  {
    forall i, j :: 0 <= i < j < |s| ==> s[i] != s[j]
  }

  /** The 4-neighbours of a cell are exactly its shifts by OFFSETS. */
  lemma OffsetsAreAdjacent4(cell: Cell, n: Cell)
    ensures Adjacent4(cell, n) <==> exists d :: d in OFFSETS && n == Shift(cell, d)
  {
    if Adjacent4(cell, n) {
      var d := (n.0 - cell.0, n.1 - cell.1);
      assert d in OFFSETS && n == Shift(cell, d);
    }
  }

  // ---------------------------------------------------------------------
  // getNextBorder
  // ---------------------------------------------------------------------

  /** The cells `getNextBorder(border, inside)` should produce: in the grid,
      not an obstacle, not already `inside`, and a 4-neighbour of some cell
      of `border`. */
  ghost predicate InNextBorder(c: Cartographer, border: seq<Cell>, inside: seq<Cell>, n: Cell)
  {
    Passable(c, n) && n !in inside && exists b :: b in border && Adjacent4(b, n)
  }

  /** The source's test on a candidate, in its short-circuit order: the map
      is read only once the bounds test has passed, so the read never
      raises. */
  predicate Admits(c: Cartographer, n: Cell, inside: seq<Cell>)
    requires Valid(c)
  {
    !IsOutOfBound(c, n.0, n.1) && n !in inside && !IsObstacle(c, n.0, n.1).value
  }

  /** The inner loop of `getNextBorder` for one border cell, over the
      offsets still to try. */
  function ExpandCell(c: Cartographer, cell: Cell, inside: seq<Cell>, offsets: seq<Cell>): (r: seq<Cell>)
    requires Valid(c)
    ensures |r| <= |offsets|
    ensures forall n :: n in r ==>
              Passable(c, n) && n !in inside && exists d :: d in offsets && n == Shift(cell, d)
  {
    if offsets == [] then []
    else
      var n := Shift(cell, offsets[0]);
      (if Admits(c, n, inside) then [n] else []) + ExpandCell(c, cell, inside, offsets[1..])
  }

  /** `getNextBorder`: for each border cell in order, its admitted
      4-neighbours in OFFSETS order, with no deduplication. At most four
      cells per border cell, and each one is sound. */
  function NextBorder(c: Cartographer, border: seq<Cell>, inside: seq<Cell>): (r: seq<Cell>)
    requires Valid(c)
    ensures |r| <= 4 * |border|
    ensures forall n :: n in r ==> InNextBorder(c, border, inside, n)
  {
    if border == [] then []
    else
      var head := ExpandCell(c, border[0], inside, OFFSETS);
      assert forall n :: n in head ==> Adjacent4(border[0], n);
      head + NextBorder(c, border[1..], inside)
  }

  lemma {:induction false} ExpandCellComplete(c: Cartographer, cell: Cell, inside: seq<Cell>, offsets: seq<Cell>, d: Cell)
    requires Valid(c)
    requires d in offsets && Passable(c, Shift(cell, d)) && Shift(cell, d) !in inside
    ensures Shift(cell, d) in ExpandCell(c, cell, inside, offsets)
    decreases |offsets|
  {
    if offsets[0] != d {
      ExpandCellComplete(c, cell, inside, offsets[1..], d);
    }
  }

  /** Soundness and completeness together: a cell is in `getNextBorder`'s
      result exactly when it is an admissible 4-neighbour of the border. */
  lemma {:induction false} NextBorderExact(c: Cartographer, border: seq<Cell>, inside: seq<Cell>, n: Cell)
    requires Valid(c)
    ensures n in NextBorder(c, border, inside) <==> InNextBorder(c, border, inside, n)
    decreases |border|
  {
    if border != [] && InNextBorder(c, border, inside, n) {
      var b :| b in border && Adjacent4(b, n);
      if b == border[0] {
        OffsetsAreAdjacent4(b, n);
        var d :| d in OFFSETS && n == Shift(b, d);
        ExpandCellComplete(c, b, inside, OFFSETS, d);
      } else {
        assert b in border[1..];
        NextBorderExact(c, border[1..], inside, n);
      }
    }
  }

  /** Each border cell contributes its own neighbours independently: the
      result for a concatenated border is the concatenation of the results,
      so a cell adjacent to two border cells is listed twice. */
  lemma {:induction false} NextBorderConcat(c: Cartographer, b1: seq<Cell>, b2: seq<Cell>, inside: seq<Cell>)
    requires Valid(c)
    ensures NextBorder(c, b1 + b2, inside) == NextBorder(c, b1, inside) + NextBorder(c, b2, inside)
    decreases |b1|
  {
    if b1 != [] {
      assert (b1 + b2)[1..] == b1[1..] + b2;
      NextBorderConcat(c, b1[1..], b2, inside);
    } else {
      assert b1 + b2 == b2;
    }
  }

  lemma {:induction false} ExpandCellNoDup(c: Cartographer, cell: Cell, inside: seq<Cell>, offsets: seq<Cell>)
    requires Valid(c) && NoDup(offsets)
    ensures NoDup(ExpandCell(c, cell, inside, offsets))
    decreases |offsets|
  {
    if offsets != [] {
      assert NoDup(offsets[1..]) by {
        forall i, j | 0 <= i < j < |offsets[1..]| ensures offsets[1..][i] != offsets[1..][j] {
          assert offsets[1..][i] == offsets[i + 1] && offsets[1..][j] == offsets[j + 1];
        }
      }
      ExpandCellNoDup(c, cell, inside, offsets[1..]);
      var n := Shift(cell, offsets[0]);
      var rest := ExpandCell(c, cell, inside, offsets[1..]);
      forall x | x in rest ensures x != n {
        var d :| d in offsets[1..] && x == Shift(cell, d);
        var j :| 0 <= j < |offsets[1..]| && offsets[1..][j] == d;
        assert offsets[j + 1] == d;
      }
    }
  }

  /** The expansion of a single cell lists no cell twice. */
  lemma NextBorderSingletonNoDup(c: Cartographer, cell: Cell, inside: seq<Cell>)
    requires Valid(c)
    ensures NoDup(NextBorder(c, [cell], inside))
  {
    ExpandCellNoDup(c, cell, inside, OFFSETS);
    assert NextBorder(c, [cell], inside) == ExpandCell(c, cell, inside, OFFSETS) + NextBorder(c, [], inside);
  }
}
