/**
 * The playing field: its dimensions in pixels and in cells, the four
 * directions of travel, and the wrap-around step that moves a head by one
 * cell on the torus. Positions are pixel pairs whose components are
 * multiples of the cell size, exactly as the game stores them.
 */
module Board {

  const ScreenWidth: int := 640
  const ScreenHeight: int := 480
  const GridSize: int := 20
  const GridWidth: int := ScreenWidth / GridSize
  const GridHeight: int := ScreenHeight / GridSize

  /** The number of cells on the board. */
  const BoardCells: int := GridWidth * GridHeight

  /** The derived dimensions, worked out. */
  lemma Dimensions()
    ensures GridWidth == 32 && GridHeight == 24 && BoardCells == 768
  {
  }

  /** A pixel position (x to the right, y downwards). */
  datatype Position = Position(x: int, y: int)

  /** The cell in the middle of the board, where the snake starts. */
  const CenterPosition: Position := Position(GridWidth / 2 * GridSize, GridHeight / 2 * GridSize)

  /** The four unit vectors of travel; Up has a negative y because y grows downwards. */
  datatype Direction = Up | Down | Left | Right {

    function Dx(): int {
      match this
      case Left => -1
      case Right => 1
      case _ => 0
    }

    function Dy(): int {
      match this
      case Up => -1
      case Down => 1
      case _ => 0
    }

    /** The exact reverse of this direction. */
    function Opposite(): (d: Direction)
      ensures d.Dx() == -Dx() && d.Dy() == -Dy()
      ensures d != this
    {
      match this
      case Up => Down
      case Down => Up
      case Left => Right
      case Right => Left
    }
  }

  predicate OnScreen(p: Position) {
    0 <= p.x < ScreenWidth && 0 <= p.y < ScreenHeight
  }

  predicate Aligned(p: Position) {
    p.x % GridSize == 0 && p.y % GridSize == 0
  }

  /** A position the game can ever hold: on the screen and on the cell lattice. */
  predicate IsGridCell(p: Position) {
    OnScreen(p) && Aligned(p)
  }

  predicate InGrid(col: int, row: int) {
    0 <= col < GridWidth && 0 <= row < GridHeight
  }

  /** The top-left pixel of the cell in column col and row row. */
  function CellAt(col: int, row: int): Position {
    Position(col * GridSize, row * GridSize)
  }

  /** The grid cells are exactly the images of the column/row pairs. */
  lemma GridCellIffCellAt(p: Position)
    ensures IsGridCell(p) <==> InGrid(p.x / GridSize, p.y / GridSize) && CellAt(p.x / GridSize, p.y / GridSize) == p
  {
  }

  lemma CellAtIsGridCell(col: int, row: int)
    requires InGrid(col, row)
    ensures IsGridCell(CellAt(col, row))
  {
  }

  /** The value v + delta brought back into [0, size) by one wrap at most. */
  function Wrapped(v: int, size: int): int {
    if v < 0 then v + size else if v >= size then v - size else v
  }

  /** One step of at most one cell from an on-screen coordinate wraps at most once. */
  lemma StepWraps(v: int, delta: int, size: int)
    requires size == ScreenWidth || size == ScreenHeight
    requires 0 <= v < size && -GridSize <= delta <= GridSize
    ensures (v + delta) % size == Wrapped(v + delta, size)
  {
    if size == ScreenWidth {
      if v + delta < 0 {
        assert (v + delta) % 640 == v + delta + 640;
      } else if v + delta >= 640 {
        assert (v + delta) % 640 == v + delta - 640;
      }
    } else {
      if v + delta < 0 {
        assert (v + delta) % 480 == v + delta + 480;
      } else if v + delta >= 480 {
        assert (v + delta) % 480 == v + delta - 480;
      }
    }
  }

  /**
   * The head after one step in direction d: one cell further, wrapping
   * around each edge of the screen to the opposite one.
   */
  function NextHead(head: Position, d: Direction): (r: Position)
    ensures OnScreen(r)
    ensures OnScreen(head) ==> r.x == Wrapped(head.x + d.Dx() * GridSize, ScreenWidth)
    ensures OnScreen(head) ==> r.y == Wrapped(head.y + d.Dy() * GridSize, ScreenHeight)
    ensures IsGridCell(head) ==> IsGridCell(r)
  {
    // Both branches compute the same position; the split only gives the
    // on-screen case room for the StepWraps facts its postconditions need.
    if OnScreen(head) then
      StepWraps(head.x, d.Dx() * GridSize, ScreenWidth);
      StepWraps(head.y, d.Dy() * GridSize, ScreenHeight);
      Position((head.x + d.Dx() * GridSize) % ScreenWidth, (head.y + d.Dy() * GridSize) % ScreenHeight)
    else
      Position((head.x + d.Dx() * GridSize) % ScreenWidth, (head.y + d.Dy() * GridSize) % ScreenHeight)
  }

  /** Leaving through an edge re-enters at the opposite edge, on the same row or column. */
  lemma WrapsAtEdges(x: int, y: int)
    requires 0 <= x < ScreenWidth && 0 <= y < ScreenHeight
    ensures NextHead(Position(ScreenWidth - GridSize, y), Right) == Position(0, y)
    ensures NextHead(Position(0, y), Left) == Position(ScreenWidth - GridSize, y)
    ensures NextHead(Position(x, ScreenHeight - GridSize), Down) == Position(x, 0)
    ensures NextHead(Position(x, 0), Up) == Position(x, ScreenHeight - GridSize)
  {
  }

  /** A step followed by a step the opposite way returns to the start cell. */
  lemma NextHeadInverse(p: Position, d: Direction)
    requires IsGridCell(p)
    ensures NextHead(NextHead(p, d), d.Opposite()) == p
  {
  }

  /**
   * Two steps return to the start cell only when the second is the exact
   * reverse of the first: the board is wider and taller than two cells.
   */
  lemma NoImmediateReversal(p: Position, d: Direction, e: Direction)
    requires IsGridCell(p)
    requires e != d.Opposite()
    ensures NextHead(NextHead(p, d), e) != p
  {
  }

  /** The cells of row row in columns 0 .. n-1. */
  function RowCells(row: int, n: nat): set<Position> {
    if n == 0 then {} else RowCells(row, n - 1) + {CellAt(n - 1, row)}
  }

  /** The cells of rows 0 .. n-1. */
  function GridCells(n: nat): set<Position> {
    if n == 0 then {} else GridCells(n - 1) + RowCells(n - 1, GridWidth)
  }

  lemma {:induction false} RowCellsCount(row: int, n: nat)
    ensures |RowCells(row, n)| == n
    ensures forall p :: p in RowCells(row, n) ==> p.y == row * GridSize && p.x < n * GridSize
  {
    if n > 0 {
      RowCellsCount(row, n - 1);
      assert CellAt(n - 1, row) !in RowCells(row, n - 1);
    }
  }

  lemma {:induction false} RowCellsAreCells(row: int, n: nat, p: Position)
    requires p in RowCells(row, n)
    ensures exists col :: 0 <= col < n && p == CellAt(col, row)
  {
    if p != CellAt(n - 1, row) {
      RowCellsAreCells(row, n - 1, p);
    }
  }

  lemma {:induction false} GridCellsAbove(n: nat)
    ensures forall p :: p in GridCells(n) ==> p.y < n * GridSize
  {
    if n > 0 {
      GridCellsAbove(n - 1);
      RowCellsCount(n - 1, GridWidth);
    }
  }

  lemma RowCellsSize(row: int)
    ensures |RowCells(row, GridWidth)| == GridWidth
  {
    RowCellsCount(row, GridWidth);
  }

  lemma RowBelowGridCells(n: nat)
    ensures GridCells(n) * RowCells(n, GridWidth) == {}
  {
    GridCellsAbove(n);
    RowCellsCount(n, GridWidth);
    forall p | p in RowCells(n, GridWidth) ensures p !in GridCells(n) {
      assert p.y == n * GridSize;
    }
  }

  lemma DisjointUnionSize(a: set<Position>, b: set<Position>)
    requires a * b == {}
    ensures |a + b| == |a| + |b|
  {
  }

  lemma {:induction false} GridCellsCount(n: nat)
    ensures |GridCells(n)| == n * GridWidth
  {
    Dimensions();
    if n > 0 {
      GridCellsCount(n - 1);
      RowCellsSize(n - 1);
      RowBelowGridCells(n - 1);
      DisjointUnionSize(GridCells(n - 1), RowCells(n - 1, GridWidth));
    }
  }

  lemma {:induction false} GridCellsAreCells(n: nat, p: Position)
    requires n <= GridHeight
    requires p in GridCells(n)
    ensures exists col, row :: InGrid(col, row) && p == CellAt(col, row)
  {
    if p in RowCells(n - 1, GridWidth) {
      RowCellsAreCells(n - 1, GridWidth, p);
      var col :| 0 <= col < GridWidth && p == CellAt(col, n - 1);
      assert InGrid(col, n - 1);
    } else {
      GridCellsAreCells(n - 1, p);
    }
  }

  lemma {:induction false} DistinctAtMostLength(s: seq<Position>)
    ensures |set p | p in s| <= |s|
  {
    if s != [] {
      var init := s[..|s| - 1];
      DistinctAtMostLength(init);
      assert (set p | p in s) == (set p | p in init) + {s[|s| - 1]};
    }
  }

  /** Some cell of the board is not in occupied. */
  ghost predicate HasFreeCell(occupied: seq<Position>) {
    exists col, row :: InGrid(col, row) && CellAt(col, row) !in occupied
  }

  /** Pigeonhole: fewer occupied entries than cells leaves a cell free. */
  lemma FreeCellExists(occupied: seq<Position>)
    requires |occupied| < BoardCells
    ensures HasFreeCell(occupied)
  {
    GridCellsCount(GridHeight);
    DistinctAtMostLength(occupied);
    var taken := set p | p in occupied;
    var free := GridCells(GridHeight) - taken;
    assert |free| > 0;
    var p :| p in free;
    GridCellsAreCells(GridHeight, p);
    var col, row :| InGrid(col, row) && p == CellAt(col, row);
  }
}
