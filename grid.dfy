/** The grid model: the six cell states, the parser that turns one line of
    integer tokens into a row of cells, and the validity test the search uses
    to decide whether a neighbouring cell may be entered. A grid is a list of
    rows, each a list of cells, held by value as the program holds it. */
module Grid {

  /** The state of one cell of the grid. */
  datatype State = Empty | Obstacle | Closed | Path | Start | Finish

  /** A coordinate (x, y): x indexes the rows, y the columns. */
  type Point = (int, int)

  /** What the renderer prints for a cell; the five tags stand for its five glyphs. */
  datatype Glyph = ObstacleGlyph | StartGlyph | FinishGlyph | PathGlyph | PlainGlyph

  /** Turns the integer tokens of one line into cells: 0 is an open cell,
      every other integer an obstacle. */
  method ParseLine(tokens: seq<int>) returns (row: seq<State>)
    ensures |row| == |tokens|
    ensures forall i :: 0 <= i < |row| ==> (row[i] == Empty <==> tokens[i] == 0)
    ensures forall i :: 0 <= i < |row| ==> (row[i] == Obstacle <==> tokens[i] != 0)
  {
    row := [];
    var k := 0;
    while k < |tokens|
      invariant 0 <= k <= |tokens|
      invariant |row| == k
      invariant forall i :: 0 <= i < k ==> row[i] == (if tokens[i] == 0 then Empty else Obstacle)
    {
      if tokens[k] == 0 {
        row := row + [Empty];
      } else {
        row := row + [Obstacle];
      }
      k := k + 1;
    }
  }

  /** Every row is as long as the first one. */
  predicate IsRectangular(grid: seq<seq<State>>)
  {
    forall i :: 0 <= i < |grid| ==> |grid[i]| == |grid[0]|
  }

  /** Two grids with the same number of rows, row by row of the same length. */
  predicate SameShape(a: seq<seq<State>>, b: seq<seq<State>>)
  {
    |a| == |b| && forall i :: 0 <= i < |a| ==> |a[i]| == |b[i]|
  }

  /** (x, y) names a cell of the grid. */
  predicate InBounds(grid: seq<seq<State>>, x: int, y: int)
  {
    0 <= x < |grid| && 0 <= y < |grid[x]|
  }

  /** The set of cells that are still open. */
  ghost function EmptyCells(grid: seq<seq<State>>): set<Point>
  {
    set i, j | 0 <= i < |grid| && 0 <= j < |grid[i]| && grid[i][j] == Empty :: (i, j)
  }

  /** open holds exactly the cells of grid that are Empty: the set
      EmptyCells computes, stated cell by cell. */
  ghost predicate OpenCellsAre(grid: seq<seq<State>>, open: set<Point>)
  {
    && (forall p :: p in open ==> InBounds(grid, p.0, p.1))
    && (forall i, j :: InBounds(grid, i, j) ==> (grid[i][j] == Empty <==> (i, j) in open))
  }

  /** The cell-by-cell description of the open cells pins down one set, the
      set EmptyCells computes. */
  lemma OpenCellsCharacterised(grid: seq<seq<State>>, open: set<Point>)
    ensures OpenCellsAre(grid, open) <==> open == EmptyCells(grid)
  {
    if OpenCellsAre(grid, open) {
      forall p | p in open ensures p in EmptyCells(grid) {
        assert grid[p.0][p.1] == Empty;
      }
    }
  }

  /** A move onto (x, y) is allowed exactly when that cell lies inside the
      grid and is still open: out of bounds, obstacles and cells already on or
      off the frontier all answer false. The column count is the length of the
      first row, which is why the grid must have one and be rectangular. */
  predicate IsValidCell(x: int, y: int, grid: seq<seq<State>>)
    requires |grid| > 0 && IsRectangular(grid)
    ensures IsValidCell(x, y, grid) <==> (x, y) in EmptyCells(grid)
  {
    var n1 := |grid|;
    var n2 := |grid[0]|;
    x >= 0 && x < n1 && y >= 0 && y < n2 && grid[x][y] == Empty
  }

  /** The tag printed for a cell. Open and closed cells print the same plain
      tag, so the frontier is invisible in the output. */
  function CellString(s: State): (g: Glyph)
    ensures g == PlainGlyph <==> s == Empty || s == Closed
    ensures s == Path <==> g == PathGlyph
    ensures s == Start <==> g == StartGlyph
    ensures s == Obstacle <==> g == ObstacleGlyph
    ensures s == Finish <==> g == FinishGlyph
  {
    match s
    case Obstacle => ObstacleGlyph
    case Start => StartGlyph
    case Finish => FinishGlyph
    case Path => PathGlyph
    case _ => PlainGlyph
  }
}
