/** The board: cell states, the grid of rows, and the display token of a cell. */
module Board {

  /** `State` of main.cpp: exactly four values. */
  datatype State = Empty | Obstacle | Closed | Path

  /** `vector<vector<State>>`: a sequence of rows, which need not have equal length. */
  type Grid = seq<seq<State>>

  /** `grid[x][y]` may be read or written: row `x` exists and has a column `y`. */
  predicate InBounds(grid: Grid, x: int, y: int) {
    0 <= x < |grid| && 0 <= y < |grid[x]|
  }

  /** Two grids have the same number of rows and each row the same length. */
  predicate SameShape(a: Grid, b: Grid) {
    |a| == |b| && forall i :: 0 <= i < |a| ==> |a[i]| == |b[i]|
  }

  /** The grid after the assignment `grid[x][y] = s`. */
  function SetCell(grid: Grid, x: int, y: int, s: State): (r: Grid)
    requires InBounds(grid, x, y)
    ensures SameShape(r, grid)
    ensures r[x][y] == s
    ensures forall i, j :: InBounds(grid, i, j) && (i != x || j != y) ==> r[i][j] == grid[i][j]
  {
    grid[x := grid[x][y := s]]
  }

  /** The four-character token `PrintBoard` writes for one cell: a marker
      followed by three spaces. Only obstacles and path cells are told apart;
      empty and closed cells share the token "0   ". */
  function CellString(cell: State): (r: string)
    ensures |r| == 4 && r[1..] == "   "
    ensures r[0] == '*' <==> cell == Obstacle
    ensures r[0] == '.' <==> cell == Path
    ensures r[0] == '0' <==> cell == Empty || cell == Closed
  {
    match cell
    case Obstacle => "*   "
    case Path => ".   "
    case _ => "0   "
  }

  /** Two cells print alike exactly when they are equal or both are
      empty-or-closed. */
  lemma CellStringDistinguishes(a: State, b: State)
    ensures CellString(a) == CellString(b) <==>
              a == b || ((a == Empty || a == Closed) && (b == Empty || b == Closed))
  {
    var ra, rb := CellString(a), CellString(b);
    if ra == rb {
      assert ra[0] == rb[0];
    }
  }
}
