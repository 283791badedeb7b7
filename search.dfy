/** The search of main.cpp: the open list and the grid it marks, and the
    `Search` loop over them. */
module AStar {
  import opened Board
  import opened Heuristics
  import opened OpenList

  /** `int init[2]` and `int goal[2]`: a row index and a column index. */
  datatype Point = Point(x: int, y: int)

  /** The node stands on `p`: the test `x == goal[0] && y == goal[1]`. */
  predicate At(n: Node, p: Point) {
    n.x == p.x && n.y == p.y
  }

  /** The two vectors `Search` works on: its open list and its copy of the
      grid, which `AddToOpen` and `CellSort` change through references. */
  class SearchState {
    var open: seq<Node>
    var grid: Grid

    /** `vector<vector<int>> open {}` beside the grid `Search` received. */
    constructor (grid0: Grid)
      ensures open == [] && grid == grid0
    {
      open := [];
      grid := grid0;
    }

    /** `AddToOpen`: appends `{x, y, g, h}` to the open list and marks
        `grid[x][y]` closed; nothing else changes. */
    method AddToOpen(x: int, y: int, g: int, h: int)
      requires InBounds(grid, x, y)
      modifies this
      ensures open == old(open) + [Node(x, y, g, h)]
      ensures |open| == |old(open)| + 1 && open[|open| - 1] == Node(x, y, g, h)
      ensures forall k :: 0 <= k < |old(open)| ==> open[k] == old(open)[k]
      ensures grid == SetCell(old(grid), x, y, Closed)
      ensures SameShape(grid, old(grid)) && grid[x][y] == Closed
      ensures forall i, j :: InBounds(old(grid), i, j) && (i != x || j != y) ==>
                grid[i][j] == old(grid)[i][j]
    {
      open := open + [Node(x, y, g, h)];
      grid := SetCell(grid, x, y, Closed);
    }

    /** `CellSort(&open)`: reorders the open list so that f never increases
        from front to back. Only what `std::sort` promises is stated: the
        result is a permutation ordered by `Compare`; the order among equal-f
        nodes is left open. */
    method CellSort()
      modifies this`open
      ensures multiset(open) == multiset(old(open))
      ensures SortedByCompare(open)
    {
      open := SortDescending(open);
    }
  }

  /** `Search(grid, init, goal)`, with the neighbour expansion that main.cpp
      leaves as a comment absent, and the failure return after the loop.

      The ghost `pools[k]` is the sorted open list at the k-th iteration and
      `picks[k]` the node that iteration removes. The open list starts as the
      start node alone; every iteration removes a node of minimum f and marks
      its cell as path; the grid comes back (with its shape) exactly when the
      removed node stands on the goal, and a grid of zero rows comes back once
      the open list has run empty. As nothing is ever added after the start
      node, the start node is the only node selected, so the search succeeds
      exactly when `init == goal`. */
  method Search(grid: Grid, init: Point, goal: Point)
    returns (result: Grid, ghost pools: seq<seq<Node>>, ghost picks: seq<Node>)
    requires InBounds(grid, init.x, init.y)
    requires HeuristicDefined(init.x, init.y, goal.x, goal.y)
    ensures |pools| == |picks| >= 1
    ensures pools[0] == [Node(init.x, init.y, 0, Heuristic(init.x, init.y, goal.x, goal.y))]
    ensures forall k :: 0 <= k < |picks| ==> picks[k] in pools[k] && IsMinimumF(picks[k], pools[k])
    ensures forall k :: 0 <= k < |picks| - 1 ==>
              multiset(pools[k + 1]) == multiset(pools[k]) - multiset{picks[k]}
    ensures forall k :: 0 <= k < |picks| - 1 ==> !At(picks[k], goal)
    ensures result != [] <==> At(picks[|picks| - 1], goal)
    ensures result == [] ==> multiset(pools[|picks| - 1]) == multiset{picks[|picks| - 1]}
    ensures result != [] ==> SameShape(result, grid) && result[init.x][init.y] == Path
    ensures result != [] ==> forall i, j :: InBounds(grid, i, j) && (i != init.x || j != init.y) ==>
              result[i][j] == grid[i][j]
    ensures |picks| == 1 && (result != [] <==> init == goal)
  {
    var state := new SearchState(grid);
    var h := Heuristic(init.x, init.y, goal.x, goal.y);
    var start := Node(init.x, init.y, 0, h);
    state.AddToOpen(init.x, init.y, 0, h);
    pools, picks := [], [];

    while state.open != []
      invariant |pools| == |picks| <= 1
      invariant picks == [] ==>
                  state.open == [start] && state.grid == SetCell(grid, init.x, init.y, Closed)
      invariant picks != [] ==>
                  pools == [[start]] && picks == [start] && state.open == []
      invariant forall k :: 0 <= k < |picks| ==> !At(picks[k], goal)
      decreases |state.open|
    {
      state.CellSort();
      assert state.open == [start] by {
        assert |multiset(state.open)| == 1;
        assert state.open[0] in multiset(state.open);
      }

      // The most promising node is at the back; it leaves the open list.
      var current := state.open[|state.open| - 1];
      BackIsMinimum(state.open);
      pools, picks := pools + [state.open], picks + [current];
      state.open := state.open[..|state.open| - 1];

      state.grid := SetCell(state.grid, current.x, current.y, Path);
      if current.x == goal.x && current.y == goal.y {
        result := state.grid;
        return;
      }
    }

    // The open list ran out without reaching the goal.
    result := [];
  }
}
