# humble-a-star: a Dafny model of the grid A* draft

This project models the core of `main.cpp`, an early draft of an A* search over
a 2-D grid of cells. The draft has four cell states (empty, obstacle, closed,
path). It also has:

- a Manhattan-distance heuristic;
- an open list of nodes `{x, y, g, h}` that is sorted by descending `f = g + h`,
  so that the most promising node sits at the back;
- `AddToOpen`, which appends a node and marks its cell closed;
- a line parser that turns `0,1,0,` into a row of cells;
- the display token of a cell;
- the `Search` loop, which seeds the open list with the start node, then
  repeatedly sorts, takes the back node, marks it as path and stops at the goal.

Files, one module each:

- `cpp_int.dfy` (`CppInt`): the 32-bit `int` range.
- `board.dfy` (`Board`): `State`, the grid, the assignment `grid[x][y] = s`, and `CellString`.
- `heuristic.dfy` (`Heuristics`): `Heuristic` and its properties as a distance.
- `open_list.dfy` (`OpenList`): `Node`, `Compare`, what a sort by `Compare` guarantees, and a sort that meets it.
- `line_parser.dfy` (`LineParser`): `ParseLine` over the unconsumed part of the line, proved to invert a writer of `n,` lines (with whitespace and signs).
- `search.dfy` (`AStar`): the class `SearchState` (the open list and the grid that `Search` changes in place, with `AddToOpen` and `CellSort`) and `Search`.

Notes on the reading of the source:

- `Search` as written is unfinished. Neighbour expansion is only a comment
  (main.cpp:115-116). The brace at main.cpp:122 closes the `while` loop, not
  the function. The model follows the evident structure: the "No path found"
  return of main.cpp:119-121 runs after the loop. Nothing else adds nodes to the
  open list, so the start node is the only node ever selected. The model proves
  this: the search succeeds exactly when `init == goal`.
- The draft has no start or finish cell states, no cell-validity check, no
  neighbour expansion and no tie-break rule beyond what `std::sort` does. The
  model adds none of them. It has the four states of main.cpp:15, and
  `CellString` gives `"*   "`, `".   "` or `"0   "`.
- `std::sort` is not stable. `CellSort` promises only a permutation ordered by
  `Compare`. `Search` is proved from that promise alone, so its contract holds
  whichever equal-f node the sort leaves at the back.

## Model

| member | source | states |
|---|---|---|
| `Board.SetCell` | main.cpp:26 | `grid[x][y] = s` keeps the grid's shape, sets that cell to `s` and leaves every other cell as it was |
| `Board.CellString` | main.cpp:124-130 | each token is four characters: a marker, then three spaces; the marker is `*` exactly for an obstacle, `.` exactly for a path cell, `0` exactly for an empty or closed cell |
| `Board.CellStringDistinguishes` | main.cpp:124-130 | two states print alike exactly when they are equal or both are empty-or-closed |
| `Heuristics.Heuristic` | main.cpp:75-77 | under the no-overflow precondition the result is a non-negative `int`; it is zero exactly when the two points coincide, and at least each coordinate difference |
| `Heuristics.HeuristicSymmetric` | main.cpp:71-77 | the distance is symmetric, and it is defined without overflow in one direction exactly when in the other |
| `Heuristics.HeuristicTriangle` | main.cpp:71-77 | the Manhattan distance obeys the triangle inequality |
| `Heuristics.HeuristicStep` | main.cpp:71-77 | one orthogonal unit step changes the distance to the goal by exactly one |
| `Heuristics.Abs` | main.cpp:76 | `std::abs`: the result is the operand or its negation, and never negative |
| `OpenList.Compare` | main.cpp:32-34 | `Compare(a, b)` holds exactly when a's g + h is strictly greater than b's |
| `OpenList.CompareIsStrictWeakOrder` | main.cpp:32-34 | `Compare` is irreflexive, asymmetric and transitive, and equal f is transitive, so it is a valid comparator for `std::sort` |
| `OpenList.InsertDescending` | main.cpp:39-41 | inserting into a list sorted by `Compare` keeps it sorted and adds exactly that node to its multiset |
| `OpenList.SortDescending` | main.cpp:36-41 | the result is a permutation of the open list, and no later node compares before an earlier one (f is non-increasing) |
| `OpenList.BackIsMinimum` | main.cpp:97-100 | after such a sort the back node has the minimum f of the whole open list |
| `LineParser.DigitCount` | main.cpp:48 | the number read is the longest leading run of digits |
| `LineParser.ReadDigits` | main.cpp:48 | after whitespace and sign, the read fails when no digit comes first; a success yields an `int`, consumes input and stops before any further digit |
| `LineParser.ReadInt` | main.cpp:48 | `sline >> n` consumes at least one character when it succeeds, yields an `int`, stops before any further digit, and fails on input with no digits |
| `LineParser.ReadChar` | main.cpp:48 | `sline >> c` fails exactly when only whitespace is left; otherwise it yields a non-space character and consumes input |
| `LineParser.CellOf` | main.cpp:49-53 | a number gives an empty cell exactly when it is 0, an obstacle otherwise |
| `LineParser.ParseFrom` | main.cpp:43-56 | the row holds only empty and obstacle cells, and each cell consumed at least two characters of the line |
| `LineParser.ParseLine` | main.cpp:43-56 | the loop `while (sline >> n >> c && c == ',')` builds exactly the row `ParseFrom` describes |
| `LineParser.ReadDigitsRun` | main.cpp:48 | a run of digits followed by a non-digit reads back as the number the digits denote (negated after a minus sign) when it fits an `int`, and fails otherwise |
| `LineParser.ReadIntAfterSpace` | main.cpp:48 | whitespace before a number does not change what `>> n` reads |
| `LineParser.ReadIntSigned` | main.cpp:48 | no sign, `+` or `-`, then a run of digits, reads back as the signed value of the digits when that fits an `int` (so -2147483648 is read), and fails otherwise |
| `LineParser.ReadIntSpelled` | main.cpp:48 | any whitespace, a sign and the decimal digits of `v`, followed by a non-digit, read back as the signed `v` when it fits an `int` and fail otherwise: `" -12"` reads -12 |
| `LineParser.ReadIntWritten` | main.cpp:48 | any whitespace, a sign and any run of digits (leading zeros included), followed by a non-digit, read back as the signed value of the digits when it fits an `int`, and fail otherwise |
| `LineParser.ReadIntNoNumber` | main.cpp:48 | `>> n` fails when the first non-space character is neither a digit nor a sign followed by a digit (`x1`, `,1`, `- 1`, `+-1`) |
| `LineParser.ReadCharAfterSpace` | main.cpp:48 | whitespace before a character does not change what `>> c` reads |
| `LineParser.ReadCharAt` | main.cpp:48 | `>> c` skips whitespace and yields exactly the first non-space character, leaving the text after it; so a separator such as `;` or `x` is read as itself and ends the loop |
| `LineParser.ReadCharComma` | main.cpp:48 | the comma instance: `>> c` skips whitespace before a comma and reads the comma |
| `LineParser.ParseFromItem` | main.cpp:48-53 | one complete item (whitespace, optional sign, digits with any leading zeros, whitespace, comma) adds the cell for its value and leaves the rest of the line to be parsed |
| `LineParser.ParseFromLine` | main.cpp:48-54 | a run of complete `n,` items gives their cells, in order, followed by whatever the rest of the line parses to |
| `LineParser.ParseRendered` | main.cpp:43-56 | a line written as complete items, such as `0,1,0,` or ` 0 , -1,+00,`, parses back to exactly their cells (0 empty, other values obstacle) |
| `LineParser.ParseUnterminated` | main.cpp:48 | a number gives no cell when it does not fit an `int` (as in `2147483648,`), or when no comma follows it: the line ends (possibly after whitespace, as in `1\r`) or the next non-space character is not a comma |
| `LineParser.ParseDropsUnterminated` | main.cpp:48 | so such a number after complete items ends the row: whatever follows it, the row holds exactly the cells of the items before it |
| `LineParser.ParseStopsAtNonNumber` | main.cpp:48 | the row ends at the first item that does not start with a number: `0,x1,` gives one empty cell |
| `AStar.SearchState.constructor` | main.cpp:82-85 | the search starts from an empty open list and the grid it was given |
| `AStar.SearchState.AddToOpen` | main.cpp:20-27 | the open list grows by exactly the node `{x, y, g, h}` at the back and earlier entries are unchanged; `grid[x][y]` becomes closed, the grid keeps its shape and no other cell changes |
| `AStar.SearchState.CellSort` | main.cpp:36-41 | the open list becomes a permutation of itself ordered by `Compare`, and the grid is not touched |
| `AStar.Search` | main.cpp:82-121 | the open list starts as the node `{init, g = 0, h = Heuristic(init, goal)}`. Every iteration removes one minimum-f node. The grid comes back exactly when the removed node is on the goal: same shape, the start cell marked as path, all other cells unchanged. Otherwise a grid of zero rows comes back once the open list is empty. With no expansion the only selection is the start node, so the search succeeds exactly when `init == goal` |

## Left out

- `ReadBoardFile` (main.cpp:58-69): file input through `ifstream`/`getline`; only the per-line `ParseLine` is modelled.
- `PrintBoard` (main.cpp:132-139), the "No path found!" message (main.cpp:120) and `main` (main.cpp:143-163): terminal output and driver code.
- test.cpp, included at main.cpp:141, is not part of this model.
- Neighbour expansion, cell-validity checks and start/finish markings: the source has none of them (main.cpp:115-116 is a comment), so the model adds none.
- `Compare`: g + h is computed on unbounded integers. Overflow of the C++ `int` sum is not modelled. `Search` only ever builds the start node, where g = 0 and h is a bounded `int`.
- `Heuristic`: C++ `int` overflow and `std::abs(INT_MIN)` are excluded by the precondition `HeuristicDefined`. This precondition is also required of `Search`'s `init` and `goal`.
- `CellSort`: the body sorts by insertion instead of `std::sort`'s algorithm. Its contract states only what `std::sort` promises, and callers rely only on that.
- `ReadInt`: `istringstream` number extraction is modelled for the C locale and decimal base: whitespace skipping, an optional sign, digits, and failure outside the `int` range. Locale facets, other bases and the value stored on failure are not modelled. The loop stops on failure either way.
- `Search`: the `vector` storage and its copies are modelled as Dafny sequences. `Search` receives the grid by value, as in the source, so aliasing does not arise.
