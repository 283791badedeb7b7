/** The Manhattan-distance heuristic of the search. */
module Heuristics {
  import opened CppInt

  function Abs(v: int): (r: nat)
    ensures r == v || r == -v
  {
    if v < 0 then -v else v
  }

  /** The C++ expression `std::abs(x2 - x1) + std::abs(y2 - y1)` stays inside
      `int`: the operands are ints, neither difference overflows or is
      `INT_MIN` (whose `std::abs` is undefined), and the sum fits. */
  predicate HeuristicDefined(x1: int, y1: int, x2: int, y2: int) {
    && IsInt32(x1) && IsInt32(y1) && IsInt32(x2) && IsInt32(y2)
    && IntMin < x2 - x1 <= IntMax
    && IntMin < y2 - y1 <= IntMax
    && Abs(x2 - x1) + Abs(y2 - y1) <= IntMax
  }

  /** `Heuristic`: the Manhattan distance from (x1, y1) to (x2, y2). It is a
      non-negative `int`, and zero exactly when the two points coincide. */
  function Heuristic(x1: int, y1: int, x2: int, y2: int): (r: int)
    requires HeuristicDefined(x1, y1, x2, y2)
    ensures 0 <= r <= IntMax
    ensures r == 0 <==> x1 == x2 && y1 == y2
    ensures r >= Abs(x2 - x1) && r >= Abs(y2 - y1)
  {
    Abs(x2 - x1) + Abs(y2 - y1)
  }

  /** The distance is symmetric, and defined in one direction exactly when it
      is defined in the other. */
  lemma HeuristicSymmetric(x1: int, y1: int, x2: int, y2: int)
    ensures HeuristicDefined(x1, y1, x2, y2) <==> HeuristicDefined(x2, y2, x1, y1)
    ensures HeuristicDefined(x1, y1, x2, y2) ==>
              Heuristic(x1, y1, x2, y2) == Heuristic(x2, y2, x1, y1)
  {
  }

  /** Going through an intermediate point is never shorter. */
  lemma HeuristicTriangle(x1: int, y1: int, x2: int, y2: int, x3: int, y3: int)
    requires HeuristicDefined(x1, y1, x2, y2)
    requires HeuristicDefined(x2, y2, x3, y3)
    requires HeuristicDefined(x1, y1, x3, y3)
    ensures Heuristic(x1, y1, x3, y3) <= Heuristic(x1, y1, x2, y2) + Heuristic(x2, y2, x3, y3)
  {
  }

  /** One orthogonal step changes the estimate to the goal by exactly one, so
      the heuristic never overestimates the number of unit steps left. */
  lemma HeuristicStep(x: int, y: int, dx: int, dy: int, gx: int, gy: int)
    requires Abs(dx) + Abs(dy) == 1
    requires HeuristicDefined(x, y, gx, gy)
    requires HeuristicDefined(x + dx, y + dy, gx, gy)
    ensures Abs(Heuristic(x, y, gx, gy) - Heuristic(x + dx, y + dy, gx, gy)) == 1
  {
  }
}
