/** Search nodes and the order the open list is sorted in. */
module OpenList {

  /** One open-list entry: the `vector<int>` `{x, y, g, h}` of main.cpp,
      where index 2 holds g and index 3 holds h. */
  datatype Node = Node(x: int, y: int, g: int, h: int) {
    /** The priority f = g + h. */
    function F(): int { g + h }
  }

  /** `Compare(a, b)`: a's f is strictly greater than b's. */
  predicate Compare(a: Node, b: Node)
    ensures Compare(a, b) <==> a.F() > b.F()
  {
    a.g + a.h > b.g + b.h
  }

  /** What `std::sort(v.begin(), v.end(), Compare)` promises of its result:
      no later element compares before an earlier one. */
  predicate SortedByCompare(s: seq<Node>) {
    forall i, j :: 0 <= i < j < |s| ==> !Compare(s[j], s[i])
  }

  /** `n` has the smallest f of all the nodes in `s`. */
  predicate IsMinimumF(n: Node, s: seq<Node>) {
    forall m :: m in s ==> n.F() <= m.F()
  }

  /** `Compare` is a strict weak ordering, the requirement `std::sort` places
      on its comparator: irreflexive, transitive, and with transitive
      incomparability (equal f). Asymmetry follows from the first two. */
  lemma CompareIsStrictWeakOrder(a: Node, b: Node, c: Node)
    ensures !Compare(a, a)
    ensures Compare(a, b) ==> !Compare(b, a)
    ensures Compare(a, b) && Compare(b, c) ==> Compare(a, c)
    ensures !Compare(a, b) && !Compare(b, a) && !Compare(b, c) && !Compare(c, b) ==>
              !Compare(a, c) && !Compare(c, a)
  {
  }

  /** Inserts `n` into a list sorted by `Compare`, before the first element
      whose f is smaller than n's. */
  function InsertDescending(n: Node, s: seq<Node>): (r: seq<Node>)
    requires SortedByCompare(s)
    ensures SortedByCompare(r)
    ensures multiset(r) == multiset(s) + multiset{n}
  {
    if s == [] || Compare(n, s[0]) then [n] + s
    else
      var tail := InsertDescending(n, s[1..]);
      assert s == [s[0]] + s[1..];
      assert forall m :: m in tail ==> m in s[1..] || m == n by {
        forall m | m in tail ensures m in s[1..] || m == n {
          assert m in multiset(tail);
        }
      }
      assert forall m :: m in s[1..] ==> !Compare(m, s[0]) by {
        forall m | m in s[1..] ensures !Compare(m, s[0]) {
          var k :| 0 <= k < |s[1..]| && s[1..][k] == m;
          assert s[k + 1] == m;
        }
      }
      var r := [s[0]] + tail;
      assert forall j :: 0 < j < |r| ==> r[j] in tail;
      r
  }

  /** A sort of the open list by descending f (insertion sort). It is one of
      the outcomes `std::sort` may produce; which one among equal-f nodes is
      not fixed by the program. */
  function SortDescending(s: seq<Node>): (r: seq<Node>)
    ensures SortedByCompare(r)
    ensures multiset(r) == multiset(s)
  {
    if s == [] then []
    else
      assert s == [s[0]] + s[1..];
      InsertDescending(s[0], SortDescending(s[1..]))
  }

  /** After sorting, the back of the list holds a node of minimum f: the node
      `Search` takes as the most promising. */
  lemma BackIsMinimum(s: seq<Node>)
    requires SortedByCompare(s) && s != []
    ensures IsMinimumF(s[|s| - 1], s)
  {
    forall m | m in s ensures s[|s| - 1].F() <= m.F() {
      var i :| 0 <= i < |s| && s[i] == m;
      if i < |s| - 1 {
        assert !Compare(s[|s| - 1], s[i]);
      }
    }
  }
}
