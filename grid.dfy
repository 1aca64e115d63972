// Cells, the board, 4-connected steps and the Manhattan heuristic that both
// copies of findPath (main.js and findpath.js) are built on.
module GridGeometry {

  /** A grid position: the `[x, y]` pair or `{x, y}` record of the source. */
  datatype Cell = Cell(x: int, y: int)

  /** The board one search runs on: the side length `gridSize` and the set of
      cells holding an obstacle (the source keys them by the string "x,y",
      which is injective on integer pairs). */
  datatype Grid = Grid(size: int, obstacles: set<Cell>)

  function Abs(n: int): nat
  {
    if n < 0 then -n else n
  }

  /** `heuristic(a, b)`: the Manhattan distance |ax - bx| + |ay - by|. */
  function Heuristic(a: Cell, b: Cell): (d: nat)
    ensures d == 0 <==> a == b
  {
    Abs(a.x - b.x) + Abs(a.y - b.y)
  }

  predicate InBounds(grid: Grid, c: Cell)
  {
    0 <= c.x < grid.size && 0 <= c.y < grid.size
  }

  /** The filter of `getNeighbors`: inside [0, gridSize)² and not an obstacle. */
  predicate Passable(grid: Grid, c: Cell)
  {
    InBounds(grid, c) && c !in grid.obstacles
  }

  /** The two cells differ by exactly 1 on exactly one axis. */
  predicate Adjacent(a: Cell, b: Cell)
  {
    (Abs(a.x - b.x) == 1 && a.y == b.y) || (a.x == b.x && Abs(a.y - b.y) == 1)
  }

  /** One move of the search: to an adjacent, passable cell. */
  predicate IsStep(grid: Grid, a: Cell, b: Cell)
  {
    Adjacent(a, b) && Passable(grid, b)
  }

  /** A non-empty sequence of cells in which every cell after the first is
      reached by a step; the first cell itself is never checked. */
  predicate IsWalk(grid: Grid, w: seq<Cell>)
  {
    |w| > 0 && forall i :: 0 <= i < |w| - 1 ==> IsStep(grid, w[i], w[i + 1])
  }

  predicate IsRoute(grid: Grid, w: seq<Cell>, s: Cell, e: Cell)
  {
    IsWalk(grid, w) && w[0] == s && w[|w| - 1] == e
  }

  ghost predicate Reachable(grid: Grid, s: Cell, e: Cell)
  {
    exists w :: IsRoute(grid, w, s, e)
  }

  predicate NoRepeats(w: seq<Cell>)
  {
    forall i, j :: 0 <= i < j < |w| ==> w[i] != w[j]
  }

  /** Every cell of the board [0, size)². */
  ghost function BoardCells(grid: Grid): (cells: set<Cell>)
    ensures forall c :: c in cells <==> InBounds(grid, c)
  {
    set x, y | 0 <= x < grid.size && 0 <= y < grid.size :: Cell(x, y)
  }

  /** A walk followed by one more step is a walk. */
  lemma ExtendWalk(grid: Grid, w: seq<Cell>, c: Cell)
    requires IsWalk(grid, w) && IsStep(grid, w[|w| - 1], c)
    ensures IsWalk(grid, w + [c])
  {
    var v := w + [c];
    forall i | 0 <= i < |v| - 1
      ensures IsStep(grid, v[i], v[i + 1])
    {
      if i < |w| - 1 {
        assert v[i] == w[i] && v[i + 1] == w[i + 1];
      }
    }
  }

  /** The position of the first cell of a walk outside `inside`, for a walk
      that ends outside it. */
  function FirstOutside(w: seq<Cell>, inside: set<Cell>): (j: int)
    requires |w| > 0 && w[|w| - 1] !in inside
    ensures 0 <= j < |w| && w[j] !in inside
    ensures forall i :: 0 <= i < j ==> w[i] in inside
  {
    if w[0] !in inside then 0 else 1 + FirstOutside(w[1..], inside)
  }

  /** The heuristic is consistent: one step changes it by at most 1. */
  lemma HeuristicConsistent(a: Cell, b: Cell, e: Cell)
    requires Adjacent(a, b)
    ensures Heuristic(a, e) <= Heuristic(b, e) + 1
    ensures Heuristic(b, e) <= Heuristic(a, e) + 1
  {
  }

  /** Along a walk the heuristic drops by at most the number of steps taken. */
  lemma {:induction false} HeuristicAlongWalk(grid: Grid, w: seq<Cell>, e: Cell)
    requires IsWalk(grid, w)
    ensures Heuristic(w[0], e) <= |w| - 1 + Heuristic(w[|w| - 1], e)
    decreases |w|
  {
    if |w| > 1 {
      assert IsWalk(grid, w[1..]) by {
        forall i | 0 <= i < |w[1..]| - 1
          ensures IsStep(grid, w[1..][i], w[1..][i + 1])
        {
          assert IsStep(grid, w[i + 1], w[i + 2]);
        }
      }
      HeuristicAlongWalk(grid, w[1..], e);
      assert IsStep(grid, w[0], w[1]);
      HeuristicConsistent(w[0], w[1], e);
    }
  }

  /** No route is shorter than the Manhattan distance between its ends. */
  lemma RouteLowerBound(grid: Grid, w: seq<Cell>, s: Cell, e: Cell)
    requires IsRoute(grid, w, s, e)
    ensures |w| >= Heuristic(s, e) + 1
  {
    HeuristicAlongWalk(grid, w, e);
  }

  /** A route to a goal other than the start ends on a passable cell, so an
      out-of-bounds or blocked goal cannot be reached. */
  lemma RouteEndsPassable(grid: Grid, w: seq<Cell>, s: Cell, e: Cell)
    requires IsRoute(grid, w, s, e) && s != e
    ensures Passable(grid, e)
  {
    assert |w| >= 2;
    assert IsStep(grid, w[|w| - 2], w[|w| - 2 + 1]);
  }

  /** A set of cells that no step leaves contains the end of every walk that
      starts in it. */
  lemma {:induction false} WalkStaysInside(grid: Grid, w: seq<Cell>, inside: set<Cell>)
    requires IsWalk(grid, w) && w[0] in inside
    requires forall a, b :: a in inside && IsStep(grid, a, b) ==> b in inside
    ensures w[|w| - 1] in inside
    decreases |w|
  {
    if |w| > 1 {
      assert IsStep(grid, w[0], w[1]);
      assert IsWalk(grid, w[1..]) by {
        forall i | 0 <= i < |w[1..]| - 1
          ensures IsStep(grid, w[1..][i], w[1..][i + 1])
        {
          assert IsStep(grid, w[i + 1], w[i + 2]);
        }
      }
      WalkStaysInside(grid, w[1..], inside);
    }
  }

  /** Cutting the loop out of a walk that visits a cell twice leaves a walk. */
  lemma ShortcutIsRoute(grid: Grid, w: seq<Cell>, s: Cell, e: Cell, i: int, j: int)
    requires IsRoute(grid, w, s, e)
    requires 0 <= i < j < |w| && w[i] == w[j]
    ensures IsRoute(grid, w[..i] + w[j..], s, e)
    ensures |w[..i] + w[j..]| < |w|
  {
    var v := w[..i] + w[j..];
    forall k | 0 <= k < |v| - 1
      ensures IsStep(grid, v[k], v[k + 1])
    {
      if k + 1 < i {
        assert v[k] == w[k] && v[k + 1] == w[k + 1];
      } else if k + 1 == i {
        assert v[k] == w[k] && v[k + 1] == w[j] == w[k + 1];
      } else {
        assert v[k] == w[j + k - i] && v[k + 1] == w[j + k - i + 1];
      }
    }
    assert v[0] == s by {
      if i == 0 { assert v[0] == w[j] == w[0]; } else { assert v[0] == w[0]; }
    }
    assert v[|v| - 1] == w[|w| - 1];
  }

  /** A route no other route beats never visits a cell twice. */
  lemma ShortestRouteHasNoRepeats(grid: Grid, w: seq<Cell>, s: Cell, e: Cell)
    requires IsRoute(grid, w, s, e)
    requires forall v {:trigger IsRoute(grid, v, s, e)} :: IsRoute(grid, v, s, e) ==> |w| <= |v|
    ensures NoRepeats(w)
  {
    forall i, j | 0 <= i < j < |w|
      ensures w[i] != w[j]
    {
      if w[i] == w[j] {
        ShortcutIsRoute(grid, w, s, e, i, j);
      }
    }
  }
}
