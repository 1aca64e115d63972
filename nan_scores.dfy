// The scores of the search as the source computes them. Both copies of
// findPath call `heuristic(neighbor, end)` when they create a node for a
// neighbour (main.js:238, findpath.js:58), but `neighbor` is the record
// `{x, y}` that getNeighbors builds, not an `[x, y]` pair: `neighbor[0]` and
// `neighbor[1]` are undefined and the subtraction yields NaN. Every node but
// the start therefore gets h = f = NaN; the strict `<` of the lowest-f scan
// is false on NaN, so after the start node the scan always picks index 0 and
// the open list is worked through first in, first out.
//
// This module models those computations as written. Module AStar models the
// search with the heuristic evidently intended, the Manhattan distance of
// the neighbour's cell.
module NeighborScores {
  import opened GridGeometry
  import AStar

  /** A JavaScript number as h and f hold it here: an integer, or NaN. */
  datatype Number = Int(v: int) | NaN

  /** `a - b`: NaN if either operand is. */
  function Minus(a: Number, b: Number): Number
  {
    if a.Int? && b.Int? then Int(a.v - b.v) else NaN
  }

  /** `a + b`: NaN if either operand is. */
  function Plus(a: Number, b: Number): Number
  {
    if a.Int? && b.Int? then Int(a.v + b.v) else NaN
  }

  /** `Math.abs(a)`. */
  function Magnitude(a: Number): Number
  {
    if a.Int? then Int(Abs(a.v)) else NaN
  }

  /** `a < b`: false whenever either side is NaN. */
  predicate Below(a: Number, b: Number)
  {
    a.Int? && b.Int? && a.v < b.v
  }

  /** The two shapes of a position passed to `heuristic`: the pair `[x, y]`
      (the start, main.js:184) and the record `{x, y}` (a neighbour, built at
      main.js:199). */
  datatype Position = Pair(x: int, y: int) | Record(x: int, y: int)

  /** `p[i]` for i = 0, 1, as `-` sees it: a record has no keys 0 and 1, and
      `undefined - b` is NaN. */
  function Component(p: Position, i: int): Number
  {
    if p.Record? then NaN else if i == 0 then Int(p.x) else Int(p.y)
  }

  /** `heuristic(a, b)` of main.js:188-190 on either shape of a: the Manhattan
      distance on a pair, NaN on a record. */
  function HeuristicAsWritten(a: Position, b: Cell): (h: Number)
    ensures a.Pair? ==> h == Int(Heuristic(Cell(a.x, a.y), b))
    ensures a.Record? ==> h == NaN
  {
    Plus(Magnitude(Minus(Component(a, 0), Int(b.x))), Magnitude(Minus(Component(a, 1), Int(b.y))))
  }

  /** The h a node created for a neighbour gets (main.js:238): NaN, whatever
      the neighbour and the goal. */
  function NeighborHAsWritten(neighbor: Cell, end: Cell): (h: Number)
    ensures h == NaN
  {
    HeuristicAsWritten(Record(neighbor.x, neighbor.y), end)
  }

  /** The f of such a node, `g + h`, as created (main.js:238) or recomputed by
      a decrease-key (main.js:242): NaN as well, whatever g is. The start node
      alone has a number for f (main.js:184-185). */
  function NeighborFAsWritten(gScore: int, neighbor: Cell, end: Cell): (f: Number)
    ensures f == NaN
  {
    Plus(Int(gScore), NeighborHAsWritten(neighbor, end))
  }

  /** The lowest-f scan of main.js:206-211 on the f values of the open list,
      in order. Once the first f is NaN the scan stays at index 0; when every
      f is a number it is the earliest minimum, as in AStar.SelectLowest. */
  method SelectLowestAsWritten(fs: seq<Number>) returns (lowest: int)
    requires |fs| > 0
    ensures 0 <= lowest < |fs|
    ensures fs[0] == NaN ==> lowest == 0
    ensures (forall i :: 0 <= i < |fs| ==> fs[i].Int?) ==>
      (forall i :: 0 <= i < |fs| ==> fs[lowest].v <= fs[i].v) &&
      (forall i :: 0 <= i < lowest ==> fs[lowest].v < fs[i].v)
  {
    lowest := 0;
    for i := 1 to |fs|
      invariant 0 <= lowest < i
      invariant fs[0] == NaN ==> lowest == 0
      invariant (forall j :: 0 <= j < i ==> fs[j].Int?) ==>
        (forall j :: 0 <= j < i ==> fs[lowest].v <= fs[j].v) &&
        (forall j :: 0 <= j < lowest ==> fs[lowest].v < fs[j].v)
    {
      if Below(fs[i], fs[lowest]) {
        lowest := i;
      }
    }
  }

  /** On the empty 2×2 board from (0, 0) to (0, 1), the start's expansion
      opens (1, 0) and then (0, 1). With the intended scores (f = 3 and 1) the
      scan picks the goal; the scan as written sees NaN twice and picks (1, 0),
      a cell off every shortest route, to expand next. */
  method FirstChoiceDiffers() returns (asWritten: int, intended: int)
    ensures asWritten == 0 && intended == 1
  {
    var start, right, goal := Cell(0, 0), Cell(1, 0), Cell(0, 1);
    asWritten := SelectLowestAsWritten([NeighborFAsWritten(1, right, goal), NeighborFAsWritten(1, goal, goal)]);
    assert asWritten == 0;
    var arena := [
      AStar.Node(start, 0, Heuristic(start, goal), Heuristic(start, goal), AStar.NoParent),
      AStar.Node(right, 1, Heuristic(right, goal), 1 + Heuristic(right, goal), 0),
      AStar.Node(goal, 1, Heuristic(goal, goal), 1 + Heuristic(goal, goal), 0)
    ];
    assert arena[1].f == 3 && arena[2].f == 1;
    var open := [1, 2];
    intended := AStar.SelectLowest(arena, open);
    assert arena[open[intended]].f <= arena[open[1]].f;
  }
}
