// findpath.js: the same A* search as main.js, with a neighbour filter that
// only tests the bounds of the board. It is the search of module AStar on a
// board without obstacles.
module ObstacleFreePath {
  import opened GridGeometry
  import AStar

  /** The board findpath.js searches: [0, gridSize)² with nothing on it. */
  function EmptyBoard(gridSize: int): (grid: Grid)
    ensures grid.size == gridSize
    ensures forall c :: Passable(grid, c) <==> InBounds(grid, c)
  {
    Grid(gridSize, {})
  }

  /** One cell from a toward e: along x while x differs, then along y. */
  function StepToward(a: Cell, e: Cell): (b: Cell)
    requires a != e
    ensures Adjacent(a, b) && Heuristic(b, e) + 1 == Heuristic(a, e)
  {
    if a.x < e.x then Cell(a.x + 1, a.y)
    else if a.x > e.x then Cell(a.x - 1, a.y)
    else if a.y < e.y then Cell(a.x, a.y + 1)
    else Cell(a.x, a.y - 1)
  }

  /** The staircase from a to e, one cell per step: a witness that two cells
      of an empty board are joined by a route of Manhattan length. */
  function Staircase(a: Cell, e: Cell): (w: seq<Cell>)
    ensures |w| == Heuristic(a, e) + 1
    ensures w[0] == a && w[|w| - 1] == e
    decreases Heuristic(a, e)
  {
    if a == e then [a] else [a] + Staircase(StepToward(a, e), e)
  }

  /** On an empty board the staircase between two in-bounds cells is a route. */
  lemma {:induction false} StaircaseIsRoute(gridSize: int, a: Cell, e: Cell)
    requires InBounds(EmptyBoard(gridSize), a) && InBounds(EmptyBoard(gridSize), e)
    ensures IsRoute(EmptyBoard(gridSize), Staircase(a, e), a, e)
    decreases Heuristic(a, e)
  {
    var grid := EmptyBoard(gridSize);
    if a != e {
      var b := StepToward(a, e);
      assert InBounds(grid, b);
      StaircaseIsRoute(gridSize, b, e);
      var rest := Staircase(b, e);
      var w := [a] + rest;
      assert Staircase(a, e) == w;
      forall i | 0 <= i < |w| - 1
        ensures IsStep(grid, w[i], w[i + 1])
      {
        if i > 0 {
          assert w[i] == rest[i - 1] && w[i + 1] == rest[i];
        }
      }
    }
  }

  /** On an empty board, any two in-bounds cells are joined by a route whose
      length is their Manhattan distance, and by no shorter one. */
  lemma ManhattanIsShortest(gridSize: int, a: Cell, e: Cell)
    requires InBounds(EmptyBoard(gridSize), a) && InBounds(EmptyBoard(gridSize), e)
    ensures Reachable(EmptyBoard(gridSize), a, e)
    ensures forall w :: IsRoute(EmptyBoard(gridSize), w, a, e) ==> |w| >= Heuristic(a, e) + 1
  {
    StaircaseIsRoute(gridSize, a, e);
    forall w | IsRoute(EmptyBoard(gridSize), w, a, e)
      ensures |w| >= Heuristic(a, e) + 1
    {
      RouteLowerBound(EmptyBoard(gridSize), w, a, e);
    }
  }

  /** `findPath(start, end, gridSize)` of findpath.js. */
  method FindPath(start: Cell, end: Cell, gridSize: int) returns (path: seq<Cell>)
    ensures path != [] ==> IsRoute(EmptyBoard(gridSize), path, start, end) && NoRepeats(path)
    ensures path != [] ==> forall w :: IsRoute(EmptyBoard(gridSize), w, start, end) ==> |path| <= |w|
    ensures path == [] <==> !Reachable(EmptyBoard(gridSize), start, end)
    ensures start == end ==> path == [start]
    ensures InBounds(EmptyBoard(gridSize), start) && InBounds(EmptyBoard(gridSize), end) ==>
      |path| == Heuristic(start, end) + 1
    ensures start != end && !InBounds(EmptyBoard(gridSize), end) ==> path == []
  {
    path := AStar.FindPath(start, end, EmptyBoard(gridSize));
    if InBounds(EmptyBoard(gridSize), start) && InBounds(EmptyBoard(gridSize), end) {
      ManhattanIsShortest(gridSize, start, end);
      StaircaseIsRoute(gridSize, start, end);
    }
  }
}
