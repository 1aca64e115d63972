// The A* search `findPath` of main.js (findpath.js holds the same loop
// without the obstacle test). Search nodes live in an arena: a node's
// `parent` is the arena index of its predecessor, or NoParent for the
// start node; the open and closed lists hold arena indices.
module AStar {
  import opened GridGeometry

  /** The node record `{x, y, g, h, f, parent}` of the source. */
  datatype Node = Node(cell: Cell, g: int, h: int, f: int, parent: int)

  /** The `parent: null` of the start node. */
  const NoParent := -1

  /** The four directions of `getNeighbors`, in the order it tries them. */
  const Directions: seq<(int, int)> := [(1, 0), (-1, 0), (0, 1), (0, -1)]

  function Offset(c: Cell, d: (int, int)): Cell
  {
    Cell(c.x + d.0, c.y + d.1)
  }

  // ---------------------------------------------------------------------
  // Helpers of the loop: `.find`, the minimum-f scan, `getNeighbors`,
  // `path.reverse()` and the parent walk.
  // ---------------------------------------------------------------------

  ghost predicate InArena(arena: seq<Node>, ids: seq<int>)
  {
    forall i :: 0 <= i < |ids| ==> 0 <= ids[i] < |arena|
  }

  /** `ids.find(node => node.x === c.x && node.y === c.y)`, as the position
      in `ids` of the first node on cell c, or -1 for `undefined`. */
  function FindNode(arena: seq<Node>, ids: seq<int>, c: Cell): (r: int)
    requires InArena(arena, ids)
    ensures -1 <= r < |ids|
    ensures r == -1 <==> forall i :: 0 <= i < |ids| ==> arena[ids[i]].cell != c
    ensures r >= 0 ==> arena[ids[r]].cell == c
    ensures r >= 0 ==> forall i :: 0 <= i < r ==> arena[ids[i]].cell != c
  {
    if ids == [] then -1
    else if arena[ids[0]].cell == c then 0
    else
      var r := FindNode(arena, ids[1..], c);
      if r < 0 then -1 else r + 1
  }

  /** The scan for the lowest f: strict `<` keeps the earliest of several
      open nodes with the same minimal f. */
  method SelectLowest(arena: seq<Node>, open: seq<int>) returns (lowest: int)
    requires |open| > 0 && InArena(arena, open)
    ensures 0 <= lowest < |open|
    ensures forall i :: 0 <= i < |open| ==> arena[open[lowest]].f <= arena[open[i]].f
    ensures forall i :: 0 <= i < lowest ==> arena[open[lowest]].f < arena[open[i]].f
  {
    lowest := 0;
    for i := 1 to |open|
      invariant 0 <= lowest < i
      invariant forall j :: 0 <= j < i ==> arena[open[lowest]].f <= arena[open[j]].f
      invariant forall j :: 0 <= j < lowest ==> arena[open[lowest]].f < arena[open[j]].f
    {
      if arena[open[i]].f < arena[open[lowest]].f {
        lowest := i;
      }
    }
  }

  /** The neighbours `getNeighbors` keeps from the first directions in `dirs`,
      in that order. */
  function Kept(grid: Grid, c: Cell, dirs: seq<(int, int)>): seq<Cell>
  {
    if dirs == [] then []
    else
      var n := Offset(c, dirs[|dirs| - 1]);
      Kept(grid, c, dirs[..|dirs| - 1]) + (if Passable(grid, n) then [n] else [])
  }

  lemma NeighborsAreSteps(grid: Grid, c: Cell)
    ensures forall n :: n in Kept(grid, c, Directions) <==> IsStep(grid, c, n)
  {
    var d := Directions;
    var e, w, s, n := Offset(c, d[0]), Offset(c, d[1]), Offset(c, d[2]), Offset(c, d[3]);
    assert d[..4] == d && d[..4][..3] == d[..3] && d[..3][..2] == d[..2] && d[..2][..1] == d[..1];
    assert d[..1][..0] == [];
    assert Kept(grid, c, d[..1]) == (if Passable(grid, e) then [e] else []);
    assert Kept(grid, c, d[..2]) == Kept(grid, c, d[..1]) + (if Passable(grid, w) then [w] else []);
    assert Kept(grid, c, d[..3]) == Kept(grid, c, d[..2]) + (if Passable(grid, s) then [s] else []);
    assert Kept(grid, c, d) == Kept(grid, c, d[..3]) + (if Passable(grid, n) then [n] else []);
    forall m ensures m in Kept(grid, c, d) <==> IsStep(grid, c, m) {
      assert m in Kept(grid, c, d) <==> Passable(grid, m) && (m == e || m == w || m == s || m == n);
    }
  }

  /** `getNeighbors(node)`: the in-bounds, obstacle-free cells among the four
      around c, in the order right, left, down, up. */
  method GetNeighbors(c: Cell, grid: Grid) returns (neighbors: seq<Cell>)
    ensures neighbors == Kept(grid, c, Directions)
    ensures forall n :: n in neighbors <==> IsStep(grid, c, n)
  {
    neighbors := [];
    for d := 0 to |Directions|
      invariant neighbors == Kept(grid, c, Directions[..d])
    {
      var n := Offset(c, Directions[d]);
      assert Directions[..d + 1][..d] == Directions[..d];
      if Passable(grid, n) {
        neighbors := neighbors + [n];
      }
    }
    assert Directions[..|Directions|] == Directions;
    NeighborsAreSteps(grid, c);
  }

  /** `path.reverse()`. */
  function Reversed(s: seq<Cell>): (r: seq<Cell>)
    ensures |r| == |s|
    ensures forall i :: 0 <= i < |s| ==> r[i] == s[|s| - 1 - i]
  {
    if s == [] then [] else [s[|s| - 1]] + Reversed(s[..|s| - 1])
  }

  /** Parent links are indices into the arena (or NoParent, at g = 0) and a
      parent's g is one less than its child's; this is what makes the
      parent walk terminate. */
  ghost predicate Tree(arena: seq<Node>)
  {
    forall k :: 0 <= k < |arena| ==> TreeAt(arena, k)
  }

  ghost predicate TreeAt(arena: seq<Node>, k: int)
    requires 0 <= k < |arena|
  {
    arena[k].g >= 0 &&
    if arena[k].parent == NoParent then arena[k].g == 0
    else 0 <= arena[k].parent < |arena| && arena[arena[k].parent].g + 1 == arena[k].g
  }

  /** The cells of the path the parent walk rebuilds for node k: start first,
      then one cell per node on the parent chain, k's cell last. */
  function PathTo(arena: seq<Node>, k: int, start: Cell): (p: seq<Cell>)
    requires Tree(arena) && 0 <= k < |arena|
    ensures |p| > 0 && |p| == arena[k].g + 1 && p[0] == start
    decreases arena[k].g
  {
    assert TreeAt(arena, k);
    if arena[k].parent == NoParent then [start]
    else PathTo(arena, arena[k].parent, start) + [arena[k].cell]
  }

  /** The parent walk of the source: push the cell of every node that has a
      parent, then the start, then reverse. */
  method Reconstruct(arena: seq<Node>, k: int, start: Cell) returns (path: seq<Cell>)
    requires Tree(arena) && 0 <= k < |arena|
    ensures path == PathTo(arena, k, start)
  {
    var pushed: seq<Cell> := [];
    var temp := k;
    while arena[temp].parent != NoParent
      invariant 0 <= temp < |arena|
      invariant PathTo(arena, temp, start) + Reversed(pushed) == PathTo(arena, k, start)
      decreases arena[temp].g
    {
      assert TreeAt(arena, temp);
      ghost var before := pushed;
      pushed := pushed + [arena[temp].cell];
      assert Reversed(pushed) == [arena[temp].cell] + Reversed(before);
      temp := arena[temp].parent;
    }
    pushed := pushed + [start];
    path := Reversed(pushed);
  }

  // ---------------------------------------------------------------------
  // What holds of the open list, the closed list and the arena while the
  // search runs. `nodeOf` is a ghost index from each listed cell to its
  // node, `closedCells` the ghost set of closed cells.
  // ---------------------------------------------------------------------

  ghost predicate Distinct(ids: seq<int>)
  {
    forall i, j :: 0 <= i < j < |ids| ==> ids[i] != ids[j]
  }

  /** Every node has g >= 0, h = heuristic(cell, goal) and f = g + h. */
  ghost predicate Scored(arena: seq<Node>, goal: Cell)
  {
    forall k :: 0 <= k < |arena| ==> ScoredAt(arena, goal, k)
  }
  ghost predicate ScoredAt(arena: seq<Node>, goal: Cell, k: int)
    requires 0 <= k < |arena|
  {
    arena[k].g >= 0 && arena[k].h == Heuristic(arena[k].cell, goal) && arena[k].f == arena[k].g + arena[k].h
  }

  /** Node 0 is the start node; every other node's parent is a closed node
      one step before it, with g one less. */
  ghost predicate Linked(arena: seq<Node>, closed: seq<int>, start: Cell, grid: Grid)
  {
    |arena| > 0 && arena[0].cell == start && arena[0].g == 0 && arena[0].parent == NoParent &&
    forall k :: 0 < k < |arena| ==> LinkedAt(arena, closed, grid, k)
  }

  /** Node k's parent is a closed node one step before it, with g one less. */
  ghost predicate LinkedAt(arena: seq<Node>, closed: seq<int>, grid: Grid, k: int)
    requires 0 <= k < |arena|
  {
    0 <= arena[k].parent < |arena| && arena[k].parent in closed &&
    arena[arena[k].parent].g + 1 == arena[k].g &&
    IsStep(grid, arena[arena[k].parent].cell, arena[k].cell)
  }

  /** Every node on the list is in the arena and `nodeOf` maps its cell back to it. */
  ghost predicate Listed(arena: seq<Node>, ids: seq<int>, nodeOf: map<Cell, int>)
  {
    InArena(arena, ids) &&
    forall i :: 0 <= i < |ids| ==> arena[ids[i]].cell in nodeOf && nodeOf[arena[ids[i]].cell] == ids[i]
  }

  /** No node is on both lists or twice on one, no cell has two listed nodes,
      and `nodeOf` finds the node of every listed cell. */
  ghost predicate Indexed(arena: seq<Node>, open: seq<int>, closed: seq<int>, nodeOf: map<Cell, int>)
  {
    Listed(arena, open, nodeOf) && Listed(arena, closed, nodeOf) && Distinct(open) && Distinct(closed) &&
    (forall k :: k in open ==> k !in closed) &&
    (forall c :: c in nodeOf ==>
      (nodeOf[c] in open || nodeOf[c] in closed) && 0 <= nodeOf[c] < |arena| && arena[nodeOf[c]].cell == c)
  }

  /** g is a lower bound on the length of every route from start to c. */
  ghost predicate Settled(grid: Grid, start: Cell, c: Cell, g: int)
  {
    forall w {:trigger IsRoute(grid, w, start, c)} :: IsRoute(grid, w, start, c) ==> g <= |w| - 1
  }

  /** Cell n has a node that is closed or has g <= bound. */
  ghost predicate Reached(arena: seq<Node>, closed: seq<int>, nodeOf: map<Cell, int>, n: Cell, bound: int)
  {
    n in nodeOf && 0 <= nodeOf[n] < |arena| && (nodeOf[n] in closed || arena[nodeOf[n]].g <= bound)
  }

  /** Every step out of c (a closed cell at distance g) has been relaxed. */
  ghost predicate Frontier(arena: seq<Node>, closed: seq<int>, nodeOf: map<Cell, int>, grid: Grid, c: Cell, g: int)
  {
    forall n :: IsStep(grid, c, n) ==> Reached(arena, closed, nodeOf, n, g + 1)
  }

  /** The loop invariant of findPath, apart from the frontier. */
  ghost predicate Searching(arena: seq<Node>, open: seq<int>, closed: seq<int>, nodeOf: map<Cell, int>,
                            closedCells: set<Cell>, start: Cell, goal: Cell, grid: Grid)
  {
    Scored(arena, goal) && Linked(arena, closed, start, grid) && Indexed(arena, open, closed, nodeOf) &&
    (0 in open || 0 in closed) &&
    (forall c :: c in closedCells <==> c in nodeOf && nodeOf[c] in closed) &&
    goal !in closedCells &&
    (forall k :: 0 <= k < |arena| ==> arena[k].cell == start || InBounds(grid, arena[k].cell)) &&
    (forall i :: 0 <= i < |closed| ==> Settled(grid, start, arena[closed[i]].cell, arena[closed[i]].g))
  }

  /** Every closed node has had all its neighbours relaxed. */
  ghost predicate Explored(arena: seq<Node>, closed: seq<int>, nodeOf: map<Cell, int>, grid: Grid)
  {
    InArena(arena, closed) &&
    forall i :: 0 <= i < |closed| ==> Frontier(arena, closed, nodeOf, grid, arena[closed[i]].cell, arena[closed[i]].g)
  }

  /** What relaxing may change: nodes are only added, cells stay, g only
      drops, closed nodes are untouched and the index only grows. */
  ghost predicate Grows(arena: seq<Node>, arena': seq<Node>, closed: seq<int>,
                        nodeOf: map<Cell, int>, nodeOf': map<Cell, int>)
  {
    |arena| <= |arena'| &&
    (forall k :: 0 <= k < |arena| ==> GrowsAt(arena, arena', closed, k)) &&
    (forall c :: c in nodeOf ==> c in nodeOf' && nodeOf'[c] == nodeOf[c])
  }

  /** Node k keeps its cell, its g does not rise, and it is untouched if closed. */
  ghost predicate GrowsAt(arena: seq<Node>, arena': seq<Node>, closed: seq<int>, k: int)
    requires 0 <= k < |arena| <= |arena'|
  {
    arena'[k].cell == arena[k].cell && arena'[k].g <= arena[k].g && (k in closed ==> arena'[k] == arena[k])
  }

  lemma ReachedGrows(arena: seq<Node>, arena': seq<Node>, closed: seq<int>, closed': seq<int>,
                     nodeOf: map<Cell, int>, nodeOf': map<Cell, int>, n: Cell, bound: int)
    requires Reached(arena, closed, nodeOf, n, bound)
    requires Grows(arena, arena', closed, nodeOf, nodeOf')
    requires forall k :: k in closed ==> k in closed'
    ensures Reached(arena', closed', nodeOf', n, bound)
  {
    assert GrowsAt(arena, arena', closed, nodeOf[n]);
  }

  lemma FrontierGrows(arena: seq<Node>, arena': seq<Node>, closed: seq<int>, closed': seq<int>,
                      nodeOf: map<Cell, int>, nodeOf': map<Cell, int>, grid: Grid, c: Cell, g: int)
    requires Frontier(arena, closed, nodeOf, grid, c, g)
    requires Grows(arena, arena', closed, nodeOf, nodeOf')
    requires forall k :: k in closed ==> k in closed'
    ensures Frontier(arena', closed', nodeOf', grid, c, g)
  {
    forall n | IsStep(grid, c, n)
      ensures Reached(arena', closed', nodeOf', n, g + 1)
    {
      ReachedGrows(arena, arena', closed, closed', nodeOf, nodeOf', n, g + 1);
    }
  }

  lemma SearchingIsTree(arena: seq<Node>, open: seq<int>, closed: seq<int>, nodeOf: map<Cell, int>,
                        closedCells: set<Cell>, start: Cell, goal: Cell, grid: Grid)
    requires Searching(arena, open, closed, nodeOf, closedCells, start, goal, grid)
    ensures Tree(arena)
  {
    forall k | 0 <= k < |arena| ensures TreeAt(arena, k) {
      assert ScoredAt(arena, goal, k);
      if k > 0 { assert LinkedAt(arena, closed, grid, k); }
    }
  }

  /** The parent walk from any node is a route from start to that node's
      cell, one cell longer than the node's g. */
  lemma {:induction false} PathToIsRoute(arena: seq<Node>, closed: seq<int>, start: Cell, grid: Grid, k: int)
    requires Linked(arena, closed, start, grid) && Tree(arena) && 0 <= k < |arena|
    ensures IsRoute(grid, PathTo(arena, k, start), start, arena[k].cell)
    decreases arena[k].g
  {
    assert TreeAt(arena, k);
    if k > 0 { assert LinkedAt(arena, closed, grid, k); }
    if arena[k].parent != NoParent {
      var p := arena[k].parent;
      PathToIsRoute(arena, closed, start, grid, p);
      ExtendWalk(grid, PathTo(arena, p, start), arena[k].cell);
    } else {
      assert k == 0;
    }
  }

  /** The A* argument: with a consistent heuristic, the open node of lowest f
      has g no larger than the length of any route to its cell. Take the
      first cell of the route that is not closed: it is open with g at most
      its position, and the heuristic drops by at most one per step after it. */
  lemma PopIsOptimal(arena: seq<Node>, open: seq<int>, closed: seq<int>, nodeOf: map<Cell, int>,
                     closedCells: set<Cell>, start: Cell, goal: Cell, grid: Grid, lowest: int)
    requires Searching(arena, open, closed, nodeOf, closedCells, start, goal, grid)
    requires Explored(arena, closed, nodeOf, grid)
    requires 0 <= lowest < |open|
    requires forall i :: 0 <= i < |open| ==> arena[open[lowest]].f <= arena[open[i]].f
    ensures Settled(grid, start, arena[open[lowest]].cell, arena[open[lowest]].g)
  {
    var u := open[lowest];
    var c := arena[u].cell;
    assert nodeOf[c] == u;
    assert c !in closedCells;
    forall w | IsRoute(grid, w, start, c)
      ensures arena[u].g <= |w| - 1
    {
      var j := FirstOutside(w, closedCells);
      var rest := w[j..];
      assert IsWalk(grid, rest) by {
        forall i | 0 <= i < |rest| - 1
          ensures IsStep(grid, rest[i], rest[i + 1])
        {
          assert IsStep(grid, w[j + i], w[j + i + 1]);
        }
      }
      HeuristicAlongWalk(grid, rest, goal);
      var q := OpenOnRoute(arena, open, closed, nodeOf, closedCells, start, goal, grid, w, j);
      assert ScoredAt(arena, goal, u) && ScoredAt(arena, goal, open[q]);
      assert arena[u].f <= arena[open[q]].f;
    }
  }

  /** The first cell of a route from start that is not closed has an open
      node whose g is at most that cell's position on the route. */
  lemma OpenOnRoute(arena: seq<Node>, open: seq<int>, closed: seq<int>, nodeOf: map<Cell, int>,
                    closedCells: set<Cell>, start: Cell, goal: Cell, grid: Grid, w: seq<Cell>, j: int)
      returns (q: int)
    requires Searching(arena, open, closed, nodeOf, closedCells, start, goal, grid)
    requires Explored(arena, closed, nodeOf, grid)
    requires IsWalk(grid, w) && w[0] == start
    requires 0 <= j < |w| && w[j] !in closedCells && forall i :: 0 <= i < j ==> w[i] in closedCells
    ensures 0 <= q < |open| && arena[open[q]].cell == w[j] && arena[open[q]].g <= j
  {
    var m: int;
    if j == 0 {
      assert 0 in open;
      m := 0;
    } else {
      var k := nodeOf[w[j - 1]];
      var i :| 0 <= i < |closed| && closed[i] == k;
      ClosedBoundsPrefix(arena, open, closed, nodeOf, closedCells, start, goal, grid, w, j - 1, i);
      assert IsStep(grid, w[j - 1], w[j]);
      assert Frontier(arena, closed, nodeOf, grid, arena[closed[i]].cell, arena[closed[i]].g);
      assert Reached(arena, closed, nodeOf, w[j], arena[k].g + 1);
      m := nodeOf[w[j]];
    }
    assert m in open;
    q :| 0 <= q < |open| && open[q] == m;
  }

  /** A closed node on a route from start has g at most its position. */
  lemma ClosedBoundsPrefix(arena: seq<Node>, open: seq<int>, closed: seq<int>, nodeOf: map<Cell, int>,
                           closedCells: set<Cell>, start: Cell, goal: Cell, grid: Grid, w: seq<Cell>, p: int, i: int)
    requires Searching(arena, open, closed, nodeOf, closedCells, start, goal, grid)
    requires IsWalk(grid, w) && w[0] == start && 0 <= p < |w|
    requires 0 <= i < |closed| && arena[closed[i]].cell == w[p]
    ensures arena[closed[i]].g <= p
  {
    var prefix := w[..p + 1];
    assert IsWalk(grid, prefix) by {
      forall t | 0 <= t < |prefix| - 1
        ensures IsStep(grid, prefix[t], prefix[t + 1])
      {
        assert IsStep(grid, w[t], w[t + 1]);
      }
    }
    assert IsRoute(grid, prefix, start, w[p]);
    assert Settled(grid, start, arena[closed[i]].cell, arena[closed[i]].g);
  }

  /** When the open list runs out, the closed cells contain start, no step
      leaves them, and the goal is not among them: no route exists. */
  lemma ExhaustedMeansUnreachable(arena: seq<Node>, closed: seq<int>, nodeOf: map<Cell, int>,
                                  closedCells: set<Cell>, start: Cell, goal: Cell, grid: Grid)
    requires Searching(arena, [], closed, nodeOf, closedCells, start, goal, grid)
    requires Explored(arena, closed, nodeOf, grid)
    ensures !Reachable(grid, start, goal)
  {
    forall a, b | a in closedCells && IsStep(grid, a, b)
      ensures b in closedCells
    {
      var k := nodeOf[a];
      var i :| 0 <= i < |closed| && closed[i] == k;
      assert Frontier(arena, closed, nodeOf, grid, arena[closed[i]].cell, arena[closed[i]].g);
      assert Reached(arena, closed, nodeOf, b, arena[k].g + 1);
    }
    assert 0 in closed;
    var i :| 0 <= i < |closed| && closed[i] == 0;
    assert start in closedCells;
    forall w | IsRoute(grid, w, start, goal)
      ensures false
    {
      WalkStaysInside(grid, w, closedCells);
    }
  }

  /** Moving the selected node from open to closed keeps the invariant when
      it is not the goal. */
  lemma CloseNode(arena: seq<Node>, open: seq<int>, closed: seq<int>, nodeOf: map<Cell, int>,
                  closedCells: set<Cell>, start: Cell, goal: Cell, grid: Grid, lowest: int)
    requires Searching(arena, open, closed, nodeOf, closedCells, start, goal, grid)
    requires Explored(arena, closed, nodeOf, grid)
    requires 0 <= lowest < |open|
    requires forall i :: 0 <= i < |open| ==> arena[open[lowest]].f <= arena[open[i]].f
    requires arena[open[lowest]].cell != goal
    ensures arena[open[lowest]].cell !in closedCells
    ensures Searching(arena, open[..lowest] + open[lowest + 1..], closed + [open[lowest]], nodeOf,
                      closedCells + {arena[open[lowest]].cell}, start, goal, grid)
    ensures forall i :: 0 <= i < |closed| ==>
      Frontier(arena, closed + [open[lowest]], nodeOf, grid, arena[closed[i]].cell, arena[closed[i]].g)
  {
    var u := open[lowest];
    var open' := open[..lowest] + open[lowest + 1..];
    var closed' := closed + [u];
    var closedCells' := closedCells + {arena[u].cell};
    PopIsOptimal(arena, open, closed, nodeOf, closedCells, start, goal, grid, lowest);
    assert nodeOf[arena[u].cell] == u;
    CloseIndexed(arena, open, closed, nodeOf, lowest);
    LinkedMoreClosed(arena, closed, closed', start, grid);
    assert forall c :: c in closedCells' <==> c in nodeOf && nodeOf[c] in closed';
    assert forall i :: 0 <= i < |closed'| ==> Settled(grid, start, arena[closed'[i]].cell, arena[closed'[i]].g) by {
      forall i | 0 <= i < |closed'|
        ensures Settled(grid, start, arena[closed'[i]].cell, arena[closed'[i]].g)
      {
        if i < |closed| { assert closed'[i] == closed[i]; }
      }
    }
    forall i | 0 <= i < |closed|
      ensures Frontier(arena, closed', nodeOf, grid, arena[closed[i]].cell, arena[closed[i]].g)
    {
      FrontierGrows(arena, arena, closed, closed', nodeOf, nodeOf, grid, arena[closed[i]].cell, arena[closed[i]].g);
    }
  }

  /** Closing more nodes keeps every parent closed. */
  lemma LinkedMoreClosed(arena: seq<Node>, closed: seq<int>, closed': seq<int>, start: Cell, grid: Grid)
    requires Linked(arena, closed, start, grid)
    requires forall k :: k in closed ==> k in closed'
    ensures Linked(arena, closed', start, grid)
  {
    forall k | 0 < k < |arena|
      ensures LinkedAt(arena, closed', grid, k)
    {
      assert LinkedAt(arena, closed, grid, k);
    }
  }

  /** Moving open[lowest] to the end of the closed list keeps the lists
      disjoint and without repeats, and the index exact. */
  lemma CloseIndexed(arena: seq<Node>, open: seq<int>, closed: seq<int>, nodeOf: map<Cell, int>, lowest: int)
    requires Indexed(arena, open, closed, nodeOf) && 0 <= lowest < |open|
    ensures Indexed(arena, open[..lowest] + open[lowest + 1..], closed + [open[lowest]], nodeOf)
  {
    var u := open[lowest];
    var open' := open[..lowest] + open[lowest + 1..];
    var closed' := closed + [u];
    Splice(open, lowest);
    forall i | 0 <= i < |open'|
      ensures arena[open'[i]].cell in nodeOf && nodeOf[arena[open'[i]].cell] == open'[i]
    {
      if i >= lowest { assert open'[i + 1 - 1] == open[i + 1]; }
    }
    forall i | 0 <= i < |closed'|
      ensures arena[closed'[i]].cell in nodeOf && nodeOf[arena[closed'[i]].cell] == closed'[i]
    {
      if i < |closed| { assert closed'[i] == closed[i]; }
    }
    assert Distinct(closed') by {
      forall i, j | 0 <= i < j < |closed'| ensures closed'[i] != closed'[j] {
        if j == |closed| { assert closed'[i] in closed; }
      }
    }
  }

  /** `openSet.splice(i, 1)` on a list without repeats removes exactly the
      element at i and keeps the order of the rest. */
  lemma Splice(s: seq<int>, i: int)
    requires Distinct(s) && 0 <= i < |s|
    ensures |s[..i] + s[i + 1..]| == |s| - 1
    ensures forall j :: 0 <= j < i ==> (s[..i] + s[i + 1..])[j] == s[j]
    ensures forall j :: i < j < |s| ==> (s[..i] + s[i + 1..])[j - 1] == s[j]
    ensures forall x :: x in s[..i] + s[i + 1..] <==> x in s && x != s[i]
    ensures Distinct(s[..i] + s[i + 1..])
  {
    var t := s[..i] + s[i + 1..];
    forall x ensures x in t <==> x in s && x != s[i] {
      if x in t {
        var j :| 0 <= j < |t| && t[j] == x;
      }
      if x in s && x != s[i] {
        var j :| 0 <= j < |s| && s[j] == x;
        assert t[if j < i then j else j - 1] == x;
      }
    }
  }

  // ---------------------------------------------------------------------
  // The search itself.
  // ---------------------------------------------------------------------

  /** The decrease-key of the source: a strictly smaller g replaces g, f and
      parent; otherwise the node stays as it is. */
  function Improved(node: Node, gScore: int, parent: int): (r: Node)
    ensures r.cell == node.cell && r.h == node.h
    ensures r.g == if gScore < node.g then gScore else node.g
    ensures gScore < node.g ==> r.f == gScore + node.h && r.parent == parent
    ensures gScore >= node.g ==> r == node
  {
    if gScore < node.g then node.(g := gScore, f := gScore + node.h, parent := parent) else node
  }

  /** The body of `neighbors.forEach`: skip a closed cell, add a node for a
      new cell, or lower g, f and parent of the open node of that cell. */
  method Relax(arena: seq<Node>, open: seq<int>, closed: seq<int>, u: int, nb: Cell, goal: Cell, grid: Grid,
               ghost nodeOf: map<Cell, int>, ghost closedCells: set<Cell>, ghost start: Cell)
      returns (arena': seq<Node>, open': seq<int>, ghost nodeOf': map<Cell, int>)
    requires Searching(arena, open, closed, nodeOf, closedCells, start, goal, grid)
    requires u in closed && IsStep(grid, arena[u].cell, nb)
    ensures Searching(arena', open', closed, nodeOf', closedCells, start, goal, grid)
    ensures Grows(arena, arena', closed, nodeOf, nodeOf')
    ensures Reached(arena', closed, nodeOf', nb, arena[u].g + 1)
    ensures nb in closedCells ==> arena' == arena && open' == open
    ensures nb !in nodeOf ==>
      open' == open + [|arena|] &&
      arena' == arena + [Node(nb, arena[u].g + 1, Heuristic(nb, goal), arena[u].g + 1 + Heuristic(nb, goal), u)]
    ensures nb in nodeOf && nb !in closedCells ==>
      open' == open && arena' == arena[nodeOf[nb] := Improved(arena[nodeOf[nb]], arena[u].g + 1, u)]
  {
    LookupMatchesIndex(arena, open, closed, nodeOf, closedCells, start, goal, grid, nb);
    var gScore := arena[u].g + 1;
    if FindNode(arena, closed, nb) >= 0 {
      arena', open', nodeOf' := arena, open, nodeOf;
    } else {
      var pos := FindNode(arena, open, nb);
      if pos < 0 {
        var h := Heuristic(nb, goal);
        arena' := arena + [Node(nb, gScore, h, gScore + h, u)];
        open' := open + [|arena|];
        nodeOf' := nodeOf[nb := |arena|];
      } else {
        var m := open[pos];
        arena' := arena[m := Improved(arena[m], gScore, u)];
        open', nodeOf' := open, nodeOf;
      }
    }
    RelaxKeepsSearching(arena, open, closed, nodeOf, closedCells, start, goal, grid, u, nb, arena', open', nodeOf');
  }

  /** Whichever of its three cases the relaxation step takes, the invariant
      holds afterwards and nb has a node that is closed or no farther than
      one step past u. */
  lemma RelaxKeepsSearching(arena: seq<Node>, open: seq<int>, closed: seq<int>, nodeOf: map<Cell, int>,
                            closedCells: set<Cell>, start: Cell, goal: Cell, grid: Grid, u: int, nb: Cell,
                            arena': seq<Node>, open': seq<int>, nodeOf': map<Cell, int>)
    requires Searching(arena, open, closed, nodeOf, closedCells, start, goal, grid)
    requires u in closed && IsStep(grid, arena[u].cell, nb)
    requires nb in closedCells ==> arena' == arena && open' == open && nodeOf' == nodeOf
    requires nb !in nodeOf ==>
      open' == open + [|arena|] && nodeOf' == nodeOf[nb := |arena|] &&
      arena' == arena + [Node(nb, arena[u].g + 1, Heuristic(nb, goal), arena[u].g + 1 + Heuristic(nb, goal), u)]
    requires nb in nodeOf && nb !in closedCells ==>
      open' == open && nodeOf' == nodeOf &&
      arena' == arena[nodeOf[nb] := Improved(arena[nodeOf[nb]], arena[u].g + 1, u)]
    ensures Searching(arena', open', closed, nodeOf', closedCells, start, goal, grid)
    ensures Grows(arena, arena', closed, nodeOf, nodeOf')
    ensures Reached(arena', closed, nodeOf', nb, arena[u].g + 1)
  {
    if nb in closedCells {
      NothingGrows(arena, closed, nodeOf);
    } else if nb !in nodeOf {
      var gScore := arena[u].g + 1;
      var node := Node(nb, gScore, Heuristic(nb, goal), gScore + Heuristic(nb, goal), u);
      InsertKeepsSearching(arena, open, closed, nodeOf, closedCells, start, goal, grid, node);
    } else {
      ImproveKeepsSearching(arena, open, closed, nodeOf, closedCells, start, goal, grid, u, nodeOf[nb]);
    }
  }

  /** The two `find` calls of the relaxation step agree with the index: the
      first succeeds exactly for closed cells, the second exactly for the
      other cells that have a node. */
  lemma LookupMatchesIndex(arena: seq<Node>, open: seq<int>, closed: seq<int>, nodeOf: map<Cell, int>,
                           closedCells: set<Cell>, start: Cell, goal: Cell, grid: Grid, nb: Cell)
    requires Searching(arena, open, closed, nodeOf, closedCells, start, goal, grid)
    ensures FindNode(arena, closed, nb) >= 0 <==> nb in closedCells
    ensures nb in closedCells ==> Reached(arena, closed, nodeOf, nb, 0)
    ensures nb !in closedCells ==> (FindNode(arena, open, nb) >= 0 <==> nb in nodeOf)
    ensures nb !in closedCells && nb in nodeOf ==> open[FindNode(arena, open, nb)] == nodeOf[nb]
  {
    FindMatchesIndex(arena, closed, nodeOf, nb);
    FindMatchesIndex(arena, open, nodeOf, nb);
  }

  lemma NothingGrows(arena: seq<Node>, closed: seq<int>, nodeOf: map<Cell, int>)
    ensures Grows(arena, arena, closed, nodeOf, nodeOf)
  {
  }

  /** `find` on a list the index covers succeeds exactly for the cells the
      index sends onto that list. */
  lemma FindMatchesIndex(arena: seq<Node>, ids: seq<int>, nodeOf: map<Cell, int>, c: Cell)
    requires Listed(arena, ids, nodeOf)
    requires c in nodeOf ==> 0 <= nodeOf[c] < |arena| && arena[nodeOf[c]].cell == c
    ensures FindNode(arena, ids, c) >= 0 <==> c in nodeOf && nodeOf[c] in ids
    ensures FindNode(arena, ids, c) >= 0 ==> ids[FindNode(arena, ids, c)] == nodeOf[c]
  {
    if c in nodeOf && nodeOf[c] in ids {
      var i :| 0 <= i < |ids| && ids[i] == nodeOf[c];
    }
  }

  /** Adding a node whose parent is closed, one step back and one g more,
      for a cell no listed node has, keeps the invariant. */
  lemma InsertKeepsSearching(arena: seq<Node>, open: seq<int>, closed: seq<int>, nodeOf: map<Cell, int>,
                             closedCells: set<Cell>, start: Cell, goal: Cell, grid: Grid, node: Node)
    requires Searching(arena, open, closed, nodeOf, closedCells, start, goal, grid)
    requires node.cell !in nodeOf && 0 <= node.parent < |arena| && node.parent in closed
    requires IsStep(grid, arena[node.parent].cell, node.cell)
    requires node.g == arena[node.parent].g + 1 && node.h == Heuristic(node.cell, goal) && node.f == node.g + node.h
    ensures Searching(arena + [node], open + [|arena|], closed, nodeOf[node.cell := |arena|], closedCells, start, goal, grid)
    ensures Grows(arena, arena + [node], closed, nodeOf, nodeOf[node.cell := |arena|])
    ensures Reached(arena + [node], closed, nodeOf[node.cell := |arena|], node.cell, node.g)
  {
    var arena' := arena + [node];
    assert ScoredAt(arena, goal, node.parent);
    ScoredAppend(arena, goal, node);
    LinkedAppend(arena, closed, start, grid, node);
    IndexedAppend(arena, open, closed, nodeOf, node);
    FrozenKeepsSettled(arena, arena', closed, start, grid);
    assert node.cell !in closedCells;
    var open', nodeOf' := open + [|arena|], nodeOf[node.cell := |arena|];
    assert Scored(arena', goal);
    assert Linked(arena', closed, start, grid);
    assert Indexed(arena', open', closed, nodeOf');
    assert 0 in open' || 0 in closed;
    assert forall c :: c in closedCells <==> c in nodeOf' && nodeOf'[c] in closed;
    assert forall k :: 0 <= k < |arena'| ==> arena'[k].cell == start || InBounds(grid, arena'[k].cell);
    assert forall i :: 0 <= i < |closed| ==> Settled(grid, start, arena'[closed[i]].cell, arena'[closed[i]].g);
    assert Grows(arena, arena', closed, nodeOf, nodeOf');
    assert Searching(arena', open', closed, nodeOf', closedCells, start, goal, grid);
  }

  lemma ScoredAppend(arena: seq<Node>, goal: Cell, node: Node)
    requires Scored(arena, goal)
    requires node.g >= 0 && node.h == Heuristic(node.cell, goal) && node.f == node.g + node.h
    ensures Scored(arena + [node], goal)
  {
    var arena' := arena + [node];
    forall k | 0 <= k < |arena'|
      ensures ScoredAt(arena', goal, k)
    {
      if k < |arena| { assert ScoredAt(arena, goal, k) && arena'[k] == arena[k]; }
    }
  }

  lemma LinkedAppend(arena: seq<Node>, closed: seq<int>, start: Cell, grid: Grid, node: Node)
    requires Linked(arena, closed, start, grid)
    requires 0 <= node.parent < |arena| && node.parent in closed
    requires arena[node.parent].g + 1 == node.g && IsStep(grid, arena[node.parent].cell, node.cell)
    ensures Linked(arena + [node], closed, start, grid)
  {
    var arena' := arena + [node];
    forall k | 0 < k < |arena'|
      ensures LinkedAt(arena', closed, grid, k)
    {
      if k < |arena| {
        assert LinkedAt(arena, closed, grid, k);
        assert arena'[k] == arena[k] && arena'[arena[k].parent] == arena[arena[k].parent];
      } else {
        assert arena'[node.parent] == arena[node.parent];
      }
    }
  }

  lemma IndexedAppend(arena: seq<Node>, open: seq<int>, closed: seq<int>, nodeOf: map<Cell, int>, node: Node)
    requires Indexed(arena, open, closed, nodeOf) && node.cell !in nodeOf
    ensures Indexed(arena + [node], open + [|arena|], closed, nodeOf[node.cell := |arena|])
  {
    var arena', open', nodeOf' := arena + [node], open + [|arena|], nodeOf[node.cell := |arena|];
    assert Listed(arena', open', nodeOf') by {
      forall i | 0 <= i < |open'|
        ensures 0 <= open'[i] < |arena'| && arena'[open'[i]].cell in nodeOf' && nodeOf'[arena'[open'[i]].cell] == open'[i]
      {
        if i < |open| {
          assert open'[i] == open[i] && arena'[open[i]] == arena[open[i]];
        }
      }
    }
    assert Listed(arena', closed, nodeOf') by {
      forall i | 0 <= i < |closed|
        ensures 0 <= closed[i] < |arena'| && arena'[closed[i]].cell in nodeOf' && nodeOf'[arena'[closed[i]].cell] == closed[i]
      {
        assert arena'[closed[i]] == arena[closed[i]];
      }
    }
    assert Distinct(open') by {
      forall i, j | 0 <= i < j < |open'| ensures open'[i] != open'[j] {
        if j == |open| { assert open'[i] == open[i]; }
      }
    }
    forall c | c in nodeOf'
      ensures (nodeOf'[c] in open' || nodeOf'[c] in closed) && 0 <= nodeOf'[c] < |arena'| && arena'[nodeOf'[c]].cell == c
    {
      if c != node.cell {
        if nodeOf[c] in open {
          var i :| 0 <= i < |open| && open[i] == nodeOf[c];
          assert open'[i] == nodeOf[c];
        }
      } else {
        assert open'[|open|] == |arena|;
      }
    }
  }

  /** Settled facts about closed nodes survive any change that leaves the
      closed nodes as they were. */
  lemma FrozenKeepsSettled(arena: seq<Node>, arena': seq<Node>, closed: seq<int>, start: Cell, grid: Grid)
    requires InArena(arena, closed) && |arena| <= |arena'|
    requires forall k :: 0 <= k < |arena| && k in closed ==> arena'[k] == arena[k]
    requires forall i :: 0 <= i < |closed| ==> Settled(grid, start, arena[closed[i]].cell, arena[closed[i]].g)
    ensures forall i :: 0 <= i < |closed| ==> Settled(grid, start, arena'[closed[i]].cell, arena'[closed[i]].g)
  {
    forall i | 0 <= i < |closed|
      ensures Settled(grid, start, arena'[closed[i]].cell, arena'[closed[i]].g)
    {
      assert arena'[closed[i]] == arena[closed[i]];
    }
  }

  /** Lowering g, f and parent of an open node to a closed neighbour keeps the
      invariant: no node has an open parent, so no child's g goes stale. */
  lemma ImproveKeepsSearching(arena: seq<Node>, open: seq<int>, closed: seq<int>, nodeOf: map<Cell, int>,
                              closedCells: set<Cell>, start: Cell, goal: Cell, grid: Grid, u: int, m: int)
    requires Searching(arena, open, closed, nodeOf, closedCells, start, goal, grid)
    requires m in open && u in closed && IsStep(grid, arena[u].cell, arena[m].cell)
    ensures Searching(arena[m := Improved(arena[m], arena[u].g + 1, u)], open, closed, nodeOf, closedCells, start, goal, grid)
    ensures Grows(arena, arena[m := Improved(arena[m], arena[u].g + 1, u)], closed, nodeOf, nodeOf)
    ensures Reached(arena[m := Improved(arena[m], arena[u].g + 1, u)], closed, nodeOf, arena[m].cell, arena[u].g + 1)
  {
    var arena' := arena[m := Improved(arena[m], arena[u].g + 1, u)];
    assert m !in closed;
    var i :| 0 <= i < |open| && open[i] == m;
    assert nodeOf[arena[m].cell] == m;
    assert ScoredAt(arena, goal, u);
    LinkedImprove(arena, closed, start, grid, u, m);
    SameCellsKeepIndexed(arena, arena', open, closed, nodeOf);
    FrozenKeepsSettled(arena, arena', closed, start, grid);
    ScoredImprove(arena, goal, m, arena[u].g + 1, u);
    assert forall k :: 0 <= k < |arena'| ==> arena'[k].cell == start || InBounds(grid, arena'[k].cell);
    assert Grows(arena, arena', closed, nodeOf, nodeOf);
    assert Searching(arena', open, closed, nodeOf, closedCells, start, goal, grid);
  }

  lemma ScoredImprove(arena: seq<Node>, goal: Cell, m: int, gScore: int, parent: int)
    requires Scored(arena, goal) && 0 <= m < |arena| && gScore >= 0
    ensures Scored(arena[m := Improved(arena[m], gScore, parent)], goal)
  {
    var arena' := arena[m := Improved(arena[m], gScore, parent)];
    forall k | 0 <= k < |arena'|
      ensures ScoredAt(arena', goal, k)
    {
      assert ScoredAt(arena, goal, k);
    }
  }

  lemma LinkedImprove(arena: seq<Node>, closed: seq<int>, start: Cell, grid: Grid, u: int, m: int)
    requires Linked(arena, closed, start, grid) && InArena(arena, closed)
    requires 0 <= m < |arena| && m !in closed && u in closed && IsStep(grid, arena[u].cell, arena[m].cell)
    requires arena[u].g >= 0
    ensures Linked(arena[m := Improved(arena[m], arena[u].g + 1, u)], closed, start, grid)
  {
    var arena' := arena[m := Improved(arena[m], arena[u].g + 1, u)];
    var i :| 0 <= i < |closed| && closed[i] == u;
    forall k | 0 < k < |arena'|
      ensures LinkedAt(arena', closed, grid, k)
    {
      assert LinkedAt(arena, closed, grid, k);
      if k != m {
        assert arena'[k] == arena[k] && arena[k].parent != m;
      } else {
        assert arena'[u] == arena[u];
      }
    }
  }

  lemma SameCellsKeepIndexed(arena: seq<Node>, arena': seq<Node>, open: seq<int>, closed: seq<int>, nodeOf: map<Cell, int>)
    requires Indexed(arena, open, closed, nodeOf)
    requires |arena'| == |arena| && forall k :: 0 <= k < |arena| ==> arena'[k].cell == arena[k].cell
    ensures Indexed(arena', open, closed, nodeOf)
  {
  }

  lemma GrowsTrans(a0: seq<Node>, a1: seq<Node>, a2: seq<Node>, closed: seq<int>,
                   n0: map<Cell, int>, n1: map<Cell, int>, n2: map<Cell, int>)
    requires Grows(a0, a1, closed, n0, n1) && Grows(a1, a2, closed, n1, n2)
    ensures Grows(a0, a2, closed, n0, n2)
  {
    forall k | 0 <= k < |a0|
      ensures GrowsAt(a0, a2, closed, k)
    {
      assert GrowsAt(a0, a1, closed, k) && GrowsAt(a1, a2, closed, k);
    }
  }

  /** `neighbors.forEach(...)`: relax every neighbour of the node u just
      closed, in order. */
  method ExpandNeighbors(arena: seq<Node>, open: seq<int>, closed: seq<int>, u: int, neighbors: seq<Cell>,
                         goal: Cell, grid: Grid, ghost nodeOf: map<Cell, int>, ghost closedCells: set<Cell>,
                         ghost start: Cell)
      returns (arena': seq<Node>, open': seq<int>, ghost nodeOf': map<Cell, int>)
    requires Searching(arena, open, closed, nodeOf, closedCells, start, goal, grid)
    requires u in closed
    requires forall n :: n in neighbors ==> IsStep(grid, arena[u].cell, n)
    ensures Searching(arena', open', closed, nodeOf', closedCells, start, goal, grid)
    ensures Grows(arena, arena', closed, nodeOf, nodeOf')
    ensures forall n :: n in neighbors ==> Reached(arena', closed, nodeOf', n, arena[u].g + 1)
    ensures |arena| <= |arena'| && forall i :: 0 <= i < |closed| ==> arena'[closed[i]] == arena[closed[i]]
  {
    arena', open', nodeOf' := arena, open, nodeOf;
    NothingGrows(arena, closed, nodeOf);
    assert 0 <= u < |arena|;
    for j := 0 to |neighbors|
      invariant Searching(arena', open', closed, nodeOf', closedCells, start, goal, grid)
      invariant Grows(arena, arena', closed, nodeOf, nodeOf')
      invariant forall i :: 0 <= i < j ==> Reached(arena', closed, nodeOf', neighbors[i], arena[u].g + 1)
    {
      assert GrowsAt(arena, arena', closed, u);
      var nb := neighbors[j];
      var a2, o2, n2 := Relax(arena', open', closed, u, nb, goal, grid, nodeOf', closedCells, start);
      forall i | 0 <= i < j + 1
        ensures Reached(a2, closed, n2, neighbors[i], arena[u].g + 1)
      {
        if i < j {
          ReachedGrows(arena', a2, closed, closed, nodeOf', n2, neighbors[i], arena[u].g + 1);
        }
      }
      GrowsTrans(arena, arena', a2, closed, nodeOf, nodeOf', n2);
      arena', open', nodeOf' := a2, o2, n2;
    }
    forall n | n in neighbors
      ensures Reached(arena', closed, nodeOf', n, arena[u].g + 1)
    {
      var i :| 0 <= i < |neighbors| && neighbors[i] == n;
    }
    GrowsKeepsClosed(arena, arena', closed, nodeOf, nodeOf');
  }

  /** Growing leaves every closed node as it was. */
  lemma GrowsKeepsClosed(arena: seq<Node>, arena': seq<Node>, closed: seq<int>,
                         nodeOf: map<Cell, int>, nodeOf': map<Cell, int>)
    requires Grows(arena, arena', closed, nodeOf, nodeOf') && InArena(arena, closed)
    ensures forall i :: 0 <= i < |closed| ==> arena'[closed[i]] == arena[closed[i]]
  {
    forall i | 0 <= i < |closed|
      ensures arena'[closed[i]] == arena[closed[i]]
    {
      assert GrowsAt(arena, arena', closed, closed[i]);
    }
  }

  /** After u is closed and its neighbours relaxed, every closed node again
      has all its steps relaxed: the older ones keep what they had, and u's
      steps are exactly its neighbours. */
  lemma ExpandedIsExplored(arena: seq<Node>, arena': seq<Node>, closed: seq<int>, u: int,
                           nodeOf: map<Cell, int>, nodeOf': map<Cell, int>, grid: Grid)
    requires InArena(arena, closed) && 0 <= u < |arena|
    requires forall i :: 0 <= i < |closed| ==>
      Frontier(arena, closed + [u], nodeOf, grid, arena[closed[i]].cell, arena[closed[i]].g)
    requires Grows(arena, arena', closed + [u], nodeOf, nodeOf')
    requires forall n :: IsStep(grid, arena[u].cell, n) ==> Reached(arena', closed + [u], nodeOf', n, arena[u].g + 1)
    ensures Explored(arena', closed + [u], nodeOf', grid)
  {
    var closed' := closed + [u];
    forall i | 0 <= i < |closed'|
      ensures Frontier(arena', closed', nodeOf', grid, arena'[closed'[i]].cell, arena'[closed'[i]].g)
    {
      var k := closed'[i];
      assert GrowsAt(arena, arena', closed', k);
      if i < |closed| {
        assert k == closed[i];
        FrontierGrows(arena, arena', closed', closed', nodeOf, nodeOf', grid, arena[k].cell, arena[k].g);
      }
    }
  }

  /** `findPath(start, end, gridSize)` of main.js, with the board's obstacle
      set made explicit. The path it returns is a shortest route from start
      to goal; it is empty exactly when no route exists. */
  method FindPath(start: Cell, goal: Cell, grid: Grid) returns (path: seq<Cell>)
    ensures path != [] ==> IsRoute(grid, path, start, goal)
    ensures path != [] ==> forall w :: IsRoute(grid, w, start, goal) ==> |path| <= |w|
    ensures path != [] ==> NoRepeats(path)
    ensures path == [] <==> !Reachable(grid, start, goal)
    ensures start == goal ==> path == [start]
    ensures start != goal && !Passable(grid, goal) ==> path == []
  {
    var h := Heuristic(start, goal);
    var arena := [Node(start, 0, h, 0 + h, NoParent)];
    var open := [0];
    var closed: seq<int> := [];
    ghost var nodeOf := map[start := 0];
    ghost var closedCells: set<Cell> := {};
    ghost var candidates := {start} + BoardCells(grid);
    Started(start, goal, grid);
    while |open| > 0
      invariant Searching(arena, open, closed, nodeOf, closedCells, start, goal, grid)
      invariant Explored(arena, closed, nodeOf, grid)
      invariant closedCells <= candidates
      decreases candidates - closedCells
    {
      var lowest := SelectLowest(arena, open);
      var u := open[lowest];
      if arena[u].cell == goal {
        PopIsOptimal(arena, open, closed, nodeOf, closedCells, start, goal, grid, lowest);
        SearchingIsTree(arena, open, closed, nodeOf, closedCells, start, goal, grid);
        path := Reconstruct(arena, u, start);
        PathToIsRoute(arena, closed, start, grid, u);
        ShortestRouteHasNoRepeats(grid, path, start, goal);
        ShortestRouteCases(grid, path, start, goal);
        return;
      }
      CloseNode(arena, open, closed, nodeOf, closedCells, start, goal, grid, lowest);
      assert arena[u].cell in candidates;
      var c := arena[u].cell;
      open := open[..lowest] + open[lowest + 1..];
      closed := closed + [u];
      closedCells := closedCells + {c};
      var neighbors := GetNeighbors(c, grid);
      ghost var arena0, nodeOf0 := arena, nodeOf;
      arena, open, nodeOf := ExpandNeighbors(arena, open, closed, u, neighbors, goal, grid, nodeOf, closedCells, start);
      ExpandedIsExplored(arena0, arena, closed[..|closed| - 1], u, nodeOf0, nodeOf, grid);
    }
    ExhaustedMeansUnreachable(arena, closed, nodeOf, closedCells, start, goal, grid);
    path := [];
    ShortestRouteCases(grid, path, start, goal);
  }

  /** What the contract of FindPath implies at the edges: a goal equal to the
      start gives `[start]`, and a goal out of bounds or on an obstacle, other
      than the start, gives `[]`. */
  lemma ShortestRouteCases(grid: Grid, path: seq<Cell>, start: Cell, goal: Cell)
    requires path != [] ==> IsRoute(grid, path, start, goal)
    requires path != [] ==> forall w :: IsRoute(grid, w, start, goal) ==> |path| <= |w|
    requires path == [] <==> !Reachable(grid, start, goal)
    ensures start == goal ==> path == [start]
    ensures start != goal && !Passable(grid, goal) ==> path == []
  {
    if start == goal {
      assert IsRoute(grid, [start], start, goal);
    }
    if path != [] && start != goal {
      RouteEndsPassable(grid, path, start, goal);
    }
  }

  /** The state findPath starts from: the start node alone on the open list. */
  lemma Started(start: Cell, goal: Cell, grid: Grid)
    ensures Searching([Node(start, 0, Heuristic(start, goal), Heuristic(start, goal), NoParent)], [0], [],
                      map[start := 0], {}, start, goal, grid)
    ensures Explored([Node(start, 0, Heuristic(start, goal), Heuristic(start, goal), NoParent)], [], map[start := 0], grid)
  {
  }
}
