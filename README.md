# Grid path search of an isometric game, in Dafny

The game is a 10×10 isometric board with obstacles. The player moves to a
clicked tile along a path found by `findPath`, an A* search over the
4-connected grid:

- The open list starts with the start node: g = 0, and h is the Manhattan
  distance to the goal.
- Each round a linear scan with strict `<` picks the open node with the
  lowest f. If it is the goal, the path is rebuilt by following parent
  links.
- Otherwise the node moves from the open list to the closed list. Each
  neighbour that is in bounds and not an obstacle is skipped if closed,
  added if new, or given a lower g, f and parent if the new g is smaller.
- When the open list runs out the result is `[]`.

The search exists twice: in `main.js`, with an obstacle test, and in
`findpath.js`, without one.

The model has five modules:

- `GridGeometry` (`grid.dfy`): cells, the board, steps, walks and routes,
  and the Manhattan heuristic with its consistency.
- `AStar` (`astar.dfy`): the search of `main.js` as one method
  `AStar.FindPath(start, goal, grid)`, whose board carries the obstacle set.
  - Search nodes live in an arena, a sequence of `Node` records. A parent is
    an arena index; -1 stands for the start's `null`.
  - The open and closed lists are sequences of arena indices. `push`,
    `splice` and `find` act on them as in the source, and the in-place
    decrease-key replaces one arena entry.
  - The loop is proved against ghost invariants:
    - every node has f = g + h;
    - every other node has a closed parent one step back, with g one less;
    - no node is on both lists or twice on one, and no cell has two nodes;
    - closed nodes never change and are never reopened;
    - every closed node's g is the length of a shortest route to it, and all
      its steps have been relaxed.
  - From these follow:
    - termination;
    - a non-empty result is a shortest route without repeated cells;
    - `[]` comes back exactly when the goal is unreachable.
- `ObstacleFreePath` (`findpath.dfy`): `findpath.js` as the same search on a
  board without obstacles. When both ends are in bounds, its result has
  exactly |Δx| + |Δy| + 1 cells.
- `Game` (`game.dfy`): the obstacle set filled by `addObstacle` and the
  player's grid cell moved by `onTileClick`.
- `NeighborScores` (`nan_scores.dfy`): the scores the source actually
  computes for neighbour nodes (NaN, see Findings) and the lowest-f scan on
  them.

## Model

| member | source | states |
|---|---|---|
| GridGeometry.Heuristic | main.js:188-190 | the heuristic is a natural number (non-negative) and is zero exactly when the two cells are equal |
| GridGeometry.HeuristicConsistent | findpath.js:8-10 | between adjacent cells the heuristic changes by at most 1 in either direction (consistency) |
| GridGeometry.HeuristicAlongWalk | main.js:188-190 | along any walk the heuristic to a fixed goal drops by at most the number of steps |
| GridGeometry.RouteLowerBound | findpath.js:8-10 | no route between two cells has fewer than Manhattan distance + 1 cells: the heuristic never overestimates |
| GridGeometry.RouteEndsPassable | main.js:198 | a route to a goal other than its start ends on an in-bounds, obstacle-free cell, so a blocked or outside goal is unreachable |
| GridGeometry.ShortestRouteHasNoRepeats | main.js:215-223 | a route that no other route between the same ends beats never visits a cell twice |
| AStar.FindNode | main.js:231-236 | `find` by cell: -1 exactly when no listed node is on the cell, otherwise the first position whose node is on it |
| AStar.SelectLowest | main.js:205-211 | the scan returns a position of minimal f, and every earlier position has a strictly larger f (the earliest minimum wins ties) |
| AStar.NeighborsAreSteps | main.js:192-203 | the cells getNeighbors keeps are exactly the adjacent cells inside the board and off the obstacles |
| AStar.GetNeighbors | main.js:192-203 | the loop over `dirs` returns the kept cells in the order right, left, down, up, and a cell is among them exactly when it is one step away |
| AStar.Reversed | main.js:223 | `reverse()` keeps the length and puts element i at position length-1-i |
| AStar.PathTo | main.js:216-223 | the rebuilt path starts at the start cell and has g + 1 cells |
| AStar.Reconstruct | main.js:215-223 | the parent walk (push cells while there is a parent, push start, reverse) yields exactly PathTo of the goal node |
| AStar.PathToIsRoute | main.js:215-223 | under the parent invariant, the rebuilt path is a route from start to the node's cell |
| AStar.SearchingIsTree | main.js:218-220 | every parent is an arena node with g one less, and a node without parent has g = 0, so the parent walk ends |
| AStar.PopIsOptimal | main.js:205-213 | the open node of lowest f has g no larger than the number of steps of any route from start to its cell (the A* argument with a consistent heuristic) |
| AStar.OpenOnRoute | main.js:229-245 | on any route from start, the first cell that is not closed has an open node whose g is at most its position on the route |
| AStar.ExhaustedMeansUnreachable | main.js:248 | when the open list is empty the goal cannot be reached from start, so `return []` is right |
| AStar.CloseNode | main.js:226-227 | moving the selected non-goal node from open to closed keeps the search invariant, and the node was not closed before (no reopening) |
| AStar.CloseIndexed | main.js:226-227 | after the move the lists are still disjoint and without repeats, and each listed cell still has exactly one node |
| AStar.Splice | main.js:226 | `splice(i, 1)` removes exactly element i, keeps the order of the rest, and keeps the list without repeats |
| AStar.Improved | main.js:240-244 | decrease-key: a strictly smaller g replaces g, sets f = g + h and the parent; otherwise the node is unchanged |
| AStar.Relax | main.js:230-245 | one neighbour: a closed cell changes nothing; a new cell is appended to the arena and the open list with g = current.g + 1, h and f = g + h; an open cell gets the decrease-key; the invariant is kept and the neighbour ends with a node that is closed or has g at most current.g + 1 |
| AStar.RelaxKeepsSearching | main.js:230-245 | each of the three cases of the neighbour step keeps the search invariant, only grows the arena, and leaves the neighbour reached |
| AStar.LookupMatchesIndex | main.js:231-237 | the two `find` calls agree with the ghost index: found in closed exactly when the cell is closed, found in open exactly when it has an open node |
| AStar.FindMatchesIndex | main.js:231-236 | `find` on a list succeeds exactly for the cells whose node is on it, and finds that node |
| AStar.InsertKeepsSearching | main.js:237-239 | appending a node for a new cell, with a closed parent one step back, keeps f = g + h, the parent links, the list invariants and every closed node's optimality |
| AStar.ScoredAppend | main.js:238 | a new node with g >= 0, h = heuristic and f = g + h keeps f = g + h for all nodes |
| AStar.LinkedAppend | main.js:238 | a new node whose parent is closed, one step back and one g less, keeps every parent link valid |
| AStar.IndexedAppend | main.js:239 | pushing the new node on the open list keeps the lists disjoint and without repeats |
| AStar.ImproveKeepsSearching | main.js:240-244 | lowering g, f and parent of an open node to a closed neighbour keeps the search invariant; no child's g goes stale, since no node has an open parent |
| AStar.ScoredImprove | main.js:241-242 | the decrease-key keeps f = g + h |
| AStar.LinkedImprove | main.js:243 | re-parenting an open node to a closed neighbour keeps every parent link valid |
| AStar.ExpandNeighbors | main.js:229-245 | `neighbors.forEach`: after relaxing all neighbours in order the invariant holds, closed nodes are untouched, and every neighbour has a node that is closed or has g at most current.g + 1 |
| AStar.ExpandedIsExplored | main.js:226-245 | after the expansion every closed node, old and new, has all of its steps relaxed |
| AStar.Started | main.js:182-186 | the start node alone on the open list, with g = 0 and f = h, satisfies the invariant |
| AStar.FindPath | main.js:181-249 | a non-empty result is a route from start to goal: it starts and ends there, each step moves to an adjacent in-bounds non-obstacle cell, the start itself is not checked, and no cell repeats. No route is shorter. The result is `[]` exactly when the goal is unreachable, `[start]` when start = goal, and `[]` for a goal other than start that is outside the board or an obstacle. The loop terminates |
| AStar.ShortestRouteCases | main.js:215-224 | from the search's guarantees: start = goal gives `[start]`, and a goal other than start that is outside the board or an obstacle gives `[]` |
| ObstacleFreePath.EmptyBoard | findpath.js:18 | the board of findpath.js: a cell is passable exactly when it is inside [0, gridSize)² |
| ObstacleFreePath.StaircaseIsRoute | findpath.js:12-23 | on that board two in-bounds cells are joined by a route of Manhattan length |
| ObstacleFreePath.ManhattanIsShortest | findpath.js:25-65 | between two in-bounds cells a route exists, and every route has at least abs(Δx) + abs(Δy) + 1 cells |
| ObstacleFreePath.FindPath | findpath.js:1-69 | everything AStar.FindPath promises, on a board without obstacles. When both ends are in bounds the result has exactly abs(Δx) + abs(Δy) + 1 cells. An end outside the board, other than the start, gives `[]` |
| Game.GameState.constructor | main.js:49-76 | the board starts with the eleven obstacles `init` adds, all inside the board, and the player at (0, 0), a free cell |
| Game.GameState.AddObstacle | main.js:101-110 | the cell is added to the obstacle set and nothing else changes |
| Game.GameState.MovePlayerAlongPath | main.js:129-130 | the player's grid cell becomes the last cell of the path, and the obstacles stay |
| Game.GameState.OnTileClick | main.js:133-140 | the player moves to the clicked tile exactly when the tile is reachable from the player's cell, and otherwise stays. Obstacles do not change, and a player on the board stays on it |
| NeighborScores.HeuristicAsWritten | main.js:188-190 | `heuristic` as written: the Manhattan distance when its first argument is an `[x, y]` pair, NaN when it is an `{x, y}` record |
| NeighborScores.NeighborHAsWritten | main.js:238 | the h stored for every neighbour node is NaN, whatever the cell and the goal |
| NeighborScores.NeighborFAsWritten | main.js:238-242 | the f stored for a neighbour node, when it is created and after a decrease-key, is NaN whatever g is |
| NeighborScores.SelectLowestAsWritten | main.js:205-211 | the scan with JavaScript `<` stays at index 0 once the first f is NaN; when all f are numbers it is the earliest minimum |
| NeighborScores.FirstChoiceDiffers | main.js:205-213 | on a concrete 2×2 search the scan as written expands a different node (index 0) than the scan on the intended scores (index 1, the goal) |

## Left out

- The three.js scene, camera, renderer, lights and meshes; mouse raycasting;
  TWEEN animation and the `animate` loop; window resizing; `getGridPosition`.
  These are presentation, floating-point screen geometry and foreign
  libraries. `movePlayerAlongPath` keeps only its grid-cell update.
- The `color` and `castShadow` parameters of `addObstacle`, which only
  style the mesh.
- Obstacle keys: the source keys obstacles by the string `"x,y"`. The model
  uses a set of integer pairs, which is equivalent because the encoding is
  injective on integers.
- The global `obstacles`: it is passed to the search as part of the `Grid`
  value rather than read from a global.
- Coordinates and g values are unbounded integers. The source uses
  JavaScript numbers, which are exact at these magnitudes.
- The loop of findpath.js: it is not modelled separately.
  `ObstacleFreePath.FindPath` runs `AStar.FindPath` on a board without
  obstacles. The two copies differ only in the obstacle test (main.js:198
  against findpath.js:18).
- AStar.FindPath: uses the intended heuristic for neighbour nodes, not the
  NaN scores the source computes (see Findings). The order in which the
  search as written expands nodes, first in first out, is not modelled
  beyond NeighborScores.SelectLowestAsWritten.
- AStar.FindPath: its contract does not say which of several shortest
  routes comes back. That choice is fixed by the tie-break of
  AStar.SelectLowest and the direction order of AStar.GetNeighbors, whose
  contracts state each.
- Game.GameState.OnTileClick: the clicked tile comes from a raycast against
  the tile meshes. The model accepts any cell.

## Findings

| source | as written | input that shows it | evidently intended | confidence | as-written member | corrected member |
|---|---|---|---|---|---|---|
| main.js:238 | `heuristic(neighbor, end)` gets the record `{x, y}` from getNeighbors, whose `[0]` and `[1]` are undefined. Every node but the start gets h = f = NaN. The strict `<` at line 208 is then always false, so the open list is expanded first in, first out | `findPath([0, 0], [0, 1], 2)` on an empty board: after the start, open = [(1, 0), (0, 1)] with f = NaN, NaN. The scan picks (1, 0). With h the Manhattan distance, f = 3, 1 and the goal is picked | h = Manhattan distance from the neighbour's cell to the goal, f = g + h, as for the start node at line 184 | high; not executed | NeighborScores.FirstChoiceDiffers | AStar.PopIsOptimal |
| findpath.js:58 | the same call on the same record: every node but the start gets h = f = NaN, and the scan at lines 27-31 stays at index 0 | `findPath([0, 0], [0, 1], 2)`: the scan picks (1, 0) before the goal (0, 1) | as above | high; not executed | NeighborScores.SelectLowestAsWritten | ObstacleFreePath.FindPath |
