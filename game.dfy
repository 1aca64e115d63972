// The game state of main.js that the search feeds: the obstacle set filled
// by `addObstacle` and the player's grid cell moved by `onTileClick`. The
// scene, the meshes and the movement animation are not modelled.
module Game {
  import opened GridGeometry
  import AStar

  /** `gridSize` of main.js. */
  const GridSize := 10

  /** The cells `init` blocks with `addObstacle`, in the order it calls it. */
  const InitialObstacles: seq<Cell> := [
    Cell(2, 2), Cell(2, 3), Cell(2, 4), Cell(2, 5), Cell(4, 4), Cell(5, 2),
    Cell(5, 4), Cell(6, 6), Cell(7, 6), Cell(8, 6), Cell(9, 6)
  ]

  /** The globals `obstacles` and `playerObj.gridX` / `playerObj.gridY`. */
  class GameState {
    var obstacles: set<Cell>
    var gridX: int
    var gridY: int

    /** The board the search runs on. */
    function Board(): (grid: Grid)
      reads this
      ensures grid.size == GridSize && grid.obstacles == obstacles
    {
      Grid(GridSize, obstacles)
    }

    function Player(): Cell
      reads this
    {
      Cell(gridX, gridY)
    }

    /** The player stands on the board. */
    ghost predicate Valid()
      reads this
    {
      InBounds(Board(), Player())
    }

    /** `init`: the obstacles of main.js:49-59 and the player at (0, 0). */
    constructor ()
      ensures obstacles == set c | c in InitialObstacles
      ensures Player() == Cell(0, 0)
      ensures Valid() && Passable(Board(), Player())
      ensures forall c :: c in obstacles ==> InBounds(Board(), c)
    {
      obstacles := {};
      gridX, gridY := 0, 0;
      new;
      for i := 0 to |InitialObstacles|
        invariant obstacles == set c | c in InitialObstacles[..i]
        invariant gridX == 0 && gridY == 0
      {
        AddObstacle(InitialObstacles[i].x, InitialObstacles[i].y);
        assert InitialObstacles[..i + 1] == InitialObstacles[..i] + [InitialObstacles[i]];
      }
      assert InitialObstacles[..|InitialObstacles|] == InitialObstacles;
    }

    /** `addObstacle(x, y)`: records the cell as blocked; the mesh it adds to
        the scene is not modelled. */
    method AddObstacle(x: int, y: int)
      modifies this
      ensures obstacles == old(obstacles) + {Cell(x, y)}
      ensures gridX == old(gridX) && gridY == old(gridY)
    {
      obstacles := obstacles + {Cell(x, y)};
    }

    /** `movePlayerAlongPath(path)`: after the tweens are set up, the player's
        grid cell becomes the last cell of the path. The source reads
        `path[path.length - 1]`, so it needs a non-empty path. */
    method MovePlayerAlongPath(path: seq<Cell>)
      requires |path| > 0
      modifies this
      ensures Player() == path[|path| - 1]
      ensures obstacles == old(obstacles)
    {
      gridX := path[|path| - 1].x;
      gridY := path[|path| - 1].y;
    }

    /** `onTileClick(tile)`: search from the player's cell to the tile and,
        when a path exists, move there. The player ends on the tile exactly
        when the tile can be reached, and otherwise stays; a player on the
        board stays on it. */
    method OnTileClick(tile: Cell)
      modifies this
      ensures Reachable(old(Board()), old(Player()), tile) ==> Player() == tile
      ensures !Reachable(old(Board()), old(Player()), tile) ==> Player() == old(Player())
      ensures obstacles == old(obstacles)
      ensures old(Valid()) ==> Valid()
    {
      var start := Player();
      var path := AStar.FindPath(start, tile, Board());
      if |path| > 0 {
        MovePlayerAlongPath(path);
        if start != tile {
          RouteEndsPassable(Board(), path, start, tile);
        }
      }
    }
  }
}
