/**
 * The two agents on the grid: the player, moved by held direction keys, and
 * the follower, which re-plans towards the player and takes one step of its
 * plan per ready tick. Positions are kept as cells; the pixel arithmetic of
 * `goto`, `get_x` and `get_y` is given separately with its round trip.
 */
module Agents {
  import opened Wrappers
  import opened Grid
  import opened Planner

  /** Python's `//`: floor division, also for a negative divisor. */
  function FloorDiv(a: int, b: int): int
    requires b != 0
  {
    if b > 0 then a / b else (-a) / (-b)
  }

  lemma MulAtLeastOnce(k: int, b: int)
    requires b > 0
    ensures k >= 1 ==> k * b >= b
    ensures k <= -1 ==> k * b <= -b
  {
  }

  lemma DivOfMultiplePlus(q: int, b: int, r: int)
    requires 0 <= r < b
    ensures (q * b + r) / b == q
  {
    var n := q * b + r;
    var d := n / b;
    assert n == d * b + n % b;
    assert (q - d) * b == n % b - r;
    MulAtLeastOnce(q - d, b);
  }

  /** `goto`: the pixel x of the centre of tile column `tx` (origin at the screen centre). */
  function PixelX(screenWidth: int, tileSize: int, tx: int): int
    requires screenWidth % 2 == 0 && tileSize % 2 == 0
  {
    -(screenWidth / 2) + tileSize / 2 + tx * tileSize
  }

  /** `goto`: the pixel y of the centre of tile row `ty` (y grows upwards on screen). */
  function PixelY(screenHeight: int, tileSize: int, ty: int): int
    requires screenHeight % 2 == 0 && tileSize % 2 == 0
  {
    screenHeight / 2 - tileSize / 2 - ty * tileSize
  }

  /** `get_x`: the tile column under pixel x. */
  function TileX(screenWidth: int, tileSize: int, px: int): int
    requires tileSize > 0
  {
    FloorDiv(px + FloorDiv(screenWidth, 2), tileSize)
  }

  /** `get_y`: the tile row under pixel y. */
  function TileY(screenHeight: int, tileSize: int, py: int): int
    requires tileSize > 0
  {
    FloorDiv(py - FloorDiv(screenHeight, 2), -tileSize)
  }

  /** Reading the position back after `goto` gives the cell that was set. */
  lemma GotoRoundTrip(screenWidth: int, screenHeight: int, tileSize: int, tx: int, ty: int)
    requires screenWidth % 2 == 0 && screenHeight % 2 == 0 && tileSize % 2 == 0 && tileSize > 0
    ensures TileX(screenWidth, tileSize, PixelX(screenWidth, tileSize, tx)) == tx
    ensures TileY(screenHeight, tileSize, PixelY(screenHeight, tileSize, ty)) == ty
  {
    DivOfMultiplePlus(tx, tileSize, tileSize / 2);
    DivOfMultiplePlus(ty, tileSize, tileSize / 2);
    assert PixelX(screenWidth, tileSize, tx) + FloorDiv(screenWidth, 2) == tx * tileSize + tileSize / 2;
    assert -(PixelY(screenHeight, tileSize, ty) - FloorDiv(screenHeight, 2)) == ty * tileSize + tileSize / 2;
  }

  /** Ticks per second of the driving loop. */
  type Rate = n: int | n > 0 witness 1

  /** `MOVE_DELAY` of each agent, in milliseconds. */
  const PlayerMoveDelayMs := 80
  const FollowerMoveDelayMs := 100

  /** The direction keys the player listens to: WASD and the arrows. */
  datatype Key = W | A | S | D | Up | Left | Down | Right

  /** The row the held keys aim at: up and down each count once, and cancel. */
  function TargetY(y: int, pressed: set<Key>): int
  {
    y + (if W in pressed || Up in pressed then -1 else 0) + (if S in pressed || Down in pressed then 1 else 0)
  }

  /** The column the held keys aim at: left and right each count once, and cancel. */
  function TargetX(x: int, pressed: set<Key>): int
  {
    x + (if A in pressed || Left in pressed then -1 else 0) + (if D in pressed || Right in pressed then 1 else 0)
  }

  /**
   * Where a ready tick of `Player.tick` puts the player: first the vertical
   * step, tested in the current column, then the horizontal step, tested in
   * the row reached.
   */
  function PlayerMove(tiles: map<Cell, int>, from: Cell, pressed: set<Key>): Cell
  {
    var ty := TargetY(from.y, pressed);
    var tx := TargetX(from.x, pressed);
    var y := if !SolidAt(tiles, Cell(from.x, ty)) then ty else from.y;
    var x := if !SolidAt(tiles, Cell(tx, y)) then tx else from.x;
    Cell(x, y)
  }

  /**
   * The player moves at most one cell along each axis, and only onto a cell
   * that is not solid.
   */
  lemma PlayerMoveSafe(tiles: map<Cell, int>, from: Cell, pressed: set<Key>)
    ensures var to := PlayerMove(tiles, from, pressed);
      && Abs(to.x - from.x) <= 1 && Abs(to.y - from.y) <= 1
      && (to == from || !SolidAt(tiles, to))
  {
  }

  /** Holding both keys of an axis leaves that coordinate as it was. */
  lemma OppositeKeysCancel(tiles: map<Cell, int>, from: Cell, pressed: set<Key>)
    ensures (W in pressed || Up in pressed) && (S in pressed || Down in pressed) ==>
      PlayerMove(tiles, from, pressed).y == from.y
    ensures (A in pressed || Left in pressed) && (D in pressed || Right in pressed) ==>
      PlayerMove(tiles, from, pressed).x == from.x
  {
  }

  /**
   * Axis separation: moving down-right into a wall on the right of the row
   * below still takes the free vertical step (the player slides along it).
   */
  lemma SlideAlongWall(tiles: map<Cell, int>, from: Cell)
    requires !SolidAt(tiles, Cell(from.x, from.y + 1)) && SolidAt(tiles, Cell(from.x + 1, from.y + 1))
    ensures PlayerMove(tiles, from, {S, D}) == Cell(from.x, from.y + 1)
  {
  }

  /**
   * Because the horizontal step is tested in the row already reached, a
   * diagonal move passes a wall that stands beside the player in the old row.
   */
  lemma DiagonalPassesCorner(tiles: map<Cell, int>, from: Cell)
    requires SolidAt(tiles, Cell(from.x + 1, from.y))
    requires !SolidAt(tiles, Cell(from.x, from.y + 1)) && !SolidAt(tiles, Cell(from.x + 1, from.y + 1))
    ensures PlayerMove(tiles, from, {Down, Right}) == Cell(from.x + 1, from.y + 1)
  {
  }

  /** The player: its cell, the keys held, and the countdown to its next move. */
  class Player {
    const world: World
    const tps: Rate
    var cell: Cell
    var pressed: set<Key>
    var moveTimer: int

    constructor (world: World, tps: Rate)
      ensures this.world == world && this.tps == tps
      ensures cell == Cell(1, 1) && pressed == {} && moveTimer == 0
    {
      this.world := world;
      this.tps := tps;
      cell := Cell(1, 1);
      pressed := {};
      moveTimer := 0;
    }

    /** `goto`: put the player on cell `(tx, ty)`. */
    method Goto(tx: int, ty: int)
      modifies this`cell
      ensures cell == Cell(tx, ty)
    {
      cell := Cell(tx, ty);
    }

    /**
     * `tick`: when the countdown has run out and a key is held, move and
     * restart the countdown; when it has not, count down one tick.
     */
    method Tick()
      modifies this`cell, this`moveTimer
      ensures old(moveTimer) <= 0 && pressed != {} ==>
        cell == PlayerMove(world.tiles, old(cell), pressed) && moveTimer == PlayerMoveDelayMs
      ensures old(moveTimer) <= 0 && pressed == {} ==> cell == old(cell) && moveTimer == old(moveTimer)
      ensures old(moveTimer) > 0 ==> cell == old(cell) && moveTimer == old(moveTimer) - 1000 / tps
    {
      if moveTimer <= 0 {
        if pressed != {} {
          var tx, ty := cell.x, cell.y;
          if W in pressed || Up in pressed {
            ty := ty - 1;
          }
          if A in pressed || Left in pressed {
            tx := tx - 1;
          }
          if S in pressed || Down in pressed {
            ty := ty + 1;
          }
          if D in pressed || Right in pressed {
            tx := tx + 1;
          }
          assert ty == TargetY(old(cell).y, pressed) && tx == TargetX(old(cell).x, pressed);
          if !IsSolid(GetTile(world.tiles, Cell(cell.x, ty))) {
            cell := Cell(cell.x, ty);
          }
          if !IsSolid(GetTile(world.tiles, Cell(tx, cell.y))) {
            cell := Cell(tx, cell.y);
          }
          moveTimer := PlayerMoveDelayMs;
        }
      } else {
        moveTimer := moveTimer - 1000 / tps;
      }
    }
  }

  /** Some plan leads from `start` to `goal`. */
  ghost predicate HasPlan(tiles: map<Cell, int>, start: Cell, goal: Cell)
  {
    exists path :: IsPlan(tiles, start, goal, path)
  }

  /**
   * A path the follower can keep consuming from `from`: its last cell is a
   * step from `from`, each cell a step from the next, none solid.
   */
  ghost predicate Continues(tiles: map<Cell, int>, from: Cell, path: seq<Cell>)
  {
    && (|path| > 0 ==> Adjacent(path[|path| - 1], from))
    && (forall k :: 0 < k < |path| ==> Adjacent(path[k - 1], path[k]))
    && (forall k :: 0 <= k < |path| ==> !SolidAt(tiles, path[k]))
  }

  /** `take_step` on `path` from `from`: the cell reached and the path left. */
  ghost predicate StepAlong(from: Cell, path: seq<Cell>, cell: Cell, rest: seq<Cell>)
  {
    if |path| == 0 then cell == from && rest == path
    else cell == path[|path| - 1] && rest == path[..|path| - 1]
  }

  /**
   * Taking a step keeps a continuing path continuing, and the step is to an
   * adjacent cell or none at all.
   */
  lemma StepKeepsContinuing(tiles: map<Cell, int>, from: Cell, path: seq<Cell>, cell: Cell, rest: seq<Cell>)
    requires Continues(tiles, from, path) && StepAlong(from, path, cell, rest)
    ensures Continues(tiles, cell, rest)
    ensures cell == from || (Adjacent(from, cell) && !SolidAt(tiles, cell))
  {
    if |path| > 0 {
      DistSymmetric(from, cell);
    }
  }

  /** The follower: its cell, its countdown, its current plan and whom it follows. */
  class Follower {
    const world: World
    const target: Player
    const tps: Rate
    var cell: Cell
    var moveTimer: int
    var path: seq<Cell>

    constructor (target: Player, world: World, tps: Rate)
      ensures this.target == target && this.world == world && this.tps == tps
      ensures cell == Cell(1, 1) && moveTimer == 0 && path == []
      ensures world.width >= 3 && world.height >= 3 ==> Valid()
    {
      this.target := target;
      this.world := world;
      this.tps := tps;
      cell := Cell(1, 1);
      moveTimer := 0;
      path := [];
    }

    /** `goto`: put the follower on cell `(tx, ty)`. */
    method Goto(tx: int, ty: int)
      modifies this`cell
      ensures cell == Cell(tx, ty)
    {
      cell := Cell(tx, ty);
    }

    /**
     * The follower stands inside the walled box, and its stored plan lies
     * inside it and continues from where it stands.
     */
    ghost predicate Valid()
      reads this, world
    {
      && cell in Interior(world.width, world.height)
      && (forall c :: c in path ==> c in Interior(world.width, world.height))
      && Continues(world.tiles, cell, path)
    }

    /**
     * `backtrace_path`: replace the plan by the cells from node `node` back
     * to, and not including, the root.
     */
    method BacktracePath(nodes: seq<Node>, node: nat)
      requires ParentsBefore(nodes) && node < |nodes|
      modifies this`path
      ensures path == Trace(nodes, node)
    {
      path := [];
      var n: nat := node;
      while nodes[n].parent.Some?
        invariant n < |nodes|
        invariant path + Trace(nodes, n) == Trace(nodes, node)
        decreases n
      {
        path := path + [nodes[n].Coords()];
        n := nodes[n].parent.value;
      }
    }

    /**
     * `determine_path_to`: search from the follower's cell to `goal`; when
     * the goal is reached, the plan becomes the backtrace of the goal node;
     * when the search runs dry, the old plan stays.
     */
    method DeterminePathTo(goal: Cell)
      requires BorderSolid(world.tiles, world.width, world.height)
      requires cell in Interior(world.width, world.height)
      modifies this`path
      ensures HasPlan(world.tiles, cell, goal) ==> IsPlan(world.tiles, cell, goal, path)
      ensures HasPlan(world.tiles, cell, goal) ==> forall c :: c in path ==> c in Interior(world.width, world.height)
      ensures !HasPlan(world.tiles, cell, goal) ==> path == old(path)
    {
      InteriorClosed(world.tiles, world.width, world.height);
      var found, nodes := Search(world.tiles, cell, goal, Interior(world.width, world.height));
      if found.Some? {
        TraceIsPlan(world.tiles, nodes, cell, goal, found.value);
        BacktracePath(nodes, found.value);
      } else {
        forall p: seq<Cell>
          ensures !IsPlan(world.tiles, cell, goal, p)
        {
          NoPlanOutside(world.tiles, ArenaCells(nodes), cell, goal, p);
        }
      }
    }

    /** `take_step`: jump to the last cell of the plan and drop it; nothing on an empty plan. */
    method TakeStep()
      modifies this`cell, this`path
      ensures StepAlong(old(cell), old(path), cell, path)
    {
      if |path| > 0 {
        var coords := path[|path| - 1];
        cell := coords;
        path := path[..|path| - 1];
      }
    }

    /**
     * `tick`: when the countdown has run out, re-plan towards the player,
     * take one step and restart the countdown; otherwise count down. The
     * follower never moves more than one cell per tick, and never into a wall.
     */
    method Tick()
      requires BorderSolid(world.tiles, world.width, world.height) && Valid()
      modifies this`cell, this`path, this`moveTimer
      ensures Valid()
      ensures cell == old(cell) || (Adjacent(old(cell), cell) && !SolidAt(world.tiles, cell))
      ensures old(moveTimer) > 0 ==>
        cell == old(cell) && path == old(path) && moveTimer == old(moveTimer) - 1000 / tps
      ensures old(moveTimer) <= 0 ==> moveTimer == FollowerMoveDelayMs
      ensures old(moveTimer) <= 0 && HasPlan(world.tiles, old(cell), target.cell) ==>
        exists plan :: IsPlan(world.tiles, old(cell), target.cell, plan) && StepAlong(old(cell), plan, cell, path)
      ensures old(moveTimer) <= 0 && !HasPlan(world.tiles, old(cell), target.cell) ==>
        StepAlong(old(cell), old(path), cell, path)
    {
      if moveTimer <= 0 {
        ghost var from := cell;
        DeterminePathTo(target.cell);
        ghost var plan := path;
        assert Continues(world.tiles, from, plan);
        TakeStep();
        StepKeepsContinuing(world.tiles, from, plan, cell, path);
        moveTimer := FollowerMoveDelayMs;
      } else {
        moveTimer := moveTimer - 1000 / tps;
      }
    }
  }
}
