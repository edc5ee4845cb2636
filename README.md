# A* follower on a tile grid, in Dafny

A model of the core of `main.py`, a small game with two agents on a grid of
tiles. The player moves with the direction keys (WASD and the arrows). The
follower plans an A* route towards the player on every ready tick and takes
one step of it. The model covers the pieces below and proves properties of each.

- **The grid** (module `Grid`). It holds the Manhattan metric, `clamp`, the
  tile map with its missing-key default, and solidity. The `World` class
  carries the tile map, which `set_tile` and `load` update. `load` reads the
  map's text lines, skipping comment lines that start with `#`.
- **The planner** (module `Planner`). It holds the A* node, the list scans
  `get_lowest_f`, `node_list_contains` and `get_node_by_coords`, and
  `get_walkable`. It also holds the search loop of `determine_path_to` with
  its invariants, and the parent chain that `backtrace_path` follows.
- **The agents** (module `Agents`). It holds the pixel arithmetic of `goto`,
  `get_x` and `get_y`. The `Player` class has `tick`. The `Follower` class
  has `tick`, `determine_path_to`, `backtrace_path` and `take_step`.

Representation choices:

- Python's node objects become a node arena, `seq<Node>`. A parent is the
  index of an earlier node. The open and closed lists are sequences of
  indices into the arena.
- Nodes are only ever appended, so "an open entry's `g`, `f` and parent never
  change" becomes "the old arena is a prefix of the new one". The open list
  and the closed list are a partition of the arena. Every cell appears in at
  most one node.
- The search takes a ghost `region` of cells. The region holds the start,
  and no walkable step leaves it. Its size bounds the number of nodes, which
  gives the loop a termination measure. The follower passes the inside of a
  box whose border is solid.
- Agent positions are kept as cells. `GotoRoundTrip` proves that reading the
  pixel position back gives the same cell when the screen and tile sizes are
  even.
- Timers are integer milliseconds. The delays are 80 ms for the player and
  100 ms for the follower. Each tick subtracts `1000 / tps` ms.

Behaviour of the code that the model keeps as it is:

- `Player.tick` tests the vertical step first, in the current column. It then
  tests the horizontal step in the row just reached. So a diagonal move
  passes a wall that stands beside the player in the old row
  (`DiagonalPassesCorner`).
- The player's timer is reset only on a ready tick with a key held. An idle
  ready tick leaves the timer as it is.
- A search that never reaches the goal leaves the follower's previous plan in
  place, because `backtrace_path` is the only code in `determine_path_to` that
  writes the path.
- The search never updates an open entry when it finds a cheaper way to it,
  because the "relax" branch only rebinds a local variable. So the model
  proves that the plan is a walkable route of length `g`. It does not prove
  that the route is a shortest one.
- New open entries are appended at the end, so the open list stays in the
  order the nodes were created. `get_lowest_f` keeps the first entry with the
  least `f`, so among equal `f` the oldest node wins (`LowestIsOldest`).
- The root node keeps `h = f = -1`, because `calc_scores` is never called on
  it.

## Model

| member | source | states |
|---|---|---|
| Grid.ManhattanDist | main.py:18-19 | the distance is zero exactly when the two points coincide |
| Grid.DistSymmetric | main.py:18-19 | the Manhattan distance is symmetric |
| Grid.StepChangesDistByOne | main.py:18-19 | one orthogonal step changes the distance to any cell by exactly one |
| Grid.DistTriangle | main.py:18-19 | the Manhattan distance obeys the triangle inequality |
| Grid.Neighbours | main.py:249-252 | the four candidate cells of `get_walkable` are exactly the cells at distance one |
| Grid.Clamp | main.py:3-8 | below the minimum it gives the minimum; at or above the minimum and above the maximum it gives the maximum; a value inside the bounds is returned unchanged; with ordered bounds the result lies between them; the bounds default to 0 and 255 |
| Grid.GetTile | main.py:95-98 | the stored id, or `Unset` (the `(0, 0)` default) for a key never set; stated by `SolidExactlyWalls` |
| Grid.IsSolid | main.py:107-109 | solid exactly for tile id 1; stated by `SolidExactlyWalls` |
| Grid.ClampIdempotent | main.py:3-8 | clamping twice is the same as clamping once |
| Grid.SolidExactlyWalls | main.py:95-98 | a cell is solid exactly when the map holds tile id 1 there; a missing key gives the `(0, 0)` default, which is not solid |
| Grid.InteriorClosed | main.py:247-256 | when the box border is solid, no walkable step leaves the inside of the box |
| Grid.ContentRowsAppend | main.py:70-73 | the non-comment lines of two texts put together are those of each in turn |
| Grid.NextRow | main.py:70-73 | the line kept after skipping comment lines for row `y` is the `y`-th non-comment line, or the empty line past the end of the text |
| Grid.ReadRow | main.py:70-73 | the reads of one row pass (one `readline`, then more while the line is a comment) return the `y`-th non-comment line, or the empty line once the text is used up |
| Grid.World.constructor | main.py:54-66 | a new world has the given size and an empty tile map |
| Grid.World.SetTile | main.py:91-93 | the tile map gains or overwrites exactly one key |
| Grid.World.LoadedStep | main.py:74-75 | storing the next digit extends the loaded region by one cell |
| Grid.World.LoadRow | main.py:74-75 | loading one row succeeds exactly when every column of the box has a digit in that row; then the row's cells hold those digits and the rest of the map is kept |
| Grid.World.Load | main.py:68-76 | `load` succeeds exactly when every cell of the box has a digit; then cell `(x, y)` holds the digit at column `x` of the `y`-th non-comment line, and every other key keeps its value |
| Planner.LowestFFrom | main.py:261-263 | the scan from position `i` ends on a position with minimal `f`, and no earlier position has that `f` |
| Planner.GetLowestF | main.py:258-264 | nothing on an empty list; otherwise a position whose `f` is minimal, and the first such position (the comparison is strict) |
| Planner.NodeListContains | main.py:266-272 | true exactly when some listed node stands on the cell |
| Planner.GetNodeByCoords | main.py:274-279 | the first listed node on the cell, or nothing when no listed node stands there |
| Planner.Node.Coords | main.py:127-128 | the node's cell; used by every list scan and by `Arena` |
| Planner.Node.CalcScores | main.py:130-135 | `h` becomes the Manhattan distance to the target and `f = g + h`; stated as part of `ChildOk` and kept by `AddChild` |
| Planner.NewNode | main.py:113-125 | a node on a cell with `g` zero for a root and one more than its parent's otherwise, `h = f = -1`; stated by `WalkableFacts` and by `Arena` for the root |
| Planner.Walkable | main.py:247-256 | the children `get_walkable` returns; stated by `WalkableFacts` and matched by `GetWalkable` |
| Planner.WalkableAmongFacts | main.py:249-255 | the kept candidates are at most as many as offered; each is non-solid, has the expanded node as parent and `g` one higher; every non-solid candidate is kept |
| Planner.WalkableAmongOrder | main.py:249-255 | among distinct candidate cells, the children come in the order in which their cells were offered |
| Planner.WalkableFacts | main.py:247-256 | at most four children, each adjacent and non-solid, with parent `p` and `g = p.g + 1`, covering every non-solid neighbour, in the order up, left, right, down |
| Planner.GetWalkable | main.py:247-256 | the nested `i`/`j` loops return exactly the children given by the specification function `Walkable` |
| Planner.ArenaCellsCount | main.py:291-310 | nodes on pairwise distinct cells stand on as many cells as there are nodes |
| Planner.ArenaBound | main.py:291-310 | the search never holds more nodes than the region has cells |
| Planner.AscendingRemove | main.py:294 | removing the selected entry keeps the open list in order of creation |
| Planner.AscendingAppendNew | main.py:304 | appending newly created nodes at the end keeps the open list in order of creation |
| Planner.LowestIsOldest | main.py:259-264 | on an open list in order of creation, the entry picked is the oldest of those with the least `f` |
| Planner.SearchBegins | main.py:282-289 | the search starts from a sound state: the unscored root on the start cell, alone on the open list |
| Planner.CloseSelected | main.py:292-294 | closing the selected open entry keeps the lists a partition, and all closed nodes but the new one are expanded and off the goal |
| Planner.GoalJustClosed | main.py:295-297 | when the closed list holds a node on the goal, that node is the one just closed, which is the node backtraced |
| Planner.SearchStep | main.py:298-310 | after the node just closed, which is not the goal, is expanded, the loop invariant holds again |
| Planner.PartitionMove | main.py:292-294 | moving the selected entry from the open list to the closed list keeps every node in exactly one of the two lists |
| Planner.AddChild | main.py:302-304 | appending a new child to the open list keeps the arena well formed, the cells distinct and inside the region, and the open and closed lists a partition |
| Planner.Exhausted | main.py:291-311 | when the open list runs dry without the goal, the cells reached are closed under walkable steps and do not contain the goal |
| Planner.Offering | main.py:299-310 | the arena and open list after offering the children `ws` in turn: skipped when already closed or open, appended scored otherwise; the arena only grows by appending and the lists keep indexing it |
| Planner.OfferingFrom | main.py:299-304 | every node the inner loop appends is one of the offered children, scored against the goal |
| Planner.OfferingOrder | main.py:299-304 | the appended nodes keep the order of the offered children: if their cells increase in some key, so do the appended nodes' cells |
| Planner.OfferingKnown | main.py:299-310 | a child whose cell is already closed or open leaves the arena and the open list unchanged |
| Planner.OfferingFresh | main.py:301-303 | a child on a cell with no node is scored against the goal and appended to the arena, and its index to the open list |
| Planner.Offer | main.py:299-310 | a child whose cell is already closed or already open leaves the arena and the open list exactly as they were (the cheaper-path branch rebinds only a local); any other child is scored against the goal, appended to the arena and its index appended to the open list; the new arena and open list are exactly `Offering` of the children offered so far; either way the arena and the partition stay sound and the child's cell has a node |
| Planner.Expand | main.py:298-310 | the inner loop yields exactly `Offering` of the walkable children of `current`; it only appends to the arena, keeps the old open entries in place and appends the new nodes at the end of the open list; every appended node has `current` as parent, `g` one more than `current`'s, `h` the Manhattan distance to the goal and `f = g + h`, and the new nodes come in the order up, left, right, down; the arena and the partition stay valid and every closed node has all of its walkable neighbours known |
| Planner.ExpandChildren | main.py:298-304 | the nodes one expansion appends have the expanded node as parent, `g` one higher, `h` the Manhattan distance to the goal and `f = g + h`, and come in the order up, left, right, down |
| Planner.Search | main.py:281-311 | on success, the returned node stands on the goal; on failure, the cells reached hold the start, are closed under walkable steps and miss the goal; throughout, the arena has a root on the start and well-formed children on distinct cells |
| Planner.ArenaParentsBefore | main.py:117-124 | every parent was created before its child |
| Planner.Trace | main.py:313-318 | the cells `backtrace_path` collects, goal first, root excluded; stated by `TraceIsPlan` |
| Planner.TraceIsPlan | main.py:313-318 | the backtrace of a node is a plan to its cell: goal first, each cell a step from the next, the last a step from the start, none solid, none the start; it is empty exactly when start and goal coincide; its length is the node's `g` |
| Planner.PlanTail | main.py:313-318 | dropping the first cell of a plan leaves a plan to the next cell |
| Planner.PlanAtLeastDist | main.py:313-318 | a plan is at least as long as the Manhattan distance from start to goal |
| Planner.PlanStaysIn | main.py:291-311 | every cell of a plan lies in any set that holds the start and is closed under walkable steps |
| Planner.NoPlanOutside | main.py:291-311 | a goal outside such a set has no plan at all, so a failed search means no plan exists |
| Agents.PixelX | main.py:153-157 | the pixel x `goto` gives a column; stated by `GotoRoundTrip` |
| Agents.PixelY | main.py:153-157 | the pixel y `goto` gives a row; stated by `GotoRoundTrip` |
| Agents.FloorDiv | main.py:162-166 | Python's floor division `//`, also for the negative divisor of `get_y`; used by `GotoRoundTrip` |
| Agents.TileX | main.py:162-163 | `get_x`; stated by `GotoRoundTrip` |
| Agents.TileY | main.py:165-166 | `get_y`; stated by `GotoRoundTrip` |
| Agents.GotoRoundTrip | main.py:153-166 | `get_x` and `get_y` read back the cell that `goto` set, for even screen and tile sizes |
| Agents.PlayerMove | main.py:204-219 | where a ready tick with a key held puts the player; stated by `PlayerMoveSafe`, `OppositeKeysCancel`, `SlideAlongWall` and `DiagonalPassesCorner`, and used by `Player.Tick` |
| Agents.PlayerMoveSafe | main.py:207-220 | a ready move changes each coordinate by at most one, and ends on the old cell or on a non-solid one |
| Agents.OppositeKeysCancel | main.py:207-214 | holding both keys of an axis leaves that coordinate unchanged |
| Agents.SlideAlongWall | main.py:215-218 | moving down-right with a wall down-right still takes the free vertical step |
| Agents.DiagonalPassesCorner | main.py:215-218 | the horizontal step is tested in the new row, so a wall beside the player in the old row does not stop a diagonal move |
| Agents.Player.constructor | main.py:179-184 | a new player stands on cell `(1, 1)`, where `Entity.__init__` puts it, with no key held and the timer at zero |
| Agents.Player.Goto | main.py:153-157 | the player stands on the given cell |
| Agents.Player.Tick | main.py:203-223 | on a ready tick with a key held, the player moves as `PlayerMove` says and the timer is set to 80 ms; on a ready tick with no key held, nothing changes; otherwise the timer counts down by one tick |
| Agents.StepKeepsContinuing | main.py:320-325 | taking a step along a path that continues from the follower leaves a path that continues from the new cell, and the step is to an adjacent, non-solid cell |
| Agents.Follower.constructor | main.py:228-236 | a new follower stands on cell `(1, 1)` with an empty path and the timer at zero; in a world at least 3 by 3 it starts in the state `Tick` requires and keeps |
| Agents.Follower.Goto | main.py:153-157 | the follower stands on the given cell |
| Agents.Follower.BacktracePath | main.py:313-318 | the path becomes the trace of the given node, goal first, without the root |
| Agents.Follower.DeterminePathTo | main.py:281-311 | when a plan to the goal exists, the path becomes one, lying inside the walled box; when none exists, the path is left as it was |
| Agents.Follower.TakeStep | main.py:320-325 | on a non-empty path, the follower moves to its last cell and that cell alone is removed; on an empty path, nothing changes |
| Agents.Follower.Tick | main.py:238-245 | on a ready tick the follower takes the first step of a plan to the player, or of its old path when no plan exists, and the timer is set to 100 ms; otherwise it counts down; the follower stays inside the box with a continuing path and moves at most one step, never into a wall |

## Left out

- The turtle window, drawing, stamping, colours and the key-binding lambdas are UI code over a graphics library. The key bindings only keep `pressed` as a list of distinct keys, which the model holds as a set.
- `adj_color` and `tile_type` are colour tinting. They use floating point and `random`, and are cosmetic.
- `load` reads its lines from a file. The model takes the lines as a sequence without their line terminators.
- Grid.World.Load: only ASCII digits are accepted. Python's `int` also accepts other Unicode decimal digits. Where Python raises an exception, the model returns `false`.
- Agents.Player.Tick: the timer is in floating-point seconds in the source and in integer milliseconds here, counted down by `1000 / tps`. This matches the driver's 8 ticks per second. Other rates can differ in the number of ticks between moves, because of the truncation here and the binary rounding of `1 / tps` in the source. Above 1000 ticks per second the model's countdown is zero and a waiting agent never moves again, while the source's agent keeps moving.
- Agents.Follower.Tick: the timer is kept in milliseconds as for the player. The method also requires a solid border, for the reason given under `Planner.Search, Agents.Follower.DeterminePathTo`.
- Agents.GotoRoundTrip, Agents.PixelX, Agents.PixelY: require even screen and tile sizes, and the round trip is proved for those only, which the driver's sizes (900, 600 and 30) are. Odd sizes bring float halves into `goto`.
- Planner.Search, Agents.Follower.DeterminePathTo: termination is proved only when a finite set of cells holds the start and no walkable step leaves it. That set is the ghost `region` of `Search`. The follower uses the inside of a box whose border is solid, with the follower inside it, and so requires both. The source's search also ends whenever the goal is reachable, including on open maps, and the model does not cover that case. With the goal unreachable and the start not enclosed, the source's search runs without end.
- The module-level driver is out of scope: the wall-clock loop, click-to-move and the start positions it sets. `toggle_keyset` is also out. It reads `player.keyset`, which is never defined, so it fails whenever it runs.
- Planner.Node.CalcScores and Planner.NewNode build nodes with no promise of their own. What they compute is stated by `AddChild` and the arena invariant.
- Nothing is proved about path length being minimal. The search never relaxes an open entry, so shortest paths are not guaranteed.
