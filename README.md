# Trajectory planning and tiles, modelled in Dafny

This project models how an agent (an NPC) in the city simulation moves across the tile map.

- **Tiles** (`code/src/generation/tile.h`) are the cells of the map. Each has integer
  coordinates and four exit flags (`gou`, `god`, `gor`, `gol`). It also holds a speed
  factor, the lists of NPCs and objects standing on it, and a handle to the search node
  (`TileWrapper`) of the query that is running.
- **Trajectory** (`code/src/simulation/trajectory.cc`) keeps a list of waypoints: the
  current position first, the target last. Planning (`pathfinding`) replaces the list.
  It runs a uniform-cost search, a Dijkstra search in which every step costs one, over
  the graph that the exit flags define. It rebuilds the route from parent links, puts the
  centre of every intermediate tile between the start and target positions, and then
  resets the tiles' handles. Each `update` moves the current position a given distance
  towards the next waypoint. It drops that waypoint once the new position is within half
  that distance of it, and marks the agent arrived when no waypoint is left.

Files:

- `wrappers.dfy`: the `Option` type. It models the nullable `TileWrapper*`.
- `tile.dfy`, module `Tiles`: the `Coordinates` value, the `Tile` class, and the map
  `Geography`, a `map<Coordinates, Tile>`. It also defines the tile graph: `Neighbourhood`,
  `Step`, `IsPath`, `Reachable`.
- `position.dfy`, module `Positions`: positions in tile units, the tile a position lies
  in (`TileOf`), tile centres, and the waypoint list of a route (`Waypoints`).
- `search.dfy`, module `Search`: the search nodes and the invariant of the search loop.
  This includes the shortest-route argument: the first node of the target tile that leaves
  the queue is at the distance of a shortest route.
- `trajectory.dfy`, module `Trajectories`: the `Trajectory` class and its operations.

How the model represents the search:

- Search nodes live in an arena, a `seq<TileWrapper>` indexed by slot. Slot 0 is the start
  node and slot 1 the target node. A tile's `wrapper` field holds the slot of its node, or
  `None`.
- The priority queue is a `multiset` of slots. Its top is any element of least distance,
  chosen with `:|`.
- The closed list is a `seq` of slots, the most recently closed first.
- The methods that change tiles carry a ghost copy of the exit flags (`topo`) and of the
  handles (`wm`). The predicates `ExitsAre`/`HandlesAre` tie each copy to the heap.

`GetPosList`, `GetHasArrived`, `GetPosition` and the `Tile` getters are plain field reads.
They are modelled as functions without contracts.

## Model

| member | source | states |
|---|---|---|
| Tiles.Coordinates.SetAbs | code/src/generation/tile.h:62-66 | the abscissa becomes the argument and the ordinate is unchanged |
| Tiles.Coordinates.SetOrd | code/src/generation/tile.h:73-77 | the ordinate becomes the argument and the abscissa is unchanged |
| Tiles.Coordinates.Equals | code/src/generation/tile.h:79-84 | true exactly when abscissa and ordinate are both equal, i.e. the values are equal |
| Tiles.Tile.constructor | code/src/generation/tile.h:179-201 | the new tile has the given coordinates, type, exit flags and speed, and (assumed, the body not being in this model) empty NPC and object lists and no handle |
| Tiles.Tile.SetGou | code/src/generation/tile.h:224 | the flag reads back as set; only that field may change |
| Tiles.Tile.SetGod | code/src/generation/tile.h:226 | the flag reads back as set; only that field may change |
| Tiles.Tile.SetGor | code/src/generation/tile.h:228 | the flag reads back as set; only that field may change |
| Tiles.Tile.SetGol | code/src/generation/tile.h:230 | the flag reads back as set; only that field may change |
| Tiles.Tile.SetSpeed | code/src/generation/tile.h:232 | the speed reads back as set; only that field may change |
| Tiles.Tile.SetCoord | code/src/generation/tile.h:241 | the coordinates read back as set; only that field may change |
| Tiles.Tile.Equals | code/src/generation/tile.h:283-288 | two tiles are equal exactly when their coordinates are |
| Tiles.Tile.SetWrapper | code/src/generation/tile.h:296-301 | the handle reads back as the one given; only that field may change |
| Tiles.Tile.ResetWrapper | code/src/generation/tile.h:303-307 | the handle becomes null; only that field may change |
| Tiles.Tile.AddNPC | code/src/generation/tile.h:251-256 | the NPC is on the tile afterwards, and the list gains exactly one occurrence of it |
| Tiles.Tile.RemoveNPC | code/src/generation/tile.h:258-263 | the NPC is no longer on the tile, and every other NPC keeps its occurrences |
| Tiles.Tile.AddStuff | code/src/generation/tile.h:270 | the object is on the tile afterwards, and the list gains exactly one occurrence of it |
| Tiles.Tile.RemoveStuff | code/src/generation/tile.h:271 | the object is no longer on the tile, and every other object keeps its occurrences |
| Tiles.Tile.NeighbourTiles | code/src/generation/tile.h:336-341 | a tile of the map is in the result exactly when an exit flag of this tile leads to its coordinates |
| Tiles.Tile.TilesInRadius | code/src/generation/tile.h:343-349 | a tile of the map is in the result exactly when its infinity-norm distance to this tile is at most r |
| Tiles.NeighboursWithinRadiusOne | code/src/generation/tile.h:336-349 | every one-step neighbour lies within radius 1 |
| Tiles.RadiusMonotonic | code/src/generation/tile.h:343-349 | a larger radius takes in every tile a smaller one does |
| Tiles.RadiusZero | code/src/generation/tile.h:343-349 | radius 0 yields exactly the tile itself |
| Tiles.Neighbourhood | code/src/simulation/trajectory.cc:87-99 | the exit tiles of a tile: at most four, each at infinity-norm distance 1 from it |
| Tiles.SetTileWrapper | code/src/simulation/trajectory.cc:67-72 | attaching a node to one tile changes that tile's handle and no other, and no exit flag |
| Tiles.ResetTileWrapper | code/src/simulation/trajectory.cc:128 | resetting one tile's handle clears that handle and no other, and no exit flag |
| Positions.TileOfCentre | code/src/simulation/trajectory.cc:120 | the waypoint made from a tile lies in that tile |
| Positions.WaypointTiles | code/src/simulation/trajectory.cc:116-123 | the rebuilt list has one waypoint per tile of the route, the i-th inside the i-th tile |
| Search.TopExists | code/src/simulation/trajectory.cc:78 | a non-empty queue has an element of least distance |
| Search.InitialInv | code/src/simulation/trajectory.cc:64-72 | start node open at distance 0 and queued, target node attached: the loop invariant holds with nothing closed |
| Search.NoRelaxation | code/src/simulation/trajectory.cc:40-45 | while a node is expanded, every open unclosed node already has distance at most its distance + 1 |
| Search.ExploreTarget | code/src/simulation/trajectory.cc:46-50 | the only node reached that is not yet open is the target node; opening and queuing it keeps the invariant |
| Search.ExploreKeepsExpanding | code/src/simulation/trajectory.cc:37-52 | exploring an existing node keeps the expansion invariant and reaches that exit |
| Search.FreshKeepsExpanding | code/src/simulation/trajectory.cc:107-110 | wrapping a tile first seen in a new node, then exploring it, keeps the invariant and reaches that exit |
| Search.ExitKeepsExpanding | code/src/simulation/trajectory.cc:101-111 | one pass of the inner loop keeps the expansion invariant |
| Search.ExitKeepsShape | code/src/simulation/trajectory.cc:101-111 | one pass of the inner loop closes no node, moves no node and only appends |
| Search.CloseTop | code/src/simulation/trajectory.cc:84-85 | closing the popped node, when it is not the target, starts its expansion and adds its tile to the closed tiles |
| Search.ClosingShrinks | code/src/simulation/trajectory.cc:77 | adding a tile of the map that was not yet closed to the closed tiles lowers the loop's termination measure (the tiles of the map not yet closed); that each non-final pass closes such a tile is the ensures of `SearchStep` |
| Search.FrontierMeetsRoute | code/src/simulation/trajectory.cc:77-113 | along any route to the target from a reached tile, some queued node is no farther than the route is long |
| Search.FoundTarget | code/src/simulation/trajectory.cc:80-82 | the first node of the target tile to be popped is at the distance of a shortest route from the start |
| Search.EmptyQueueUnreachable | code/src/simulation/trajectory.cc:77-114 | if the queue empties before the target is popped, no route reaches it |
| Search.SearchEndState | code/src/simulation/trajectory.cc:114-135 | when the goal is popped, its parent links lead to the start node at shortest-route length, and every handle except the target's names a queued or closed node off the target tile |
| Search.ReleaseOne | code/src/simulation/trajectory.cc:125-135 | resetting the tile of one queued or closed node keeps the clean-up on track |
| Trajectories.TraceStep | code/src/simulation/trajectory.cc:117-121 | following the parent of a node other than the start node extends the route backwards by one legal step and lowers the distance |
| Trajectories.PlannedWaypointsOnRoute | code/src/simulation/trajectory.cc:116-123 | a planned list has one waypoint per route tile, each inside its tile; it holds one entry exactly when start and target share a tile |
| Trajectories.Advance | code/src/simulation/trajectory.cc:161-185 | the current position moves towards the next waypoint; the waypoints ahead are unchanged, or lose their first entry |
| Trajectories.TickKeepsValid | code/src/simulation/trajectory.cc:159-187 | an update keeps the list non-empty and keeps "arrived" equal to "no waypoint left" |
| Trajectories.TickKeepsWaypoints | code/src/simulation/trajectory.cc:159-187 | an update never adds or reorders waypoints: at most the next one is dropped |
| Trajectories.ArrivedStaysPut | code/src/simulation/trajectory.cc:159-187 | once arrived, an update changes nothing; before that, the position moves towards the next waypoint |
| Trajectories.Run | code/src/simulation/trajectory.cc:159-187 | any sequence of updates keeps the trajectory consistent |
| Trajectories.RunFollowsPlan | code/src/simulation/trajectory.cc:159-187 | along any sequence of updates the waypoints still ahead are a suffix of the planned ones, and arrival is final |
| Trajectories.StaleTargetHandle | code/src/simulation/trajectory.cc:125-135 | the handle the clean-up leaves on the target tile breaks the next query's need for a map without handles |
| Trajectories.StaleNodeQueuesNothing | code/src/simulation/trajectory.cc:38-43 | an open, unclosed node at most one step beyond the expanded node is neither improved nor queued, wherever it came from |
| Trajectories.StaleNodeEmptiesQueue | code/src/simulation/trajectory.cc:79-114 | in the second query on the strip A-B-C, exploring B's leftover open node from A leaves the queue empty and the target node unreached, so the loop ends without finding it |
| Trajectories.Trajectory.Pop | code/src/simulation/trajectory.cc:78-79 | the popped node has the least distance in the queue, and exactly one copy of it leaves the queue |
| Trajectories.Trajectory.Explore | code/src/simulation/trajectory.cc:37-52 | a closed node is untouched; an open one only has its distance lowered to d(z)+1 and its parent set; a new one is opened at d(z)+1 with parent z and queued once; no other node changes |
| Trajectories.Trajectory.ExploreExit | code/src/simulation/trajectory.cc:101-111 | a tile with a node has it explored; a tile without one gets a new node in the next slot, attached to it, which is then explored |
| Trajectories.Trajectory.ExpandNeighbours | code/src/simulation/trajectory.cc:87-111 | after every exit of the closed node is explored, each exit tile has a node at most one step farther, and the loop invariant holds again |
| Trajectories.Trajectory.SearchStep | code/src/simulation/trajectory.cc:77-113 | one pass of the main loop either finds the goal at shortest-route distance, or keeps the invariant and closes one more tile |
| Trajectories.Trajectory.StartSearch | code/src/simulation/trajectory.cc:64-72 | the start node is queued at distance 0, the target node is attached to its tile, and the loop invariant holds |
| Trajectories.Trajectory.FindGoal | code/src/simulation/trajectory.cc:61-114 | when the target can be reached, the loop ends with the goal popped, of the target tile, at the distance of a shortest route |
| Trajectories.Trajectory.Reconstruct | code/src/simulation/trajectory.cc:116-123 | the parent chain of the goal is a legal route from the start tile of length d(goal)+1, and the list is its waypoints |
| Trajectories.Trajectory.ReleaseTop | code/src/simulation/trajectory.cc:125-129 | popping one queued node and resetting its tile keeps the clean-up on track |
| Trajectories.Trajectory.ReleaseQueued | code/src/simulation/trajectory.cc:125-129 | after the first clean-up loop, only handles of closed nodes and the target's remain |
| Trajectories.Trajectory.ReleaseClosed | code/src/simulation/trajectory.cc:131-135 | after the second clean-up loop, only the target tile's handle remains |
| Trajectories.Trajectory.ReleaseNodes | code/src/simulation/trajectory.cc:125-135 | clean-up as written: every handle is null except the target tile's, which still names the goal |
| Trajectories.Trajectory.Clear | code/src/simulation/trajectory.cc:125-135 | corrected clean-up: every tile of the map is left without a handle |
| Trajectories.Trajectory.Finish | code/src/simulation/trajectory.cc:114-135 | once the goal is found, the list is the waypoints of a shortest route and, with the corrected clean-up (`Clear`) in place of lines 125-135, no tile keeps a handle |
| Trajectories.Trajectory.Plan | code/src/simulation/trajectory.cc:54-137 | the list is the waypoints of a shortest route between the start and target tiles, and, with the corrected clean-up (`Clear`) in place of lines 125-135, the map is left without handles |
| Trajectories.Trajectory.Pathfinding | code/src/simulation/trajectory.cc:54-137 | the list's first and last entries are replaced by the waypoints of a shortest route between their tiles, and the map is left without handles |
| Trajectories.Trajectory.Default | code/src/simulation/trajectory.cc:10-19 | two default positions (assumed to be the origin), not arrived |
| Trajectories.Trajectory.constructor | code/src/simulation/trajectory.cc:21-28 | as written: the planned list of a shortest route, never arrived, so the trajectory is consistent exactly when start and target lie in different tiles; no tile keeps a handle afterwards, which holds of the corrected clean-up it plans with |
| Trajectories.Trajectory.FromTo | code/src/simulation/trajectory.cc:21-28 | corrected: the planned list of a shortest route, arrived exactly when start and target share a tile, always consistent |
| Trajectories.Trajectory.Copy | code/src/simulation/trajectory.cc:30-34 | the same waypoints and arrival flag as the original |
| Trajectories.Trajectory.SetPosition | code/src/simulation/trajectory.cc:149-153 | the front of the list is replaced; the waypoints ahead and consistency are kept |
| Trajectories.Trajectory.Update | code/src/simulation/trajectory.cc:159-187 | the new list and flag are one Tick of the old ones over distance dt*speed; a consistent trajectory stays consistent |

## Left out

- Floating-point arithmetic: positions are pairs of `real`. The straight-line step of
  `update` depends on `sqrt`, `pow`, normalisation and `Position::add`. It is the
  parameter `advance`, and `Position::distance` is the parameter `distance`. Their
  numerical behaviour is not modelled.
- `update` takes an `sf::Time` and a map. The time enters as the real number `dt` in
  seconds, and `speed` as a real number. The map parameter is unused and is dropped.
- `code/src/simulation/position.h` is not part of this model. `isInTile` is modelled as
  the floor of each coordinate (`TileOf`), with the requirement that the tile is on the
  map. `Position(tile)` is modelled as the tile's centre (`Centre`, +0.5 on each axis).
- `code/src/simulation/tilewrapper.h` is not part of this model. The `TileWrapper`
  constructor is assumed to attach the new node to its tile (as `setWrapper`), unopened,
  unclosed and without parent. `equals` between nodes is assumed to compare their tiles.
  The queue order is assumed to put the least distance on top; ties are broken by any
  choice of least element.
- The order of push and update in `explore` is not modelled. At trajectory.cc:45 a new
  node is pushed onto the `std::priority_queue` before lines 46-48 open it and set its
  distance to d(z)+1. The queue places the node by the distance it holds at the push,
  which is the `TileWrapper` constructor's default, and never re-places it. The model's
  `Explore` queues the node and sets its distance in one step. So `FoundTarget`,
  `FindGoal`, `Plan` and `Pathfinding` prove a shortest route under a condition on code
  not in this model: the default distance is at least d(z)+1 for every expanded z (for
  example, a default of "infinity"). With a default of 0 the new node would come out
  before nodes still at d(z). Lines 40-43 raise no such question: `Search.NoRelaxation`
  proves that an open, unclosed node already has distance at most d(z)+1, so the
  branch that would change a queued node's distance never fires.
- The tile copy at trajectory.cc:102 is modelled with its evident intent: the node is
  attached to the map's own tile, not to a local copy. The copy constructor of `Tile` is
  not part of this model. Whether a copy shares the handle, and what becomes of a node
  attached to a copy, is not captured.
- trajectory.cc:97 calls `getGoh`, which tile.h does not declare. The model reads the
  fourth flag `god` with the offset used at line 98, (abs+1, ord). tile.h's doc comments
  describe other directions for the flags; the model follows the offsets the pathfinder
  uses.
- Memory management: the nodes made with `new`, the deletion inside `resetWrapper`, and
  the dangling parent pointers are not modelled. Nodes are arena slots, and a reset
  handle is `None`.
- Trajectories.Trajectory.Pathfinding: it requires the target to be reachable. This
  mirrors the source's `assert(found)`; the path the source takes when the assert is
  compiled out is not modelled. It also requires that no tile holds a handle. The
  corrected clean-up re-establishes that condition for the next query.
- `Geography` is modelled as a map from coordinates to tiles (`getTile(abs, ord)` is a
  map lookup). The tiles are required to sit under their own coordinates, and no exit may
  lead off the map.
- The `Tile` fields unrelated to planning (sprite, texture, `destructible`, anxiety,
  population density, building origin and size `widthBat`/`heightBat`, `filePictures`,
  `picture`, borough, `alpha`, `fog`, `buildfog`) and their accessors are not modelled;
  the matching constructor parameters are dropped as well.
  `getNPCsInRadius` and the other map queries are left out as well.
- NPC and object pointers are modelled as opaque identities (`nat`).
- Tiles.Coordinates.SetAbs: `getCoord()` (tile.h:240) returns a reference, so `setAbs` and
  `setOrd` on it change the tile in place. The model's `Coordinates` is a value, and
  `SetAbs`/`SetOrd` return a changed copy; changing a tile's coordinates goes through
  `Tiles.Tile.SetCoord`. The same holds for Tiles.Coordinates.SetOrd.
- Tiles.Coordinates.SetOrd: see SetAbs; the aliasing through the returned reference is not
  captured.
- Trajectories.Advance: when the agent stands exactly on the next waypoint, the division
  by the zero norm at trajectory.cc:169-171 gives NaN in the source. The model covers this
  case only because `advance` is an arbitrary parameter; the NaN is not modelled.
- Tiles.Tile.constructor: the body of the `Tile` constructor (tile.cc) is not part of
  this model. Empty NPC and object lists and no handle are assumed from tile.h alone.
- Tiles.Tile.RemoveNPC: the body is not part of this model. `removeNPC` is assumed to take
  every occurrence of the NPC off the list; tile.h says only that it removes the NPC. The
  same holds for Tiles.Tile.RemoveStuff.
- Tiles.Tile.RemoveStuff: see RemoveNPC; every occurrence is assumed removed.
- Tiles.Tile.AddNPC: the order of the NPC list is not modelled. tile.h documents the list
  as sorted by x-y, which would need the NPC positions; the model appends, and its
  contract speaks of the list's contents (a multiset) only. The same holds for
  Tiles.Tile.AddStuff.
- Tiles.Tile.AddStuff: see AddNPC; only the contents of the object list are stated.
- Trajectories.Trajectory.Default: `Position`'s default constructor is not part of this
  model. It is assumed to give the origin (0, 0) (`Positions.Origin`).
- Trajectories.Trajectory.constructor: it plans through `Pathfinding`, which uses the
  corrected clean-up (`Clear`). Its post-condition that no tile keeps a handle therefore
  holds of the corrected clean-up, not of the as-written one.
- `Tile::isWalkable` is not modelled: its body is not part of this model, and the
  pathfinder does not consult it.

## Findings

| source | as written | input that shows it | evidently intended | confidence | as-written member | corrected member |
|---|---|---|---|---|---|---|
| code/src/simulation/trajectory.cc:125-135 | The clean-up resets the tiles of the nodes left in the queue and of the closed nodes. The goal node, popped at line 79, is in neither, so the target tile keeps its handle (lemma Trajectories.StaleTargetHandle). | Three tiles A-B-C in a row with exits both ways. Plan A to B, then A to C. In the second search B still holds the old goal node, open at distance 1. Exploring it from A relaxes nothing and queues nothing (lemmas Trajectories.StaleNodeQueuesNothing and Trajectories.StaleNodeEmptiesQueue). The queue empties, and the assert at line 114 fails. | Reset the target tile's handle as well, so that every tile is left without a handle. | not executed | Trajectories.Trajectory.ReleaseNodes | Trajectories.Trajectory.Clear |
| code/src/simulation/trajectory.cc:21-28 | The planning constructor sets `hasArrived` to false after planning, even when start and target lie in one tile and the planned list holds the start alone. | Start (0.2, 0.2) and target (0.7, 0.7), both in tile (0, 0). The list is [start] and the agent is not arrived. The first update fails the assert at line 162. | Mark the trajectory arrived exactly when the planned list has one entry. | not executed | Trajectories.Trajectory.constructor | Trajectories.Trajectory.FromTo |
