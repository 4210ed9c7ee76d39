/**
 * An agent's trajectory (code/src/simulation/trajectory.cc): the waypoint
 * list planned by a uniform-cost search over the tile graph, consumed one
 * tick at a time.
 */
module Trajectories {
  import opened Wrappers
  import opened Tiles
  import opened Positions
  import opened Search

  /** Moving the front of the rest onto the end of the handled part keeps their concatenation. */
  lemma PopFront<T>(done: seq<T>, rest: seq<T>)
    requires rest != []
    ensures done + rest == (done + [rest[0]]) + rest[1..]
  {
  }

  /**
   * Reconstruction so far: `route` runs along parent links from the tile of
   * the open node `temp` to the goal's, one tile per unit of distance, and
   * `ps` holds the centres of all its tiles but the last, then the target.
   */
  ghost predicate Traced(topo: ExitMap, arena: Arena, goal: nat, temp: nat,
                         route: seq<Coordinates>, ps: seq<Position>, target: Position)
  {
    && goal < |arena| && temp < |arena| && arena[temp].open && arena[temp].distance >= 0
    && |route| >= 1 && route[0] == arena[temp].coord && route[|route| - 1] == arena[goal].coord
    && IsPath(topo, route)
    && |route| + arena[temp].distance == arena[goal].distance + 1
    && ps == Centres(route[..|route| - 1]) + [target]
  }

  /** Following the parent of a node other than the start node extends the reconstruction by one tile. */
  lemma TraceStep(topo: ExitMap, arena: Arena, goal: nat, temp: nat,
                  route: seq<Coordinates>, ps: seq<Position>, target: Position)
    requires ParentsLinked(topo, arena) && forall i :: 0 <= i < |arena| ==> arena[i].coord in topo
    requires Traced(topo, arena, goal, temp, route, ps, target) && temp != StartSlot
    ensures HasParent(topo, arena, temp)
    ensures Traced(topo, arena, goal, arena[temp].parent.value, [arena[arena[temp].parent.value].coord] + route,
                   [Centre(arena[arena[temp].parent.value].coord)] + ps, target)
    ensures arena[arena[temp].parent.value].distance < arena[temp].distance
  {
    var p := arena[temp].parent.value;
    CentresInFront(arena[p].coord, route);
  }

  /**
   * What planning promises: `route` is a shortest route between the tiles of
   * `start` and `target`, and `ps` its waypoint list.
   */
  ghost predicate Planned(topo: ExitMap, start: Position, target: Position, route: seq<Coordinates>, ps: seq<Position>)
  {
    ShortestRoute(topo, TileOf(start), TileOf(target), route) && ps == Waypoints(start, route, target)
  }

  /** A planned list has one waypoint per tile of the route, each inside its tile. */
  lemma PlannedWaypointsOnRoute(topo: ExitMap, start: Position, target: Position, route: seq<Coordinates>, ps: seq<Position>)
    requires Planned(topo, start, target, route, ps)
    ensures |ps| == |route| && forall i :: 0 <= i < |ps| ==> TileOf(ps[i]) == route[i]
    ensures |ps| == 1 <==> TileOf(start) == TileOf(target)
  {
    WaypointTiles(start, route, target);
    if |route| > 1 && TileOf(start) == TileOf(target) {
      assert IsPath(topo, [route[0]]);
    }
  }

  // Movement along the waypoint list.

  /**
   * A consistent trajectory: the current position is always there, and the
   * agent has arrived exactly when no waypoint is left after it.
   */
  predicate ValidMotion(ps: seq<Position>, arrived: bool)
  {
    ps != [] && (arrived <==> |ps| == 1)
  }

  /**
   * One update of a trajectory that has not arrived yet, the agent covering
   * `dist`: the current position moves towards the next waypoint, which is
   * dropped once the new position is within dist/2 of it; the agent arrives
   * when that was the last one. `advance` and `distance` are the position
   * arithmetic.
   */
  function Advance(ps: seq<Position>, dist: real,
                   advance: (Position, Position, real) -> Position, distance: (Position, Position) -> real): (r: (seq<Position>, bool))
    requires |ps| > 1
    ensures r.0 != [] && r.0[0] == advance(ps[0], ps[1], dist)
    ensures r.0[1..] == ps[1..] || r.0[1..] == ps[2..]
  {
    var position := advance(ps[0], ps[1], dist);
    if distance(position, ps[1]) <= dist / 2.0 then
      ([position] + ps[2..], |ps| == 2)
    else
      ([position] + ps[1..], false)
  }

  /** The effect of update: an arrived trajectory stays as it is. */
  function Tick(ps: seq<Position>, arrived: bool, dist: real,
                advance: (Position, Position, real) -> Position, distance: (Position, Position) -> real): (r: (seq<Position>, bool))
    requires ps != [] && (!arrived ==> |ps| > 1)
  {
    if arrived then (ps, arrived) else Advance(ps, dist, advance, distance)
  }

  /** Updating keeps a trajectory consistent. */
  lemma TickKeepsValid(ps: seq<Position>, arrived: bool, dist: real,
                       advance: (Position, Position, real) -> Position, distance: (Position, Position) -> real)
    requires ValidMotion(ps, arrived)
    ensures ValidMotion(Tick(ps, arrived, dist, advance, distance).0, Tick(ps, arrived, dist, advance, distance).1)
  {
  }

  /**
   * An update never adds or reorders waypoints: the ones left are those
   * before it, or those without the first; so the count never grows.
   */
  lemma TickKeepsWaypoints(ps: seq<Position>, arrived: bool, dist: real,
                           advance: (Position, Position, real) -> Position, distance: (Position, Position) -> real)
    requires ValidMotion(ps, arrived)
    ensures var r := Tick(ps, arrived, dist, advance, distance);
            r.0[1..] == ps[1..] || (!arrived && r.0[1..] == ps[2..])
    ensures |Tick(ps, arrived, dist, advance, distance).0| <= |ps|
  {
  }

  /** Once arrived, updates change nothing; before, the agent is moved towards the next waypoint. */
  lemma ArrivedStaysPut(ps: seq<Position>, arrived: bool, dist: real,
                        advance: (Position, Position, real) -> Position, distance: (Position, Position) -> real)
    requires ValidMotion(ps, arrived)
    ensures arrived ==> Tick(ps, arrived, dist, advance, distance) == (ps, true)
    ensures !arrived ==> Tick(ps, arrived, dist, advance, distance).0[0] == advance(ps[0], ps[1], dist)
  {
  }

  /** Updates in a row, covering the distances `dists` in turn. */
  function Run(ps: seq<Position>, arrived: bool, dists: seq<real>,
               advance: (Position, Position, real) -> Position, distance: (Position, Position) -> real): (r: (seq<Position>, bool))
    requires ValidMotion(ps, arrived)
    ensures ValidMotion(r.0, r.1)
    decreases |dists|
  {
    if dists == [] then (ps, arrived)
    else
      TickKeepsValid(ps, arrived, dists[0], advance, distance);
      var t := Tick(ps, arrived, dists[0], advance, distance);
      Run(t.0, t.1, dists[1..], advance, distance)
  }

  /**
   * Along any run the waypoints still ahead are a suffix of those planned,
   * and the agent's arrival is final.
   */
  lemma {:induction false} RunFollowsPlan(ps: seq<Position>, arrived: bool, dists: seq<real>,
                                          advance: (Position, Position, real) -> Position, distance: (Position, Position) -> real)
    requires ValidMotion(ps, arrived)
    ensures var r := Run(ps, arrived, dists, advance, distance);
            exists k :: 1 <= k <= |ps| && r.0[1..] == ps[k..]
    ensures arrived ==> Run(ps, arrived, dists, advance, distance) == (ps, true)
    decreases |dists|
  {
    var r := Run(ps, arrived, dists, advance, distance);
    if dists == [] {
      assert r.0[1..] == ps[1..];
    } else {
      TickKeepsValid(ps, arrived, dists[0], advance, distance);
      TickKeepsWaypoints(ps, arrived, dists[0], advance, distance);
      var t := Tick(ps, arrived, dists[0], advance, distance);
      RunFollowsPlan(t.0, t.1, dists[1..], advance, distance);
      var k :| 1 <= k <= |t.0| && r.0[1..] == t.0[k..];
      if t.0[1..] == ps[1..] {
        assert t.0[k..] == ps[k..];
      } else {
        assert t.0[k..] == ps[k + 1..];
      }
    }
  }

  /** The stale handle the as-written clean-up leaves breaks what the next query requires of the map. */
  lemma StaleTargetHandle(wm: Handles, wm': Handles, targetC: Coordinates)
    requires targetC in wm && wm[targetC] == Some(TargetSlot) && wm'.Keys == wm.Keys
    requires forall c :: c in wm' ==> wm'[c] == (if c == targetC then wm[targetC] else None)
    ensures !NoHandles(wm')
  {
    assert wm'[targetC] == Some(TargetSlot);
  }

  /**
   * A node left over from an earlier query, open and unclosed at no more than
   * one step beyond the node being expanded, is neither improved nor queued.
   */
  lemma StaleNodeQueuesNothing(arena: Arena, q: Queue, y: nat, z: nat, arena': Arena, q': Queue)
    requires y < |arena| && z < |arena|
    requires arena[y].open && !arena[y].closed && arena[y].distance <= arena[z].distance + 1
    requires Explored(arena, q, y, z, arena', q')
    ensures arena' == arena && q' == q
  {
  }

  // The strip A-B-C of the stale-handle finding, and the arena of its second query.
  const TileA := Coordinates(0, 0)
  const TileB := Coordinates(1, 0)
  const TileC := Coordinates(2, 0)
  const StaleSlot: nat := 2

  function SecondQueryArena(): (arena: Arena)
    ensures |arena| == 3 && arena[StaleSlot].coord == TileB && arena[TargetSlot].coord == TileC
  {
    [TileWrapper(TileA, true, true, 0, None), Fresh(TileC), TileWrapper(TileB, true, false, 1, Some(StartSlot))]
  }

  /**
   * The second query on the strip A-B-C, from A to C, after a first query from
   * A to B: A is popped and closed at distance 0, the queue is empty, and B
   * still holds the first query's goal node, open at distance 1. Exploring B
   * from A queues nothing, so the loop ends with the target node unreached.
   */
  lemma StaleNodeEmptiesQueue(arena': Arena, q': Queue)
    requires Explored(SecondQueryArena(), multiset{}, StaleSlot, StartSlot, arena', q')
    ensures q' == multiset{} && !arena'[TargetSlot].open && !arena'[TargetSlot].closed
  {
    StaleNodeQueuesNothing(SecondQueryArena(), multiset{}, StaleSlot, StartSlot, arena', q');
  }

  class Trajectory {
    /** current position first, then the remaining waypoints, the target last */
    var posList: seq<Position>
    var hasArrived: bool

    /** The top of the open queue, and the queue with it popped (one copy of it removed). */
    static method Pop(arena: Arena, q: Queue) returns (z: nat, q': Queue)
      requires q != multiset{}
      requires forall k :: k in q ==> k < |arena|
      ensures IsTop(arena, q, z) && q' == q - multiset{z}
    {
      ghost var top := TopExists(arena, q);
      z :| IsTop(arena, q, z);
      q' := q - multiset{z};
    }

    /**
     * Relaxation of node `y` from node `z` (explore): a closed node is never
     * touched, an open one only has its distance and parent lowered, a new
     * one is opened and pushed exactly once.
     */
    static method Explore(arena: Arena, q: Queue, y: nat, z: nat) returns (arena': Arena, q': Queue)
      requires y < |arena| && z < |arena|
      ensures Explored(arena, q, y, z, arena', q')
      ensures arena[y].closed ==> arena' == arena && q' == q
      ensures !arena[y].closed ==> arena'[y].open && arena'[y].distance <= arena[z].distance + 1
      ensures !arena[y].closed && !arena[y].open ==> q' == q + multiset{y}
      ensures arena[y].open ==> q' == q
      ensures |arena'| == |arena| && forall i :: 0 <= i < |arena| && i != y ==> arena'[i] == arena[i]
      ensures arena'[y].coord == arena[y].coord && arena'[y].closed == arena[y].closed
    {
      arena', q' := arena, q;
      if !arena[y].closed {
        if arena[y].open {
          if arena[z].distance + 1 < arena[y].distance {
            arena' := arena'[y := arena'[y].(parent := Some(z))];
            arena' := arena'[y := arena'[y].(distance := arena[z].distance + 1)];
          }
        } else {
          q' := q' + multiset{y};
          arena' := arena'[y := arena'[y].(open := true)];
          arena' := arena'[y := arena'[y].(parent := Some(z))];
          arena' := arena'[y := arena'[y].(distance := arena[z].distance + 1)];
        }
      }
    }

    /**
     * One pass of the inner loop: explore the node of tile `n`, wrapping the
     * tile in a new node in the next slot if it has none. `wm` is the handle
     * map of `grid`, and `wm'` the one afterwards.
     */
    static method ExploreExit(grid: Geography, ghost topo: ExitMap, ghost wm: Handles, arena: Arena, q: Queue, z: nat, n: Coordinates)
      returns (arena': Arena, q': Queue, ghost wm': Handles)
      requires Keyed(grid) && ExitsAre(grid, topo) && HandlesAre(grid, wm)
      requires z < |arena| && n in grid
      requires wm[n].Some? ==> wm[n].value < |arena|
      modifies grid.Values`wrapper
      ensures Keyed(grid) && ExitsAre(grid, topo) && HandlesAre(grid, wm')
      ensures ExitExplored(wm, arena, q, z, n, wm', arena', q')
    {
      var y := grid[n].GetWrapper();
      if y.Some? {
        arena', q' := Explore(arena, q, y.value, z);
        wm' := wm;
      } else {
        var slot := |arena|;
        arena' := arena + [Fresh(n)];
        SetTileWrapper(grid, topo, wm, n, Some(slot));
        wm' := wm[n := Some(slot)];
        arena', q' := Explore(arena', q, slot, z);
      }
    }

    /**
     * The inner loop of the search: collect the tiles the exit flags of the
     * just-closed node `z` lead to and explore each, wrapping a tile in a new
     * node the first time it is seen. Afterwards `z` is covered too.
     */
    static method ExpandNeighbours(grid: Geography, ghost topo: ExitMap, ghost wm: Handles,
                                   arena: Arena, q: Queue, ghost closed: seq<nat>, z: nat,
                                   ghost startC: Coordinates, ghost targetC: Coordinates)
      returns (arena': Arena, q': Queue, ghost wm': Handles)
      requires Keyed(grid) && ExitsAre(grid, topo) && HandlesAre(grid, wm)
      requires z < |arena|
      requires ExitsStayOnMap(topo)
      requires Expanding(topo, wm, arena, q, closed, startC, targetC, z, arena[z].distance, [])
      modifies grid.Values`wrapper
      ensures Keyed(grid) && ExitsAre(grid, topo) && HandlesAre(grid, wm')
      ensures SearchInv(topo, wm', arena', q', closed, startC, targetC, -1, arena[z].distance)
      ensures Frontier(topo, wm', arena', q', -1)
      ensures |arena'| >= |arena|
      ensures forall i :: 0 <= i < |arena'| ==> (arena'[i].closed <==> i < |arena| && arena[i].closed)
      ensures forall i :: 0 <= i < |arena| ==> arena'[i].coord == arena[i].coord
    {
      var zc := arena[z].coord;
      assert zc in grid;
      var nb := Neighbourhood(zc, grid[zc].GetExits());
      assert nb == Neighbourhood(zc, topo[zc]);
      var neighbourhood := nb;
      arena', q', wm' := arena, q, wm;
      ghost var done := [];
      while neighbourhood != []
        invariant nb == done + neighbourhood
        invariant Keyed(grid) && ExitsAre(grid, topo) && HandlesAre(grid, wm')
        invariant Expanding(topo, wm', arena', q', closed, startC, targetC, z, arena[z].distance, done)
        invariant |arena'| >= |arena|
        invariant forall i :: 0 <= i < |arena'| ==> (arena'[i].closed <==> i < |arena| && arena[i].closed)
        invariant forall i :: 0 <= i < |arena| ==> arena'[i].coord == arena[i].coord
      {
        var n := neighbourhood[0];
        assert n in nb && Step(topo, zc, n) && n in topo;
        PopFront(done, neighbourhood);
        neighbourhood := neighbourhood[1..];
        ghost var wm0, a0, q0 := wm', arena', q';
        arena', q', wm' := ExploreExit(grid, topo, wm', arena', q', z, n);
        ExitKeepsExpanding(topo, wm0, a0, q0, closed, startC, targetC, z, done, n, wm', arena', q');
        ExitKeepsShape(wm0, a0, q0, z, n, wm', arena', q');
        done := done + [n];
      }
      assert done == nb;
      assert Covered(topo, wm', arena', q', z);
    }
  
    /**
     * One pass of the main loop: pop the top `z` of the queue; if it is about
     * the target tile it is the goal, whose distance no route beats;
     * otherwise close `z`, put it on the closed list and explore its exits,
     * which adds its tile to the closed ones.
     */
    static method SearchStep(grid: Geography, ghost topo: ExitMap, ghost wm: Handles,
                             arena: Arena, q: Queue, closed: seq<nat>,
                             ghost startC: Coordinates, targetC: Coordinates, ghost level: int)
      returns (arena': Arena, q': Queue, closed': seq<nat>, found: bool, goal: nat, ghost wm': Handles, ghost level': int)
      requires Keyed(grid) && ExitsAre(grid, topo) && HandlesAre(grid, wm) && ExitsStayOnMap(topo)
      requires SearchState(topo, wm, arena, q, closed, startC, targetC, false, 0, level)
      requires q != multiset{}
      modifies grid.Values`wrapper
      ensures Keyed(grid) && ExitsAre(grid, topo) && HandlesAre(grid, wm')
      ensures SearchState(topo, wm', arena', q', closed', startC, targetC, found, goal, level')
      ensures found ==> arena' == arena && closed' == closed && wm' == wm
      ensures !found ==> |topo.Keys - ClosedTiles(arena')| < |topo.Keys - ClosedTiles(arena)|
    {
      var z;
      z, q' := Pop(arena, q);
      if arena[z].coord == targetC {
        FoundTarget(topo, wm, arena, q, closed, startC, targetC, level, z);
        arena', closed', goal, found, wm', level' := arena, closed, z, true, wm, level;
      } else {
        CloseTop(topo, wm, arena, q, closed, startC, targetC, level, z);
        arena' := Close(arena, z);
        closed' := [z] + closed;
        ghost var a1 := arena';
        arena', q', wm' := ExpandNeighbours(grid, topo, wm, arena', q', closed', z, startC, targetC);
        ClosedTilesKept(a1, arena');
        ClosingShrinks(topo.Keys, ClosedTiles(arena), ClosedTiles(arena'), arena[z].coord);
        found, goal, level' := false, 0, arena[z].distance;
      }
    }

    /**
     * Set-up of the search: the start node, open at distance 0 and queued,
     * and the unreached target node, each wrapped around its tile (the
     * target's handle wins when both are the same tile).
     */
    static method StartSearch(grid: Geography, ghost topo: ExitMap, ghost wm0: Handles, startC: Coordinates, targetC: Coordinates)
      returns (arena: Arena, q: Queue, ghost wm: Handles)
      requires Keyed(grid) && ExitsAre(grid, topo) && HandlesAre(grid, wm0) && NoHandles(wm0)
      requires startC in grid && targetC in grid
      modifies grid.Values`wrapper
      ensures Keyed(grid) && ExitsAre(grid, topo) && HandlesAre(grid, wm)
      ensures SearchState(topo, wm, arena, q, [], startC, targetC, false, 0, 0)
    {
      SetTileWrapper(grid, topo, wm0, startC, Some(StartSlot));
      q := multiset{StartSlot};
      SetTileWrapper(grid, topo, wm0[startC := Some(StartSlot)], targetC, Some(TargetSlot));
      arena := InitialArena(startC, targetC);
      wm := InitialHandles(wm0, startC, targetC);
      InitialInv(topo, wm0, startC, targetC);
    }

    /**
     * The main loop of the search: start and target nodes are wrapped around
     * their tiles, the start node is queued at distance 0, and nodes are
     * popped in order of distance until the target tile's node comes out.
     * That node is the goal, and its distance is that of a shortest route.
     */
    static method FindGoal(grid: Geography, ghost topo: ExitMap, ghost wm0: Handles, startC: Coordinates, targetC: Coordinates)
      returns (arena: Arena, q: Queue, closed: seq<nat>, goal: nat, ghost wm: Handles, ghost level: int)
      requires Keyed(grid) && ExitsAre(grid, topo) && HandlesAre(grid, wm0) && NoHandles(wm0)
      requires ExitsStayOnMap(topo)
      requires startC in grid && targetC in grid
      requires Reachable(topo, startC, targetC)
      modifies grid.Values`wrapper
      ensures Keyed(grid) && ExitsAre(grid, topo) && HandlesAre(grid, wm)
      ensures SearchState(topo, wm, arena, q, closed, startC, targetC, true, goal, level)
    {
      arena, q, wm := StartSearch(grid, topo, wm0, startC, targetC);
      closed, level := [], 0;
      var found := false;
      goal := 0;
      while q != multiset{} && !found
        invariant Keyed(grid) && ExitsAre(grid, topo) && HandlesAre(grid, wm)
        invariant SearchState(topo, wm, arena, q, closed, startC, targetC, found, goal, level)
        decreases |topo.Keys - ClosedTiles(arena)| + (if found then 0 else 1)
      {
        arena, q, closed, found, goal, wm, level := SearchStep(grid, topo, wm, arena, q, closed, startC, targetC, level);
      }
      if !found {
        EmptyQueueUnreachable(topo, wm, arena, closed, startC, targetC, level);
      }
    }

    /**
     * Route reconstruction: from the goal, follow parent links back to the
     * start node, putting the centre of each tile passed in front of the
     * target; then the start position replaces the front entry.
     */
    static method Reconstruct(ghost topo: ExitMap, arena: Arena, goal: nat, start: Position, target: Position)
      returns (posList: seq<Position>, ghost route: seq<Coordinates>)
      requires ParentsLinked(topo, arena) && goal < |arena| && arena[goal].open
      requires forall i :: 0 <= i < |arena| ==> arena[i].coord in topo
      requires forall i :: 0 <= i < |arena| && arena[i].open && arena[i].coord == arena[StartSlot].coord ==> i == StartSlot
      ensures IsPath(topo, route) && route[0] == arena[StartSlot].coord && route[|route| - 1] == arena[goal].coord
      ensures |route| == arena[goal].distance + 1
      ensures posList == Waypoints(start, route, target)
    {
      posList := [target];
      route := [arena[goal].coord];
      var temp := goal;
      while arena[temp].coord != arena[StartSlot].coord
        invariant Traced(topo, arena, goal, temp, route, posList, target)
        decreases arena[temp].distance
      {
        TraceStep(topo, arena, goal, temp, route, posList, target);
        temp := arena[temp].parent.value;
        posList := [Centre(arena[temp].coord)] + posList;
        route := [arena[temp].coord] + route;
      }
      assert temp == StartSlot;
      WaypointsFromCentres(start, route, target);
      posList := [start] + posList[1..];
    }

    /** One pass of the first clean-up loop: pop the top of the queue and reset its tile. */
    static method ReleaseTop(grid: Geography, ghost topo: ExitMap, ghost wm0: Handles, ghost wm: Handles,
                             arena: Arena, open: Queue, ghost closed: seq<nat>, ghost targetC: Coordinates)
      returns (open': Queue, ghost wm': Handles)
      requires Keyed(grid) && ExitsAre(grid, topo) && HandlesAre(grid, wm)
      requires forall c :: c in wm0 && wm0[c].Some? ==> wm0[c].value < |arena| && arena[wm0[c].value].coord == c
      requires open != multiset{}
      requires forall k :: k in open ==> k < |arena| && arena[k].coord in grid && arena[k].coord != targetC
      requires Pending(wm0, wm, targetC, open, closed)
      modifies grid.Values`wrapper
      ensures Keyed(grid) && ExitsAre(grid, topo) && HandlesAre(grid, wm')
      ensures open' <= open && |open'| < |open|
      ensures Pending(wm0, wm', targetC, open', closed)
    {
      var k;
      k, open' := Pop(arena, open);
      ReleaseOne(wm0, wm, arena, targetC, open, closed, open', closed, k);
      ResetTileWrapper(grid, topo, wm, arena[k].coord);
      wm' := wm[arena[k].coord := None];
    }

    /** The first clean-up loop: reset the tile of every node left in the queue, in queue order. */
    static method ReleaseQueued(grid: Geography, ghost topo: ExitMap, ghost wm0: Handles, ghost wm: Handles,
                                arena: Arena, q: Queue, ghost closed: seq<nat>, ghost targetC: Coordinates)
      returns (ghost wm': Handles)
      requires Keyed(grid) && ExitsAre(grid, topo) && HandlesAre(grid, wm)
      requires forall c :: c in wm0 && wm0[c].Some? ==> wm0[c].value < |arena| && arena[wm0[c].value].coord == c
      requires forall k :: k in q ==> k < |arena| && arena[k].coord in grid && arena[k].coord != targetC
      requires Pending(wm0, wm, targetC, q, closed)
      modifies grid.Values`wrapper
      ensures Keyed(grid) && ExitsAre(grid, topo) && HandlesAre(grid, wm')
      ensures Pending(wm0, wm', targetC, multiset{}, closed)
    {
      var open := q;
      wm' := wm;
      while open != multiset{}
        invariant Keyed(grid) && ExitsAre(grid, topo) && HandlesAre(grid, wm')
        invariant open <= q && Pending(wm0, wm', targetC, open, closed)
        decreases |open|
      {
        open, wm' := ReleaseTop(grid, topo, wm0, wm', arena, open, closed, targetC);
      }
    }

    /** The second clean-up loop: reset the tile of every closed node, most recently closed first. */
    static method ReleaseClosed(grid: Geography, ghost topo: ExitMap, ghost wm0: Handles, ghost wm: Handles,
                                arena: Arena, closed: seq<nat>, ghost targetC: Coordinates)
      returns (ghost wm': Handles)
      requires Keyed(grid) && ExitsAre(grid, topo) && HandlesAre(grid, wm)
      requires forall c :: c in wm0 && wm0[c].Some? ==> wm0[c].value < |arena| && arena[wm0[c].value].coord == c
      requires forall k :: k in closed ==> k < |arena| && arena[k].coord in grid && arena[k].coord != targetC
      requires Pending(wm0, wm, targetC, multiset{}, closed)
      modifies grid.Values`wrapper
      ensures Keyed(grid) && ExitsAre(grid, topo) && HandlesAre(grid, wm')
      ensures Pending(wm0, wm', targetC, multiset{}, [])
    {
      var rest := closed;
      wm' := wm;
      while rest != []
        invariant Keyed(grid) && ExitsAre(grid, topo) && HandlesAre(grid, wm')
        invariant forall k :: k in rest ==> k in closed
        invariant Pending(wm0, wm', targetC, multiset{}, rest)
      {
        var k := rest[0];
        assert k in closed;
        ReleaseOne(wm0, wm', arena, targetC, multiset{}, rest, multiset{}, rest[1..], k);
        rest := rest[1..];
        ResetTileWrapper(grid, topo, wm', arena[k].coord);
        wm' := wm'[arena[k].coord := None];
      }
    }

    /**
     * Clean-up as the source writes it: the handle of the tile of every node
     * left in the queue, then of every closed node, is reset. The goal node
     * is in neither, so the target tile keeps its handle.
     */
    static method ReleaseNodes(grid: Geography, ghost topo: ExitMap, ghost wm: Handles,
                               arena: Arena, q: Queue, closed: seq<nat>, ghost targetC: Coordinates)
      returns (ghost wm': Handles)
      requires Keyed(grid) && ExitsAre(grid, topo) && HandlesAre(grid, wm)
      requires Settled(topo, wm, arena, q, closed, targetC)
      modifies grid.Values`wrapper
      ensures Keyed(grid) && ExitsAre(grid, topo) && HandlesAre(grid, wm')
      ensures forall c :: c in wm' ==> wm'[c] == (if c == targetC then wm[targetC] else None)
    {
      wm' := ReleaseQueued(grid, topo, wm, wm, arena, q, closed, targetC);
      wm' := ReleaseClosed(grid, topo, wm, wm', arena, closed, targetC);
    }

    /** A consistent trajectory, as every update requires. */
    predicate Valid()
      reads this
    {
      ValidMotion(posList, hasArrived)
    }

    /**
     * The body of pathfinding on the map's exit flags `topo`, with no tile
     * holding a handle: search, rebuild the route's waypoints, clear every
     * handle.
     */
    static method Plan(grid: Geography, ghost topo: ExitMap, start: Position, target: Position)
      returns (ps: seq<Position>, ghost route: seq<Coordinates>)
      requires Keyed(grid) && ExitsAre(grid, topo) && ExitsStayOnMap(topo) && NoHandles(WrapperMap(grid))
      requires TileOf(start) in grid && TileOf(target) in grid
      requires Reachable(topo, TileOf(start), TileOf(target))
      modifies grid.Values`wrapper
      ensures Planned(topo, start, target, route, ps)
      ensures NoHandles(WrapperMap(grid))
    {
      ghost var wm0 := WrapperMap(grid);
      WrapperMapHandles(grid);
      var arena, q, closed, goal;
      ghost var wm, level;
      arena, q, closed, goal, wm, level := FindGoal(grid, topo, wm0, TileOf(start), TileOf(target));
      ps, route, wm := Finish(grid, topo, wm, arena, q, closed, goal, level, start, target);
      HandlesAreWrapperMap(grid, wm);
    }

    /** The end of pathfinding once the target is found: rebuild the waypoints, then clear every handle. */
    static method Finish(grid: Geography, ghost topo: ExitMap, ghost wm: Handles,
                         arena: Arena, q: Queue, closed: seq<nat>, goal: nat, ghost level: int,
                         start: Position, target: Position)
      returns (ps: seq<Position>, ghost route: seq<Coordinates>, ghost wm': Handles)
      requires Keyed(grid) && ExitsAre(grid, topo) && HandlesAre(grid, wm)
      requires SearchState(topo, wm, arena, q, closed, TileOf(start), TileOf(target), true, goal, level)
      modifies grid.Values`wrapper
      ensures Keyed(grid) && ExitsAre(grid, topo) && HandlesAre(grid, wm') && NoHandles(wm')
      ensures Planned(topo, start, target, route, ps)
    {
      var startC, targetC := TileOf(start), TileOf(target);
      SearchEndState(topo, wm, arena, q, closed, startC, targetC, goal, level);
      ps, route := Reconstruct(topo, arena, goal, start, target);
      assert ShortestRoute(topo, startC, targetC, route);
      wm' := Clear(grid, topo, wm, arena, q, closed, targetC);
    }

    /** Clear the handles of every queued and closed node, then the target's. */
    static method Clear(grid: Geography, ghost topo: ExitMap, ghost wm: Handles,
                        arena: Arena, q: Queue, closed: seq<nat>, targetC: Coordinates)
      returns (ghost wm': Handles)
      requires Keyed(grid) && ExitsAre(grid, topo) && HandlesAre(grid, wm)
      requires Settled(topo, wm, arena, q, closed, targetC)
      modifies grid.Values`wrapper
      ensures Keyed(grid) && ExitsAre(grid, topo) && HandlesAre(grid, wm') && NoHandles(wm')
    {
      wm' := ReleaseNodes(grid, topo, wm, arena, q, closed, targetC);
      ResetTileWrapper(grid, topo, wm', targetC);
      wm' := wm'[targetC := None];
    }

    /**
     * pathfinding: replace the waypoint list, whose first entry is the start
     * and last the target, by the waypoints of a shortest route between
     * their tiles, and leave every tile of the map without a handle.
     */
    method Pathfinding(grid: Geography, ghost topo: ExitMap) returns (ghost route: seq<Coordinates>)
      requires |posList| > 1
      requires Keyed(grid) && ExitsAre(grid, topo) && ExitsStayOnMap(topo) && NoHandles(WrapperMap(grid))
      requires TileOf(posList[0]) in grid && TileOf(posList[|posList| - 1]) in grid
      requires Reachable(topo, TileOf(posList[0]), TileOf(posList[|posList| - 1]))
      modifies this`posList, grid.Values`wrapper
      ensures Planned(topo, old(posList[0]), old(posList[|posList| - 1]), route, posList)
      ensures NoHandles(WrapperMap(grid))
    {
      var start, target := posList[0], posList[|posList| - 1];
      posList, route := Plan(grid, topo, start, target);
    }

    /** The trajectory before any planning: two default positions, not arrived. */
    constructor Default()
      ensures posList == [Origin, Origin] && !hasArrived
      ensures Valid()
    {
      posList := [Origin, Origin];
      hasArrived := false;
    }

    /**
     * A trajectory planned from `start` to `target` over `grid`, as the
     * source writes it: not arrived, even when both lie in one tile and the
     * planned list holds the start alone.
     */
    constructor (start: Position, target: Position, grid: Geography)
      requires ValidGeography(grid) && NoHandles(WrapperMap(grid))
      requires TileOf(start) in grid && TileOf(target) in grid
      requires Reachable(Topology(grid), TileOf(start), TileOf(target))
      modifies grid.Values`wrapper
      ensures exists route :: Planned(old(Topology(grid)), start, target, route, posList)
      ensures !hasArrived
      ensures Valid() <==> TileOf(start) != TileOf(target)
      ensures NoHandles(WrapperMap(grid))
    {
      ghost var topo := Topology(grid);
      TopologyExits(grid);
      posList := [start, target];
      new;
      ghost var route := Pathfinding(grid, topo);
      PlannedWaypointsOnRoute(topo, start, target, route, posList);
      hasArrived := false;
      assert Planned(topo, start, target, route, posList);
    }

    /** The planning constructor with the arrival flag set from the planned list. */
    constructor FromTo(start: Position, target: Position, grid: Geography)
      requires ValidGeography(grid) && NoHandles(WrapperMap(grid))
      requires TileOf(start) in grid && TileOf(target) in grid
      requires Reachable(Topology(grid), TileOf(start), TileOf(target))
      modifies grid.Values`wrapper
      ensures exists route :: Planned(old(Topology(grid)), start, target, route, posList)
      ensures hasArrived <==> TileOf(start) == TileOf(target)
      ensures Valid()
      ensures NoHandles(WrapperMap(grid))
    {
      ghost var topo := Topology(grid);
      TopologyExits(grid);
      posList := [start, target];
      new;
      ghost var route := Pathfinding(grid, topo);
      PlannedWaypointsOnRoute(topo, start, target, route, posList);
      hasArrived := |posList| == 1;
      assert Planned(topo, start, target, route, posList);
    }

    /** A copy of `t`'s waypoints and arrival flag. */
    constructor Copy(t: Trajectory)
      ensures posList == t.posList && hasArrived == t.hasArrived
      ensures Valid() <==> t.Valid()
    {
      posList := t.posList;
      hasArrived := t.hasArrived;
    }

    function GetPosList(): seq<Position>
      reads this`posList
    {
      posList
    }

    function GetHasArrived(): bool
      reads this`hasArrived
    {
      hasArrived
    }

    /** The current position: the front of the list. */
    function GetPosition(): Position
      requires posList != []
      reads this`posList
    {
      posList[0]
    }

    /** Replace the current position, keeping the waypoints ahead. */
    method SetPosition(p: Position)
      requires posList != []
      modifies this`posList
      ensures posList == [p] + old(posList)[1..]
      ensures GetPosition() == p && |posList| == |old(posList)|
      ensures Valid() <==> old(Valid())
    {
      posList := [p] + posList[1..];
    }

    /**
     * update: move `dt * speed` towards the next waypoint, as Tick states.
     * `advance` and `distance` stand for the position arithmetic.
     */
    method Update(dt: real, speed: real,
                  advance: (Position, Position, real) -> Position, distance: (Position, Position) -> real)
      requires posList != []
      requires !hasArrived ==> |posList| > 1
      modifies this`posList, this`hasArrived
      ensures (posList, hasArrived) == Tick(old(posList), old(hasArrived), dt * speed, advance, distance)
      ensures old(Valid()) ==> Valid()
    {
      if !hasArrived {
        var dist := dt * speed;
        var position := posList[0];
        posList := posList[1..];
        var target := posList[0];
        position := advance(position, target, dist);
        if distance(position, target) <= dist / 2.0 {
          posList := posList[1..];
          if posList == [] {
            hasArrived := true;
          }
        }
        posList := [position] + posList;
      }
    }
  }
}
