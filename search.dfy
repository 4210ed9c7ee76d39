/**
 * The per-query search state of the pathfinder: search nodes (TileWrapper)
 * kept in an arena and addressed by index, the open queue, the closed list,
 * and the invariants the search keeps between steps.
 */
module Search {
  import opened Wrappers
  import opened Tiles

  /** A tile's search node: open/closed flags, tentative distance, parent index. */
  datatype TileWrapper = TileWrapper(coord: Coordinates, open: bool, closed: bool, distance: int, parent: Option<nat>)

  type Arena = seq<TileWrapper>

  /** The open queue: the nodes pushed and not yet popped. */
  type Queue = multiset<nat>

  /** The search-node handle of every tile of the map. */
  type Handles = map<Coordinates, Option<nat>>

  /** Slot of the node wrapped around the start tile. */
  const StartSlot: nat := 0
  /** Slot of the node wrapped around the target tile. */
  const TargetSlot: nat := 1

  /** A node not yet reached by the search. */
  function Fresh(c: Coordinates): TileWrapper
  {
    TileWrapper(c, false, false, 0, None)
  }

  /** `j` is an element of `q` of least current distance. */
  predicate IsTop(arena: Arena, q: Queue, j: nat)
  {
    j in q && j < |arena| && forall k :: k in q && k < |arena| ==> arena[j].distance <= arena[k].distance
  }

  /** Every non-empty queue has an element of least distance. */
  lemma {:induction false} TopExists(arena: Arena, q: Queue) returns (j: nat)
    requires q != multiset{}
    requires forall k :: k in q ==> k < |arena|
    ensures IsTop(arena, q, j)
    decreases |q|
  {
    var x :| x in q;
    var rest := q - multiset{x};
    if rest == multiset{} {
      j := x;
      assert q == rest + multiset{x};
    } else {
      var m := TopExists(arena, rest);
      if arena[m].distance <= arena[x].distance {
        j := m;
      } else {
        j := x;
      }
      forall k | k in q && k < |arena| ensures arena[j].distance <= arena[k].distance {
        if k != x {
          assert k in rest;
        }
      }
    }
  }

  /**
   * The effect of one relaxation of node `y` from the closed node `z`: a
   * closed `y` is left alone; an open one gets `z` as parent and distance
   * d(z)+1 when that is strictly shorter, and stays where it is in the queue;
   * one not yet open is opened, gets `z` as parent and distance d(z)+1, and
   * is pushed.
   */
  ghost predicate Explored(arena: Arena, q: Queue, y: nat, z: nat, arena': Arena, q': Queue)
    requires y < |arena| && z < |arena|
  {
    if arena[y].closed then
      arena' == arena && q' == q
    else if arena[y].open then
      && q' == q
      && arena' == (if arena[z].distance + 1 < arena[y].distance
                    then arena[y := arena[y].(parent := Some(z), distance := arena[z].distance + 1)]
                    else arena)
    else
      && q' == q + multiset{y}
      && arena' == arena[y := arena[y].(open := true, parent := Some(z), distance := arena[z].distance + 1)]
  }

  /** Node `i` hangs off a closed parent, one legal step away and one further. */
  ghost predicate HasParent(topo: ExitMap, arena: Arena, i: nat)
    requires i < |arena|
  {
    && arena[i].parent.Some?
    && arena[i].parent.value < |arena|
    && arena[arena[i].parent.value].closed
    && arena[i].distance == arena[arena[i].parent.value].distance + 1
    && Step(topo, arena[arena[i].parent.value].coord, arena[i].coord)
  }

  /**
   * The parent links the route is rebuilt from: the start node is open at
   * distance 0 without parent, every other open node has a parent as above,
   * closed nodes are open, and distances of open nodes are not negative.
   */
  ghost predicate ParentsLinked(topo: ExitMap, arena: Arena)
  {
    && |arena| > StartSlot
    && arena[StartSlot].open && arena[StartSlot].distance == 0 && arena[StartSlot].parent == None
    && (forall i :: 0 <= i < |arena| && arena[i].closed ==> arena[i].open)
    && (forall i :: 0 <= i < |arena| && arena[i].open ==> arena[i].distance >= 0)
    && (forall i :: 0 < i < |arena| && arena[i].open ==> HasParent(topo, arena, i))
  }

  /** Shape of the arena: start and target slots, every later node reached, closed nodes off target. */
  ghost predicate Slots(topo: ExitMap, arena: Arena, startC: Coordinates, targetC: Coordinates)
  {
    && |arena| >= 2
    && arena[StartSlot].coord == startC
    && arena[TargetSlot].coord == targetC
    && (forall i :: 2 <= i < |arena| ==> arena[i].open)
    && (forall i :: 0 <= i < |arena| ==> arena[i].coord in topo)
    && (forall i :: 0 <= i < |arena| && arena[i].closed ==> arena[i].coord != targetC)
  }

  /**
   * Handles and nodes agree: a handle names a node about its own tile, the
   * target tile's handle is the target node, every open node is its tile's
   * handle (apart from the start node when start and target coincide), and a
   * handle other than the target's names an open node.
   */
  ghost predicate HandlesLinked(topo: ExitMap, wm: Handles, arena: Arena, startC: Coordinates, targetC: Coordinates)
  {
    && wm.Keys == topo.Keys
    && targetC in wm && wm[targetC] == Some(TargetSlot)
    && (forall c :: c in wm && wm[c].Some? ==> wm[c].value < |arena| && arena[wm[c].value].coord == c)
    && (forall i :: 0 <= i < |arena| && arena[i].open && (i != StartSlot || startC != targetC) ==>
          arena[i].coord in wm && wm[arena[i].coord] == Some(i))
    && (forall c :: c in wm && wm[c].Some? && c != targetC ==> arena[wm[c].value].open)
  }

  /**
   * The queue holds each open, unclosed node exactly once (the goal, once
   * popped, aside) and nothing else; the closed list holds the closed nodes.
   */
  ghost predicate QueueMatches(arena: Arena, q: Queue, closed: seq<nat>, goal: int)
  {
    && (forall i :: i in q ==> i < |arena| && arena[i].open && !arena[i].closed && q[i] == 1)
    && (forall i :: 0 <= i < |arena| && arena[i].open && !arena[i].closed && i != goal ==> i in q)
    && (forall i :: i in closed ==> i < |arena| && arena[i].closed)
    && (forall i :: 0 <= i < |arena| && arena[i].closed ==> i in closed)
  }

  /**
   * Nodes are closed in order of distance: every closed node is at most
   * `level` away and every queued one at least `level`.
   */
  ghost predicate Layered(arena: Arena, q: Queue, level: int)
  {
    && (forall i :: 0 <= i < |arena| && arena[i].closed ==> arena[i].distance <= level)
    && (forall j :: j in q && j < |arena| ==> level <= arena[j].distance)
  }

  /** Tile `n` has a node, closed or queued, at distance at most `d`. */
  ghost predicate Reached(wm: Handles, arena: Arena, q: Queue, n: Coordinates, d: int)
  {
    && n in wm && wm[n].Some? && wm[n].value < |arena|
    && (arena[wm[n].value].closed || wm[n].value in q)
    && arena[wm[n].value].distance <= d
  }

  /** Every exit of closed node `i` leads to a reached tile at most one further. */
  ghost predicate Covered(topo: ExitMap, wm: Handles, arena: Arena, q: Queue, i: nat)
    requires i < |arena| && arena[i].coord in topo
  {
    forall n :: n in Neighbourhood(arena[i].coord, topo[arena[i].coord]) ==> Reached(wm, arena, q, n, arena[i].distance + 1)
  }

  /** All closed nodes but `except` are covered. */
  ghost predicate Frontier(topo: ExitMap, wm: Handles, arena: Arena, q: Queue, except: int)
  {
    forall i {:trigger Covered(topo, wm, arena, q, i)} ::
      0 <= i < |arena| && arena[i].closed && i != except && arena[i].coord in topo ==> Covered(topo, wm, arena, q, i)
  }

  /**
   * The invariant of the main search loop, with `goal` >= 0 once the target
   * is popped and `level` the distance of the node closed last.
   */
  ghost predicate SearchInv(topo: ExitMap, wm: Handles, arena: Arena, q: Queue, closed: seq<nat>,
                            startC: Coordinates, targetC: Coordinates, goal: int, level: int)
  {
    && ParentsLinked(topo, arena)
    && Slots(topo, arena, startC, targetC)
    && HandlesLinked(topo, wm, arena, startC, targetC)
    && QueueMatches(arena, q, closed, goal)
    && Layered(arena, q, level)
    && (startC == targetC ==> closed == [] && |arena| == 2 && !arena[TargetSlot].open)
  }

  /** The tiles holding closed nodes; the search ends when it can grow no more. */
  ghost function ClosedTiles(arena: Arena): set<Coordinates>
  {
    set i | 0 <= i < |arena| && arena[i].closed :: arena[i].coord
  }

  /**
   * The heart of the shortest-route argument. If every closed node is
   * covered, then along any route from a reached tile `p[i]` (at distance at
   * most i) to the target, which is never closed, some tile has a queued node
   * at distance at most |p| - 1.
   */
  lemma {:induction false} FrontierMeetsRoute(topo: ExitMap, wm: Handles, arena: Arena, q: Queue,
                                                targetC: Coordinates, p: seq<Coordinates>, i: nat) returns (j: nat)
    requires IsPath(topo, p) && i < |p| && p[|p| - 1] == targetC
    requires forall c :: c in wm && wm[c].Some? ==> wm[c].value < |arena| && arena[wm[c].value].coord == c
    requires forall k :: 0 <= k < |arena| && arena[k].closed ==> arena[k].coord != targetC
    requires forall k :: 0 <= k < |arena| ==> arena[k].coord in topo
    requires Frontier(topo, wm, arena, q, -1)
    requires Reached(wm, arena, q, p[i], i)
    ensures j in q && j < |arena| && arena[j].distance <= |p| - 1
    decreases |p| - i
  {
    var k := wm[p[i]].value;
    if k in q {
      j := k;
    } else {
      assert arena[k].closed && arena[k].coord == p[i];
      assert i < |p| - 1;
      assert Step(topo, p[i], p[i + 1]);
      assert Covered(topo, wm, arena, q, k);
      j := FrontierMeetsRoute(topo, wm, arena, q, targetC, p, i + 1);
    }
  }

  /**
   * The invariant while the exits of the just-closed node `z` (at distance
   * `dz`) are explored; `done` lists the exits handled so far.
   */
  ghost predicate Expanding(topo: ExitMap, wm: Handles, arena: Arena, q: Queue, closed: seq<nat>,
                            startC: Coordinates, targetC: Coordinates, z: nat, dz: int, done: seq<Coordinates>)
  {
    && SearchInv(topo, wm, arena, q, closed, startC, targetC, -1, dz)
    && z < |arena| && arena[z].closed && arena[z].distance == dz
    && Frontier(topo, wm, arena, q, z)
    && (forall n :: n in done ==> Reached(wm, arena, q, n, dz + 1))
  }

  /** The expansion invariant assembled from its parts. */
  lemma ExpandingIntro(topo: ExitMap, wm: Handles, arena: Arena, q: Queue, closed: seq<nat>,
                       startC: Coordinates, targetC: Coordinates, z: nat, dz: int, done: seq<Coordinates>, n: Coordinates)
    requires SearchInv(topo, wm, arena, q, closed, startC, targetC, -1, dz)
    requires z < |arena| && arena[z].closed && arena[z].distance == dz
    requires Frontier(topo, wm, arena, q, z)
    requires forall m :: m in done ==> Reached(wm, arena, q, m, dz + 1)
    requires Reached(wm, arena, q, n, dz + 1)
    ensures Expanding(topo, wm, arena, q, closed, startC, targetC, z, dz, done + [n])
  {
  }

  /**
   * One search state grows into another: handles already set are kept, the
   * queue only gains members, nodes keep their tile and closed flag, closed
   * nodes keep their distance, queued ones do not get further, and new nodes
   * are not closed.
   */
  ghost predicate Grows(wm: Handles, arena: Arena, q: Queue, wm': Handles, arena': Arena, q': Queue)
  {
    && wm'.Keys == wm.Keys
    && (forall c :: c in wm && wm[c].Some? ==> wm'[c] == wm[c])
    && |arena| <= |arena'| && q <= q'
    && (forall i :: 0 <= i < |arena| ==> arena'[i].coord == arena[i].coord && arena'[i].closed == arena[i].closed)
    && (forall i :: 0 <= i < |arena| && arena[i].closed ==> arena'[i].distance == arena[i].distance)
    && (forall i :: i in q && i < |arena| ==> arena'[i].distance <= arena[i].distance)
    && (forall i :: |arena| <= i < |arena'| ==> !arena'[i].closed)
  }

  lemma GrowsKeepsReached(wm: Handles, arena: Arena, q: Queue, wm': Handles, arena': Arena, q': Queue,
                          n: Coordinates, d: int)
    requires Grows(wm, arena, q, wm', arena', q') && Reached(wm, arena, q, n, d)
    ensures Reached(wm', arena', q', n, d)
  {
    var k := wm[n].value;
    assert wm'[n] == wm[n];
    if arena[k].closed {
      assert arena'[k].closed;
    } else {
      assert k in q';
    }
  }

  lemma GrowsKeepsFrontier(topo: ExitMap, wm: Handles, arena: Arena, q: Queue, wm': Handles, arena': Arena, q': Queue,
                           except: int)
    requires Grows(wm, arena, q, wm', arena', q') && Frontier(topo, wm, arena, q, except)
    ensures Frontier(topo, wm', arena', q', except)
  {
    forall i | 0 <= i < |arena'| && arena'[i].closed && i != except && arena'[i].coord in topo
      ensures Covered(topo, wm', arena', q', i)
    {
      assert i < |arena|;
      assert Covered(topo, wm, arena, q, i);
      forall m | m in Neighbourhood(arena'[i].coord, topo[arena'[i].coord])
        ensures Reached(wm', arena', q', m, arena'[i].distance + 1)
      {
        GrowsKeepsReached(wm, arena, q, wm', arena', q', m, arena[i].distance + 1);
      }
    }
  }

  /** The parts of the expansion invariant about reached tiles carry over to a grown state. */
  lemma GrowsKeepsCoverage(topo: ExitMap, wm: Handles, arena: Arena, q: Queue, wm': Handles, arena': Arena, q': Queue,
                           z: nat, dz: int, done: seq<Coordinates>)
    requires Grows(wm, arena, q, wm', arena', q') && Frontier(topo, wm, arena, q, z)
    requires forall n :: n in done ==> Reached(wm, arena, q, n, dz + 1)
    ensures Frontier(topo, wm', arena', q', z)
    ensures forall n :: n in done ==> Reached(wm', arena', q', n, dz + 1)
  {
    GrowsKeepsFrontier(topo, wm, arena, q, wm', arena', q', z);
    forall n | n in done ensures Reached(wm', arena', q', n, dz + 1) {
      GrowsKeepsReached(wm, arena, q, wm', arena', q', n, dz + 1);
    }
  }

  /** Case of a closed node: nothing changes, and the exit is reached through it. */
  lemma ExploreClosed(topo: ExitMap, wm: Handles, arena: Arena, q: Queue, closed: seq<nat>,
                      startC: Coordinates, targetC: Coordinates, z: nat, dz: int, done: seq<Coordinates>,
                      n: Coordinates, y: nat)
    requires Expanding(topo, wm, arena, q, closed, startC, targetC, z, dz, done)
    requires n in wm && wm[n] == Some(y) && y < |arena| && arena[y].closed
    ensures Expanding(topo, wm, arena, q, closed, startC, targetC, z, dz, done + [n])
  {
  }

  /**
   * Every step costs one, so while `z` is expanded an unclosed open node is
   * already at most d(z)+1 away: the relaxation branch of exploration never
   * fires.
   */
  lemma NoRelaxation(topo: ExitMap, wm: Handles, arena: Arena, q: Queue, closed: seq<nat>,
                     startC: Coordinates, targetC: Coordinates, z: nat, dz: int, done: seq<Coordinates>, y: nat)
    requires Expanding(topo, wm, arena, q, closed, startC, targetC, z, dz, done)
    requires y < |arena| && arena[y].open && !arena[y].closed
    ensures arena[y].distance <= dz + 1
  {
    if y != StartSlot {
      assert HasParent(topo, arena, y);
    }
  }

  /** Case of an open node at no larger distance: nothing changes, and the exit is reached through it. */
  lemma ExploreOpenKept(topo: ExitMap, wm: Handles, arena: Arena, q: Queue, closed: seq<nat>,
                        startC: Coordinates, targetC: Coordinates, z: nat, dz: int, done: seq<Coordinates>,
                        n: Coordinates, y: nat)
    requires Expanding(topo, wm, arena, q, closed, startC, targetC, z, dz, done)
    requires n in wm && wm[n] == Some(y) && y < |arena|
    requires arena[y].open && !arena[y].closed && arena[y].distance <= dz + 1
    ensures Expanding(topo, wm, arena, q, closed, startC, targetC, z, dz, done + [n])
  {
    assert y in q;
  }

  /** The target node opened from closed `z`, at d(z)+1. */
  function OpenedTarget(arena: Arena, z: nat, dz: int): Arena
    requires |arena| > TargetSlot
  {
    arena[TargetSlot := arena[TargetSlot].(open := true, parent := Some(z), distance := dz + 1)]
  }

  lemma OpenTargetKeepsParents(topo: ExitMap, arena: Arena, z: nat, dz: int)
    requires ParentsLinked(topo, arena) && |arena| > TargetSlot && !arena[TargetSlot].closed
    requires z < |arena| && arena[z].closed && arena[z].distance == dz && Step(topo, arena[z].coord, arena[TargetSlot].coord)
    ensures ParentsLinked(topo, OpenedTarget(arena, z, dz))
  {
    var arena' := OpenedTarget(arena, z, dz);
    forall i | 0 < i < |arena'| && arena'[i].open ensures HasParent(topo, arena', i) {
      if i != TargetSlot {
        assert HasParent(topo, arena, i);
      }
    }
  }

  lemma OpenTargetKeepsHandles(topo: ExitMap, wm: Handles, arena: Arena, startC: Coordinates, targetC: Coordinates, z: nat, dz: int)
    requires HandlesLinked(topo, wm, arena, startC, targetC) && Slots(topo, arena, startC, targetC)
    ensures Slots(topo, OpenedTarget(arena, z, dz), startC, targetC)
    ensures HandlesLinked(topo, wm, OpenedTarget(arena, z, dz), startC, targetC)
  {
  }

  lemma OpenTargetKeepsQueue(arena: Arena, q: Queue, closed: seq<nat>, z: nat, dz: int)
    requires QueueMatches(arena, q, closed, -1) && Layered(arena, q, dz)
    requires |arena| > TargetSlot && !arena[TargetSlot].open && !arena[TargetSlot].closed
    ensures QueueMatches(OpenedTarget(arena, z, dz), q + multiset{TargetSlot}, closed, -1)
    ensures Layered(OpenedTarget(arena, z, dz), q + multiset{TargetSlot}, dz)
  {
    assert TargetSlot !in q;
    assert (q + multiset{TargetSlot})[TargetSlot] == 1;
  }

  /** Opening the target node from closed `z` keeps the structural invariant. */
  lemma OpenTargetKeepsSearchInv(topo: ExitMap, wm: Handles, arena: Arena, q: Queue, closed: seq<nat>,
                                 startC: Coordinates, targetC: Coordinates, z: nat, dz: int)
    requires SearchInv(topo, wm, arena, q, closed, startC, targetC, -1, dz)
    requires z < |arena| && arena[z].closed && arena[z].distance == dz
    requires !arena[TargetSlot].open && Step(topo, arena[z].coord, targetC)
    ensures SearchInv(topo, wm, OpenedTarget(arena, z, dz), q + multiset{TargetSlot}, closed, startC, targetC, -1, dz)
  {
    OpenTargetKeepsParents(topo, arena, z, dz);
    OpenTargetKeepsHandles(topo, wm, arena, startC, targetC, z, dz);
    OpenTargetKeepsQueue(arena, q, closed, z, dz);
  }

  /** Case of the target node, not yet reached: it is opened at d(z)+1 and queued. */
  lemma ExploreTarget(topo: ExitMap, wm: Handles, arena: Arena, q: Queue, closed: seq<nat>,
                      startC: Coordinates, targetC: Coordinates, z: nat, dz: int, done: seq<Coordinates>,
                      n: Coordinates, y: nat)
    requires Expanding(topo, wm, arena, q, closed, startC, targetC, z, dz, done)
    requires Step(topo, arena[z].coord, n) && n in wm && wm[n] == Some(y) && y < |arena|
    requires !arena[y].open
    ensures y == TargetSlot && n == targetC
    ensures Expanding(topo, wm, OpenedTarget(arena, z, dz), q + multiset{y}, closed, startC, targetC, z, dz, done + [n])
  {
    assert y == TargetSlot;
    assert y !in q;
    var arena', q' := OpenedTarget(arena, z, dz), q + multiset{y};
    OpenTargetKeepsSearchInv(topo, wm, arena, q, closed, startC, targetC, z, dz);
    OpenTargetGrows(wm, arena, q, z, dz);
    GrowsKeepsCoverage(topo, wm, arena, q, wm, arena', q', z, dz, done);
    ExpandingIntro(topo, wm, arena', q', closed, startC, targetC, z, dz, done, n);
  }

  lemma OpenTargetGrows(wm: Handles, arena: Arena, q: Queue, z: nat, dz: int)
    requires |arena| > TargetSlot && TargetSlot !in q && !arena[TargetSlot].closed
    ensures Grows(wm, arena, q, wm, OpenedTarget(arena, z, dz), q + multiset{TargetSlot})
  {
  }

  /** A new node for tile `n`, opened from closed `z` at d(z)+1, appended to the arena. */
  function Appended(arena: Arena, n: Coordinates, z: nat, dz: int): Arena
  {
    arena + [TileWrapper(n, true, false, dz + 1, Some(z))]
  }

  /** Exploring a freshly appended node opens it and pushes it. */
  lemma FreshExplored(arena: Arena, q: Queue, n: Coordinates, z: nat, arena': Arena, q': Queue)
    requires z < |arena| && Explored(arena + [Fresh(n)], q, |arena|, z, arena', q')
    ensures arena' == Appended(arena, n, z, arena[z].distance) && q' == q + multiset{|arena|}
  {
  }

  lemma FreshKeepsParents(topo: ExitMap, arena: Arena, n: Coordinates, z: nat, dz: int)
    requires ParentsLinked(topo, arena)
    requires z < |arena| && arena[z].closed && arena[z].distance == dz && Step(topo, arena[z].coord, n)
    ensures ParentsLinked(topo, Appended(arena, n, z, dz))
  {
    var arena' := Appended(arena, n, z, dz);
    forall i | 0 < i < |arena'| && arena'[i].open ensures HasParent(topo, arena', i) {
      if i < |arena| {
        assert HasParent(topo, arena, i);
      }
    }
  }

  lemma FreshKeepsHandles(topo: ExitMap, wm: Handles, arena: Arena, startC: Coordinates, targetC: Coordinates,
                          n: Coordinates, z: nat, dz: int)
    requires HandlesLinked(topo, wm, arena, startC, targetC) && Slots(topo, arena, startC, targetC)
    requires n in wm && wm[n] == None
    ensures Slots(topo, Appended(arena, n, z, dz), startC, targetC)
    ensures HandlesLinked(topo, wm[n := Some(|arena|)], Appended(arena, n, z, dz), startC, targetC)
  {
    var arena', wm' := Appended(arena, n, z, dz), wm[n := Some(|arena|)];
    forall i | 0 <= i < |arena'| && arena'[i].open && (i != StartSlot || startC != targetC)
      ensures arena'[i].coord in wm' && wm'[arena'[i].coord] == Some(i)
    {
      if i < |arena| {
        assert wm[arena[i].coord] == Some(i);
      }
    }
  }

  lemma FreshKeepsQueue(arena: Arena, q: Queue, closed: seq<nat>, n: Coordinates, z: nat, dz: int)
    requires QueueMatches(arena, q, closed, -1) && Layered(arena, q, dz)
    ensures QueueMatches(Appended(arena, n, z, dz), q + multiset{|arena|}, closed, -1)
    ensures Layered(Appended(arena, n, z, dz), q + multiset{|arena|}, dz)
  {
    assert |arena| !in q;
    assert (q + multiset{|arena|})[|arena|] == 1;
  }

  lemma FreshGrows(wm: Handles, arena: Arena, q: Queue, n: Coordinates, z: nat, dz: int)
    requires n in wm && wm[n] == None
    ensures Grows(wm, arena, q, wm[n := Some(|arena|)], Appended(arena, n, z, dz), q + multiset{|arena|})
  {
  }

  /** Giving the new tile `n`, an exit of `z`, a node keeps the invariant and reaches `n`. */
  lemma FreshKeepsExpanding(topo: ExitMap, wm: Handles, arena: Arena, q: Queue, closed: seq<nat>,
                            startC: Coordinates, targetC: Coordinates, z: nat, dz: int, done: seq<Coordinates>,
                            n: Coordinates)
    requires Expanding(topo, wm, arena, q, closed, startC, targetC, z, dz, done)
    requires Step(topo, arena[z].coord, n) && n in wm && wm[n] == None
    ensures n != targetC
    ensures Expanding(topo, wm[n := Some(|arena|)], Appended(arena, n, z, dz), q + multiset{|arena|},
                      closed, startC, targetC, z, dz, done + [n])
  {
    var wm', arena', q' := wm[n := Some(|arena|)], Appended(arena, n, z, dz), q + multiset{|arena|};
    FreshKeepsParents(topo, arena, n, z, dz);
    FreshKeepsHandles(topo, wm, arena, startC, targetC, n, z, dz);
    FreshKeepsQueue(arena, q, closed, n, z, dz);
    assert SearchInv(topo, wm', arena', q', closed, startC, targetC, -1, dz);
    FreshGrows(wm, arena, q, n, z, dz);
    GrowsKeepsCoverage(topo, wm, arena, q, wm', arena', q', z, dz, done);
    ExpandingIntro(topo, wm', arena', q', closed, startC, targetC, z, dz, done, n);
  }

  /** Exploring a closed node changes nothing. */
  lemma ExploredClosedCase(topo: ExitMap, wm: Handles, arena: Arena, q: Queue, closed: seq<nat>,
                              startC: Coordinates, targetC: Coordinates, z: nat, dz: int, done: seq<Coordinates>,
                              n: Coordinates, y: nat, arena': Arena, q': Queue)
    requires Expanding(topo, wm, arena, q, closed, startC, targetC, z, dz, done)
    requires Step(topo, arena[z].coord, n) && n in wm && wm[n] == Some(y) && y < |arena|
    requires Explored(arena, q, y, z, arena', q')
    requires arena[y].closed
    ensures Expanding(topo, wm, arena', q', closed, startC, targetC, z, dz, done + [n])
  {
    assert arena' == arena && q' == q;
    ExploreClosed(topo, wm, arena, q, closed, startC, targetC, z, dz, done, n, y);
  }

  /** Exploring an open, unclosed node changes nothing either: it is never relaxed. */
  lemma ExploredOpenCase(topo: ExitMap, wm: Handles, arena: Arena, q: Queue, closed: seq<nat>,
                              startC: Coordinates, targetC: Coordinates, z: nat, dz: int, done: seq<Coordinates>,
                              n: Coordinates, y: nat, arena': Arena, q': Queue)
    requires Expanding(topo, wm, arena, q, closed, startC, targetC, z, dz, done)
    requires Step(topo, arena[z].coord, n) && n in wm && wm[n] == Some(y) && y < |arena|
    requires Explored(arena, q, y, z, arena', q')
    requires arena[y].open && !arena[y].closed
    ensures Expanding(topo, wm, arena', q', closed, startC, targetC, z, dz, done + [n])
  {
    NoRelaxation(topo, wm, arena, q, closed, startC, targetC, z, dz, done, y);
    assert arena' == arena && q' == q;
    ExploreOpenKept(topo, wm, arena, q, closed, startC, targetC, z, dz, done, n, y);
  }

  /** Exploring the unopened node, the target's, opens and queues it. */
  lemma ExploredTargetCase(topo: ExitMap, wm: Handles, arena: Arena, q: Queue, closed: seq<nat>,
                              startC: Coordinates, targetC: Coordinates, z: nat, dz: int, done: seq<Coordinates>,
                              n: Coordinates, y: nat, arena': Arena, q': Queue)
    requires Expanding(topo, wm, arena, q, closed, startC, targetC, z, dz, done)
    requires Step(topo, arena[z].coord, n) && n in wm && wm[n] == Some(y) && y < |arena|
    requires Explored(arena, q, y, z, arena', q')
    requires !arena[y].open && !arena[y].closed
    ensures Expanding(topo, wm, arena', q', closed, startC, targetC, z, dz, done + [n])
  {
    ExploreTarget(topo, wm, arena, q, closed, startC, targetC, z, dz, done, n, y);
    ExploredTarget(arena, q, z, dz, arena', q');
  }

  /** Exploring the unopened target node from `z` opens it at d(z)+1 and queues it. */
  lemma ExploredTarget(arena: Arena, q: Queue, z: nat, dz: int, arena': Arena, q': Queue)
    requires TargetSlot < |arena| && z < |arena| && arena[z].distance == dz
    requires !arena[TargetSlot].open && !arena[TargetSlot].closed
    requires Explored(arena, q, TargetSlot, z, arena', q')
    ensures arena' == OpenedTarget(arena, z, dz) && q' == q + multiset{TargetSlot}
  {
  }

  /** Exploring the existing node of tile `n`, an exit of `z`, keeps the invariant and reaches `n`. */
  lemma ExploreKeepsExpanding(topo: ExitMap, wm: Handles, arena: Arena, q: Queue, closed: seq<nat>,
                              startC: Coordinates, targetC: Coordinates, z: nat, dz: int, done: seq<Coordinates>,
                              n: Coordinates, y: nat, arena': Arena, q': Queue)
    requires Expanding(topo, wm, arena, q, closed, startC, targetC, z, dz, done)
    requires Step(topo, arena[z].coord, n) && n in wm && wm[n] == Some(y) && y < |arena|
    requires Explored(arena, q, y, z, arena', q')
    ensures Expanding(topo, wm, arena', q', closed, startC, targetC, z, dz, done + [n])
  {
    if arena[y].closed {
      ExploredClosedCase(topo, wm, arena, q, closed, startC, targetC, z, dz, done, n, y, arena', q');
    } else if arena[y].open {
      ExploredOpenCase(topo, wm, arena, q, closed, startC, targetC, z, dz, done, n, y, arena', q');
    } else {
      ExploredTargetCase(topo, wm, arena, q, closed, startC, targetC, z, dz, done, n, y, arena', q');
    }
  }

  /**
   * One pass of the inner loop on tile `n`: a tile with a node has that
   * node explored; a tile without is first given a new node in the next
   * slot, which is then explored.
   */
  ghost predicate ExitExplored(wm: Handles, arena: Arena, q: Queue, z: nat, n: Coordinates,
                               wm': Handles, arena': Arena, q': Queue)
    requires z < |arena|
  {
    && n in wm
    && if wm[n].Some? then
         && wm[n].value < |arena| && wm' == wm
         && Explored(arena, q, wm[n].value, z, arena', q')
       else
         && wm' == wm[n := Some(|arena|)]
         && Explored(arena + [Fresh(n)], q, |arena|, z, arena', q')
  }

  /** One pass of the inner loop closes nothing, adds nodes only at the end, and moves no node. */
  lemma ExitKeepsShape(wm: Handles, arena: Arena, q: Queue, z: nat, n: Coordinates, wm': Handles, arena': Arena, q': Queue)
    requires z < |arena| && ExitExplored(wm, arena, q, z, n, wm', arena', q')
    ensures |arena'| >= |arena|
    ensures forall i :: 0 <= i < |arena'| ==> (arena'[i].closed <==> i < |arena| && arena[i].closed)
    ensures forall i :: 0 <= i < |arena| ==> arena'[i].coord == arena[i].coord
  {
  }

  /** One pass of the inner loop keeps the expansion invariant and reaches `n`. */
  lemma ExitKeepsExpanding(topo: ExitMap, wm: Handles, arena: Arena, q: Queue, closed: seq<nat>,
                           startC: Coordinates, targetC: Coordinates, z: nat, done: seq<Coordinates>,
                           n: Coordinates, wm': Handles, arena': Arena, q': Queue)
    requires z < |arena|
    requires Expanding(topo, wm, arena, q, closed, startC, targetC, z, arena[z].distance, done)
    requires Step(topo, arena[z].coord, n)
    requires ExitExplored(wm, arena, q, z, n, wm', arena', q')
    ensures Expanding(topo, wm', arena', q', closed, startC, targetC, z, arena[z].distance, done + [n])
  {
    if wm[n].Some? {
      ExploreKeepsExpanding(topo, wm, arena, q, closed, startC, targetC, z, arena[z].distance, done, n, wm[n].value, arena', q');
    } else {
      FreshExplored(arena, q, n, z, arena', q');
      FreshKeepsExpanding(topo, wm, arena, q, closed, startC, targetC, z, arena[z].distance, done, n);
    }
  }

  // The main loop of the search.

  /** The arena when the loop starts: the open start node at distance 0 and the unreached target node. */
  function InitialArena(startC: Coordinates, targetC: Coordinates): (arena: Arena)
    ensures |arena| == 2 && arena[StartSlot].coord == startC && arena[TargetSlot].coord == targetC
  {
    [TileWrapper(startC, true, false, 0, None), Fresh(targetC)]
  }

  /** No tile has a node. */
  ghost predicate NoHandles(wm: Handles)
  {
    forall c :: c in wm ==> wm[c] == None
  }

  /** The handles when the loop starts: the start tile's node, then the target tile's, which wins when they coincide. */
  function InitialHandles(wm: Handles, startC: Coordinates, targetC: Coordinates): Handles
  {
    wm[startC := Some(StartSlot)][targetC := Some(TargetSlot)]
  }

  /** The search starts in a state satisfying the loop invariant, with nothing closed. */
  lemma InitialInv(topo: ExitMap, wm: Handles, startC: Coordinates, targetC: Coordinates)
    requires wm.Keys == topo.Keys && NoHandles(wm) && startC in topo && targetC in topo
    ensures SearchInv(topo, InitialHandles(wm, startC, targetC), InitialArena(startC, targetC), multiset{StartSlot},
                      [], startC, targetC, -1, 0)
    ensures Frontier(topo, InitialHandles(wm, startC, targetC), InitialArena(startC, targetC), multiset{StartSlot}, -1)
  {
    var wm', arena := InitialHandles(wm, startC, targetC), InitialArena(startC, targetC);
    assert forall c :: c in wm' && wm'[c].Some? ==> c == startC || c == targetC;
  }

  /** `arena` with node `z` closed. */
  function Close(arena: Arena, z: nat): Arena
    requires z < |arena|
  {
    arena[z := arena[z].(closed := true)]
  }

  lemma CloseKeepsParents(topo: ExitMap, arena: Arena, z: nat)
    requires ParentsLinked(topo, arena) && z < |arena| && arena[z].open
    ensures ParentsLinked(topo, Close(arena, z))
  {
    var arena' := Close(arena, z);
    forall i | 0 < i < |arena'| && arena'[i].open ensures HasParent(topo, arena', i) {
      assert HasParent(topo, arena, i);
    }
  }

  lemma CloseKeepsHandles(topo: ExitMap, wm: Handles, arena: Arena, startC: Coordinates, targetC: Coordinates, z: nat)
    requires Slots(topo, arena, startC, targetC) && HandlesLinked(topo, wm, arena, startC, targetC)
    requires z < |arena| && arena[z].coord != targetC
    ensures Slots(topo, Close(arena, z), startC, targetC)
    ensures HandlesLinked(topo, wm, Close(arena, z), startC, targetC)
  {
  }

  /** Popping the top `z` and closing it keeps the queue matched and the layers ordered at d(z). */
  lemma CloseKeepsQueue(arena: Arena, q: Queue, closed: seq<nat>, level: int, z: nat)
    requires QueueMatches(arena, q, closed, -1) && Layered(arena, q, level) && IsTop(arena, q, z)
    ensures QueueMatches(Close(arena, z), q - multiset{z}, [z] + closed, -1)
    ensures Layered(Close(arena, z), q - multiset{z}, arena[z].distance)
  {
    var arena', q' := Close(arena, z), q - multiset{z};
    assert q[z] == 1 && z !in q';
    forall i | 0 <= i < |arena'| && arena'[i].closed ensures arena'[i].distance <= arena[z].distance {
      if i != z {
        assert arena[i].distance <= level;
      }
    }
  }

  lemma CloseKeepsFrontier(topo: ExitMap, wm: Handles, arena: Arena, q: Queue, z: nat)
    requires Frontier(topo, wm, arena, q, -1) && z < |arena| && z in q
    requires forall c :: c in wm && wm[c].Some? ==> wm[c].value < |arena|
    ensures Frontier(topo, wm, Close(arena, z), q - multiset{z}, z)
  {
    var arena', q' := Close(arena, z), q - multiset{z};
    forall i | 0 <= i < |arena'| && arena'[i].closed && i != z && arena'[i].coord in topo
      ensures Covered(topo, wm, arena', q', i)
    {
      assert Covered(topo, wm, arena, q, i);
      forall n | n in Neighbourhood(arena'[i].coord, topo[arena'[i].coord])
        ensures Reached(wm, arena', q', n, arena'[i].distance + 1)
      {
        assert Reached(wm, arena, q, n, arena[i].distance + 1);
        var k := wm[n].value;
        assert arena'[k].distance == arena[k].distance;
        if k != z && !arena[k].closed {
          assert k in q';
        }
      }
    }
  }

  /** Closed nodes sit on pairwise different tiles, none of them an unclosed open node's. */
  lemma ClosedTilesDistinct(topo: ExitMap, wm: Handles, arena: Arena, q: Queue, closed: seq<nat>,
                            startC: Coordinates, targetC: Coordinates, level: int, z: nat)
    requires SearchInv(topo, wm, arena, q, closed, startC, targetC, -1, level)
    requires startC != targetC && z < |arena| && arena[z].open && !arena[z].closed
    ensures arena[z].coord !in ClosedTiles(arena)
  {
    forall i | 0 <= i < |arena| && arena[i].closed ensures arena[i].coord != arena[z].coord {
      assert wm[arena[i].coord] == Some(i);
    }
  }

  lemma ClosedTilesClose(arena: Arena, z: nat)
    requires z < |arena|
    ensures ClosedTiles(Close(arena, z)) == ClosedTiles(arena) + {arena[z].coord}
  {
    var arena' := Close(arena, z);
    assert arena'[z].closed && arena'[z].coord == arena[z].coord;
    forall c | c in ClosedTiles(arena') ensures c in ClosedTiles(arena) + {arena[z].coord} {
      var i :| 0 <= i < |arena'| && arena'[i].closed && arena'[i].coord == c;
      if i != z {
        assert arena[i].closed;
      }
    }
    forall c | c in ClosedTiles(arena) ensures c in ClosedTiles(arena') {
      var i :| 0 <= i < |arena| && arena[i].closed && arena[i].coord == c;
      assert arena'[i].closed && arena'[i].coord == c;
    }
  }

  /**
   * Closing the top `z` of the queue, not the target, starts the expansion
   * of `z` and adds its tile to the closed ones.
   */
  lemma CloseTop(topo: ExitMap, wm: Handles, arena: Arena, q: Queue, closed: seq<nat>,
                 startC: Coordinates, targetC: Coordinates, level: int, z: nat)
    requires SearchInv(topo, wm, arena, q, closed, startC, targetC, -1, level)
    requires Frontier(topo, wm, arena, q, -1)
    requires IsTop(arena, q, z) && arena[z].coord != targetC
    ensures Expanding(topo, wm, Close(arena, z), q - multiset{z}, [z] + closed, startC, targetC, z, arena[z].distance, [])
    ensures ClosedTiles(Close(arena, z)) == ClosedTiles(arena) + {arena[z].coord}
    ensures arena[z].coord !in ClosedTiles(arena) && arena[z].coord in topo
  {
    assert startC != targetC;
    CloseKeepsParents(topo, arena, z);
    CloseKeepsHandles(topo, wm, arena, startC, targetC, z);
    CloseKeepsQueue(arena, q, closed, level, z);
    CloseKeepsFrontier(topo, wm, arena, q, z);
    ClosedTilesDistinct(topo, wm, arena, q, closed, startC, targetC, level, z);
    ClosedTilesClose(arena, z);
  }

  /** Closing a node on a tile not closed before leaves fewer tiles to close. */
  lemma ClosingShrinks(keys: set<Coordinates>, before: set<Coordinates>, after: set<Coordinates>, c: Coordinates)
    requires after == before + {c} && c in keys && c !in before
    ensures |keys - after| < |keys - before|
  {
    assert keys - after == (keys - before) - {c};
  }

  /** Expanding nodes leaves the closed tiles as they were. */
  lemma ClosedTilesKept(arena: Arena, arena': Arena)
    requires |arena'| >= |arena|
    requires forall i :: 0 <= i < |arena'| ==> (arena'[i].closed <==> i < |arena| && arena[i].closed)
    requires forall i :: 0 <= i < |arena| ==> arena'[i].coord == arena[i].coord
    ensures ClosedTiles(arena') == ClosedTiles(arena)
  {
    forall c | c in ClosedTiles(arena') ensures c in ClosedTiles(arena) {
      var i :| 0 <= i < |arena'| && arena'[i].closed && arena'[i].coord == c;
      assert arena[i].closed;
    }
    forall c | c in ClosedTiles(arena) ensures c in ClosedTiles(arena') {
      var i :| 0 <= i < |arena| && arena[i].closed && arena[i].coord == c;
      assert arena'[i].closed && arena'[i].coord == c;
    }
  }

  /** `d` is no longer than any route from `a` to `b`. */
  ghost predicate NoShorterRoute(topo: ExitMap, a: Coordinates, b: Coordinates, d: int)
  {
    forall p :: IsPath(topo, p) && p[0] == a && p[|p| - 1] == b ==> d <= |p| - 1
  }

  /**
   * Popping a node of the target tile ends the search: it is the goal, and
   * its distance is that of a shortest route from the start.
   */
  lemma FoundTarget(topo: ExitMap, wm: Handles, arena: Arena, q: Queue, closed: seq<nat>,
                    startC: Coordinates, targetC: Coordinates, level: int, z: nat)
    requires SearchInv(topo, wm, arena, q, closed, startC, targetC, -1, level)
    requires Frontier(topo, wm, arena, q, -1)
    requires IsTop(arena, q, z) && arena[z].coord == targetC
    ensures SearchInv(topo, wm, arena, q - multiset{z}, closed, startC, targetC, z, level)
    ensures arena[z].open && !arena[z].closed && z !in q - multiset{z}
    ensures NoShorterRoute(topo, startC, targetC, arena[z].distance)
  {
    assert q[z] == 1;
    forall p | IsPath(topo, p) && p[0] == startC && p[|p| - 1] == targetC ensures arena[z].distance <= |p| - 1 {
      if startC == targetC {
        assert z == StartSlot;
      } else {
        assert wm[startC] == Some(StartSlot);
        var j := FrontierMeetsRoute(topo, wm, arena, q, targetC, p, 0);
      }
    }
  }

  /**
   * The state between passes of the main loop: while the goal is not found,
   * the loop invariant with every closed node covered; once it is, the goal
   * node about the target tile, popped, at the distance of a shortest route.
   */
  ghost predicate SearchState(topo: ExitMap, wm: Handles, arena: Arena, q: Queue, closed: seq<nat>,
                              startC: Coordinates, targetC: Coordinates, found: bool, goal: nat, level: int)
  {
    if found then
      && SearchInv(topo, wm, arena, q, closed, startC, targetC, goal, level)
      && goal < |arena| && arena[goal].open && !arena[goal].closed && arena[goal].coord == targetC && goal !in q
      && NoShorterRoute(topo, startC, targetC, arena[goal].distance)
    else
      SearchInv(topo, wm, arena, q, closed, startC, targetC, -1, level) && Frontier(topo, wm, arena, q, -1)
  }

  /** A queue that runs dry before the target is popped means there is no route to it. */
  lemma EmptyQueueUnreachable(topo: ExitMap, wm: Handles, arena: Arena, closed: seq<nat>,
                              startC: Coordinates, targetC: Coordinates, level: int)
    requires SearchInv(topo, wm, arena, multiset{}, closed, startC, targetC, -1, level)
    requires Frontier(topo, wm, arena, multiset{}, -1)
    ensures !Reachable(topo, startC, targetC)
  {
    if Reachable(topo, startC, targetC) {
      var p :| IsPath(topo, p) && p[0] == startC && p[|p| - 1] == targetC;
      assert arena[StartSlot].closed;
      assert startC != targetC;
      assert wm[startC] == Some(StartSlot);
      var j := FrontierMeetsRoute(topo, wm, arena, multiset{}, targetC, p, 0);
    }
  }

  /** `route` is a route from `a` to `b` and none is shorter. */
  ghost predicate ShortestRoute(topo: ExitMap, a: Coordinates, b: Coordinates, route: seq<Coordinates>)
  {
    IsPath(topo, route) && route[0] == a && route[|route| - 1] == b && NoShorterRoute(topo, a, b, |route| - 1)
  }

  /**
   * After the search: every handle names a node of its own tile, every
   * handle but the target's names a queued or closed node, and no queued or
   * closed node sits on the target.
   */
  ghost predicate Settled(topo: ExitMap, wm: Handles, arena: Arena, q: Queue, closed: seq<nat>, targetC: Coordinates)
  {
    && targetC in wm
    && (forall c :: c in wm && wm[c].Some? ==> wm[c].value < |arena| && arena[wm[c].value].coord == c)
    && (forall c :: c in wm && wm[c].Some? && c != targetC ==> wm[c].value in q || wm[c].value in closed)
    && (forall k :: k in q ==> k < |arena| && arena[k].coord in topo && arena[k].coord != targetC)
    && (forall k :: k in closed ==> k < |arena| && arena[k].coord in topo && arena[k].coord != targetC)
  }

  /**
   * When the goal has been popped: the parent links lead from it back to
   * the start node, the only open node on the start tile, at the length of
   * a shortest route; and the handles are settled.
   */
  lemma SearchEndState(topo: ExitMap, wm: Handles, arena: Arena, q: Queue, closed: seq<nat>,
                       startC: Coordinates, targetC: Coordinates, goal: nat, level: int)
    requires SearchState(topo, wm, arena, q, closed, startC, targetC, true, goal, level)
    ensures ParentsLinked(topo, arena) && goal < |arena| && arena[goal].open
    ensures arena[StartSlot].coord == startC && arena[goal].coord == targetC
    ensures NoShorterRoute(topo, startC, targetC, arena[goal].distance)
    ensures forall i :: 0 <= i < |arena| ==> arena[i].coord in topo
    ensures wm.Keys == topo.Keys && Settled(topo, wm, arena, q, closed, targetC)
    ensures forall i :: 0 <= i < |arena| && arena[i].open && arena[i].coord == startC ==> i == StartSlot
  {
    forall c | c in wm && wm[c].Some? && c != targetC ensures wm[c].value in q || wm[c].value in closed {
      var m := wm[c].value;
      assert arena[m].open && m != goal;
    }
    forall k | k in q ensures arena[k].coord != targetC {
      if startC != targetC {
        assert wm[arena[k].coord] == Some(k) && wm[targetC] == Some(goal);
      }
    }
    forall i | 0 <= i < |arena| && arena[i].open && arena[i].coord == startC ensures i == StartSlot {
      if startC != targetC {
        assert wm[startC] == Some(i);
        assert wm[startC] == Some(StartSlot);
      }
    }
  }

  // Clean-up after the search.

  /**
   * Clean-up so far: handles are only ever cleared, the target tile's is
   * kept, and every handle still set but the target tile's names a node of
   * `open` or `rest`, the nodes whose tiles are still to be reset.
   */
  ghost predicate Pending(wm0: Handles, wm: Handles, targetC: Coordinates, open: Queue, rest: seq<nat>)
  {
    && wm.Keys == wm0.Keys && targetC in wm && wm[targetC] == wm0[targetC]
    && (forall c :: c in wm && wm[c].Some? ==> wm[c] == wm0[c])
    && (forall c :: c in wm && wm[c].Some? && c != targetC ==> wm[c].value in open || wm[c].value in rest)
  }

  /** Resetting the tile of node `k`, off the target tile, keeps clean-up on track with `k` handled. */
  lemma ReleaseOne(wm0: Handles, wm: Handles, arena: Arena, targetC: Coordinates,
                   open: Queue, rest: seq<nat>, open': Queue, rest': seq<nat>, k: nat)
    requires Pending(wm0, wm, targetC, open, rest)
    requires forall c :: c in wm0 && wm0[c].Some? ==> wm0[c].value < |arena| && arena[wm0[c].value].coord == c
    requires k < |arena| && arena[k].coord != targetC && arena[k].coord in wm
    requires forall m :: (m in open || m in rest) && m != k ==> m in open' || m in rest'
    ensures Pending(wm0, wm[arena[k].coord := None], targetC, open', rest')
  {
    var wm' := wm[arena[k].coord := None];
    forall c | c in wm' && wm'[c].Some? && c != targetC ensures wm'[c].value in open' || wm'[c].value in rest' {
      assert wm[c] == wm0[c] && c != arena[k].coord;
    }
  }
}
