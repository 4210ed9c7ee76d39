/**
 * Continuous positions in tile units, as the trajectory uses them: the tile a
 * position lies in, and the centre of a tile.
 */
module Positions {
  import opened Tiles

  datatype Position = Position(x: real, y: real)

  /** The position a default-constructed Position is assumed to hold (its constructor is not part of this model). */
  const Origin := Position(0.0, 0.0)

  /** The tile containing `p` (floor of each coordinate). */
  function TileOf(p: Position): Coordinates
  {
    Coordinates(p.x.Floor, p.y.Floor)
  }

  /** The centre of tile `c`. */
  function Centre(c: Coordinates): Position
  {
    Position(c.abs as real + 0.5, c.ord as real + 0.5)
  }

  /** A tile's centre lies in that tile. */
  lemma TileOfCentre(c: Coordinates)
    ensures TileOf(Centre(c)) == c
  {
    FloorOfHalf(c.abs);
    FloorOfHalf(c.ord);
  }

  lemma FloorOfHalf(n: int)
    ensures (n as real + 0.5).Floor == n
  {
  }

  function Centres(cs: seq<Coordinates>): (ps: seq<Position>)
    ensures |ps| == |cs|
    ensures forall i :: 0 <= i < |cs| ==> ps[i] == Centre(cs[i])
  {
    if cs == [] then [] else [Centre(cs[0])] + Centres(cs[1..])
  }

  /**
   * The waypoint list of a trajectory that follows `route`: the literal start,
   * the centres of the intermediate tiles, and the literal target; a route of
   * one tile keeps only the start.
   */
  function Waypoints(start: Position, route: seq<Coordinates>, target: Position): (ws: seq<Position>)
    requires |route| >= 1
  {
    if |route| == 1 then [start] else [start] + Centres(route[1..|route| - 1]) + [target]
  }

  /** Putting a tile in front of a route puts its centre in front of the centres of all but the last tile. */
  lemma CentresInFront(c: Coordinates, route: seq<Coordinates>)
    requires |route| >= 1
    ensures Centres(([c] + route)[..|route|]) == [Centre(c)] + Centres(route[..|route| - 1])
  {
    assert ([c] + route)[..|route|] == [c] + route[..|route| - 1];
  }

  /** The centres of all tiles but the last, then the target, with the front swapped for the start: the waypoints. */
  lemma WaypointsFromCentres(start: Position, route: seq<Coordinates>, target: Position)
    requires |route| >= 1
    ensures [start] + (Centres(route[..|route| - 1]) + [target])[1..] == Waypoints(start, route, target)
  {
    if |route| > 1 {
      assert route[..|route| - 1] == [route[0]] + route[1..|route| - 1];
    }
  }

  /** Waypoint i lies in tile i of the route: one waypoint per tile. */
  lemma WaypointTiles(start: Position, route: seq<Coordinates>, target: Position)
    requires |route| >= 1 && TileOf(start) == route[0] && TileOf(target) == route[|route| - 1]
    ensures |Waypoints(start, route, target)| == |route|
    ensures forall i :: 0 <= i < |route| ==> TileOf(Waypoints(start, route, target)[i]) == route[i]
  {
    var ws := Waypoints(start, route, target);
    forall i | 0 <= i < |route| ensures TileOf(ws[i]) == route[i] {
      if 0 < i < |route| - 1 {
        assert ws[i] == Centre(route[i]);
        TileOfCentre(route[i]);
      }
    }
  }
}
