/**
 * Map cells: integer coordinates, the Tile entity with its four exit flags,
 * occupancy lists and search-node handle, and the tile graph the pathfinder
 * walks (code/src/generation/tile.h).
 */
module Tiles {
  import opened Wrappers

  /** Integer tile coordinates; a value type used as the key of the map. */
  datatype Coordinates = Coordinates(abs: int, ord: int) {

    function GetAbs(): int { abs }

    function GetOrd(): int { ord }

    /** setAbs on a copy: the abscissa becomes `a`, the ordinate is kept. */
    function SetAbs(a: int): (c: Coordinates)
      ensures c.GetAbs() == a && c.GetOrd() == GetOrd()
    {
      Coordinates(a, ord)
    }

    /** setOrd on a copy: the ordinate becomes `o`, the abscissa is kept. */
    function SetOrd(o: int): (c: Coordinates)
      ensures c.GetOrd() == o && c.GetAbs() == GetAbs()
    {
      Coordinates(abs, o)
    }

    /** Field-by-field comparison, which coincides with value equality. */
    function Equals(c: Coordinates): (r: bool)
      ensures r <==> this == c
    {
      abs == c.abs && ord == c.ord
    }
  }

  /** The building categories of a tile. */
  datatype TileType = RoadH | RoadV | Inter | Bank | House | Blank

  /** NPCs and clickable objects are referred to by identity only. */
  type NpcRef = nat
  type StuffRef = nat

  /** The four exit flags of one tile. */
  datatype Exits = Exits(gou: bool, god: bool, gor: bool, gol: bool)

  /**
   * The tiles one step away from `c`, in the order the pathfinder's list
   * holds them (each flag pushes at the front, gou first, so the fourth flag
   * comes out first): god -> (abs+1, ord), gor -> (abs, ord+1),
   * gol -> (abs, ord-1), gou -> (abs-1, ord).
   */
  function Neighbourhood(c: Coordinates, e: Exits): (ns: seq<Coordinates>)
    ensures |ns| <= 4
    ensures forall n :: n in ns ==> Chebyshev(c, n) == 1
  {
    (if e.god then [Coordinates(c.abs + 1, c.ord)] else [])
    + (if e.gor then [Coordinates(c.abs, c.ord + 1)] else [])
    + (if e.gol then [Coordinates(c.abs, c.ord - 1)] else [])
    + (if e.gou then [Coordinates(c.abs - 1, c.ord)] else [])
  }

  function Abs(x: int): nat { if x < 0 then -x else x }

  /** The infinity-norm distance between two tiles. */
  function Chebyshev(a: Coordinates, b: Coordinates): nat
  {
    var dx, dy := Abs(a.abs - b.abs), Abs(a.ord - b.ord);
    if dx < dy then dy else dx
  }

  /** The exit flags of every tile of a map: the graph the pathfinder searches. */
  type ExitMap = map<Coordinates, Exits>

  /** One legal move: `b` is flagged as an exit of tile `a`. */
  ghost predicate Step(topo: ExitMap, a: Coordinates, b: Coordinates)
  {
    a in topo && b in Neighbourhood(a, topo[a])
  }

  /** A route of one or more tiles, each one legal step from the one before. */
  ghost predicate IsPath(topo: ExitMap, p: seq<Coordinates>)
  {
    && |p| >= 1
    && p[0] in topo
    && forall i :: 0 <= i < |p| - 1 ==> Step(topo, p[i], p[i + 1])
  }

  ghost predicate Reachable(topo: ExitMap, a: Coordinates, b: Coordinates)
  {
    exists p :: IsPath(topo, p) && p[0] == a && p[|p| - 1] == b
  }

  /** No exit leads off the map. */
  ghost predicate ExitsStayOnMap(topo: ExitMap)
  {
    forall a, b :: Step(topo, a, b) ==> b in topo
  }

  class Tile {
    var tileType: TileType
    /** exits towards (abs-1, ord), (abs+1, ord), (abs, ord+1), (abs, ord-1) as the pathfinder reads them */
    var gou: bool
    var god: bool
    var gor: bool
    var gol: bool
    /** speed factor in the tile, between 0 and 1 */
    var speed: real
    var coord: Coordinates
    var listNPC: seq<NpcRef>
    var listStuff: seq<StuffRef>
    /** the search node of the running query, as an index into its arena */
    var wrapper: Option<nat>

    constructor (abs: int, ord: int, tileType: TileType, gou: bool, god: bool, gor: bool, gol: bool, speed: real)
      ensures this.coord == Coordinates(abs, ord) && this.tileType == tileType && this.speed == speed
      ensures GetExits() == Exits(gou, god, gor, gol)
      ensures listNPC == [] && listStuff == [] && wrapper == None
    {
      this.tileType := tileType;
      this.gou, this.god, this.gor, this.gol := gou, god, gor, gol;
      this.speed := speed;
      this.coord := Coordinates(abs, ord);
      listNPC, listStuff := [], [];
      wrapper := None;
    }

    function GetGou(): bool reads this`gou { gou }
    function GetGod(): bool reads this`god { god }
    function GetGor(): bool reads this`gor { gor }
    function GetGol(): bool reads this`gol { gol }
    function GetSpeed(): real reads this`speed { speed }
    function GetCoord(): Coordinates reads this`coord { coord }
    function GetWrapper(): Option<nat> reads this`wrapper { wrapper }
    function GetNPCs(): seq<NpcRef> reads this`listNPC { listNPC }
    function GetStuffs(): seq<StuffRef> reads this`listStuff { listStuff }

    function GetExits(): Exits
      reads this`gou, this`god, this`gor, this`gol
    {
      Exits(gou, god, gor, gol)
    }

    // Each setter may change its own field only (its modifies clause names one field).

    method SetGou(b: bool)
      modifies this`gou
      ensures GetGou() == b
    {
      gou := b;
    }

    method SetGod(b: bool)
      modifies this`god
      ensures GetGod() == b
    {
      god := b;
    }

    method SetGor(b: bool)
      modifies this`gor
      ensures GetGor() == b
    {
      gor := b;
    }

    method SetGol(b: bool)
      modifies this`gol
      ensures GetGol() == b
    {
      gol := b;
    }

    method SetSpeed(s: real)
      modifies this`speed
      ensures GetSpeed() == s
    {
      speed := s;
    }

    method SetCoord(c: Coordinates)
      modifies this`coord
      ensures GetCoord() == c
    {
      coord := c;
    }

    /** Same coordinates; every other field is ignored. */
    predicate Equals(t: Tile)
      reads this`coord, t`coord
      ensures Equals(t) <==> GetCoord() == t.GetCoord()
    {
      coord.Equals(t.coord)
    }

    method SetWrapper(w: Option<nat>)
      modifies this`wrapper
      ensures GetWrapper() == w
    {
      wrapper := w;
    }

    method ResetWrapper()
      modifies this`wrapper
      ensures GetWrapper() == None
    {
      wrapper := None;
    }

    method AddNPC(a: NpcRef)
      modifies this`listNPC
      ensures a in GetNPCs()
      ensures multiset(GetNPCs()) == multiset(old(GetNPCs())) + multiset{a}
    {
      listNPC := listNPC + [a];
    }

    method RemoveNPC(a: NpcRef)
      modifies this`listNPC
      ensures a !in GetNPCs()
      ensures multiset(GetNPCs()) == multiset(old(GetNPCs()))[a := 0]
    {
      listNPC := Without(listNPC, a);
    }

    method AddStuff(a: StuffRef)
      modifies this`listStuff
      ensures a in GetStuffs()
      ensures multiset(GetStuffs()) == multiset(old(GetStuffs())) + multiset{a}
    {
      listStuff := listStuff + [a];
    }

    method RemoveStuff(a: StuffRef)
      modifies this`listStuff
      ensures a !in GetStuffs()
      ensures multiset(GetStuffs()) == multiset(old(GetStuffs()))[a := 0]
    {
      listStuff := Without(listStuff, a);
    }

    /** The tiles of `grid` this tile's exit flags lead to. */
    function NeighbourTiles(grid: Geography): (res: seq<Tile>)
      requires Keyed(grid)
      reads this`coord, this`gou, this`god, this`gor, this`gol, grid.Values`coord
      ensures forall i :: 0 <= i < |res| ==> res[i] in grid.Values
      ensures forall c :: c in grid ==> (grid[c] in res <==> c in Neighbourhood(coord, GetExits()))
    {
      Lookup(grid, Neighbourhood(coord, GetExits()))
    }

    /** The tiles of `grid` at infinity-norm distance at most `r` from this tile. */
    function TilesInRadius(grid: Geography, r: int): (res: set<Tile>)
      requires Keyed(grid)
      reads this`coord, grid.Values`coord
      ensures res <= grid.Values
      ensures forall c :: c in grid ==> (grid[c] in res <==> Chebyshev(c, coord) <= r)
    {
      set c | c in grid && Chebyshev(c, coord) <= r :: grid[c]
    }
  }

  /** `s` with every occurrence of `a` taken out, the rest in order. */
  function Without<T(==)>(s: seq<T>, a: T): (r: seq<T>)
    ensures a !in r
    ensures multiset(r) == multiset(s)[a := 0]
  {
    if s == [] then []
    else
      assert s == [s[0]] + s[1..];
      if s[0] == a then Without(s[1..], a) else [s[0]] + Without(s[1..], a)
  }

  /** The whole map, addressed by coordinates (the Geography collaborator). */
  type Geography = map<Coordinates, Tile>

  /** Every tile sits under its own coordinates. */
  ghost predicate Keyed(grid: Geography)
    reads grid.Values`coord
  {
    forall c :: c in grid ==> grid[c].coord == c
  }

  function Topology(grid: Geography): (topo: ExitMap)
    reads grid.Values`gou, grid.Values`god, grid.Values`gor, grid.Values`gol
    ensures topo.Keys == grid.Keys
  {
    map c | c in grid :: grid[c].GetExits()
  }

  /** The search-node handle of every tile. */
  function WrapperMap(grid: Geography): (wm: map<Coordinates, Option<nat>>)
    reads grid.Values`wrapper
    ensures wm.Keys == grid.Keys
  {
    map c | c in grid :: grid[c].wrapper
  }

  /** What the map must offer the pathfinder: keyed tiles and no exit off the map. */
  ghost predicate ValidGeography(grid: Geography)
    reads grid.Values`coord, grid.Values`gou, grid.Values`god, grid.Values`gor, grid.Values`gol
  {
    Keyed(grid) && ExitsStayOnMap(Topology(grid))
  }

  /** The tiles of `grid` at the coordinates `ns` that exist, in order. */
  function Lookup(grid: Geography, ns: seq<Coordinates>): (res: seq<Tile>)
    requires Keyed(grid)
    reads grid.Values`coord
    ensures forall i :: 0 <= i < |res| ==> res[i] in grid.Values
    ensures forall c :: c in grid ==> (grid[c] in res <==> c in ns)
  {
    if ns == [] then []
    else (if ns[0] in grid then [grid[ns[0]]] else []) + Lookup(grid, ns[1..])
  }

  /** `topo` holds the exit flags of every tile of `grid`. */
  ghost predicate ExitsAre(grid: Geography, topo: ExitMap)
    reads grid.Values`gou, grid.Values`god, grid.Values`gor, grid.Values`gol
  {
    grid.Keys == topo.Keys && forall c {:trigger grid[c]} :: c in grid ==> grid[c].GetExits() == topo[c]
  }

  /** `wm` holds the search-node handle of every tile of `grid`. */
  ghost predicate HandlesAre(grid: Geography, wm: map<Coordinates, Option<nat>>)
    reads grid.Values`wrapper
  {
    grid.Keys == wm.Keys && forall c {:trigger grid[c]} :: c in grid ==> grid[c].wrapper == wm[c]
  }

  /** The exit flags of a map, read off as a value. */
  lemma TopologyExits(grid: Geography)
    ensures ExitsAre(grid, Topology(grid))
  {
  }

  /** The handles of a map, read off as a value. */
  lemma WrapperMapHandles(grid: Geography)
    ensures HandlesAre(grid, WrapperMap(grid))
  {
  }

  lemma HandlesAreWrapperMap(grid: Geography, wm: map<Coordinates, Option<nat>>)
    requires HandlesAre(grid, wm)
    ensures WrapperMap(grid) == wm
  {
  }

  /** Setting one tile's handle changes that entry of the handle map and no other. */
  method SetTileWrapper(grid: Geography, ghost topo: ExitMap, ghost wm: map<Coordinates, Option<nat>>, c: Coordinates, w: Option<nat>)
    requires Keyed(grid) && ExitsAre(grid, topo) && HandlesAre(grid, wm) && c in grid
    modifies grid.Values`wrapper
    ensures Keyed(grid) && ExitsAre(grid, topo) && HandlesAre(grid, wm[c := w])
  {
    grid[c].SetWrapper(w);
    forall d | d in grid ensures grid[d].wrapper == wm[c := w][d] {
      if d != c {
        assert grid[d].coord != grid[c].coord;
      }
    }
  }

  /** Resetting one tile's handle clears that entry of the handle map and no other. */
  method ResetTileWrapper(grid: Geography, ghost topo: ExitMap, ghost wm: map<Coordinates, Option<nat>>, c: Coordinates)
    requires Keyed(grid) && ExitsAre(grid, topo) && HandlesAre(grid, wm) && c in grid
    modifies grid.Values`wrapper
    ensures Keyed(grid) && ExitsAre(grid, topo) && HandlesAre(grid, wm[c := None])
  {
    grid[c].ResetWrapper();
    forall d | d in grid ensures grid[d].wrapper == wm[c := None][d] {
      if d != c {
        assert grid[d].coord != grid[c].coord;
      }
    }
  }

  // Properties of the two neighbourhood queries.

  /** Every one-step neighbour lies within radius one. */
  lemma NeighboursWithinRadiusOne(t: Tile, grid: Geography)
    requires Keyed(grid)
    ensures forall u :: u in t.NeighbourTiles(grid) ==> u in t.TilesInRadius(grid, 1)
  {
    forall u | u in t.NeighbourTiles(grid) ensures u in t.TilesInRadius(grid, 1) {
      assert Chebyshev(t.coord, u.coord) == 1;
      assert Chebyshev(u.coord, t.coord) == 1;
    }
  }

  /** A larger radius takes in every tile a smaller one does. */
  lemma RadiusMonotonic(t: Tile, grid: Geography, r: int, r': int)
    requires Keyed(grid) && r <= r'
    ensures t.TilesInRadius(grid, r) <= t.TilesInRadius(grid, r')
  {
  }

  /** Radius zero yields exactly the tile itself, when it belongs to the map. */
  lemma RadiusZero(t: Tile, grid: Geography)
    requires Keyed(grid) && t.coord in grid && grid[t.coord] == t
    ensures t.TilesInRadius(grid, 0) == {t}
  {
    forall u | u in t.TilesInRadius(grid, 0) ensures u == t {
      assert u.coord == t.coord;
    }
  }
}
