/** Villager of src/Villager.cpp: a walker that asks the pathfinder for a route
    between two building entrances, then follows it tile by tile. Every grass
    tile it steps on gains desire-path stress; a saturated tile next to a
    street is paved, together with the grass around it. Pixel positions and
    movement speed are left out: a tick is told whether the next tile has
    been reached, and every random number arrives as a parameter. */
module Villagers {
  import opened Util
  import opened Maps
  import opened Regions
  import opened TileTypes
  import opened WorldMaps
  import opened UpdateRects
  import opened DesirePaths
  import opened Pathfinding

  /** Villager::State. */
  datatype State = AwaitingPath | EnqueuedForPath | PathProvided | Moving

  // ---------------------------------------------------------------------
  // The callbacks reset hands to the pathfinder

  /** isBlocked: every kind but Street, BuildingEntrance and Grass. Those
      are the kinds with a base cost other than water, which stays blocked. */
  predicate IsBlocked(t: TileType): (b: bool)
    ensures b <==> t == Water || BaseCostForValue(t, 14) == 0
  {
    !(t == Street || t == BuildingEntrance || t == Grass)
  }

  /** The blocked kinds are those without a base cost, plus water. */
  lemma BlockedKinds(t: TileType, grassDraw: uint8)
    requires IsGrassDraw(grassDraw as int)
    ensures IsBlocked(t) <==> BaseCostForValue(t, grassDraw) == 0 || t == Water
  {
  }

  predicate InWorld(world: WorldMap, x: nat, y: nat) {
    x < world.width && y < world.height
  }

  /** canTraverse: the target must not be blocked, and a diagonal move also
      needs both corner cells it cuts past to be free: every cell of the
      square the move spans other than the start is free, and so is the
      target even when it is the start. */
  predicate CanTraverseOn(world: WorldMap, fromX: nat, fromY: nat, toX: nat, toY: nat): (b: bool)
    requires world.Valid() && InWorld(world, fromX, fromY) && InWorld(world, toX, toY)
    ensures b <==> forall cx: nat, cy: nat | cx in {fromX, toX} && cy in {fromY, toY} && ((cx, cy) != (fromX, fromY) || (cx, cy) == (toX, toY)) ::
      !IsBlocked(world.At(cx, cy))
  {
    if IsBlocked(world.At(toX, toY)) then false
    else if fromX == toX || fromY == toY then true
    else !IsBlocked(world.At(fromX, toY)) && !IsBlocked(world.At(toX, fromY))
  }

  /** The closure reset passes as canTraverse. The pathfinder only asks
      about cells of the grid; elsewhere it answers false. */
  function TraverseCallback(world: WorldMap): CanTraverse
    requires world.Valid()
  {
    (fromX: nat, fromY: nat, toX: nat, toY: nat) =>
      InWorld(world, fromX, fromY) && InWorld(world, toX, toY) && CanTraverseOn(world, fromX, fromY, toX, toY)
  }

  /** An allowed move, spelled out: a diagonal step between two free tiles
      is allowed exactly when both of the other two cells of its 2x2 square
      are free as well, so the walker never squeezes between two obstacles. */
  lemma DiagonalNeedsBothCorners(world: WorldMap, fromX: nat, fromY: nat, toX: nat, toY: nat)
    requires world.Valid() && InWorld(world, fromX, fromY) && InWorld(world, toX, toY)
    requires fromX != toX && fromY != toY
    ensures TraverseCallback(world)(fromX, fromY, toX, toY) <==>
      !IsBlocked(world.At(toX, toY)) && !IsBlocked(world.At(fromX, toY)) && !IsBlocked(world.At(toX, fromY))
  {
  }

  /** getTraversalCost: the target's base cost, times 14 on a diagonal and
      10 on a straight move (sqrt 2 and 1, scaled by ten). */
  function StepCost(cost: CostMap, fromX: nat, fromY: nat, toX: nat, toY: nat): (c: nat)
    requires cost.Valid() && toX < cost.width && toY < cost.height
    ensures 10 * cost.At(toX, toY) as int <= c <= 14 * cost.At(toX, toY) as int
    ensures c == 10 * cost.At(toX, toY) as int <==> fromX == toX || fromY == toY || cost.At(toX, toY) == 0
  {
    if fromX != toX && fromY != toY then 14 * cost.At(toX, toY) as int else 10 * cost.At(toX, toY) as int
  }

  /** The product never exceeds 14 * 255, so the casts to std::int32_t and
      then std::uint32_t leave it alone; a target cost of c puts the step
      between 10c and 14c. */
  lemma StepCostRange(cost: CostMap, fromX: nat, fromY: nat, toX: nat, toY: nat)
    requires cost.Valid() && toX < cost.width && toY < cost.height
    ensures var c := cost.At(toX, toY) as int;
      10 * c <= StepCost(cost, fromX, fromY, toX, toY) <= 14 * c <= 14 * 255 < Uint32Modulus / 2
    ensures StepCost(cost, fromX, fromY, toX, toY) == 10 * cost.At(toX, toY) as int <==>
      (fromX == toX || fromY == toY || cost.At(toX, toY) == 0)
  {
  }

  /** The closure reset passes as getTraversalCost. */
  function CostCallback(cost: CostMap): TraversalCost
    requires cost.Valid()
  {
    (fromX: nat, fromY: nat, toX: nat, toY: nat) =>
      if toX < cost.width && toY < cost.height then StepCost(cost, fromX, fromY, toX, toY) else 0
  }

  /** heuristic, as written: d * (dx + dy) + (d2 - 2 * d) * min(dx, dy) with
      d = 10 and d2 = 14 in std::size_t, where d2 - 2 * d wraps to 2^64 - 6.
      The std::int32_t cast followed by the pathfinder's std::uint32_t
      return type keeps the value modulo 2^32. */
  function OctileHeuristic(fromX: nat, fromY: nat, toX: nat, toY: nat): (h: nat)
    ensures h < Uint32Modulus
    ensures (fromX, fromY) == (toX, toY) ==> h == 0
  {
    var dx, dy := AbsDiff(fromX, toX), AbsDiff(fromY, toY);
    (10 * (dx + dy) + (SizeModulus - 6) * Min(dx, dy)) % SizeModulus % Uint32Modulus
  }

  /** Coordinates below 2^26 keep every heuristic value far below 2^31. */
  const CoordinateBound: nat := 0x400_0000

  /** Adding a multiple of 2^64 is invisible to a std::size_t. */
  lemma WrapCancels(v: int, k: nat)
    requires 0 <= v < SizeModulus
    ensures (v + SizeModulus * k) % SizeModulus == v
  {
  }

  /** The wrap-around cancels: on grid-sized differences the heuristic is
      the octile distance 10 * max + 4 * min, i.e. 10 (dx + dy) - 6 min. */
  lemma OctileValue(fromX: nat, fromY: nat, toX: nat, toY: nat)
    requires AbsDiff(fromX, toX) < CoordinateBound && AbsDiff(fromY, toY) < CoordinateBound
    ensures var dx, dy := AbsDiff(fromX, toX), AbsDiff(fromY, toY);
      OctileHeuristic(fromX, fromY, toX, toY) == 10 * Max(dx, dy) + 4 * Min(dx, dy) == 10 * (dx + dy) - 6 * Min(dx, dy)
  {
    var dx, dy := AbsDiff(fromX, toX), AbsDiff(fromY, toY);
    var m: nat := Min(dx, dy);
    var v := 10 * (dx + dy) - 6 * m;
    assert 0 <= v < Uint32Modulus;
    assert 10 * (dx + dy) + (SizeModulus - 6) * m == v + SizeModulus * m;
    WrapCancels(v, m);
  }

  /** The heuristic is zero at the goal and consistent: a step to a tile of
      base cost at least one never lowers it by more than the step costs. */
  lemma {:induction false} OctileConsistent(cost: CostMap, ax: nat, ay: nat, bx: nat, bY: nat, goalX: nat, goalY: nat)
    requires cost.Valid() && bx < cost.width && bY < cost.height && cost.At(bx, bY) >= 1
    requires Around8(ax, ay, bx, bY)
    requires ax < CoordinateBound && ay < CoordinateBound && bx < CoordinateBound && bY < CoordinateBound
    requires goalX < CoordinateBound && goalY < CoordinateBound
    ensures OctileHeuristic(ax, ay, goalX, goalY) <= StepCost(cost, ax, ay, bx, bY) + OctileHeuristic(bx, bY, goalX, goalY)
    ensures OctileHeuristic(goalX, goalY, goalX, goalY) == 0
  {
    OctileValue(ax, ay, goalX, goalY);
    OctileValue(bx, bY, goalX, goalY);
    OctileValue(goalX, goalY, goalX, goalY);
    StepCostRange(cost, ax, ay, bx, bY);
  }

  // ---------------------------------------------------------------------
  // Paths on the world

  ghost predicate OnWorld(world: WorldMap, path: seq<Cell>) {
    forall i | 0 <= i < |path| :: InWorld(world, path[i].0, path[i].1)
  }

  /** path is a walk of 8-neighbour steps that canTraverse allows. */
  ghost predicate Walkable(world: WorldMap, path: seq<Cell>)
    requires world.Valid()
  {
    && OnWorld(world, path)
    && forall i | 0 <= i < |path| - 1 ::
         && Around8(path[i].0, path[i].1, path[i + 1].0, path[i + 1].1)
         && CanTraverseOn(world, path[i].0, path[i].1, path[i + 1].0, path[i + 1].1)
  }

  /** A path the pathfinder returns for the canTraverse closure is walkable. */
  lemma CallbackPathWalkable(world: WorldMap, path: seq<Cell>, start: Cell, end: Cell)
    requires world.Valid() && InWorld(world, start.0, start.1)
    requires ValidPath(TraverseCallback(world), path, start, end)
    ensures Walkable(world, path) && path[0] == start && path[|path| - 1] == end
  {
    forall i | 0 <= i < |path|
      ensures InWorld(world, path[i].0, path[i].1)
    {
      if i > 0 {
        assert ValidStep(TraverseCallback(world), path[i - 1], path[i]);
      }
    }
    forall i | 0 <= i < |path| - 1
      ensures CanTraverseOn(world, path[i].0, path[i].1, path[i + 1].0, path[i + 1].1)
    {
      assert ValidStep(TraverseCallback(world), path[i], path[i + 1]);
    }
  }

  // ---------------------------------------------------------------------
  // Stepping onto a tile

  /** The three grids a villager changes, valid and of one size. */
  ghost predicate SameGrid(world: WorldMap, cost: CostMap, stress: DesirePathsMap) {
    && world.Valid() && cost.Valid() && stress.Valid()
    && cost.width == world.width && cost.height == world.height
    && stress.width == world.width && stress.height == world.height
  }

  /** cells lists distinct cells of the grid other than (x, y). */
  ghost predicate Ring(world: WorldMap, x: nat, y: nat, cells: seq<Cell>) {
    && Distinct(cells)
    && OnWorld(world, cells)
    && forall i | 0 <= i < |cells| :: cells[i] != (x, y)
  }

  /** Where c sits in s. */
  lemma IndexOf(s: seq<Cell>, c: Cell) returns (j: nat)
    requires c in s
    ensures j < |s| && s[j] == c
  {
    j :| j < |s| && s[j] == c;
  }

  /** The cells of row yy next to column x, in the order moveOntoTile lists
      them: the cell straight above or below (when withCenter), then the one
      to the left, then the one to the right, each only when on the grid. */
  function RowAround(x: nat, yy: nat, width: nat, withCenter: bool): (r: seq<Cell>)
    requires x < width
    ensures forall c: Cell :: c in r <==>
      c.1 == yy && c.0 < width && c.0 <= x + 1 && x <= c.0 + 1 && (withCenter || c.0 != x)
    ensures Distinct(r)
  {
    (if withCenter then [(x, yy)] else []) + (if x > 0 then [(x - 1, yy)] else []) + (if x < width - 1 then [(x + 1, yy)] else [])
  }

  /** The neighbour list moveOntoTile builds: the row above (straight up,
      up-left, up-right), left, right, then the row below (straight down,
      down-left, down-right), each only when it lies on the grid. */
  function Neighbors(x: nat, y: nat, width: nat, height: nat): (r: seq<Cell>)
    requires x < width && y < height
    ensures forall c: Cell :: c in r <==> c.0 < width && c.1 < height && Around8(x, y, c.0, c.1)
    ensures Distinct(r) && |r| <= 8
  {
    var above := if y > 0 then RowAround(x, y - 1, width, true) else [];
    var middle := RowAround(x, y, width, false);
    var below := if y < height - 1 then RowAround(x, y + 1, width, true) else [];
    DistinctConcat(above, middle);
    DistinctConcat(above + middle, below);
    above + middle + below
  }

  /** The neighbour list holds exactly the 8-neighbours that lie on the
      grid. */
  lemma NeighborsMember(x: nat, y: nat, width: nat, height: nat, c: Cell)
    requires x < width && y < height
    ensures c in Neighbors(x, y, width, height) <==> c.0 < width && c.1 < height && Around8(x, y, c.0, c.1)
  {
  }

  /** ... each of them once, and never the tile itself. */
  lemma NeighborsRing(world: WorldMap, x: nat, y: nat)
    requires world.Valid() && InWorld(world, x, y)
    ensures Ring(world, x, y, Neighbors(x, y, world.width, world.height))
  {
    var width, height := world.width, world.height;
    var above := if y > 0 then RowAround(x, y - 1, width, true) else [];
    var middle := RowAround(x, y, width, false);
    var below := if y < height - 1 then RowAround(x, y + 1, width, true) else [];
    DistinctConcat(above, middle);
    DistinctConcat(above + middle, below);
    var r := Neighbors(x, y, width, height);
    forall i | 0 <= i < |r|
      ensures InWorld(world, r[i].0, r[i].1) && r[i] != (x, y)
    {
      NeighborsMember(x, y, width, height, r[i]);
    }
  }

  predicate StreetLike(t: TileType) {
    t == Street || t == BuildingEntrance
  }

  /** Some 8-neighbour of (x, y) is Street or BuildingEntrance. */
  ghost predicate NextToStreet(world: WorldMap, x: nat, y: nat)
    requires world.Valid()
  {
    exists nx: nat, ny: nat | InWorld(world, nx, ny) && Around8(x, y, nx, ny) :: StreetLike(world.At(nx, ny))
  }

  /** Some cell of the list is Street or BuildingEntrance. */
  ghost predicate StreetAmong(world: WorldMap, cells: seq<Cell>)
    requires world.Valid() && OnWorld(world, cells)
  {
    exists j | 0 <= j < |cells| :: StreetLike(world.At(cells[j].0, cells[j].1))
  }

  /** Scanning the neighbour list decides NextToStreet. */
  lemma StreetAmongNeighbors(world: WorldMap, x: nat, y: nat)
    requires world.Valid() && InWorld(world, x, y)
    ensures OnWorld(world, Neighbors(x, y, world.width, world.height))
    ensures StreetAmong(world, Neighbors(x, y, world.width, world.height)) <==> NextToStreet(world, x, y)
  {
    var cells := Neighbors(x, y, world.width, world.height);
    NeighborsRing(world, x, y);
    if StreetAmong(world, cells) {
      var j :| 0 <= j < |cells| && StreetLike(world.At(cells[j].0, cells[j].1));
      NeighborsMember(x, y, world.width, world.height, cells[j]);
    }
    if NextToStreet(world, x, y) {
      var nx: nat, ny: nat :| InWorld(world, nx, ny) && Around8(x, y, nx, ny) && StreetLike(world.At(nx, ny));
      NeighborsMember(x, y, world.width, world.height, (nx, ny));
      var j := IndexOf(cells, (nx, ny));
      assert StreetLike(world.At(cells[j].0, cells[j].1));
    }
  }

  /** Stepping onto (x, y) paves it: the tile is grass, paving is switched
      on, the stress bump saturates the tile and a street or an entrance is
      next to it. */
  ghost predicate Paves(world: WorldMap, stress: DesirePathsMap, x: nat, y: nat, pavePaths: bool, adjustment: int)
    requires world.Valid() && stress.Valid() && stress.width == world.width && stress.height == world.height
    requires InWorld(world, x, y)
  {
    world.At(x, y) == Grass && pavePaths && StressAfter(stress.At(x, y), adjustment) == 255 && NextToStreet(world, x, y)
  }

  /** Paving (x, y) turns (cx, cy) into street: the tile itself and every
      grass tile around it. */
  ghost predicate PavedWith(world: WorldMap, x: nat, y: nat, cx: nat, cy: nat)
    requires world.Valid() && InWorld(world, cx, cy)
  {
    (cx == x && cy == y) || (Around8(x, y, cx, cy) && world.At(cx, cy) == Grass)
  }

  /** Cell (cx, cy) after stepping onto (x, y): paved cells are street of
      cost 10 and stress 0, the tile itself otherwise has its stress bumped
      and its cost adjusted, and every other cell keeps its values. */
  ghost predicate MovedCell(world: WorldMap, cost: CostMap, stress: DesirePathsMap, x: nat, y: nat,
                            adjustment: int, paved: bool,
                            world': WorldMap, cost': CostMap, stress': DesirePathsMap, cx: nat, cy: nat)
    requires SameGrid(world, cost, stress) && SameGrid(world', cost', stress')
    requires world'.width == world.width && world'.height == world.height
    requires InWorld(world, x, y) && InWorld(world, cx, cy)
  {
    if paved && PavedWith(world, x, y, cx, cy) then
      world'.At(cx, cy) == Street && cost'.At(cx, cy) == 10 && stress'.At(cx, cy) == 0
    else if cx == x && cy == y then
      && world'.At(cx, cy) == world.At(cx, cy)
      && stress'.At(cx, cy) == StressAfter(stress.At(x, y), adjustment)
      && cost'.At(cx, cy) == CostAfter(stress.At(x, y), cost.At(x, y), adjustment)
    else
      world'.At(cx, cy) == world.At(cx, cy) && cost'.At(cx, cy) == cost.At(cx, cy) && stress'.At(cx, cy) == stress.At(cx, cy)
  }

  /** The grids after moveOntoTile(x, y) with stress bump `adjustment`:
      nothing changes off grass; on grass the stress is bumped and the tile
      with its grass ring is paved when Paves holds. */
  ghost predicate MovedOnto(world: WorldMap, cost: CostMap, stress: DesirePathsMap, x: nat, y: nat,
                            pavePaths: bool, adjustment: int,
                            world': WorldMap, cost': CostMap, stress': DesirePathsMap)
    requires SameGrid(world, cost, stress) && InWorld(world, x, y)
  {
    && SameGrid(world', cost', stress') && world'.width == world.width && world'.height == world.height
    && (world.At(x, y) != Grass ==> world' == world && cost' == cost && stress' == stress)
    && (world.At(x, y) == Grass ==>
          var paved := Paves(world, stress, x, y, pavePaths, adjustment);
          forall cx: nat, cy: nat | InWorld(world, cx, cy) ::
            MovedCell(world, cost, stress, x, y, adjustment, paved, world', cost', stress', cx, cy))
  }

  /** The rectangle after add(c) for every grass cell c of `cells`, in
      order. */
  function AddedGrass(r: Rect, world: WorldMap, cells: seq<Cell>): Rect
    requires world.Valid() && OnWorld(world, cells)
  {
    if cells == [] then r
    else
      var last := cells[|cells| - 1];
      assert InWorld(world, last.0, last.1);
      var before := AddedGrass(r, world, cells[..|cells| - 1]);
      if world.At(last.0, last.1) == Grass then Added(before, last.0, last.1) else before
  }

  /** AddedGrass over a prefix one cell longer. */
  lemma AddedGrassPrefix(r: Rect, world: WorldMap, cells: seq<Cell>, k: nat)
    requires world.Valid() && OnWorld(world, cells) && k < |cells|
    ensures OnWorld(world, cells[..k]) && OnWorld(world, cells[..k + 1])
    ensures AddedGrass(r, world, cells[..k + 1]) ==
      var before := AddedGrass(r, world, cells[..k]);
      if world.At(cells[k].0, cells[k].1) == Grass then Added(before, cells[k].0, cells[k].1) else before
  {
    assert cells[..k + 1][..k] == cells[..k];
  }

  /** A cell the rectangle covers stays covered, and every grass cell of
      the list ends up covered; (0, 0) is the exception because a rectangle
      covering only (0, 0) counts as empty, and the next add starts afresh. */
  lemma {:induction false} AddedGrassCovers(r: Rect, world: WorldMap, cells: seq<Cell>, c: Cell)
    requires world.Valid() && OnWorld(world, cells) && c != (0, 0)
    requires r.Covers(c.0, c.1) || (c in cells && InWorld(world, c.0, c.1) && world.At(c.0, c.1) == Grass)
    ensures AddedGrass(r, world, cells).Covers(c.0, c.1)
    decreases |cells|
  {
    if cells != [] {
      var init, last := cells[..|cells| - 1], cells[|cells| - 1];
      assert InWorld(world, last.0, last.1);
      var before := AddedGrass(r, world, init);
      if c == last && world.At(c.0, c.1) == Grass {
        if !before.IsEmpty() {
          AddToNonEmpty(before, last.0, last.1);
        }
      } else {
        assert r.Covers(c.0, c.1) || c in init;
        AddedGrassCovers(r, world, init, c);
        if world.At(last.0, last.1) == Grass {
          AddToNonEmpty(before, last.0, last.1);
        }
      }
    }
  }

  /** The update rectangle after moveOntoTile(x, y): paving adds the tile,
      then its grass neighbours in neighbour-list order. */
  ghost function RectAfterMove(world: WorldMap, stress: DesirePathsMap, x: nat, y: nat, pavePaths: bool,
                               adjustment: int, r: Rect): Rect
    requires world.Valid() && stress.Valid() && stress.width == world.width && stress.height == world.height
    requires InWorld(world, x, y)
  {
    if Paves(world, stress, x, y, pavePaths, adjustment) then
      AddedGrass(Added(r, x, y), world, Neighbors(x, y, world.width, world.height))
    else r
  }

  /** The rectangle marks every tile the step changed, (0, 0) excepted. */
  lemma MoveRectCoversChanges(world: WorldMap, cost: CostMap, stress: DesirePathsMap, x: nat, y: nat,
                              pavePaths: bool, adjustment: int,
                              world': WorldMap, cost': CostMap, stress': DesirePathsMap,
                              r: Rect, cx: nat, cy: nat)
    requires SameGrid(world, cost, stress) && InWorld(world, x, y) && InWorld(world, cx, cy)
    requires MovedOnto(world, cost, stress, x, y, pavePaths, adjustment, world', cost', stress')
    requires world'.At(cx, cy) != world.At(cx, cy) && (cx, cy) != (0, 0)
    ensures RectAfterMove(world, stress, x, y, pavePaths, adjustment, r).Covers(cx, cy)
  {
    var paved := Paves(world, stress, x, y, pavePaths, adjustment);
    assert MovedCell(world, cost, stress, x, y, adjustment, paved, world', cost', stress', cx, cy);
    var r' := Added(r, x, y);
    if !r.IsEmpty() {
      AddToNonEmpty(r, x, y);
    }
    NeighborsRing(world, x, y);
    NeighborsMember(x, y, world.width, world.height, (cx, cy));
    AddedGrassCovers(r', world, Neighbors(x, y, world.width, world.height), (cx, cy));
  }

  /** Only a saturated grass tile next to a street changes kind, and it
      becomes street; a tile that is not grass is left as it is. */
  lemma PavingNeedsStreetNearby(world: WorldMap, cost: CostMap, stress: DesirePathsMap, x: nat, y: nat,
                                pavePaths: bool, adjustment: int,
                                world': WorldMap, cost': CostMap, stress': DesirePathsMap)
    requires SameGrid(world, cost, stress) && InWorld(world, x, y)
    requires MovedOnto(world, cost, stress, x, y, pavePaths, adjustment, world', cost', stress')
    ensures world'.At(x, y) != world.At(x, y) <==>
      world.At(x, y) == Grass && pavePaths && StressAfter(stress.At(x, y), adjustment) == 255 && NextToStreet(world, x, y)
    ensures world'.At(x, y) != world.At(x, y) ==> world'.At(x, y) == Street && stress'.At(x, y) == 0 && cost'.At(x, y) == 10
  {
    if world.At(x, y) == Grass {
      var paved := Paves(world, stress, x, y, pavePaths, adjustment);
      assert MovedCell(world, cost, stress, x, y, adjustment, paved, world', cost', stress', x, y);
    }
  }

  /** On grass that stays grass, the stress rises by the draw in [2, 6] and
      saturates at 255. */
  lemma StressRises(world: WorldMap, cost: CostMap, stress: DesirePathsMap, x: nat, y: nat,
                    pavePaths: bool, adjustment: int,
                    world': WorldMap, cost': CostMap, stress': DesirePathsMap)
    requires SameGrid(world, cost, stress) && InWorld(world, x, y) && 2 <= adjustment <= 6
    requires MovedOnto(world, cost, stress, x, y, pavePaths, adjustment, world', cost', stress')
    requires world.At(x, y) == Grass && world'.At(x, y) == Grass
    ensures stress'.At(x, y) as int == Min(stress.At(x, y) as int + adjustment, 255)
    ensures stress'.At(x, y) > stress.At(x, y) || stress'.At(x, y) == 255
  {
    var paved := Paves(world, stress, x, y, pavePaths, adjustment);
    assert MovedCell(world, cost, stress, x, y, adjustment, paved, world', cost', stress', x, y);
  }

  /** moveOntoTile is deterministic: MovedOnto fixes the grids it leaves. */
  lemma MovedOntoUnique(world: WorldMap, cost: CostMap, stress: DesirePathsMap, x: nat, y: nat,
                        pavePaths: bool, adjustment: int,
                        world1: WorldMap, cost1: CostMap, stress1: DesirePathsMap,
                        world2: WorldMap, cost2: CostMap, stress2: DesirePathsMap)
    requires SameGrid(world, cost, stress) && InWorld(world, x, y)
    requires MovedOnto(world, cost, stress, x, y, pavePaths, adjustment, world1, cost1, stress1)
    requires MovedOnto(world, cost, stress, x, y, pavePaths, adjustment, world2, cost2, stress2)
    ensures world1 == world2 && cost1 == cost2 && stress1 == stress2
  {
    if world.At(x, y) == Grass {
      var paved := Paves(world, stress, x, y, pavePaths, adjustment);
      forall cx: nat, cy: nat | cx < world.width && cy < world.height
        ensures world1.At(cx, cy) == world2.At(cx, cy) && cost1.At(cx, cy) == cost2.At(cx, cy)
        ensures stress1.At(cx, cy) == stress2.At(cx, cy)
      {
        assert MovedCell(world, cost, stress, x, y, adjustment, paved, world1, cost1, stress1, cx, cy);
        assert MovedCell(world, cost, stress, x, y, adjustment, paved, world2, cost2, stress2, cx, cy);
      }
      Extensionality(world1, world2);
      Extensionality(cost1, cost2);
      Extensionality(stress1, stress2);
    }
  }

  /** Once the tile has been paved, moving onto it again changes nothing. */
  lemma PavedTileIsInert(world: WorldMap, cost: CostMap, stress: DesirePathsMap, x: nat, y: nat,
                         pavePaths: bool, adjustment: int,
                         world': WorldMap, cost': CostMap, stress': DesirePathsMap,
                         world'': WorldMap, cost'': CostMap, stress'': DesirePathsMap)
    requires SameGrid(world, cost, stress) && InWorld(world, x, y)
    requires MovedOnto(world, cost, stress, x, y, pavePaths, adjustment, world', cost', stress')
    requires Paves(world, stress, x, y, pavePaths, adjustment)
    requires MovedOnto(world', cost', stress', x, y, pavePaths, adjustment, world'', cost'', stress'')
    ensures world'' == world' && cost'' == cost' && stress'' == stress'
  {
    assert MovedCell(world, cost, stress, x, y, adjustment, true, world', cost', stress', x, y);
  }

  /** The two halves of moveOntoTile on grass put together: the stress
      bump (cost1, stress1), then, when paved, the paving of the tile and
      its grass ring. */
  lemma MovedFrom(world: WorldMap, cost: CostMap, stress: DesirePathsMap, x: nat, y: nat,
                  pavePaths: bool, adjustment: int, paved: bool, cost1: CostMap, stress1: DesirePathsMap,
                  world': WorldMap, cost': CostMap, stress': DesirePathsMap)
    requires SameGrid(world, cost, stress) && InWorld(world, x, y) && world.At(x, y) == Grass
    requires var after := StressAfter(stress.At(x, y), adjustment);
      && (after == stress.At(x, y) ==> stress1 == stress && cost1 == cost)
      && (after != stress.At(x, y) ==>
            stress1 == stress.Set(x, y, after) && cost1 == cost.Set(x, y, CostAfter(stress.At(x, y), cost.At(x, y), adjustment)))
    requires paved == Paves(world, stress, x, y, pavePaths, adjustment)
    requires SameGrid(world', cost', stress') && world'.width == world.width && world'.height == world.height
    requires !paved ==> world' == world && cost' == cost1 && stress' == stress1
    requires paved ==> (SameGrid(world, cost1, stress1) &&
      Progressed(world, cost1, stress1, x, y, Neighbors(x, y, world.width, world.height), world', cost', stress'))
    ensures MovedOnto(world, cost, stress, x, y, pavePaths, adjustment, world', cost', stress')
  {
    forall cx: nat, cy: nat | InWorld(world, cx, cy)
      ensures MovedCell(world, cost, stress, x, y, adjustment, paved, world', cost', stress', cx, cy)
    {
      if paved {
        NeighborsMember(x, y, world.width, world.height, (cx, cy));
        MovedCellPaved(world, cost, stress, x, y, adjustment, cost1, stress1, Neighbors(x, y, world.width, world.height),
                       world', cost', stress', cx, cy);
      } else {
        MovedCellBumped(world, cost, stress, x, y, adjustment, world', cost', stress', cx, cy);
      }
    }
  }

  /** Cell (cx, cy) when the tile is not paved: only the stress bump. */
  lemma MovedCellBumped(world: WorldMap, cost: CostMap, stress: DesirePathsMap, x: nat, y: nat, adjustment: int,
                        world': WorldMap, cost': CostMap, stress': DesirePathsMap, cx: nat, cy: nat)
    requires SameGrid(world, cost, stress) && InWorld(world, x, y) && InWorld(world, cx, cy)
    requires var after := StressAfter(stress.At(x, y), adjustment);
      && (after == stress.At(x, y) ==> stress' == stress && cost' == cost)
      && (after != stress.At(x, y) ==>
            stress' == stress.Set(x, y, after) && cost' == cost.Set(x, y, CostAfter(stress.At(x, y), cost.At(x, y), adjustment)))
    requires world' == world && SameGrid(world', cost', stress')
    ensures MovedCell(world, cost, stress, x, y, adjustment, false, world', cost', stress', cx, cy)
  {
  }

  /** Cell (cx, cy) when the tile is paved: the bump, then the paving. */
  lemma MovedCellPaved(world: WorldMap, cost: CostMap, stress: DesirePathsMap, x: nat, y: nat, adjustment: int,
                       cost1: CostMap, stress1: DesirePathsMap, neighbors: seq<Cell>,
                       world': WorldMap, cost': CostMap, stress': DesirePathsMap, cx: nat, cy: nat)
    requires SameGrid(world, cost, stress) && InWorld(world, x, y) && InWorld(world, cx, cy)
    requires var after := StressAfter(stress.At(x, y), adjustment);
      && (after == stress.At(x, y) ==> stress1 == stress && cost1 == cost)
      && (after != stress.At(x, y) ==>
            stress1 == stress.Set(x, y, after) && cost1 == cost.Set(x, y, CostAfter(stress.At(x, y), cost.At(x, y), adjustment)))
    requires SameGrid(world', cost', stress') && world'.width == world.width && world'.height == world.height
    requires (cx, cy) in neighbors <==> Around8(x, y, cx, cy)
    requires PaveProgress(world, cost1, stress1, x, y, neighbors, world', cost', stress', cx, cy)
    ensures MovedCell(world, cost, stress, x, y, adjustment, true, world', cost', stress', cx, cy)
  {
  }

  /** One step of the paving loop: neighbour n, not yet visited, is paved
      when it is grass. */
  lemma PaveStep(world: WorldMap, cost: CostMap, stress: DesirePathsMap, x: nat, y: nat, done: seq<Cell>, n: Cell,
                 w1: WorldMap, c1: CostMap, s1: DesirePathsMap, w2: WorldMap, c2: CostMap, s2: DesirePathsMap)
    requires SameGrid(world, cost, stress) && InWorld(world, n.0, n.1) && n != (x, y) && n !in done
    requires Progressed(world, cost, stress, x, y, done, w1, c1, s1)
    requires w1.At(n.0, n.1) == Grass ==> w2 == w1.Set(n.0, n.1, Street) && c2 == c1.Set(n.0, n.1, 10) && s2 == s1.Set(n.0, n.1, 0)
    requires w1.At(n.0, n.1) != Grass ==> w2 == w1 && c2 == c1 && s2 == s1
    ensures Progressed(world, cost, stress, x, y, done + [n], w2, c2, s2)
  {
    assert PaveProgress(world, cost, stress, x, y, done, w1, c1, s1, n.0, n.1);
    forall cx: nat, cy: nat | InWorld(world, cx, cy)
      ensures PaveProgress(world, cost, stress, x, y, done + [n], w2, c2, s2, cx, cy)
    {
      assert PaveProgress(world, cost, stress, x, y, done, w1, c1, s1, cx, cy);
      assert (cx, cy) in done + [n] <==> (cx, cy) in done || (cx, cy) == n;
    }
  }

  /** Neighbour k of a ring, before the paving loop visits it: on the
      grid, not the tile itself and not visited yet. */
  lemma NextNeighbor(world: WorldMap, x: nat, y: nat, neighbors: seq<Cell>, k: nat)
    requires world.Valid() && Ring(world, x, y, neighbors) && k < |neighbors|
    ensures var n := neighbors[k];
      && InWorld(world, n.0, n.1) && n != (x, y) && n !in neighbors[..k]
      && neighbors[..k + 1] == neighbors[..k] + [n]
      && OnWorld(world, neighbors[..k])
  {
    assert neighbors[..k + 1] == neighbors[..k] + [neighbors[k]];
  }

  /** What the cells hold while moveOntoTile paves the neighbour list: the
      tile and the grass cells among `done` are street, the rest are as in
      (world, cost, stress). */
  ghost predicate PaveProgress(world: WorldMap, cost: CostMap, stress: DesirePathsMap, x: nat, y: nat, done: seq<Cell>,
                               world': WorldMap, cost': CostMap, stress': DesirePathsMap, cx: nat, cy: nat)
    requires SameGrid(world, cost, stress) && SameGrid(world', cost', stress')
    requires world'.width == world.width && world'.height == world.height
    requires InWorld(world, cx, cy)
  {
    if (cx == x && cy == y) || ((cx, cy) in done && world.At(cx, cy) == Grass) then
      world'.At(cx, cy) == Street && cost'.At(cx, cy) == 10 && stress'.At(cx, cy) == 0
    else
      world'.At(cx, cy) == world.At(cx, cy) && cost'.At(cx, cy) == cost.At(cx, cy) && stress'.At(cx, cy) == stress.At(cx, cy)
  }

  /** PaveProgress on every cell, with the grids of one size. */
  ghost predicate Progressed(world: WorldMap, cost: CostMap, stress: DesirePathsMap, x: nat, y: nat, done: seq<Cell>,
                             world': WorldMap, cost': CostMap, stress': DesirePathsMap)
    requires SameGrid(world, cost, stress)
  {
    && SameGrid(world', cost', stress') && world'.width == world.width && world'.height == world.height
    && forall cx: nat, cy: nat | InWorld(world, cx, cy) ::
         PaveProgress(world, cost, stress, x, y, done, world', cost', stress', cx, cy)
  }

  /** Paving the tile itself starts the progress. */
  lemma PaveStart(world: WorldMap, cost: CostMap, stress: DesirePathsMap, x: nat, y: nat,
                  world': WorldMap, cost': CostMap, stress': DesirePathsMap)
    requires SameGrid(world, cost, stress) && InWorld(world, x, y) && world.At(x, y) == Grass
    requires world' == world.Set(x, y, Street) && cost' == cost.Set(x, y, 10) && stress' == stress.Set(x, y, 0)
    ensures Progressed(world, cost, stress, x, y, [], world', cost', stress')
  {
  }

  /** A Villager: the path it follows, the index of the tile it last
      stepped onto, and its state. */
  /** A villager's fields: its state, its progress along its path, the path. */
  datatype Phase = Phase(state: State, index: nat, path: seq<Cell>)
  {
    /** Villager.Valid on the fields. */
    predicate Valid() {
      && (state == PathProvided ==> |path| >= 2)
      && (state == Moving ==> index + 1 < |path|)
    }
  }

  /** The index into its path of the tile a villager steps onto in its
      tick: the first one when its path was just provided, the next one
      when it is moving and reaches it; none otherwise. */
  function SteppedOnto(p: Phase, reached: bool): (k: Option<nat>)
    ensures k.Some? ==> k.value < |p.path|
    ensures p.Valid() ==> (k.Some? <==> p.state == PathProvided || (p.state == Moving && reached))
    ensures k.Some? && p.state == Moving ==> k.value == p.index + 1
  {
    if p.state == PathProvided && p.path != [] then Some(0)
    else if p.state == Moving && reached && p.index + 1 < |p.path| then Some(p.index + 1)
    else None
  }

  /** The grids and the update rectangle before (world, cost, stress, r)
      and after (world', cost', stress', r') the tick of a villager in phase
      p: moveOntoTile onto the tile it steps onto, or no change. */
  ghost predicate TickStep(p: Phase, reached: bool, pavePaths: bool, adjustment: int,
                           world: WorldMap, cost: CostMap, stress: DesirePathsMap, r: Rect,
                           world': WorldMap, cost': CostMap, stress': DesirePathsMap, r': Rect)
  {
    && SameGrid(world, cost, stress) && OnWorld(world, p.path)
    && match SteppedOnto(p, reached)
       case None => world' == world && cost' == cost && stress' == stress && r' == r
       case Some(k) =>
         var c := p.path[k];
         && MovedOnto(world, cost, stress, c.0, c.1, pavePaths, adjustment, world', cost', stress')
         && r' == RectAfterMove(world, stress, c.0, c.1, pavePaths, adjustment, r)
  }

  class Villager {
    var path: seq<Cell>
    var currentPathIndex: nat
    var state: State

    /** A provided path has the two cells tick's assert asks for, and a
        moving villager always has a next tile to walk to. */
    ghost predicate Valid()
      reads this
    {
      && (state == PathProvided ==> |path| >= 2)
      && (state == Moving ==> currentPathIndex + 1 < |path|)
    }

    /** Villager() = default. */
    constructor ()
      ensures Valid() && state == AwaitingPath && path == [] && currentPathIndex == 0
    {
      path := [];
      currentPathIndex := 0;
      state := AwaitingPath;
    }

    /** setState: the simulation and the pathfinding thread hand a villager
        over by storing its state; path and progress stay as they are. */
    method SetState(s: State)
      requires (s == PathProvided ==> |path| >= 2) && (s == Moving ==> currentPathIndex + 1 < |path|)
      modifies this
      ensures Valid() && state == s && path == old(path) && currentPathIndex == old(currentPathIndex)
    {
      state := s;
    }

    /** paveTile(x, y). */
    method PaveTile(x: nat, y: nat, world: WorldMap, rect: UpdateRect, cost: CostMap, stress: DesirePathsMap)
      returns (world': WorldMap, cost': CostMap, stress': DesirePathsMap)
      requires SameGrid(world, cost, stress) && InWorld(world, x, y)
      modifies rect
      ensures world.At(x, y) == Street ==>
        world' == world && cost' == cost && stress' == stress && rect.Bounds() == old(rect.Bounds())
      ensures world.At(x, y) != Street ==>
        && world' == world.Set(x, y, Street) && cost' == cost.Set(x, y, 10) && stress' == stress.Set(x, y, 0)
        && rect.Bounds() == Added(old(rect.Bounds()), x, y)
    {
      world', cost', stress' := world, cost, stress;
      if world.At(x, y) != Street {
        world' := world'.Set(x, y, Street);
        // getBaseCostForValue draws a random number for grass only.
        cost' := cost'.Set(x, y, BaseCostForValue(Street, 14));
        stress' := stress'.Set(x, y, 0);
        rect.Add(x, y);
      }
    }

    /** moveOntoTile(x, y); `adjustment` is the draw from
        std::uniform_int_distribution<>{2, 6}. */
    method MoveOntoTile(x: nat, y: nat, world: WorldMap, rect: UpdateRect, cost: CostMap, stress: DesirePathsMap,
                        pavePaths: bool, adjustment: int)
      returns (world': WorldMap, cost': CostMap, stress': DesirePathsMap)
      requires SameGrid(world, cost, stress) && InWorld(world, x, y) && 2 <= adjustment <= 6
      modifies rect
      ensures MovedOnto(world, cost, stress, x, y, pavePaths, adjustment, world', cost', stress')
      ensures rect.Bounds() == RectAfterMove(world, stress, x, y, pavePaths, adjustment, old(rect.Bounds()))
    {
      world', cost', stress' := world, cost, stress;
      if world.At(x, y) != Grass {
        return;
      }
      var currentStress;
      currentStress, stress', cost' := AdjustDesirePathStress(x, y, stress, cost, adjustment);
      var shouldBePaved := pavePaths && currentStress == 255;
      var neighbors := Neighbors(x, y, world.width, world.height);
      StreetAmongNeighbors(world, x, y);
      var paved := false;
      if shouldBePaved {
        // Only pave next to a street or an entrance.
        paved := StreetNearby(neighbors, world);
      }
      ghost var cost1, stress1 := cost', stress';
      if paved {
        NeighborsRing(world, x, y);
        world', cost', stress' := PaveWithRing(x, y, neighbors, world, rect, cost', stress');
      }
      MovedFrom(world, cost, stress, x, y, pavePaths, adjustment, paved, cost1, stress1, world', cost', stress');
    }

    /** The first loop of moveOntoTile: is some neighbour a street or an
        entrance? */
    method StreetNearby(neighbors: seq<Cell>, world: WorldMap) returns (found: bool)
      requires world.Valid() && OnWorld(world, neighbors)
      ensures found == StreetAmong(world, neighbors)
    {
      var i := 0;
      while i < |neighbors|
        invariant i <= |neighbors|
        invariant forall j | 0 <= j < i :: !StreetLike(world.At(neighbors[j].0, neighbors[j].1))
      {
        var neighborValue := world.At(neighbors[i].0, neighbors[i].1);
        if neighborValue == Street || neighborValue == BuildingEntrance {
          assert StreetLike(world.At(neighbors[i].0, neighbors[i].1));
          return true;
        }
        i := i + 1;
      }
      return false;
    }

    /** The paving half of moveOntoTile: paveTile on the tile, then on every
        neighbour that is grass, in neighbour-list order. */
    method PaveWithRing(x: nat, y: nat, neighbors: seq<Cell>, world: WorldMap, rect: UpdateRect,
                        cost: CostMap, stress: DesirePathsMap)
      returns (world': WorldMap, cost': CostMap, stress': DesirePathsMap)
      requires SameGrid(world, cost, stress) && InWorld(world, x, y) && world.At(x, y) == Grass
      requires Ring(world, x, y, neighbors)
      modifies rect
      ensures Progressed(world, cost, stress, x, y, neighbors, world', cost', stress')
      ensures rect.Bounds() == AddedGrass(Added(old(rect.Bounds()), x, y), world, neighbors)
    {
      ghost var r1 := Added(old(rect.Bounds()), x, y);
      world', cost', stress' := PaveTile(x, y, world, rect, cost, stress);
      PaveStart(world, cost, stress, x, y, world', cost', stress');
      var k := 0;
      while k < |neighbors|
        invariant k <= |neighbors|
        invariant Progressed(world, cost, stress, x, y, neighbors[..k], world', cost', stress')
        invariant OnWorld(world, neighbors[..k]) && rect.Bounds() == AddedGrass(r1, world, neighbors[..k])
      {
        NextNeighbor(world, x, y, neighbors, k);
        AddedGrassPrefix(r1, world, neighbors, k);
        world', cost', stress' := PaveNeighbor(x, y, neighbors[k], neighbors[..k], world, rect, world', cost', stress', cost, stress);
        k := k + 1;
      }
      assert neighbors[..k] == neighbors;
    }

    /** One round of moveOntoTile's paving loop: neighbour n is paved when
        it is grass. */
    method PaveNeighbor(x: nat, y: nat, n: Cell, ghost done: seq<Cell>, ghost world: WorldMap, rect: UpdateRect,
                        w: WorldMap, c: CostMap, s: DesirePathsMap, ghost cost: CostMap, ghost stress: DesirePathsMap)
      returns (w': WorldMap, c': CostMap, s': DesirePathsMap)
      requires SameGrid(world, cost, stress) && InWorld(world, n.0, n.1) && n != (x, y) && n !in done
      requires Progressed(world, cost, stress, x, y, done, w, c, s)
      modifies rect
      ensures Progressed(world, cost, stress, x, y, done + [n], w', c', s')
      ensures rect.Bounds() == if world.At(n.0, n.1) == Grass then Added(old(rect.Bounds()), n.0, n.1) else old(rect.Bounds())
    {
      assert PaveProgress(world, cost, stress, x, y, done, w, c, s, n.0, n.1);
      w', c', s' := w, c, s;
      if w.At(n.0, n.1) == Grass {
        w', c', s' := PaveTile(n.0, n.1, w, rect, c, s);
      }
      PaveStep(world, cost, stress, x, y, done, n, w, c, s, w', c', s');
    }

    /** tick, with the pixel movement replaced by `nextTileReached`: whether
        this frame's movement covered the distance to the next tile.
        `adjustment` is the stress draw moveOntoTile makes on grass. */
    method Tick(world: WorldMap, rect: UpdateRect, cost: CostMap, stress: DesirePathsMap,
                pavePaths: bool, adjustment: int, nextTileReached: bool)
      returns (world': WorldMap, cost': CostMap, stress': DesirePathsMap)
      requires Valid() && SameGrid(world, cost, stress) && OnWorld(world, path) && 2 <= adjustment <= 6
      modifies this, rect
      ensures Valid() && SameGrid(world', cost', stress') && world'.width == world.width && world'.height == world.height
      ensures OnWorld(world', path)
      ensures old(state) == AwaitingPath || old(state) == EnqueuedForPath || (old(state) == Moving && !nextTileReached) ==>
        && state == old(state) && path == old(path) && currentPathIndex == old(currentPathIndex)
        && world' == world && cost' == cost && stress' == stress && rect.Bounds() == old(rect.Bounds())
      ensures old(state) == PathProvided ==>
        && state == Moving && path == old(path) && currentPathIndex == 0
        && MovedOnto(world, cost, stress, path[0].0, path[0].1, pavePaths, adjustment, world', cost', stress')
        && rect.Bounds() == RectAfterMove(world, stress, path[0].0, path[0].1, pavePaths, adjustment, old(rect.Bounds()))
      ensures old(state) == Moving && nextTileReached ==>
        var reached := old(path)[old(currentPathIndex) + 1];
        && MovedOnto(world, cost, stress, reached.0, reached.1, pavePaths, adjustment, world', cost', stress')
        && rect.Bounds() == RectAfterMove(world, stress, reached.0, reached.1, pavePaths, adjustment, old(rect.Bounds()))
        && if old(currentPathIndex) + 2 < |old(path)| then
             state == Moving && path == old(path) && currentPathIndex == old(currentPathIndex) + 1
           else
             state == AwaitingPath && path == [] && currentPathIndex == 0
      ensures TickStep(old(Phase(state, currentPathIndex, path)), nextTileReached, pavePaths, adjustment,
                       world, cost, stress, old(rect.Bounds()), world', cost', stress', rect.Bounds())
    {
      ghost var before := Phase(state, currentPathIndex, path);
      world', cost', stress' := world, cost, stress;
      if state == PathProvided {
        // "Spawn" at the first cell of the path.
        currentPathIndex := 0;
        var start := path[currentPathIndex];
        world', cost', stress' := MoveOntoTile(start.0, start.1, world, rect, cost, stress, pavePaths, adjustment);
        state := Moving;
        assert SteppedOnto(before, nextTileReached) == Some(0);
      } else if state == Moving && nextTileReached {
        currentPathIndex := currentPathIndex + 1;
        var reached := path[currentPathIndex];
        assert reached == old(path)[old(currentPathIndex) + 1];
        world', cost', stress' := MoveOntoTile(reached.0, reached.1, world, rect, cost, stress, pavePaths, adjustment);
        assert SteppedOnto(before, nextTileReached) == Some(currentPathIndex);
        if |path| <= currentPathIndex + 1 {
          path := [];
          currentPathIndex := 0;
          state := AwaitingPath;
        }
      } else {
        assert SteppedOnto(before, nextTileReached) == None;
      }
    }

    /** reset, with its random draws as parameters: draws[0] is where the
        spawn search starts, each later draw where one destination search
        starts. The destination loop stops when a search lands on an entrance
        other than the spawn, or when the draws run out; a villager left
        without a destination or without a path goes back to AwaitingPath.
        chosen is the draw the destination came from (|draws| when none
        did), and route what getPath returned ([] when it was not asked). */
    method Reset(world: WorldMap, pathfinder: Pathfinder, cost: CostMap, draws: seq<Cell>)
      returns (spawn: Cell, destination: Cell, ghost chosen: nat, ghost route: seq<Cell>)
      requires world.Valid() && cost.Valid() && cost.width == world.width && cost.height == world.height
      requires pathfinder.Idle() && pathfinder.width == world.width && pathfinder.height == world.height
      requires |draws| >= 1 && forall i | 0 <= i < |draws| :: InWorld(world, draws[i].0, draws[i].1)
      modifies this, pathfinder
      ensures Valid() && pathfinder.Idle() && pathfinder.width == world.width && pathfinder.height == world.height
      ensures currentPathIndex == 0 && (state == PathProvided || state == AwaitingPath) && OnWorld(world, path)
      ensures SearchYields(world, draws[0], spawn)
      ensures 1 <= chosen <= |draws|
      ensures forall i | 1 <= i < chosen :: SearchYields(world, draws[i], spawn)
      ensures chosen < |draws| ==> SearchYields(world, draws[chosen], destination) && destination != spawn
      ensures chosen < |draws| ==> route == [] || ValidPath(TraverseCallback(world), route, spawn, destination)
      ensures chosen == |draws| ==> route == []
      ensures state == AwaitingPath <==> chosen == |draws| || route == []
      ensures state == PathProvided ==>
        && spawn != destination && path == route
        && Holds(world, BuildingEntrance, spawn.0, spawn.1) && Holds(world, BuildingEntrance, destination.0, destination.1)
        && |path| >= 2 && path[0] == spawn && path[|path| - 1] == destination && Walkable(world, path)
      ensures state == AwaitingPath ==> path == []
    {
      var first := Find(world, BuildingEntrance, draws[0].0, draws[0].1, true);
      spawn := first.ValueOr((0, 0));
      SearchYieldsFind(world, draws[0], first);
      destination := (0, 0);
      chosen, route := |draws|, [];
      var found := false;
      var attempt := 1;
      while attempt < |draws| && !found
        invariant 1 <= attempt <= |draws|
        invariant pathfinder.Idle() && pathfinder.width == world.width && pathfinder.height == world.height
        invariant found ==> chosen == attempt - 1 && 1 <= chosen
        invariant !found ==> chosen == |draws|
        invariant forall i | 1 <= i < (if found then chosen else attempt) :: SearchYields(world, draws[i], spawn)
        invariant found ==> SearchYields(world, draws[chosen], destination) && spawn != destination
        invariant found ==> Holds(world, BuildingEntrance, spawn.0, spawn.1) && Holds(world, BuildingEntrance, destination.0, destination.1)
        decreases |draws| - attempt
      {
        var r := Find(world, BuildingEntrance, draws[attempt].0, draws[attempt].1, true);
        destination := r.ValueOr((0, 0));
        SearchYieldsFind(world, draws[attempt], r);
        found := destination != spawn;
        if found {
          chosen := attempt;
          FindWrapFindsAnyOccurrence(world, BuildingEntrance, draws[0].0, draws[0].1, first);
          FindWrapFindsAnyOccurrence(world, BuildingEntrance, draws[attempt].0, draws[attempt].1, r);
        }
        attempt := attempt + 1;
      }
      currentPathIndex := 0;
      if !found {
        path := [];
        state := AwaitingPath;
        return;
      }
      path := pathfinder.GetPath(spawn.0, spawn.1, destination.0, destination.1,
                                 TraverseCallback(world), CostCallback(cost), OctileHeuristic);
      route := path;
      if path == [] {
        state := AwaitingPath;
      } else {
        CallbackPathWalkable(world, path, spawn, destination);
        state := PathProvided;
      }
    }
  }

  /** Every answer the wrapping entrance search from draw may give falls
      back to c: c is the cell findRandomBuildingEntrance returns. */
  ghost predicate SearchYields(world: WorldMap, draw: Cell, c: Cell)
    requires world.Valid()
  {
    forall r | FindSpec(world, BuildingEntrance, draw.0, draw.1, true, r) :: r.ValueOr((0, 0)) == c
  }

  /** The answer Find gave is the one every search from that draw gives. */
  lemma SearchYieldsFind(world: WorldMap, draw: Cell, found: Option<(nat, nat)>)
    requires world.Valid() && FindSpec(world, BuildingEntrance, draw.0, draw.1, true, found)
    ensures SearchYields(world, draw, found.ValueOr((0, 0)))
  {
    forall r | FindSpec(world, BuildingEntrance, draw.0, draw.1, true, r)
      ensures r.ValueOr((0, 0)) == found.ValueOr((0, 0))
    {
      FindSpecUnique(world, BuildingEntrance, draw.0, draw.1, true, found, r);
    }
  }

  // ---------------------------------------------------------------------
  // reset as written

  /** At most one cell of the world is an entrance. */
  ghost predicate AtMostOneEntrance(world: WorldMap)
    requires world.Valid()
  {
    forall x1: nat, y1: nat, x2: nat, y2: nat
      | Holds(world, BuildingEntrance, x1, y1) && Holds(world, BuildingEntrance, x2, y2) :: x1 == x2 && y1 == y2
  }

  /** As written, reset repeats the destination search while it yields the
      spawn point. With at most one entrance every search, wherever it
      starts, yields the same cell as the spawn search (the entrance, or the
      (0, 0) fallback when there is none), so the loop never ends. */
  lemma EntranceSearchesAgree(world: WorldMap, spawnDraw: Cell, destinationDraw: Cell,
                              spawnFound: Option<(nat, nat)>, destinationFound: Option<(nat, nat)>)
    requires world.Valid() && AtMostOneEntrance(world)
    requires InWorld(world, spawnDraw.0, spawnDraw.1) && InWorld(world, destinationDraw.0, destinationDraw.1)
    requires FindSpec(world, BuildingEntrance, spawnDraw.0, spawnDraw.1, true, spawnFound)
    requires FindSpec(world, BuildingEntrance, destinationDraw.0, destinationDraw.1, true, destinationFound)
    ensures spawnFound.ValueOr((0, 0)) == destinationFound.ValueOr((0, 0))
  {
    FindWrapSingleOccurrence(world, BuildingEntrance, spawnDraw.0, spawnDraw.1, destinationDraw.0, destinationDraw.1,
                             spawnFound, destinationFound);
  }

  /** A 3 x 1 world: two entrances with a building between them. */
  function WalledIn(): (w: WorldMap)
    ensures w.Valid() && w.width == 3 && w.height == 1
  {
    Map(3, 1, [[BuildingEntrance, Building, BuildingEntrance]])
  }

  /** As written, reset stores PathProvided whatever getPath returned. In
      WalledIn no walk joins the two entrances, so every result getPath may
      return for them is empty, and the next tick meets a PathProvided
      villager whose path fails its assert m_path.size() >= 2. */
  lemma WalledInGetsNoPath(path: seq<Cell>)
    requires path == [] || ValidPath(TraverseCallback(WalledIn()), path, (0, 0), (2, 0))
    ensures path == []
  {
    if |path| >= 2 {
      NoStepOutOfWalledIn(path[1]);
    }
  }

  /** The fields reset leaves as written: state PathProvided, index 0 and
      whatever getPath returned, so the villager is consistent exactly when
      that path has the two cells tick asserts. */
  function ResetPhaseAsWritten(path: seq<Cell>): (p: Phase)
    ensures p.state == PathProvided && p.index == 0 && p.path == path
    ensures p.Valid() <==> |path| >= 2
  {
    Phase(PathProvided, 0, path)
  }

  /** Reset as written, between the two entrances of WalledIn, leaves a
      PathProvided villager whose path is shorter than the two cells tick's
      assert demands, so the villager breaks the class invariant. */
  lemma ResetAsWrittenBreaksTick(path: seq<Cell>)
    requires path == [] || ValidPath(TraverseCallback(WalledIn()), path, (0, 0), (2, 0))
    ensures var p := ResetPhaseAsWritten(path); p.state == PathProvided && p.path == path && |path| < 2 && !p.Valid()
  {
    WalledInGetsNoPath(path);
  }

  /** No allowed step leaves the left entrance of WalledIn. */
  lemma NoStepOutOfWalledIn(c: Cell)
    ensures !ValidStep(TraverseCallback(WalledIn()), (0, 0), c)
  {
    var w := WalledIn();
    if Around8(0, 0, c.0, c.1) && InWorld(w, c.0, c.1) {
      assert c == (1, 0);
      assert w.At(1, 0) == Building;
    }
  }
}
