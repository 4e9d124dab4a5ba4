/** WorldGen of src/WorldGen.cpp: the generator that edits the world map in
    place. Every operation reads and writes the one world grid the generator
    was built on, so WorldGen is a class whose `world` field the methods
    update. The random number generator is a parameter: each method takes
    the raw draws it consumes as a function from the draw's ordinal number
    to a value, and maps them into the stated range. */
module WorldGens {
  import opened Util
  import opened TileTypes
  import opened Maps
  import opened WorldMaps
  import opened Regions
  import opened Voronoi

  type Pattern = Map<TileType>
  type Patch = Map<TileType>

  /** m_rngScaledPercentFactor: percentages are drawn from [1, 100 * 1000]. */
  const ScaledPercentFactor: int := 1000

  // ---------------------------------------------------------------------
  // Pattern matching and patching

  /** One pattern cell agrees with the world cell under it. */
  ghost predicate CellMatches(world: WorldMap, pattern: Pattern, x: nat, y: nat, px: nat, py: nat)
    requires world.Valid() && pattern.Valid()
    requires px < pattern.width && py < pattern.height
    requires x + pattern.width <= world.width && y + pattern.height <= world.height
  {
    pattern.At(px, py) == PatternAny || world.At(x + px, y + py) == pattern.At(px, py)
  }

  /** The pattern fits with its top-left corner at (x, y) and every cell
      that is not PatternAny equals the world cell under it. */
  ghost predicate MatchesAt(world: WorldMap, pattern: Pattern, x: nat, y: nat)
    requires world.Valid() && pattern.Valid()
  {
    && x + pattern.width <= world.width && y + pattern.height <= world.height
    && forall px: nat, py: nat | px < pattern.width && py < pattern.height :: CellMatches(world, pattern, x, y, px, py)
  }

  /** Some origin at or after (startX, startY) in row-major order matches. */
  ghost predicate MatchesFrom(world: WorldMap, pattern: Pattern, startX: nat, startY: nat)
    requires world.Valid() && pattern.Valid()
  {
    exists x: nat, y: nat :: MatchesAt(world, pattern, x, y) && !RowMajorBefore(x, y, startX, startY)
  }

  /** (x, y) is the first matching origin in row-major order that is not
      before (startX, startY). */
  ghost predicate FirstMatchFrom(world: WorldMap, pattern: Pattern, startX: nat, startY: nat, x: nat, y: nat)
    requires world.Valid() && pattern.Valid()
  {
    && MatchesAt(world, pattern, x, y)
    && !RowMajorBefore(x, y, startX, startY)
    && forall x': nat, y': nat | MatchesAt(world, pattern, x', y') && !RowMajorBefore(x', y', startX, startY) ::
         !RowMajorBefore(x', y', x, y)
  }

  /** The world cell (cx, cy) after applyPatch(patch, x, y). */
  function PatchedCell(world: WorldMap, patch: Patch, x: nat, y: nat, cx: nat, cy: nat): TileType
    requires world.Valid() && patch.Valid() && cx < world.width && cy < world.height
  {
    if x <= cx < x + patch.width && y <= cy < y + patch.height && patch.At(cx - x, cy - y) != PatchKeep
    then patch.At(cx - x, cy - y)
    else world.At(cx, cy)
  }

  /** Every cell the patch writes lies on a pattern cell that is not
      PatternAny, and turning that pattern value into the patch value is
      an allowed change. */
  ghost predicate PatchFits(pattern: Pattern, patch: Patch, allowed: (TileType, TileType) -> bool)
    requires pattern.Valid() && patch.Valid()
  {
    && patch.width == pattern.width && patch.height == pattern.height
    && forall px: nat, py: nat | px < patch.width && py < patch.height && patch.At(px, py) != PatchKeep ::
         pattern.At(px, py) != PatternAny && allowed(pattern.At(px, py), patch.At(px, py))
  }

  ghost predicate Transitive(allowed: (TileType, TileType) -> bool) {
    forall a, b, c :: allowed(a, b) && allowed(b, c) ==> allowed(a, c)
  }

  /** Every cell of after either equals the cell of before or changed in an
      allowed way. */
  ghost predicate ChangedOnlyAllowed(before: WorldMap, after: WorldMap, allowed: (TileType, TileType) -> bool)
    requires before.Valid() && after.Valid()
  {
    && after.width == before.width && after.height == before.height
    && forall x: nat, y: nat | x < before.width && y < before.height ::
         after.At(x, y) == before.At(x, y) || allowed(before.At(x, y), after.At(x, y))
  }

  /** Applying a fitting patch at a match changes cells only in allowed ways. */
  lemma PatchAtMatchAllowed(world: WorldMap, pattern: Pattern, patch: Patch, x: nat, y: nat,
                            allowed: (TileType, TileType) -> bool)
    requires world.Valid() && pattern.Valid() && patch.Valid()
    requires MatchesAt(world, pattern, x, y) && PatchFits(pattern, patch, allowed)
    ensures forall cx: nat, cy: nat | cx < world.width && cy < world.height ::
      PatchedCell(world, patch, x, y, cx, cy) == world.At(cx, cy) || allowed(world.At(cx, cy), PatchedCell(world, patch, x, y, cx, cy))
  {
    forall cx: nat, cy: nat | cx < world.width && cy < world.height
      ensures PatchedCell(world, patch, x, y, cx, cy) == world.At(cx, cy) || allowed(world.At(cx, cy), PatchedCell(world, patch, x, y, cx, cy))
    {
      if x <= cx < x + patch.width && y <= cy < y + patch.height && patch.At(cx - x, cy - y) != PatchKeep {
        assert CellMatches(world, pattern, x, y, cx - x, cy - y);
        assert x + (cx - x) == cx && y + (cy - y) == cy;
      }
    }
  }

  // ---------------------------------------------------------------------
  // Streets along Voronoi boundaries

  /** Some in-bounds 8-neighbour of (x, y) carries another partition id. */
  ghost predicate OnPartitionBoundary(v: VoronoiMap, x: nat, y: nat)
    requires v.Valid() && x < v.width && y < v.height
  {
    exists nx: nat, ny: nat :: Around8(x, y, nx, ny) && nx < v.width && ny < v.height && v.At(nx, ny) != v.At(x, y)
  }

  /** The neighbour checks of placeStreetsFromVoronoiMap, in the source's
      order (left column, right column, above, below), stopping at the
      first neighbour with another id. */
  method IsPartitionBoundary(v: VoronoiMap, centerX: nat, centerY: nat) returns (boundary: bool)
    requires v.Valid() && centerX < v.width && centerY < v.height
    ensures boundary <==> OnPartitionBoundary(v, centerX, centerY)
  {
    var self := v.At(centerX, centerY);
    if centerX > 0 {
      if centerY > 0 {
        if v.At(centerX - 1, centerY - 1) != self {
          assert Around8(centerX, centerY, centerX - 1, centerY - 1);
          return true;
        }
      }
      if centerY < v.height - 1 {
        if v.At(centerX - 1, centerY + 1) != self {
          assert Around8(centerX, centerY, centerX - 1, centerY + 1);
          return true;
        }
      }
      if v.At(centerX - 1, centerY) != self {
        assert Around8(centerX, centerY, centerX - 1, centerY);
        return true;
      }
    }
    if centerX < v.width - 1 {
      if centerY > 0 {
        if v.At(centerX + 1, centerY - 1) != self {
          assert Around8(centerX, centerY, centerX + 1, centerY - 1);
          return true;
        }
      }
      if centerY < v.height - 1 {
        if v.At(centerX + 1, centerY + 1) != self {
          assert Around8(centerX, centerY, centerX + 1, centerY + 1);
          return true;
        }
      }
      if v.At(centerX + 1, centerY) != self {
        assert Around8(centerX, centerY, centerX + 1, centerY);
        return true;
      }
    }
    if centerY > 0 {
      if v.At(centerX, centerY - 1) != self {
        assert Around8(centerX, centerY, centerX, centerY - 1);
        return true;
      }
    }
    if centerY < v.height - 1 {
      if v.At(centerX, centerY + 1) != self {
        assert Around8(centerX, centerY, centerX, centerY + 1);
        return true;
      }
    }
    forall nx: nat, ny: nat | Around8(centerX, centerY, nx, ny) && nx < v.width && ny < v.height
      ensures v.At(nx, ny) == self
    {
    }
    return false;
  }

  /** Two 8-adjacent cells with different ids are both on the boundary, so
      placeStreetsFromVoronoiMap paves both: regions never touch directly. */
  lemma BoundaryOnBothSides(v: VoronoiMap, x: nat, y: nat, nx: nat, ny: nat)
    requires v.Valid() && x < v.width && y < v.height && nx < v.width && ny < v.height
    requires Around8(x, y, nx, ny) && v.At(nx, ny) != v.At(x, y)
    ensures OnPartitionBoundary(v, x, y) && OnPartitionBoundary(v, nx, ny)
  {
    assert Around8(nx, ny, x, y);
  }

  // ---------------------------------------------------------------------
  // Grass and water

  /** No Grass cell is an orthogonal neighbour of a Water cell. Ponds are
      whole grass regions turned into water, so this holds throughout
      placePonds. */
  ghost predicate GrassWaterApart(m: WorldMap)
    requires m.Valid()
  {
    forall a, b | Adjacent4(a, b) && HoldsAt(m, Grass, a) :: !HoldsAt(m, Water, b)
  }

  /** Under GrassWaterApart no water borders a grass region, so the revert
      of a pond restores the map. */
  lemma ApartMeansNotNextTo(m: WorldMap, s: Cell)
    requires m.Valid() && m.InBounds(s.0, s.1) && m.At(s.0, s.1) == Grass && GrassWaterApart(m)
    ensures RegionNotNextTo(m, s, Water)
  {
    forall a, b | InRegion(m, s, a) && Adjacent4(a, b) && m.InBounds(b.0, b.1)
      ensures m.At(b.0, b.1) != Water
    {
      RegionHoldsSeedValue(m, s, a);
    }
  }

  /** Turning a whole grass region into water keeps grass and water apart. */
  lemma PondKeepsApart(m: WorldMap, s: Cell)
    requires m.Valid() && m.InBounds(s.0, s.1) && m.At(s.0, s.1) == Grass && GrassWaterApart(m)
    ensures GrassWaterApart(Filled(m, s, Water))
  {
    var m1 := Filled(m, s, Water);
    forall a, b | Adjacent4(a, b) && HoldsAt(m1, Grass, a)
      ensures !HoldsAt(m1, Water, b)
    {
      assert !InRegion(m, s, a);
      assert HoldsAt(m, Grass, a);
      if HoldsAt(m1, Water, b) {
        if InRegion(m, s, b) {
          assert Adjacent4(b, a);
          RegionClosed(m, s, b, a);
        }
      }
    }
  }

  // ---------------------------------------------------------------------
  // Filling grass regions under a cap

  /** The cells where two maps of one size differ. */
  ghost function ChangedCells(before: WorldMap, after: WorldMap): set<Cell>
    requires before.Valid() && after.Valid() && after.width == before.width && after.height == before.height
  {
    set x: nat, y: nat | x < before.width && y < before.height && after.At(x, y) != before.At(x, y) :: (x, y)
  }

  /** count * 100.0 / total, the percentage placePonds and
      placeFullPavedAreas compare with their limits (exact, where the source
      uses float). It is only evaluated after a grass cell was found, so the
      total is never 0 there. */
  function Percent(count: nat, total: nat): real {
    if total == 0 then 0.0 else (count * 100) as real / total as real
  }

  /** The two tests placePonds and placeFullPavedAreas apply to a flooded
      region of size tiles, with count tiles kept so far: the region is at
      most area percent of the total and all kept tiles with it at most
      fill percent. */
  predicate Keeps(size: nat, count: nat, total: nat, fill: real, area: real) {
    Percent(size, total) <= area && Percent(count + size, total) <= fill
  }

  /** The kept count after an attempt on a region of size tiles: it grows
      by size when the attempt passes both tests. */
  function AttemptCount(size: nat, count: nat, total: nat, fill: real, area: real): (r: nat)
    ensures r == count || r == count + size
    ensures WithinLimit(count, total, fill) ==> WithinLimit(r, total, fill)
  {
    if Keeps(size, count, total, fill, area) then count + size else count
  }

  /** width * height, the number of tiles. */
  function TileCount(m: WorldMap): nat {
    m.width * m.height
  }

  /** The only change allowed: a Grass cell becomes f. */
  function GrassTo(f: TileType): (TileType, TileType) -> bool {
    (a: TileType, b: TileType) => a == Grass && b == f
  }

  /** No cell holds Temporary, the marker placeFullPavedAreas fills with. */
  ghost predicate NoTemporary(m: WorldMap)
    requires m.Valid()
  {
    forall x: nat, y: nat | x < m.width && y < m.height :: m.At(x, y) != Temporary
  }

  /** What the attempt loops keep: only grass has changed, into f, and
      count is the number of changed cells. */
  ghost predicate FillKept(m0: WorldMap, m: WorldMap, f: TileType, count: nat)
    requires m0.Valid()
  {
    && m.Valid() && m.width == m0.width && m.height == m0.height
    && ChangedOnlyAllowed(m0, m, GrassTo(f))
    && count == |ChangedCells(m0, m)|
  }

  /** No tiles, or count tiles are at most limit percent of them. */
  predicate WithinLimit(count: nat, total: nat, limit: real) {
    count == 0 || Percent(count, total) <= limit
  }

  lemma FilledSeed(m: WorldMap, s: Cell, f: TileType)
    requires m.Valid() && m.InBounds(s.0, s.1)
    ensures Filled(m, s, f).At(s.0, s.1) == f
  {
    SeedInRegion(m, s);
  }

  /** Every cell of a grass seed's region held grass before any change
      that only turned grass into f (f not grass). */
  lemma GrassRegionWasGrass(m0: WorldMap, m: WorldMap, s: Cell, f: TileType, c: Cell)
    requires m0.Valid() && m.Valid() && m.width == m0.width && m.height == m0.height
    requires m.InBounds(s.0, s.1) && m.At(s.0, s.1) == Grass && f != Grass
    requires ChangedOnlyAllowed(m0, m, GrassTo(f))
    requires InRegion(m, s, c)
    ensures m.InBounds(c.0, c.1) && m.At(c.0, c.1) == Grass && m0.At(c.0, c.1) == Grass
  {
    RegionHoldsSeedValue(m, s, c);
  }

  /** Filling a grass region with f, after changes that only turned grass
      into f, still only turns grass into f. */
  lemma FillGrassAllowed(m0: WorldMap, m: WorldMap, s: Cell, f: TileType)
    requires m0.Valid() && m.Valid() && m.width == m0.width && m.height == m0.height
    requires m.InBounds(s.0, s.1) && m.At(s.0, s.1) == Grass && f != Grass
    requires ChangedOnlyAllowed(m0, m, GrassTo(f))
    ensures ChangedOnlyAllowed(m0, Filled(m, s, f), GrassTo(f))
  {
    var m1 := Filled(m, s, f);
    forall x: nat, y: nat | x < m0.width && y < m0.height
      ensures m1.At(x, y) == m0.At(x, y) || GrassTo(f)(m0.At(x, y), m1.At(x, y))
    {
      if InRegion(m, s, (x, y)) {
        GrassRegionWasGrass(m0, m, s, f, (x, y));
      } else {
        assert m1.At(x, y) == m.At(x, y);
      }
    }
  }

  /** ... and the cells it changes are exactly the earlier ones plus the
      region, which had not changed yet. */
  lemma FillGrassChanged(m0: WorldMap, m: WorldMap, s: Cell, f: TileType)
    requires m0.Valid() && m.Valid() && m.width == m0.width && m.height == m0.height
    requires m.InBounds(s.0, s.1) && m.At(s.0, s.1) == Grass && f != Grass
    requires ChangedOnlyAllowed(m0, m, GrassTo(f))
    ensures ChangedCells(m0, Filled(m, s, f)) == ChangedCells(m0, m) + RegionCells(m, s)
    ensures ChangedCells(m0, m) !! RegionCells(m, s)
  {
    var m1 := Filled(m, s, f);
    var before, after, region := ChangedCells(m0, m), ChangedCells(m0, m1), RegionCells(m, s);
    forall c | c in region
      ensures c in after && c !in before
    {
      GrassRegionWasGrass(m0, m, s, f, c);
    }
    forall c | c in after
      ensures c in before + region
    {
      if !InRegion(m, s, c) {
        assert m1.At(c.0, c.1) == m.At(c.0, c.1);
      }
    }
    forall c | c in before
      ensures c in after
    {
      if InRegion(m, s, c) {
        GrassRegionWasGrass(m0, m, s, f, c);
      }
    }
  }

  /** Filling a grass region with f, after changes that only turned grass
      into f, adds exactly the region to the changed cells. */
  lemma FillGrassRegion(m0: WorldMap, m: WorldMap, s: Cell, f: TileType)
    requires m0.Valid() && m.Valid() && m.width == m0.width && m.height == m0.height
    requires m.InBounds(s.0, s.1) && m.At(s.0, s.1) == Grass && f != Grass
    requires ChangedOnlyAllowed(m0, m, GrassTo(f))
    ensures ChangedOnlyAllowed(m0, Filled(m, s, f), GrassTo(f))
    ensures |ChangedCells(m0, Filled(m, s, f))| == |ChangedCells(m0, m)| + |RegionCells(m, s)|
  {
    FillGrassAllowed(m0, m, s, f);
    FillGrassChanged(m0, m, s, f);
  }

  /** What placePonds keeps when grass and water started apart. */
  ghost predicate PondsKept(m0: WorldMap, m: WorldMap, count: nat)
    requires m0.Valid()
  {
    m.Valid() && GrassWaterApart(m) && FillKept(m0, m, Water, count)
  }

  /** placePonds keeps a pond: grass and water stay apart and the new
      water is the pond's region. */
  lemma PondAccepted(apart: bool, m0: WorldMap, m: WorldMap, s: Cell, count: nat, newCount: nat)
    requires m0.Valid() && m.Valid() && m.InBounds(s.0, s.1) && m.At(s.0, s.1) == Grass
    requires apart ==> PondsKept(m0, m, count)
    requires newCount == count + |RegionCells(m, s)|
    ensures apart ==> PondsKept(m0, Filled(m, s, Water), newCount)
  {
    if apart {
      PondKeepsApart(m, s);
      FillGrassRegion(m0, m, s, Water);
    }
  }

  /** placePonds drops a pond: flooding the seed back with grass restores
      the map. */
  lemma PondRejected(apart: bool, m0: WorldMap, m: WorldMap, s: Cell, count: nat)
    requires m0.Valid() && m.Valid() && m.InBounds(s.0, s.1) && m.At(s.0, s.1) == Grass
    requires apart ==> PondsKept(m0, m, count)
    ensures Filled(m, s, Water).At(s.0, s.1) == Water
    ensures apart ==> PondsKept(m0, Filled(Filled(m, s, Water), s, Grass), count)
  {
    FilledSeed(m, s, Water);
    if apart {
      ApartMeansNotNextTo(m, s);
      FillRevert(m, s, Water);
    }
  }

  lemma NoTemporaryNotNextTo(m: WorldMap, s: Cell)
    requires m.Valid() && m.InBounds(s.0, s.1) && NoTemporary(m)
    ensures RegionNotNextTo(m, s, Temporary)
  {
  }

  /** What placeFullPavedAreas keeps when no cell started as Temporary. */
  ghost predicate PavedKept(m0: WorldMap, m: WorldMap, count: nat)
    requires m0.Valid()
  {
    m.Valid() && NoTemporary(m) && FillKept(m0, m, Street, count)
  }

  /** placeFullPavedAreas keeps an area: flooding the Temporary region with
      Street is flooding the grass region with Street, which leaves no
      Temporary cell and adds the region to the street. */
  lemma PavedAccepted(clean: bool, m0: WorldMap, m: WorldMap, s: Cell, count: nat, newCount: nat)
    requires m0.Valid() && m.Valid() && m.InBounds(s.0, s.1) && m.At(s.0, s.1) == Grass
    requires clean ==> PavedKept(m0, m, count)
    requires newCount == count + |RegionCells(m, s)|
    ensures Filled(m, s, Temporary).At(s.0, s.1) == Temporary
    ensures clean ==> PavedKept(m0, Filled(Filled(m, s, Temporary), s, Street), newCount)
  {
    FilledSeed(m, s, Temporary);
    if clean {
      NoTemporaryNotNextTo(m, s);
      Refill(m, s, Temporary, Street);
      FillGrassRegion(m0, m, s, Street);
    }
  }

  /** placeFullPavedAreas drops an area: flooding the seed back with grass
      restores the map. */
  lemma PavedRejected(clean: bool, m0: WorldMap, m: WorldMap, s: Cell, count: nat)
    requires m0.Valid() && m.Valid() && m.InBounds(s.0, s.1) && m.At(s.0, s.1) == Grass
    requires clean ==> PavedKept(m0, m, count)
    ensures Filled(m, s, Temporary).At(s.0, s.1) == Temporary
    ensures clean ==> PavedKept(m0, Filled(Filled(m, s, Temporary), s, Grass), count)
  {
    FilledSeed(m, s, Temporary);
    if clean {
      NoTemporaryNotNextTo(m, s);
      FillRevert(m, s, Temporary);
    }
  }

  // ---------------------------------------------------------------------
  // The attempt loops of placePonds and placeFullPavedAreas as folds

  /** The answer of find(Grass, start, wrap = true): the one answer FindSpec
      allows. */
  ghost function GrassFound(m: WorldMap, start: Cell): (r: Option<Cell>)
    requires m.Valid()
    ensures r.Some? ==> Holds(m, Grass, r.value.0, r.value.1)
  {
    if exists r: Option<Cell> :: FindSpec(m, Grass, start.0, start.1, true, r) then
      var r: Option<Cell> :| FindSpec(m, Grass, start.0, start.1, true, r); r
    else None
  }

  /** Whatever find returned is GrassFound. */
  lemma GrassFoundIs(m: WorldMap, start: Cell, r: Option<Cell>)
    requires m.Valid() && FindSpec(m, Grass, start.0, start.1, true, r)
    ensures GrassFound(m, start) == r
  {
    FindSpecUnique(m, Grass, start.0, start.1, true, GrassFound(m, start), r);
  }

  /** One attempt of placePonds at the grass cell s, with count water tiles
      kept so far: the seed's region is flooded with water and kept when it
      is at most area percent of the total and all kept water at most fill
      percent; otherwise the seed is flooded back with grass. Yields the
      world and the new kept count. */
  ghost function PondAttempt(m: WorldMap, s: Cell, count: nat, total: nat, fill: real, area: real): (r: (WorldMap, nat))
    requires m.Valid() && m.InBounds(s.0, s.1)
    ensures r.0.Valid() && r.0.width == m.width && r.0.height == m.height
  {
    var size := |RegionCells(m, s)|;
    var pond := Filled(m, s, Water);
    (if Keeps(size, count, total, fill, area) then pond else Filled(pond, s, Grass),
     AttemptCount(size, count, total, fill, area))
  }

  /** The attempts of placePonds from the i-th on: find grass from
      starts[i], make an attempt there, and go on with the next start; stop
      at the first start that finds no grass. Yields the world and the kept
      water count. */
  ghost function PondsRun(m: WorldMap, starts: seq<Cell>, i: nat, count: nat, total: nat, fill: real, area: real)
    : (r: (WorldMap, nat))
    requires m.Valid() && i <= |starts|
    ensures r.0.Valid() && r.0.width == m.width && r.0.height == m.height
    decreases |starts| - i, 1
  {
    if i == |starts| then (m, count) else PondsRunTurn(m, starts, i, count, total, fill, area)
  }

  /** The i-th turn of PondsRun: find grass from starts[i], stop when there is
      none, and otherwise make the attempt there and go on. */
  ghost function PondsRunTurn(m: WorldMap, starts: seq<Cell>, i: nat, count: nat, total: nat, fill: real, area: real)
    : (r: (WorldMap, nat))
    requires m.Valid() && i < |starts|
    ensures r.0.Valid() && r.0.width == m.width && r.0.height == m.height
    decreases |starts| - i, 0
  {
    match GrassFound(m, starts[i])
    case None => (m, count)
    case Some(s) =>
      var next := PondAttempt(m, s, count, total, fill, area);
      PondsRun(next.0, starts, i + 1, next.1, total, fill, area)
  }

  /** The kept water stays within the fill limit over the attempts. */
  lemma {:induction false} PondsRunWithinLimit(m: WorldMap, starts: seq<Cell>, i: nat, count: nat, total: nat, fill: real, area: real)
    requires m.Valid() && i <= |starts| && WithinLimit(count, total, fill)
    ensures WithinLimit(PondsRun(m, starts, i, count, total, fill, area).1, total, fill)
    decreases |starts| - i
  {
    if i < |starts| && GrassFound(m, starts[i]).Some? {
      var s := PondsRunStep(m, starts, i, count, total, fill, area);
      var next := PondAttempt(m, s, count, total, fill, area);
      PondsRunWithinLimit(next.0, starts, i + 1, next.1, total, fill, area);
    }
  }

  /** A run past the last start has nothing left to do. */
  lemma PondsRunEnds(m: WorldMap, starts: seq<Cell>, i: nat, count: nat, total: nat, fill: real, area: real)
    requires m.Valid() && i == |starts|
    ensures PondsRun(m, starts, i, count, total, fill, area).0 == m
    ensures PondsRun(m, starts, i, count, total, fill, area).1 == count
  {
  }

  /** One turn of PondsRun that found grass at s. */
  lemma PondsRunStep(m: WorldMap, starts: seq<Cell>, i: nat, count: nat, total: nat, fill: real, area: real)
    returns (s: Cell)
    requires m.Valid() && i < |starts| && GrassFound(m, starts[i]).Some?
    ensures s == GrassFound(m, starts[i]).value && m.InBounds(s.0, s.1) && m.At(s.0, s.1) == Grass
    ensures var next := PondAttempt(m, s, count, total, fill, area);
      PondsRun(m, starts, i, count, total, fill, area) == PondsRun(next.0, starts, i + 1, next.1, total, fill, area)
  {
    s := GrassFound(m, starts[i]).value;
  }

  /** One attempt of placeFullPavedAreas at the grass cell s: the region is
      flooded with Temporary, and then with Street when it is kept under the
      same two limits as a pond, or back with grass otherwise. */
  ghost function PavedAttempt(m: WorldMap, s: Cell, count: nat, total: nat, fill: real, area: real): (r: (WorldMap, nat))
    requires m.Valid() && m.InBounds(s.0, s.1)
    ensures r.0.Valid() && r.0.width == m.width && r.0.height == m.height
  {
    var size := |RegionCells(m, s)|;
    var marked := Filled(m, s, Temporary);
    (if Keeps(size, count, total, fill, area) then Filled(marked, s, Street) else Filled(marked, s, Grass),
     AttemptCount(size, count, total, fill, area))
  }

  /** The attempts of placeFullPavedAreas from the i-th on, as PondsRun. */
  ghost function PavedRun(m: WorldMap, starts: seq<Cell>, i: nat, count: nat, total: nat, fill: real, area: real)
    : (r: (WorldMap, nat))
    requires m.Valid() && i <= |starts|
    ensures r.0.Valid() && r.0.width == m.width && r.0.height == m.height
    decreases |starts| - i, 1
  {
    if i == |starts| then (m, count) else PavedRunTurn(m, starts, i, count, total, fill, area)
  }

  /** The i-th turn of PavedRun: find grass from starts[i], stop when there is
      none, and otherwise make the attempt there and go on. */
  ghost function PavedRunTurn(m: WorldMap, starts: seq<Cell>, i: nat, count: nat, total: nat, fill: real, area: real)
    : (r: (WorldMap, nat))
    requires m.Valid() && i < |starts|
    ensures r.0.Valid() && r.0.width == m.width && r.0.height == m.height
    decreases |starts| - i, 0
  {
    match GrassFound(m, starts[i])
    case None => (m, count)
    case Some(s) =>
      var next := PavedAttempt(m, s, count, total, fill, area);
      PavedRun(next.0, starts, i + 1, next.1, total, fill, area)
  }

  /** The kept street stays within the fill limit over the attempts. */
  lemma {:induction false} PavedRunWithinLimit(m: WorldMap, starts: seq<Cell>, i: nat, count: nat, total: nat, fill: real, area: real)
    requires m.Valid() && i <= |starts| && WithinLimit(count, total, fill)
    ensures WithinLimit(PavedRun(m, starts, i, count, total, fill, area).1, total, fill)
    decreases |starts| - i
  {
    if i < |starts| && GrassFound(m, starts[i]).Some? {
      var s := PavedRunStep(m, starts, i, count, total, fill, area);
      var next := PavedAttempt(m, s, count, total, fill, area);
      PavedRunWithinLimit(next.0, starts, i + 1, next.1, total, fill, area);
    }
  }

  /** A run past the last start has nothing left to do. */
  lemma PavedRunEnds(m: WorldMap, starts: seq<Cell>, i: nat, count: nat, total: nat, fill: real, area: real)
    requires m.Valid() && i == |starts|
    ensures PavedRun(m, starts, i, count, total, fill, area).0 == m
    ensures PavedRun(m, starts, i, count, total, fill, area).1 == count
  {
  }

  /** One turn of PavedRun that found grass at s. */
  lemma PavedRunStep(m: WorldMap, starts: seq<Cell>, i: nat, count: nat, total: nat, fill: real, area: real)
    returns (s: Cell)
    requires m.Valid() && i < |starts| && GrassFound(m, starts[i]).Some?
    ensures s == GrassFound(m, starts[i]).value && m.InBounds(s.0, s.1) && m.At(s.0, s.1) == Grass
    ensures var next := PavedAttempt(m, s, count, total, fill, area);
      PavedRun(m, starts, i, count, total, fill, area) == PavedRun(next.0, starts, i + 1, next.1, total, fill, area)
  {
    s := GrassFound(m, starts[i]).value;
  }

  /** An attempt keeps PondsKept when grass and water started apart. */
  lemma PondAttemptKept(apart: bool, m0: WorldMap, m: WorldMap, s: Cell, count: nat, total: nat, fill: real, area: real)
    requires m0.Valid() && m.Valid() && m.InBounds(s.0, s.1) && m.At(s.0, s.1) == Grass
    requires apart ==> PondsKept(m0, m, count)
    ensures var next := PondAttempt(m, s, count, total, fill, area);
      apart ==> PondsKept(m0, next.0, next.1)
  {
    var size := |RegionCells(m, s)|;
    if Keeps(size, count, total, fill, area) {
      PondAccepted(apart, m0, m, s, count, count + size);
    } else {
      PondRejected(apart, m0, m, s, count);
    }
  }

  /** An attempt keeps PavedKept when no cell started as Temporary. */
  lemma PavedAttemptKept(clean: bool, m0: WorldMap, m: WorldMap, s: Cell, count: nat, total: nat, fill: real, area: real)
    requires m0.Valid() && m.Valid() && m.InBounds(s.0, s.1) && m.At(s.0, s.1) == Grass
    requires clean ==> PavedKept(m0, m, count)
    ensures var next := PavedAttempt(m, s, count, total, fill, area);
      clean ==> PavedKept(m0, next.0, next.1)
  {
    var size := |RegionCells(m, s)|;
    if Keeps(size, count, total, fill, area) {
      PavedAccepted(clean, m0, m, s, count, count + size);
    } else {
      PavedRejected(clean, m0, m, s, count);
    }
  }

  /** PondsKept holds over all the attempts of placePonds. */
  lemma {:induction false} PondsRunKept(apart: bool, m0: WorldMap, m: WorldMap, starts: seq<Cell>, i: nat, count: nat,
                                   total: nat, fill: real, area: real)
    requires m0.Valid() && m.Valid() && i <= |starts|
    requires apart ==> PondsKept(m0, m, count)
    ensures var r := PondsRun(m, starts, i, count, total, fill, area);
      apart ==> PondsKept(m0, r.0, r.1)
    decreases |starts| - i
  {
    if i < |starts| && GrassFound(m, starts[i]).Some? {
      var s := PondsRunStep(m, starts, i, count, total, fill, area);
      PondAttemptKept(apart, m0, m, s, count, total, fill, area);
      var next := PondAttempt(m, s, count, total, fill, area);
      PondsRunKept(apart, m0, next.0, starts, i + 1, next.1, total, fill, area);
    }
  }

  /** PavedKept holds over all the attempts of placeFullPavedAreas. */
  lemma {:induction false} PavedRunKept(clean: bool, m0: WorldMap, m: WorldMap, starts: seq<Cell>, i: nat, count: nat,
                                   total: nat, fill: real, area: real)
    requires m0.Valid() && m.Valid() && i <= |starts|
    requires clean ==> PavedKept(m0, m, count)
    ensures var r := PavedRun(m, starts, i, count, total, fill, area);
      clean ==> PavedKept(m0, r.0, r.1)
    decreases |starts| - i
  {
    if i < |starts| && GrassFound(m, starts[i]).Some? {
      var s := PavedRunStep(m, starts, i, count, total, fill, area);
      PavedAttemptKept(clean, m0, m, s, count, total, fill, area);
      var next := PavedAttempt(m, s, count, total, fill, area);
      PavedRunKept(clean, m0, next.0, starts, i + 1, next.1, total, fill, area);
    }
  }

  /** A whole run from no kept tiles ends with the kept water within the
      fill limit, and PondsKept when GrassWaterApart held at the start. */
  lemma PondsRunOutcome(m0: WorldMap, starts: seq<Cell>, total: nat, fill: real, area: real, m: WorldMap, count: nat)
    requires m0.Valid()
    requires m == PondsRun(m0, starts, 0, 0, total, fill, area).0
    requires count == PondsRun(m0, starts, 0, 0, total, fill, area).1
    ensures WithinLimit(count, total, fill)
    ensures GrassWaterApart(m0) ==> PondsKept(m0, m, count)
  {
    PondsRunWithinLimit(m0, starts, 0, 0, total, fill, area);
    PondsRunKept(GrassWaterApart(m0), m0, m0, starts, 0, 0, total, fill, area);
  }

  /** A whole run from no kept tiles ends with the kept street within the
      fill limit, and PavedKept when NoTemporary held at the start. */
  lemma PavedRunOutcome(m0: WorldMap, starts: seq<Cell>, total: nat, fill: real, area: real, m: WorldMap, count: nat)
    requires m0.Valid()
    requires m == PavedRun(m0, starts, 0, 0, total, fill, area).0
    requires count == PavedRun(m0, starts, 0, 0, total, fill, area).1
    ensures WithinLimit(count, total, fill)
    ensures NoTemporary(m0) ==> PavedKept(m0, m, count)
  {
    PavedRunWithinLimit(m0, starts, 0, 0, total, fill, area);
    PavedRunKept(NoTemporary(m0), m0, m0, starts, 0, 0, total, fill, area);
  }

  // ---------------------------------------------------------------------
  // Stamping patches at pattern matches

  /** Allowed changes compose when the relation is transitive. */
  lemma AllowedChain(m0: WorldMap, m1: WorldMap, m2: WorldMap, allowed: (TileType, TileType) -> bool)
    requires m0.Valid() && m1.Valid() && m2.Valid() && Transitive(allowed)
    requires ChangedOnlyAllowed(m0, m1, allowed) && ChangedOnlyAllowed(m1, m2, allowed)
    ensures ChangedOnlyAllowed(m0, m2, allowed)
  {
    forall x: nat, y: nat | x < m0.width && y < m0.height
      ensures m2.At(x, y) == m0.At(x, y) || allowed(m0.At(x, y), m2.At(x, y))
    {
      assert m1.At(x, y) == m0.At(x, y) || allowed(m0.At(x, y), m1.At(x, y));
      assert m2.At(x, y) == m1.At(x, y) || allowed(m1.At(x, y), m2.At(x, y));
    }
  }

  /** A fitting patch written at a match, after earlier allowed changes,
      leaves only allowed changes. */
  lemma PatchStepAllowed(m0: WorldMap, m1: WorldMap, m2: WorldMap, pattern: Pattern, patch: Patch, x: nat, y: nat,
                         allowed: (TileType, TileType) -> bool)
    requires m0.Valid() && m1.Valid() && m2.Valid() && pattern.Valid() && patch.Valid() && Transitive(allowed)
    requires ChangedOnlyAllowed(m0, m1, allowed)
    requires MatchesAt(m1, pattern, x, y) && PatchFits(pattern, patch, allowed)
    requires m2.width == m1.width && m2.height == m1.height
    requires forall cx: nat, cy: nat | cx < m1.width && cy < m1.height :: m2.At(cx, cy) == PatchedCell(m1, patch, x, y, cx, cy)
    ensures ChangedOnlyAllowed(m0, m2, allowed)
  {
    PatchAtMatchAllowed(m1, pattern, patch, x, y, allowed);
    AllowedChain(m0, m1, m2, allowed);
  }

  /** Turning grass into f is transitive (nothing turns into grass). */
  lemma GrassToTransitive(f: TileType)
    requires f != Grass
    ensures Transitive(GrassTo(f))
  {
  }

  /** Rotating a pattern and its patch the same way keeps the patch fitting. */
  lemma PatchFitsRotated(pattern: Pattern, patch: Patch, pattern': Pattern, patch': Patch,
                         allowed: (TileType, TileType) -> bool)
    requires pattern.Valid() && patch.Valid() && PatchFits(pattern, patch, allowed)
    requires IsRotated90CW(pattern, pattern') && IsRotated90CW(patch, patch')
    ensures PatchFits(pattern', patch', allowed)
  {
    forall px: nat, py: nat | px < patch'.width && py < patch'.height && patch'.At(px, py) != PatchKeep
      ensures pattern'.At(px, py) != PatternAny && allowed(pattern'.At(px, py), patch'.At(px, py))
    {
      var x, y := py, patch.height - 1 - px;
      assert patch'.At(patch.height - 1 - y, x) == patch.At(x, y);
      assert pattern'.At(pattern.height - 1 - y, x) == pattern.At(x, y);
    }
  }

  /** What placeBuildings needs of its catalogue: every pattern has a cell,
      fits the world in both orientations, and has at least one patch
      variation, each fitting it under allowed. */
  ghost predicate Catalogue(width: nat, height: nat, patterns: seq<Pattern>, patches: seq<seq<Patch>>,
                            allowed: (TileType, TileType) -> bool)
  {
    && CatalogueFits(patterns, patches, allowed)
    && forall i | 0 <= i < |patterns| ::
         && patterns[i].width <= width && patterns[i].height <= height
         && patterns[i].height <= width && patterns[i].width <= height
  }

  /** Every patch variation of the catalogue fits its pattern under allowed. */
  ghost predicate CatalogueFits(patterns: seq<Pattern>, patches: seq<seq<Patch>>, allowed: (TileType, TileType) -> bool) {
    && StampableCatalogue(patterns, patches)
    && forall i, k | 0 <= i < |patterns| && 0 <= k < |patches[i]| :: PatchFits(patterns[i], patches[i][k], allowed)
  }

  /** C++ int division, which truncates toward zero. */
  function TruncDiv(a: int, b: int): (q: int)
    requires b != 0
    ensures 0 <= a && 0 < b ==> q * b <= a < q * b + b
    ensures a < b && 0 < b ==> q <= 0
  {
    if (a < 0) == (b < 0) then Abs(a) / Abs(b) else -(Abs(a) / Abs(b))
  }

  function Abs(a: int): nat {
    if a < 0 then -a else a
  }

  /** The scaled fill rate of each placeBuildings pass: fillRate spread
      over the catalogue, in the units of the scaled percent draw. */
  function ScaledBuildingRate(fillRate: int, patternCount: nat): (r: int)
    requires patternCount > 0
    ensures fillRate * ScaledPercentFactor < patternCount ==> r <= 0
  {
    TruncDiv(fillRate * ScaledPercentFactor, patternCount) * ScaledPercentFactor
  }

  /** The rotation step of placeBuildings: every pattern and every patch
      variation turned 90 degrees clockwise. */
  method RotatedCatalogue(ghost width: nat, ghost height: nat, patterns: seq<Pattern>, patches: seq<seq<Patch>>,
                          ghost allowed: (TileType, TileType) -> bool)
    returns (patterns': seq<Pattern>, patches': seq<seq<Patch>>)
    requires Catalogue(width, height, patterns, patches, allowed)
    ensures |patterns'| == |patterns| && |patches'| == |patches|
    ensures forall i | 0 <= i < |patterns| :: IsRotated90CW(patterns[i], patterns'[i])
    ensures forall i | 0 <= i < |patches| :: |patches'[i]| == |patches[i]|
    ensures forall i, k | 0 <= i < |patches| && 0 <= k < |patches[i]| :: IsRotated90CW(patches[i][k], patches'[i][k])
    ensures patterns' == TurnedCatalogue(patterns, patches).0 && patches' == TurnedCatalogue(patterns, patches).1
    ensures Catalogue(width, height, patterns', patches', allowed)
  {
    patterns' := RotatedAll(patterns);
    patches' := RotatedVariations(patches);
    CatalogueRotated(width, height, patterns, patches, patterns', patches', allowed);
    TurnedCatalogueIs(patterns, patches, patterns', patches');
  }

  /** Every map of a list (the patterns, or one pattern's patch
      variations) turned 90 degrees clockwise. */
  method RotatedAll(maps: seq<Map<TileType>>) returns (maps': seq<Map<TileType>>)
    requires forall i | 0 <= i < |maps| :: maps[i].Valid()
    ensures |maps'| == |maps|
    ensures forall i | 0 <= i < |maps| :: IsRotated90CW(maps[i], maps'[i])
  {
    maps' := [];
    for i := 0 to |maps|
      invariant |maps'| == i
      invariant forall j | 0 <= j < i :: IsRotated90CW(maps[j], maps'[j])
    {
      var r := Rotated90CW(maps[i]);
      maps' := maps' + [r];
    }
  }

  /** Every patch variation turned 90 degrees clockwise. */
  method RotatedVariations(patches: seq<seq<Patch>>) returns (patches': seq<seq<Patch>>)
    requires forall i, k | 0 <= i < |patches| && 0 <= k < |patches[i]| :: patches[i][k].Valid()
    ensures |patches'| == |patches|
    ensures forall i | 0 <= i < |patches| :: |patches'[i]| == |patches[i]|
    ensures forall i, k | 0 <= i < |patches| && 0 <= k < |patches[i]| :: IsRotated90CW(patches[i][k], patches'[i][k])
  {
    patches' := [];
    for i := 0 to |patches|
      invariant |patches'| == i
      invariant forall j | 0 <= j < i :: |patches'[j]| == |patches[j]|
      invariant forall j, k | 0 <= j < i && 0 <= k < |patches[j]| :: IsRotated90CW(patches[j][k], patches'[j][k])
    {
      var variations := RotatedAll(patches[i]);
      patches' := patches' + [variations];
    }
  }

  /** The rotated catalogue still fits the world and its patches still fit
      their patterns. */
  lemma CatalogueRotated(width: nat, height: nat, patterns: seq<Pattern>, patches: seq<seq<Patch>>,
                         patterns': seq<Pattern>, patches': seq<seq<Patch>>, allowed: (TileType, TileType) -> bool)
    requires Catalogue(width, height, patterns, patches, allowed)
    requires |patterns'| == |patterns| && |patches'| == |patches|
    requires forall i | 0 <= i < |patterns| :: IsRotated90CW(patterns[i], patterns'[i])
    requires forall i | 0 <= i < |patches| :: |patches'[i]| == |patches[i]|
    requires forall i, k | 0 <= i < |patches| && 0 <= k < |patches[i]| :: IsRotated90CW(patches[i][k], patches'[i][k])
    ensures Catalogue(width, height, patterns', patches', allowed)
  {
    forall i | 0 <= i < |patterns|
      ensures Stampable(patterns'[i], patches'[i]) && 1 <= patterns'[i].height
    {
      forall k | 0 <= k < |patches'[i]|
        ensures patches'[i][k].Valid() && patches'[i][k].width == patterns'[i].width
                && patches'[i][k].height == patterns'[i].height
      {
        assert IsRotated90CW(patches[i][k], patches'[i][k]);
      }
    }
    assert StampableCatalogue(patterns', patches');
    forall i, k | 0 <= i < |patterns| && 0 <= k < |patches[i]|
      ensures PatchFits(patterns'[i], patches'[i][k], allowed)
    {
      PatchFitsRotated(patterns[i], patches[i][k], patterns'[i], patches'[i][k], allowed);
    }
  }

  /** The trees of one crown row: none, or columns from..to. */
  datatype CrownRow = NoTrees | Trees(from: nat, to: nat)

  /** The crown rows of placeLargeTrees' 9x9 patch. */
  function LargeCrown(): seq<CrownRow> {
    [NoTrees, Trees(3, 5), Trees(2, 6), Trees(1, 7), Trees(1, 7), Trees(1, 7), Trees(2, 6), Trees(3, 5), NoTrees]
  }

  /** The crown rows of placeSmallTrees' 6x6 patch. */
  function SmallCrown(): seq<CrownRow> {
    [NoTrees, Trees(2, 3), Trees(1, 4), Trees(1, 4), Trees(2, 3), NoTrees]
  }

  /** A size x size patch: Tree on each row's crown columns, PatchKeep
      everywhere else. */
  function CrownPatch(size: nat, rows: seq<CrownRow>): (patch: Patch)
    requires |rows| == size
    ensures patch.Valid() && patch.width == size && patch.height == size
    ensures forall x: nat, y: nat | x < size && y < size ::
      patch.At(x, y) == if rows[y].Trees? && rows[y].from <= x <= rows[y].to then Tree else PatchKeep
  {
    var patch := Map(size, size, seq(size, y requires 0 <= y < size =>
                   seq(size, x => if rows[y].Trees? && rows[y].from <= x <= rows[y].to then Tree else PatchKeep)));
    assert forall row | row in patch.rows :: |row| == size;
    patch
  }

  /** A crown fits the all-grass pattern: it only turns grass into trees. */
  lemma CrownFits(size: nat, rows: seq<CrownRow>)
    requires |rows| == size
    ensures PatchFits(Create(size, size, Grass), CrownPatch(size, rows), GrassTo(Tree))
  {
  }

  // ---------------------------------------------------------------------
  // Roundabouts

  /** placeRoundaboutsA's 8x8 pattern: a two-cell-wide street crossing
      (columns 3-4 and rows 3-4) on grass. */
  function CrossingStreetPattern(): (pattern: Pattern)
    ensures pattern.Valid() && pattern.width == 8 && pattern.height == 8
    ensures forall x: nat, y: nat | x < 8 && y < 8 ::
      pattern.At(x, y) == if 3 <= x <= 4 || 3 <= y <= 4 then Street else Grass
  {
    var pattern := Map(8, 8, seq(8, y requires 0 <= y < 8 => seq(8, x => if 3 <= x <= 4 || 3 <= y <= 4 then Street else Grass)));
    assert forall row | row in pattern.rows :: |row| == 8;
    pattern
  }

  /** The five groups of writes of placeRoundaboutsA's placeRoundabout,
      by offset from the crossing's corner: three street cells in the top
      left (group 0), top right (1), bottom left (2) and bottom right (3)
      corners, and the four grass cells of the centre (4). */
  predicate RoundaboutAGroup(g: nat, dx: int, dy: int) {
    if g == 0 then (dx == 2 && dy == 1) || (dx == 1 && dy == 2) || (dx == 2 && dy == 2)
    else if g == 1 then (dx == 5 && dy == 1) || (dx == 6 && dy == 2) || (dx == 5 && dy == 2)
    else if g == 2 then (dx == 1 && dy == 5) || (dx == 2 && dy == 6) || (dx == 2 && dy == 5)
    else if g == 3 then (dx == 5 && dy == 5) || (dx == 6 && dy == 5) || (dx == 5 && dy == 6)
    else g == 4 && 3 <= dx <= 4 && 3 <= dy <= 4
  }

  /** The five groups of writes of placeRoundaboutsB's placeRoundabout,
      by offset from the matched block's corner: four street cells along
      the top (group 0), bottom (1), left (2) and right (3) edges just
      outside the block, and the four grass cells of its centre (4). */
  predicate RoundaboutBGroup(g: nat, dx: int, dy: int) {
    if g == 0 then dy == -1 && 0 <= dx <= 3
    else if g == 1 then dy == 4 && 0 <= dx <= 3
    else if g == 2 then dx == -1 && 0 <= dy <= 3
    else if g == 3 then dx == 4 && 0 <= dy <= 3
    else g == 4 && 1 <= dx <= 2 && 1 <= dy <= 2
  }

  /** The two roundabout shapes. */
  datatype Roundabout = RoundaboutA | RoundaboutB

  /** Cell (cx, cy) is in group g of a roundabout placed at (x, y). */
  predicate InRoundaboutGroup(kind: Roundabout, g: nat, x: nat, y: nat, cx: nat, cy: nat) {
    if kind == RoundaboutA then RoundaboutAGroup(g, cx - x, cy - y) else RoundaboutBGroup(g, cx - x, cy - y)
  }

  /** What placeRoundaboutsA's placeRoundabout writes at offset (px, py):
      Street in the four corner groups, Grass in the centre, nothing
      elsewhere. */
  function RoundaboutACell(px: nat, py: nat): TileType {
    if RoundaboutAGroup(0, px, py) || RoundaboutAGroup(1, px, py) || RoundaboutAGroup(2, px, py) || RoundaboutAGroup(3, px, py) then Street
    else if RoundaboutAGroup(4, px, py) then Grass
    else PatchKeep
  }

  /** The writes of placeRoundaboutsA's placeRoundabout as an 8x8 patch. */
  function RoundaboutAPatch(): (patch: Patch)
    ensures patch.Valid() && patch.width == 8 && patch.height == 8
    ensures forall x: nat, y: nat | x < 8 && y < 8 :: patch.At(x, y) == RoundaboutACell(x, y)
  {
    var patch := Map(8, 8, seq(8, y requires 0 <= y < 8 => seq(8, x requires 0 <= x < 8 => RoundaboutACell(x, y))));
    assert forall row | row in patch.rows :: |row| == 8;
    patch
  }

  /** The picture of the comment above placeRoundaboutsA: a diamond-shaped
      ring of street with grass in the middle and in the corners. In
      doubled coordinates around the centre (3.5, 3.5), street lies at
      distance 4 to 8. */
  predicate RoundaboutRing(px: nat, py: nat) {
    4 <= Abs(2 * px - 7) + Abs(2 * py - 7) <= 8
  }

  /** Only grass and street are exchanged. */
  function GrassOrStreet(): (TileType, TileType) -> bool {
    (a: TileType, b: TileType) => (a == Grass || a == Street) && (b == Grass || b == Street)
  }

  /** The roundabout writes only on the crossing's grass and street. */
  lemma RoundaboutAFits()
    ensures PatchFits(CrossingStreetPattern(), RoundaboutAPatch(), GrassOrStreet())
    ensures Transitive(GrassOrStreet())
  {
  }

  /** Writing a roundabout on a crossing turns the 8x8 window into the ring
      picture: street exactly where RoundaboutRing holds, grass elsewhere. */
  lemma RoundaboutAPicture(world: WorldMap, x: nat, y: nat)
    requires world.Valid() && MatchesAt(world, CrossingStreetPattern(), x, y)
    ensures forall px: nat, py: nat | px < 8 && py < 8 ::
      PatchedCell(world, RoundaboutAPatch(), x, y, x + px, y + py) == if RoundaboutRing(px, py) then Street else Grass
  {
    forall px: nat, py: nat | px < 8 && py < 8
      ensures PatchedCell(world, RoundaboutAPatch(), x, y, x + px, y + py) == if RoundaboutRing(px, py) then Street else Grass
    {
      RoundaboutAPictureAt(world, x, y, px, py);
    }
  }

  lemma RoundaboutAPictureAt(world: WorldMap, x: nat, y: nat, px: nat, py: nat)
    requires world.Valid() && MatchesAt(world, CrossingStreetPattern(), x, y) && px < 8 && py < 8
    ensures PatchedCell(world, RoundaboutAPatch(), x, y, x + px, y + py) == if RoundaboutRing(px, py) then Street else Grass
  {
    assert CellMatches(world, CrossingStreetPattern(), x, y, px, py);
    RingOverCrossing(px, py);
  }

  /** Offset by offset: the ring is the patch's street where it writes, and
      the crossing's street where it does not. */
  lemma RingOverCrossing(px: nat, py: nat)
    requires px < 8 && py < 8
    ensures RoundaboutRing(px, py) <==>
      if RoundaboutACell(px, py) != PatchKeep then RoundaboutACell(px, py) == Street else 3 <= px <= 4 || 3 <= py <= 4
  {
  }

  /** after is before with group g of the roundabout at (x, y) set to v. */
  ghost predicate GroupWritten(before: WorldMap, after: WorldMap, kind: Roundabout, x: nat, y: nat, g: nat, v: TileType)
    requires before.Valid()
  {
    && after.Valid() && after.width == before.width && after.height == before.height
    && forall cx: nat, cy: nat | cx < before.width && cy < before.height ::
         after.At(cx, cy) == if InRoundaboutGroup(kind, g, x, y, cx, cy) then v else before.At(cx, cy)
  }

  /** Three writes of v set exactly a three-cell group. */
  lemma Set3Written(m: WorldMap, kind: Roundabout, x: nat, y: nat, g: nat, x1: nat, y1: nat, x2: nat, y2: nat, x3: nat, y3: nat, v: TileType)
    requires m.Valid() && m.InBounds(x1, y1) && m.InBounds(x2, y2) && m.InBounds(x3, y3)
    requires forall px: nat, py: nat | px < m.width && py < m.height ::
      InRoundaboutGroup(kind, g, x, y, px, py) <==> (px == x1 && py == y1) || (px == x2 && py == y2) || (px == x3 && py == y3)
    ensures GroupWritten(m, m.Set(x1, y1, v).Set(x2, y2, v).Set(x3, y3, v), kind, x, y, g, v)
  {
  }

  /** Four writes of v set exactly a four-cell group. */
  lemma Set4Written(m: WorldMap, kind: Roundabout, x: nat, y: nat, g: nat, x1: nat, y1: nat, x2: nat, y2: nat, x3: nat, y3: nat, x4: nat, y4: nat, v: TileType)
    requires m.Valid() && m.InBounds(x1, y1) && m.InBounds(x2, y2) && m.InBounds(x3, y3) && m.InBounds(x4, y4)
    requires forall px: nat, py: nat | px < m.width && py < m.height ::
      InRoundaboutGroup(kind, g, x, y, px, py) <==> (px == x1 && py == y1) || (px == x2 && py == y2) || (px == x3 && py == y3) || (px == x4 && py == y4)
    ensures GroupWritten(m, m.Set(x1, y1, v).Set(x2, y2, v).Set(x3, y3, v).Set(x4, y4, v), kind, x, y, g, v)
  {
  }

  /** The five groups of writes of placeRoundaboutsA's placeRoundabout
      together apply RoundaboutAPatch. */
  lemma RoundaboutAGroups(m0: WorldMap, m1: WorldMap, m2: WorldMap, m3: WorldMap, m4: WorldMap, m5: WorldMap, x: nat, y: nat)
    requires m0.Valid() && x + 8 <= m0.width && y + 8 <= m0.height
    requires GroupWritten(m0, m1, RoundaboutA, x, y, 0, Street) && GroupWritten(m1, m2, RoundaboutA, x, y, 1, Street)
    requires GroupWritten(m2, m3, RoundaboutA, x, y, 2, Street) && GroupWritten(m3, m4, RoundaboutA, x, y, 3, Street)
    requires GroupWritten(m4, m5, RoundaboutA, x, y, 4, Grass)
    ensures m5.Valid() && m5.width == m0.width && m5.height == m0.height
    ensures forall cx: nat, cy: nat | cx < m0.width && cy < m0.height ::
      m5.At(cx, cy) == PatchedCell(m0, RoundaboutAPatch(), x, y, cx, cy)
  {
    var patch := RoundaboutAPatch();
    forall cx: nat, cy: nat | cx < m0.width && cy < m0.height
      ensures m5.At(cx, cy) == PatchedCell(m0, patch, x, y, cx, cy)
    {
      if x <= cx < x + 8 && y <= cy < y + 8 {
        assert patch.At(cx - x, cy - y) == RoundaboutACell(cx - x, cy - y);
      }
    }
  }

  /** Writes v at (x, y) when that cell lies on the map and leaves the map
      alone otherwise: placeRoundaboutsB's edge writes with the bounds check
      they lack (see RoundaboutBTopEdgeOutOfRange). */
  function SetOnMap(m: WorldMap, x: int, y: int, v: TileType): (r: WorldMap)
    requires m.Valid()
    ensures r.Valid() && r.width == m.width && r.height == m.height
    ensures forall cx: nat, cy: nat | cx < m.width && cy < m.height ::
      r.At(cx, cy) == if cx == x && cy == y then v else m.At(cx, cy)
  {
    if m.InBounds(x, y) then m.Set(x, y, v) else m
  }

  /** Four guarded writes of v set exactly the on-map cells of a group. */
  lemma Set4OnMapWritten(m: WorldMap, kind: Roundabout, x: nat, y: nat, g: nat,
                         x1: int, y1: int, x2: int, y2: int, x3: int, y3: int, x4: int, y4: int, v: TileType)
    requires m.Valid()
    requires forall px: nat, py: nat | px < m.width && py < m.height ::
      InRoundaboutGroup(kind, g, x, y, px, py) <==> (px == x1 && py == y1) || (px == x2 && py == y2) || (px == x3 && py == y3) || (px == x4 && py == y4)
    ensures GroupWritten(m, SetOnMap(SetOnMap(SetOnMap(SetOnMap(m, x1, y1, v), x2, y2, v), x3, y3, v), x4, y4, v), kind, x, y, g, v)
  {
  }

  /** The world cell (cx, cy) after placeRoundaboutsB's placeRoundabout at
      (x, y): street on the on-map cells of the four edges around the 4x4
      block, grass on the block's four centre cells. */
  function RoundaboutBPlacedCell(world: WorldMap, x: nat, y: nat, cx: nat, cy: nat): TileType
    requires world.Valid() && cx < world.width && cy < world.height
  {
    if InRoundaboutGroup(RoundaboutB, 0, x, y, cx, cy) || InRoundaboutGroup(RoundaboutB, 1, x, y, cx, cy)
       || InRoundaboutGroup(RoundaboutB, 2, x, y, cx, cy) || InRoundaboutGroup(RoundaboutB, 3, x, y, cx, cy)
    then Street
    else if InRoundaboutGroup(RoundaboutB, 4, x, y, cx, cy) then Grass
    else world.At(cx, cy)
  }

  /** The five groups of writes of placeRoundaboutsB's placeRoundabout
      together give RoundaboutBPlacedCell. */
  lemma RoundaboutBGroups(m0: WorldMap, m1: WorldMap, m2: WorldMap, m3: WorldMap, m4: WorldMap, m5: WorldMap, x: nat, y: nat)
    requires m0.Valid()
    requires GroupWritten(m0, m1, RoundaboutB, x, y, 0, Street) && GroupWritten(m1, m2, RoundaboutB, x, y, 1, Street)
    requires GroupWritten(m2, m3, RoundaboutB, x, y, 2, Street) && GroupWritten(m3, m4, RoundaboutB, x, y, 3, Street)
    requires GroupWritten(m4, m5, RoundaboutB, x, y, 4, Grass)
    ensures m5.Valid() && m5.width == m0.width && m5.height == m0.height
    ensures forall cx: nat, cy: nat | cx < m0.width && cy < m0.height ::
      m5.At(cx, cy) == RoundaboutBPlacedCell(m0, x, y, cx, cy)
  {
  }

  /** The picture of the comment above placeRoundaboutsB: on a 4x4 block of
      street with a free cell on every side, the 6x6 window around it
      becomes a ring of street with a 2x2 grass centre; its four corner
      cells keep what they held. */
  lemma RoundaboutBPicture(world: WorldMap, x: nat, y: nat)
    requires world.Valid() && MatchesAt(world, Create(4, 4, Street), x, y)
    requires 1 <= x && 1 <= y && x + 5 <= world.width && y + 5 <= world.height
    ensures forall cx: nat, cy: nat | x - 1 <= cx <= x + 4 && y - 1 <= cy <= y + 4 ::
      RoundaboutBPlacedCell(world, x, y, cx, cy) ==
        if (cx == x - 1 || cx == x + 4) && (cy == y - 1 || cy == y + 4) then world.At(cx, cy)
        else if x + 1 <= cx <= x + 2 && y + 1 <= cy <= y + 2 then Grass
        else Street
  {
    var block := Create(4, 4, Street);
    forall cx: nat, cy: nat | x - 1 <= cx <= x + 4 && y - 1 <= cy <= y + 4
      ensures RoundaboutBPlacedCell(world, x, y, cx, cy) ==
        if (cx == x - 1 || cx == x + 4) && (cy == y - 1 || cy == y + 4) then world.At(cx, cy)
        else if x + 1 <= cx <= x + 2 && y + 1 <= cy <= y + 2 then Grass
        else Street
    {
      if x <= cx < x + 4 && y <= cy < y + 4 {
        assert CellMatches(world, block, x, y, cx - x, cy - y);
      }
    }
  }

  /** Only street and grass are written. */
  function ToStreetOrGrass(): (TileType, TileType) -> bool {
    (a: TileType, b: TileType) => b == Street || b == Grass
  }

  /** One placement keeps every change a write of street or grass. */
  lemma RoundaboutBStepAllowed(m0: WorldMap, m1: WorldMap, m2: WorldMap, x: nat, y: nat)
    requires m0.Valid() && m1.Valid() && m2.Valid() && ChangedOnlyAllowed(m0, m1, ToStreetOrGrass())
    requires m2.width == m1.width && m2.height == m1.height
    requires forall cx: nat, cy: nat | cx < m1.width && cy < m1.height :: m2.At(cx, cy) == RoundaboutBPlacedCell(m1, x, y, cx, cy)
    ensures ChangedOnlyAllowed(m0, m2, ToStreetOrGrass())
  {
    assert ChangedOnlyAllowed(m1, m2, ToStreetOrGrass());
    AllowedChain(m0, m1, m2, ToStreetOrGrass());
  }

  // ---------------------------------------------------------------------
  // placeRoundaboutsB as written: Map::at(x, y) addresses element
  // y * width + x of the vector in std::size_t (modulo 2^64) arithmetic, and
  // the edge writes at x - 1, y - 1, x + 4 and y + 4 are not checked
  // against the map's bounds.

  /** The vector position Map::at(x, y) addresses for coordinates that were
      computed in std::size_t. */
  function AtIndexAsWritten(width: nat, x: int, y: int): (i: nat)
    ensures i < SizeModulus
  {
    ((y % SizeModulus) * width % SizeModulus + x % SizeModulus) % SizeModulus
  }

  /** On a map of at most 2^64 cells, a cell that lies on the map is
      addressed at its row-major position: the guarded writes of
      SetOnMap are the as-written writes wherever those stay on the map. */
  lemma AtIndexOnMap(width: nat, height: nat, x: int, y: int)
    requires 0 <= x < width && 0 <= y < height && width * height <= SizeModulus
    ensures AtIndexAsWritten(width, x, y) == y * width + x
  {
    IndexBound(height, width, x, y);
    var row := y * width;
    assert row + x < SizeModulus;
    assert y % SizeModulus == y;
    assert row % SizeModulus == row;
    assert x % SizeModulus == x;
    assert (row + x) % SizeModulus == row + x;
  }

  /** On an all-street 6x6 world the first street block of pattern A is
      found at (0, 0), and the top-edge write at (0, -1) addresses element
      2^64 - 6 of a 36-element vector. */
  lemma RoundaboutBTopEdgeOutOfRange()
    ensures FirstMatchFrom(Create(6, 6, Street), Create(4, 5, Street), 0, 0, 0, 0)
    ensures RoundaboutBGroup(0, 0, -1)
    ensures AtIndexAsWritten(6, 0, -1) == SizeModulus - 6 >= 6 * 6
  {
    var world, pattern := Create(6, 6, Street), Create(4, 5, Street);
    assert MatchesAt(world, pattern, 0, 0);
  }

  /** A 6x6 world whose top row is grass and whose other rows are street. */
  function GrassTopRow(): (world: WorldMap)
    ensures world.Valid() && world.width == 6 && world.height == 6
    ensures forall x: nat, y: nat | x < 6 && y < 6 :: world.At(x, y) == if y == 0 then Grass else Street
  {
    var world := Map(6, 6, seq(6, y => seq(6, _ => if y == 0 then Grass else Street)));
    assert forall row | row in world.rows :: |row| == 6;
    world
  }

  /** On GrassTopRow the first block of pattern A is found at (0, 1); the
      left-edge write at (-1, 1) addresses element 5, the grass cell (5, 0)
      at the far end of the top row, which is no cell of the ring. */
  lemma RoundaboutBLeftEdgeWraps()
    ensures FirstMatchFrom(GrassTopRow(), Create(4, 5, Street), 0, 0, 0, 1)
    ensures RoundaboutBGroup(2, -1, 0)
    ensures AtIndexAsWritten(6, -1, 1) == 0 * 6 + 5
    ensures GrassTopRow().At(5, 0) == Grass
    ensures forall g: nat | g <= 4 :: !InRoundaboutGroup(RoundaboutB, g, 0, 1, 5, 0)
  {
    var world, pattern := GrassTopRow(), Create(4, 5, Street);
    assert MatchesAt(world, pattern, 0, 1);
    NoBlockInGrassTopRow();
  }

  lemma NoBlockInGrassTopRow()
    ensures forall x: nat :: !MatchesAt(GrassTopRow(), Create(4, 5, Street), x, 0)
  {
    var world, pattern := GrassTopRow(), Create(4, 5, Street);
    forall x: nat
      ensures !MatchesAt(world, pattern, x, 0)
    {
      if x + 4 <= 6 {
        assert !CellMatches(world, pattern, x, 0, 0, 0);
      }
    }
  }

  // ---------------------------------------------------------------------
  // The stamp loops as functions of the world they start from

  /** The cells of row py of the pattern from column px on match the
      world under origin (x, y). */
  ghost predicate RowMatches(world: WorldMap, pattern: Pattern, x: nat, y: nat, px: nat, py: nat)
    requires world.Valid() && pattern.Valid() && py < pattern.height
    requires x + pattern.width <= world.width && y + pattern.height <= world.height
    decreases pattern.width - px
  {
    px >= pattern.width || (CellMatches(world, pattern, x, y, px, py) && RowMatches(world, pattern, x, y, px + 1, py))
  }

  /** The pattern rows from py on match the world under origin (x, y). */
  ghost predicate RowsMatch(world: WorldMap, pattern: Pattern, x: nat, y: nat, py: nat)
    requires world.Valid() && pattern.Valid()
    requires x + pattern.width <= world.width && y + pattern.height <= world.height
    decreases pattern.height - py
  {
    py >= pattern.height || (RowMatches(world, pattern, x, y, 0, py) && RowsMatch(world, pattern, x, y, py + 1))
  }

  /** Column by column, the scan of one pattern row is CellMatches. */
  lemma {:induction false} RowMatchesIff(world: WorldMap, pattern: Pattern, x: nat, y: nat, px: nat, py: nat)
    requires world.Valid() && pattern.Valid() && py < pattern.height
    requires x + pattern.width <= world.width && y + pattern.height <= world.height
    ensures RowMatches(world, pattern, x, y, px, py) <==>
      forall px': nat | px <= px' < pattern.width :: CellMatches(world, pattern, x, y, px', py)
    decreases pattern.width - px
  {
    if px < pattern.width {
      RowMatchesIff(world, pattern, x, y, px + 1, py);
    }
  }

  /** Row by row, the window test is MatchesAt. */
  lemma {:induction false} RowsMatchIff(world: WorldMap, pattern: Pattern, x: nat, y: nat, py: nat)
    requires world.Valid() && pattern.Valid()
    requires x + pattern.width <= world.width && y + pattern.height <= world.height
    ensures RowsMatch(world, pattern, x, y, py) <==>
      forall px: nat, py': nat | px < pattern.width && py <= py' < pattern.height :: CellMatches(world, pattern, x, y, px, py')
    decreases pattern.height - py
  {
    if py < pattern.height {
      RowMatchesIff(world, pattern, x, y, 0, py);
      RowsMatchIff(world, pattern, x, y, py + 1);
      if RowsMatch(world, pattern, x, y, py) {
        forall px: nat, py': nat | px < pattern.width && py <= py' < pattern.height
          ensures CellMatches(world, pattern, x, y, px, py')
        {
          if py' > py {
            assert py + 1 <= py';
          }
        }
      }
    }
  }

  /** findPattern's scan as a value: the first origin at or after (sx, sy),
      in row-major order, where the pattern matches (FirstMatchSpec). A
      found origin leaves room for the pattern and is not before the
      start. */
  ghost function FirstMatch(world: WorldMap, pattern: Pattern, sx: nat, sy: nat): (r: Option<(nat, nat)>)
    requires world.Valid() && pattern.Valid()
    ensures r.Some? ==> r.value.0 + pattern.width <= world.width && r.value.1 + pattern.height <= world.height
    ensures r.Some? ==> !RowMajorBefore(r.value.0, r.value.1, sx, sy)
    decreases world.height - sy, world.width - sx
  {
    if sy + pattern.height > world.height then None
    else if sx + pattern.width > world.width then FirstMatch(world, pattern, 0, sy + 1)
    else if RowsMatch(world, pattern, sx, sy, 0) then Some((sx, sy))
    else FirstMatch(world, pattern, sx + 1, sy)
  }

  /** FirstMatch is the first match in row-major order from (sx, sy), and
      None only when there is none. */
  lemma {:induction false} FirstMatchSpec(world: WorldMap, pattern: Pattern, sx: nat, sy: nat)
    requires world.Valid() && pattern.Valid()
    ensures var r := FirstMatch(world, pattern, sx, sy);
      && (r.Some? ==> FirstMatchFrom(world, pattern, sx, sy, r.value.0, r.value.1))
      && (r.None? ==> !MatchesFrom(world, pattern, sx, sy))
    decreases world.height - sy, world.width - sx
  {
    if sy + pattern.height > world.height {
    } else if sx + pattern.width > world.width {
      FirstMatchSpec(world, pattern, 0, sy + 1);
    } else {
      RowsMatchIff(world, pattern, sx, sy, 0);
      if !MatchesAt(world, pattern, sx, sy) {
        FirstMatchSpec(world, pattern, sx + 1, sy);
      }
    }
  }

  /** The origin FirstMatch finds is a match. */
  lemma FirstMatchMatches(world: WorldMap, pattern: Pattern, sx: nat, sy: nat, px: nat, py: nat)
    requires world.Valid() && pattern.Valid() && FirstMatch(world, pattern, sx, sy) == Some((px, py))
    ensures MatchesAt(world, pattern, px, py)
  {
    FirstMatchSpec(world, pattern, sx, sy);
  }

  /** There is one first match: whatever meets FindPattern's contract is
      FirstMatch. */
  lemma FirstMatchIs(world: WorldMap, pattern: Pattern, sx: nat, sy: nat, r: Option<(nat, nat)>)
    requires world.Valid() && pattern.Valid()
    requires r.Some? ==> FirstMatchFrom(world, pattern, sx, sy, r.value.0, r.value.1)
    requires r.None? ==> !MatchesFrom(world, pattern, sx, sy)
    ensures r == FirstMatch(world, pattern, sx, sy)
  {
    var f := FirstMatch(world, pattern, sx, sy);
    FirstMatchSpec(world, pattern, sx, sy);
    if r.Some? && f.Some? {
      assert !RowMajorBefore(r.value.0, r.value.1, f.value.0, f.value.1);
      assert !RowMajorBefore(f.value.0, f.value.1, r.value.0, r.value.1);
    }
  }

  /** The world after applyPatch(patch, x, y). */
  function Patched(world: WorldMap, patch: Patch, x: nat, y: nat): (r: WorldMap)
    requires world.Valid() && patch.Valid()
    ensures r.Valid() && r.width == world.width && r.height == world.height
    ensures forall cx: nat, cy: nat | cx < world.width && cy < world.height ::
      r.At(cx, cy) == PatchedCell(world, patch, x, y, cx, cy)
  {
    var rows := PatchedRows(world, patch, x, y, world.height);
    assert forall row | row in rows :: |row| == world.width;
    Map(world.width, world.height, rows)
  }

  /** The first count rows of the world after applyPatch(patch, x, y). */
  function PatchedRows(world: WorldMap, patch: Patch, x: nat, y: nat, count: nat): (rows: seq<seq<TileType>>)
    requires world.Valid() && patch.Valid() && count <= world.height
    ensures |rows| == count
    ensures forall cy | 0 <= cy < count :: |rows[cy]| == world.width
    ensures forall cx: nat, cy: nat | cx < world.width && cy < count :: rows[cy][cx] == PatchedCell(world, patch, x, y, cx, cy)
  {
    if count == 0 then [] else PatchedRows(world, patch, x, y, count - 1) + [PatchedRow(world, patch, x, y, count - 1, world.width)]
  }

  /** The first count cells of row cy of the world after applyPatch(patch, x, y). */
  function PatchedRow(world: WorldMap, patch: Patch, x: nat, y: nat, cy: nat, count: nat): (row: seq<TileType>)
    requires world.Valid() && patch.Valid() && cy < world.height && count <= world.width
    ensures |row| == count
    ensures forall cx: nat | cx < count :: row[cx] == PatchedCell(world, patch, x, y, cx, cy)
  {
    if count == 0 then [] else PatchedRow(world, patch, x, y, cy, count - 1) + [PatchedCell(world, patch, x, y, count - 1, cy)]
  }

  /** The world after placeRoundaboutsB's placeRoundabout at (x, y). */
  function RoundaboutBPlaced(world: WorldMap, x: nat, y: nat): (r: WorldMap)
    requires world.Valid()
    ensures r.Valid() && r.width == world.width && r.height == world.height
    ensures forall cx: nat, cy: nat | cx < world.width && cy < world.height ::
      r.At(cx, cy) == RoundaboutBPlacedCell(world, x, y, cx, cy)
  {
    var r := Map(world.width, world.height, seq(world.height, cy requires 0 <= cy < world.height =>
               seq(world.width, cx requires 0 <= cx < world.width => RoundaboutBPlacedCell(world, x, y, cx, cy))));
    assert forall row | row in r.rows :: |row| == world.width;
    r
  }

  /** What the stamp loops need of a pattern and its patch variations. */
  ghost predicate Stampable(pattern: Pattern, variations: seq<Patch>) {
    && pattern.Valid() && 1 <= pattern.width
    && |variations| > 0
    && forall k | 0 <= k < |variations| ::
         variations[k].Valid() && variations[k].width == pattern.width && variations[k].height == pattern.height
  }

  /** The stamp loop of applyPatches (pick) and of the tree placers (not
      pick), from the search cursor (sx, sy) with draws(n) the next
      generator value: at each match in turn, a scaled percent is drawn and,
      when it is at most rate, a variation (drawn next when pick, the first
      one otherwise) is applied; the search resumes right of the match.
      The result is the world and the next unused draw once findPattern
      finds nothing more. */
  ghost function StampRun(world: WorldMap, pattern: Pattern, variations: seq<Patch>, rate: int,
                          draws: nat -> nat, pick: bool, n: nat, sx: nat, sy: nat): (r: (WorldMap, nat))
    requires world.Valid() && Stampable(pattern, variations)
    ensures r.0.Valid() && r.0.width == world.width && r.0.height == world.height && n <= r.1
    decreases world.height - sy, world.width - sx
  {
    match FirstMatch(world, pattern, sx, sy)
    case None => (world, n)
    case Some((px, py)) =>
      if ScaledPercent(draws(n)) <= rate then
        var k := if pick then PickIndex(draws(n + 1), |variations|) else 0;
        StampRun(Patched(world, variations[k], px, py), pattern, variations, rate, draws, pick,
                 if pick then n + 2 else n + 1, RightOf(px, pattern), py)
      else
        StampRun(world, pattern, variations, rate, draws, pick, n + 1, RightOf(px, pattern), py)
  }

  /** One turn of a stamp loop: the first match from the cursor, when its
      scaled percent draw is at most the rate, gets variations[k] (k drawn
      next when pick), and the run goes on right of the match. */
  lemma StampRunStep(world: WorldMap, pattern: Pattern, variations: seq<Patch>, rate: int,
                     draws: nat -> nat, pick: bool, n: nat, sx: nat, sy: nat, px: nat, py: nat)
    requires world.Valid() && Stampable(pattern, variations)
    requires FirstMatch(world, pattern, sx, sy) == Some((px, py))
    ensures var k := if pick then PickIndex(draws(n + 1), |variations|) else 0;
      StampRun(world, pattern, variations, rate, draws, pick, n, sx, sy) ==
        if ScaledPercent(draws(n)) <= rate
        then StampRun(Patched(world, variations[k], px, py), pattern, variations, rate, draws, pick,
                      if pick then n + 2 else n + 1, RightOf(px, pattern), py)
        else StampRun(world, pattern, variations, rate, draws, pick, n + 1, RightOf(px, pattern), py)
  {
  }

  /** Where a stamp loop's search resumes after a match at column px. */
  function RightOf(px: nat, pattern: Pattern): nat {
    px + pattern.width
  }

  /** m_rngScaledPercent: a draw of the generator as a scaled percent in
      1 .. 100 * ScaledPercentFactor. */
  function ScaledPercent(raw: nat): (p: int)
    ensures 1 <= p <= 100 * ScaledPercentFactor
  {
    1 + raw % (100 * ScaledPercentFactor)
  }

  /** The uniform pick of one of count patch variations from a draw. */
  function PickIndex(raw: nat, count: nat): (i: nat)
    requires count > 0
    ensures i < count
  {
    raw % count
  }

  /** One turn of applyPatches' loop as ApplyPatchesStep reports it: the
      world w1 and next draw n' it leaves, with the cursor (sx', sy') right
      of the match, carry the same run. */
  lemma StampRunTurn(w0: WorldMap, w1: WorldMap, pattern: Pattern, variations: seq<Patch>, rate: int,
                     draws: nat -> nat, n: nat, sx: nat, sy: nat, px: nat, py: nat, n': nat, sx': nat, sy': nat)
    requires w0.Valid() && Stampable(pattern, variations)
    requires FirstMatch(w0, pattern, sx, sy) == Some((px, py)) && sx' == RightOf(px, pattern) && sy' == py
    requires ScaledPercent(draws(n)) <= rate ==>
      w1 == Patched(w0, variations[PickIndex(draws(n + 1), |variations|)], px, py) && n' == n + 2
    requires ScaledPercent(draws(n)) > rate ==> w1 == w0 && n' == n + 1
    ensures StampRun(w0, pattern, variations, rate, draws, true, n, sx, sy) ==
            StampRun(w1, pattern, variations, rate, draws, true, n', sx', sy')
  {
    StampRunStep(w0, pattern, variations, rate, draws, true, n, sx, sy, px, py);
  }

  /** A stamp loop makes only the changes its patches allow. */
  lemma {:induction false} StampRunAllowed(world: WorldMap, pattern: Pattern, variations: seq<Patch>, rate: int,
                                           draws: nat -> nat, pick: bool, n: nat, sx: nat, sy: nat,
                                           allowed: (TileType, TileType) -> bool)
    requires world.Valid() && Stampable(pattern, variations) && Transitive(allowed)
    requires forall k | 0 <= k < |variations| :: PatchFits(pattern, variations[k], allowed)
    ensures ChangedOnlyAllowed(world, StampRun(world, pattern, variations, rate, draws, pick, n, sx, sy).0, allowed)
    decreases world.height - sy, world.width - sx
  {
    match FirstMatch(world, pattern, sx, sy)
    case None =>
    case Some((px, py)) =>
      if ScaledPercent(draws(n)) <= rate {
        var k := if pick then PickIndex(draws(n + 1), |variations|) else 0;
        var world' := Patched(world, variations[k], px, py);
        FirstMatchMatches(world, pattern, sx, sy, px, py);
        StampRunAllowed(world', pattern, variations, rate, draws, pick, if pick then n + 2 else n + 1, RightOf(px, pattern), py, allowed);
        PatchStepAllowed(world, world, world', pattern, variations[k], px, py, allowed);
        AllowedChain(world, world', StampRun(world', pattern, variations, rate, draws, pick, if pick then n + 2 else n + 1, RightOf(px, pattern), py).0, allowed);
      } else {
        StampRunAllowed(world, pattern, variations, rate, draws, pick, n + 1, RightOf(px, pattern), py, allowed);
      }
  }

  /** With a rate below 1 no scaled percent (at least 1) is low enough, and
      the world is left as it was. */
  lemma {:induction false} StampRunIdle(world: WorldMap, pattern: Pattern, variations: seq<Patch>, rate: int,
                                        draws: nat -> nat, pick: bool, n: nat, sx: nat, sy: nat)
    requires world.Valid() && Stampable(pattern, variations) && rate < 1
    ensures StampRun(world, pattern, variations, rate, draws, pick, n, sx, sy).0 == world
    decreases world.height - sy, world.width - sx
  {
    match FirstMatch(world, pattern, sx, sy)
    case None =>
    case Some((px, py)) =>
      StampRunIdle(world, pattern, variations, rate, draws, pick, n + 1, RightOf(px, pattern), py);
  }

  /** Every pattern of a catalogue is stampable with its variations. */
  ghost predicate StampableCatalogue(patterns: seq<Pattern>, patches: seq<seq<Patch>>) {
    && |patches| == |patterns|
    && forall i | 0 <= i < |patterns| :: Stampable(patterns[i], patches[i]) && 1 <= patterns[i].height
  }

  /** One pass of placeBuildings: applyPatches for patterns[index - 1] down
      to patterns[0], each at the catalogue's scaled rate, the draws
      running on from one pattern to the next. */
  ghost function CatalogueRun(world: WorldMap, patterns: seq<Pattern>, patches: seq<seq<Patch>>, fillRate: int,
                              draws: nat -> nat, n: nat, index: nat): (r: (WorldMap, nat))
    requires world.Valid() && StampableCatalogue(patterns, patches) && index <= |patterns|
    ensures r.0.Valid() && r.0.width == world.width && r.0.height == world.height && n <= r.1
    decreases index
  {
    if index == 0 then (world, n)
    else
      var s := StampRun(world, patterns[index - 1], patches[index - 1], ScaledBuildingRate(fillRate, |patterns|),
                        draws, true, n, 0, 0);
      CatalogueRun(s.0, patterns, patches, fillRate, draws, s.1, index - 1)
  }

  /** One applyPatches of a catalogue pass: patterns[index] with its
      variations, after which the pass goes on below index. */
  lemma CatalogueRunStep(world: WorldMap, patterns: seq<Pattern>, patches: seq<seq<Patch>>, fillRate: int,
                         draws: nat -> nat, n: nat, index: nat)
    requires world.Valid() && StampableCatalogue(patterns, patches) && index < |patterns|
    ensures var s := StampRun(world, patterns[index], patches[index], ScaledBuildingRate(fillRate, |patterns|),
                              draws, true, n, 0, 0);
      CatalogueRun(world, patterns, patches, fillRate, draws, n, index + 1) ==
      CatalogueRun(s.0, patterns, patches, fillRate, draws, s.1, index)
  {
  }

  /** A catalogue pass makes only the changes its patches allow: what
      holds of world against base holds of the pass's result. */
  lemma CatalogueRunAllowed(base: WorldMap, world: WorldMap, patterns: seq<Pattern>,
                                               patches: seq<seq<Patch>>, fillRate: int, draws: nat -> nat, n: nat,
                                               index: nat, allowed: (TileType, TileType) -> bool)
    requires base.Valid() && world.Valid() && ChangedOnlyAllowed(base, world, allowed)
    requires CatalogueFits(patterns, patches, allowed) && Transitive(allowed) && index <= |patterns|
    ensures ChangedOnlyAllowed(base, CatalogueRun(world, patterns, patches, fillRate, draws, n, index).0, allowed)
    decreases index
  {
    if index > 0 {
      var rate := ScaledBuildingRate(fillRate, |patterns|);
      var s := StampRun(world, patterns[index - 1], patches[index - 1], rate, draws, true, n, 0, 0);
      StampRunAllowed(world, patterns[index - 1], patches[index - 1], rate, draws, true, n, 0, 0, allowed);
      AllowedChain(base, world, s.0, allowed);
      CatalogueRunAllowed(base, s.0, patterns, patches, fillRate, draws, s.1, index - 1, allowed);
    }
  }

  /** A fill rate that the integer division by the catalogue size brings
      below one scaled percent changes nothing in a catalogue pass. */
  lemma {:induction false} CatalogueRunIdle(world: WorldMap, patterns: seq<Pattern>, patches: seq<seq<Patch>>,
                                            fillRate: int, draws: nat -> nat, n: nat, index: nat)
    requires world.Valid() && StampableCatalogue(patterns, patches) && index <= |patterns|
    requires fillRate * ScaledPercentFactor < |patterns|
    ensures CatalogueRun(world, patterns, patches, fillRate, draws, n, index).0 == world
    decreases index
  {
    if index > 0 {
      var rate := ScaledBuildingRate(fillRate, |patterns|);
      var s := StampRun(world, patterns[index - 1], patches[index - 1], rate, draws, true, n, 0, 0);
      StampRunIdle(world, patterns[index - 1], patches[index - 1], rate, draws, true, n, 0, 0);
      CatalogueRunIdle(s.0, patterns, patches, fillRate, draws, s.1, index - 1);
    }
  }

  /** The catalogue with every pattern and every variation turned 90
      degrees clockwise. */
  ghost function TurnedCatalogue(patterns: seq<Pattern>, patches: seq<seq<Patch>>): (r: (seq<Pattern>, seq<seq<Patch>>))
    requires StampableCatalogue(patterns, patches)
    ensures |r.0| == |patterns| && |r.1| == |patches|
    ensures forall i | 0 <= i < |patterns| :: IsRotated90CW(patterns[i], r.0[i])
    ensures forall i | 0 <= i < |patches| :: |r.1[i]| == |patches[i]|
    ensures forall i, k | 0 <= i < |patches| && 0 <= k < |patches[i]| :: IsRotated90CW(patches[i][k], r.1[i][k])
  {
    (seq(|patterns|, i requires 0 <= i < |patterns| => TurnedCW(patterns[i])),
     seq(|patches|, i requires 0 <= i < |patches| =>
       seq(|patches[i]|, k requires 0 <= k < |patches[i]| => TurnedCW(patches[i][k]))))
  }

  /** A turned catalogue can still be stamped. */
  lemma TurnedCatalogueStampable(patterns: seq<Pattern>, patches: seq<seq<Patch>>)
    requires StampableCatalogue(patterns, patches)
    ensures StampableCatalogue(TurnedCatalogue(patterns, patches).0, TurnedCatalogue(patterns, patches).1)
  {
    var r := TurnedCatalogue(patterns, patches);
    forall i | 0 <= i < |patterns|
      ensures Stampable(r.0[i], r.1[i]) && 1 <= r.0[i].height
    {
      assert IsRotated90CW(patterns[i], r.0[i]);
      forall k | 0 <= k < |r.1[i]|
        ensures r.1[i][k].Valid() && r.1[i][k].width == r.0[i].width && r.1[i][k].height == r.0[i].height
      {
        assert IsRotated90CW(patches[i][k], r.1[i][k]);
      }
    }
  }

  /** Any catalogue whose maps are the quarter turns of a catalogue's maps
      is its TurnedCatalogue. */
  lemma TurnedCatalogueIs(patterns: seq<Pattern>, patches: seq<seq<Patch>>,
                          patterns': seq<Pattern>, patches': seq<seq<Patch>>)
    requires StampableCatalogue(patterns, patches)
    requires |patterns'| == |patterns| && |patches'| == |patches|
    requires forall i | 0 <= i < |patterns| :: IsRotated90CW(patterns[i], patterns'[i])
    requires forall i | 0 <= i < |patches| :: |patches'[i]| == |patches[i]|
    requires forall i, k | 0 <= i < |patches| && 0 <= k < |patches[i]| :: IsRotated90CW(patches[i][k], patches'[i][k])
    ensures (patterns', patches') == TurnedCatalogue(patterns, patches)
  {
    var r := TurnedCatalogue(patterns, patches);
    forall i | 0 <= i < |patterns|
      ensures patterns'[i] == r.0[i]
    {
      RotatedCWUnique(patterns[i], patterns'[i], r.0[i]);
    }
    forall i | 0 <= i < |patches|
      ensures patches'[i] == r.1[i]
    {
      forall k | 0 <= k < |patches[i]|
        ensures patches'[i][k] == r.1[i][k]
      {
        RotatedCWUnique(patches[i][k], patches'[i][k], r.1[i][k]);
      }
      assert patches'[i] == r.1[i];
    }
    assert patterns' == r.0 && patches' == r.1;
  }

  /** placeBuildings from a given catalogue: passes catalogue passes, the
      catalogue turned a quarter clockwise after each. */
  ghost function BuildingsRun(world: WorldMap, patterns: seq<Pattern>, patches: seq<seq<Patch>>, fillRate: int,
                              draws: nat -> nat, n: nat, passes: nat): (r: (WorldMap, nat))
    requires world.Valid() && StampableCatalogue(patterns, patches)
    ensures r.0.Valid() && r.0.width == world.width && r.0.height == world.height && n <= r.1
    decreases passes
  {
    if passes == 0 then (world, n)
    else
      var s := CatalogueRun(world, patterns, patches, fillRate, draws, n, |patterns|);
      var turned := TurnedCatalogue(patterns, patches);
      TurnedCatalogueStampable(patterns, patches);
      BuildingsRun(s.0, turned.0, turned.1, fillRate, draws, s.1, passes - 1)
  }

  /** One pass of placeBuildings, after which the turned catalogue makes
      the remaining passes. */
  lemma BuildingsRunStep(world: WorldMap, patterns: seq<Pattern>, patches: seq<seq<Patch>>, fillRate: int,
                         draws: nat -> nat, n: nat, passes: nat)
    requires world.Valid() && StampableCatalogue(patterns, patches)
    ensures var turned := TurnedCatalogue(patterns, patches); StampableCatalogue(turned.0, turned.1)
    ensures var s := CatalogueRun(world, patterns, patches, fillRate, draws, n, |patterns|);
      var turned := TurnedCatalogue(patterns, patches);
      BuildingsRun(world, patterns, patches, fillRate, draws, n, passes + 1) ==
      BuildingsRun(s.0, turned.0, turned.1, fillRate, draws, s.1, passes)
  {
    TurnedCatalogueStampable(patterns, patches);
  }

  /** The turned catalogue's patches still fit its patterns. */
  lemma TurnedCatalogueFits(patterns: seq<Pattern>, patches: seq<seq<Patch>>, allowed: (TileType, TileType) -> bool)
    requires CatalogueFits(patterns, patches, allowed)
    ensures var turned := TurnedCatalogue(patterns, patches); CatalogueFits(turned.0, turned.1, allowed)
  {
    var turned := TurnedCatalogue(patterns, patches);
    TurnedCatalogueStampable(patterns, patches);
    forall i, k | 0 <= i < |patterns| && 0 <= k < |patches[i]|
      ensures PatchFits(turned.0[i], turned.1[i][k], allowed)
    {
      PatchFitsRotated(patterns[i], patches[i][k], turned.0[i], turned.1[i][k], allowed);
    }
  }

  /** placeBuildings makes only the changes its catalogue allows: what
      holds of world against base holds of the result. */
  lemma BuildingsRunAllowed(base: WorldMap, world: WorldMap, patterns: seq<Pattern>,
                                               patches: seq<seq<Patch>>, fillRate: int, draws: nat -> nat, n: nat,
                                               passes: nat, allowed: (TileType, TileType) -> bool)
    requires base.Valid() && world.Valid() && ChangedOnlyAllowed(base, world, allowed)
    requires CatalogueFits(patterns, patches, allowed) && Transitive(allowed)
    ensures ChangedOnlyAllowed(base, BuildingsRun(world, patterns, patches, fillRate, draws, n, passes).0, allowed)
    decreases passes
  {
    if passes > 0 {
      var s := CatalogueRun(world, patterns, patches, fillRate, draws, n, |patterns|);
      var turned := TurnedCatalogue(patterns, patches);
      CatalogueRunAllowed(base, world, patterns, patches, fillRate, draws, n, |patterns|, allowed);
      TurnedCatalogueFits(patterns, patches, allowed);
      BuildingsRunAllowed(base, s.0, turned.0, turned.1, fillRate, draws, s.1, passes - 1, allowed);
    }
  }

  /** A fill rate that the integer division by the catalogue size brings
      below one scaled percent leaves the world as placeBuildings found it. */
  lemma BuildingsRunIdle(world: WorldMap, patterns: seq<Pattern>, patches: seq<seq<Patch>>,
                                            fillRate: int, draws: nat -> nat, n: nat, passes: nat)
    requires world.Valid() && StampableCatalogue(patterns, patches)
    requires fillRate * ScaledPercentFactor < |patterns|
    ensures BuildingsRun(world, patterns, patches, fillRate, draws, n, passes).0 == world
    decreases passes
  {
    if passes > 0 {
      var s := CatalogueRun(world, patterns, patches, fillRate, draws, n, |patterns|);
      var turned := TurnedCatalogue(patterns, patches);
      CatalogueRunIdle(world, patterns, patches, fillRate, draws, n, |patterns|);
      TurnedCatalogueStampable(patterns, patches);
      BuildingsRunIdle(s.0, turned.0, turned.1, fillRate, draws, s.1, passes - 1);
    }
  }

  /** placeRoundaboutsA's loop: every crossing found from (sx, sy) on gets
      the roundabout patch, and the search resumes right of it. */
  ghost function RoundaboutsARun(world: WorldMap, sx: nat, sy: nat): (r: WorldMap)
    requires world.Valid()
    ensures r.Valid() && r.width == world.width && r.height == world.height
    decreases world.height - sy, world.width - sx
  {
    match FirstMatch(world, CrossingStreetPattern(), sx, sy)
    case None => world
    case Some((px, py)) => RoundaboutsARun(Patched(world, RoundaboutAPatch(), px, py), RightOf(px, CrossingStreetPattern()), py)
  }

  /** One turn of placeRoundaboutsA's loop. */
  lemma RoundaboutsARunStep(world: WorldMap, sx: nat, sy: nat, px: nat, py: nat)
    requires world.Valid() && FirstMatch(world, CrossingStreetPattern(), sx, sy) == Some((px, py))
    ensures RoundaboutsARun(world, sx, sy) == RoundaboutsARun(Patched(world, RoundaboutAPatch(), px, py), RightOf(px, CrossingStreetPattern()), py)
  {
  }

  /** placeRoundaboutsA exchanges only grass and street. */
  lemma {:induction false} RoundaboutsARunAllowed(world: WorldMap, sx: nat, sy: nat)
    requires world.Valid()
    ensures ChangedOnlyAllowed(world, RoundaboutsARun(world, sx, sy), GrassOrStreet())
    decreases world.height - sy, world.width - sx
  {
    match FirstMatch(world, CrossingStreetPattern(), sx, sy)
    case None =>
    case Some((px, py)) =>
      var world' := Patched(world, RoundaboutAPatch(), px, py);
      FirstMatchMatches(world, CrossingStreetPattern(), sx, sy, px, py);
      RoundaboutsARunAllowed(world', RightOf(px, CrossingStreetPattern()), py);
      RoundaboutAFits();
      PatchStepAllowed(world, world, world', CrossingStreetPattern(), RoundaboutAPatch(), px, py, GrassOrStreet());
      AllowedChain(world, world', RoundaboutsARun(world', RightOf(px, CrossingStreetPattern()), py), GrassOrStreet());
  }

  /** The first crossing found becomes the ring picture of
      RoundaboutAPicture before the search goes on. */
  lemma RoundaboutsARunFirst(world: WorldMap, sx: nat, sy: nat, px: nat, py: nat)
    requires world.Valid() && FirstMatch(world, CrossingStreetPattern(), sx, sy) == Some((px, py))
    ensures px + 8 <= world.width && py + 8 <= world.height
    ensures var world' := Patched(world, RoundaboutAPatch(), px, py);
      && RoundaboutsARun(world, sx, sy) == RoundaboutsARun(world', RightOf(px, CrossingStreetPattern()), py)
      && forall dx: nat, dy: nat | dx < 8 && dy < 8 ::
           world'.At(px + dx, py + dy) == if RoundaboutRing(dx, dy) then Street else Grass
  {
    FirstMatchMatches(world, CrossingStreetPattern(), sx, sy, px, py);
    RoundaboutAPicture(world, px, py);
  }

  /** placeRoundaboutsB resumes its search 8 columns right of a crossing. */
  function Past(px: nat): nat {
    px + 8
  }

  /** One loop of placeRoundaboutsB over the street blocks of pattern:
      every block found from (sx, sy) on gets a roundabout, and the search
      resumes eight cells right of it. */
  ghost function RoundaboutsBRun(world: WorldMap, pattern: Pattern, sx: nat, sy: nat): (r: WorldMap)
    requires world.Valid() && pattern.Valid() && 4 <= pattern.width && 4 <= pattern.height
    ensures r.Valid() && r.width == world.width && r.height == world.height
    decreases world.height - sy, world.width - sx
  {
    match FirstMatch(world, pattern, sx, sy)
    case None => world
    case Some((px, py)) => RoundaboutsBRun(RoundaboutBPlaced(world, px, py), pattern, Past(px), py)
  }

  /** One turn of a placeRoundaboutsB loop. */
  lemma RoundaboutsBRunStep(world: WorldMap, pattern: Pattern, sx: nat, sy: nat, px: nat, py: nat)
    requires world.Valid() && pattern.Valid() && 4 <= pattern.width && 4 <= pattern.height
    requires FirstMatch(world, pattern, sx, sy) == Some((px, py))
    ensures RoundaboutsBRun(world, pattern, sx, sy) == RoundaboutsBRun(RoundaboutBPlaced(world, px, py), pattern, Past(px), py)
  {
  }

  /** placeRoundaboutsB writes only street and grass. */
  lemma {:induction false} RoundaboutsBRunAllowed(world: WorldMap, pattern: Pattern, sx: nat, sy: nat)
    requires world.Valid() && pattern.Valid() && 4 <= pattern.width && 4 <= pattern.height
    ensures ChangedOnlyAllowed(world, RoundaboutsBRun(world, pattern, sx, sy), ToStreetOrGrass())
    decreases world.height - sy, world.width - sx
  {
    match FirstMatch(world, pattern, sx, sy)
    case None =>
    case Some((px, py)) =>
      var world' := RoundaboutBPlaced(world, px, py);
      RoundaboutsBRunAllowed(world', pattern, Past(px), py);
      assert ChangedOnlyAllowed(world, world', ToStreetOrGrass());
      AllowedChain(world, world', RoundaboutsBRun(world', pattern, Past(px), py), ToStreetOrGrass());
  }

  /** The first street block found becomes the ring picture of
      RoundaboutBPicture (when its 6x6 window lies on the map) before the
      search goes on. */
  lemma RoundaboutsBRunFirst(world: WorldMap, pattern: Pattern, sx: nat, sy: nat, px: nat, py: nat)
    requires world.Valid() && (pattern == Create(4, 5, Street) || pattern == Create(5, 4, Street))
    requires FirstMatch(world, pattern, sx, sy) == Some((px, py))
    ensures px + 4 <= world.width && py + 4 <= world.height
    ensures var world' := RoundaboutBPlaced(world, px, py);
      && RoundaboutsBRun(world, pattern, sx, sy) == RoundaboutsBRun(world', pattern, Past(px), py)
      && (1 <= px && 1 <= py && px + 5 <= world.width && py + 5 <= world.height ==>
            forall cx: nat, cy: nat | px - 1 <= cx <= px + 4 && py - 1 <= cy <= py + 4 ::
              world'.At(cx, cy) ==
                if (cx == px - 1 || cx == px + 4) && (cy == py - 1 || cy == py + 4) then world.At(cx, cy)
                else if px + 1 <= cx <= px + 2 && py + 1 <= cy <= py + 2 then Grass
                else Street)
  {
    FirstMatchMatches(world, pattern, sx, sy, px, py);
    var block := Create(4, 4, Street);
    forall i: nat, j: nat | i < 4 && j < 4
      ensures CellMatches(world, block, px, py, i, j)
    {
      assert CellMatches(world, pattern, px, py, i, j);
    }
    assert MatchesAt(world, block, px, py);
    if 1 <= px && 1 <= py && px + 5 <= world.width && py + 5 <= world.height {
      RoundaboutBPicture(world, px, py);
    }
  }

  // ---------------------------------------------------------------------
  // The generator

  class WorldGen {
    /** m_worldMap: the world grid the generator edits. */
    var world: WorldMap

    constructor (world: WorldMap)
      ensures this.world == world
    {
      this.world := world;
    }

    /** floodFill(x, y, fill): recolour the 4-connected region of the seed
        with an explicit stack and return its size. The source never
        terminates when fill equals the seed's value (the recoloured cells
        still match and are pushed again), so that is a precondition. */
    method FloodFill(x: nat, y: nat, fillTileType: TileType) returns (count: nat)
      requires world.Valid() && world.InBounds(x, y)
      requires fillTileType != world.At(x, y)
      modifies this
      ensures world == Filled(old(world), (x, y), fillTileType)
      ensures count == |RegionCells(old(world), (x, y))|
    {
      var m := world;
      ghost var m0 := world;
      ghost var s: Cell := (x, y);
      var tileTypeToReplace := m.At(x, y);
      count := 0;
      var coordStack: seq<Cell> := [(x, y)];
      ghost var changed: set<Cell> := {};
      FillStart(m0, s, fillTileType);
      ghost var region := GridCells(m0.width, m0.height);
      while coordStack != []
        invariant FillInvariant(m0, s, fillTileType, m, changed, coordStack)
        invariant count == |changed| && changed <= region && |changed| <= |region|
        decreases |region| - |changed|, |coordStack|
      {
        m, changed, coordStack, count := FillPop(m0, s, fillTileType, tileTypeToReplace, region, m, changed, coordStack, count);
      }
      FillDone(m0, s, fillTileType, m, changed);
      FillDoneMap(m0, s, fillTileType, m, changed);
      world := m;
    }

    /** The window test of findPattern: the loops over the pattern that
        stop at the first non-PatternAny cell differing from the world. */
    method MatchesWindow(pattern: Pattern, mapX: nat, mapY: nat) returns (matches: bool)
      requires world.Valid() && pattern.Valid()
      requires mapX + pattern.width <= world.width && mapY + pattern.height <= world.height
      ensures matches <==> MatchesAt(world, pattern, mapX, mapY)
    {
      var breakPattern := false;
      var patternY := 0;
      while patternY < pattern.height && !breakPattern
        invariant patternY <= pattern.height
        invariant !breakPattern ==>
          forall px: nat, py: nat | px < pattern.width && py < patternY :: CellMatches(world, pattern, mapX, mapY, px, py)
        invariant breakPattern ==> !MatchesAt(world, pattern, mapX, mapY)
      {
        var patternX := 0;
        while patternX < pattern.width && !breakPattern
          invariant patternX <= pattern.width
          invariant !breakPattern ==>
            forall px: nat | px < patternX :: CellMatches(world, pattern, mapX, mapY, px, patternY)
          invariant breakPattern ==> !MatchesAt(world, pattern, mapX, mapY)
        {
          if pattern.At(patternX, patternY) != PatternAny
             && world.At(mapX + patternX, mapY + patternY) != pattern.At(patternX, patternY) {
            assert !CellMatches(world, pattern, mapX, mapY, patternX, patternY);
            breakPattern := true;
          }
          patternX := patternX + 1;
        }
        patternY := patternY + 1;
      }
      matches := !breakPattern;
    }

    /** findPattern: the first origin at or after (startX, startY), in
        row-major order, where the pattern matches. The bounds of its loops
        are world size - pattern size + 1 in std::size_t, so a pattern
        larger than the world is outside what the source handles. */
    method FindPattern(pattern: Pattern, startX: nat, startY: nat) returns (r: Option<(nat, nat)>)
      requires world.Valid() && pattern.Valid()
      requires pattern.width <= world.width && pattern.height <= world.height
      ensures r == FirstMatch(world, pattern, startX, startY)
    {
      var mapY := startY;
      while mapY < world.height - pattern.height + 1
        invariant startY <= mapY
        invariant forall x': nat, y': nat | MatchesAt(world, pattern, x', y') && !RowMajorBefore(x', y', startX, startY) ::
          y' >= mapY
      {
        var firstX := if mapY == startY then startX else 0;
        var mapX := firstX;
        while mapX < world.width - pattern.width + 1
          invariant firstX <= mapX
          invariant forall x': nat | firstX <= x' < mapX :: !MatchesAt(world, pattern, x', mapY)
        {
          var matches := MatchesWindow(pattern, mapX, mapY);
          if matches {
            r := Some((mapX, mapY));
            FirstMatchIs(world, pattern, startX, startY, r);
            return;
          }
          mapX := mapX + 1;
        }
        mapY := mapY + 1;
      }
      r := None;
      FirstMatchIs(world, pattern, startX, startY, r);
    }

    /** applyPatch: every patch cell other than PatchKeep overwrites the
        world cell under it; nothing else changes. */
    method ApplyPatch(patch: Patch, x: nat, y: nat)
      requires world.Valid() && patch.Valid()
      requires x + patch.width <= world.width && y + patch.height <= world.height
      modifies this
      ensures world == Patched(old(world), patch, x, y)
    {
      ghost var m0 := world;
      var patchY := 0;
      while patchY < patch.height
        invariant patchY <= patch.height
        invariant world.Valid() && world.width == m0.width && world.height == m0.height
        invariant forall cx: nat, cy: nat | cx < world.width && cy < world.height ::
          world.At(cx, cy) == if cy < y + patchY then PatchedCell(m0, patch, x, y, cx, cy) else m0.At(cx, cy)
      {
        ApplyPatchRow(patch, x, y, patchY);
        patchY := patchY + 1;
      }
      Extensionality(world, Patched(m0, patch, x, y));
    }

    /** The inner loop of applyPatch: row patchY of the patch. */
    method ApplyPatchRow(patch: Patch, x: nat, y: nat, patchY: nat)
      requires world.Valid() && patch.Valid() && patchY < patch.height
      requires x + patch.width <= world.width && y + patch.height <= world.height
      modifies this
      ensures world.Valid() && world.width == old(world).width && world.height == old(world).height
      ensures forall cx: nat, cy: nat | cx < world.width && cy < world.height ::
        world.At(cx, cy) == if cy == y + patchY then PatchedCell(old(world), patch, x, y, cx, cy) else old(world).At(cx, cy)
    {
      ghost var m0 := world;
      var patchX := 0;
      while patchX < patch.width
        invariant patchX <= patch.width
        invariant world.Valid() && world.width == m0.width && world.height == m0.height
        invariant forall cx: nat, cy: nat | cx < world.width && cy < world.height ::
          world.At(cx, cy) == if cy == y + patchY && cx < x + patchX then PatchedCell(m0, patch, x, y, cx, cy) else m0.At(cx, cy)
      {
        if patch.At(patchX, patchY) != PatchKeep {
          world := world.Set(x + patchX, y + patchY, patch.At(patchX, patchY));
        }
        patchX := patchX + 1;
      }
    }

    /** placeStreetsFromVoronoiMap: every cell whose partition id differs
        from one of its in-bounds 8-neighbours becomes Street. The loops run
        over the Voronoi map and write the world at the same coordinates. */
    method PlaceStreetsFromVoronoiMap(voronoiMap: VoronoiMap)
      requires world.Valid() && voronoiMap.Valid()
      requires voronoiMap.width <= world.width && voronoiMap.height <= world.height
      modifies this
      ensures world.Valid() && world.width == old(world).width && world.height == old(world).height
      ensures forall x: nat, y: nat | x < world.width && y < world.height ::
        world.At(x, y) == if x < voronoiMap.width && y < voronoiMap.height && OnPartitionBoundary(voronoiMap, x, y)
                          then Street else old(world).At(x, y)
    {
      ghost var m0 := world;
      var centerY := 0;
      while centerY < voronoiMap.height
        invariant centerY <= voronoiMap.height
        invariant world.Valid() && world.width == m0.width && world.height == m0.height
        invariant forall x: nat, y: nat | x < world.width && y < world.height ::
          world.At(x, y) == if x < voronoiMap.width && y < centerY && OnPartitionBoundary(voronoiMap, x, y)
                            then Street else m0.At(x, y)
      {
        var centerX := 0;
        while centerX < voronoiMap.width
          invariant centerX <= voronoiMap.width
          invariant world.Valid() && world.width == m0.width && world.height == m0.height
          invariant forall x: nat, y: nat | x < world.width && y < world.height ::
            world.At(x, y) == if x < voronoiMap.width && y < voronoiMap.height && RowMajorBefore(x, y, centerX, centerY)
                                 && OnPartitionBoundary(voronoiMap, x, y)
                              then Street else m0.At(x, y)
        {
          var boundary := IsPartitionBoundary(voronoiMap, centerX, centerY);
          if boundary {
            world := world.Set(centerX, centerY, Street);
          }
          centerX := centerX + 1;
        }
        centerY := centerY + 1;
      }
    }

    /** placePonds: up to 100 attempts, each from a random start: find
        grass (wrapping around), flood it with water, and keep the pond if
        it covers at most areaSizeLimitInPercent of the map and all ponds
        together at most fillLimitInPercent; otherwise flood it back to
        grass. starts holds the random start of each attempt. The water
        added always stays within the fill limit; when grass and water are
        apart at the start (as on a fresh world) they stay apart, only
        grass turns into water, and the kept water count is the number of
        cells that changed. */
    method PlacePonds(fillLimitInPercent: real, areaSizeLimitInPercent: real, starts: seq<Cell>)
      returns (ghost kept: nat)
      requires world.Valid() && |starts| == 100
      requires forall i | 0 <= i < |starts| :: world.InBounds(starts[i].0, starts[i].1)
      modifies this
      ensures world == PondsRun(old(world), starts, 0, 0, TileCount(old(world)), fillLimitInPercent, areaSizeLimitInPercent).0
      ensures kept == PondsRun(old(world), starts, 0, 0, TileCount(old(world)), fillLimitInPercent, areaSizeLimitInPercent).1
      ensures world.Valid() && world.width == old(world).width && world.height == old(world).height
      ensures WithinLimit(kept, TileCount(old(world)), fillLimitInPercent)
      ensures GrassWaterApart(old(world)) ==> PondsKept(old(world), world, kept)
    {
      ghost var m0 := world;
      var totalTileCount := TileCount(world);
      var waterTileCount: nat := 0;
      ghost var goal := PondsRun(m0, starts, 0, 0, totalTileCount, fillLimitInPercent, areaSizeLimitInPercent);
      for count := 1 to 101
        invariant world.Valid() && world.width == m0.width && world.height == m0.height
        invariant goal == PondsRun(world, starts, count - 1, waterTileCount, totalTileCount, fillLimitInPercent, areaSizeLimitInPercent)
        invariant count - 1 == |starts| ==> world == goal.0 && waterTileCount == goal.1
      {
        var found;
        found, waterTileCount := PondTurn(goal, starts, count - 1, waterTileCount, totalTileCount,
                                 fillLimitInPercent, areaSizeLimitInPercent);
        if !found {
          break;
        }
      }
      kept := waterTileCount;
      PondsRunOutcome(m0, starts, totalTileCount, fillLimitInPercent, areaSizeLimitInPercent, world, kept);
    }

    /** One turn of placePonds' loop: find grass from starts[i] and, when
        there is some, make the attempt there; found says whether there
        was grass, and the loop stops when there was none. */
    method PondTurn(ghost goal: (WorldMap, nat), starts: seq<Cell>, i: nat, waterTileCount: nat, totalTileCount: nat,
                    fillLimitInPercent: real, areaSizeLimitInPercent: real) returns (found: bool, newCount: nat)
      requires world.Valid() && i < |starts| && world.InBounds(starts[i].0, starts[i].1)
      requires goal == PondsRun(world, starts, i, waterTileCount, totalTileCount, fillLimitInPercent, areaSizeLimitInPercent)
      modifies this
      ensures world.Valid() && world.width == old(world).width && world.height == old(world).height
      ensures found ==> goal == PondsRun(world, starts, i + 1, newCount, totalTileCount, fillLimitInPercent, areaSizeLimitInPercent)
      ensures !found || i + 1 == |starts| ==> world == goal.0 && newCount == goal.1
    {
      var (startX, startY) := starts[i];
      var randomGrass := Find(world, Grass, startX, startY, true);
      GrassFoundIs(world, starts[i], randomGrass);
      if randomGrass.None? {
        return false, waterTileCount;
      }
      var (x, y) := randomGrass.value;
      ghost var _ := PondsRunStep(world, starts, i, waterTileCount, totalTileCount, fillLimitInPercent, areaSizeLimitInPercent);
      newCount := TryPond(x, y, waterTileCount, totalTileCount, fillLimitInPercent, areaSizeLimitInPercent);
      found := true;
      if i + 1 == |starts| {
        PondsRunEnds(world, starts, i + 1, newCount, totalTileCount, fillLimitInPercent, areaSizeLimitInPercent);
      }
    }

    /** The body of placePonds' loop once grass was found at (x, y): flood
        the region with water, keep it when the region is at most
        areaSizeLimitInPercent of the tiles and all kept water at most
        fillLimitInPercent, and otherwise flood it back to grass. */
    method TryPond(x: nat, y: nat, waterTileCount: nat, totalTileCount: nat,
                   fillLimitInPercent: real, areaSizeLimitInPercent: real) returns (newCount: nat)
      requires world.Valid() && world.InBounds(x, y) && world.At(x, y) == Grass
      modifies this
      ensures world == PondAttempt(old(world), (x, y), waterTileCount, totalTileCount, fillLimitInPercent, areaSizeLimitInPercent).0
      ensures newCount == PondAttempt(old(world), (x, y), waterTileCount, totalTileCount, fillLimitInPercent, areaSizeLimitInPercent).1
    {
      ghost var before := world;
      var filledCount := FloodFill(x, y, Water);
      if Keeps(filledCount, waterTileCount, totalTileCount, fillLimitInPercent, areaSizeLimitInPercent) {
        newCount := waterTileCount + filledCount;
        return;
      }
      // Revert
      FilledSeed(before, (x, y), Water);
      var _ := FloodFill(x, y, Grass);
      newCount := waterTileCount;
    }

    /** placeFullPavedAreas: like placePonds, but the region is first
        flooded with the Temporary marker and, when kept, flooded again
        with Street. The street added always stays within the fill limit;
        when no cell holds Temporary at the start, none does at the end,
        only grass turns into street, and the kept count is the number of
        cells that changed. */
    method PlaceFullPavedAreas(fillLimitInPercent: real, areaSizeLimitInPercent: real, starts: seq<Cell>)
      returns (ghost kept: nat)
      requires world.Valid() && |starts| == 100
      requires forall i | 0 <= i < |starts| :: world.InBounds(starts[i].0, starts[i].1)
      modifies this
      ensures world == PavedRun(old(world), starts, 0, 0, TileCount(old(world)), fillLimitInPercent, areaSizeLimitInPercent).0
      ensures kept == PavedRun(old(world), starts, 0, 0, TileCount(old(world)), fillLimitInPercent, areaSizeLimitInPercent).1
      ensures world.Valid() && world.width == old(world).width && world.height == old(world).height
      ensures WithinLimit(kept, TileCount(old(world)), fillLimitInPercent)
      ensures NoTemporary(old(world)) ==> PavedKept(old(world), world, kept)
    {
      ghost var m0 := world;
      var totalTileCount := TileCount(world);
      var filledTileCount: nat := 0;
      ghost var goal := PavedRun(m0, starts, 0, 0, totalTileCount, fillLimitInPercent, areaSizeLimitInPercent);
      for count := 1 to 101
        invariant world.Valid() && world.width == m0.width && world.height == m0.height
        invariant goal == PavedRun(world, starts, count - 1, filledTileCount, totalTileCount, fillLimitInPercent, areaSizeLimitInPercent)
        invariant count - 1 == |starts| ==> world == goal.0 && filledTileCount == goal.1
      {
        var found;
        found, filledTileCount := PavedTurn(goal, starts, count - 1, filledTileCount, totalTileCount,
                                 fillLimitInPercent, areaSizeLimitInPercent);
        if !found {
          break;
        }
      }
      kept := filledTileCount;
      PavedRunOutcome(m0, starts, totalTileCount, fillLimitInPercent, areaSizeLimitInPercent, world, kept);
    }

    /** One turn of placeFullPavedAreas' loop: find grass from starts[i] and, when
        there is some, make the attempt there; found says whether there
        was grass, and the loop stops when there was none. */
    method PavedTurn(ghost goal: (WorldMap, nat), starts: seq<Cell>, i: nat, filledTileCount: nat, totalTileCount: nat,
                    fillLimitInPercent: real, areaSizeLimitInPercent: real) returns (found: bool, newCount: nat)
      requires world.Valid() && i < |starts| && world.InBounds(starts[i].0, starts[i].1)
      requires goal == PavedRun(world, starts, i, filledTileCount, totalTileCount, fillLimitInPercent, areaSizeLimitInPercent)
      modifies this
      ensures world.Valid() && world.width == old(world).width && world.height == old(world).height
      ensures found ==> goal == PavedRun(world, starts, i + 1, newCount, totalTileCount, fillLimitInPercent, areaSizeLimitInPercent)
      ensures !found || i + 1 == |starts| ==> world == goal.0 && newCount == goal.1
    {
      var (startX, startY) := starts[i];
      var randomGrass := Find(world, Grass, startX, startY, true);
      GrassFoundIs(world, starts[i], randomGrass);
      if randomGrass.None? {
        return false, filledTileCount;
      }
      var (x, y) := randomGrass.value;
      ghost var _ := PavedRunStep(world, starts, i, filledTileCount, totalTileCount, fillLimitInPercent, areaSizeLimitInPercent);
      newCount := TryPaved(x, y, filledTileCount, totalTileCount, fillLimitInPercent, areaSizeLimitInPercent);
      found := true;
      if i + 1 == |starts| {
        PavedRunEnds(world, starts, i + 1, newCount, totalTileCount, fillLimitInPercent, areaSizeLimitInPercent);
      }
    }

    /** The body of placeFullPavedAreas' loop once grass was found at
        (x, y): flood the region with Temporary; when it is kept under the
        two limits flood it again with Street, and otherwise back to grass. */
    method TryPaved(x: nat, y: nat, filledTileCount: nat, totalTileCount: nat,
                    fillLimitInPercent: real, areaSizeLimitInPercent: real) returns (newCount: nat)
      requires world.Valid() && world.InBounds(x, y) && world.At(x, y) == Grass
      modifies this
      ensures world == PavedAttempt(old(world), (x, y), filledTileCount, totalTileCount, fillLimitInPercent, areaSizeLimitInPercent).0
      ensures newCount == PavedAttempt(old(world), (x, y), filledTileCount, totalTileCount, fillLimitInPercent, areaSizeLimitInPercent).1
    {
      ghost var before := world;
      var filledCount := FloodFill(x, y, Temporary);
      FilledSeed(before, (x, y), Temporary);
      if Keeps(filledCount, filledTileCount, totalTileCount, fillLimitInPercent, areaSizeLimitInPercent) {
        var _ := FloodFill(x, y, Street);
        newCount := filledTileCount + filledCount;
        return;
      }
      // Revert
      var _ := FloodFill(x, y, Grass);
      newCount := filledTileCount;
    }

    /** applyPatches: at each match of the pattern, left to right and top
        to bottom, draw a scaled percent and, when it is at most
        scaledFillRate, draw one of the variations and apply it; search on
        right of the match. draws(next), draws(next + 1), ... are the raw
        generator values consumed, and next is the first one left. */
    method ApplyPatches(pattern: Pattern, patchVariations: seq<Patch>, scaledFillRate: int, draws: nat -> nat,
                        first: nat, ghost allowed: (TileType, TileType) -> bool) returns (next: nat)
      requires world.Valid() && Stampable(pattern, patchVariations)
      requires pattern.width <= world.width && pattern.height <= world.height
      requires Transitive(allowed) && forall k | 0 <= k < |patchVariations| :: PatchFits(pattern, patchVariations[k], allowed)
      modifies this
      ensures (world, next) == StampRun(old(world), pattern, patchVariations, scaledFillRate, draws, true, first, 0, 0)
      ensures world.Valid() && ChangedOnlyAllowed(old(world), world, allowed)
      ensures scaledFillRate < 1 ==> world == old(world)
    {
      ghost var m0 := world;
      ghost var width, height := world.width, world.height;
      next := first;
      var findStartPosX: nat, findStartPosY: nat := 0, 0;
      ghost var goal := StampRun(m0, pattern, patchVariations, scaledFillRate, draws, true, first, 0, 0);
      while true
        invariant world.Valid() && world.width == width && world.height == height
        invariant findStartPosX <= width && findStartPosY <= height
        invariant goal == StampRun(world, pattern, patchVariations, scaledFillRate, draws, true, next, findStartPosX, findStartPosY)
        decreases height - findStartPosY, width - findStartPosX
      {
        ghost var before, n := world, next;
        var found, patternPosX, patternPosY;
        found, next, patternPosX, patternPosY :=
          ApplyPatchesStep(pattern, patchVariations, scaledFillRate, draws, next, findStartPosX, findStartPosY);
        if !found {
          break;
        }
        ghost var startX, startY := findStartPosX, findStartPosY;
        findStartPosX, findStartPosY := patternPosX + pattern.width, patternPosY;
        StampRunTurn(before, world, pattern, patchVariations, scaledFillRate, draws, n, startX, startY,
                     patternPosX, patternPosY, next, findStartPosX, findStartPosY);
      }
      StampRunAllowed(m0, pattern, patchVariations, scaledFillRate, draws, true, first, 0, 0, allowed);
      if scaledFillRate < 1 {
        StampRunIdle(m0, pattern, patchVariations, scaledFillRate, draws, true, first, 0, 0);
      }
    }

    /** One turn of applyPatches' loop from the cursor (findStartPosX,
        findStartPosY) with draws(n) the next generator value: found tells
        whether a match (patternPosX, patternPosY) was found, and next is the
        first draw left. */
    method ApplyPatchesStep(pattern: Pattern, patchVariations: seq<Patch>, scaledFillRate: int, draws: nat -> nat,
                            n: nat, findStartPosX: nat, findStartPosY: nat)
      returns (found: bool, next: nat, patternPosX: nat, patternPosY: nat)
      requires world.Valid() && Stampable(pattern, patchVariations)
      requires pattern.width <= world.width && pattern.height <= world.height
      modifies this
      ensures found <==> FirstMatch(old(world), pattern, findStartPosX, findStartPosY) == Some((patternPosX, patternPosY))
      ensures !found ==> FirstMatch(old(world), pattern, findStartPosX, findStartPosY).None? && world == old(world) && next == n
      ensures found && ScaledPercent(draws(n)) <= scaledFillRate ==>
        world == Patched(old(world), patchVariations[PickIndex(draws(n + 1), |patchVariations|)], patternPosX, patternPosY) &&
        next == n + 2
      ensures found && ScaledPercent(draws(n)) > scaledFillRate ==> world == old(world) && next == n + 1
    {
      var r := FindPattern(pattern, findStartPosX, findStartPosY);
      if r.None? {
        return false, n, 0, 0;
      }
      patternPosX, patternPosY := r.value.0, r.value.1;
      found, next := true, n + 1;
      if ScaledPercent(draws(n)) <= scaledFillRate {
        var patch := patchVariations[PickIndex(draws(next), |patchVariations|)];
        next := next + 1;
        ApplyPatch(patch, patternPosX, patternPosY);
      }
    }

    /** One pass of placeBuildings: applyPatches for every pattern of the
        catalogue, from the last index down to the first. */
    method ApplyCatalogue(patterns: seq<Pattern>, patches: seq<seq<Patch>>, fillRate: int, draws: nat -> nat,
                          first: nat, ghost allowed: (TileType, TileType) -> bool) returns (next: nat)
      requires world.Valid() && Catalogue(world.width, world.height, patterns, patches, allowed) && Transitive(allowed)
      modifies this
      ensures (world, next) == CatalogueRun(old(world), patterns, patches, fillRate, draws, first, |patterns|)
      ensures world.Valid() && ChangedOnlyAllowed(old(world), world, allowed)
      ensures fillRate * ScaledPercentFactor < |patterns| ==> world == old(world)
    {
      ghost var m0 := world;
      next := first;
      var index: nat := |patterns|;
      ghost var goal := CatalogueRun(m0, patterns, patches, fillRate, draws, first, index);
      while index > 0
        invariant index <= |patterns|
        invariant world.Valid() && world.width == m0.width && world.height == m0.height
        invariant goal == CatalogueRun(world, patterns, patches, fillRate, draws, next, index)
      {
        ghost var before, n := world, next;
        index := index - 1;
        var scaledFillRate := ScaledBuildingRate(fillRate, |patterns|);
        next := ApplyPatches(patterns[index], patches[index], scaledFillRate, draws, next, allowed);
        CatalogueRunStep(before, patterns, patches, fillRate, draws, n, index);
      }
      CatalogueRunAllowed(m0, m0, patterns, patches, fillRate, draws, first, |patterns|, allowed);
      if fillRate * ScaledPercentFactor < |patterns| {
        CatalogueRunIdle(m0, patterns, patches, fillRate, draws, first, |patterns|);
      }
    }

    /** placeBuildings: four passes over the catalogue, turning every
        pattern and every patch variation 90 degrees clockwise between
        passes. The catalogue itself (estate sizes 8..12 by 9..17 with
        their patch variations) is the parameter. Only changes the
        catalogue allows happen, and a fill rate too small to survive the
        integer division by the catalogue size changes nothing. */
    method PlaceBuildings(patterns: seq<Pattern>, patches: seq<seq<Patch>>, fillRate: int, draws: nat -> nat,
                          first: nat, ghost allowed: (TileType, TileType) -> bool) returns (next: nat)
      requires world.Valid() && Catalogue(world.width, world.height, patterns, patches, allowed) && Transitive(allowed)
      modifies this
      ensures (world, next) == BuildingsRun(old(world), patterns, patches, fillRate, draws, first, 4)
      ensures world.Valid() && ChangedOnlyAllowed(old(world), world, allowed)
      ensures fillRate * ScaledPercentFactor < |patterns| ==> world == old(world)
    {
      ghost var m0, n0 := world, first;
      next := ApplyCatalogue(patterns, patches, fillRate, draws, first, allowed);
      BuildingsRunStep(m0, patterns, patches, fillRate, draws, n0, 3);
      // Rotate
      var patterns1, patches1 := RotatedCatalogue(m0.width, m0.height, patterns, patches, allowed);
      ghost var m1, n1 := world, next;
      next := ApplyCatalogue(patterns1, patches1, fillRate, draws, next, allowed);
      BuildingsRunStep(m1, patterns1, patches1, fillRate, draws, n1, 2);
      // Rotate
      var patterns2, patches2 := RotatedCatalogue(m0.width, m0.height, patterns1, patches1, allowed);
      ghost var m2, n2 := world, next;
      next := ApplyCatalogue(patterns2, patches2, fillRate, draws, next, allowed);
      BuildingsRunStep(m2, patterns2, patches2, fillRate, draws, n2, 1);
      // Rotate
      var patterns3, patches3 := RotatedCatalogue(m0.width, m0.height, patterns2, patches2, allowed);
      ghost var m3, n3 := world, next;
      next := ApplyCatalogue(patterns3, patches3, fillRate, draws, next, allowed);
      BuildingsRunStep(m3, patterns3, patches3, fillRate, draws, n3, 0);
      BuildingsRunAllowed(m0, m0, patterns, patches, fillRate, draws, first, 4, allowed);
      if fillRate * ScaledPercentFactor < |patterns| {
        BuildingsRunIdle(m0, patterns, patches, fillRate, draws, first, 4);
      }
    }

    /** The tree loops of placeLargeTrees and placeSmallTrees: at each match
        of the all-grass pattern draw a scaled percent and, when it is at
        most fillRate * ScaledPercentFactor, apply the crown patch. Only
        grass turns into trees, and a fill rate below 1 changes nothing. */
    method PlaceTrees(pattern: Pattern, patch: Patch, fillRate: int, draws: nat -> nat, first: nat) returns (next: nat)
      requires world.Valid() && pattern.Valid() && patch.Valid() && 1 <= pattern.width
      requires pattern.width <= world.width && pattern.height <= world.height
      requires PatchFits(pattern, patch, GrassTo(Tree))
      modifies this
      ensures (world, next) == StampRun(old(world), pattern, [patch], fillRate * ScaledPercentFactor, draws, false, first, 0, 0)
      ensures world.Valid() && ChangedOnlyAllowed(old(world), world, GrassTo(Tree))
      ensures fillRate < 1 ==> world == old(world)
    {
      ghost var m0 := world;
      ghost var width, height := world.width, world.height;
      next := first;
      var findStartPosX: nat, findStartPosY: nat := 0, 0;
      ghost var goal := StampRun(m0, pattern, [patch], fillRate * ScaledPercentFactor, draws, false, first, 0, 0);
      while true
        invariant world.Valid() && world.width == width && world.height == height
        invariant findStartPosX <= width && findStartPosY <= height
        invariant goal == StampRun(world, pattern, [patch], fillRate * ScaledPercentFactor, draws, false, next, findStartPosX, findStartPosY)
        decreases height - findStartPosY, width - findStartPosX
      {
        var found := FindPattern(pattern, findStartPosX, findStartPosY);
        if found.None? {
          break;
        }
        var (patternPosX, patternPosY) := found.value;
        ghost var before, n := world, next;
        var scaledPercent := ScaledPercent(draws(next));
        next := next + 1;
        if scaledPercent <= fillRate * ScaledPercentFactor {
          ApplyPatch(patch, patternPosX, patternPosY);
          assert [patch][0] == patch;
        }
        StampRunStep(before, pattern, [patch], fillRate * ScaledPercentFactor, draws, false, n, findStartPosX, findStartPosY,
                     patternPosX, patternPosY);
        findStartPosX, findStartPosY := RightOf(patternPosX, pattern), patternPosY;
      }
      GrassToTransitive(Tree);
      StampRunAllowed(m0, pattern, [patch], fillRate * ScaledPercentFactor, draws, false, first, 0, 0, GrassTo(Tree));
      if fillRate < 1 {
        StampRunIdle(m0, pattern, [patch], fillRate * ScaledPercentFactor, draws, false, first, 0, 0);
      }
    }

    /** placeLargeTrees: 9x9 grass squares may get a round crown of trees. */
    method PlaceLargeTrees(fillRate: int, draws: nat -> nat, first: nat) returns (next: nat)
      requires world.Valid() && 9 <= world.width && 9 <= world.height
      modifies this
      ensures (world, next) == StampRun(old(world), Create(9, 9, Grass), [CrownPatch(9, LargeCrown())],
                                        fillRate * ScaledPercentFactor, draws, false, first, 0, 0)
      ensures world.Valid() && ChangedOnlyAllowed(old(world), world, GrassTo(Tree))
      ensures fillRate < 1 ==> world == old(world)
    {
      var pattern := Create(9, 9, Grass);
      var patch := CrownPatch(9, LargeCrown());
      CrownFits(9, LargeCrown());
      next := PlaceTrees(pattern, patch, fillRate, draws, first);
    }

    /** placeSmallTrees: 6x6 grass squares may get a small crown of trees. */
    method PlaceSmallTrees(fillRate: int, draws: nat -> nat, first: nat) returns (next: nat)
      requires world.Valid() && 6 <= world.width && 6 <= world.height
      modifies this
      ensures (world, next) == StampRun(old(world), Create(6, 6, Grass), [CrownPatch(6, SmallCrown())],
                                        fillRate * ScaledPercentFactor, draws, false, first, 0, 0)
      ensures world.Valid() && ChangedOnlyAllowed(old(world), world, GrassTo(Tree))
      ensures fillRate < 1 ==> world == old(world)
    {
      var pattern := Create(6, 6, Grass);
      var patch := CrownPatch(6, SmallCrown());
      CrownFits(6, SmallCrown());
      next := PlaceTrees(pattern, patch, fillRate, draws, first);
    }

    /** placeRoundaboutsA's placeRoundabout: the sixteen writes, in the
        source's order; together they apply RoundaboutAPatch at (x, y). */
    method PlaceRoundaboutA(x: nat, y: nat)
      requires world.Valid() && x + 8 <= world.width && y + 8 <= world.height
      modifies this
      ensures world == Patched(old(world), RoundaboutAPatch(), x, y)
    {
      ghost var m0 := world;
      PlaceRoundaboutATopLeft(x, y);
      ghost var m1 := world;
      PlaceRoundaboutATopRight(x, y);
      ghost var m2 := world;
      PlaceRoundaboutABottomLeft(x, y);
      ghost var m3 := world;
      PlaceRoundaboutABottomRight(x, y);
      ghost var m4 := world;
      PlaceRoundaboutACenter(x, y);
      RoundaboutAGroups(m0, m1, m2, m3, m4, world, x, y);
      Extensionality(world, Patched(m0, RoundaboutAPatch(), x, y));
    }

    /** placeRoundabout's writes to the top left corner. */
    method PlaceRoundaboutATopLeft(x: nat, y: nat)
      requires world.Valid() && x + 8 <= world.width && y + 8 <= world.height
      modifies this
      ensures GroupWritten(old(world), world, RoundaboutA, x, y, 0, Street)
    {
      world := world.Set(x + 2, y + 1, Street);
      world := world.Set(x + 1, y + 2, Street);
      world := world.Set(x + 2, y + 2, Street);
      Set3Written(old(world), RoundaboutA, x, y, 0, x + 2, y + 1, x + 1, y + 2, x + 2, y + 2, Street);
    }

    /** placeRoundabout's writes to the top right corner. */
    method PlaceRoundaboutATopRight(x: nat, y: nat)
      requires world.Valid() && x + 8 <= world.width && y + 8 <= world.height
      modifies this
      ensures GroupWritten(old(world), world, RoundaboutA, x, y, 1, Street)
    {
      world := world.Set(x + 5, y + 1, Street);
      world := world.Set(x + 6, y + 2, Street);
      world := world.Set(x + 5, y + 2, Street);
      Set3Written(old(world), RoundaboutA, x, y, 1, x + 5, y + 1, x + 6, y + 2, x + 5, y + 2, Street);
    }

    /** placeRoundabout's writes to the bottom left corner. */
    method PlaceRoundaboutABottomLeft(x: nat, y: nat)
      requires world.Valid() && x + 8 <= world.width && y + 8 <= world.height
      modifies this
      ensures GroupWritten(old(world), world, RoundaboutA, x, y, 2, Street)
    {
      world := world.Set(x + 1, y + 5, Street);
      world := world.Set(x + 2, y + 6, Street);
      world := world.Set(x + 2, y + 5, Street);
      Set3Written(old(world), RoundaboutA, x, y, 2, x + 1, y + 5, x + 2, y + 6, x + 2, y + 5, Street);
    }

    /** placeRoundabout's writes to the bottom right corner. */
    method PlaceRoundaboutABottomRight(x: nat, y: nat)
      requires world.Valid() && x + 8 <= world.width && y + 8 <= world.height
      modifies this
      ensures GroupWritten(old(world), world, RoundaboutA, x, y, 3, Street)
    {
      world := world.Set(x + 5, y + 5, Street);
      world := world.Set(x + 6, y + 5, Street);
      world := world.Set(x + 5, y + 6, Street);
      Set3Written(old(world), RoundaboutA, x, y, 3, x + 5, y + 5, x + 6, y + 5, x + 5, y + 6, Street);
    }

    /** placeRoundabout's writes to the centre. */
    method PlaceRoundaboutACenter(x: nat, y: nat)
      requires world.Valid() && x + 8 <= world.width && y + 8 <= world.height
      modifies this
      ensures GroupWritten(old(world), world, RoundaboutA, x, y, 4, Grass)
    {
      world := world.Set(x + 3, y + 3, Grass);
      world := world.Set(x + 4, y + 3, Grass);
      world := world.Set(x + 3, y + 4, Grass);
      world := world.Set(x + 4, y + 4, Grass);
      Set4Written(old(world), RoundaboutA, x, y, 4, x + 3, y + 3, x + 4, y + 3, x + 3, y + 4, x + 4, y + 4, Grass);
    }

    /** placeRoundaboutsA: every street crossing found, left to right and
        top to bottom, becomes a roundabout; the search continues right of
        each one. Only grass and street are exchanged. */
    method PlaceRoundaboutsA()
      requires world.Valid() && 8 <= world.width && 8 <= world.height
      modifies this
      ensures world == RoundaboutsARun(old(world), 0, 0)
      ensures world.Valid() && ChangedOnlyAllowed(old(world), world, GrassOrStreet())
    {
      ghost var m0 := world;
      ghost var width, height := world.width, world.height;
      var pattern := CrossingStreetPattern();
      var findStartPosX: nat, findStartPosY: nat := 0, 0;
      ghost var goal := RoundaboutsARun(m0, 0, 0);
      while true
        invariant world.Valid() && world.width == width && world.height == height
        invariant findStartPosX <= width && findStartPosY <= height
        invariant goal == RoundaboutsARun(world, findStartPosX, findStartPosY)
        decreases height - findStartPosY, width - findStartPosX
      {
        var found := FindPattern(pattern, findStartPosX, findStartPosY);
        if found.None? {
          break;
        }
        var (patternPosX, patternPosY) := found.value;
        RoundaboutsARunStep(world, findStartPosX, findStartPosY, patternPosX, patternPosY);
        PlaceRoundaboutA(patternPosX, patternPosY);
        findStartPosX, findStartPosY := RightOf(patternPosX, pattern), patternPosY;
      }
      RoundaboutsARunAllowed(m0, 0, 0);
    }

    /** placeRoundaboutsB's placeRoundabout at the block (x, y): the twenty
        writes in the source's order, the edge writes limited to the map. */
    method PlaceRoundaboutB(x: nat, y: nat)
      requires world.Valid() && x + 4 <= world.width && y + 4 <= world.height
      modifies this
      ensures world == RoundaboutBPlaced(old(world), x, y)
    {
      ghost var m0 := world;
      PlaceRoundaboutBTopEdge(x, y);
      ghost var m1 := world;
      PlaceRoundaboutBBottomEdge(x, y);
      ghost var m2 := world;
      PlaceRoundaboutBLeftEdge(x, y);
      ghost var m3 := world;
      PlaceRoundaboutBRightEdge(x, y);
      ghost var m4 := world;
      PlaceRoundaboutBCenter(x, y);
      RoundaboutBGroups(m0, m1, m2, m3, m4, world, x, y);
      Extensionality(world, RoundaboutBPlaced(m0, x, y));
    }

    /** placeRoundabout's writes to the top edge. */
    method PlaceRoundaboutBTopEdge(x: nat, y: nat)
      requires world.Valid() && x + 4 <= world.width && y + 4 <= world.height
      modifies this
      ensures GroupWritten(old(world), world, RoundaboutB, x, y, 0, Street)
    {
      world := SetOnMap(world, x, y - 1, Street);
      world := SetOnMap(world, x + 1, y - 1, Street);
      world := SetOnMap(world, x + 2, y - 1, Street);
      world := SetOnMap(world, x + 3, y - 1, Street);
      Set4OnMapWritten(old(world), RoundaboutB, x, y, 0, x, y - 1, x + 1, y - 1, x + 2, y - 1, x + 3, y - 1, Street);
    }

    /** placeRoundabout's writes to the bottom edge. */
    method PlaceRoundaboutBBottomEdge(x: nat, y: nat)
      requires world.Valid() && x + 4 <= world.width && y + 4 <= world.height
      modifies this
      ensures GroupWritten(old(world), world, RoundaboutB, x, y, 1, Street)
    {
      world := SetOnMap(world, x, y + 4, Street);
      world := SetOnMap(world, x + 1, y + 4, Street);
      world := SetOnMap(world, x + 2, y + 4, Street);
      world := SetOnMap(world, x + 3, y + 4, Street);
      Set4OnMapWritten(old(world), RoundaboutB, x, y, 1, x, y + 4, x + 1, y + 4, x + 2, y + 4, x + 3, y + 4, Street);
    }

    /** placeRoundabout's writes to the left edge. */
    method PlaceRoundaboutBLeftEdge(x: nat, y: nat)
      requires world.Valid() && x + 4 <= world.width && y + 4 <= world.height
      modifies this
      ensures GroupWritten(old(world), world, RoundaboutB, x, y, 2, Street)
    {
      world := SetOnMap(world, x - 1, y, Street);
      world := SetOnMap(world, x - 1, y + 1, Street);
      world := SetOnMap(world, x - 1, y + 2, Street);
      world := SetOnMap(world, x - 1, y + 3, Street);
      Set4OnMapWritten(old(world), RoundaboutB, x, y, 2, x - 1, y, x - 1, y + 1, x - 1, y + 2, x - 1, y + 3, Street);
    }

    /** placeRoundabout's writes to the right edge. */
    method PlaceRoundaboutBRightEdge(x: nat, y: nat)
      requires world.Valid() && x + 4 <= world.width && y + 4 <= world.height
      modifies this
      ensures GroupWritten(old(world), world, RoundaboutB, x, y, 3, Street)
    {
      world := SetOnMap(world, x + 4, y, Street);
      world := SetOnMap(world, x + 4, y + 1, Street);
      world := SetOnMap(world, x + 4, y + 2, Street);
      world := SetOnMap(world, x + 4, y + 3, Street);
      Set4OnMapWritten(old(world), RoundaboutB, x, y, 3, x + 4, y, x + 4, y + 1, x + 4, y + 2, x + 4, y + 3, Street);
    }

    /** placeRoundabout's writes to the centre, inside the block. */
    method PlaceRoundaboutBCenter(x: nat, y: nat)
      requires world.Valid() && x + 4 <= world.width && y + 4 <= world.height
      modifies this
      ensures GroupWritten(old(world), world, RoundaboutB, x, y, 4, Grass)
    {
      world := world.Set(x + 1, y + 1, Grass);
      world := world.Set(x + 1, y + 2, Grass);
      world := world.Set(x + 2, y + 1, Grass);
      world := world.Set(x + 2, y + 2, Grass);
      Set4Written(old(world), RoundaboutB, x, y, 4, x + 1, y + 1, x + 1, y + 2, x + 2, y + 1, x + 2, y + 2, Grass);
    }

    /** placeRoundaboutsB: a roundabout on every 4x5 block of street, then on
        every 5x4 block, each search resuming eight cells to the right of
        the last block found; only street and grass are written. */
    method PlaceRoundaboutsB()
      requires world.Valid() && 5 <= world.width && 5 <= world.height
      modifies this
      ensures world == RoundaboutsBRun(RoundaboutsBRun(old(world), Create(4, 5, Street), 0, 0), Create(5, 4, Street), 0, 0)
      ensures world.Valid() && ChangedOnlyAllowed(old(world), world, ToStreetOrGrass())
    {
      ghost var m0 := world;
      ghost var width, height := world.width, world.height;
      var crossingStreetPatternA := Create(4, 5, Street);
      var crossingStreetPatternB := Create(5, 4, Street);
      var findStartPosX: nat, findStartPosY: nat := 0, 0;
      ghost var goalA := RoundaboutsBRun(m0, crossingStreetPatternA, 0, 0);
      while true
        invariant world.Valid() && world.width == width && world.height == height
        invariant findStartPosX <= width + 8 && findStartPosY <= height
        invariant goalA == RoundaboutsBRun(world, crossingStreetPatternA, findStartPosX, findStartPosY)
        decreases height - findStartPosY, width + 8 - findStartPosX
      {
        var found := FindPattern(crossingStreetPatternA, findStartPosX, findStartPosY);
        if found.None? {
          break;
        }
        var (patternPosX, patternPosY) := found.value;
        RoundaboutsBRunStep(world, crossingStreetPatternA, findStartPosX, findStartPosY, patternPosX, patternPosY);
        PlaceRoundaboutB(patternPosX, patternPosY);
        findStartPosX := Past(patternPosX);
        findStartPosY := patternPosY;
      }
      ghost var m1 := world;
      findStartPosX, findStartPosY := 0, 0;
      ghost var goalB := RoundaboutsBRun(m1, crossingStreetPatternB, 0, 0);
      while true
        invariant world.Valid() && world.width == width && world.height == height
        invariant findStartPosX <= width + 8 && findStartPosY <= height
        invariant goalB == RoundaboutsBRun(world, crossingStreetPatternB, findStartPosX, findStartPosY)
        decreases height - findStartPosY, width + 8 - findStartPosX
      {
        var found := FindPattern(crossingStreetPatternB, findStartPosX, findStartPosY);
        if found.None? {
          break;
        }
        var (patternPosX, patternPosY) := found.value;
        RoundaboutsBRunStep(world, crossingStreetPatternB, findStartPosX, findStartPosY, patternPosX, patternPosY);
        PlaceRoundaboutB(patternPosX, patternPosY);
        findStartPosX := Past(patternPosX);
        findStartPosY := patternPosY;
      }
      RoundaboutsBRunAllowed(m0, crossingStreetPatternA, 0, 0);
      RoundaboutsBRunAllowed(m1, crossingStreetPatternB, 0, 0);
      AllowedChain(m0, m1, world, ToStreetOrGrass());
    }

    /** replaceAll: every cell holding what becomes with. */
    method ReplaceAll(what: TileType, with: TileType)
      requires world.Valid()
      modifies this
      ensures world.Valid() && world.width == old(world).width && world.height == old(world).height
      ensures forall x: nat, y: nat | x < world.width && y < world.height ::
        world.At(x, y) == if old(world).At(x, y) == what then with else old(world).At(x, y)
    {
      ghost var m0 := world;
      var y := 0;
      while y < world.height
        invariant y <= world.height
        invariant world.Valid() && world.width == m0.width && world.height == m0.height
        invariant forall i: nat, j: nat | i < world.width && j < world.height ::
          world.At(i, j) == if j < y && m0.At(i, j) == what then with else m0.At(i, j)
      {
        var x := 0;
        while x < world.width
          invariant x <= world.width
          invariant world.Valid() && world.width == m0.width && world.height == m0.height
          invariant forall i: nat, j: nat | i < world.width && j < world.height ::
            world.At(i, j) == if RowMajorBefore(i, j, x, y) && m0.At(i, j) == what then with else m0.At(i, j)
        {
          if world.At(x, y) == what {
            world := world.Set(x, y, with);
          }
          x := x + 1;
        }
        y := y + 1;
      }
    }
  }

  lemma SplitLast<T>(s: seq<T>)
    requires s != []
    ensures s == s[..|s| - 1] + [s[|s| - 1]]
  {
  }

  /** All cells of a width x height map. */
  ghost function GridCells(width: nat, height: nat): set<Cell> {
    set x: nat, y: nat | x < width && y < height :: (x, y)
  }

  lemma SubsetCardinality<T>(a: set<T>, b: set<T>)
    requires a <= b
    ensures |a| <= |b|
  {
    if a != {} {
      var x :| x in a;
      SubsetCardinality(a - {x}, b - {x});
    }
  }

  /** The pushes of floodFill, in the source's order: below, above, right,
      left, each only when it lies on the map. */
  function Neighbours4(c: Cell, width: nat, height: nat): (ns: seq<Cell>)
    requires c.0 < width && c.1 < height
    ensures forall d | d in ns :: Adjacent4(c, d) && d.0 < width && d.1 < height
    ensures forall d: Cell | Adjacent4(c, d) && d.0 < width && d.1 < height :: d in ns
  {
    var (x, y) := c;
    (if y < height - 1 then [(x, y + 1)] else [])
    + (if y > 0 then [(x, y - 1)] else [])
    + (if x < width - 1 then [(x + 1, y)] else [])
    + (if x > 0 then [(x - 1, y)] else [])
  }

  /** What floodFill's loop keeps: recoloured cells are region cells and
      hold the fill; every other cell is as it was; stacked cells are on the
      map and, if they held the seed's value at the start, are in the
      region; each neighbour of a recoloured cell that held the seed's value
      is recoloured or still stacked; the seed is recoloured or stacked. */
  ghost predicate FillInvariant(m0: WorldMap, s: Cell, f: TileType, m: WorldMap, changed: set<Cell>, stack: seq<Cell>)
    requires m0.Valid() && m0.InBounds(s.0, s.1)
  {
    && m.Valid() && m.width == m0.width && m.height == m0.height
    && f != m0.At(s.0, s.1)
    && (forall c | c in changed :: m0.InBounds(c.0, c.1) && InRegion(m0, s, c))
    && (forall cx: nat, cy: nat | cx < m0.width && cy < m0.height ::
          m.At(cx, cy) == if (cx, cy) in changed then f else m0.At(cx, cy))
    && (forall c | c in stack :: m0.InBounds(c.0, c.1) && (m0.At(c.0, c.1) == m0.At(s.0, s.1) ==> InRegion(m0, s, c)))
    && (forall a, b | a in changed && Adjacent4(a, b) && HoldsAt(m0, m0.At(s.0, s.1), b) :: b in changed || b in stack)
    && (s in changed || s in stack)
  }

  lemma FillStart(m0: WorldMap, s: Cell, f: TileType)
    requires m0.Valid() && m0.InBounds(s.0, s.1) && f != m0.At(s.0, s.1)
    ensures FillInvariant(m0, s, f, m0, {}, [s])
  {
    SeedInRegion(m0, s);
  }

  /** Popping a cell that still holds the seed's value: it is a region cell
      not yet recoloured; after recolouring it and pushing its in-bounds
      neighbours the invariant holds again. */
  lemma FillStepRecolour(m0: WorldMap, s: Cell, f: TileType, m: WorldMap, changed: set<Cell>, rest: seq<Cell>, c: Cell,
                         m': WorldMap, stack': seq<Cell>)
    requires m0.Valid() && m0.InBounds(s.0, s.1)
    requires FillInvariant(m0, s, f, m, changed, rest + [c])
    requires m.At(c.0, c.1) == m0.At(s.0, s.1)
    requires m' == m.Set(c.0, c.1, f)
    requires stack' == rest + Neighbours4(c, m0.width, m0.height)
    ensures c !in changed && m0.InBounds(c.0, c.1) && InRegion(m0, s, c)
    ensures FillInvariant(m0, s, f, m', changed + {c}, stack')
  {
    assert c in rest + [c];
    assert c !in changed;
    RecolourCells(m0, f, m, changed, c, m');
    RecolourStack(m0, s, rest, c, stack');
    RecolourClosure(m0, s, changed, rest, c, stack');
  }

  lemma RecolourCells(m0: WorldMap, f: TileType, m: WorldMap, changed: set<Cell>, c: Cell, m': WorldMap)
    requires m0.Valid() && m.Valid() && m.width == m0.width && m.height == m0.height && m.InBounds(c.0, c.1)
    requires forall cx: nat, cy: nat | cx < m0.width && cy < m0.height ::
               m.At(cx, cy) == if (cx, cy) in changed then f else m0.At(cx, cy)
    requires m' == m.Set(c.0, c.1, f)
    ensures forall cx: nat, cy: nat | cx < m0.width && cy < m0.height ::
              m'.At(cx, cy) == if (cx, cy) in changed + {c} then f else m0.At(cx, cy)
  {
    forall cx: nat, cy: nat | cx < m0.width && cy < m0.height
      ensures m'.At(cx, cy) == if (cx, cy) in changed + {c} then f else m0.At(cx, cy)
    {
      if (cx, cy) != c {
        assert m'.At(cx, cy) == m.At(cx, cy);
      }
    }
  }

  lemma RecolourStack(m0: WorldMap, s: Cell, rest: seq<Cell>, c: Cell, stack': seq<Cell>)
    requires m0.Valid() && m0.InBounds(s.0, s.1) && m0.InBounds(c.0, c.1) && InRegion(m0, s, c)
    requires forall d | d in rest :: m0.InBounds(d.0, d.1) && (m0.At(d.0, d.1) == m0.At(s.0, s.1) ==> InRegion(m0, s, d))
    requires stack' == rest + Neighbours4(c, m0.width, m0.height)
    ensures forall d | d in stack' :: m0.InBounds(d.0, d.1) && (m0.At(d.0, d.1) == m0.At(s.0, s.1) ==> InRegion(m0, s, d))
  {
    forall d | d in stack'
      ensures m0.InBounds(d.0, d.1) && (m0.At(d.0, d.1) == m0.At(s.0, s.1) ==> InRegion(m0, s, d))
    {
      if d !in rest {
        assert d in Neighbours4(c, m0.width, m0.height);
        if m0.At(d.0, d.1) == m0.At(s.0, s.1) {
          RegionClosed(m0, s, c, d);
        }
      }
    }
  }

  lemma RecolourClosure(m0: WorldMap, s: Cell, changed: set<Cell>, rest: seq<Cell>, c: Cell, stack': seq<Cell>)
    requires m0.Valid() && m0.InBounds(s.0, s.1) && m0.InBounds(c.0, c.1)
    requires forall a, b | a in changed && Adjacent4(a, b) && HoldsAt(m0, m0.At(s.0, s.1), b) :: b in changed || b in rest + [c]
    requires stack' == rest + Neighbours4(c, m0.width, m0.height)
    ensures forall a, b | a in changed + {c} && Adjacent4(a, b) && HoldsAt(m0, m0.At(s.0, s.1), b) ::
              b in changed + {c} || b in stack'
  {
    forall a, b | a in changed + {c} && Adjacent4(a, b) && HoldsAt(m0, m0.At(s.0, s.1), b)
      ensures b in changed + {c} || b in stack'
    {
      if a == c {
        assert b in Neighbours4(c, m0.width, m0.height);
      } else {
        assert b in changed || b in rest + [c];
      }
    }
  }

  /** One pass of floodFill's loop: pop the top of the stack and, when that
      cell still holds the replaced type, recolour it, push its in-bounds
      neighbours and count it. Either a cell is recoloured or the stack
      shrinks. */
  method FillPop(ghost m0: WorldMap, ghost s: Cell, fillTileType: TileType, tileTypeToReplace: TileType,
                 ghost region: set<Cell>, m: WorldMap, ghost changed: set<Cell>, coordStack: seq<Cell>, count: nat)
    returns (m': WorldMap, ghost changed': set<Cell>, coordStack': seq<Cell>, count': nat)
    requires m0.Valid() && m0.InBounds(s.0, s.1) && tileTypeToReplace == m0.At(s.0, s.1)
    requires FillInvariant(m0, s, fillTileType, m, changed, coordStack) && coordStack != []
    requires region == GridCells(m0.width, m0.height) && changed <= region && count == |changed|
    ensures FillInvariant(m0, s, fillTileType, m', changed', coordStack')
    ensures changed' <= region && |changed'| <= |region| && count' == |changed'|
    ensures |changed'| > |changed| || (changed' == changed && |coordStack'| < |coordStack|)
  {
    var current := coordStack[|coordStack| - 1];
    SplitLast(coordStack);
    coordStack' := coordStack[..|coordStack| - 1];
    ghost var rest := coordStack';
    var (currentX, currentY) := current;
    if m.At(currentX, currentY) == tileTypeToReplace {
      m' := m.Set(currentX, currentY, fillTileType);
      coordStack' := coordStack' + Neighbours4(current, m.width, m.height);
      FillStepRecolour(m0, s, fillTileType, m, changed, rest, current, m', coordStack');
      FillStepCount(m0, changed, current, region);
      changed' := changed + {current};
      count' := count + 1;
    } else {
      FillStepSkip(m0, s, fillTileType, m, changed, rest, current);
      m', changed', count' := m, changed, count;
      SubsetCardinality(changed, region);
    }
  }

  /** Recolouring one more on-map cell keeps the recoloured cells within the
      grid and grows their number by one. */
  lemma FillStepCount(m0: WorldMap, changed: set<Cell>, c: Cell, region: set<Cell>)
    requires region == GridCells(m0.width, m0.height) && changed <= region
    requires m0.InBounds(c.0, c.1) && c !in changed
    ensures changed + {c} <= region && |changed + {c}| == |changed| + 1 && |changed + {c}| <= |region|
  {
    assert c == (c.0, c.1);
    SubsetCardinality(changed + {c}, region);
  }

  /** Popping a cell that no longer holds the seed's value changes nothing. */
  lemma FillStepSkip(m0: WorldMap, s: Cell, f: TileType, m: WorldMap, changed: set<Cell>, rest: seq<Cell>, c: Cell)
    requires m0.Valid() && m0.InBounds(s.0, s.1)
    requires FillInvariant(m0, s, f, m, changed, rest + [c])
    requires m.At(c.0, c.1) != m0.At(s.0, s.1)
    ensures FillInvariant(m0, s, f, m, changed, rest)
  {
    assert c in rest + [c];
    forall a, b | a in changed && Adjacent4(a, b) && HoldsAt(m0, m0.At(s.0, s.1), b)
      ensures b in changed || b in rest
    {
      if b != c {
        assert b in changed || b in rest + [c];
      }
    }
  }

  /** With the stack empty, the recoloured cells are exactly the region. */
  lemma FillDone(m0: WorldMap, s: Cell, f: TileType, m: WorldMap, changed: set<Cell>)
    requires m0.Valid() && m0.InBounds(s.0, s.1)
    requires FillInvariant(m0, s, f, m, changed, [])
    ensures forall c: Cell | m0.InBounds(c.0, c.1) :: c in changed <==> InRegion(m0, s, c)
    ensures changed == RegionCells(m0, s)
  {
    forall c: Cell | m0.InBounds(c.0, c.1) && InRegion(m0, s, c)
      ensures c in changed
    {
      ClosedSetContainsRegion(m0, s, changed, c);
    }
    forall c | c in RegionCells(m0, s)
      ensures c in changed
    {
      var (x, y) := c;
      assert x < m0.width && y < m0.height && InRegion(m0, s, (x, y));
    }
  }

  /** The recoloured cells being the region, the map is the filled map. */
  lemma FillDoneMap(m0: WorldMap, s: Cell, f: TileType, m: WorldMap, changed: set<Cell>)
    requires m0.Valid() && m0.InBounds(s.0, s.1)
    requires m.Valid() && m.width == m0.width && m.height == m0.height
    requires forall cx: nat, cy: nat | cx < m0.width && cy < m0.height ::
               m.At(cx, cy) == if (cx, cy) in changed then f else m0.At(cx, cy)
    requires forall c: Cell | m0.InBounds(c.0, c.1) :: c in changed <==> InRegion(m0, s, c)
    ensures m == Filled(m0, s, f)
  {
    var m1 := Filled(m0, s, f);
    forall cx: nat, cy: nat | cx < m.width && cy < m.height
      ensures m.At(cx, cy) == m1.At(cx, cy)
    {
      assert m0.InBounds(cx, cy);
    }
    Extensionality(m, m1);
  }
}
