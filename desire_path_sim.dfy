/** DesirePathSim of src/DesirePathSim.cpp, its non-graphical parts: the
    Voronoi level loops of the constructor, the base-cost map, the shadow
    bitmap, and the hand-off of villagers that wait for a path to the
    pathfinding queue. Rendering, the camera, the window loop and the
    pathfinding thread are not part of this model; the queue is the sequence
    of villagers pushed so far. */
module DesirePathSims {
  import opened Util
  import opened Maps
  import opened TileTypes
  import opened WorldMaps
  import opened DesirePaths
  import opened BitmapTransform
  import opened UpdateRects
  import opened Voronoi
  import opened Regions
  import opened Villagers

  // ---------------------------------------------------------------------
  // The Voronoi levels of the constructor

  /** Every label of m indexes a list of n centroids. */
  ghost predicate LabelsBelow(m: VoronoiMap, n: nat)
    requires m.Valid()
  {
    forall x: nat, y: nat | x < m.width && y < m.height :: m.At(x, y) < n
  }

  /** m is a width x height map that labels every cell with the index of
      its nearest centroid of cs under distance. */
  ghost predicate NearestLabelling(cs: seq<Centroid>, m: VoronoiMap, width: nat, height: nat, distance: Distance) {
    && m.Valid() && m.width == width && m.height == height
    && forall x: nat, y: nat | x < width && y < height :: IsShortestDistanceIndex(Distances(x, y, cs, distance), m.At(x, y))
  }

  /** Level 0: count centroids drawn anywhere on a width x height map, and
      every cell labelled with the index of its nearest centroid. None only
      when the draws run out. */
  method Level0(width: nat, height: nat, count: nat, draws: seq<(int, int)>, distance: Distance)
    returns (r: Option<(seq<Centroid>, VoronoiMap)>, rest: seq<(int, int)>)
    requires width >= 1 && height >= 1
    ensures |rest| <= |draws|
    ensures r.Some? ==> var (cs, m) := r.value;
      && |cs| == count && NearestLabelling(cs, m, width, height, distance)
      && (count >= 1 ==> LabelsBelow(m, count))
    ensures r.None? ==> rest == []
  {
    var centroids;
    centroids, rest := GenerateCentroids(0, 0, width, height, count, draws, (x: int, y: int) => true);
    if centroids.None? {
      return None, rest;
    }
    var cs := centroids.value;
    var m := InnerMap(0, 0, width, height, cs, distance);
    if count >= 1 {
      forall x: nat, y: nat | x < width && y < height
        ensures m.At(x, y) < count
      {
        ShortestDistanceIndexUnique(Distances(x, y, cs, distance), m.At(x, y), m.At(x, y));
      }
    }
    return Some((cs, m)), rest;
  }

  /** cs' extends cs. */
  predicate Extends(cs: seq<Centroid>, cs': seq<Centroid>) {
    |cs| <= |cs'| && cs'[..|cs|] == cs
  }

  /** After part of a level: m has m0's size, and a cell whose label changed
      had a label in [from, to) and now carries a new id, one of those
      appended to the n0 centroids there were before (below n when each
      subdivide adds at least one). */
  ghost predicate Relabelled(m0: VoronoiMap, n0: nat, from: nat, to: nat, countToAdd: nat, m: VoronoiMap, n: nat)
    requires m0.Valid()
  {
    && m.Valid() && m.width == m0.width && m.height == m0.height
    && forall x: nat, y: nat | x < m0.width && y < m0.height ::
         m.At(x, y) == m0.At(x, y)
         || (from <= m0.At(x, y) < to && n0 <= m.At(x, y) && (countToAdd >= 1 ==> m.At(x, y) < n))
  }

  /** Every id in [from, upto) among the n0 old ones whose draw asked for a
      subdivision no longer labels any cell. */
  ghost predicate Retired(n0: nat, from: nat, upto: nat, percents: seq<int>, probability: int, m: VoronoiMap)
    requires m.Valid() && upto - from <= |percents|
  {
    forall id: nat | from <= id < upto && id < n0 && percents[id - from] <= probability :: !OwnsSome(m, id)
  }

  /** Every cell of an old region in [from, to) whose draw did not ask for a
      subdivision keeps its label. */
  ghost predicate Kept(m0: VoronoiMap, n0: nat, from: nat, to: nat, percents: seq<int>, probability: int, m: VoronoiMap)
    requires m0.Valid() && m.Valid() && m.width == m0.width && m.height == m0.height && to - from <= |percents|
  {
    forall x: nat, y: nat | x < m0.width && y < m0.height && from <= m0.At(x, y) < to && m0.At(x, y) < n0
                            && percents[m0.At(x, y) - from] > probability ::
      m.At(x, y) == m0.At(x, y)
  }

  /** find(id, 0, 0, false) answers whether region id owns a cell. */
  lemma FindFromOrigin(m: VoronoiMap, id: nat, r: Option<(nat, nat)>)
    requires m.Valid() && FindSpec(m, id, 0, 0, false, r)
    ensures r.Some? <==> OwnsSome(m, id)
  {
    if OwnsSome(m, id) {
      var x: nat, y: nat :| Owns(m, id, x, y);
      assert Holds(m, id, x, y) && !RowMajorBefore(x, y, 0, 0);
    }
    if r.Some? {
      assert Owns(m, id, r.value.0, r.value.1);
    }
  }

  /** A subdivide of id in [from, to) keeps the level's relabelling. */
  lemma StepRelabelled(m0: VoronoiMap, n0: nat, from: nat, to: nat, countToAdd: nat, distance: Distance,
                       cs: seq<Centroid>, m: VoronoiMap, id: nat, cs': seq<Centroid>, m': VoronoiMap)
    requires m0.Valid() && m.Valid() && from <= id < to && n0 <= |cs|
    requires Relabelled(m0, n0, from, to, countToAdd, m, |cs|)
    requires IsSubdivision(cs, id, m, countToAdd, distance, cs', m')
    ensures Relabelled(m0, n0, from, to, countToAdd, m', |cs'|)
  {
    forall x: nat, y: nat | x < m0.width && y < m0.height
      ensures m'.At(x, y) == m0.At(x, y)
              || (from <= m0.At(x, y) < to && n0 <= m'.At(x, y) && (countToAdd >= 1 ==> m'.At(x, y) < |cs'|))
    {
      if m.At(x, y) == id {
        assert Owns(m, id, x, y);
        if countToAdd >= 1 {
          NewLabelInRange(cs'[|cs|..], |cs|, distance, x, y, m'.At(x, y));
        }
      }
    }
  }

  /** A subdivide of id retires id and keeps the earlier ids retired. */
  lemma StepRetired(n0: nat, from: nat, id: nat, percents: seq<int>, probability: int, countToAdd: nat, distance: Distance,
                    cs: seq<Centroid>, m: VoronoiMap, cs': seq<Centroid>, m': VoronoiMap)
    requires m.Valid() && from <= id && id + 1 - from <= |percents| && n0 <= |cs|
    requires Retired(n0, from, id, percents, probability, m)
    requires IsSubdivision(cs, id, m, countToAdd, distance, cs', m')
    ensures Retired(n0, from, id + 1, percents, probability, m')
  {
    forall k: nat | from <= k < id + 1 && k < n0 && percents[k - from] <= probability
      ensures !OwnsSome(m', k)
    {
      forall x: nat, y: nat | x < m'.width && y < m'.height
        ensures m'.At(x, y) != k
      {
        if m.At(x, y) == id {
          assert Owns(m, id, x, y);
        } else if k < id {
          assert !OwnsSome(m, k);
          assert !Owns(m, k, x, y);
        }
      }
    }
  }

  /** A subdivide of an id whose draw asked for one keeps the other kept
      regions. */
  lemma StepKept(m0: VoronoiMap, n0: nat, from: nat, to: nat, percents: seq<int>, probability: int, countToAdd: nat,
                 distance: Distance, cs: seq<Centroid>, m: VoronoiMap, id: nat, cs': seq<Centroid>, m': VoronoiMap)
    requires m0.Valid() && m.Valid() && m.width == m0.width && m.height == m0.height && to - from <= |percents|
    requires from <= id < to && percents[id - from] <= probability
    requires Kept(m0, n0, from, to, percents, probability, m)
    requires IsSubdivision(cs, id, m, countToAdd, distance, cs', m')
    ensures Kept(m0, n0, from, to, percents, probability, m')
  {
    forall x: nat, y: nat | x < m0.width && y < m0.height && from <= m0.At(x, y) < to && m0.At(x, y) < n0
                            && percents[m0.At(x, y) - from] > probability
      ensures m'.At(x, y) == m0.At(x, y)
    {
      assert m.At(x, y) == m0.At(x, y);
      assert m.At(x, y) != id;
    }
  }

  /** What one level of subdivision over the ids [from, to) leaves: the
      centroid list extended, only regions in [from, to) relabelled with new
      ids, every region whose draw asked for a subdivision retired, every
      other region kept. */
  ghost predicate LevelOutcome(cs0: seq<Centroid>, m0: VoronoiMap, from: nat, to: nat, countToAdd: nat,
                               percents: seq<int>, probability: int, cs: seq<Centroid>, m: VoronoiMap)
    requires m0.Valid() && to - from <= |percents|
  {
    && Extends(cs0, cs) && Relabelled(m0, |cs0|, from, to, countToAdd, m, |cs|)
    && Retired(|cs0|, from, to, percents, probability, m)
    && Kept(m0, |cs0|, from, to, percents, probability, m)
  }

  /** One level of subdivision (the constructor's level-1 and level-2
      loops): for each id in [from, to) in order, percents[id - from] is the
      percent draw, and a draw of at most probability subdivides region id
      into countToAdd new regions. An id whose region owns no cell is
      skipped. None only when the centroid draws run out. */
  method SubdivideLevel(cs0: seq<Centroid>, m0: VoronoiMap, from: nat, to: nat, countToAdd: nat,
                        percents: seq<int>, probability: int, draws: seq<(int, int)>, distance: Distance)
    returns (r: Option<(seq<Centroid>, VoronoiMap)>, rest: seq<(int, int)>)
    requires m0.Valid() && m0.width < SizeModulus && m0.height < SizeModulus
    requires from <= to && |percents| == to - from
    ensures |rest| <= |draws|
    ensures r.Some? ==> LevelOutcome(cs0, m0, from, to, countToAdd, percents, probability, r.value.0, r.value.1)
    ensures r.None? ==> rest == []
    ensures (forall i | 0 <= i < |percents| :: percents[i] > probability) ==> r == Some((cs0, m0))
  {
    var cs, m := cs0, m0;
    rest := draws;
    var id := from;
    while id < to
      invariant from <= id <= to && |rest| <= |draws|
      invariant Extends(cs0, cs) && Relabelled(m0, |cs0|, from, to, countToAdd, m, |cs|)
      invariant Retired(|cs0|, from, id, percents, probability, m)
      invariant Kept(m0, |cs0|, from, to, percents, probability, m)
      invariant (forall i | 0 <= i < |percents| :: percents[i] > probability) ==> cs == cs0 && m == m0
    {
      if percents[id - from] <= probability {
        var found := Find(m, id, 0, 0, false);
        FindFromOrigin(m, id, found);
        if found.Some? {
          var sub, rest' := Subdivide(cs, id, m, countToAdd, rest, distance);
          if sub.None? {
            return None, rest';
          }
          var (cs', m') := sub.value;
          StepRelabelled(m0, |cs0|, from, to, countToAdd, distance, cs, m, id, cs', m');
          StepRetired(|cs0|, from, id, percents, probability, countToAdd, distance, cs, m, cs', m');
          StepKept(m0, |cs0|, from, to, percents, probability, countToAdd, distance, cs, m, id, cs', m');
          assert cs'[..|cs|] == cs;
          cs, m, rest := cs', m', rest';
        }
      }
      id := id + 1;
    }
    return Some((cs, m)), rest;
  }

  /** A level with at least one new centroid per subdivide keeps every
      label an index into the centroid list. */
  lemma LevelKeepsLabelsBelow(m0: VoronoiMap, n0: nat, from: nat, to: nat, countToAdd: nat, m: VoronoiMap, n: nat)
    requires m0.Valid() && LabelsBelow(m0, n0) && n0 <= n && countToAdd >= 1
    requires Relabelled(m0, n0, from, to, countToAdd, m, n)
    ensures LabelsBelow(m, n)
  {
  }

  /** The constructor's Voronoi map: level 0, then level 1 over the ids
      [0, count) and level 2 over [count, count + count * count), each
      subdivide adding count regions. percents1 and percents2 are the two
      levels' percent draws. (cs0, m0) is level 0's result and (cs1, m1)
      level 1's. Every label of the result indexes the centroid list. None
      only when the centroid draws run out. */
  method BuildVoronoi(width: nat, height: nat, count: nat, draws: seq<(int, int)>,
                      percents1: seq<int>, probability1: int, percents2: seq<int>, probability2: int,
                      distance0: Distance, distance1: Distance, distance2: Distance)
    returns (r: Option<(seq<Centroid>, VoronoiMap)>, rest: seq<(int, int)>,
             ghost cs0: seq<Centroid>, ghost m0: VoronoiMap, ghost cs1: seq<Centroid>, ghost m1: VoronoiMap)
    requires 1 <= width < SizeModulus && 1 <= height < SizeModulus
    requires |percents1| == count && |percents2| == count * count
    ensures |rest| <= |draws|
    ensures r.Some? ==> |cs0| == count && NearestLabelling(cs0, m0, width, height, distance0)
    ensures r.Some? ==> m0.Valid() && LevelOutcome(cs0, m0, 0, count, count, percents1, probability1, cs1, m1)
    ensures r.Some? ==>
      m1.Valid() && LevelOutcome(cs1, m1, count, count + count * count, count, percents2, probability2, r.value.0, r.value.1)
    ensures r.Some? ==> var (cs, m) := r.value;
      && count <= |cs| && m.Valid() && m.width == width && m.height == height
      && (count >= 1 ==> LabelsBelow(m, |cs|))
    ensures r.None? ==> rest == []
  {
    m0, m1 := Map(0, 0, []), Map(0, 0, []);
    var level0, rest0 := Level0(width, height, count, draws, distance0);
    if level0.None? {
      return None, rest0, [], m0, [], m1;
    }
    var (centroids0, map0) := level0.value;
    cs0, m0 := centroids0, map0;
    var level1, rest1 := SubdivideLevel(centroids0, map0, 0, count, count, percents1, probability1, rest0, distance1);
    if level1.None? {
      return None, rest1, cs0, m0, [], m1;
    }
    var (centroids1, map1) := level1.value;
    cs1, m1 := centroids1, map1;
    var level2, rest2 := SubdivideLevel(centroids1, map1, count, count + count * count, count, percents2, probability2,
                                        rest1, distance2);
    if level2.None? {
      return None, rest2, cs0, m0, cs1, m1;
    }
    var (cs2, m2) := level2.value;
    if count >= 1 {
      LevelKeepsLabelsBelow(map0, count, 0, count, count, map1, |centroids1|);
      LevelKeepsLabelsBelow(map1, |centroids1|, count, count + count * count, count, m2, |cs2|);
    }
    return Some((cs2, m2)), rest2, cs0, m0, cs1, m1;
  }


  /** The level-2 loop as written visits ids that may own no cell: when no
      level-1 draw asked for a subdivision, level 1 keeps every region, the
      list still has count centroids, and the first id level 2 visits,
      count, labels nothing. Subdivide's bounding-box scan then keeps its
      initial corners (SIZE_MAX, SIZE_MAX) and (0, 0), and the box's size_t
      extents wrap to 2 (EmptyRegionBoxWraps). */
  lemma Level2VisitsEmptyRegion(cs0: seq<Centroid>, m0: VoronoiMap, count: nat, percents1: seq<int>, probability1: int,
                                cs1: seq<Centroid>, m1: VoronoiMap)
    requires m0.Valid() && |cs0| == count >= 1 && |percents1| == count && LabelsBelow(m0, count)
    requires LevelOutcome(cs0, m0, 0, count, count, percents1, probability1, cs1, m1)
    requires forall i | 0 <= i < count :: percents1[i] > probability1
    ensures count <= count < count + count * count
    ensures !OwnsSome(m1, count)
  {
    forall x: nat, y: nat | x < m1.width && y < m1.height
      ensures m1.At(x, y) != count
    {
      assert m0.At(x, y) < count;
      assert percents1[m0.At(x, y) - 0] > probability1;
    }
  }

  // ---------------------------------------------------------------------
  // The shadow bitmap

  /** The tiles updateShadowBitmap seeds with 1. */
  predicate CastsShadow(t: TileType) {
    t == Building || t == Tree
  }

  /** A shadow-casting tile at (x, y); false off the grid. */
  ghost predicate ObjectAt(world: WorldMap, x: int, y: int)
    requires world.Valid()
  {
    world.InBounds(x, y) && CastsShadow(world.At(x, y))
  }

  /** (x, y) or one of its four orthogonal neighbours casts a shadow: the
      dilated seed. */
  ghost predicate NearObject(world: WorldMap, x: int, y: int)
    requires world.Valid()
  {
    ObjectAt(world, x, y) || ObjectAt(world, x - 1, y) || ObjectAt(world, x + 1, y)
    || ObjectAt(world, x, y - 1) || ObjectAt(world, x, y + 1)
  }

  /** (x, y) survives the dilate-then-erode: it lies off the edge and it and
      its four neighbours are all near an object. */
  ghost predicate Closed(world: WorldMap, x: int, y: int)
    requires world.Valid()
  {
    && 1 <= x && x + 1 < world.width && 1 <= y && y + 1 < world.height
    && NearObject(world, x, y)
    && NearObject(world, x - 1, y) && NearObject(world, x + 1, y)
    && NearObject(world, x, y - 1) && NearObject(world, x, y + 1)
  }

  /** The shadow of (x, y): the closed seed one cell up and to the left,
      except on the objects themselves. */
  ghost function ShadowAt(world: WorldMap, x: nat, y: nat): uint8
    requires world.Valid() && x < world.width && y < world.height
  {
    if ObjectAt(world, x, y) then 0 else if Closed(world, x - 1, y - 1) then 1 else 0
  }

  /** The seed loop's bitmap: 1 on buildings and trees, 0 elsewhere. */
  ghost predicate IsSeed(world: WorldMap, seed: Bitmap)
    requires world.Valid()
  {
    && seed.Valid() && seed.width == world.width && seed.height == world.height
    && forall x: nat, y: nat | x < world.width && y < world.height ::
         seed.At(x, y) == if CastsShadow(world.At(x, y)) then 1 else 0
  }

  /** A cell of the dilated seed, read as a neighbour: 1 exactly where the
      cell is on the grid and near an object. */
  lemma DilatedSeed(world: WorldMap, seed: Bitmap, dilated: Bitmap, x: int, y: int)
    requires world.Valid() && IsSeed(world, seed)
    requires dilated.Valid() && dilated.width == world.width && dilated.height == world.height
    requires forall i: nat, j: nat | i < world.width && j < world.height :: dilated.At(i, j) == DilateCell(seed, i, j, false)
    ensures Neighbour(dilated, x, y) == if world.InBounds(x, y) && NearObject(world, x, y) then 1 else 0
  {
    if world.InBounds(x, y) {
      assert IsBinary(seed);
      DilateMeaning(seed, x, y, false);
    }
  }

  /** The dilated seed, read as neighbours anywhere, marks the cells near
      an object. */
  ghost predicate MarksNear(world: WorldMap, dilated: Bitmap)
    requires world.Valid()
  {
    && dilated.Valid() && dilated.width == world.width && dilated.height == world.height && IsBinary(dilated)
    && forall i: int, j: int :: Neighbour(dilated, i, j) == if world.InBounds(i, j) && NearObject(world, i, j) then 1 else 0
  }

  lemma DilatedMarksNear(world: WorldMap, seed: Bitmap, dilated: Bitmap)
    requires world.Valid() && IsSeed(world, seed)
    requires dilated.Valid() && dilated.width == world.width && dilated.height == world.height && IsBinary(dilated)
    requires forall i: nat, j: nat | i < world.width && j < world.height :: dilated.At(i, j) == DilateCell(seed, i, j, false)
    ensures MarksNear(world, dilated)
  {
    forall i: int, j: int
      ensures Neighbour(dilated, i, j) == if world.InBounds(i, j) && NearObject(world, i, j) then 1 else 0
    {
      DilatedSeed(world, seed, dilated, i, j);
    }
  }

  /** One cell of the dilated seed after erode: 1 exactly where the seed is
      closed. */
  lemma ClosedSeed(world: WorldMap, dilated: Bitmap, x: nat, y: nat)
    requires world.Valid() && MarksNear(world, dilated) && x < world.width && y < world.height
    ensures ErodeCell(dilated, x, y, false) == if Closed(world, x, y) then 1 else 0
  {
    ErodeMeaning(dilated, x, y, false);
    assert Neighbour(dilated, x, y) == dilated.At(x, y) as int;
  }

  /** The eroded bitmap marks the closed cells. */
  ghost predicate MarksClosed(world: WorldMap, eroded: Bitmap)
    requires world.Valid()
  {
    && eroded.Valid() && eroded.width == world.width && eroded.height == world.height
    && forall i: nat, j: nat | i < world.width && j < world.height :: eroded.At(i, j) == if Closed(world, i, j) then 1 else 0
  }

  lemma ErodedMarksClosed(world: WorldMap, dilated: Bitmap, eroded: Bitmap)
    requires world.Valid() && MarksNear(world, dilated)
    requires eroded.Valid() && eroded.width == world.width && eroded.height == world.height
    requires forall i: nat, j: nat | i < world.width && j < world.height :: eroded.At(i, j) == ErodeCell(dilated, i, j, false)
    ensures MarksClosed(world, eroded)
  {
    forall i: nat, j: nat | i < world.width && j < world.height
      ensures eroded.At(i, j) == if Closed(world, i, j) then 1 else 0
    {
      ClosedSeed(world, dilated, i, j);
    }
  }

  /** One cell of the rest of the pipeline: shifting the closed seed by
      (1, 1) with fill 0 and masking it with the seed gives ShadowAt. */
  lemma ShadowCell(world: WorldMap, seed: Bitmap, eroded: Bitmap, shifted: Bitmap, shadow: Bitmap, x: nat, y: nat)
    requires world.Valid() && IsSeed(world, seed) && MarksClosed(world, eroded) && x < world.width && y < world.height
    requires shifted.Valid() && shifted.width == world.width && shifted.height == world.height
    requires shifted.At(x, y) == ShiftCell(eroded, x, y, 1, 1, 0)
    requires shadow.Valid() && shadow.width == world.width && shadow.height == world.height
    requires shadow.At(x, y) == MaskCell(shifted, seed, x, y, 0, 0)
    ensures shadow.At(x, y) == ShadowAt(world, x, y)
  {
    MaskAligned(shifted, seed, x, y);
    if x >= 1 && y >= 1 {
      assert eroded.At(x - 1, y - 1) == if Closed(world, x - 1, y - 1) then 1 else 0;
    }
  }

  /** A building or tree away from the map edge shades the tile diagonally
      below and to the right of it, unless that tile is an object too. */
  lemma ObjectCastsShadow(world: WorldMap, x: nat, y: nat)
    requires world.Valid() && 1 <= x && x + 1 < world.width && 1 <= y && y + 1 < world.height
    requires ObjectAt(world, x, y) && !ObjectAt(world, x + 1, y + 1)
    ensures ShadowAt(world, x + 1, y + 1) == 1
  {
    assert NearObject(world, x - 1, y) && NearObject(world, x + 1, y);
    assert NearObject(world, x, y - 1) && NearObject(world, x, y + 1);
  }

  /** A shaded tile is no object and lies at least two cells from the top and
      left edges, with an object within one orthogonal step of the cell one up
      and one to the left. */
  lemma ShadowNeedsObject(world: WorldMap, x: nat, y: nat)
    requires world.Valid() && x < world.width && y < world.height && ShadowAt(world, x, y) == 1
    ensures !ObjectAt(world, x, y) && x >= 2 && y >= 2
    ensures NearObject(world, x - 1, y - 1)
  {
  }

  /** The seed loop of updateShadowBitmap, writing into a bitmap of the
      world's size: 1 on buildings and trees, 0 elsewhere. */
  method SeedShadow(world: WorldMap, b: Bitmap) returns (seed: Bitmap)
    requires world.Valid() && b.Valid() && b.width == world.width && b.height == world.height
    ensures IsSeed(world, seed)
  {
    seed := b;
    var y := 0;
    while y < world.height
      invariant y <= world.height
      invariant seed.Valid() && seed.width == world.width && seed.height == world.height
      invariant forall i: nat, j: nat | i < world.width && j < y ::
        seed.At(i, j) == if CastsShadow(world.At(i, j)) then 1 else 0
    {
      var x := 0;
      while x < world.width
        invariant x <= world.width
        invariant seed.Valid() && seed.width == world.width && seed.height == world.height
        invariant forall i: nat, j: nat | i < world.width && j < y ::
          seed.At(i, j) == if CastsShadow(world.At(i, j)) then 1 else 0
        invariant forall i: nat | i < x :: seed.At(i, y) == if CastsShadow(world.At(i, y)) then 1 else 0
      {
        if world.At(x, y) == Building || world.At(x, y) == Tree {
          seed := seed.Set(x, y, 1);
        } else {
          seed := seed.Set(x, y, 0);
        }
        x := x + 1;
      }
      y := y + 1;
    }
  }

  /** The rest of updateShadowBitmap: close the seed (dilate, then erode),
      shift it one cell down and to the right, and clear the objects
      themselves with the seed as the mask. */
  method CastShadow(world: WorldMap, seed: Bitmap) returns (shadow: Bitmap)
    requires world.Valid() && IsSeed(world, seed)
    ensures shadow.Valid() && shadow.width == world.width && shadow.height == world.height
    ensures forall x: nat, y: nat | x < world.width && y < world.height :: shadow.At(x, y) == ShadowAt(world, x, y)
  {
    var dilated := Dilate(seed, false);
    DilatedMarksNear(world, seed, dilated);
    var eroded := Erode(dilated, false);
    ErodedMarksClosed(world, dilated, eroded);
    var shifted := Shift(eroded, 1, 1, 0);
    shadow := Mask(shifted, seed, 0, 0);
    forall x: nat, y: nat | x < world.width && y < world.height
      ensures shadow.At(x, y) == ShadowAt(world, x, y)
    {
      ShadowCell(world, seed, eroded, shifted, shadow, x, y);
    }
  }

  // ---------------------------------------------------------------------
  // The villager hand-off

  ghost function PhaseOf(v: Villager): Phase
    reads v
  {
    Phase(v.state, v.currentPathIndex, v.path)
  }

  /** The villager's tick leaves it waiting for a path: it was waiting
      already, or it reached the last tile of its path. */
  predicate AwaitsAfterTick(p: Phase, reached: bool) {
    p.state == AwaitingPath || (p.state == Moving && reached && p.index + 2 >= |p.path|)
  }

  /** The villager's fields after tickVillagers has handled it: its tick,
      then EnqueuedForPath in place of AwaitingPath. */
  function NextPhase(p: Phase, reached: bool): (q: Phase)
    ensures q.state == NextState(p, reached)
    ensures p.Valid() ==> q.Valid()
    ensures q.path == p.path || (q.path == [] && q.index == 0 && AwaitsAfterTick(p, reached))
    ensures SteppedOnto(p, reached).Some? && q.state == Moving ==> q.index == SteppedOnto(p, reached).value
    ensures p.Valid() && SteppedOnto(p, reached).None? ==> q.index == p.index && q.path == p.path
  {
    var s := NextState(p, reached);
    if p.state == PathProvided then Phase(s, 0, p.path)
    else if p.state == Moving && reached then
      if p.index + 2 < |p.path| then Phase(s, p.index + 1, p.path) else Phase(s, 0, [])
    else Phase(s, p.index, p.path)
  }

  /** The fold of TickStep over the first n villagers: entry i of each
      trace holds the grids and the rectangle before villager i's tick. */
  ghost predicate TickTrace(phases: seq<Phase>, reached: seq<bool>, adjustments: seq<int>, pavePaths: bool, n: nat,
                            worlds: seq<WorldMap>, costs: seq<CostMap>, stresses: seq<DesirePathsMap>, rects: seq<Rect>)
  {
    && n <= |phases| && n <= |reached| && n <= |adjustments|
    && |worlds| == n + 1 && |costs| == n + 1 && |stresses| == n + 1 && |rects| == n + 1
    && forall i | 0 <= i < n ::
         TickStep(phases[i], reached[i], pavePaths, adjustments[i], worlds[i], costs[i], stresses[i], rects[i],
                  worlds[i + 1], costs[i + 1], stresses[i + 1], rects[i + 1])
  }

  /** The state tickVillagers leaves a villager in. */
  function NextState(p: Phase, reached: bool): (s: State)
    ensures s != AwaitingPath
    ensures s == EnqueuedForPath <==> p.state == EnqueuedForPath || AwaitsAfterTick(p, reached)
    ensures s == Moving <==> p.state == PathProvided || (p.state == Moving && !AwaitsAfterTick(p, reached))
  {
    if AwaitsAfterTick(p, reached) then EnqueuedForPath
    else if p.state == PathProvided then Moving
    else p.state
  }

  /** The villagers among the first n that tickVillagers pushes, in order. */
  function Pushed(vs: seq<Villager>, phases: seq<Phase>, reached: seq<bool>, n: nat): seq<Villager>
    requires n <= |vs| && n <= |phases| && n <= |reached|
  {
    if n == 0 then []
    else Pushed(vs, phases, reached, n - 1) + (if AwaitsAfterTick(phases[n - 1], reached[n - 1]) then [vs[n - 1]] else [])
  }

  /** A villager is pushed exactly when its tick leaves it waiting. */
  lemma {:induction false} PushedMembers(vs: seq<Villager>, phases: seq<Phase>, reached: seq<bool>, n: nat, i: nat)
    requires n <= |vs| && n <= |phases| && n <= |reached| && Distinct(vs) && i < n
    ensures vs[i] in Pushed(vs, phases, reached, n) <==> AwaitsAfterTick(phases[i], reached[i])
  {
    if i < n - 1 {
      PushedMembers(vs, phases, reached, n - 1, i);
      assert vs[i] != vs[n - 1];
    } else {
      PushedOnlyFrom(vs, phases, reached, n - 1);
    }
  }

  /** Only villagers among the first n are pushed. */
  lemma {:induction false} PushedOnlyFrom(vs: seq<Villager>, phases: seq<Phase>, reached: seq<bool>, n: nat)
    requires n <= |vs| && n <= |phases| && n <= |reached|
    ensures forall v | v in Pushed(vs, phases, reached, n) :: v in vs[..n]
  {
    if n > 0 {
      PushedOnlyFrom(vs, phases, reached, n - 1);
      assert vs[..n] == vs[..n - 1] + [vs[n - 1]];
    }
  }

  /** No villager is pushed twice. */
  lemma {:induction false} PushedDistinct(vs: seq<Villager>, phases: seq<Phase>, reached: seq<bool>, n: nat)
    requires n <= |vs| && n <= |phases| && n <= |reached| && Distinct(vs)
    ensures Distinct(Pushed(vs, phases, reached, n))
  {
    if n > 0 {
      PushedDistinct(vs, phases, reached, n - 1);
      PushedOnlyFrom(vs, phases, reached, n - 1);
      var before := Pushed(vs, phases, reached, n - 1);
      if AwaitsAfterTick(phases[n - 1], reached[n - 1]) {
        forall v | v in before
          ensures v != vs[n - 1]
        {
          var k :| 0 <= k < n - 1 && vs[k] == v;
        }
        DistinctConcat(before, [vs[n - 1]]);
      }
    }
  }

  /** Whether a path lies on the world depends on the world's size only. */
  lemma OnWorldSameSize(a: WorldMap, b: WorldMap, path: seq<Cell>)
    requires a.width == b.width && a.height == b.height && OnWorld(a, path)
    ensures OnWorld(b, path)
  {
  }

  /** Every villager is in a consistent state and its path lies on the world. */
  ghost predicate VillagersOn(vs: seq<Villager>, world: WorldMap)
    reads vs
  {
    forall i | 0 <= i < |vs| :: vs[i].Valid() && OnWorld(world, vs[i].path)
  }

  lemma VillagersOnSameSize(vs: seq<Villager>, a: WorldMap, b: WorldMap)
    requires a.width == b.width && a.height == b.height && VillagersOn(vs, a)
    ensures VillagersOn(vs, b)
  {
    forall i | 0 <= i < |vs|
      ensures OnWorld(b, vs[i].path)
    {
      OnWorldSameSize(a, b, vs[i].path);
    }
  }

  /** One more villager's tick extends the trace. */
  lemma TickTraceSnoc(phases: seq<Phase>, reached: seq<bool>, adjustments: seq<int>, pavePaths: bool, n: nat,
                      worlds: seq<WorldMap>, costs: seq<CostMap>, stresses: seq<DesirePathsMap>, rects: seq<Rect>,
                      world: WorldMap, cost: CostMap, stress: DesirePathsMap, r: Rect)
    requires TickTrace(phases, reached, adjustments, pavePaths, n, worlds, costs, stresses, rects)
    requires n < |phases| && n < |reached| && n < |adjustments|
    requires TickStep(phases[n], reached[n], pavePaths, adjustments[n], worlds[n], costs[n], stresses[n], rects[n],
                      world, cost, stress, r)
    ensures TickTrace(phases, reached, adjustments, pavePaths, n + 1,
                      worlds + [world], costs + [cost], stresses + [stress], rects + [r])
  {
    var worlds', costs', stresses', rects' := worlds + [world], costs + [cost], stresses + [stress], rects + [r];
    forall i | 0 <= i < n + 1
      ensures TickStep(phases[i], reached[i], pavePaths, adjustments[i], worlds'[i], costs'[i], stresses'[i], rects'[i],
                       worlds'[i + 1], costs'[i + 1], stresses'[i + 1], rects'[i + 1])
    {
      assert worlds'[i] == worlds[i] && costs'[i] == costs[i] && stresses'[i] == stresses[i] && rects'[i] == rects[i];
      if i < n {
        assert worlds'[i + 1] == worlds[i + 1] && costs'[i + 1] == costs[i + 1];
        assert stresses'[i + 1] == stresses[i + 1] && rects'[i + 1] == rects[i + 1];
      }
    }
  }

  /** A villager's tick is deterministic: the phase and the grids before it
      fix the grids and the rectangle after it. */
  lemma TickStepUnique(p: Phase, reached: bool, pavePaths: bool, adjustment: int,
                       world: WorldMap, cost: CostMap, stress: DesirePathsMap, r: Rect,
                       world1: WorldMap, cost1: CostMap, stress1: DesirePathsMap, r1: Rect,
                       world2: WorldMap, cost2: CostMap, stress2: DesirePathsMap, r2: Rect)
    requires TickStep(p, reached, pavePaths, adjustment, world, cost, stress, r, world1, cost1, stress1, r1)
    requires TickStep(p, reached, pavePaths, adjustment, world, cost, stress, r, world2, cost2, stress2, r2)
    ensures world1 == world2 && cost1 == cost2 && stress1 == stress2 && r1 == r2
  {
    var k := SteppedOnto(p, reached);
    if k.Some? {
      var c := p.path[k.value];
      MovedOntoUnique(world, cost, stress, c.0, c.1, pavePaths, adjustment, world1, cost1, stress1, world2, cost2, stress2);
    }
  }

  /** The fold is a function of its start: two traces of the same villager
      phases, draws and grids end in the same grids and rectangle. */
  lemma {:induction false} TickTraceUnique(phases: seq<Phase>, reached: seq<bool>, adjustments: seq<int>, pavePaths: bool,
                                           n: nat,
                                           worlds1: seq<WorldMap>, costs1: seq<CostMap>, stresses1: seq<DesirePathsMap>, rects1: seq<Rect>,
                                           worlds2: seq<WorldMap>, costs2: seq<CostMap>, stresses2: seq<DesirePathsMap>, rects2: seq<Rect>)
    requires TickTrace(phases, reached, adjustments, pavePaths, n, worlds1, costs1, stresses1, rects1)
    requires TickTrace(phases, reached, adjustments, pavePaths, n, worlds2, costs2, stresses2, rects2)
    requires worlds1[0] == worlds2[0] && costs1[0] == costs2[0] && stresses1[0] == stresses2[0] && rects1[0] == rects2[0]
    ensures worlds1[n] == worlds2[n] && costs1[n] == costs2[n] && stresses1[n] == stresses2[n] && rects1[n] == rects2[n]
  {
    if n > 0 {
      TickTraceUnique(phases, reached, adjustments, pavePaths, n - 1,
                      worlds1[..n], costs1[..n], stresses1[..n], rects1[..n],
                      worlds2[..n], costs2[..n], stresses2[..n], rects2[..n]);
      var k := n - 1;
      TickStepUnique(phases[k], reached[k], pavePaths, adjustments[k],
                     worlds1[k], costs1[k], stresses1[k], rects1[k],
                     worlds1[k + 1], costs1[k + 1], stresses1[k + 1], rects1[k + 1],
                     worlds2[k + 1], costs2[k + 1], stresses2[k + 1], rects2[k + 1]);
    }
  }

  /** A frame in which no villager steps onto a tile (none has just been
      given a path, no moving one reaches its next tile) leaves the grids and
      the rectangle as they were. */
  lemma {:induction false} TickTraceIdle(phases: seq<Phase>, reached: seq<bool>, adjustments: seq<int>, pavePaths: bool,
                                         n: nat,
                                         worlds: seq<WorldMap>, costs: seq<CostMap>, stresses: seq<DesirePathsMap>, rects: seq<Rect>)
    requires TickTrace(phases, reached, adjustments, pavePaths, n, worlds, costs, stresses, rects)
    requires forall i | 0 <= i < n :: SteppedOnto(phases[i], reached[i]).None?
    ensures worlds[n] == worlds[0] && costs[n] == costs[0] && stresses[n] == stresses[0] && rects[n] == rects[0]
  {
    if n > 0 {
      TickTraceIdle(phases, reached, adjustments, pavePaths, n - 1, worlds[..n], costs[..n], stresses[..n], rects[..n]);
      assert SteppedOnto(phases[n - 1], reached[n - 1]).None?;
    }
  }

  /** After the loop, the villagers pushed are exactly those now marked
      EnqueuedForPath that were not marked so before the tick. */
  lemma PushedAreEnqueued(vs: seq<Villager>, phases: seq<Phase>, reached: seq<bool>)
    requires Distinct(vs) && TickedUpTo(vs, phases, reached, |vs|)
    ensures forall v | v in Pushed(vs, phases, reached, |vs|) :: v.state == EnqueuedForPath
    ensures forall i | 0 <= i < |vs| ::
      vs[i] in Pushed(vs, phases, reached, |vs|) <==> vs[i].state == EnqueuedForPath && phases[i].state != EnqueuedForPath
  {
    PushedOnlyFrom(vs, phases, reached, |vs|);
    assert vs[..|vs|] == vs;
    forall i | 0 <= i < |vs|
      ensures vs[i] in Pushed(vs, phases, reached, |vs|) <==> vs[i].state == EnqueuedForPath && phases[i].state != EnqueuedForPath
    {
      PushedMembers(vs, phases, reached, |vs|, i);
    }
  }

  /** After tickVillagers' loop has handled the first i villagers of vs:
      those have their next state, the others still the phase they had. */
  ghost predicate TickedUpTo(vs: seq<Villager>, phases: seq<Phase>, reached: seq<bool>, i: nat)
    reads vs
  {
    && |phases| == |vs| && |reached| == |vs| && i <= |vs|
    && (forall j | 0 <= j < i :: PhaseOf(vs[j]) == NextPhase(phases[j], reached[j]))
    && (forall j | i <= j < |vs| :: PhaseOf(vs[j]) == phases[j])
  }

  /** One villager's part of tickVillagers' loop body: its tick, then, when
      the tick left it waiting for a path, its hand-off as EnqueuedForPath.
      `waiting` says whether it was handed off. */
  method TickOne(villager: Villager, ghost p: Phase, reached: bool,
                 world: WorldMap, rect: UpdateRect, cost: CostMap, stress: DesirePathsMap,
                 pavePaths: bool, adjustment: int)
    returns (world': WorldMap, cost': CostMap, stress': DesirePathsMap, waiting: bool)
    requires PhaseOf(villager) == p && villager.Valid() && OnWorld(world, p.path)
    requires SameGrid(world, cost, stress) && 2 <= adjustment <= 6
    modifies villager, rect
    ensures PhaseOf(villager) == NextPhase(p, reached) && villager.Valid() && OnWorld(world', villager.path)
    ensures waiting <==> AwaitsAfterTick(p, reached)
    ensures SameGrid(world', cost', stress') && world'.width == world.width && world'.height == world.height
    ensures TickStep(p, reached, pavePaths, adjustment, world, cost, stress, old(rect.Bounds()),
                     world', cost', stress', rect.Bounds())
  {
    world', cost', stress' := villager.Tick(world, rect, cost, stress, pavePaths, adjustment, reached);
    waiting := villager.state == AwaitingPath;
    if waiting {
      villager.SetState(EnqueuedForPath);
    }
  }

  /** The body of tickVillagers' loop for villager i of vs: its tick, then,
      when the tick left it waiting, it is marked EnqueuedForPath and joins
      `pushed`, the villagers this frame puts on the queue. The other villagers are left alone. */
  method TickAndHandOff(vs: seq<Villager>, ghost phases: seq<Phase>, reached: seq<bool>, i: nat,
                        world: WorldMap, rect: UpdateRect, cost: CostMap, stress: DesirePathsMap,
                        pavePaths: bool, adjustment: int, pushed: seq<Villager>)
    returns (world': WorldMap, cost': CostMap, stress': DesirePathsMap, pushed': seq<Villager>)
    requires i < |vs| && Distinct(vs) && TickedUpTo(vs, phases, reached, i)
    requires VillagersOn(vs, world) && SameGrid(world, cost, stress) && 2 <= adjustment <= 6
    requires pushed == Pushed(vs, phases, reached, i)
    modifies vs[i], rect
    ensures TickedUpTo(vs, phases, reached, i + 1) && VillagersOn(vs, world')
    ensures SameGrid(world', cost', stress') && world'.width == world.width && world'.height == world.height
    ensures pushed' == Pushed(vs, phases, reached, i + 1)
    ensures TickStep(phases[i], reached[i], pavePaths, adjustment, world, cost, stress, old(rect.Bounds()),
                     world', cost', stress', rect.Bounds())
  {
    var villager := vs[i];
    assert PhaseOf(villager) == phases[i] && villager.Valid() && OnWorld(world, villager.path);
    var waiting;
    world', cost', stress', waiting :=
      TickOne(villager, phases[i], reached[i], world, rect, cost, stress, pavePaths, adjustment);
    pushed' := if waiting then pushed + [villager] else pushed;
    forall j | 0 <= j < |vs| && j != i
      ensures unchanged(vs[j]) && PhaseOf(vs[j]) == old(PhaseOf(vs[j]))
    {
      assert vs[j] != vs[i];
    }
    assert TickedUpTo(vs, phases, reached, i + 1);
    VillagersOnSameSize(vs, world, world');
  }

  /** tickVillagers: tick every villager of vs in order (phases are their
      phases before the loop, reached[i] is whether villager i's movement
      this frame covers the distance to its next tile, adjustments[i] its
      stress draw), and push each one the tick left waiting for a path,
      marked EnqueuedForPath, onto the queue. */
  method TickVillagers(vs: seq<Villager>, ghost phases: seq<Phase>, queue: seq<Villager>,
                       world: WorldMap, rect: UpdateRect, cost: CostMap, stress: DesirePathsMap,
                       pavePaths: bool, reached: seq<bool>, adjustments: seq<int>)
    returns (world': WorldMap, cost': CostMap, stress': DesirePathsMap, queue': seq<Villager>,
             ghost worlds: seq<WorldMap>, ghost costs: seq<CostMap>, ghost stresses: seq<DesirePathsMap>, ghost rects: seq<Rect>)
    requires SameGrid(world, cost, stress) && Distinct(vs) && VillagersOn(vs, world)
    requires TickedUpTo(vs, phases, reached, 0) && |adjustments| == |vs|
    requires forall i | 0 <= i < |adjustments| :: 2 <= adjustments[i] <= 6
    modifies vs, rect
    ensures SameGrid(world', cost', stress') && world'.width == world.width && world'.height == world.height
    ensures VillagersOn(vs, world') && TickedUpTo(vs, phases, reached, |vs|)
    ensures queue' == queue + Pushed(vs, phases, reached, |vs|)
    ensures TickTrace(phases, reached, adjustments, pavePaths, |vs|, worlds, costs, stresses, rects)
    ensures worlds[0] == world && costs[0] == cost && stresses[0] == stress && rects[0] == old(rect.Bounds())
    ensures worlds[|vs|] == world' && costs[|vs|] == cost' && stresses[|vs|] == stress' && rects[|vs|] == rect.Bounds()
  {
    world', cost', stress' := world, cost, stress;
    worlds, costs, stresses, rects := [world], [cost], [stress], [rect.Bounds()];
    var pushed := [];
    var i := 0;
    while i < |vs|
      invariant i <= |vs|
      invariant SameGrid(world', cost', stress') && world'.width == world.width && world'.height == world.height
      invariant VillagersOn(vs, world') && TickedUpTo(vs, phases, reached, i)
      invariant pushed == Pushed(vs, phases, reached, i)
      invariant TickTrace(phases, reached, adjustments, pavePaths, i, worlds, costs, stresses, rects)
      invariant worlds[0] == world && costs[0] == cost && stresses[0] == stress && rects[0] == old(rect.Bounds())
      invariant worlds[i] == world' && costs[i] == cost' && stresses[i] == stress' && rects[i] == rect.Bounds()
    {
      world', cost', stress', pushed :=
        TickAndHandOff(vs, phases, reached, i, world', rect, cost', stress', pavePaths, adjustments[i], pushed);
      TickTraceSnoc(phases, reached, adjustments, pavePaths, i, worlds, costs, stresses, rects,
                    world', cost', stress', rect.Bounds());
      worlds, costs, stresses, rects := worlds + [world'], costs + [cost'], stresses + [stress'], rects + [rect.Bounds()];
      i := i + 1;
    }
    queue' := queue + pushed;
  }

  /** The constructor's last loop: every villager of vs is marked
      EnqueuedForPath and pushed onto the queue, in order. */
  method EnqueueAll(vs: seq<Villager>, queue: seq<Villager>) returns (queue': seq<Villager>)
    modifies vs
    ensures queue' == queue + vs
    ensures forall i | 0 <= i < |vs| ::
      vs[i].state == EnqueuedForPath && vs[i].path == old(vs[i].path) && vs[i].currentPathIndex == old(vs[i].currentPathIndex)
  {
    queue' := queue;
    var i := 0;
    while i < |vs|
      invariant i <= |vs| && queue' == queue + vs[..i]
      invariant forall j | 0 <= j < |vs| ::
        vs[j].path == old(vs[j].path) && vs[j].currentPathIndex == old(vs[j].currentPathIndex)
      invariant forall j | 0 <= j < i :: vs[j].state == EnqueuedForPath
    {
      vs[i].SetState(EnqueuedForPath);
      queue' := queue' + [vs[i]];
      PrefixSnoc(vs, i);
      i := i + 1;
    }
  }

  // ---------------------------------------------------------------------
  // The simulation

  /** The grids DesirePathSim owns. */
  class DesirePathSim {
    var worldMap: WorldMap
    var baseCostMap: CostMap
    var desirePathsMap: DesirePathsMap
    var shadowBitmap: Bitmap

    /** The grids share the world's size. */
    ghost predicate Valid()
      reads this
    {
      && SameGrid(worldMap, baseCostMap, desirePathsMap)
      && shadowBitmap.Valid() && shadowBitmap.width == worldMap.width && shadowBitmap.height == worldMap.height
    }

    /** updateBaseCostMap: every cell of the cost map gets the base cost of
        its tile; grassDraw(x, y) is the number the generator draws for a
        grass tile at (x, y). */
    method UpdateBaseCostMap(grassDraw: (nat, nat) -> uint8)
      requires Valid()
      requires forall x: nat, y: nat :: IsGrassDraw(grassDraw(x, y) as int)
      modifies this
      ensures Valid() && worldMap == old(worldMap) && desirePathsMap == old(desirePathsMap)
      ensures shadowBitmap == old(shadowBitmap)
      ensures forall x: nat, y: nat | x < worldMap.width && y < worldMap.height ::
        baseCostMap.At(x, y) == BaseCostForValue(worldMap.At(x, y), grassDraw(x, y))
      ensures forall x: nat, y: nat | x < worldMap.width && y < worldMap.height ::
        IsBaseCost(worldMap.At(x, y), baseCostMap.At(x, y))
    {
      // The loops write a copy of the cost map; the field takes it at the end.
      var world, cost := worldMap, baseCostMap;
      var y := 0;
      while y < world.height
        invariant y <= world.height
        invariant cost.Valid() && cost.width == world.width && cost.height == world.height
        invariant forall i: nat, j: nat | i < world.width && j < y ::
          cost.At(i, j) == BaseCostForValue(world.At(i, j), grassDraw(i, j))
      {
        var x := 0;
        while x < world.width
          invariant x <= world.width
          invariant cost.Valid() && cost.width == world.width && cost.height == world.height
          invariant forall i: nat, j: nat | i < world.width && j < y ::
            cost.At(i, j) == BaseCostForValue(world.At(i, j), grassDraw(i, j))
          invariant forall i: nat | i < x :: cost.At(i, y) == BaseCostForValue(world.At(i, y), grassDraw(i, y))
        {
          cost := cost.Set(x, y, BaseCostForValue(world.At(x, y), grassDraw(x, y)));
          x := x + 1;
        }
        y := y + 1;
      }
      forall x: nat, y: nat | x < world.width && y < world.height
        ensures IsBaseCost(world.At(x, y), cost.At(x, y))
      {
        assert BaseCostForValue(world.At(x, y), grassDraw(x, y)) == cost.At(x, y);
      }
      baseCostMap := cost;
    }

    /** updateShadowBitmap: seed the bitmap with the buildings and trees,
        then replace it with the shadow the seed casts. */
    method UpdateShadowBitmap()
      requires Valid()
      modifies this
      ensures Valid() && worldMap == old(worldMap) && baseCostMap == old(baseCostMap) && desirePathsMap == old(desirePathsMap)
      ensures forall x: nat, y: nat | x < worldMap.width && y < worldMap.height ::
        shadowBitmap.At(x, y) == ShadowAt(worldMap, x, y)
    {
      shadowBitmap := SeedShadow(worldMap, shadowBitmap);
      shadowBitmap := CastShadow(worldMap, shadowBitmap);
    }
  }
}
