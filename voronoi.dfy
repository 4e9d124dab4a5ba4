/** The Voronoi partition of src/Voronoi.hpp: centroids, nearest-centroid
    labelling and in-place subdivision of one region. Distances are
    floating point in the source; here a distance function is any total
    function to the reals, and the random number generator is a sequence of
    raw draws that the model consumes in order. */
module Voronoi {
  import opened Util
  import opened Maps

  datatype Centroid = Centroid(x: int, y: int)

  /** Map<std::size_t>: each cell holds the index of the centroid it belongs to. */
  type VoronoiMap = Map<nat>

  /** The distance callback: (aX, aY, bX, bY) to a distance. */
  type Distance = (int, int, int, int) -> real

  /** std::numeric_limits<float>::max(), the running minimum's start value. */
  const FloatMax: real := 340282346638528859811704183484516925440.0

  function Abs(v: int): nat {
    if v < 0 then -v else v
  }

  /** distanceChebyshev: the larger of the two axis distances. */
  function DistanceChebyshev(aX: int, aY: int, bX: int, bY: int): (d: nat)
    ensures d >= Abs(aX - bX) && d >= Abs(aY - bY)
    ensures d == Abs(aX - bX) || d == Abs(aY - bY)
  {
    Max(Abs(aX - bX), Abs(aY - bY))
  }

  /** Chebyshev distance is a metric. */
  lemma ChebyshevIsMetric(aX: int, aY: int, bX: int, bY: int, cX: int, cY: int)
    ensures DistanceChebyshev(aX, aY, bX, bY) == DistanceChebyshev(bX, bY, aX, aY)
    ensures DistanceChebyshev(aX, aY, bX, bY) == 0 <==> aX == bX && aY == bY
    ensures DistanceChebyshev(aX, aY, cX, cY) <= DistanceChebyshev(aX, aY, bX, bY) + DistanceChebyshev(bX, bY, cX, cY)
  {
  }

  /** The distance from (x, y) to each centroid, in list order. */
  function Distances(x: int, y: int, cs: seq<Centroid>, distance: Distance): (ds: seq<real>)
    ensures |ds| == |cs|
    ensures forall i | 0 <= i < |cs| :: ds[i] == distance(x, y, cs[i].x, cs[i].y)
  {
    seq(|cs|, i requires 0 <= i < |cs| => distance(x, y, cs[i].x, cs[i].y))
  }

  /** idx is the first index of a smallest value among ds[..n]. */
  ghost predicate FirstMinimum(ds: seq<real>, n: nat, idx: nat)
    requires n <= |ds|
  {
    && idx < n
    && (forall j | 0 <= j < n :: ds[idx] <= ds[j])
    && (forall j | 0 <= j < idx :: ds[idx] < ds[j])
  }

  ghost predicate SomeBelowFloatMax(ds: seq<real>, n: nat)
    requires n <= |ds|
  {
    exists j | 0 <= j < n :: ds[j] < FloatMax
  }

  /** What getShortestDistanceCentroidIndex returns for distances ds: the
      first index of the smallest distance (strict `<` keeps the earliest
      of equal distances), or 0 when no distance is below the start value,
      in particular for an empty list. */
  ghost predicate IsShortestDistanceIndex(ds: seq<real>, idx: nat) {
    if SomeBelowFloatMax(ds, |ds|) then FirstMinimum(ds, |ds|, idx) else idx == 0
  }

  /** The answer is unique, and an index into a non-empty list. */
  lemma ShortestDistanceIndexUnique(ds: seq<real>, i1: nat, i2: nat)
    requires IsShortestDistanceIndex(ds, i1) && IsShortestDistanceIndex(ds, i2)
    ensures i1 == i2
    ensures ds != [] ==> i1 < |ds|
  {
    if SomeBelowFloatMax(ds, |ds|) {
      assert ds[i1] <= ds[i2] && ds[i2] <= ds[i1];
    }
  }

  /** getShortestDistanceCentroidIndex: a running minimum over the list. */
  method ShortestDistanceCentroidIndex(voronoiX: int, voronoiY: int, cs: seq<Centroid>, distance: Distance) returns (idx: nat)
    ensures IsShortestDistanceIndex(Distances(voronoiX, voronoiY, cs, distance), idx)
    ensures cs == [] ==> idx == 0
    ensures cs != [] ==> idx < |cs|
  {
    ghost var ds := Distances(voronoiX, voronoiY, cs, distance);
    var shortestDistance := FloatMax;
    idx := 0;
    var index := 0;
    while index < |cs|
      invariant index <= |cs|
      invariant SomeBelowFloatMax(ds, index) ==> FirstMinimum(ds, index, idx) && shortestDistance == ds[idx]
      invariant !SomeBelowFloatMax(ds, index) ==> idx == 0 && shortestDistance == FloatMax
      invariant forall j | 0 <= j < index :: shortestDistance <= ds[j]
    {
      var d := distance(voronoiX, voronoiY, cs[index].x, cs[index].y);
      if d < shortestDistance {
        shortestDistance := d;
        idx := index;
      }
      index := index + 1;
    }
  }

  // ---------------------------------------------------------------------
  // generateCentroids

  /** std::uniform_int_distribution<>{lo, lo + size - 1}: the model maps a
      raw draw into the range. */
  function Uniform(lo: int, size: nat, raw: int): (v: int)
    requires size >= 1
    ensures lo <= v < lo + size
  {
    lo + raw % size
  }

  function SquaredDistance(a: Centroid, b: Centroid): nat {
    (a.x - b.x) * (a.x - b.x) + (a.y - b.y) * (a.y - b.y)
  }

  /** minDistance = (width + height) / (count * 1.5). */
  function MinDistance(width: int, height: int, count: nat): real
    requires count >= 1
  {
    (width + height) as real / (count as real * 1.5)
  }

  /** The Euclidean distance sqrt(d2) is at least minDistance. */
  predicate FarEnough(d2: nat, minDistance: real) {
    minDistance <= 0.0 || d2 as real >= minDistance * minDistance
  }

  /** What an accepted batch promises: count centroids inside the area, each
      satisfying the predicate and each at least minDistance away from every
      earlier one. */
  ghost predicate IsCentroidBatch(cs: seq<Centroid>, left: int, top: int, width: int, height: int, count: nat,
                                  pred: (int, int) -> bool)
  {
    && |cs| == count
    && (forall i | 0 <= i < |cs| :: left <= cs[i].x < left + width && top <= cs[i].y < top + height)
    && (forall i | 0 <= i < |cs| :: pred(cs[i].x, cs[i].y))
    && (forall i, j | 0 <= j < i < |cs| :: FarEnough(SquaredDistance(cs[i], cs[j]), MinDistance(width, height, count)))
  }

  /** generateCentroids: for each of the count centroids, draw positions
      until one satisfies the predicate and is far enough from the earlier
      ones. The source draws forever; here the draws are a finite sequence
      and running out of them, and only that, yields None. `rest` is what
      was not used. */
  method GenerateCentroids(left: int, top: int, width: int, height: int, count: nat,
                           draws: seq<(int, int)>, pred: (int, int) -> bool)
    returns (r: Option<seq<Centroid>>, rest: seq<(int, int)>)
    requires width >= 1 && height >= 1
    ensures r.Some? ==> IsCentroidBatch(r.value, left, top, width, height, count, pred)
    ensures r.None? ==> rest == []
    ensures |rest| <= |draws|
  {
    if count == 0 {
      return Some([]), draws;
    }
    var minDistance := MinDistance(width, height, count);
    var centroidList: seq<Centroid> := [];
    rest := draws;
    var counter := 1;
    while counter <= count
      invariant 1 <= counter <= count + 1 && |centroidList| == counter - 1
      invariant |rest| <= |draws|
      invariant forall i | 0 <= i < |centroidList| ::
        left <= centroidList[i].x < left + width && top <= centroidList[i].y < top + height
      invariant forall i | 0 <= i < |centroidList| :: pred(centroidList[i].x, centroidList[i].y)
      invariant forall i, j | 0 <= j < i < |centroidList| :: FarEnough(SquaredDistance(centroidList[i], centroidList[j]), minDistance)
    {
      var accepted := false;
      var c := Centroid(0, 0);
      while !accepted
        invariant |rest| <= |draws|
        invariant accepted ==> left <= c.x < left + width && top <= c.y < top + height && pred(c.x, c.y)
        invariant accepted ==> forall j | 0 <= j < |centroidList| :: FarEnough(SquaredDistance(c, centroidList[j]), minDistance)
        decreases |rest|, if accepted then 0 else 1
      {
        if rest == [] {
          return None, rest;
        }
        c := Centroid(Uniform(left, width, rest[0].0), Uniform(top, height, rest[0].1));
        rest := rest[1..];
        // The smallest squared distance to an earlier centroid, if any.
        var minDistanceToOthers: Option<nat> := None;
        var k := 0;
        while k < |centroidList|
          invariant k <= |centroidList|
          invariant minDistanceToOthers.None? <==> k == 0
          invariant minDistanceToOthers.Some? ==>
            (forall j | 0 <= j < k :: minDistanceToOthers.value <= SquaredDistance(c, centroidList[j]))
            && exists j | 0 <= j < k :: minDistanceToOthers.value == SquaredDistance(c, centroidList[j])
        {
          var d2 := SquaredDistance(c, centroidList[k]);
          if minDistanceToOthers.None? || d2 < minDistanceToOthers.value {
            minDistanceToOthers := Some(d2);
          }
          k := k + 1;
        }
        accepted := pred(c.x, c.y) && (minDistanceToOthers.None? || FarEnough(minDistanceToOthers.value, minDistance));
        if accepted && minDistanceToOthers.Some? {
          forall j | 0 <= j < |centroidList|
            ensures FarEnough(SquaredDistance(c, centroidList[j]), minDistance)
          {
            assert minDistanceToOthers.value <= SquaredDistance(c, centroidList[j]);
          }
        }
      }
      centroidList := centroidList + [c];
      counter := counter + 1;
    }
    r := Some(centroidList);
  }

  // ---------------------------------------------------------------------
  // subdivide

  ghost predicate Owns(m: VoronoiMap, id: nat, x: int, y: int)
    requires m.Valid()
  {
    m.InBounds(x, y) && m.At(x, y) == id
  }

  ghost predicate OwnsSome(m: VoronoiMap, id: nat)
    requires m.Valid()
  {
    exists x: nat, y: nat :: Owns(m, id, x, y)
  }

  /** [left, right] x [top, bottom] is the smallest box holding every cell
      of region id. */
  ghost predicate IsBoundingBox(m: VoronoiMap, id: nat, left: nat, top: nat, right: nat, bottom: nat)
    requires m.Valid()
  {
    && left <= right < m.width && top <= bottom < m.height
    && (forall x: nat, y: nat | Owns(m, id, x, y) :: left <= x <= right && top <= y <= bottom)
    && (exists y: nat :: Owns(m, id, left, y))
    && (exists y: nat :: Owns(m, id, right, y))
    && (exists x: nat :: Owns(m, id, x, top))
    && (exists x: nat :: Owns(m, id, x, bottom))
  }

  /** The state of the bounding-box scan: whether a cell of the region was
      seen, the box so far, and (ghost) a region cell on each side. */
  datatype BoxScan = BoxScan(found: bool, left: nat, top: nat, right: nat, bottom: nat,
                             leftY: nat, rightY: nat, topX: nat, bottomX: nat)

  /** After scanning every cell before (vx, vy) in row-major order, the box
      is the bounding box of the region cells seen, or the initial
      (SIZE_MAX, SIZE_MAX, 0, 0) when none was seen. */
  ghost predicate ScannedBefore(m: VoronoiMap, id: nat, vx: nat, vy: nat, b: BoxScan)
    requires m.Valid()
  {
    && (!b.found <==> forall x: nat, y: nat | Owns(m, id, x, y) :: !RowMajorBefore(x, y, vx, vy))
    && (!b.found ==> b.left == b.top == SizeModulus - 1 && b.right == b.bottom == 0)
    && (b.found ==> && b.left <= b.right < m.width && b.top <= b.bottom < m.height
                    && Owns(m, id, b.left, b.leftY) && Owns(m, id, b.right, b.rightY)
                    && Owns(m, id, b.topX, b.top) && Owns(m, id, b.bottomX, b.bottom))
    && (forall x: nat, y: nat | Owns(m, id, x, y) && RowMajorBefore(x, y, vx, vy) ::
          b.left <= x <= b.right && b.top <= y <= b.bottom)
  }

  /** The scan widens the box to take in a region cell at (x, y). */
  function Widen(b: BoxScan, x: nat, y: nat): (b': BoxScan)
    ensures b'.found
    ensures b'.left <= x <= b'.right && b'.top <= y <= b'.bottom
  {
    var left := if x < b.left then x else b.left;
    var right := if x > b.right then x else b.right;
    var top := if y < b.top then y else b.top;
    var bottom := if y > b.bottom then y else b.bottom;
    BoxScan(true, left, top, right, bottom,
            if left == x then y else b.leftY, if right == x then y else b.rightY,
            if top == y then x else b.topX, if bottom == y then x else b.bottomX)
  }

  lemma ScanStep(m: VoronoiMap, id: nat, vx: nat, vy: nat, b: BoxScan)
    requires m.Valid() && m.width < SizeModulus && m.height < SizeModulus
    requires vx < m.width && vy < m.height && ScannedBefore(m, id, vx, vy, b)
    ensures ScannedBefore(m, id, vx + 1, vy, if m.At(vx, vy) == id then Widen(b, vx, vy) else b)
  {
    if m.At(vx, vy) == id {
      assert Owns(m, id, vx, vy);
    } else {
      forall x: nat, y: nat | Owns(m, id, x, y) && RowMajorBefore(x, y, vx + 1, vy)
        ensures RowMajorBefore(x, y, vx, vy)
      {
      }
    }
  }

  lemma ScanRowDone(m: VoronoiMap, id: nat, vy: nat, b: BoxScan)
    requires m.Valid() && ScannedBefore(m, id, m.width, vy, b)
    ensures ScannedBefore(m, id, 0, vy + 1, b)
  {
  }

  /** The bounding-box scan of subdivide. It starts from (SIZE_MAX,
      SIZE_MAX, 0, 0), so a region without cells keeps those values. */
  method BoundingBox(m: VoronoiMap, id: nat) returns (topLeftX: nat, topLeftY: nat, bottomRightX: nat, bottomRightY: nat)
    requires m.Valid() && m.width < SizeModulus && m.height < SizeModulus
    ensures OwnsSome(m, id) ==> IsBoundingBox(m, id, topLeftX, topLeftY, bottomRightX, bottomRightY)
    ensures !OwnsSome(m, id) ==> topLeftX == topLeftY == SizeModulus - 1 && bottomRightX == bottomRightY == 0
  {
    topLeftX, topLeftY := SizeModulus - 1, SizeModulus - 1;
    bottomRightX, bottomRightY := 0, 0;
    ghost var scan := BoxScan(false, topLeftX, topLeftY, bottomRightX, bottomRightY, 0, 0, 0, 0);
    var voronoiY := 0;
    while voronoiY < m.height
      invariant voronoiY <= m.height
      invariant ScannedBefore(m, id, 0, voronoiY, scan)
      invariant scan.left == topLeftX && scan.top == topLeftY && scan.right == bottomRightX && scan.bottom == bottomRightY
    {
      var voronoiX := 0;
      while voronoiX < m.width
        invariant voronoiX <= m.width
        invariant ScannedBefore(m, id, voronoiX, voronoiY, scan)
        invariant scan.left == topLeftX && scan.top == topLeftY && scan.right == bottomRightX && scan.bottom == bottomRightY
      {
        ScanStep(m, id, voronoiX, voronoiY, scan);
        ghost var next := if m.At(voronoiX, voronoiY) == id then Widen(scan, voronoiX, voronoiY) else scan;
        if m.At(voronoiX, voronoiY) == id {
          topLeftX := if voronoiX < topLeftX then voronoiX else topLeftX;
          bottomRightX := if voronoiX > bottomRightX then voronoiX else bottomRightX;
          topLeftY := if voronoiY < topLeftY then voronoiY else topLeftY;
          bottomRightY := if voronoiY > bottomRightY then voronoiY else bottomRightY;
        }
        scan := next;
        voronoiX := voronoiX + 1;
      }
      ScanRowDone(m, id, voronoiY, scan);
      voronoiY := voronoiY + 1;
    }
    ScanDone(m, id, scan);
  }

  lemma ScanDone(m: VoronoiMap, id: nat, b: BoxScan)
    requires m.Valid() && ScannedBefore(m, id, 0, m.height, b)
    ensures OwnsSome(m, id) ==> IsBoundingBox(m, id, b.left, b.top, b.right, b.bottom)
    ensures !OwnsSome(m, id) ==> !b.found
  {
    if OwnsSome(m, id) {
      var x: nat, y: nat :| Owns(m, id, x, y);
      assert RowMajorBefore(x, y, 0, m.height);
    }
  }

  /** innerVoronoiMapWidth = bottomRightX - topLeftX + 1 in std::size_t
      arithmetic. */
  function InnerExtent(topLeft: nat, bottomRight: nat): nat {
    (bottomRight - topLeft + 1) % SizeModulus
  }

  /** For a region without cells the scan's (SIZE_MAX, 0) wraps to an inner
      map two cells wide whose left edge, converted to int, is -1: outside
      every map. */
  lemma EmptyRegionBoxWraps()
    ensures InnerExtent(SizeModulus - 1, 0) == 2
    ensures (SizeModulus - 1) - SizeModulus == -1
  {
  }

  /** The label subdivide gives a cell of the region: the new start index
      plus the nearest of the new centroids. */
  ghost predicate IsSubdivisionLabel(newCentroids: seq<Centroid>, newStart: nat, distance: Distance, x: nat, y: nat, cellId: nat) {
    cellId >= newStart && IsShortestDistanceIndex(Distances(x, y, newCentroids, distance), cellId - newStart)
  }

  /** The inner map: for every cell of the box, the nearest new centroid. */
  method InnerMap(left: nat, top: nat, width: nat, height: nat, newCentroids: seq<Centroid>, distance: Distance)
    returns (inner: VoronoiMap)
    ensures inner.Valid() && inner.width == width && inner.height == height
    ensures forall x: nat, y: nat | x < width && y < height ::
      IsShortestDistanceIndex(Distances(left + x, top + y, newCentroids, distance), inner.At(x, y))
  {
    inner := Create(width, height, 0);
    var innerY := 0;
    while innerY < height
      invariant innerY <= height
      invariant inner.Valid() && inner.width == width && inner.height == height
      invariant forall x: nat, y: nat | x < width && y < innerY ::
        IsShortestDistanceIndex(Distances(left + x, top + y, newCentroids, distance), inner.At(x, y))
    {
      var innerX := 0;
      while innerX < width
        invariant innerX <= width
        invariant inner.Valid() && inner.width == width && inner.height == height
        invariant forall x: nat, y: nat | x < width && y < innerY ::
          IsShortestDistanceIndex(Distances(left + x, top + y, newCentroids, distance), inner.At(x, y))
        invariant forall x: nat | x < innerX ::
          IsShortestDistanceIndex(Distances(left + x, top + innerY, newCentroids, distance), inner.At(x, innerY))
      {
        var idx := ShortestDistanceCentroidIndex(left + innerX, top + innerY, newCentroids, distance);
        inner := inner.Set(innerX, innerY, idx);
        innerX := innerX + 1;
      }
      innerY := innerY + 1;
    }
  }

  /** The "combine inner with outer" loops: within the box, a cell of the
      region takes its inner-map entry plus the new start index; every other
      cell keeps its id. */
  method CombineInnerWithOuter(m: VoronoiMap, id: nat, topLeftX: nat, topLeftY: nat, bottomRightX: nat, bottomRightY: nat,
                               inner: VoronoiMap, newCentroidStartIndex: nat) returns (m': VoronoiMap)
    requires m.Valid() && inner.Valid()
    requires topLeftX <= bottomRightX < m.width && topLeftY <= bottomRightY < m.height
    requires inner.width == bottomRightX - topLeftX + 1 && inner.height == bottomRightY - topLeftY + 1
    ensures m'.Valid() && m'.width == m.width && m'.height == m.height
    ensures forall x: nat, y: nat | x < m.width && y < m.height ::
      m'.At(x, y) == if m.At(x, y) == id && topLeftX <= x <= bottomRightX && topLeftY <= y <= bottomRightY
                     then inner.At(x - topLeftX, y - topLeftY) + newCentroidStartIndex else m.At(x, y)
  {
    m' := m;
    var innerY := 0;
    while innerY < inner.height
      invariant innerY <= inner.height
      invariant m'.Valid() && m'.width == m.width && m'.height == m.height
      invariant forall x: nat, y: nat | x < m.width && y < m.height ::
        m'.At(x, y) == if m.At(x, y) == id && topLeftX <= x <= bottomRightX && topLeftY <= y < topLeftY + innerY
                       then inner.At(x - topLeftX, y - topLeftY) + newCentroidStartIndex else m.At(x, y)
    {
      var innerX := 0;
      while innerX < inner.width
        invariant innerX <= inner.width
        invariant m'.Valid() && m'.width == m.width && m'.height == m.height
        invariant forall x: nat, y: nat | x < m.width && y < m.height ::
          m'.At(x, y) == if m.At(x, y) == id && topLeftX <= x <= bottomRightX
                            && (topLeftY <= y < topLeftY + innerY || (y == topLeftY + innerY && x < topLeftX + innerX))
                         then inner.At(x - topLeftX, y - topLeftY) + newCentroidStartIndex else m.At(x, y)
      {
        var outerVoronoiX := topLeftX + innerX;
        var outerVoronoiY := topLeftY + innerY;
        if m'.At(outerVoronoiX, outerVoronoiY) == id {
          m' := m'.Set(outerVoronoiX, outerVoronoiY, inner.At(innerX, innerY) + newCentroidStartIndex);
        }
        innerX := innerX + 1;
      }
      innerY := innerY + 1;
    }
  }

  /** One cell of the region ends up with the new start index plus its
      nearest new centroid, which is one of the new ids. */
  lemma SubdivisionLabelAt(x: nat, y: nat, topLeftX: nat, topLeftY: nat, inner: VoronoiMap, cellId: nat,
                           newCentroids: seq<Centroid>, newStart: nat, distance: Distance)
    requires inner.Valid() && topLeftX <= x < topLeftX + inner.width && topLeftY <= y < topLeftY + inner.height
    requires IsShortestDistanceIndex(Distances(topLeftX + (x - topLeftX), topLeftY + (y - topLeftY), newCentroids, distance),
                                     inner.At(x - topLeftX, y - topLeftY))
    requires cellId == inner.At(x - topLeftX, y - topLeftY) + newStart
    ensures IsSubdivisionLabel(newCentroids, newStart, distance, x, y, cellId)
    ensures |newCentroids| >= 1 ==> newStart <= cellId < newStart + |newCentroids|
  {
    var k := inner.At(x - topLeftX, y - topLeftY);
    assert topLeftX + (x - topLeftX) == x && topLeftY + (y - topLeftY) == y;
    ShortestDistanceIndexUnique(Distances(x, y, newCentroids, distance), k, k);
  }

  /** Every cell of the region ends up with the new start index plus its
      nearest new centroid, which is one of the new ids. */
  lemma SubdivisionLabels(m: VoronoiMap, id: nat, topLeftX: nat, topLeftY: nat, bottomRightX: nat, bottomRightY: nat,
                          inner: VoronoiMap, m': VoronoiMap, newCentroids: seq<Centroid>, newStart: nat, distance: Distance)
    requires m.Valid() && inner.Valid() && m'.Valid() && m'.width == m.width && m'.height == m.height
    requires forall x: nat, y: nat | Owns(m, id, x, y) :: topLeftX <= x <= bottomRightX && topLeftY <= y <= bottomRightY
    requires inner.width == bottomRightX - topLeftX + 1 && inner.height == bottomRightY - topLeftY + 1
    requires forall x: nat, y: nat | x < inner.width && y < inner.height ::
      IsShortestDistanceIndex(Distances(topLeftX + x, topLeftY + y, newCentroids, distance), inner.At(x, y))
    requires forall x: nat, y: nat | x < m.width && y < m.height ::
      m'.At(x, y) == if m.At(x, y) == id && topLeftX <= x <= bottomRightX && topLeftY <= y <= bottomRightY
                     then inner.At(x - topLeftX, y - topLeftY) + newStart else m.At(x, y)
    ensures forall x: nat, y: nat | Owns(m, id, x, y) :: IsSubdivisionLabel(newCentroids, newStart, distance, x, y, m'.At(x, y))
    ensures |newCentroids| >= 1 ==>
      forall x: nat, y: nat | Owns(m, id, x, y) :: newStart <= m'.At(x, y) < newStart + |newCentroids|
  {
    forall x: nat, y: nat | Owns(m, id, x, y)
      ensures IsSubdivisionLabel(newCentroids, newStart, distance, x, y, m'.At(x, y))
      ensures |newCentroids| >= 1 ==> newStart <= m'.At(x, y) < newStart + |newCentroids|
    {
      assert topLeftX <= x <= bottomRightX && topLeftY <= y <= bottomRightY;
      SubdivisionLabelAt(x, y, topLeftX, topLeftY, inner, m'.At(x, y), newCentroids, newStart, distance);
    }
  }

  /** The predicate handed to generateCentroids: inside the box and
      owned by the region. */
  function RegionPredicate(m: VoronoiMap, id: nat, left: nat, top: nat, right: nat, bottom: nat): (int, int) -> bool
    requires m.Valid() && right < m.width && bottom < m.height
  {
    (kiX: int, kiY: int) => left <= kiX <= right && top <= kiY <= bottom && m.At(kiX, kiY) == id
  }

  lemma RegionPredicateOwns(m: VoronoiMap, id: nat, left: nat, top: nat, right: nat, bottom: nat, x: int, y: int)
    requires m.Valid() && right < m.width && bottom < m.height
    ensures RegionPredicate(m, id, left, top, right, bottom)(x, y) <==> left <= x <= right && top <= y <= bottom && Owns(m, id, x, y)
  {
  }

  /** Centroids drawn inside the region, appended to cs, sit on region
      cells; cs itself is the prefix. */
  lemma AppendedCentroidsOwned(m: VoronoiMap, id: nat, left: nat, top: nat, right: nat, bottom: nat,
                               cs: seq<Centroid>, newCentroids: seq<Centroid>)
    requires m.Valid() && right < m.width && bottom < m.height
    requires forall i | 0 <= i < |newCentroids| :: RegionPredicate(m, id, left, top, right, bottom)(newCentroids[i].x, newCentroids[i].y)
    ensures (cs + newCentroids)[..|cs|] == cs && (cs + newCentroids)[|cs|..] == newCentroids
    ensures forall i | |cs| <= i < |cs + newCentroids| :: Owns(m, id, (cs + newCentroids)[i].x, (cs + newCentroids)[i].y)
  {
    var cs' := cs + newCentroids;
    assert cs'[..|cs|] == cs;
    assert cs'[|cs|..] == newCentroids;
    forall i | |cs| <= i < |cs'|
      ensures Owns(m, id, cs'[i].x, cs'[i].y)
    {
      assert cs'[i] == newCentroids[i - |cs|];
      RegionPredicateOwns(m, id, left, top, right, bottom, cs'[i].x, cs'[i].y);
    }
  }

  /** What a successful subdivide of region id promises: countToAdd new
      centroids appended, each on a cell of the region; cells outside the
      region keep their ids; each cell of the region gets the id of its
      nearest new centroid. */
  ghost predicate IsSubdivision(cs: seq<Centroid>, id: nat, m: VoronoiMap, countToAdd: nat, distance: Distance,
                                cs': seq<Centroid>, m': VoronoiMap)
    requires m.Valid()
  {
    && |cs'| == |cs| + countToAdd && cs'[..|cs|] == cs
    && (forall i | |cs| <= i < |cs'| :: Owns(m, id, cs'[i].x, cs'[i].y))
    && m'.Valid() && m'.width == m.width && m'.height == m.height
    && (forall x: nat, y: nat | x < m.width && y < m.height && m.At(x, y) != id :: m'.At(x, y) == m.At(x, y))
    && (forall x: nat, y: nat | Owns(m, id, x, y) :: IsSubdivisionLabel(cs'[|cs|..], |cs|, distance, x, y, m'.At(x, y)))
  }

  /** The parts of subdivide (the bounding box, centroids drawn inside the
      region, the inner map and the combine step) make a subdivision. */
  lemma SubdivisionFromParts(cs: seq<Centroid>, id: nat, m: VoronoiMap, distance: Distance,
                             topLeftX: nat, topLeftY: nat, bottomRightX: nat, bottomRightY: nat,
                             newCentroids: seq<Centroid>, inner: VoronoiMap, m': VoronoiMap)
    requires m.Valid() && inner.Valid() && m'.Valid() && m'.width == m.width && m'.height == m.height
    requires topLeftX <= bottomRightX < m.width && topLeftY <= bottomRightY < m.height
    requires forall x: nat, y: nat | Owns(m, id, x, y) :: topLeftX <= x <= bottomRightX && topLeftY <= y <= bottomRightY
    requires forall i | 0 <= i < |newCentroids| ::
      RegionPredicate(m, id, topLeftX, topLeftY, bottomRightX, bottomRightY)(newCentroids[i].x, newCentroids[i].y)
    requires inner.width == bottomRightX - topLeftX + 1 && inner.height == bottomRightY - topLeftY + 1
    requires forall x: nat, y: nat | x < inner.width && y < inner.height ::
      IsShortestDistanceIndex(Distances(topLeftX + x, topLeftY + y, newCentroids, distance), inner.At(x, y))
    requires forall x: nat, y: nat | x < m.width && y < m.height ::
      m'.At(x, y) == if m.At(x, y) == id && topLeftX <= x <= bottomRightX && topLeftY <= y <= bottomRightY
                     then inner.At(x - topLeftX, y - topLeftY) + |cs| else m.At(x, y)
    ensures IsSubdivision(cs, id, m, |newCentroids|, distance, cs + newCentroids, m')
  {
    SubdivisionLabels(m, id, topLeftX, topLeftY, bottomRightX, bottomRightY, inner, m', newCentroids, |cs|, distance);
    AppendedCentroidsOwned(m, id, topLeftX, topLeftY, bottomRightX, bottomRightY, cs, newCentroids);
  }

  /** After a subdivide with at least one new centroid, the region's cells
      carry only the new ids. */
  lemma SubdivisionUsesNewIds(cs: seq<Centroid>, id: nat, m: VoronoiMap, countToAdd: nat, distance: Distance,
                              cs': seq<Centroid>, m': VoronoiMap)
    requires m.Valid() && IsSubdivision(cs, id, m, countToAdd, distance, cs', m') && countToAdd >= 1
    ensures forall x: nat, y: nat | Owns(m, id, x, y) :: |cs| <= m'.At(x, y) < |cs'|
  {
    forall x: nat, y: nat | Owns(m, id, x, y)
      ensures |cs| <= m'.At(x, y) < |cs'|
    {
      NewLabelInRange(cs'[|cs|..], |cs|, distance, x, y, m'.At(x, y));
    }
  }

  /** A label drawn from at least one new centroid indexes one of them. */
  lemma NewLabelInRange(newCentroids: seq<Centroid>, newStart: nat, distance: Distance, x: nat, y: nat, cellId: nat)
    requires IsSubdivisionLabel(newCentroids, newStart, distance, x, y, cellId) && |newCentroids| >= 1
    ensures newStart <= cellId < newStart + |newCentroids|
  {
    var ds := Distances(x, y, newCentroids, distance);
    ShortestDistanceIndexUnique(ds, cellId - newStart, cellId - newStart);
  }

  /** When id names an existing centroid, no cell keeps it after the subdivide. */
  lemma SubdivisionRetiresId(cs: seq<Centroid>, id: nat, m: VoronoiMap, countToAdd: nat, distance: Distance,
                             cs': seq<Centroid>, m': VoronoiMap)
    requires m.Valid() && IsSubdivision(cs, id, m, countToAdd, distance, cs', m') && id < |cs|
    ensures forall x: nat, y: nat | x < m.width && y < m.height :: m'.At(x, y) != id
  {
    forall x: nat, y: nat | x < m.width && y < m.height
      ensures m'.At(x, y) != id
    {
      if m.At(x, y) == id {
        assert Owns(m, id, x, y);
      }
    }
  }

  /** subdivide: split region id into countToAdd new regions whose
      centroids are drawn inside it, relabel only the region's cells and
      append the new centroids. None only when the draws run out. */
  method Subdivide(cs: seq<Centroid>, id: nat, m: VoronoiMap, countToAdd: nat, draws: seq<(int, int)>, distance: Distance)
    returns (r: Option<(seq<Centroid>, VoronoiMap)>, rest: seq<(int, int)>)
    requires m.Valid() && m.width < SizeModulus && m.height < SizeModulus && OwnsSome(m, id)
    ensures |rest| <= |draws|
    ensures r.Some? ==> IsSubdivision(cs, id, m, countToAdd, distance, r.value.0, r.value.1)
    ensures r.None? ==> rest == []
  {
    var newCentroidStartIndex := |cs|;
    var topLeftX, topLeftY, bottomRightX, bottomRightY := BoundingBox(m, id);
    // The region owns a cell, so the box is not inverted and the size_t
    // subtraction does not wrap (contrast EmptyRegionBoxWraps).
    var innerVoronoiMapWidth := bottomRightX - topLeftX + 1;
    var innerVoronoiMapHeight := bottomRightY - topLeftY + 1;
    var inRegion := RegionPredicate(m, id, topLeftX, topLeftY, bottomRightX, bottomRightY);
    var generated;
    generated, rest := GenerateCentroids(topLeftX, topLeftY, innerVoronoiMapWidth, innerVoronoiMapHeight, countToAdd, draws, inRegion);
    if generated.None? {
      return None, rest;
    }
    var newCentroids := generated.value;
    var inner := InnerMap(topLeftX, topLeftY, innerVoronoiMapWidth, innerVoronoiMapHeight, newCentroids, distance);
    var m' := CombineInnerWithOuter(m, id, topLeftX, topLeftY, bottomRightX, bottomRightY, inner, newCentroidStartIndex);
    // Extend Centroid list
    var cs' := cs + newCentroids;
    SubdivisionFromParts(cs, id, m, distance, topLeftX, topLeftY, bottomRightX, bottomRightY, newCentroids, inner, m');
    r := Some((cs', m'));
  }
}
