/** 4-connected regions of equal cells: the meaning of WorldGen::floodFill
    (src/WorldGen.cpp). A cell is in the region of a seed when a path of
    orthogonal steps through cells holding the seed's value leads to it. */
module Regions {
  import opened Maps

  type Cell = (nat, nat)

  /** a and b differ by one step along exactly one axis. */
  predicate Adjacent4(a: Cell, b: Cell) {
    || (a.0 == b.0 && (a.1 + 1 == b.1 || b.1 + 1 == a.1))
    || (a.1 == b.1 && (a.0 + 1 == b.0 || b.0 + 1 == a.0))
  }

  /** (nx, ny) is one of the eight cells around (x, y). */
  predicate Around8(x: nat, y: nat, nx: nat, ny: nat) {
    (nx, ny) != (x, y) && nx <= x + 1 && x <= nx + 1 && ny <= y + 1 && y <= ny + 1
  }

  ghost predicate HoldsAt<T>(m: Map<T>, v: T, c: Cell)
    requires m.Valid()
  {
    m.InBounds(c.0, c.1) && m.At(c.0, c.1) == v
  }

  /** p is a walk of orthogonal steps through cells holding v. */
  ghost predicate IsPath<T>(m: Map<T>, v: T, p: seq<Cell>)
    requires m.Valid()
  {
    && |p| >= 1
    && (forall i | 0 <= i < |p| :: HoldsAt(m, v, p[i]))
    && (forall i | 0 <= i < |p| - 1 :: Adjacent4(p[i], p[i + 1]))
  }

  ghost predicate Connected<T>(m: Map<T>, v: T, s: Cell, c: Cell)
    requires m.Valid()
  {
    exists p :: IsPath(m, v, p) && p[0] == s && p[|p| - 1] == c
  }

  /** The region floodFill recolours: the cells connected to the seed
      through cells holding the seed's value. */
  ghost predicate InRegion<T>(m: Map<T>, s: Cell, c: Cell)
    requires m.Valid() && m.InBounds(s.0, s.1)
  {
    Connected(m, m.At(s.0, s.1), s, c)
  }

  ghost function RegionCells<T>(m: Map<T>, s: Cell): set<Cell>
    requires m.Valid() && m.InBounds(s.0, s.1)
  {
    set x: nat, y: nat | x < m.width && y < m.height && InRegion(m, s, (x, y)) :: (x, y)
  }

  /** The map with the seed's region set to f and every other cell as it was. */
  ghost function Filled<T>(m: Map<T>, s: Cell, f: T): (r: Map<T>)
    requires m.Valid() && m.InBounds(s.0, s.1)
    ensures r.Valid() && r.width == m.width && r.height == m.height
    ensures forall x: nat, y: nat | x < m.width && y < m.height ::
      r.At(x, y) == if InRegion(m, s, (x, y)) then f else m.At(x, y)
  {
    var r := Map(m.width, m.height,
                 seq(m.height, y requires 0 <= y < m.height =>
                   seq(m.width, x requires 0 <= x < m.width =>
                     if InRegion(m, s, (x, y)) then f else m.At(x, y))));
    assert forall row | row in r.rows :: |row| == m.width;
    r
  }

  // ---------------------------------------------------------------------
  // Basic facts about regions

  /** The seed is in its own region. */
  lemma SeedInRegion<T>(m: Map<T>, s: Cell)
    requires m.Valid() && m.InBounds(s.0, s.1)
    ensures InRegion(m, s, s)
  {
    assert IsPath(m, m.At(s.0, s.1), [s]);
  }

  /** Every cell of the region lies on the map and holds the seed's value. */
  lemma RegionHoldsSeedValue<T>(m: Map<T>, s: Cell, c: Cell)
    requires m.Valid() && m.InBounds(s.0, s.1) && InRegion(m, s, c)
    ensures HoldsAt(m, m.At(s.0, s.1), c)
  {
    var p :| IsPath(m, m.At(s.0, s.1), p) && p[0] == s && p[|p| - 1] == c;
    assert HoldsAt(m, m.At(s.0, s.1), p[|p| - 1]);
  }

  /** One more step through a cell holding v stays connected. */
  lemma ConnectedStep<T>(m: Map<T>, v: T, s: Cell, c: Cell, n: Cell)
    requires m.Valid() && Connected(m, v, s, c) && Adjacent4(c, n) && HoldsAt(m, v, n)
    ensures Connected(m, v, s, n)
  {
    var p :| IsPath(m, v, p) && p[0] == s && p[|p| - 1] == c;
    var q := p + [n];
    assert IsPath(m, v, q) && q[0] == s && q[|q| - 1] == n;
  }

  /** The region is closed: a neighbour of a region cell that holds the
      seed's value is in the region too. */
  lemma RegionClosed<T>(m: Map<T>, s: Cell, c: Cell, n: Cell)
    requires m.Valid() && m.InBounds(s.0, s.1)
    requires InRegion(m, s, c) && Adjacent4(c, n) && HoldsAt(m, m.At(s.0, s.1), n)
    ensures InRegion(m, s, n)
  {
    ConnectedStep(m, m.At(s.0, s.1), s, c, n);
  }

  /** Every cell of a path that starts at the seed is in the region. */
  lemma {:induction false} PathPrefixConnected<T>(m: Map<T>, v: T, p: seq<Cell>, i: nat)
    requires m.Valid() && IsPath(m, v, p) && i < |p|
    ensures Connected(m, v, p[0], p[i])
  {
    var q := p[..i + 1];
    assert IsPath(m, v, q) && q[0] == p[0] && q[|q| - 1] == p[i];
  }

  /** A set that holds the seed and is closed under steps to neighbours
      holding the seed's value contains the whole region. */
  lemma {:induction false} ClosedSetContainsRegion<T>(m: Map<T>, s: Cell, cells: set<Cell>, c: Cell)
    requires m.Valid() && m.InBounds(s.0, s.1) && s in cells
    requires forall a, b | a in cells && Adjacent4(a, b) && HoldsAt(m, m.At(s.0, s.1), b) :: b in cells
    requires InRegion(m, s, c)
    ensures c in cells
  {
    var v := m.At(s.0, s.1);
    var p :| IsPath(m, v, p) && p[0] == s && p[|p| - 1] == c;
    var i := 0;
    while i < |p| - 1
      invariant i < |p| && p[i] in cells
    {
      assert Adjacent4(p[i], p[i + 1]) && HoldsAt(m, v, p[i + 1]);
      i := i + 1;
    }
  }

  // ---------------------------------------------------------------------
  // Filling twice

  /** No cell holding f borders the region of s. */
  ghost predicate RegionNotNextTo<T>(m: Map<T>, s: Cell, f: T)
    requires m.Valid() && m.InBounds(s.0, s.1)
  {
    forall a, b | InRegion(m, s, a) && Adjacent4(a, b) && m.InBounds(b.0, b.1) :: m.At(b.0, b.1) != f
  }

  /** A cell of the region is in the region of the filled map. */
  lemma RegionKeptByFill<T>(m: Map<T>, s: Cell, f: T, c: Cell)
    requires m.Valid() && m.InBounds(s.0, s.1) && InRegion(m, s, c)
    ensures InRegion(Filled(m, s, f), s, c)
  {
    var m1 := Filled(m, s, f);
    var v := m.At(s.0, s.1);
    SeedInRegion(m, s);
    var p :| IsPath(m, v, p) && p[0] == s && p[|p| - 1] == c;
    forall i | 0 <= i < |p|
      ensures HoldsAt(m1, f, p[i])
    {
      PathPrefixConnected(m, v, p, i);
    }
    assert IsPath(m1, f, p);
  }

  /** A cell of the filled map's region was in the original region, when no
      f cell borders the region. */
  lemma {:induction false} RegionNotGrownByFill<T>(m: Map<T>, s: Cell, f: T, c: Cell)
    requires m.Valid() && m.InBounds(s.0, s.1) && f != m.At(s.0, s.1)
    requires RegionNotNextTo(m, s, f)
    requires InRegion(Filled(m, s, f), s, c)
    ensures InRegion(m, s, c)
  {
    var m1 := Filled(m, s, f);
    SeedInRegion(m, s);
    assert m1.At(s.0, s.1) == f;
    var q :| IsPath(m1, f, q) && q[0] == s && q[|q| - 1] == c;
    forall i | 0 <= i < |q| - 1 && InRegion(m, s, q[i])
      ensures InRegion(m, s, q[i + 1])
    {
      RegionNotGrownStep(m, s, f, q[i], q[i + 1]);
    }
    RegionAlongPath(m, s, q);
  }

  /** If each step of a walk from the seed keeps to the region, the walk
      ends in the region. */
  lemma {:induction false} RegionAlongPath<T>(m: Map<T>, s: Cell, q: seq<Cell>)
    requires m.Valid() && m.InBounds(s.0, s.1) && |q| >= 1 && q[0] == s
    requires forall i | 0 <= i < |q| - 1 && InRegion(m, s, q[i]) :: InRegion(m, s, q[i + 1])
    ensures InRegion(m, s, q[|q| - 1])
  {
    SeedInRegion(m, s);
    var i := 0;
    while i < |q| - 1
      invariant i < |q| && InRegion(m, s, q[i])
    {
      i := i + 1;
    }
  }

  lemma RegionNotGrownStep<T>(m: Map<T>, s: Cell, f: T, a: Cell, b: Cell)
    requires m.Valid() && m.InBounds(s.0, s.1)
    requires RegionNotNextTo(m, s, f)
    requires InRegion(m, s, a) && Adjacent4(a, b) && HoldsAt(Filled(m, s, f), f, b)
    ensures InRegion(m, s, b)
  {
  }

  /** After filling the region of s with a value f that does not border it,
      the region of s in the filled map is the same set of cells. */
  lemma FilledRegionUnchanged<T>(m: Map<T>, s: Cell, f: T)
    requires m.Valid() && m.InBounds(s.0, s.1) && f != m.At(s.0, s.1)
    requires RegionNotNextTo(m, s, f)
    ensures Filled(m, s, f).At(s.0, s.1) == f
    ensures forall c: Cell | m.InBounds(c.0, c.1) :: InRegion(Filled(m, s, f), s, c) <==> InRegion(m, s, c)
  {
    SeedInRegion(m, s);
    forall c: Cell | m.InBounds(c.0, c.1)
      ensures InRegion(Filled(m, s, f), s, c) <==> InRegion(m, s, c)
    {
      if InRegion(m, s, c) {
        RegionKeptByFill(m, s, f, c);
      }
      if InRegion(Filled(m, s, f), s, c) {
        RegionNotGrownByFill(m, s, f, c);
      }
    }
  }

  /** Refilling the same seed after a fill with a value that did not border
      the region recolours exactly the original region. */
  lemma Refill<T>(m: Map<T>, s: Cell, f: T, g: T)
    requires m.Valid() && m.InBounds(s.0, s.1) && f != m.At(s.0, s.1)
    requires RegionNotNextTo(m, s, f)
    ensures Filled(Filled(m, s, f), s, g) == Filled(m, s, g)
  {
    FilledRegionUnchanged(m, s, f);
    var a, b := Filled(Filled(m, s, f), s, g), Filled(m, s, g);
    Extensionality(a, b);
  }

  /** Filling a region with its own value changes nothing. */
  lemma FillWithSameValue<T>(m: Map<T>, s: Cell)
    requires m.Valid() && m.InBounds(s.0, s.1)
    ensures Filled(m, s, m.At(s.0, s.1)) == m
  {
    SeedInRegion(m, s);
    Extensionality(Filled(m, s, m.At(s.0, s.1)), m);
  }

  /** The revert of placePonds and placeFullPavedAreas: filling the seed's
      region with f and then the same seed with the original value restores
      the map, provided no f cell borders the region. */
  lemma FillRevert<T>(m: Map<T>, s: Cell, f: T)
    requires m.Valid() && m.InBounds(s.0, s.1) && f != m.At(s.0, s.1)
    requires RegionNotNextTo(m, s, f)
    ensures Filled(Filled(m, s, f), s, m.At(s.0, s.1)) == m
  {
    Refill(m, s, f, m.At(s.0, s.1));
    FillWithSameValue(m, s);
  }

  /** When f borders the region, the revert does not restore the map: on
      the one-row map [f, v, v] filling (1, 0) with f and then with v turns
      the original f cell into v as well. */
  lemma FillRevertNeedsSeparation<T>(f: T, v: T)
    requires f != v
    ensures var m := Map(3, 1, [[f, v, v]]);
      Filled(Filled(m, (1, 0), f), (1, 0), v) != m
  {
    var m := Map(3, 1, [[f, v, v]]);
    assert m.Valid() && m.At(0, 0) == f && m.At(1, 0) == v;
    var m1 := Filled(m, (1, 0), f);
    SeedInRegion(m, (1, 0));
    assert m1.At(1, 0) == f && m1.At(0, 0) == f;
    SeedInRegion(m1, (1, 0));
    RegionClosed(m1, (1, 0), (1, 0), (0, 0));
    assert Filled(m1, (1, 0), v).At(0, 0) == v;
  }
}
