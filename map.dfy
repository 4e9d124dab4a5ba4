/** Map<T> of src/Map.hpp: a dense row-major grid of fixed width and height.
    The C++ class has value semantics (it is copied and returned by value),
    so it is a datatype here; `at(x, y)` reads element y * width + x and does
    no bounds check, which becomes the precondition of At and Set. */
module Maps {
  import opened Util

  datatype Map<T> = Map(width: nat, height: nat, rows: seq<seq<T>>)
  {
    /** height rows of width elements each. */
    ghost predicate Valid() {
      |rows| == height && forall r | r in rows :: |r| == width
    }

    /** at(x, y), read access. */
    function At(x: nat, y: nat): T
      requires Valid() && x < width && y < height
    {
      assert rows[y] in rows;
      rows[y][x]
    }

    /** at(x, y) = v, write access through the returned reference. */
    function Set(x: nat, y: nat, v: T): (r: Map<T>)
      requires Valid() && x < width && y < height
      ensures r.Valid() && r.width == width && r.height == height
      ensures r.At(x, y) == v
      ensures forall x': nat, y': nat | x' < width && y' < height && (x' != x || y' != y) :: r.At(x', y') == At(x', y')
    {
      assert rows[y] in rows;
      var r := Map(width, height, rows[y := rows[y][x := v]]);
      assert forall row | row in r.rows :: row == rows[y][x := v] || row in rows;
      r
    }

    predicate InBounds(x: int, y: int) {
      0 <= x < width && 0 <= y < height
    }
  }

  /** Two valid maps with the same dimensions and the same cells are equal. */
  lemma Extensionality<T>(a: Map<T>, b: Map<T>)
    requires a.Valid() && b.Valid() && a.width == b.width && a.height == b.height
    requires forall x: nat, y: nat | x < a.width && y < a.height :: a.At(x, y) == b.At(x, y)
    ensures a == b
  {
    forall y | 0 <= y < a.height
      ensures a.rows[y] == b.rows[y]
    {
      assert a.rows[y] in a.rows && b.rows[y] in b.rows;
      forall x | 0 <= x < a.width
        ensures a.rows[y][x] == b.rows[y][x]
      {
        assert a.At(x, y) == b.At(x, y);
      }
    }
  }

  // ---------------------------------------------------------------------
  // The flat row-major layout of the C++ std::vector

  /** A second write to the same cell replaces the first. */
  lemma SetTwice<T>(m: Map<T>, x: nat, y: nat, a: T, b: T)
    requires m.Valid() && x < m.width && y < m.height
    ensures m.Set(x, y, a).Set(x, y, b) == m.Set(x, y, b)
  {
    Extensionality(m.Set(x, y, a).Set(x, y, b), m.Set(x, y, b));
  }

  lemma MulMono(a: nat, b: nat, w: nat)
    requires a <= b
    ensures a * w <= b * w
  {
    assert b * w - a * w == (b - a) * w;
  }

  function Flatten<T>(rows: seq<seq<T>>): seq<T>
  {
    if rows == [] then [] else rows[0] + Flatten(rows[1..])
  }

  lemma MulStep(n: nat, w: nat)
    requires n > 0
    ensures n * w == w + (n - 1) * w
  {
  }

  /** Row-major indices of an n-row, w-column grid lie below n * w. */
  lemma IndexBound(n: nat, w: nat, x: nat, y: nat)
    requires x < w && y < n
    ensures y * w + x < n * w
  {
    MulMono(y + 1, n, w);
    MulStep(y + 1, w);
  }

  lemma {:induction false} FlattenLength<T>(rows: seq<seq<T>>, w: nat)
    requires forall r | r in rows :: |r| == w
    ensures |Flatten(rows)| == |rows| * w
  {
    if rows != [] {
      var tail := rows[1..];
      assert forall r | r in tail :: r in rows;
      assert rows[0] in rows;
      FlattenLength(tail, w);
      assert |Flatten(rows)| == w + |tail| * w;
      MulStep(|rows|, w);
    }
  }

  lemma {:induction false} FlattenAt<T>(rows: seq<seq<T>>, w: nat, x: nat, y: nat)
    requires forall r | r in rows :: |r| == w
    requires x < w && y < |rows|
    ensures y * w + x < |Flatten(rows)|
    ensures Flatten(rows)[y * w + x] == rows[y][x]
  {
    FlattenLength(rows, w);
    IndexBound(|rows|, w, x, y);
    assert rows[0] in rows;
    var tail := rows[1..];
    assert Flatten(rows) == rows[0] + Flatten(tail);
    if y > 0 {
      assert forall r | r in tail :: r in rows;
      FlattenAt(tail, w, x, y - 1);
      MulStep(y, w);
      var k := (y - 1) * w + x;
      assert y * w + x == |rows[0]| + k;
      assert Flatten(rows)[|rows[0]| + k] == Flatten(tail)[k];
      assert rows[y] == tail[y - 1];
    } else {
      assert y * w + x == x;
    }
  }

  /** m_values: the vector holds width * height elements and at(x, y) is
      element y * width + x. */
  lemma FlatLayout<T>(m: Map<T>, x: nat, y: nat)
    requires m.Valid() && x < m.width && y < m.height
    ensures |Flatten(m.rows)| == m.width * m.height
    ensures y * m.width + x < m.width * m.height
    ensures Flatten(m.rows)[y * m.width + x] == m.At(x, y)
  {
    FlattenLength(m.rows, m.width);
    FlattenAt(m.rows, m.width, x, y);
  }

  // ---------------------------------------------------------------------
  // Constructors

  /** Map(width, height, fill): width * height copies of fill. */
  function Create<T>(width: nat, height: nat, fill: T): (m: Map<T>)
    ensures m.Valid() && m.width == width && m.height == height
    ensures forall x: nat, y: nat | x < width && y < height :: m.At(x, y) == fill
  {
    var row := seq(width, _ => fill);
    Map(width, height, seq(height, _ => row))
  }

  /** All rows of an initializer list have the same length (the constructor
      asserts that the shortest row is as long as the longest). */
  ghost predicate Rectangular<T>(rows: seq<seq<T>>) {
    forall r | r in rows :: |r| == |rows[0]|
  }

  /** Map{{...}, {...}}: the initializer-list constructor, one list per row. */
  function FromRows<T>(rows: seq<seq<T>>): (m: Map<T>)
    requires Rectangular(rows)
    ensures m.Valid() && m.height == |rows|
    ensures m.width == if rows == [] then 0 else |rows[0]|
    ensures forall x: nat, y: nat | x < m.width && y < m.height :: m.At(x, y) == rows[y][x]
  {
    Map(if rows == [] then 0 else |rows[0]|, |rows|, rows)
  }

  // ---------------------------------------------------------------------
  // Rotations

  /** rotated90CW: dimensions swap and old cell (x, y) lands at (height-1-y, x). */
  ghost predicate IsRotated90CW<T>(m: Map<T>, r: Map<T>)
    requires m.Valid()
  {
    && r.Valid() && r.width == m.height && r.height == m.width
    && forall x: nat, y: nat | x < m.width && y < m.height :: r.At(m.height - 1 - y, x) == m.At(x, y)
  }

  /** rotated90CCW: dimensions swap and old cell (x, y) lands at (y, width-1-x). */
  ghost predicate IsRotated90CCW<T>(m: Map<T>, r: Map<T>)
    requires m.Valid()
  {
    && r.Valid() && r.width == m.height && r.height == m.width
    && forall x: nat, y: nat | x < m.width && y < m.height :: r.At(y, m.width - 1 - x) == m.At(x, y)
  }

  /** A 180-degree turn: dimensions stay and old cell (x, y) lands at
      (width-1-x, height-1-y). */
  ghost predicate IsRotated180<T>(m: Map<T>, r: Map<T>)
    requires m.Valid()
  {
    && r.Valid() && r.width == m.width && r.height == m.height
    && forall x: nat, y: nat | x < m.width && y < m.height :: r.At(m.width - 1 - x, m.height - 1 - y) == m.At(x, y)
  }

  /** The quarter turn clockwise as a value: cell (x, y) of the result is
      cell (y, height-1-x) of m. */
  ghost function TurnedCW<T>(m: Map<T>): (r: Map<T>)
    requires m.Valid()
    ensures IsRotated90CW(m, r)
  {
    var r := Map(m.height, m.width, seq(m.width, y requires 0 <= y < m.width =>
               seq(m.height, x requires 0 <= x < m.height => m.At(y, m.height - 1 - x))));
    assert forall row | row in r.rows :: |row| == m.height;
    r
  }

  /** A quarter turn has one result. */
  lemma RotatedCWUnique<T>(m: Map<T>, r1: Map<T>, r2: Map<T>)
    requires m.Valid() && IsRotated90CW(m, r1) && IsRotated90CW(m, r2)
    ensures r1 == r2
  {
    forall x: nat, y: nat | x < r1.width && y < r1.height
      ensures r1.At(x, y) == r2.At(x, y)
    {
      assert r1.At(m.height - 1 - (m.height - 1 - x), y) == m.At(y, m.height - 1 - x);
    }
    Extensionality(r1, r2);
  }

  method Rotated90CW<T(0)>(m: Map<T>) returns (r: Map<T>)
    requires m.Valid()
    ensures IsRotated90CW(m, r)
  {
    var fill: T := *;
    r := Create(m.height, m.width, fill);
    var y := 0;
    while y < m.height
      invariant y <= m.height
      invariant r.Valid() && r.width == m.height && r.height == m.width
      invariant forall x': nat, y': nat | x' < m.width && y' < y :: r.At(m.height - 1 - y', x') == m.At(x', y')
    {
      var x := 0;
      while x < m.width
        invariant x <= m.width
        invariant r.Valid() && r.width == m.height && r.height == m.width
        invariant forall x': nat, y': nat | x' < m.width && y' < y :: r.At(m.height - 1 - y', x') == m.At(x', y')
        invariant forall x': nat | x' < x :: r.At(m.height - 1 - y, x') == m.At(x', y)
      {
        r := r.Set(r.width - y - 1, x, m.At(x, y));
        x := x + 1;
      }
      y := y + 1;
    }
  }

  method Rotated90CCW<T(0)>(m: Map<T>) returns (r: Map<T>)
    requires m.Valid()
    ensures IsRotated90CCW(m, r)
  {
    var fill: T := *;
    r := Create(m.height, m.width, fill);
    var y := 0;
    while y < m.height
      invariant y <= m.height
      invariant r.Valid() && r.width == m.height && r.height == m.width
      invariant forall x': nat, y': nat | x' < m.width && y' < y :: r.At(y', m.width - 1 - x') == m.At(x', y')
    {
      var x := 0;
      while x < m.width
        invariant x <= m.width
        invariant r.Valid() && r.width == m.height && r.height == m.width
        invariant forall x': nat, y': nat | x' < m.width && y' < y :: r.At(y', m.width - 1 - x') == m.At(x', y')
        invariant forall x': nat | x' < x :: r.At(y, m.width - 1 - x') == m.At(x', y)
      {
        r := r.Set(y, r.height - x - 1, m.At(x, y));
        x := x + 1;
      }
      y := y + 1;
    }
  }

  /** rotated180 with the dimensions kept (the intended behaviour). */
  method Rotated180<T(0)>(m: Map<T>) returns (r: Map<T>)
    requires m.Valid()
    ensures IsRotated180(m, r)
  {
    var fill: T := *;
    r := Create(m.width, m.height, fill);
    var y := 0;
    while y < m.height
      invariant y <= m.height
      invariant r.Valid() && r.width == m.width && r.height == m.height
      invariant forall x': nat, y': nat | x' < m.width && y' < y :: r.At(m.width - 1 - x', m.height - 1 - y') == m.At(x', y')
    {
      var x := 0;
      while x < m.width
        invariant x <= m.width
        invariant r.Valid() && r.width == m.width && r.height == m.height
        invariant forall x': nat, y': nat | x' < m.width && y' < y :: r.At(m.width - 1 - x', m.height - 1 - y') == m.At(x', y')
        invariant forall x': nat | x' < x :: r.At(m.width - 1 - x', m.height - 1 - y) == m.At(x', y)
      {
        r := r.Set(r.width - x - 1, r.height - y - 1, m.At(x, y));
        x := x + 1;
      }
      y := y + 1;
    }
  }

  /** Turning clockwise and then counter-clockwise gives back the original
      map, dimensions and contents. */
  lemma RotateCWThenCCW<T>(m: Map<T>, r: Map<T>, s: Map<T>)
    requires m.Valid() && IsRotated90CW(m, r) && IsRotated90CCW(r, s)
    ensures s == m
  {
    forall x: nat, y: nat | x < m.width && y < m.height
      ensures s.At(x, y) == m.At(x, y)
    {
      assert r.At(m.height - 1 - y, x) == m.At(x, y);
      assert s.At(x, r.width - 1 - (m.height - 1 - y)) == r.At(m.height - 1 - y, x);
    }
    Extensionality(s, m);
  }

  /** And the other way round. */
  lemma RotateCCWThenCW<T>(m: Map<T>, r: Map<T>, s: Map<T>)
    requires m.Valid() && IsRotated90CCW(m, r) && IsRotated90CW(r, s)
    ensures s == m
  {
    forall x: nat, y: nat | x < m.width && y < m.height
      ensures s.At(x, y) == m.At(x, y)
    {
      assert r.At(y, m.width - 1 - x) == m.At(x, y);
      assert s.At(r.height - 1 - (m.width - 1 - x), y) == r.At(y, m.width - 1 - x);
    }
    Extensionality(s, m);
  }

  /** Two half turns are the identity. */
  lemma Rotate180Twice<T>(m: Map<T>, r: Map<T>, s: Map<T>)
    requires m.Valid() && IsRotated180(m, r) && IsRotated180(r, s)
    ensures s == m
  {
    forall x: nat, y: nat | x < m.width && y < m.height
      ensures s.At(x, y) == m.At(x, y)
    {
      assert r.At(m.width - 1 - x, m.height - 1 - y) == m.At(x, y);
      assert s.At(r.width - 1 - (m.width - 1 - x), r.height - 1 - (m.height - 1 - y))
          == r.At(m.width - 1 - x, m.height - 1 - y);
    }
    Extensionality(s, m);
  }

  // ---------------------------------------------------------------------
  // rotated180 as written: the result is allocated as Map{height, width}
  // and written at newMap.at(newWidth-x-1, newHeight-y-1) with std::size_t
  // (modulo 2^64) arithmetic.

  /** The vector position the as-written rotated180 writes cell (x, y) to. */
  function Rotated180IndexAsWritten(width: nat, height: nat, x: nat, y: nat): (i: nat)
    requires x < width && y < height
    ensures i < SizeModulus
  {
    var newWidth, newHeight := height, width;
    var tx := (newWidth - x - 1) % SizeModulus;
    var ty := (newHeight - y - 1) % SizeModulus;
    (ty * newWidth + tx) % SizeModulus
  }

  /** On a square map the as-written index is the intended one. */
  lemma Rotated180AsWrittenSquare(n: nat, x: nat, y: nat)
    requires x < n && y < n && n <= 0x1_0000_0000
    ensures Rotated180IndexAsWritten(n, n, x, y) == (n - 1 - y) * n + (n - 1 - x)
  {
    var tx, ty := n - 1 - x, n - 1 - y;
    assert (n - x - 1) % SizeModulus == tx && (n - y - 1) % SizeModulus == ty;
    IndexBound(n, n, tx, ty);
    SquareFits(n);
    assert ty * n + tx < SizeModulus;
  }

  lemma SquareFits(n: nat)
    requires n <= 0x1_0000_0000
    ensures n * n <= SizeModulus
  {
    MulMono(n, 0x1_0000_0000, n);
    MulMono(n, 0x1_0000_0000, 0x1_0000_0000);
  }

  /** On the 1-by-2 map the as-written rotated180 allocates a 2-by-1 map
      and writes cell (0, 1) at position 2^64 - 1, far outside its two
      elements. */
  lemma Rotated180AsWrittenOutOfRange()
    ensures Rotated180IndexAsWritten(1, 2, 0, 1) == SizeModulus - 1
    ensures Rotated180IndexAsWritten(1, 2, 0, 1) >= 1 * 2
  {
  }

  // ---------------------------------------------------------------------
  // find

  /** (x1, y1) comes strictly before (x2, y2) in row-major order. */
  predicate RowMajorBefore(x1: nat, y1: nat, x2: nat, y2: nat) {
    y1 < y2 || (y1 == y2 && x1 < x2)
  }

  ghost predicate Holds<T>(m: Map<T>, v: T, x: nat, y: nat)
    requires m.Valid()
  {
    x < m.width && y < m.height && m.At(x, y) == v
  }

  /** (x, y) holds v and is the first such cell of row-major order among
      those that are not before (fromX, fromY). */
  ghost predicate FirstFrom<T>(m: Map<T>, v: T, fromX: nat, fromY: nat, x: nat, y: nat)
    requires m.Valid()
  {
    && Holds(m, v, x, y)
    && !RowMajorBefore(x, y, fromX, fromY)
    && forall x': nat, y': nat | Holds(m, v, x', y') && !RowMajorBefore(x', y', fromX, fromY) :: !RowMajorBefore(x', y', x, y)
  }

  ghost predicate OccursFrom<T>(m: Map<T>, v: T, fromX: nat, fromY: nat)
    requires m.Valid()
  {
    exists x: nat, y: nat :: Holds(m, v, x, y) && !RowMajorBefore(x, y, fromX, fromY)
  }

  /** What find(value, startX, startY, wrap) returns. */
  ghost predicate FindSpec<T>(m: Map<T>, v: T, startX: nat, startY: nat, wrap: bool, r: Option<(nat, nat)>)
    requires m.Valid()
  {
    if startX >= m.width || startY >= m.height then r == None
    else if OccursFrom(m, v, startX, startY) then r.Some? && FirstFrom(m, v, startX, startY, r.value.0, r.value.1)
    else if wrap && OccursFrom(m, v, 0, 0) then r.Some? && FirstFrom(m, v, 0, 0, r.value.0, r.value.1)
    else r == None
  }

  method Find<T(==)>(m: Map<T>, v: T, startX: nat, startY: nat, wrap: bool) returns (r: Option<(nat, nat)>)
    requires m.Valid()
    ensures FindSpec(m, v, startX, startY, wrap, r)
    ensures r.Some? ==> Holds(m, v, r.value.0, r.value.1)
  {
    if startY >= m.height || startX >= m.width {
      return None;
    }
    // First row, from startX
    var x := startX;
    while x < m.width
      invariant startX <= x <= m.width
      invariant forall x': nat | startX <= x' < x :: m.At(x', startY) != v
    {
      if m.At(x, startY) == v {
        r := Some((x, startY));
        FirstAtOrAfter(m, v, startX, startY, x, startY);
        return;
      }
      x := x + 1;
    }
    // Following rows
    var y := startY + 1;
    while y < m.height
      invariant startY < y <= m.height
      invariant forall x': nat, y': nat | Holds(m, v, x', y') && !RowMajorBefore(x', y', startX, startY) :: y' >= y
    {
      x := 0;
      while x < m.width
        invariant x <= m.width
        invariant forall x': nat | x' < x :: m.At(x', y) != v
      {
        if m.At(x, y) == v {
          r := Some((x, y));
          FirstAtOrAfter(m, v, startX, startY, x, y);
          return;
        }
        x := x + 1;
      }
      y := y + 1;
    }
    assert !OccursFrom(m, v, startX, startY);
    if wrap {
      // The cells strictly before the start
      y := 0;
      while y <= startY
        invariant y <= startY + 1
        invariant forall x': nat, y': nat | Holds(m, v, x', y') && RowMajorBefore(x', y', startX, startY) :: y' >= y
      {
        x := 0;
        while x < (if y == startY then startX else m.width)
          invariant x <= (if y == startY then startX else m.width)
          invariant forall x': nat | x' < x :: m.At(x', y) != v
        {
          if m.At(x, y) == v {
            r := Some((x, y));
            assert FirstFrom(m, v, 0, 0, x, y);
            return;
          }
          x := x + 1;
        }
        y := y + 1;
      }
    }
    r := None;
  }

  lemma FirstAtOrAfter<T>(m: Map<T>, v: T, startX: nat, startY: nat, x: nat, y: nat)
    requires m.Valid() && Holds(m, v, x, y) && !RowMajorBefore(x, y, startX, startY)
    requires forall x': nat, y': nat | Holds(m, v, x', y') && !RowMajorBefore(x', y', startX, startY) :: !RowMajorBefore(x', y', x, y)
    ensures OccursFrom(m, v, startX, startY) && FirstFrom(m, v, startX, startY, x, y)
  {
  }

  /** find's answer is determined by its arguments. */
  lemma FindSpecUnique<T>(m: Map<T>, v: T, startX: nat, startY: nat, wrap: bool, r1: Option<(nat, nat)>, r2: Option<(nat, nat)>)
    requires m.Valid()
    requires FindSpec(m, v, startX, startY, wrap, r1) && FindSpec(m, v, startX, startY, wrap, r2)
    ensures r1 == r2
  {
    if r1.Some? && r2.Some? {
      var x1, y1, x2, y2 := r1.value.0, r1.value.1, r2.value.0, r2.value.1;
      assert !RowMajorBefore(x1, y1, x2, y2) && !RowMajorBefore(x2, y2, x1, y1);
    }
  }

  /** With an in-range start, a wrapping find succeeds iff the value occurs
      anywhere in the map. */
  lemma FindWrapFindsAnyOccurrence<T>(m: Map<T>, v: T, startX: nat, startY: nat, r: Option<(nat, nat)>)
    requires m.Valid() && startX < m.width && startY < m.height
    requires FindSpec(m, v, startX, startY, true, r)
    ensures r.Some? <==> exists x: nat, y: nat :: Holds(m, v, x, y)
  {
    if exists x: nat, y: nat :: Holds(m, v, x, y) {
      var x: nat, y: nat :| Holds(m, v, x, y);
      assert !RowMajorBefore(x, y, 0, 0);
    }
  }

  /** When at most one cell holds v, every in-range wrapping find returns the
      same answer, whatever its start. */
  lemma FindWrapSingleOccurrence<T>(m: Map<T>, v: T, sx1: nat, sy1: nat, sx2: nat, sy2: nat,
                                    r1: Option<(nat, nat)>, r2: Option<(nat, nat)>)
    requires m.Valid()
    requires forall x1: nat, y1: nat, x2: nat, y2: nat | Holds(m, v, x1, y1) && Holds(m, v, x2, y2) :: x1 == x2 && y1 == y2
    requires sx1 < m.width && sy1 < m.height && sx2 < m.width && sy2 < m.height
    requires FindSpec(m, v, sx1, sy1, true, r1) && FindSpec(m, v, sx2, sy2, true, r2)
    ensures r1 == r2
  {
    FindWrapFindsAnyOccurrence(m, v, sx1, sy1, r1);
    FindWrapFindsAnyOccurrence(m, v, sx2, sy2, r2);
  }
}
