/** BitmapTransform of src/Bitmap.cpp: morphological operations on byte
    grids. Each transform allocates a fresh output of the input's size and
    fills it cell by cell; the input is a value and is never changed. The
    neighbour sums are std::uint8_t and so wrap modulo 256; on 0/1 bitmaps
    they never reach 256 and the transforms have their textbook meaning
    (ErodeMeaning, DilateMeaning, BorderMeaning). */
module BitmapTransform {
  import opened Util
  import opened Maps

  type Bitmap = Map<uint8>

  /** The value of (x, y), or 0 when it lies outside the bitmap: the source
      skips out-of-range neighbours. */
  function Neighbour(b: Bitmap, x: int, y: int): (v: int)
    requires b.Valid()
    ensures 0 <= v < 256
    ensures v != 0 ==> b.InBounds(x, y)
  {
    if b.InBounds(x, y) then b.At(x, y) as int else 0
  }

  /** The four orthogonal neighbours, plus the four diagonal ones when
      includeDiagonals is set, summed without wrap-around. */
  function NeighbourTotal(b: Bitmap, x: nat, y: nat, includeDiagonals: bool): int
    requires b.Valid()
  {
    (if includeDiagonals then
       Neighbour(b, x - 1, y - 1) + Neighbour(b, x - 1, y + 1) + Neighbour(b, x + 1, y - 1) + Neighbour(b, x + 1, y + 1)
     else 0)
    + Neighbour(b, x - 1, y) + Neighbour(b, x + 1, y) + Neighbour(b, x, y - 1) + Neighbour(b, x, y + 1)
  }

  /** The column x of the neighbourhood of row y: (x, y), with (x, y - 1)
      and (x, y + 1) when includeDiagonals is set. */
  function Column(b: Bitmap, x: int, y: nat, includeDiagonals: bool): int
    requires b.Valid()
  {
    (if includeDiagonals then Neighbour(b, x, y - 1) + Neighbour(b, x, y + 1) else 0) + Neighbour(b, x, y)
  }

  /** Every neighbour that should be there is there and is 1. */
  predicate AllNeighboursSet(b: Bitmap, x: nat, y: nat, includeDiagonals: bool)
    requires b.Valid()
  {
    && (includeDiagonals ==>
          Neighbour(b, x - 1, y - 1) == 1 && Neighbour(b, x - 1, y + 1) == 1
          && Neighbour(b, x + 1, y - 1) == 1 && Neighbour(b, x + 1, y + 1) == 1)
    && Neighbour(b, x - 1, y) == 1 && Neighbour(b, x + 1, y) == 1
    && Neighbour(b, x, y - 1) == 1 && Neighbour(b, x, y + 1) == 1
  }

  /** Some in-bounds neighbour is non-zero. */
  predicate AnyNeighbourSet(b: Bitmap, x: nat, y: nat, includeDiagonals: bool)
    requires b.Valid()
  {
    || (includeDiagonals &&
          (Neighbour(b, x - 1, y - 1) != 0 || Neighbour(b, x - 1, y + 1) != 0
           || Neighbour(b, x + 1, y - 1) != 0 || Neighbour(b, x + 1, y + 1) != 0))
    || Neighbour(b, x - 1, y) != 0 || Neighbour(b, x + 1, y) != 0
    || Neighbour(b, x, y - 1) != 0 || Neighbour(b, x, y + 1) != 0
  }

  /** Every cell is 0 or 1. */
  ghost predicate IsBinary(b: Bitmap)
    requires b.Valid()
  {
    forall x: nat, y: nat | x < b.width && y < b.height :: b.At(x, y) <= 1
  }

  lemma ModAddStep(a: int, v: int)
    ensures (a % 256 + v) % 256 == (a + v) % 256
  {
    var q := a / 256;
    assert a == 256 * q + a % 256;
    assert a + v == (a % 256 + v) + 256 * q;
  }

  /** sum += v on a std::uint8_t, where sum holds total modulo 256. */
  function AddWrapping(sum: uint8, v: uint8, ghost total: int): (r: uint8)
    requires sum as int == total % 256
    ensures r as int == (total + v as int) % 256
  {
    ModAddStep(total, v as int);
    ((sum as int + v as int) % 256) as uint8
  }

  /** The source adds a side column of the neighbourhood as (x, y - 1) and
      (x, y + 1) when includeDiagonals is set, then (x, y). */
  method AddColumn(b: Bitmap, sum: uint8, x: nat, centerY: nat, includeDiagonals: bool, ghost total: int)
    returns (sum': uint8, ghost total': int)
    requires b.Valid() && x < b.width && centerY < b.height
    requires sum as int == total % 256
    ensures total' == total + Column(b, x, centerY, includeDiagonals)
    ensures sum' as int == total' % 256
  {
    sum', total' := sum, total;
    if includeDiagonals {
      if centerY > 0 {
        sum' := AddWrapping(sum', b.At(x, centerY - 1), total');
        total' := total' + b.At(x, centerY - 1) as int;
      }
      if centerY < b.height - 1 {
        sum' := AddWrapping(sum', b.At(x, centerY + 1), total');
        total' := total' + b.At(x, centerY + 1) as int;
      }
    }
    sum' := AddWrapping(sum', b.At(x, centerY), total');
    total' := total' + b.At(x, centerY) as int;
  }

  lemma NeighbourTotalByColumns(b: Bitmap, x: nat, y: nat, includeDiagonals: bool)
    requires b.Valid()
    ensures NeighbourTotal(b, x, y, includeDiagonals)
            == Column(b, x - 1, y, includeDiagonals) + Column(b, x + 1, y, includeDiagonals)
               + Neighbour(b, x, y - 1) + Neighbour(b, x, y + 1)
  {
  }

  /** The running std::uint8_t sum the three neighbourhood transforms
      compute, neighbour by neighbour in the source's order. */
  method NeighbourSum(b: Bitmap, centerX: nat, centerY: nat, includeDiagonals: bool) returns (sum: uint8)
    requires b.Valid() && centerX < b.width && centerY < b.height
    ensures sum as int == NeighbourTotal(b, centerX, centerY, includeDiagonals) % 256
  {
    ghost var total := 0;
    sum := 0;
    if centerX > 0 {
      sum, total := AddColumn(b, sum, centerX - 1, centerY, includeDiagonals, total);
    }
    if centerX < b.width - 1 {
      sum, total := AddColumn(b, sum, centerX + 1, centerY, includeDiagonals, total);
    }
    if centerY > 0 {
      sum := AddWrapping(sum, b.At(centerX, centerY - 1), total);
      total := total + b.At(centerX, centerY - 1) as int;
    }
    if centerY < b.height - 1 {
      sum := AddWrapping(sum, b.At(centerX, centerY + 1), total);
      total := total + b.At(centerX, centerY + 1) as int;
    }
    NeighbourTotalByColumns(b, centerX, centerY, includeDiagonals);
  }

  /** Conversion of an int to std::uint8_t. */
  function ToByte(v: int): (r: uint8)
    ensures (r as int - v) % 256 == 0
  {
    (v % 256) as uint8
  }

  // ---------------------------------------------------------------------
  // Per-cell specifications

  /** erode's value for cell (x, y): 1 only on a 1 whose neighbours sum to
      their count. Erosion never sets a cell that was not 1. */
  function ErodeCell(b: Bitmap, x: nat, y: nat, includeDiagonals: bool): (v: uint8)
    requires b.Valid() && x < b.width && y < b.height
    ensures v <= 1 && (v == 1 ==> b.At(x, y) == 1)
  {
    if b.At(x, y) == 1 && NeighbourTotal(b, x, y, includeDiagonals) % 256 == (if includeDiagonals then 8 else 4) then 1 else 0
  }

  /** dilate's value for cell (x, y): 0 only on a 0 whose neighbours sum to
      zero. Dilation never clears a set cell. */
  function DilateCell(b: Bitmap, x: nat, y: nat, includeDiagonals: bool): (v: uint8)
    requires b.Valid() && x < b.width && y < b.height
    ensures v <= 1 && (b.At(x, y) != 0 ==> v == 1)
  {
    if b.At(x, y) == 0 && NeighbourTotal(b, x, y, includeDiagonals) % 256 == 0 then 0 else 1
  }

  /** border's value for cell (x, y): 1 only on a 0 with a non-zero
      neighbour sum, so a border cell is never one of the bitmap's own. */
  function BorderCell(b: Bitmap, x: nat, y: nat, includeDiagonals: bool): (v: uint8)
    requires b.Valid() && x < b.width && y < b.height
    ensures v <= 1 && (v == 1 ==> b.At(x, y) == 0)
  {
    if b.At(x, y) == 0 && NeighbourTotal(b, x, y, includeDiagonals) % 256 != 0 then 1 else 0
  }

  /** shift's value for cell (x, y): the cell delta before it, or the fill
      where that lies off the bitmap. A zero shift is the identity. */
  function ShiftCell(b: Bitmap, x: nat, y: nat, deltaX: int, deltaY: int, fill: uint8): (v: uint8)
    requires b.Valid()
    ensures !b.InBounds(x - deltaX, y - deltaY) ==> v == fill
    ensures deltaX == 0 && deltaY == 0 && x < b.width && y < b.height ==> v == b.At(x, y)
  {
    if b.InBounds(x - deltaX, y - deltaY) then b.At(x - deltaX, y - deltaY) else fill
  }

  // ---------------------------------------------------------------------
  // Meaning on 0/1 bitmaps

  lemma BinaryNeighbours(b: Bitmap)
    requires b.Valid() && IsBinary(b)
    ensures forall i: int, j: int :: 0 <= Neighbour(b, i, j) <= 1
  {
    forall i: int, j: int
      ensures 0 <= Neighbour(b, i, j) <= 1
    {
      if b.InBounds(i, j) {
        assert b.At(i, j) <= 1;
      }
    }
  }

  /** erode keeps a 1 exactly where all its 4 (or 8) neighbours exist and
      are 1; in particular every cell on the edge becomes 0. */
  lemma ErodeMeaning(b: Bitmap, x: nat, y: nat, includeDiagonals: bool)
    requires b.Valid() && IsBinary(b) && x < b.width && y < b.height
    ensures ErodeCell(b, x, y, includeDiagonals) == 1 <==> b.At(x, y) == 1 && AllNeighboursSet(b, x, y, includeDiagonals)
    ensures x == 0 || y == 0 || x == b.width - 1 || y == b.height - 1 ==> ErodeCell(b, x, y, includeDiagonals) == 0
  {
    BinaryNeighbours(b);
  }

  /** dilate sets a cell exactly where it or some in-bounds neighbour is
      non-zero. */
  lemma DilateMeaning(b: Bitmap, x: nat, y: nat, includeDiagonals: bool)
    requires b.Valid() && IsBinary(b) && x < b.width && y < b.height
    ensures DilateCell(b, x, y, includeDiagonals) == 1 <==> b.At(x, y) != 0 || AnyNeighbourSet(b, x, y, includeDiagonals)
  {
    BinaryNeighbours(b);
  }

  /** border marks exactly the 0 cells with some non-zero neighbour. */
  lemma BorderMeaning(b: Bitmap, x: nat, y: nat, includeDiagonals: bool)
    requires b.Valid() && IsBinary(b) && x < b.width && y < b.height
    ensures BorderCell(b, x, y, includeDiagonals) == 1 <==> b.At(x, y) == 0 && AnyNeighbourSet(b, x, y, includeDiagonals)
  {
    DilateMeaning(b, x, y, includeDiagonals);
  }

  /** On 0/1 bitmaps erode(b) <= b <= dilate(b), and border(b) is dilate(b)
      without b. */
  lemma ErodeDilateOrder(b: Bitmap, x: nat, y: nat, includeDiagonals: bool)
    requires b.Valid() && IsBinary(b) && x < b.width && y < b.height
    ensures ErodeCell(b, x, y, includeDiagonals) <= b.At(x, y) <= DilateCell(b, x, y, includeDiagonals)
    ensures BorderCell(b, x, y, includeDiagonals) as int == DilateCell(b, x, y, includeDiagonals) as int - b.At(x, y) as int
  {
    assert b.At(x, y) <= 1;
  }

  // ---------------------------------------------------------------------
  // The transforms

  method Erode(b: Bitmap, includeDiagonals: bool) returns (out: Bitmap)
    requires b.Valid()
    ensures out.Valid() && out.width == b.width && out.height == b.height
    ensures forall x: nat, y: nat | x < b.width && y < b.height :: out.At(x, y) == ErodeCell(b, x, y, includeDiagonals)
    ensures IsBinary(out)
  {
    out := Create(b.width, b.height, 0);
    var centerY := 0;
    while centerY < b.height
      invariant centerY <= b.height
      invariant out.Valid() && out.width == b.width && out.height == b.height
      invariant forall i: nat, j: nat | i < b.width && j < centerY :: out.At(i, j) == ErodeCell(b, i, j, includeDiagonals)
    {
      var centerX := 0;
      while centerX < b.width
        invariant centerX <= b.width
        invariant out.Valid() && out.width == b.width && out.height == b.height
        invariant forall i: nat, j: nat | i < b.width && j < centerY :: out.At(i, j) == ErodeCell(b, i, j, includeDiagonals)
        invariant forall i: nat | i < centerX :: out.At(i, centerY) == ErodeCell(b, i, centerY, includeDiagonals)
      {
        if b.At(centerX, centerY) == 1 {
          var sum := NeighbourSum(b, centerX, centerY, includeDiagonals);
          if sum == (if includeDiagonals then 8 else 4) {
            out := out.Set(centerX, centerY, 1);
          } else {
            out := out.Set(centerX, centerY, 0);
          }
        } else {
          out := out.Set(centerX, centerY, 0);
        }
        centerX := centerX + 1;
      }
      centerY := centerY + 1;
    }
  }

  method Dilate(b: Bitmap, includeDiagonals: bool) returns (out: Bitmap)
    requires b.Valid()
    ensures out.Valid() && out.width == b.width && out.height == b.height
    ensures forall x: nat, y: nat | x < b.width && y < b.height :: out.At(x, y) == DilateCell(b, x, y, includeDiagonals)
    ensures IsBinary(out)
  {
    out := Create(b.width, b.height, 0);
    var centerY := 0;
    while centerY < b.height
      invariant centerY <= b.height
      invariant out.Valid() && out.width == b.width && out.height == b.height
      invariant forall i: nat, j: nat | i < b.width && j < centerY :: out.At(i, j) == DilateCell(b, i, j, includeDiagonals)
    {
      var centerX := 0;
      while centerX < b.width
        invariant centerX <= b.width
        invariant out.Valid() && out.width == b.width && out.height == b.height
        invariant forall i: nat, j: nat | i < b.width && j < centerY :: out.At(i, j) == DilateCell(b, i, j, includeDiagonals)
        invariant forall i: nat | i < centerX :: out.At(i, centerY) == DilateCell(b, i, centerY, includeDiagonals)
      {
        if b.At(centerX, centerY) == 0 {
          var sum := NeighbourSum(b, centerX, centerY, includeDiagonals);
          if sum == 0 {
            out := out.Set(centerX, centerY, 0);
          } else {
            out := out.Set(centerX, centerY, 1);
          }
        } else {
          out := out.Set(centerX, centerY, 1);
        }
        centerX := centerX + 1;
      }
      centerY := centerY + 1;
    }
  }

  method Border(b: Bitmap, includeDiagonals: bool) returns (out: Bitmap)
    requires b.Valid()
    ensures out.Valid() && out.width == b.width && out.height == b.height
    ensures forall x: nat, y: nat | x < b.width && y < b.height :: out.At(x, y) == BorderCell(b, x, y, includeDiagonals)
    ensures IsBinary(out)
  {
    out := Create(b.width, b.height, 0);
    var centerY := 0;
    while centerY < b.height
      invariant centerY <= b.height
      invariant out.Valid() && out.width == b.width && out.height == b.height
      invariant forall i: nat, j: nat | i < b.width && j < centerY :: out.At(i, j) == BorderCell(b, i, j, includeDiagonals)
    {
      var centerX := 0;
      while centerX < b.width
        invariant centerX <= b.width
        invariant out.Valid() && out.width == b.width && out.height == b.height
        invariant forall i: nat, j: nat | i < b.width && j < centerY :: out.At(i, j) == BorderCell(b, i, j, includeDiagonals)
        invariant forall i: nat | i < centerX :: out.At(i, centerY) == BorderCell(b, i, centerY, includeDiagonals)
      {
        if b.At(centerX, centerY) == 0 {
          var sum := NeighbourSum(b, centerX, centerY, includeDiagonals);
          if sum == 0 {
            out := out.Set(centerX, centerY, 0);
          } else {
            out := out.Set(centerX, centerY, 1);
          }
        } else {
          out := out.Set(centerX, centerY, 0);
        }
        centerX := centerX + 1;
      }
      centerY := centerY + 1;
    }
  }

  /** shift: out(x + deltaX, y + deltaY) = b(x, y) wherever that target is
      inside the bitmap, fill everywhere else. The size_t wrap of a negative
      target makes it fail the `>= width` test, so the model compares the
      mathematical target with both bounds. */
  method Shift(b: Bitmap, deltaX: int, deltaY: int, fill: uint8) returns (out: Bitmap)
    requires b.Valid()
    ensures out.Valid() && out.width == b.width && out.height == b.height
    ensures forall x: nat, y: nat | x < b.width && y < b.height && b.InBounds(x + deltaX, y + deltaY) ::
      out.At(x + deltaX, y + deltaY) == b.At(x, y)
    ensures forall x: nat, y: nat | x < b.width && y < b.height :: out.At(x, y) == ShiftCell(b, x, y, deltaX, deltaY, fill)
  {
    out := Create(b.width, b.height, fill);
    var y := 0;
    while y < b.height
      invariant y <= b.height
      invariant out.Valid() && out.width == b.width && out.height == b.height
      invariant forall i: nat, j: nat | i < b.width && j < b.height ::
        out.At(i, j) == if b.InBounds(i - deltaX, j - deltaY) && j - deltaY < y then b.At(i - deltaX, j - deltaY) else fill
    {
      var x := 0;
      while x < b.width
        invariant x <= b.width
        invariant out.Valid() && out.width == b.width && out.height == b.height
        invariant forall i: nat, j: nat | i < b.width && j < b.height ::
          out.At(i, j) == if b.InBounds(i - deltaX, j - deltaY) && RowMajorBefore(i - deltaX, j - deltaY, x, y)
                          then b.At(i - deltaX, j - deltaY) else fill
      {
        var outX := x + deltaX;
        var outY := y + deltaY;
        if outX < 0 || outX >= out.width {
        } else if outY < 0 || outY >= out.height {
        } else {
          out := out.Set(outX, outY, b.At(x, y));
        }
        x := x + 1;
      }
      y := y + 1;
    }
  }

  /** Shifting back undoes a shift on every cell whose value survived. */
  lemma ShiftBack(b: Bitmap, s: Bitmap, r: Bitmap, deltaX: int, deltaY: int, fill: uint8, x: nat, y: nat)
    requires b.Valid() && s.Valid() && r.Valid()
    requires s.width == b.width && s.height == b.height && r.width == b.width && r.height == b.height
    requires forall i: nat, j: nat | i < b.width && j < b.height :: s.At(i, j) == ShiftCell(b, i, j, deltaX, deltaY, fill)
    requires forall i: nat, j: nat | i < b.width && j < b.height :: r.At(i, j) == ShiftCell(s, i, j, -deltaX, -deltaY, fill)
    requires x < b.width && y < b.height && b.InBounds(x + deltaX, y + deltaY)
    ensures r.At(x, y) == b.At(x, y)
  {
    assert r.At(x, y) == s.At(x + deltaX, y + deltaY);
  }

  method Invert(b: Bitmap) returns (out: Bitmap)
    requires b.Valid()
    ensures out.Valid() && out.width == b.width && out.height == b.height
    ensures forall x: nat, y: nat | x < b.width && y < b.height :: out.At(x, y) == if b.At(x, y) == 0 then 1 else 0
    ensures IsBinary(out)
    ensures IsBinary(b) ==> forall x: nat, y: nat | x < b.width && y < b.height :: out.At(x, y) as int == 1 - b.At(x, y) as int
  {
    out := Create(b.width, b.height, 0);
    var y := 0;
    while y < b.height
      invariant y <= b.height
      invariant out.Valid() && out.width == b.width && out.height == b.height
      invariant forall i: nat, j: nat | i < b.width && j < y :: out.At(i, j) == if b.At(i, j) == 0 then 1 else 0
    {
      var x := 0;
      while x < b.width
        invariant x <= b.width
        invariant out.Valid() && out.width == b.width && out.height == b.height
        invariant forall i: nat, j: nat | i < b.width && j < y :: out.At(i, j) == if b.At(i, j) == 0 then 1 else 0
        invariant forall i: nat | i < x :: out.At(i, y) == if b.At(i, y) == 0 then 1 else 0
      {
        out := out.Set(x, y, if b.At(x, y) == 0 then 1 else 0);
        x := x + 1;
      }
      y := y + 1;
    }
  }

  /** The mask cell (x - offsetX, y - offsetY) that masks bitmap cell (x, y),
      when (x, y) lies in the overlap region. */
  function MaskCell(b: Bitmap, m: Bitmap, x: nat, y: nat, offsetX: int, offsetY: int): (v: uint8)
    requires b.Valid() && m.Valid() && x < b.width && y < b.height
    requires offsetX + m.width >= b.width && offsetY + m.height >= b.height
    ensures v == 0 || v == b.At(x, y)
    ensures x < offsetX || y < offsetY ==> v == b.At(x, y)
  {
    if x >= Max(0, offsetX) && y >= Max(0, offsetY) && m.At(x - offsetX, y - offsetY) == 1 then 0 else b.At(x, y)
  }

  /** mask: 0 where the overlapping mask cell is 1, the bitmap elsewhere. The
      source tests the overlap with an inclusive upper bound, which reads
      the mask out of range when the mask ends left of or above the
      bitmap's far edge; the precondition excludes those placements. */
  method Mask(b: Bitmap, m: Bitmap, offsetX: int, offsetY: int) returns (out: Bitmap)
    requires b.Valid() && m.Valid()
    requires offsetX + m.width >= b.width && offsetY + m.height >= b.height
    ensures out.Valid() && out.width == b.width && out.height == b.height
    ensures forall x: nat, y: nat | x < b.width && y < b.height :: out.At(x, y) == MaskCell(b, m, x, y, offsetX, offsetY)
    ensures forall x: nat, y: nat | x < b.width && y < b.height :: out.At(x, y) == 0 || out.At(x, y) == b.At(x, y)
  {
    var overlapRegionX1 := Max(0, offsetX);
    var overlapRegionY1 := Max(0, offsetY);
    var overlapRegionX2 := Min(b.width, offsetX + m.width);
    var overlapRegionY2 := Min(b.height, offsetY + m.height);
    out := Create(b.width, b.height, 0);
    var y := 0;
    while y < b.height
      invariant y <= b.height
      invariant out.Valid() && out.width == b.width && out.height == b.height
      invariant forall i: nat, j: nat | i < b.width && j < y :: out.At(i, j) == MaskCell(b, m, i, j, offsetX, offsetY)
    {
      var x := 0;
      while x < b.width
        invariant x <= b.width
        invariant out.Valid() && out.width == b.width && out.height == b.height
        invariant forall i: nat, j: nat | i < b.width && j < y :: out.At(i, j) == MaskCell(b, m, i, j, offsetX, offsetY)
        invariant forall i: nat | i < x :: out.At(i, y) == MaskCell(b, m, i, y, offsetX, offsetY)
      {
        if x >= overlapRegionX1 && x <= overlapRegionX2 && y >= overlapRegionY1 && y <= overlapRegionY2 {
          if m.At(x - offsetX, y - offsetY) == 1 {
            out := out.Set(x, y, 0);
          } else {
            out := out.Set(x, y, b.At(x, y));
          }
        } else {
          out := out.Set(x, y, b.At(x, y));
        }
        x := x + 1;
      }
      y := y + 1;
    }
  }

  /** With no offset and equal sizes, mask clears exactly the cells where
      the mask is 1. */
  lemma MaskAligned(b: Bitmap, m: Bitmap, x: nat, y: nat)
    requires b.Valid() && m.Valid() && m.width == b.width && m.height == b.height
    requires x < b.width && y < b.height
    ensures MaskCell(b, m, x, y, 0, 0) == if m.At(x, y) == 1 then 0 else b.At(x, y)
  {
  }
}
