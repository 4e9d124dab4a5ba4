/** UpdateRect of src/UpdateRect.hpp: the inclusive bounding box of the grid
    cells changed during a frame. The all-zero rectangle doubles as "empty",
    so a rectangle that covers only cell (0, 0) is indistinguishable from an
    empty one. */
module UpdateRects {
  import opened Util

  /** The four fields, as a value. */
  datatype Rect = Rect(left: nat, top: nat, right: nat, bottom: nat)
  {
    /** empty(): the four fields add up to zero. */
    predicate IsEmpty() {
      left + top + right + bottom == 0
    }

    /** Cell (x, y) lies inside the inclusive box. */
    ghost predicate Covers(x: nat, y: nat) {
      left <= x <= right && top <= y <= bottom
    }
  }

  const Zero := Rect(0, 0, 0, 0)

  /** The rectangle add(x, y) leaves behind. */
  function Added(r: Rect, x: nat, y: nat): (s: Rect)
  {
    if !r.IsEmpty() then
      Rect(Min(r.left, x), Min(r.top, y), Max(r.right, x), Max(r.bottom, y))
    else
      Rect(x, y, x, y)
  }

  /** Only the all-zero rectangle is empty. */
  lemma EmptyIsZero(r: Rect)
    ensures r.IsEmpty() <==> r == Zero
  {
  }

  /** Adding to an empty rectangle makes it exactly the one cell. */
  lemma AddToEmpty(r: Rect, x: nat, y: nat)
    requires r.IsEmpty()
    ensures forall x': nat, y': nat :: Added(r, x', y').Covers(x, y) <==> x == x' && y == y'
  {
  }

  /** Adding to a non-empty rectangle keeps every covered cell, covers the
      new one, and moves no side inwards. */
  lemma AddToNonEmpty(r: Rect, x: nat, y: nat)
    requires !r.IsEmpty()
    ensures Added(r, x, y).Covers(x, y)
    ensures forall x': nat, y': nat | r.Covers(x', y') :: Added(r, x, y).Covers(x', y')
    ensures var s := Added(r, x, y); s.left <= r.left && s.top <= r.top && s.right >= r.right && s.bottom >= r.bottom
  {
  }

  /** The smallest box: every side of the result touches the old box or the
      new cell. */
  lemma AddIsTight(r: Rect, x: nat, y: nat)
    requires !r.IsEmpty()
    ensures var s := Added(r, x, y);
      && (s.left == r.left || s.left == x) && (s.right == r.right || s.right == x)
      && (s.top == r.top || s.top == y) && (s.bottom == r.bottom || s.bottom == y)
  {
  }

  /** Because the rectangle that covers only (0, 0) counts as empty,
      add(0, 0) followed by add(x, y) forgets (0, 0). */
  lemma AddOriginThenPoint(x: nat, y: nat)
    ensures Added(Added(Zero, 0, 0), x, y) == Rect(x, y, x, y)
    ensures (x, y) != (0, 0) ==> !Added(Added(Zero, 0, 0), x, y).Covers(0, 0)
  {
  }

  class UpdateRect {
    var left: nat
    var top: nat
    var right: nat
    var bottom: nat

    function Bounds(): Rect
      reads this
    {
      Rect(left, top, right, bottom)
    }

    /** UpdateRect() = default: all four fields zero. */
    constructor ()
      ensures Bounds() == Zero
    {
      left, top, right, bottom := 0, 0, 0, 0;
    }

    constructor FromSides(left: nat, top: nat, right: nat, bottom: nat)
      ensures Bounds() == Rect(left, top, right, bottom)
    {
      this.left, this.top, this.right, this.bottom := left, top, right, bottom;
    }

    method Reset()
      modifies this
      ensures Bounds() == Zero
    {
      left := 0;
      top := 0;
      right := 0;
      bottom := 0;
    }

    /** empty(): see EmptyIsZero for what it means. */
    function Empty(): bool
      reads this
    {
      Bounds().IsEmpty()
    }

    method Add(x: nat, y: nat)
      modifies this
      ensures Bounds() == Added(old(Bounds()), x, y)
    {
      if !Empty() {
        left := Min(left, x);
        top := Min(top, y);
        right := Max(right, x);
        bottom := Max(bottom, y);
      } else {
        left := x;
        top := y;
        right := x;
        bottom := y;
      }
    }

    /** right - left + 1: the number of covered columns. */
    function Width(): (w: int)
      reads this
      ensures w > 0 <==> left <= right
      ensures w > 0 ==> left + w - 1 == right
    {
      right - left + 1
    }

    /** bottom - top + 1: the number of covered rows. */
    function Height(): (h: int)
      reads this
      ensures h > 0 <==> top <= bottom
      ensures h > 0 ==> top + h - 1 == bottom
    {
      bottom - top + 1
    }
  }
}
