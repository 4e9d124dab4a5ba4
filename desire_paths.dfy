/** adjustDesirePathStress and decayDesirePaths of src/DesirePaths.cpp. Every
    cell carries a byte of "stress" (how much it has been walked on) and a
    byte of base cost; each full 64 points of stress take one point off the
    cost, so well-trodden grass becomes cheaper to walk on. */
module DesirePaths {
  import opened Util
  import opened Maps
  import opened WorldMaps

  /** The stress grid, Map<uint8>. */
  type DesirePathsMap = Map<uint8>

  /** std::clamp(v, 0, 255). */
  function Clamp(v: int): (r: uint8)
    ensures 0 <= v <= 255 ==> r as int == v
    ensures v < 0 ==> r == 0
    ensures v > 255 ==> r == 255
  {
    if v < 0 then 0 else if v > 255 then 255 else v as uint8
  }

  /** Conversion of an int to std::uint8_t: the value modulo 256. */
  function ToByte(v: int): (r: uint8)
    ensures (r as int - v) % 256 == 0
    ensures 0 <= v < 256 ==> r as int == v
  {
    (v % 256) as uint8
  }

  /** The cost discount a stress level earns: stress / 64. */
  function Discount(s: uint8): (d: int)
    ensures 0 <= d <= 3
    ensures d == 0 <==> s < 64
    ensures d == 3 <==> s >= 192
  {
    s as int / 64
  }

  /** The stress a cell holds after an adjustment: the sum, saturated at
      both ends of the byte. */
  function StressAfter(s: uint8, adjustment: int): (r: uint8)
    ensures 0 <= s as int + adjustment <= 255 ==> r as int == s as int + adjustment
    ensures s as int + adjustment >= 255 ==> r == 255
    ensures s as int + adjustment <= 0 ==> r == 0
    ensures adjustment >= 0 ==> s <= r
    ensures adjustment <= 0 ==> r <= s
  {
    Clamp(s as int + adjustment)
  }

  /** The cost a cell holds after an adjustment of its stress: it moves
      by the change of the discount, modulo the byte width, and stays put
      when the discount does not change. */
  function CostAfter(s: uint8, c: uint8, adjustment: int): (r: uint8)
    ensures var d := Discount(s) - Discount(StressAfter(s, adjustment));
      -3 <= d <= 3 && (r as int - (c as int + d)) % 256 == 0
    ensures Discount(StressAfter(s, adjustment)) == Discount(s) ==> r == c
  {
    var after := StressAfter(s, adjustment);
    if after == s then c else ToByte(c as int + Discount(s) - Discount(after))
  }

  /** A single adjustment moves the cost by the change in stress / 64, which
      lies in [-3, 3], modulo the byte width of the cost cell. */
  lemma CostStep(s: uint8, c: uint8, adjustment: int)
    ensures var d := Discount(s) - Discount(StressAfter(s, adjustment));
      -3 <= d <= 3 && (CostAfter(s, c, adjustment) as int - (c as int + d)) % 256 == 0
  {
  }

  /** adjustDesirePathStress on cell (x, y): returns the clamped stress and
      the updated stress and cost grids. */
  method AdjustDesirePathStress(x: nat, y: nat, stress: DesirePathsMap, cost: CostMap, adjustment: int)
    returns (after: uint8, stress': DesirePathsMap, cost': CostMap)
    requires stress.Valid() && x < stress.width && y < stress.height
    requires cost.Valid() && x < cost.width && y < cost.height
    ensures after == StressAfter(stress.At(x, y), adjustment)
    ensures after as int == if stress.At(x, y) as int + adjustment < 0 then 0
                            else if stress.At(x, y) as int + adjustment > 255 then 255
                            else stress.At(x, y) as int + adjustment
    ensures after == stress.At(x, y) ==> stress' == stress && cost' == cost
    ensures after != stress.At(x, y) ==>
      && stress' == stress.Set(x, y, after)
      && cost' == cost.Set(x, y, CostAfter(stress.At(x, y), cost.At(x, y), adjustment))
  {
    var valueBefore := stress.At(x, y);
    var valueAfter := Clamp(valueBefore as int + adjustment);
    stress', cost' := stress, cost;
    if valueBefore != valueAfter {
      stress' := stress'.Set(x, y, valueAfter);
      var baseCostAdjustmentBefore := -(valueBefore as int / 64);
      var baseCostAdjustmentAfter := -(valueAfter as int / 64);
      cost' := cost'.Set(x, y, ToByte(cost'.At(x, y) as int - baseCostAdjustmentBefore + baseCostAdjustmentAfter));
    }
    return valueAfter, stress', cost';
  }

  /** The stress and cost of one cell after a sequence of adjustments. */
  function Run(s: uint8, c: uint8, adjustments: seq<int>): (uint8, uint8)
    decreases |adjustments|
  {
    if adjustments == [] then (s, c)
    else Run(StressAfter(s, adjustments[0]), CostAfter(s, c, adjustments[0]), adjustments[1..])
  }

  lemma ModSum(a: int, b: int, c: int)
    requires (a - b) % 256 == 0 && (b - c) % 256 == 0
    ensures (a - c) % 256 == 0
  {
    var k1, k2 := (a - b) / 256, (b - c) / 256;
    assert a - c == (k1 + k2) * 256;
  }

  /** The cost change telescopes: whatever adjustments hit a cell, its cost
      has moved by initial stress / 64 - final stress / 64 (modulo 256). */
  lemma {:induction false} Telescoping(s: uint8, c: uint8, adjustments: seq<int>)
    ensures var (s', c') := Run(s, c, adjustments);
      (c' as int - (c as int + Discount(s) - Discount(s'))) % 256 == 0
    decreases |adjustments|
  {
    if adjustments != [] {
      var a := adjustments[0];
      var s1, c1 := StressAfter(s, a), CostAfter(s, c, a);
      Telescoping(s1, c1, adjustments[1..]);
      var (s', c') := Run(s1, c1, adjustments[1..]);
      CostStep(s, c, a);
      ModSum(c' as int, c1 as int + Discount(s1) - Discount(s'), c as int + Discount(s) - Discount(s'));
    }
  }

  /** With a stress of 0 or 1 decay clears the cell; otherwise it takes 2. */
  lemma DecayStress(s: uint8)
    ensures StressAfter(s, -2) as int == if s <= 1 then 0 else s as int - 2
  {
  }

  /** The decay pass has adjusted every stress cell before (x, y) in
      row-major order, with the matching cost cells, and nothing else. */
  ghost predicate DecayedBefore(stress: DesirePathsMap, cost: CostMap, stress': DesirePathsMap, cost': CostMap, x: nat, y: nat)
    requires stress.Valid() && cost.Valid() && stress.width <= cost.width && stress.height <= cost.height
  {
    && stress'.Valid() && stress'.width == stress.width && stress'.height == stress.height
    && cost'.Valid() && cost'.width == cost.width && cost'.height == cost.height
    && (forall i: nat, j: nat | i < stress.width && j < stress.height ::
          stress'.At(i, j) == if RowMajorBefore(i, j, x, y) then StressAfter(stress.At(i, j), -2) else stress.At(i, j))
    && (forall i: nat, j: nat | i < cost.width && j < cost.height ::
          cost'.At(i, j) == if i < stress.width && j < stress.height && RowMajorBefore(i, j, x, y) then CostAfter(stress.At(i, j), cost.At(i, j), -2) else cost.At(i, j))
  }

  /** Adjusting cell (x, y) by -2 extends the decayed prefix by that cell. */
  lemma DecayStep(stress: DesirePathsMap, cost: CostMap, s1: DesirePathsMap, c1: CostMap, x: nat, y: nat,
                  after: uint8, s2: DesirePathsMap, c2: CostMap)
    requires stress.Valid() && cost.Valid() && stress.width <= cost.width && stress.height <= cost.height
    requires x < stress.width && y < stress.height
    requires DecayedBefore(stress, cost, s1, c1, x, y)
    requires after == StressAfter(s1.At(x, y), -2)
    requires after == s1.At(x, y) ==> s2 == s1 && c2 == c1
    requires after != s1.At(x, y) ==>
      && s2 == s1.Set(x, y, after)
      && c2 == c1.Set(x, y, CostAfter(s1.At(x, y), c1.At(x, y), -2))
    ensures DecayedBefore(stress, cost, s2, c2, x + 1, y)
  {
    assert s1.At(x, y) == stress.At(x, y) && c1.At(x, y) == cost.At(x, y);
    if after != s1.At(x, y) {
      forall i: nat, j: nat | i < stress.width && j < stress.height && (i, j) != (x, y)
        ensures s2.At(i, j) == s1.At(i, j)
      {
      }
      forall i: nat, j: nat | i < cost.width && j < cost.height && (i, j) != (x, y)
        ensures c2.At(i, j) == c1.At(i, j)
      {
      }
    }
  }

  /** decayDesirePaths: every stress cell takes an adjustment of -2, once,
      in row-major order. */
  method DecayDesirePaths(stress: DesirePathsMap, cost: CostMap) returns (stress': DesirePathsMap, cost': CostMap)
    requires stress.Valid() && cost.Valid()
    requires stress.width <= cost.width && stress.height <= cost.height
    ensures stress'.Valid() && stress'.width == stress.width && stress'.height == stress.height
    ensures cost'.Valid() && cost'.width == cost.width && cost'.height == cost.height
    ensures forall x: nat, y: nat | x < stress.width && y < stress.height ::
      stress'.At(x, y) as int == if stress.At(x, y) <= 1 then 0 else stress.At(x, y) as int - 2
    ensures forall x: nat, y: nat | x < stress.width && y < stress.height ::
      cost'.At(x, y) == CostAfter(stress.At(x, y), cost.At(x, y), -2)
    ensures forall x: nat, y: nat | x < cost.width && y < cost.height && !(x < stress.width && y < stress.height) ::
      cost'.At(x, y) == cost.At(x, y)
  {
    stress', cost' := stress, cost;
    var y := 0;
    while y < stress.height
      invariant y <= stress.height
      invariant DecayedBefore(stress, cost, stress', cost', 0, y)
    {
      var x := 0;
      while x < stress.width
        invariant x <= stress.width
        invariant DecayedBefore(stress, cost, stress', cost', x, y)
      {
        var after, s', c' := AdjustDesirePathStress(x, y, stress', cost', -2);
        DecayStep(stress, cost, stress', cost', x, y, after, s', c');
        stress', cost' := s', c';
        x := x + 1;
      }
      DecayRowDone(stress, cost, stress', cost', y);
      y := y + 1;
    }
    DecayDone(stress, cost, stress', cost');
  }

  lemma DecayRowDone(stress: DesirePathsMap, cost: CostMap, s1: DesirePathsMap, c1: CostMap, y: nat)
    requires stress.Valid() && cost.Valid() && stress.width <= cost.width && stress.height <= cost.height
    requires DecayedBefore(stress, cost, s1, c1, stress.width, y)
    ensures DecayedBefore(stress, cost, s1, c1, 0, y + 1)
  {
  }

  lemma DecayDone(stress: DesirePathsMap, cost: CostMap, s1: DesirePathsMap, c1: CostMap)
    requires stress.Valid() && cost.Valid() && stress.width <= cost.width && stress.height <= cost.height
    requires DecayedBefore(stress, cost, s1, c1, 0, stress.height)
    ensures forall x: nat, y: nat | x < stress.width && y < stress.height ::
      s1.At(x, y) as int == if stress.At(x, y) <= 1 then 0 else stress.At(x, y) as int - 2
    ensures forall x: nat, y: nat | x < stress.width && y < stress.height ::
      c1.At(x, y) == CostAfter(stress.At(x, y), cost.At(x, y), -2)
    ensures forall x: nat, y: nat | x < cost.width && y < cost.height && !(x < stress.width && y < stress.height) ::
      c1.At(x, y) == cost.At(x, y)
  {
    forall x: nat, y: nat | x < stress.width && y < stress.height
      ensures s1.At(x, y) as int == if stress.At(x, y) <= 1 then 0 else stress.At(x, y) as int - 2
    {
      DecayStress(stress.At(x, y));
    }
  }
}
