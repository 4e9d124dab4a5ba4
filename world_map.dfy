/** getBaseCostForValue of src/WorldMap.hpp: the base traversal cost of a
    tile kind. A cost of 0 marks a tile nobody walks on. */
module WorldMaps {
  import opened Util
  import opened TileTypes
  import opened Maps

  /** The world grid, Map<TileType>. */
  type WorldMap = Map<TileType>

  /** The cost map, Map<uint8>. */
  type CostMap = Map<uint8>

  /** The range of std::uniform_int_distribution<>{14, 16} for grass. */
  predicate IsGrassDraw(d: int) {
    14 <= d <= 16
  }

  /** The cost of tile kind t; `grassDraw` is the random number the
      generator produced for a grass tile and is ignored for every other
      kind. */
  function BaseCostForValue(t: TileType, grassDraw: uint8): (c: uint8)
    requires IsGrassDraw(grassDraw as int)
    ensures t == Grass ==> c == grassDraw
    ensures t == Street ==> c == 10
    ensures t == BuildingEntrance ==> c == 12
    ensures t == Water ==> c == 100
    ensures c == 0 <==> t in {Building, Tree, Temporary, PatternAny, PatchKeep}
  {
    match t
    case Grass => grassDraw
    case Street => 10
    case Building => 0
    case BuildingEntrance => 12
    case Tree => 0
    case Water => 100
    case _ => 0
  }

  /** c is a cost getBaseCostForValue can return for t. */
  ghost predicate IsBaseCost(t: TileType, c: uint8) {
    exists d: uint8 | IsGrassDraw(d as int) :: BaseCostForValue(t, d) == c
  }

  /** The possible costs, kind by kind: grass gets some cost in [14, 16]
      and every other kind exactly one cost. */
  lemma IsBaseCostCharacterised(t: TileType, c: uint8)
    ensures IsBaseCost(t, c) <==>
      if t == Grass then 14 <= c <= 16 else c == BaseCostForValue(t, 14)
  {
    if t == Grass && 14 <= c <= 16 {
      assert BaseCostForValue(t, c) == c;
    }
    if t != Grass && c == BaseCostForValue(t, 14) {
      assert BaseCostForValue(t, 14) == c;
    }
  }
}
