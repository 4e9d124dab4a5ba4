/** The tile enumeration of src/TileType.hpp: six terrain kinds and three
    out-of-band sentinels (a transient flood-fill marker, the pattern
    wildcard and the patch "leave unchanged" marker). */
module TileTypes {
  import opened Util

  datatype TileType =
    | Grass
    | Street
    | Building
    | BuildingEntrance
    | Tree
    | Water
    | Temporary
    | PatternAny
    | PatchKeep
  {
    /** The enumerator's underlying uint8 value. */
    function Value(): (v: uint8)
      ensures v <= 5 || 253 <= v
    {
      match this
      case Grass => 0
      case Street => 1
      case Building => 2
      case BuildingEntrance => 3
      case Tree => 4
      case Water => 5
      case Temporary => 253
      case PatternAny => 254
      case PatchKeep => 255
    }

    /** The sentinels never describe terrain. */
    predicate IsSentinel() {
      this == Temporary || this == PatternAny || this == PatchKeep
    }
  }

  /** Distinct enumerators have distinct underlying values, and the terrain
      kinds are exactly the values 0..5. */
  lemma ValueInjective(a: TileType, b: TileType)
    ensures a.Value() == b.Value() <==> a == b
    ensures a.IsSentinel() <==> a.Value() >= 253
  {
  }
}
