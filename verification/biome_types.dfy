/** The `BiomeType` enumeration. Its ordinal is load-bearing: it indexes the
    biome table, the vote array, the colour table and the discontinuity
    matrix, and it names each biome's configuration file. */
module BiomeTypes {

  /** The nine real biome kinds, in declaration order. The C# enum's trailing
      `Count` member is a sizing sentinel, not a biome, and appears here as
      the constant `Count`. */
  datatype BiomeType =
    | Tundra
    | Taiga
    | TemperateGrassland
    | TemperateDeciduousForest
    | TropicalSeasonalForest
    | Desert
    | Savanna
    | TropicalRainforest
    | Mountain

  /** `(int)BiomeType.Count`. */
  const Count: nat := 9

  /** `(int)t`: the position of `t` in the declaration. */
  function Ordinal(t: BiomeType): (i: nat)
    ensures i < Count
  {
    match t
    case Tundra => 0
    case Taiga => 1
    case TemperateGrassland => 2
    case TemperateDeciduousForest => 3
    case TropicalSeasonalForest => 4
    case Desert => 5
    case Savanna => 6
    case TropicalRainforest => 7
    case Mountain => 8
  }

  /** `(BiomeType)i` for an index below `Count`: the inverse of `Ordinal`. */
  function FromOrdinal(i: nat): (t: BiomeType)
    requires i < Count
    ensures Ordinal(t) == i
  {
    if i == 0 then Tundra
    else if i == 1 then Taiga
    else if i == 2 then TemperateGrassland
    else if i == 3 then TemperateDeciduousForest
    else if i == 4 then TropicalSeasonalForest
    else if i == 5 then Desert
    else if i == 6 then Savanna
    else if i == 7 then TropicalRainforest
    else Mountain
  }

  /** Every biome kind has an ordinal below `Count`, and the ordinal
      determines the kind: the enumeration and `0..Count-1` are in bijection. */
  lemma OrdinalBijection(t: BiomeType)
    ensures Ordinal(t) < Count
    ensures FromOrdinal(Ordinal(t)) == t
  {
  }

  /** `t.ToString()`: the identifier the kind is declared under. */
  function TypeName(t: BiomeType): string
  {
    match t
    case Tundra => "Tundra"
    case Taiga => "Taiga"
    case TemperateGrassland => "TemperateGrassland"
    case TemperateDeciduousForest => "TemperateDeciduousForest"
    case TropicalSeasonalForest => "TropicalSeasonalForest"
    case Desert => "Desert"
    case Savanna => "Savanna"
    case TropicalRainforest => "TropicalRainforest"
    case Mountain => "Mountain"
  }

  /** The configuration file a biome kind is loaded from: its name plus ".json". */
  function ConfigFileName(t: BiomeType): string
  {
    TypeName(t) + ".json"
  }

  /** Distinct kinds are loaded from distinct files. */
  lemma ConfigFileNamesDistinct(t: BiomeType, u: BiomeType)
    requires t != u
    ensures ConfigFileName(t) != ConfigFileName(u)
  {
    var ft, fu := ConfigFileName(t), ConfigFileName(u);
    assert ft[..|ft| - 5] == TypeName(t);
    assert fu[..|fu| - 5] == TypeName(u);
  }
}
