/** The small helpers of `Utils`: the biome colour table and the length
    check of the static constructor, the domain-warp seed derivation, and
    the grey level of a height in the heightmap image. */
module Utils {
  import opened Wrappers
  import opened BiomeTypes

  // ---------------------------------------------------------------------
  // Seeds
  // ---------------------------------------------------------------------

  /** The constant `CreateDomainWarpFromConfig` mixes into the seed. */
  const WarpSalt: bv32 := 1010101

  /** The domain-warp seed, `config.Seed ^ 1010101`, over the 32 bits of
      the C# `int`: it never equals the base seed, and XOR-ing the salt in
      again recovers the base seed. */
  function WarpSeed(seed: bv32): (r: bv32)
    ensures r != seed
    ensures r ^ WarpSalt == seed
  {
    seed ^ WarpSalt
  }

  /** Distinct base seeds give distinct warp seeds. */
  lemma WarpSeedInjective(a: bv32, b: bv32)
    requires WarpSeed(a) == WarpSeed(b)
    ensures a == b
  {
    calc {
      a;
      WarpSeed(a) ^ WarpSalt;
      WarpSeed(b) ^ WarpSalt;
      b;
    }
  }

  /** Deriving twice returns the base seed. */
  lemma WarpSeedInvolution(seed: bv32)
    ensures WarpSeed(WarpSeed(seed)) == seed
  {
    assert WarpSeed(seed) ^ WarpSalt == seed;
  }

  // ---------------------------------------------------------------------
  // Grey levels
  // ---------------------------------------------------------------------

  /** `(byte)h` in an unchecked context: the low eight bits of the two's
      complement `int`, which is `h` modulo 256 with a non-negative
      remainder. */
  function GreyLevel(h: int): (g: nat)
    ensures g < 256
    ensures (h - g) % 256 == 0
    ensures 0 <= h < 256 ==> g == h
  {
    h % 256
  }

  /** Heights 256 apart are drawn with the same grey: a height of 256 is
      drawn black, like 0. */
  lemma GreyLevelWraps(h: int)
    ensures GreyLevel(h + 256) == GreyLevel(h)
    ensures GreyLevel(256) == 0 && GreyLevel(-1) == 255
  {
    var g := GreyLevel(h);
    assert (h + 256 - g) % 256 == 0;
  }

  // ---------------------------------------------------------------------
  // The colour table
  // ---------------------------------------------------------------------

  /** The named colours of the table. */
  datatype Color =
    | White
    | DarkGray
    | DarkSlateGray
    | DarkGreen
    | LimeGreen
    | Yellow
    | DarkKhaki
    | GreenYellow
    | DarkRed
    | DarkBlue
    | DeepSkyBlue

  /** `BiomeColors`, parallel to the biome kinds by ordinal. */
  const BiomeColors: seq<Color> := [
    White, DarkGray, DarkSlateGray, DarkGreen, LimeGreen, Yellow,
    DarkKhaki, GreenYellow, DarkRed, DarkBlue, DeepSkyBlue
  ]

  /** The exception of the static constructor; its message is fixed and
      carries neither length. */
  datatype InitError = LengthMismatch

  /** The static constructor: the table is usable iff it has one colour
      per biome kind. */
  function StaticInit(colors: seq<Color>): (r: Result<seq<Color>, InitError>)
    ensures r.Ok? <==> |colors| == Count
    ensures r.Ok? ==> r.value == colors
  {
    if |colors| != Count then Err(LengthMismatch) else Ok(colors)
  }

  /** `BiomeColors[(int)t]` after the static constructor: the failure of
      the constructor surfaces at every use, and a table that passed it has
      a colour for every kind. */
  function ColorOf(init: Result<seq<Color>, InitError>, t: BiomeType): (r: Result<Color, InitError>)
    requires init.Ok? ==> |init.value| == Count
    ensures r.Ok? <==> init.Ok?
    ensures r.Ok? ==> r.value == init.value[Ordinal(t)]
  {
    match init
    case Err(e) => Err(e)
    case Ok(colors) => Ok(colors[Ordinal(t)])
  }

  /** The table as written has 11 colours for 9 kinds, so the static
      constructor throws and no colour is ever looked up. */
  lemma ShippedTableRejected(t: BiomeType)
    ensures |BiomeColors| == 11
    ensures StaticInit(BiomeColors) == Err(LengthMismatch)
    ensures ColorOf(StaticInit(BiomeColors), t).Err?
  {
  }

  /** The first nine colours of the table pass the check and give each
      kind the colour at its ordinal. */
  lemma TruncatedTableAccepted(t: BiomeType)
    ensures StaticInit(BiomeColors[..Count]).Ok?
    ensures ColorOf(StaticInit(BiomeColors[..Count]), t) == Ok(BiomeColors[Ordinal(t)])
  {
  }
}
