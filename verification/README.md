# Terrain generation core in Dafny

This project models the deterministic core of a procedural terrain generator
(the `TerrainGenerationPCG` C# program). The generator places each map cell in
a Whittaker diagram. Temperature and humidity are read from noise, and the
diagram maps them to one of nine biome kinds, or to none (`null`) when no
polygon claims the climate. Each biome is a polygon in the
(temperature, humidity) plane and has its own height noise. The generator then
smooths biome borders by sampling eight displaced points around each cell,
counts the height discontinuities between neighbouring cells, and can write
any grid as CSV.

The model covers the following parts:

- `biome_types.dfy` (`BiomeTypes`): the `BiomeType` enum, its ordinals, and the
  configuration file name `<Kind>.json` derived from each kind.
- `biomes.dfy` (`Biomes`): a biome's cached centre and bounding box, the
  deserialisation hook `OnDeserialized` (which first runs the `Utils` static
  constructor), and the cross-product polygon test (`InsideBiome`). Geometry
  is over exact reals.
- `whittaker.dfy` (`Whittaker`): the diagram constructor, which loads one
  configuration per kind in ordinal order, and the first-match lookup
  `GetBiome(t, h)`. The file system is a map from file names to deserialised
  configurations, and the outcome of the `Utils` static constructor is a
  parameter.
- `filtering.dfy` (`Filtering`): the eight filtering displacements and
  `GetFilteredBiomeAndHeight`. That covers the vote array, the strict-`>`
  argmax, and the height sum divided with C#'s truncating integer division.
  It also covers the nine `GetBiome` lookups, whose `null` result the filter
  dereferences.
- `discontinuities.dfy` (`Discontinuities`): the discontinuity scan at the end
  of `GenerateHeightMap` with its 32-bit height difference, the biome-pair
  tally matrix and the printed report.
  Report lines carry the two kinds' ordinals and the printed total.
- `csv.dfy` (`Csv`): `SaveNoiseToCSV` as a text builder. Also a parser that
  inverts it, and the decimal rendering of `int` cells with its inverse.
- `utils.dfy` (`Utils`): the colour table and the length check of the static
  constructor, the domain-warp seed `Seed ^ 1010101` over 32 bits, and the
  `(byte)` grey level of the heightmap image.

The noise library is outside the model. Where the C# asks noise for a value,
the model takes that value as a parameter:

- the climates `(t, h)` of the nine samples, as points given to `Classify`;
- `biome.GetHeight(x, y)`, as a function `heightOf` from a biome to its
  height at the cell.

## Model

| member | source | states |
|---|---|---|
| BiomeTypes.Ordinal | TerrainGenerationPCG/Bioms.cs:37-49 | `(int)t` of a kind lies below the `Count` member, which is 9 |
| BiomeTypes.FromOrdinal | TerrainGenerationPCG/Bioms.cs:37-49 | `(BiomeType)i` for `i < Count` is the kind whose ordinal is `i` |
| BiomeTypes.OrdinalBijection | TerrainGenerationPCG/Bioms.cs:37-49 | the cast from kind to int and back returns the same kind, so the nine kinds and the indices 0..8 are in one-to-one correspondence |
| BiomeTypes.ConfigFileNamesDistinct | TerrainGenerationPCG/Bioms.cs:66 | two different kinds read two different configuration files |
| Biomes.MinOf | TerrainGenerationPCG/Bioms.cs:117-120 | `points.Min` of a non-empty list is at most every coordinate and is attained by one of them |
| Biomes.MaxOf | TerrainGenerationPCG/Bioms.cs:117-120 | `points.Max` of a non-empty list is at least every coordinate and is attained by one of them |
| Biomes.MeanBetween | TerrainGenerationPCG/Bioms.cs:116-120 | `points.Average` lies between `points.Min` and `points.Max` on each axis |
| Biomes.Derive | TerrainGenerationPCG/Bioms.cs:116-120 | the centre and box can be computed exactly when the polygon has points (LINQ `Average`/`Min` throw on an empty list); name, kind, base height and points are kept |
| Biomes.OnDeserialized | TerrainGenerationPCG/Bioms.cs:112-121 | the hook succeeds iff the `Utils` static constructor succeeded and the polygon has points; a failed static constructor is rethrown before the points are looked at |
| Biomes.ShippedTableBlocksLoading | TerrainGenerationPCG/Bioms.cs:115 | with the colour table as shipped, deserialising any biome throws, because `CreateNoiseFromConfig` runs the failing static constructor |
| Biomes.CacheFacts | TerrainGenerationPCG/Bioms.cs:116-120 | every vertex lies in the cached box, every box side touches a vertex, and the centre lies in the box |
| Biomes.CacheInvariant | TerrainGenerationPCG/Bioms.cs:112-121 | a derived biome's box contains all its vertices and its centre |
| Biomes.CountsPartition | TerrainGenerationPCG/Bioms.cs:139-166 | every edge counts either left or right; no left count means no edge has a positive cross product, and no right count means every edge has one |
| Biomes.CountEdgeSides | TerrainGenerationPCG/Bioms.cs:139-166 | the loop and the closing edge count one side per vertex, `left == 0` iff the point is right of or on every edge, and `right == 0` iff it is strictly left of every edge |
| Biomes.InsideBiome | TerrainGenerationPCG/Bioms.cs:128-171 | outside the cached box the answer is false; inside it, the point is in the biome iff all edges place it on the same side |
| Biomes.OnEdgeLineCountsRight | TerrainGenerationPCG/Bioms.cs:147-166 | a zero cross product counts as right, so a point on an edge's line is accepted only by the all-right orientation |
| Biomes.SumCrossAffine | TerrainGenerationPCG/Bioms.cs:116 | the sum over the vertices of an edge's cross product is affine in the coordinate sums |
| Biomes.CrossAtMean | TerrainGenerationPCG/Bioms.cs:116 | if the vertices' cross products with an edge sum to at most 0, the averaged centre is right of or on that edge |
| Biomes.MeanRightOfEdge | TerrainGenerationPCG/Bioms.cs:116 | in a convex polygon with every vertex right of or on every edge, the centre is right of or on each edge |
| Biomes.CenterInsideConvex | TerrainGenerationPCG/Bioms.cs:86-171 | the cached centre of a counter-clockwise convex polygon passes `InsideBiome` |
| Biomes.MeanLeftOfEdge | TerrainGenerationPCG/Bioms.cs:116 | in a clockwise convex polygon (every vertex left of or on every edge, some vertex strictly left of each), the centre is strictly left of each edge |
| Biomes.CenterInsideConvexLeft | TerrainGenerationPCG/Bioms.cs:86-171 | the cached centre of a clockwise convex polygon passes `InsideBiome`, through the all-left branch |
| Biomes.ClockwiseTriangleExample | TerrainGenerationPCG/Bioms.cs:86-171 | the clockwise triangle (0,0), (0,1), (1,0) is convex only in the clockwise sense, and its centre (1/3, 1/3) is inside it |
| Biomes.TriangleBox | TerrainGenerationPCG/Bioms.cs:117-120 | the triangle (0,0), (1,0), (0,1) gets the box [0,1] x [0,1] |
| Biomes.ThreeEdges | TerrainGenerationPCG/Bioms.cs:139-166 | for three vertices, the all-right and all-left conditions are exactly the three edge cross-product signs |
| Biomes.TriangleExample | TerrainGenerationPCG/Bioms.cs:128-171 | (0.25, 0.25) is inside that triangle; (0.6, 0.6) passes the box test but fails the edge test |
| Whittaker.LoadOne | TerrainGenerationPCG/Bioms.cs:66 | one kind loads iff the `Utils` static constructor succeeded and its `<Kind>.json` exists and has points; the biome is that file's derived biome; a missing file fails before deserialisation; an error names that file |
| Whittaker.Build | TerrainGenerationPCG/Bioms.cs:61-68 | the constructor succeeds iff the `Utils` static constructor succeeded and every kind's file loads; it then holds `Count` biomes, entry i from `(BiomeType)i`'s file; on failure it names the first kind in ordinal order whose file does not load, which is the first kind when the static constructor failed |
| Whittaker.ShippedTableBlocksDiagram | TerrainGenerationPCG/Bioms.cs:66 | with the colour table as shipped, the first kind's file never loads, whatever the files hold |
| Whittaker.FirstInside | TerrainGenerationPCG/Bioms.cs:72 | the returned index is the first from k whose biome claims the point; none means no biome from k claims it |
| Whittaker.GetBiome | TerrainGenerationPCG/Bioms.cs:70-73 | the result is `null` iff no biome claims the point; otherwise it is the first biome in list order that does |
| Whittaker.OutsideAllBoxesUnclassified | TerrainGenerationPCG/Bioms.cs:131-134 | a climate outside every cached box gets `null` |
| Filtering.DisplacementAt | TerrainGenerationPCG/MapGenerator.cs:198-203 | each offset's position can be read back from it; its opposite entry is its negation; the first four are axis steps and the last four diagonal |
| Filtering.Displacements | TerrainGenerationPCG/MapGenerator.cs:198-203 | `filteringDisplacements` has eight pairwise distinct offsets, the first four cardinal and the last four diagonal, each with its negation in the list |
| Filtering.DisplacementsBalanced | TerrainGenerationPCG/MapGenerator.cs:198-203 | the sampling window is symmetric about the cell |
| Filtering.TruncDiv | TerrainGenerationPCG/MapGenerator.cs:258 | C# `/` on `int`: quotient rounded toward zero, remainder with the dividend's sign |
| Filtering.TruncDivBetween | TerrainGenerationPCG/MapGenerator.cs:258 | a truncated quotient of a sum bounded by n·lo and n·hi stays within [lo, hi] |
| Filtering.MeanHeightBetween | TerrainGenerationPCG/MapGenerator.cs:228-258 | the filtered height lies between the least and the greatest sampled height |
| Filtering.MeanHeightUniform | TerrainGenerationPCG/MapGenerator.cs:228-258 | when all samples have the same height, the filtered height is that height |
| Filtering.ArgMax | TerrainGenerationPCG/MapGenerator.cs:248-257 | the strict-`>` scan picks the lowest index with the maximum count |
| Filtering.ArgMaxAllZero | TerrainGenerationPCG/MapGenerator.cs:248-257 | with no votes it returns index 0 (Tundra), because `maxVotes` starts at 0 and needs a strictly larger count |
| Filtering.Winner | TerrainGenerationPCG/MapGenerator.cs:247-257 | the voted kind occurs among the voters, has the most votes, and beats every kind of lower ordinal |
| Filtering.SingleVote | TerrainGenerationPCG/MapGenerator.cs:223-257 | a vote array holding one vote returns the kind that cast it |
| Filtering.NineHeights | TerrainGenerationPCG/MapGenerator.cs:228-258 | the sum of nine heights divided by 9 lies between their extremes, and equals the common height when all agree |
| Filtering.FilterAsWritten | TerrainGenerationPCG/MapGenerator.cs:211-259 | as written, the returned kind is always the home sample's kind; the height is the truncated mean of the nine samples, between their extremes, and unchanged when all samples are the same biome |
| Filtering.FilterVoting | TerrainGenerationPCG/MapGenerator.cs:222-258 | with all nine samples voting, the kind is a plurality kind of the samples (ties go to the lowest ordinal), with the same height |
| Filtering.UnanimousVote | TerrainGenerationPCG/MapGenerator.cs:222-258 | when all nine samples agree, the voting filter returns their kind |
| Filtering.OffsetsDoNotVote | TerrainGenerationPCG/MapGenerator.cs:223-246 | eight agreeing offsets of another kind leave the written filter on the home kind, while they win under voting |
| Filtering.ClassifyFrom | TerrainGenerationPCG/MapGenerator.cs:225-244 | the samples are looked up in order; all succeed, or the first unclaimed sample is reported and all before it succeeded |
| Filtering.Classify | TerrainGenerationPCG/MapGenerator.cs:225-244 | the nine lookups succeed iff `GetBiome` claims every climate, and then give each sample its `GetBiome` result; otherwise the unclaimed sample is named (the `null` dereference) |
| Discontinuities.Wrap32 | TerrainGenerationPCG/MapGenerator.cs:172 | the unchecked `int` result of `heights[x, y] - heights[x - 1, y]` lies in the 32-bit range and equals the exact difference when that fits |
| Discontinuities.Wrap32Congruent | TerrainGenerationPCG/MapGenerator.cs:172 | the wrapped difference differs from the exact one by a multiple of 2^32 |
| Discontinuities.ExtremesWrapToNoJump | TerrainGenerationPCG/MapGenerator.cs:172 | `int.MaxValue` beside `int.MinValue` wraps to a difference of -1, so the pair is not a discontinuity although the exact difference exceeds 8 |
| Discontinuities.CellEventsExact | TerrainGenerationPCG/MapGenerator.cs:172-182 | a cell's events are exactly its jumps above 8 against x-1 and against y-1 |
| Discontinuities.EventsExact | TerrainGenerationPCG/MapGenerator.cs:168-184 | the scan's events are exactly the discontinuities between interior cells and their x-1 or y-1 neighbours, each counted once |
| Discontinuities.BorderJumpsUncounted | TerrainGenerationPCG/MapGenerator.cs:168-170 | jumps between cells of row 0 or column 0 are never counted, because both loops start at 1 |
| Discontinuities.IncFacts | TerrainGenerationPCG/MapGenerator.cs:175-181 | `discontinuetiesPairs[i, j]++` raises that counter by one and changes no other |
| Discontinuities.TallyCounts | TerrainGenerationPCG/MapGenerator.cs:167-181 | counter [i, j] is the number of events whose cell has kind i and whose neighbour has kind j |
| Discontinuities.TallySum | TerrainGenerationPCG/MapGenerator.cs:166-184 | the counters add up to the number of events |
| Discontinuities.ScanCell | TerrainGenerationPCG/MapGenerator.cs:172-182 | the two tests of one cell extend the count and the tally by that cell's events |
| Discontinuities.ScanColumn | TerrainGenerationPCG/MapGenerator.cs:170-183 | the inner loop over y extends the count and tally from the columns before x to the columns through x |
| Discontinuities.Scan | TerrainGenerationPCG/MapGenerator.cs:165-184 | `discontinuities` is the number of discontinuities and `discontinuetiesPairs` their biome-pair tally, whose entries add up to that number |
| Discontinuities.ReportAsWrittenExact | TerrainGenerationPCG/MapGenerator.cs:186-195 | the printed lines are exactly the pairs i <= j whose counter [i, j] is positive, each with total [i, j] + [j, i] |
| Discontinuities.ReportCorrectedExact | TerrainGenerationPCG/MapGenerator.cs:186-195 | the corrected report prints each unordered pair of kinds with events exactly once, with its number of events |
| Discontinuities.ReportCorrectedComplete | TerrainGenerationPCG/MapGenerator.cs:185-195 | the corrected report's totals add up to the sum of the matrix |
| Discontinuities.ReportCorrectedMatchesCount | TerrainGenerationPCG/MapGenerator.cs:185-195 | after a scan, the corrected report's totals add up to the printed `Discontinuities:` count |
| Discontinuities.MirroredPairUnreported | TerrainGenerationPCG/MapGenerator.cs:175-192 | a grid with one discontinuity whose cell has the higher ordinal prints no report line as written; the corrected report prints it |
| Discontinuities.SameBiomeDoubled | TerrainGenerationPCG/MapGenerator.cs:192 | one discontinuity between two cells of one kind is printed with total 2 as written, and 1 by the corrected report |
| Csv.WriteLine | TerrainGenerationPCG/Utils.cs:169-176 | the inner loop appends the row's cells separated by commas, with no trailing comma |
| Csv.WriteCsv | TerrainGenerationPCG/Utils.cs:162-180 | the text is the rows in x order, each the comma-joined cells followed by the newline |
| Csv.JoinCommas | TerrainGenerationPCG/Utils.cs:172-175 | a line of n comma-free cells holds n - 1 commas |
| Csv.EmptyGrids | TerrainGenerationPCG/Utils.cs:167-178 | a grid of height 0 writes one empty line per row, and a grid of width 0 writes nothing |
| Csv.CsvRoundTrip | TerrainGenerationPCG/Utils.cs:162-180 | splitting the written text at the newline and then at commas gives back the grid when no cell holds a comma or the newline |
| Csv.DecimalRoundTrip | TerrainGenerationPCG/Utils.cs:171 | the decimal rendering of an `int` cell reads back to the same number |
| Csv.HeightsRoundTrip | TerrainGenerationPCG/Utils.cs:162-180 | a CSV of integer heights parses back to the heights |
| Utils.WarpSeed | TerrainGenerationPCG/Utils.cs:211 | the warp seed differs from the base seed, and XOR-ing 1010101 again recovers the base seed |
| Utils.WarpSeedInjective | TerrainGenerationPCG/Utils.cs:211 | different base seeds give different warp seeds |
| Utils.WarpSeedInvolution | TerrainGenerationPCG/Utils.cs:211 | deriving twice returns the base seed |
| Utils.GreyLevel | TerrainGenerationPCG/Utils.cs:62 | `(byte)h` is below 256, congruent to h modulo 256, and equal to h for 0 <= h < 256 |
| Utils.GreyLevelWraps | TerrainGenerationPCG/Utils.cs:62 | heights 256 apart get the same grey; 256 is drawn black and -1 white |
| Utils.StaticInit | TerrainGenerationPCG/Utils.cs:330-336 | the static constructor succeeds iff the table has one colour per kind, and otherwise throws an exception with a fixed message |
| Utils.ColorOf | TerrainGenerationPCG/Utils.cs:330-336 | a failed static constructor makes every colour lookup fail; otherwise kind t gets the colour at its ordinal |
| Utils.ShippedTableRejected | TerrainGenerationPCG/Utils.cs:258-271 | the table as written has 11 colours for 9 kinds, so every use of `Utils` fails |
| Utils.TruncatedTableAccepted | TerrainGenerationPCG/Utils.cs:258-271 | the first nine colours pass the check and give each kind the colour at its ordinal |

## Left out

- Noise generation (the FastNoiseLite library, noise creation in `OnDeserialized`, `CreateNoiseFromConfig`, `CreateDomainWarpFromConfig` apart from the seed) is a foreign library. The climates and heights it produces enter the model as parameters.
- The domain warp of the offset samples is also left out. It warps the temperature coordinates a second time instead of the precipitation ones (`MapGenerator.cs:240`), and only noise values can show the effect.
- The clock-based noise seed (`Utils.cs:193`) reads the system clock and is left out.
- `Biome.GetHeight` is a parameter `heightOf`. The C# evaluates it at the undisplaced cell `(x, y)` for all nine samples, and the model keeps that.
- `float` arithmetic is modelled with exact reals: the cross product, `Average`, `Min` and `Max`, and the displacement offsets. Rounding is not modelled.
- Biomes.InsideBiome: the result follows real arithmetic, so a point within rounding distance of an edge may be classified differently by the `float` code.
- File reading, JSON deserialisation, bitmap drawing (HSB colours, brightness), console output and the `Program.cs` driver are I/O. The diagram constructor sees the files as a map, and report lines are values rather than printed text.
- `WhittakerDiagram.GetBiome(BiomeType)` (called at `MapGenerator.cs:137` and `Utils.cs:315`) and `PrintBiomeConfigs` (`Program.cs:14`) are referenced but defined nowhere in the source, so they are not modelled.
- The nearest-centre fallback described in the comments and the chunk-reuse filtering mode do not exist in the code, so they are not modelled.
- Csv.Decimal: renders an `int` as optional `-` and decimal digits. This is the invariant culture; culture-specific number formats of `StringBuilder.Append` are left out.
- Csv.CsvRoundTrip: proved for a one-character newline (such as `\n`). `AppendLine` on Windows writes `\r\n`, and that case is left out.
- Discontinuities.Scan: the count and the counters are unbounded naturals, so the C# `int` overflow after 2^31 events is not modelled.
- Discontinuities.Jump: when the wrapped difference is `int.MinValue` (for example 0 beside `int.MinValue`), `Math.Abs` throws an `OverflowException` in C#; the model counts the pair as a jump instead.
- Filtering.FilterAsWritten: the height sum is an unbounded integer, so `int` overflow of the sum of nine heights is not modelled.
- Utils.GreyLevel: models the unchecked `(byte)` cast; a checked build context is left out.

## Findings

| source | as written | input that shows it | evidently intended | confidence | as-written member | corrected member |
|---|---|---|---|---|---|---|
| TerrainGenerationPCG/MapGenerator.cs:223-246 | only the home sample increments `BiomeTypeVotes`; the eight offset samples add height but never vote, so the returned kind is always the home kind | a cell whose eight offset samples all fall in one kind other than the home kind | the comment "points used in filtering vote" and "return biome with the most votes": every sample votes | not executed | Filtering.OffsetsDoNotVote | Filtering.FilterVoting |
| TerrainGenerationPCG/MapGenerator.cs:190-192 | the guard reads only `[i, j]` with j >= i, so events tallied only at `[j, i]` with j < i are never printed | a 2x2 grid whose column 1 (Desert) stands 20 above column 0 (TemperateGrassland): one event, tallied at [5, 2], prints nothing | each unordered pair with events printed once | not executed | Discontinuities.MirroredPairUnreported | Discontinuities.ReportCorrectedExact |
| TerrainGenerationPCG/MapGenerator.cs:192 | for i == j the total `[i, i] + [i, i]` doubles the count of same-kind events | the same grid with one kind on both columns: one event, printed with total 2 | the number of events between the pair | not executed | Discontinuities.SameBiomeDoubled | Discontinuities.ReportCorrectedComplete |
| TerrainGenerationPCG/Utils.cs:258-336 | `BiomeColors` lists 11 colours while `BiomeType.Count` is 9, so the static constructor throws on the first use of `Utils`, including the `CreateNoiseFromConfig` call in `OnDeserialized`, so no diagram can be built | the table itself | one colour per biome kind | not executed | Utils.ShippedTableRejected | Utils.TruncatedTableAccepted |
