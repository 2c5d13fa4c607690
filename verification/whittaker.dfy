/** The Whittaker diagram: one biome per `BiomeType`, loaded in ordinal
    order, and the first-match lookup from (temperature, humidity) to a biome. */
module Whittaker {
  import opened Wrappers
  import opened BiomeTypes
  import opened Biomes
  import Utils

  /** The outcome of the `Utils` static constructor, which the first
      deserialised biome runs and whose failure every later use rethrows. */
  type UtilsInit = Result<seq<Utils.Color>, Utils.InitError>

  /** Why the constructor throws: a configuration file is missing or
      unreadable, the `Utils` static constructor failed while the file's
      biome was deserialised, or its polygon has no points. */
  datatype LoadError =
    | MissingFile(file: string)
    | InitFailed(file: string, cause: Utils.InitError)
    | EmptyPolygon(file: string)

  /** The biome list, indexed by load order. */
  type Diagram = seq<Biome>

  /** The file for kind t exists and holds a non-empty polygon. */
  predicate Loadable(files: map<string, BiomeConfig>, t: BiomeType)
  {
    ConfigFileName(t) in files && |files[ConfigFileName(t)].points| > 0
  }

  /** One step of the constructor: reads the file named after t, then
      deserialises it, which runs the `OnDeserialized` hook. A missing file
      throws before the hook; a failed static constructor throws inside it,
      before the point list is looked at. */
  function LoadOne(init: UtilsInit, files: map<string, BiomeConfig>, t: BiomeType): (r: Result<Biome, LoadError>)
    ensures r.Ok? <==> init.Ok? && Loadable(files, t)
    ensures r.Ok? ==> Derive(files[ConfigFileName(t)]) == Ok(r.value)
    ensures r.Err? ==> r.error.file == ConfigFileName(t)
    ensures ConfigFileName(t) !in files ==> r == Err(MissingFile(ConfigFileName(t)))
    ensures init.Err? && ConfigFileName(t) in files ==> r == Err(InitFailed(ConfigFileName(t), init.error))
  {
    var file := ConfigFileName(t);
    if file !in files then Err(MissingFile(file))
    else
      match OnDeserialized(init, files[file])
      case Err(UtilsUnavailable(e)) => Err(InitFailed(file, e))
      case Err(EmptyPointList) => Err(EmptyPolygon(file))
      case Ok(b) => Ok(b)
  }

  /** The file for kind t loads: it exists, the static constructor of
      `Utils` succeeded, and the polygon has points. */
  predicate Loads(init: UtilsInit, files: map<string, BiomeConfig>, t: BiomeType)
  {
    init.Ok? && Loadable(files, t)
  }

  /** `new WhittakerDiagram()`: exactly `Count` entries, entry i derived
      from the file named after `(BiomeType)i`. The first kind whose file
      does not load aborts the construction, so the diagram is never built
      partially; when the static constructor of `Utils` failed, that is
      always the first kind. The file system is the map from file names to
      their deserialised contents. */
  method Build(init: UtilsInit, files: map<string, BiomeConfig>) returns (r: Result<Diagram, LoadError>)
    ensures r.Ok? <==> init.Ok? && forall i :: 0 <= i < Count ==> Loadable(files, FromOrdinal(i))
    ensures r.Ok? ==> |r.value| == Count
    ensures r.Ok? ==> forall i :: 0 <= i < Count ==> Derive(files[ConfigFileName(FromOrdinal(i))]) == Ok(r.value[i])
    ensures r.Err? ==> exists i :: 0 <= i < Count && r.error.file == ConfigFileName(FromOrdinal(i))
                                   && !Loads(init, files, FromOrdinal(i))
                                   && forall j :: 0 <= j < i ==> Loads(init, files, FromOrdinal(j))
    ensures init.Err? ==> r.Err? && r.error.file == ConfigFileName(Tundra)
  {
    var biomes: seq<Biome> := [];
    var i := 0;
    while i < Count
      invariant 0 <= i <= Count && |biomes| == i
      invariant forall k :: 0 <= k < i ==> LoadOne(init, files, FromOrdinal(k)) == Ok(biomes[k])
    {
      var loaded := LoadOne(init, files, FromOrdinal(i));
      if loaded.Err? {
        assert forall j :: 0 <= j < i ==> Loads(init, files, FromOrdinal(j)) by {
          forall j | 0 <= j < i
            ensures Loads(init, files, FromOrdinal(j))
          {
            assert LoadOne(init, files, FromOrdinal(j)).Ok?;
          }
        }
        FirstFailure(init, files, i);
        return Err(loaded.error);
      }
      LoadedExtend(init, files, biomes, loaded.value);
      biomes := biomes + [loaded.value];
      i := i + 1;
    }
    forall j | 0 <= j < Count
      ensures Loads(init, files, FromOrdinal(j)) && Derive(files[ConfigFileName(FromOrdinal(j))]) == Ok(biomes[j])
    {
      assert LoadOne(init, files, FromOrdinal(j)) == Ok(biomes[j]);
    }
    assert Loads(init, files, FromOrdinal(0));
    return Ok(biomes);
  }

  /** A kind past the first can only be reached when the static constructor
      succeeded, so its failure is the first kind's file. */
  lemma FirstFailure(init: UtilsInit, files: map<string, BiomeConfig>, i: nat)
    requires i < Count
    requires forall j :: 0 <= j < i ==> Loads(init, files, FromOrdinal(j))
    ensures i > 0 ==> init.Ok?
    ensures FromOrdinal(0) == Tundra
  {
    if i > 0 {
      assert Loads(init, files, FromOrdinal(0));
    }
  }

  /** Appending the next kind's biome keeps the loaded prefix in step with
      the kinds in ordinal order. */
  lemma LoadedExtend(init: UtilsInit, files: map<string, BiomeConfig>, biomes: seq<Biome>, b: Biome)
    requires |biomes| < Count
    requires forall k :: 0 <= k < |biomes| ==> LoadOne(init, files, FromOrdinal(k)) == Ok(biomes[k])
    requires LoadOne(init, files, FromOrdinal(|biomes|)) == Ok(b)
    ensures forall k :: 0 <= k < |biomes| + 1 ==> LoadOne(init, files, FromOrdinal(k)) == Ok((biomes + [b])[k])
  {
    forall k | 0 <= k < |biomes| + 1
      ensures LoadOne(init, files, FromOrdinal(k)) == Ok((biomes + [b])[k])
    {
      if k < |biomes| {
        assert (biomes + [b])[k] == biomes[k];
      }
    }
  }

  /** With the colour table as shipped, the constructor throws on the first
      kind's file whatever the files hold: it is missing, or deserialising it
      runs the failing static constructor. */
  lemma ShippedTableBlocksDiagram(files: map<string, BiomeConfig>)
    ensures !Loads(Utils.StaticInit(Utils.BiomeColors), files, Tundra)
    ensures LoadOne(Utils.StaticInit(Utils.BiomeColors), files, Tundra).Err?
  {
    Utils.ShippedTableRejected(Tundra);
  }

  /** The first index from k on whose biome claims pt. */
  function FirstInside(d: Diagram, pt: Point, k: nat): (r: Option<nat>)
    requires k <= |d|
    decreases |d| - k
    ensures r.Some? ==> k <= r.value < |d| && Inside(d[r.value], pt)
                        && forall j :: k <= j < r.value ==> !Inside(d[j], pt)
    ensures r.None? ==> forall j :: k <= j < |d| ==> !Inside(d[j], pt)
  {
    if k == |d| then None
    else if Inside(d[k], pt) then Some(k)
    else FirstInside(d, pt, k + 1)
  }

  /** `GetBiome(temperature, humidity)`: the first biome in list order whose
      polygon test holds; `None` (C# `null`) when no biome claims the point.
      There is no nearest-centre fallback. */
  function GetBiome(d: Diagram, temperature: real, humidity: real): (r: Option<Biome>)
    ensures r.None? <==> forall j :: 0 <= j < |d| ==> !Inside(d[j], Point(temperature, humidity))
    ensures r.Some? ==> exists i :: 0 <= i < |d| && d[i] == r.value
                                    && Inside(d[i], Point(temperature, humidity))
                                    && forall j :: 0 <= j < i ==> !Inside(d[j], Point(temperature, humidity))
  {
    match FirstInside(d, Point(temperature, humidity), 0)
    case None => None
    case Some(i) => Some(d[i])
  }

  /** A point outside every biome's bounding box is claimed by none of them. */
  lemma OutsideAllBoxesUnclassified(d: Diagram, temperature: real, humidity: real)
    requires forall j :: 0 <= j < |d| ==> !InBox(d[j].box, Point(temperature, humidity))
    ensures GetBiome(d, temperature, humidity) == None
  {
  }
}
