/** The boundary filter of `MapGenerator.GetFilteredBiomeAndHeight`: one
    home sample plus one sample per fixed displacement, a vote over biome
    kinds reduced by an ascending strict argmax, and a truncating integer
    average of the samples' heights.

    The noise library that turns a coordinate into (temperature, humidity)
    is not modelled: the classified biome of each sample is an input, and
    `heightOf(b)` stands for `b.GetHeight(x, y)` at the undisplaced (x, y),
    so every sample's height is taken at the same location. */
module Filtering {
  import opened Wrappers
  import opened BiomeTypes
  import opened Biomes
  import opened Whittaker

  // ---------------------------------------------------------------------
  // The displacement pattern
  // ---------------------------------------------------------------------

  /** `displacementStep`. */
  const DisplacementStep: real := 5.0

  function Negate(v: Point): Point
  {
    Point(-v.x, -v.y)
  }

  /** A unit axis direction scaled by the step. */
  predicate Cardinal(d: Point)
  {
    || (d.y == 0.0 && (d.x == DisplacementStep || d.x == -DisplacementStep))
    || (d.x == 0.0 && (d.y == DisplacementStep || d.y == -DisplacementStep))
  }

  /** A half-unit diagonal scaled by the step. */
  predicate Diagonal(d: Point)
  {
    && (d.x == DisplacementStep / 2.0 || d.x == -DisplacementStep / 2.0)
    && (d.y == DisplacementStep / 2.0 || d.y == -DisplacementStep / 2.0)
  }

  /** The unit direction of displacement i, in the source's list order. */
  function Unit(i: nat): Point
    requires i < 8
  {
    if i == 0 then Point(1.0, 0.0)
    else if i == 1 then Point(-1.0, 0.0)
    else if i == 2 then Point(0.0, 1.0)
    else if i == 3 then Point(0.0, -1.0)
    else if i == 4 then Point(0.5, 0.5)
    else if i == 5 then Point(-0.5, 0.5)
    else if i == 6 then Point(0.5, -0.5)
    else Point(-0.5, -0.5)
  }

  /** `displacementStep * v`. */
  function Scale(v: Point): Point
  {
    Point(DisplacementStep * v.x, DisplacementStep * v.y)
  }

  /** Recovers the list position from a displacement. */
  function PositionOf(d: Point): nat
  {
    if d.y == 0.0 then (if d.x > 0.0 then 0 else 1)
    else if d.x == 0.0 then (if d.y > 0.0 then 2 else 3)
    else if d.y > 0.0 then (if d.x > 0.0 then 4 else 5)
    else (if d.x > 0.0 then 6 else 7)
  }

  /** The position of the displacement that undoes displacement i. */
  function OppositeOf(i: nat): nat
    requires i < 8
  {
    if i == 0 then 1 else if i == 1 then 0
    else if i == 2 then 3 else if i == 3 then 2
    else if i == 4 then 7 else if i == 5 then 6
    else if i == 6 then 5 else 4
  }

  /** The facts about one offset: its position can be read back from it,
      its opposite is its negation, and it is cardinal exactly for the
      first four positions. */
  lemma DisplacementAt(i: nat)
    requires i < 8
    ensures PositionOf(Scale(Unit(i))) == i
    ensures Scale(Unit(OppositeOf(i))) == Negate(Scale(Unit(i)))
    ensures Cardinal(Scale(Unit(i))) <==> i < 4
    ensures Diagonal(Scale(Unit(i))) <==> 4 <= i
  {
  }

  /** `filteringDisplacements`: the step times the four axis directions and
      then times the four half diagonals; eight distinct offsets, each with
      its opposite in the list. */
  function Displacements(): (ds: seq<Point>)
    ensures |ds| == 8
    ensures forall i :: 0 <= i < |ds| ==> ds[i] == Scale(Unit(i))
    ensures forall i :: 0 <= i < |ds| ==> PositionOf(ds[i]) == i
    ensures forall i, j :: 0 <= i < j < |ds| ==> ds[i] != ds[j]
    ensures forall i :: 0 <= i < |ds| ==> ds[OppositeOf(i)] == Negate(ds[i])
    ensures forall i :: 0 <= i < |ds| ==> (Cardinal(ds[i]) <==> i < 4) && (Diagonal(ds[i]) <==> 4 <= i)
  {
    var ds := seq(8, i requires 0 <= i < 8 => Scale(Unit(i)));
    forall i | 0 <= i < 8
      ensures PositionOf(ds[i]) == i && ds[OppositeOf(i)] == Negate(ds[i])
      ensures (Cardinal(ds[i]) <==> i < 4) && (Diagonal(ds[i]) <==> 4 <= i)
    {
      DisplacementAt(i);
    }
    ds
  }

  /** Every offset has its opposite in the pattern: the window is symmetric
      about the home sample. */
  lemma DisplacementsBalanced()
    ensures forall i :: 0 <= i < 8 ==> Negate(Displacements()[i]) in Displacements()
  {
    var ds := Displacements();
    forall i | 0 <= i < 8
      ensures Negate(ds[i]) in ds
    {
      assert ds[OppositeOf(i)] == Negate(ds[i]);
    }
  }

  // ---------------------------------------------------------------------
  // Integer averaging with C# truncating division
  // ---------------------------------------------------------------------

  /** C# integer `/` for a positive divisor: the quotient rounded toward zero,
      so the remainder takes the sign of the dividend. */
  function TruncDiv(a: int, b: int): (q: int)
    requires b > 0
    ensures 0 <= a ==> 0 <= a - b * q < b
    ensures a < 0 ==> -b < a - b * q <= 0
  {
    if a >= 0 then a / b else -((-a) / b)
  }

  lemma CancelPositive(n: int, a: int, b: int)
    requires n > 0 && n * a < n * b
    ensures a < b
  {
  }

  lemma CancelPositiveLe(n: int, a: int, b: int)
    requires n > 0 && n * a <= n * b
    ensures a <= b
  {
  }

  /** A truncated mean of values within [lo, hi] stays within [lo, hi]. */
  lemma TruncDivBetween(s: int, n: int, lo: int, hi: int)
    requires n > 0 && n * lo <= s <= n * hi
    ensures lo <= TruncDiv(s, n) <= hi
  {
    var q := TruncDiv(s, n);
    if s >= 0 {
      CancelPositiveLe(n, q, hi);
      assert n * (q + 1) == n * q + n;
      CancelPositive(n, lo, q + 1);
    } else {
      CancelPositiveLe(n, lo, q);
      assert n * (hi + 1) == n * hi + n;
      CancelPositive(n, q, hi + 1);
    }
  }

  // ---------------------------------------------------------------------
  // Sample heights
  // ---------------------------------------------------------------------

  function HeightSum(samples: seq<Biome>, heightOf: Biome -> int): int
  {
    if |samples| == 0 then 0 else heightOf(samples[0]) + HeightSum(samples[1..], heightOf)
  }

  function MinHeight(samples: seq<Biome>, heightOf: Biome -> int): (m: int)
    requires |samples| > 0
    ensures forall i :: 0 <= i < |samples| ==> m <= heightOf(samples[i])
    ensures exists i :: 0 <= i < |samples| && heightOf(samples[i]) == m
  {
    if |samples| == 1 then heightOf(samples[0])
    else
      var rest := MinHeight(samples[1..], heightOf);
      if heightOf(samples[0]) <= rest then heightOf(samples[0]) else rest
  }

  function MaxHeight(samples: seq<Biome>, heightOf: Biome -> int): (m: int)
    requires |samples| > 0
    ensures forall i :: 0 <= i < |samples| ==> heightOf(samples[i]) <= m
    ensures exists i :: 0 <= i < |samples| && heightOf(samples[i]) == m
  {
    if |samples| == 1 then heightOf(samples[0])
    else
      var rest := MaxHeight(samples[1..], heightOf);
      if heightOf(samples[0]) >= rest then heightOf(samples[0]) else rest
  }

  lemma {:induction false} HeightSumBounds(samples: seq<Biome>, heightOf: Biome -> int, lo: int, hi: int)
    requires forall i :: 0 <= i < |samples| ==> lo <= heightOf(samples[i]) <= hi
    ensures |samples| * lo <= HeightSum(samples, heightOf) <= |samples| * hi
  {
    if |samples| > 0 {
      HeightSumBounds(samples[1..], heightOf, lo, hi);
      assert |samples| * lo == lo + |samples[1..]| * lo;
      assert |samples| * hi == hi + |samples[1..]| * hi;
    }
  }

  /** The truncated mean of the samples' heights lies between their least
      and greatest height. */
  lemma MeanHeightBetween(samples: seq<Biome>, heightOf: Biome -> int)
    requires |samples| > 0
    ensures MinHeight(samples, heightOf) <= TruncDiv(HeightSum(samples, heightOf), |samples|)
                                         <= MaxHeight(samples, heightOf)
  {
    var lo, hi := MinHeight(samples, heightOf), MaxHeight(samples, heightOf);
    HeightSumBounds(samples, heightOf, lo, hi);
    TruncDivBetween(HeightSum(samples, heightOf), |samples|, lo, hi);
  }

  /** When every sample is the same biome, the mean is that biome's height. */
  lemma MeanHeightUniform(samples: seq<Biome>, heightOf: Biome -> int)
    requires |samples| > 0
    requires forall i :: 0 <= i < |samples| ==> samples[i] == samples[0]
    ensures TruncDiv(HeightSum(samples, heightOf), |samples|) == heightOf(samples[0])
  {
    var h := heightOf(samples[0]);
    HeightSumBounds(samples, heightOf, h, h);
    TruncDivBetween(HeightSum(samples, heightOf), |samples|, h, h);
  }

  // ---------------------------------------------------------------------
  // Votes and the argmax
  // ---------------------------------------------------------------------

  function Kinds(samples: seq<Biome>): (ks: seq<BiomeType>)
    ensures |ks| == |samples|
    ensures forall i :: 0 <= i < |samples| ==> ks[i] == samples[i].kind
  {
    seq(|samples|, i requires 0 <= i < |samples| => samples[i].kind)
  }

  /** `BiomeTypeVotes` after each kind in `kinds` has voted once: slot i
      holds the number of votes for `(BiomeType)i`. */
  function Votes(kinds: seq<BiomeType>): (v: seq<nat>)
    ensures |v| == Count
    ensures forall i :: 0 <= i < Count ==> v[i] == multiset(kinds)[FromOrdinal(i)]
  {
    if |kinds| == 0 then seq(Count, _ => 0)
    else
      var last := kinds[|kinds| - 1];
      var prev := Votes(kinds[..|kinds| - 1]);
      var k := Ordinal(last);
      assert kinds == kinds[..|kinds| - 1] + [last];
      assert forall i :: 0 <= i < Count ==> (FromOrdinal(i) == last <==> i == k) by {
        OrdinalBijection(last);
      }
      prev[k := prev[k] + 1]
  }

  /** The source's argmax loop from slot i on, with the running maximum and
      its index as parameters. */
  function ArgMaxFrom(votes: seq<nat>, i: nat, maxVotes: nat, maxIndex: nat): (r: nat)
    requires i <= |votes|
    requires forall j :: 0 <= j < i ==> votes[j] <= maxVotes
    requires maxVotes == 0 ==> maxIndex == 0
    requires maxVotes > 0 ==> maxIndex < i && votes[maxIndex] == maxVotes
                              && forall j :: 0 <= j < maxIndex ==> votes[j] < maxVotes
    decreases |votes| - i
    ensures |votes| == 0 ==> r == 0
    ensures |votes| > 0 ==> r < |votes|
                            && (forall j :: 0 <= j < |votes| ==> votes[j] <= votes[r])
                            && (forall j :: 0 <= j < r ==> votes[j] < votes[r])
  {
    if i == |votes| then maxIndex
    else if votes[i] > maxVotes then ArgMaxFrom(votes, i + 1, votes[i], i)
    else ArgMaxFrom(votes, i + 1, maxVotes, maxIndex)
  }

  /** The ascending strict-`>` argmax: the lowest index holding the maximum,
      and index 0 when every count is 0. */
  function ArgMax(votes: seq<nat>): (r: nat)
    ensures |votes| == 0 ==> r == 0
    ensures |votes| > 0 ==> r < |votes|
                            && (forall j :: 0 <= j < |votes| ==> votes[j] <= votes[r])
                            && (forall j :: 0 <= j < r ==> votes[j] < votes[r])
  {
    ArgMaxFrom(votes, 0, 0, 0)
  }

  /** When every count is 0 the argmax is slot 0. */
  lemma ArgMaxAllZero(votes: seq<nat>)
    requires forall j :: 0 <= j < |votes| ==> votes[j] == 0
    ensures ArgMax(votes) == 0
  {
  }

  /** The kind chosen from a vote array: the lowest ordinal with the most votes. */
  function Winner(kinds: seq<BiomeType>): (w: BiomeType)
    requires |kinds| > 0
    ensures w in kinds
    ensures forall t :: multiset(kinds)[t] <= multiset(kinds)[w]
    ensures forall t :: Ordinal(t) < Ordinal(w) ==> multiset(kinds)[t] < multiset(kinds)[w]
  {
    var votes := Votes(kinds);
    var i := ArgMax(votes);
    var w := FromOrdinal(i);
    assert multiset(kinds)[kinds[0]] > 0;
    assert votes[Ordinal(kinds[0])] > 0 by { OrdinalBijection(kinds[0]); }
    assert forall t :: multiset(kinds)[t] == votes[Ordinal(t)] by {
      forall t { OrdinalBijection(t); }
    }
    w
  }

  // ---------------------------------------------------------------------
  // The filter
  // ---------------------------------------------------------------------

  /** The filter's result: `Tuple<BiomeType, int>`. */
  datatype Filtered = Filtered(kind: BiomeType, height: int)

  /** A single vote elects the kind that cast it. */
  lemma SingleVote(t: BiomeType)
    ensures FromOrdinal(ArgMax(Votes([t]))) == t
  {
    var votes := Votes([t]);
    assert votes[Ordinal(t)] == 1 by { OrdinalBijection(t); }
    assert multiset([t])[FromOrdinal(ArgMax(votes))] >= 1;
  }

  /** The truncated mean of the nine heights lies between the least and the
      greatest of them, and is the common height when all samples agree. */
  lemma NineHeights(home: Biome, offsets: seq<Biome>, heightOf: Biome -> int)
    requires |offsets| == 8
    ensures MinHeight([home] + offsets, heightOf) <= TruncDiv(HeightSum([home] + offsets, heightOf), 9)
                                                 <= MaxHeight([home] + offsets, heightOf)
    ensures (forall i :: 0 <= i < |offsets| ==> offsets[i] == home) ==>
              TruncDiv(HeightSum([home] + offsets, heightOf), 9) == heightOf(home)
  {
    var samples := [home] + offsets;
    MeanHeightBetween(samples, heightOf);
    if forall i :: 0 <= i < |offsets| ==> offsets[i] == home {
      assert forall i :: 0 <= i < |samples| ==> samples[i] == samples[0];
      MeanHeightUniform(samples, heightOf);
    }
  }

  /** `GetFilteredBiomeAndHeight` as written: only the home sample votes,
      the offset samples feed the height sum only, and the sum is divided by
      `filteringCount` = 1 + 8 = 9 with truncation toward zero. */
  function FilterAsWritten(home: Biome, offsets: seq<Biome>, heightOf: Biome -> int): (r: Filtered)
    requires |offsets| == 8
    ensures r.kind == home.kind
    ensures r.height == TruncDiv(HeightSum([home] + offsets, heightOf), 9)
    ensures MinHeight([home] + offsets, heightOf) <= r.height <= MaxHeight([home] + offsets, heightOf)
    ensures (forall i :: 0 <= i < |offsets| ==> offsets[i] == home) ==> r.height == heightOf(home)
  {
    var votes := Votes([home.kind]);
    var filteringCount := 1 + |offsets|;
    var biomeHeight := HeightSum([home] + offsets, heightOf);
    SingleVote(home.kind);
    NineHeights(home, offsets, heightOf);
    Filtered(FromOrdinal(ArgMax(votes)), TruncDiv(biomeHeight, filteringCount))
  }

  /** The filter with every sample voting, as its comments and the returned
      "biome with the most votes" intend: the plurality kind among the nine
      samples, ties going to the lowest ordinal; the height is unchanged. */
  function FilterVoting(home: Biome, offsets: seq<Biome>, heightOf: Biome -> int): (r: Filtered)
    requires |offsets| == 8
    ensures r.kind in Kinds([home] + offsets)
    ensures forall t :: multiset(Kinds([home] + offsets))[t] <= multiset(Kinds([home] + offsets))[r.kind]
    ensures forall t :: Ordinal(t) < Ordinal(r.kind) ==>
                          multiset(Kinds([home] + offsets))[t] < multiset(Kinds([home] + offsets))[r.kind]
    ensures r.height == FilterAsWritten(home, offsets, heightOf).height
  {
    var samples := [home] + offsets;
    Filtered(Winner(Kinds(samples)), TruncDiv(HeightSum(samples, heightOf), 1 + |offsets|))
  }

  /** When all nine samples agree on a kind, the voting filter returns it. */
  lemma UnanimousVote(home: Biome, offsets: seq<Biome>, heightOf: Biome -> int)
    requires |offsets| == 8
    requires forall i :: 0 <= i < |offsets| ==> offsets[i].kind == home.kind
    ensures FilterVoting(home, offsets, heightOf).kind == home.kind
  {
    var ks := Kinds([home] + offsets);
    assert forall i :: 0 <= i < |ks| ==> ks[i] == home.kind;
  }

  /** n copies of t hold n votes for t. */
  lemma {:induction false} ConstantCount(n: nat, t: BiomeType)
    ensures multiset(seq(n, _ => t))[t] == n
  {
    if n > 0 {
      ConstantCount(n - 1, t);
      assert seq(n, _ => t) == seq(n - 1, _ => t) + [t];
    }
  }

  /** Eight offset samples that agree on another kind do not outvote the
      home sample in the code as written, while with every sample voting
      they win 8 to 1. */
  lemma OffsetsDoNotVote(home: Biome, offsets: seq<Biome>, heightOf: Biome -> int)
    requires |offsets| == 8
    requires forall i :: 0 <= i < |offsets| ==> offsets[i].kind == offsets[0].kind != home.kind
    ensures FilterAsWritten(home, offsets, heightOf).kind == home.kind
    ensures FilterVoting(home, offsets, heightOf).kind == offsets[0].kind
  {
    var k := offsets[0].kind;
    var ks := Kinds([home] + offsets);
    assert ks == [home.kind] + seq(8, _ => k);
    ConstantCount(8, k);
    assert multiset(ks)[k] == 8;
    assert multiset(ks)[home.kind] == 1 by {
      assert multiset(seq(8, _ => k))[home.kind] == 0;
    }
    var w := FilterVoting(home, offsets, heightOf).kind;
    assert w == home.kind || w == k;
  }

  // ---------------------------------------------------------------------
  // Classification of the nine sample points
  // ---------------------------------------------------------------------

  /** The sample whose climate no biome claims: `GetBiome` returned `null`
      and the filter dereferenced it. */
  datatype SampleError = Unclassified(sample: nat)

  /** Classifies the samples in order, home first, with `lookup` standing
      for the diagram's `GetBiome`; the first climate that no biome claims
      aborts the filter. */
  function ClassifyFrom(lookup: Point -> Option<Biome>, climates: seq<Point>, k: nat): (r: Result<seq<Biome>, SampleError>)
    requires k <= |climates|
    decreases |climates| - k
    ensures r.Ok? <==> forall i :: k <= i < |climates| ==> lookup(climates[i]).Some?
    ensures r.Ok? ==> |r.value| == |climates| - k
                      && forall i :: 0 <= i < |r.value| ==> lookup(climates[k + i]) == Some(r.value[i])
    ensures r.Err? ==> k <= r.error.sample < |climates|
                       && lookup(climates[r.error.sample]).None?
                       && forall j :: k <= j < r.error.sample ==> lookup(climates[j]).Some?
  {
    if k == |climates| then Ok([])
    else
      match lookup(climates[k])
      case None => Err(Unclassified(k))
      case Some(b) =>
        match ClassifyFrom(lookup, climates, k + 1)
        case Err(e) => Err(e)
        case Ok(rest) =>
          var all := [b] + rest;
          assert forall i :: 1 <= i < |all| ==> all[i] == rest[i - 1];
          Ok(all)
  }

  /** The nine lookups of `GetFilteredBiomeAndHeight`: every climate is
      classified by the diagram, or the first unclaimed one is reported. */
  function Classify(d: Diagram, climates: seq<Point>): (r: Result<seq<Biome>, SampleError>)
    ensures r.Ok? <==> forall i :: 0 <= i < |climates| ==> GetBiome(d, climates[i].x, climates[i].y).Some?
    ensures r.Ok? ==> |r.value| == |climates|
                      && forall i :: 0 <= i < |climates| ==> GetBiome(d, climates[i].x, climates[i].y) == Some(r.value[i])
    ensures r.Err? ==> r.error.sample < |climates|
                       && GetBiome(d, climates[r.error.sample].x, climates[r.error.sample].y).None?
  {
    ClassifyFrom((c: Point) => GetBiome(d, c.x, c.y), climates, 0)
  }
}
