/** A biome's polygon in (temperature, humidity) space: the cached bounding
    box and centre derived once after loading, and the sign-consistency
    point-in-polygon test. Coordinates are exact reals. */
module Biomes {
  import opened Wrappers
  import opened BiomeTypes
  import Utils

  datatype Point = Point(x: real, y: real)

  /** A loaded polygon is never empty: deriving the cached centre and box
      of an empty point list throws. */
  type Polygon = s: seq<Point> | |s| > 0 witness [Point(0.0, 0.0)]

  /** The cached axis-aligned bounding box. */
  datatype Box = Box(minX: real, maxX: real, minY: real, maxY: real)

  /** The fields of a biome as they come out of its configuration file. */
  datatype BiomeConfig = BiomeConfig(name: string, kind: BiomeType, baseHeight: int, points: seq<Point>)

  /** A loaded biome: configuration plus the centre and box cached from its points. */
  datatype Biome = Biome(name: string, kind: BiomeType, baseHeight: int, points: Polygon, center: Point, box: Box)

  /** Why deserialising a biome throws: the `Utils` static constructor
      failed when the noise was created, or the point list is empty. */
  datatype DeriveError = UtilsUnavailable(cause: Utils.InitError) | EmptyPointList

  datatype Axis = X | Y

  function Coord(p: Point, a: Axis): real
  {
    match a
    case X => p.x
    case Y => p.y
  }

  // ---------------------------------------------------------------------
  // Sums, minima, maxima and means of one coordinate over a point list
  // ---------------------------------------------------------------------

  function SumOf(pts: seq<Point>, a: Axis): real
  {
    if |pts| == 0 then 0.0 else Coord(pts[0], a) + SumOf(pts[1..], a)
  }

  function MinOf(pts: seq<Point>, a: Axis): (m: real)
    requires |pts| > 0
    ensures forall i :: 0 <= i < |pts| ==> m <= Coord(pts[i], a)
    ensures exists i :: 0 <= i < |pts| && Coord(pts[i], a) == m
  {
    if |pts| == 1 then Coord(pts[0], a)
    else
      var rest := MinOf(pts[1..], a);
      if Coord(pts[0], a) <= rest then Coord(pts[0], a) else rest
  }

  function MaxOf(pts: seq<Point>, a: Axis): (m: real)
    requires |pts| > 0
    ensures forall i :: 0 <= i < |pts| ==> Coord(pts[i], a) <= m
    ensures exists i :: 0 <= i < |pts| && Coord(pts[i], a) == m
  {
    if |pts| == 1 then Coord(pts[0], a)
    else
      var rest := MaxOf(pts[1..], a);
      if Coord(pts[0], a) >= rest then Coord(pts[0], a) else rest
  }

  function MeanOf(pts: seq<Point>, a: Axis): real
    requires |pts| > 0
  {
    SumOf(pts, a) / (|pts| as real)
  }

  lemma MeanTimesCount(pts: seq<Point>, a: Axis)
    requires |pts| > 0
    ensures MeanOf(pts, a) * (|pts| as real) == SumOf(pts, a)
  {
    var n, s := |pts| as real, SumOf(pts, a);
    assert MeanOf(pts, a) == s / n;
    assert (s / n) * n == s;
  }

  /** n copies of v. */
  function Times(n: nat, v: real): real
  {
    (n as real) * v
  }

  /** A sum of n terms each within [lo, hi] lies within [n*lo, n*hi]. */
  lemma {:induction false} SumBounds(pts: seq<Point>, a: Axis, lo: real, hi: real)
    requires forall i :: 0 <= i < |pts| ==> lo <= Coord(pts[i], a) <= hi
    ensures Times(|pts|, lo) <= SumOf(pts, a) <= Times(|pts|, hi)
  {
    if |pts| > 0 {
      SumBounds(pts[1..], a, lo, hi);
      assert Times(|pts|, lo) == lo + Times(|pts[1..]|, lo);
      assert Times(|pts|, hi) == hi + Times(|pts[1..]|, hi);
    }
  }

  /** The mean of a coordinate lies between its minimum and maximum. */
  lemma MeanBetween(pts: seq<Point>, a: Axis)
    requires |pts| > 0
    ensures MinOf(pts, a) <= MeanOf(pts, a) <= MaxOf(pts, a)
  {
    SumBounds(pts, a, MinOf(pts, a), MaxOf(pts, a));
    DivideBounds(SumOf(pts, a), |pts|, MinOf(pts, a), MaxOf(pts, a));
  }

  /** n*lo <= s <= n*hi with n > 0 gives lo <= s/n <= hi. */
  lemma DivideBounds(s: real, n: nat, lo: real, hi: real)
    requires n > 0 && Times(n, lo) <= s <= Times(n, hi)
    ensures lo <= s / (n as real) <= hi
  {
    assert (s / (n as real)) * (n as real) == s;
  }

  // ---------------------------------------------------------------------
  // Deriving the cache (OnDeserialized)
  // ---------------------------------------------------------------------

  predicate InBox(b: Box, pt: Point)
  {
    !(pt.x < b.minX || pt.x > b.maxX || pt.y < b.minY || pt.y > b.maxY)
  }

  /** The box spanned by the extreme coordinates of the vertices. */
  function BoxOf(pts: Polygon): Box
  {
    Box(MinOf(pts, X), MaxOf(pts, X), MinOf(pts, Y), MaxOf(pts, Y))
  }

  /** The arithmetic mean of the vertices. */
  function CenterOf(pts: Polygon): Point
  {
    Point(MeanOf(pts, X), MeanOf(pts, Y))
  }

  /** The box holds every vertex, each of its sides touches a vertex, and
      the centre lies inside it. */
  lemma CacheFacts(pts: Polygon)
    ensures forall i :: 0 <= i < |pts| ==> InBox(BoxOf(pts), pts[i])
    ensures (exists i :: 0 <= i < |pts| && pts[i].x == BoxOf(pts).minX)
            && (exists i :: 0 <= i < |pts| && pts[i].x == BoxOf(pts).maxX)
            && (exists i :: 0 <= i < |pts| && pts[i].y == BoxOf(pts).minY)
            && (exists i :: 0 <= i < |pts| && pts[i].y == BoxOf(pts).maxY)
    ensures InBox(BoxOf(pts), CenterOf(pts))
  {
    var box := BoxOf(pts);
    forall i | 0 <= i < |pts|
      ensures InBox(box, pts[i])
    {
      assert Coord(pts[i], X) == pts[i].x && Coord(pts[i], Y) == pts[i].y;
    }
    var i0 :| 0 <= i0 < |pts| && Coord(pts[i0], X) == box.minX;
    var i1 :| 0 <= i1 < |pts| && Coord(pts[i1], X) == box.maxX;
    var i2 :| 0 <= i2 < |pts| && Coord(pts[i2], Y) == box.minY;
    var i3 :| 0 <= i3 < |pts| && Coord(pts[i3], Y) == box.maxY;
    MeanBetween(pts, X);
    MeanBetween(pts, Y);
  }

  /** The centre and the bounding box computed once from the final point
      list; fails on an empty list, where the source's `Average` and `Min`
      throw. The cache's properties are `CacheInvariant`. */
  function Derive(c: BiomeConfig): (r: Result<Biome, DeriveError>)
    ensures r.Ok? <==> |c.points| > 0
    ensures r.Err? ==> r.error == EmptyPointList
    ensures r.Ok? ==> r.value.name == c.name && r.value.kind == c.kind
                      && r.value.baseHeight == c.baseHeight && r.value.points == c.points
  {
    if |c.points| == 0 then Err(EmptyPointList)
    else Ok(Biome(c.name, c.kind, c.baseHeight, c.points, CenterOf(c.points), BoxOf(c.points)))
  }

  /** The `[OnDeserialized]` hook. It first creates the biome's noise through
      `Utils`, which runs the `Utils` static constructor; `init` is that
      constructor's outcome, and its failure is rethrown on every use of
      `Utils`, before the point list is looked at. Then the cache is
      derived. */
  function OnDeserialized(init: Result<seq<Utils.Color>, Utils.InitError>, c: BiomeConfig): (r: Result<Biome, DeriveError>)
    ensures r.Ok? <==> init.Ok? && |c.points| > 0
    ensures init.Err? ==> r == Err(UtilsUnavailable(init.error))
    ensures init.Ok? ==> r == Derive(c)
  {
    match init
    case Err(e) => Err(UtilsUnavailable(e))
    case Ok(_) => Derive(c)
  }

  /** With the colour table as shipped, deserialising any biome throws. */
  lemma ShippedTableBlocksLoading(c: BiomeConfig)
    ensures OnDeserialized(Utils.StaticInit(Utils.BiomeColors), c) == Err(UtilsUnavailable(Utils.LengthMismatch))
  {
    Utils.ShippedTableRejected(c.kind);
  }

  /** After loading, the box holds every vertex and each side touches one,
      the centre is the arithmetic mean of the vertices, and it lies inside
      the box. */
  lemma CacheInvariant(c: BiomeConfig)
    requires |c.points| > 0
    ensures var b := Derive(c).value;
            && (forall i :: 0 <= i < |c.points| ==> InBox(b.box, c.points[i]))
            && (exists i :: 0 <= i < |c.points| && c.points[i].x == b.box.minX)
            && (exists i :: 0 <= i < |c.points| && c.points[i].x == b.box.maxX)
            && (exists i :: 0 <= i < |c.points| && c.points[i].y == b.box.minY)
            && (exists i :: 0 <= i < |c.points| && c.points[i].y == b.box.maxY)
            && b.center == Point(MeanOf(c.points, X), MeanOf(c.points, Y))
            && InBox(b.box, b.center)
  {
    CacheFacts(c.points);
  }

  // ---------------------------------------------------------------------
  // The edge test (InsideBiome)
  // ---------------------------------------------------------------------

  /** The 2D cross product the source computes for edge p->q and query point
      pt. "Left" and "right" throughout are the source's names: left when
      this is positive, right when it is zero or negative. They are not the
      geometric sides: with y pointing up, a positive value puts pt
      geometrically to the right of p->q, so a counter-clockwise polygon has
      its interior on the source's "right" of every edge. */
  function Cross(p: Point, q: Point, pt: Point): real
  {
    (p.y - pt.y) * (q.x - p.x) - (p.x - pt.x) * (q.y - p.y)
  }

  /** The index of the vertex that closes edge i: i + 1, wrapping the last
      vertex back to the first. */
  function NextVertex(n: nat, i: nat): (j: nat)
    requires i < n
    ensures j < n
    ensures j == 0 <==> i == n - 1
  {
    if i < n - 1 then i + 1 else 0
  }

  function EdgeCross(pts: seq<Point>, i: nat, pt: Point): real
    requires i < |pts|
  {
    Cross(pts[i], pts[NextVertex(|pts|, i)], pt)
  }

  /** Every edge has pt strictly on its left. */
  predicate AllLeft(pts: seq<Point>, pt: Point)
  {
    forall i :: 0 <= i < |pts| ==> EdgeCross(pts, i, pt) > 0.0
  }

  /** Every edge has pt on its right or on its line. */
  predicate AllRight(pts: seq<Point>, pt: Point)
  {
    forall i :: 0 <= i < |pts| ==> EdgeCross(pts, i, pt) <= 0.0
  }

  /** The reference meaning of `InsideBiome`: inside the cached box, and on
      the same side of every edge, the wrap-around edge included. */
  predicate Inside(b: Biome, pt: Point)
  {
    InBox(b.box, pt) && (AllLeft(b.points, pt) || AllRight(b.points, pt))
  }

  /** Number of the first k edges with pt strictly on the left. */
  function LeftCount(pts: seq<Point>, pt: Point, k: nat): nat
    requires k <= |pts|
  {
    if k == 0 then 0
    else LeftCount(pts, pt, k - 1) + (if EdgeCross(pts, k - 1, pt) > 0.0 then 1 else 0)
  }

  /** Number of the first k edges with pt on the right or on the line. */
  function RightCount(pts: seq<Point>, pt: Point, k: nat): nat
    requires k <= |pts|
  {
    if k == 0 then 0
    else RightCount(pts, pt, k - 1) + (if EdgeCross(pts, k - 1, pt) > 0.0 then 0 else 1)
  }

  /** Each of the first k edges is counted exactly once, on exactly one side;
      no left edge means all are right and vice versa. */
  lemma {:induction false} CountsPartition(pts: seq<Point>, pt: Point, k: nat)
    requires k <= |pts|
    ensures LeftCount(pts, pt, k) + RightCount(pts, pt, k) == k
    ensures LeftCount(pts, pt, k) == 0 <==> forall i :: 0 <= i < k ==> EdgeCross(pts, i, pt) <= 0.0
    ensures RightCount(pts, pt, k) == 0 <==> forall i :: 0 <= i < k ==> EdgeCross(pts, i, pt) > 0.0
  {
    if k > 0 {
      CountsPartition(pts, pt, k - 1);
    }
  }

  /** The edge loop of `InsideBiome`: edges 0..n-2 inside the loop, then the
      closing edge from the last vertex back to the first. */
  method CountEdgeSides(pts: Polygon, pt: Point) returns (left: nat, right: nat)
    ensures left + right == |pts|
    ensures left == 0 <==> AllRight(pts, pt)
    ensures right == 0 <==> AllLeft(pts, pt)
  {
    var i := 0;
    left, right := 0, 0;
    while i < |pts| - 1
      invariant 0 <= i <= |pts| - 1
      invariant left == LeftCount(pts, pt, i) && right == RightCount(pts, pt, i)
    {
      var cross := Cross(pts[i], pts[i + 1], pt);
      if cross > 0.0 {
        left := left + 1;
      } else {
        right := right + 1;
      }
      i := i + 1;
    }
    var cross2 := Cross(pts[i], pts[0], pt);
    if cross2 > 0.0 {
      left := left + 1;
    } else {
      right := right + 1;
    }
    CountsPartition(pts, pt, |pts|);
  }

  /** `Biome.InsideBiome`: the bounding-box fast reject, then the edge loop. */
  method InsideBiome(b: Biome, pt: Point) returns (inside: bool)
    ensures !InBox(b.box, pt) ==> !inside
    ensures inside <==> InBox(b.box, pt) && (AllLeft(b.points, pt) || AllRight(b.points, pt))
  {
    if pt.x < b.box.minX || pt.x > b.box.maxX || pt.y < b.box.minY || pt.y > b.box.maxY {
      return false;
    }
    var left, right := CountEdgeSides(b.points, pt);
    inside := left == 0 || right == 0;
  }

  /** A point on the line of some edge (zero cross product) counts that edge
      as right, never left: it can only be inside when every edge is right. */
  lemma {:induction false} OnEdgeLineCountsRight(b: Biome, pt: Point, e: nat)
    requires e < |b.points| && EdgeCross(b.points, e, pt) == 0.0
    ensures RightCount(b.points, pt, |b.points|) >= 1
    ensures LeftCount(b.points, pt, |b.points|) < |b.points|
    ensures Inside(b, pt) <==> InBox(b.box, pt) && AllRight(b.points, pt)
  {
    CountsPartition(b.points, pt, |b.points|);
    assert !AllLeft(b.points, pt);
  }

  // ---------------------------------------------------------------------
  // The centre of a convex polygon is inside it
  // ---------------------------------------------------------------------

  /** Convexity in counter-clockwise order (y up), in the edge test's terms:
      every vertex is on the source's "right" of every edge or on its line. */
  predicate ConvexRight(pts: seq<Point>)
  {
    forall i, j :: 0 <= i < |pts| && 0 <= j < |pts| ==> EdgeCross(pts, i, pts[j]) <= 0.0
  }

  /** The cross product of edge p→q summed over n points whose
      coordinates total sx and sy. */
  function Affine(p: Point, q: Point, n: real, sx: real, sy: real): real
  {
    n * (p.y * (q.x - p.x) - p.x * (q.y - p.y)) - (q.x - p.x) * sy + (q.y - p.y) * sx
  }

  function SumCross(p: Point, q: Point, pts: seq<Point>): real
  {
    if |pts| == 0 then 0.0 else Cross(p, q, pts[0]) + SumCross(p, q, pts[1..])
  }

  /** The cross product is affine in the query point, so summing it over
      points sums their coordinates. */
  lemma {:induction false} SumCrossAffine(p: Point, q: Point, pts: seq<Point>)
    ensures SumCross(p, q, pts) == Affine(p, q, |pts| as real, SumOf(pts, X), SumOf(pts, Y))
  {
    if |pts| > 0 {
      SumCrossAffine(p, q, pts[1..]);
    }
  }

  lemma {:induction false} SumCrossNonPositive(p: Point, q: Point, pts: seq<Point>)
    requires forall j :: 0 <= j < |pts| ==> Cross(p, q, pts[j]) <= 0.0
    ensures SumCross(p, q, pts) <= 0.0
  {
    if |pts| > 0 {
      SumCrossNonPositive(p, q, pts[1..]);
    }
  }

  /** The cross product is affine in the query point, so at the vertex mean
      it is the mean of the vertices' cross products: when those sum to a
      non-positive value, the mean is on the right of the edge too. */
  lemma CrossAtMean(p: Point, q: Point, pts: seq<Point>)
    requires |pts| > 0 && SumCross(p, q, pts) <= 0.0
    ensures Cross(p, q, Point(MeanOf(pts, X), MeanOf(pts, Y))) <= 0.0
  {
    MeanTimesCount(pts, X);
    MeanTimesCount(pts, Y);
    CrossAtScaledCentre(p, q, pts, Point(MeanOf(pts, X), MeanOf(pts, Y)));
  }

  /** The same, for any point c whose coordinates times |pts| are the
      coordinate sums. */
  lemma CrossAtScaledCentre(p: Point, q: Point, pts: seq<Point>, c: Point)
    requires |pts| > 0 && SumCross(p, q, pts) <= 0.0
    requires c.x * (|pts| as real) == SumOf(pts, X) && c.y * (|pts| as real) == SumOf(pts, Y)
    ensures Cross(p, q, c) <= 0.0
  {
    SumCrossAffine(p, q, pts);
    SignAtCentre(p, q, c, |pts| as real, SumOf(pts, X), SumOf(pts, Y), SumCross(p, q, pts));
  }

  /** With c's coordinates times n > 0 equal to sx and sy, and s the sum
      the affine form gives for those totals, the cross product at c has
      the sign of s. */
  lemma SignAtCentre(p: Point, q: Point, c: Point, n: real, sx: real, sy: real, s: real)
    requires n > 0.0 && c.x * n == sx && c.y * n == sy
    requires s == Affine(p, q, n, sx, sy) && s <= 0.0
    ensures Cross(p, q, c) <= 0.0
  {
    ScaledCross(p, q, c, n, sx, sy);
    NonPositiveFactor(Cross(p, q, c), n, s);
  }

  /** The cross product at c, scaled by n, where c's coordinates times n
      are sx and sy. */
  lemma ScaledCross(p: Point, q: Point, c: Point, n: real, sx: real, sy: real)
    requires c.x * n == sx && c.y * n == sy
    ensures Cross(p, q, c) * n == Affine(p, q, n, sx, sy)
  {
    var dx, dy := q.x - p.x, q.y - p.y;
    calc {
      Cross(p, q, c) * n;
      ((p.y - c.y) * dx - (p.x - c.x) * dy) * n;
      n * (p.y * dx - p.x * dy) - dx * (c.y * n) + dy * (c.x * n);
    }
  }

  lemma NonPositiveFactor(a: real, n: real, s: real)
    requires n > 0.0 && a * n == s && s <= 0.0
    ensures a <= 0.0
  {
  }

  /** Each edge of a counter-clockwise convex polygon has the vertex mean on
      its right or on its line. */
  lemma MeanRightOfEdge(pts: Polygon, i: nat)
    requires ConvexRight(pts) && i < |pts|
    ensures EdgeCross(pts, i, Point(MeanOf(pts, X), MeanOf(pts, Y))) <= 0.0
  {
    var p, q := pts[i], pts[NextVertex(|pts|, i)];
    assert forall j :: 0 <= j < |pts| ==> Cross(p, q, pts[j]) == EdgeCross(pts, i, pts[j]);
    SumCrossNonPositive(p, q, pts);
    CrossAtMean(p, q, pts);
  }

  /** For a counter-clockwise convex polygon the cached centre passes the
      box test and lies on the source's "right" of every edge or on its
      line, so it is inside. `CenterInsideConvexLeft` is the clockwise half. */
  lemma CenterInsideConvex(c: BiomeConfig)
    requires |c.points| > 0 && ConvexRight(c.points)
    ensures Derive(c).Ok?
    ensures Inside(Derive(c).value, Derive(c).value.center)
  {
    var b := Derive(c).value;
    CacheInvariant(c);
    forall i | 0 <= i < |b.points|
      ensures EdgeCross(b.points, i, b.center) <= 0.0
    {
      MeanRightOfEdge(b.points, i);
    }
  }

  /** Convexity in clockwise order (y up), in the edge test's terms: every
      vertex is on the source's "left" of every edge or on its line, and
      some vertex is strictly left of each edge. The strict vertex rules out
      degenerate edges, along which the centre would sit on the line and be
      counted right. */
  predicate ConvexLeft(pts: seq<Point>)
  {
    && (forall i, j :: 0 <= i < |pts| && 0 <= j < |pts| ==> EdgeCross(pts, i, pts[j]) >= 0.0)
    && (forall i :: 0 <= i < |pts| ==> SomeVertexLeft(pts, i))
  }

  /** Some vertex is strictly left of edge i. */
  predicate SomeVertexLeft(pts: seq<Point>, i: nat)
    requires i < |pts|
  {
    exists j :: 0 <= j < |pts| && EdgeCross(pts, i, pts[j]) > 0.0
  }

  /** Non-negative cross products, one of them positive, sum to a positive value. */
  lemma {:induction false} SumCrossPositive(p: Point, q: Point, pts: seq<Point>, k: nat)
    requires forall j :: 0 <= j < |pts| ==> Cross(p, q, pts[j]) >= 0.0
    requires k < |pts| && Cross(p, q, pts[k]) > 0.0
    ensures SumCross(p, q, pts) > 0.0
  {
    if k == 0 {
      SumCrossNonNegative(p, q, pts[1..]);
    } else {
      SumCrossPositive(p, q, pts[1..], k - 1);
    }
  }

  lemma {:induction false} SumCrossNonNegative(p: Point, q: Point, pts: seq<Point>)
    requires forall j :: 0 <= j < |pts| ==> Cross(p, q, pts[j]) >= 0.0
    ensures SumCross(p, q, pts) >= 0.0
  {
    if |pts| > 0 {
      SumCrossNonNegative(p, q, pts[1..]);
    }
  }

  /** The mirror of `CrossAtMean`: when the vertices' cross products sum to
      a positive value, the vertex mean is strictly left of the edge. */
  lemma CrossLeftAtMean(p: Point, q: Point, pts: seq<Point>)
    requires |pts| > 0 && SumCross(p, q, pts) > 0.0
    ensures Cross(p, q, Point(MeanOf(pts, X), MeanOf(pts, Y))) > 0.0
  {
    MeanTimesCount(pts, X);
    MeanTimesCount(pts, Y);
    CrossLeftAtScaledCentre(p, q, pts, Point(MeanOf(pts, X), MeanOf(pts, Y)));
  }

  lemma CrossLeftAtScaledCentre(p: Point, q: Point, pts: seq<Point>, c: Point)
    requires |pts| > 0 && SumCross(p, q, pts) > 0.0
    requires c.x * (|pts| as real) == SumOf(pts, X) && c.y * (|pts| as real) == SumOf(pts, Y)
    ensures Cross(p, q, c) > 0.0
  {
    SumCrossAffine(p, q, pts);
    LeftSignAtCentre(p, q, c, |pts| as real, SumOf(pts, X), SumOf(pts, Y), SumCross(p, q, pts));
  }

  lemma LeftSignAtCentre(p: Point, q: Point, c: Point, n: real, sx: real, sy: real, s: real)
    requires n > 0.0 && c.x * n == sx && c.y * n == sy
    requires s == Affine(p, q, n, sx, sy) && s > 0.0
    ensures Cross(p, q, c) > 0.0
  {
    ScaledCross(p, q, c, n, sx, sy);
    PositiveFactor(Cross(p, q, c), n, s);
  }

  lemma PositiveFactor(a: real, n: real, s: real)
    requires n > 0.0 && a * n == s && s > 0.0
    ensures a > 0.0
  {
  }

  /** Each edge of a clockwise convex polygon has the vertex mean strictly
      on its left. */
  lemma MeanLeftOfEdge(pts: Polygon, i: nat)
    requires ConvexLeft(pts) && i < |pts|
    ensures EdgeCross(pts, i, Point(MeanOf(pts, X), MeanOf(pts, Y))) > 0.0
  {
    var p, q := pts[i], pts[NextVertex(|pts|, i)];
    assert forall j :: 0 <= j < |pts| ==> Cross(p, q, pts[j]) == EdgeCross(pts, i, pts[j]);
    assert SomeVertexLeft(pts, i);
    var k :| 0 <= k < |pts| && EdgeCross(pts, i, pts[k]) > 0.0;
    SumCrossPositive(p, q, pts, k);
    CrossLeftAtMean(p, q, pts);
  }

  /** For a clockwise convex polygon the cached centre passes the box test
      and lies strictly left of every edge, so it is inside. */
  lemma CenterInsideConvexLeft(c: BiomeConfig)
    requires |c.points| > 0 && ConvexLeft(c.points)
    ensures Derive(c).Ok?
    ensures Inside(Derive(c).value, Derive(c).value.center)
  {
    var b := Derive(c).value;
    CacheInvariant(c);
    forall i | 0 <= i < |b.points|
      ensures EdgeCross(b.points, i, b.center) > 0.0
    {
      MeanLeftOfEdge(b.points, i);
    }
  }

  /** The clockwise unit triangle (0,0), (0,1), (1,0). */
  const ClockwiseTriangle: BiomeConfig :=
    BiomeConfig("clockwise", Tundra, 0, [Point(0.0, 0.0), Point(0.0, 1.0), Point(1.0, 0.0)])

  /** The sum of one coordinate over three vertices. */
  lemma SumOfThree(a: Point, b: Point, c: Point, ax: Axis)
    ensures SumOf([a, b, c], ax) == Coord(a, ax) + Coord(b, ax) + Coord(c, ax)
  {
    assert [c][1..] == [];
    assert SumOf([c], ax) == Coord(c, ax);
    assert [b, c][1..] == [c];
    assert SumOf([b, c], ax) == Coord(b, ax) + Coord(c, ax);
    assert [a, b, c][1..] == [b, c];
  }

  /** Each edge of the clockwise triangle has the opposite vertex strictly
      on its left and no vertex on its right. */
  lemma ClockwiseTriangleConvex()
    ensures ConvexLeft(ClockwiseTriangle.points)
  {
    var pts := ClockwiseTriangle.points;
    assert EdgeCross(pts, 0, pts[2]) > 0.0 && SomeVertexLeft(pts, 0);
    assert EdgeCross(pts, 1, pts[0]) > 0.0 && SomeVertexLeft(pts, 1);
    assert EdgeCross(pts, 2, pts[1]) > 0.0 && SomeVertexLeft(pts, 2);
  }

  lemma ClockwiseTriangleCentre()
    ensures Derive(ClockwiseTriangle).Ok?
    ensures Derive(ClockwiseTriangle).value.center == Point(1.0 / 3.0, 1.0 / 3.0)
  {
    var a, b, c := Point(0.0, 0.0), Point(0.0, 1.0), Point(1.0, 0.0);
    assert ClockwiseTriangle.points == [a, b, c];
    SumOfThree(a, b, c, X);
    SumOfThree(a, b, c, Y);
  }

  /** The clockwise orientation is handled too: the centre (1/3, 1/3) of the
      clockwise triangle is inside it, by its "left" side of every edge. */
  lemma ClockwiseTriangleExample()
    ensures ConvexLeft(ClockwiseTriangle.points) && !ConvexRight(ClockwiseTriangle.points)
    ensures Derive(ClockwiseTriangle).Ok?
    ensures Inside(Derive(ClockwiseTriangle).value, Point(1.0 / 3.0, 1.0 / 3.0))
  {
    var pts := ClockwiseTriangle.points;
    ClockwiseTriangleConvex();
    assert EdgeCross(pts, 0, pts[2]) > 0.0;
    CenterInsideConvexLeft(ClockwiseTriangle);
    ClockwiseTriangleCentre();
  }

  // ---------------------------------------------------------------------
  // A worked example: the unit right triangle
  // ---------------------------------------------------------------------

  const Triangle: BiomeConfig :=
    BiomeConfig("triangle", Tundra, 0, [Point(0.0, 0.0), Point(1.0, 0.0), Point(0.0, 1.0)])

  lemma TriangleBox()
    ensures Derive(Triangle).Ok?
    ensures Derive(Triangle).value.box == Box(0.0, 1.0, 0.0, 1.0)
  {
    var p0, p1, p2 := Point(0.0, 0.0), Point(1.0, 0.0), Point(0.0, 1.0);
    assert Triangle.points == [p0, p1, p2];
    ExtremesOfThree(p0, p1, p2, X);
    ExtremesOfThree(p0, p1, p2, Y);
  }

  function Lesser(u: real, v: real): real { if u <= v then u else v }

  function Greater(u: real, v: real): real { if u >= v then u else v }

  /** The extremes of two vertices, coordinate by coordinate. */
  lemma ExtremesOfTwo(b: Point, c: Point, ax: Axis)
    ensures MinOf([b, c], ax) == Lesser(Coord(b, ax), Coord(c, ax))
    ensures MaxOf([b, c], ax) == Greater(Coord(b, ax), Coord(c, ax))
  {
    assert [b, c][1..] == [c];
  }

  /** The extremes of three vertices, coordinate by coordinate. */
  lemma ExtremesOfThree(a: Point, b: Point, c: Point, ax: Axis)
    ensures MinOf([a, b, c], ax) == Lesser(Coord(a, ax), Lesser(Coord(b, ax), Coord(c, ax)))
    ensures MaxOf([a, b, c], ax) == Greater(Coord(a, ax), Greater(Coord(b, ax), Coord(c, ax)))
  {
    assert [a, b, c][1..] == [b, c];
    ExtremesOfTwo(b, c, ax);
  }

  /** The edge tests of a three-vertex polygon, edge by edge. */
  lemma ThreeEdges(a: Point, b: Point, c: Point, pt: Point)
    ensures AllRight([a, b, c], pt) <==> Cross(a, b, pt) <= 0.0 && Cross(b, c, pt) <= 0.0 && Cross(c, a, pt) <= 0.0
    ensures AllLeft([a, b, c], pt) <==> Cross(a, b, pt) > 0.0 && Cross(b, c, pt) > 0.0 && Cross(c, a, pt) > 0.0
  {
    var pts := [a, b, c];
    assert EdgeCross(pts, 0, pt) == Cross(a, b, pt);
    assert EdgeCross(pts, 1, pt) == Cross(b, c, pt);
    assert EdgeCross(pts, 2, pt) == Cross(c, a, pt);
  }

  lemma TriangleInner()
    ensures Derive(Triangle).Ok?
    ensures Inside(Derive(Triangle).value, Point(0.25, 0.25))
  {
    TriangleBox();
    var pt := Point(0.25, 0.25);
    ThreeEdges(Point(0.0, 0.0), Point(1.0, 0.0), Point(0.0, 1.0), pt);
  }

  lemma TriangleOuter()
    ensures Derive(Triangle).Ok?
    ensures InBox(Derive(Triangle).value.box, Point(0.6, 0.6))
    ensures !Inside(Derive(Triangle).value, Point(0.6, 0.6))
  {
    TriangleBox();
    var pt := Point(0.6, 0.6);
    ThreeEdges(Point(0.0, 0.0), Point(1.0, 0.0), Point(0.0, 1.0), pt);
  }

  /** (0.25, 0.25) is inside the triangle; (0.6, 0.6) passes the box test but
      the hypotenuse puts it on the other side, so it is rejected. */
  lemma TriangleExample()
    ensures Derive(Triangle).Ok?
    ensures Inside(Derive(Triangle).value, Point(0.25, 0.25))
    ensures InBox(Derive(Triangle).value.box, Point(0.6, 0.6))
    ensures !Inside(Derive(Triangle).value, Point(0.6, 0.6))
  {
    TriangleInner();
    TriangleOuter();
  }
}
