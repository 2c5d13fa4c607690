/** The discontinuity pass at the end of `MapGenerator.GenerateHeightMap`:
    every cell except those in column 0 and row 0 is compared with its
    neighbour at x-1 and its neighbour at y-1, and a height jump above the
    threshold is counted and tallied in a biome-pair matrix indexed by the
    biome kinds of the two cells. The tally is then reported over the upper
    triangle of the matrix. */
module Discontinuities {
  import opened BiomeTypes

  // ---------------------------------------------------------------------
  // The grid and the jump test
  // ---------------------------------------------------------------------

  /** The literal 8 in the comparison (the local `threshold` is unused). */
  const Threshold: int := 8

  function Abs(a: int): (r: nat)
    ensures r == a || r == -a
  {
    if a < 0 then -a else a
  }

  /** The bounds of a C# `int`: -2^31 up to 2^31 - 1. */
  const TwoTo31: int := 0x8000_0000
  const TwoTo32: int := 0x1_0000_0000

  predicate IsInt32(a: int)
  {
    -TwoTo31 <= a < TwoTo31
  }

  /** An integer wrapped into the 32-bit range by whole multiples of 2^32,
      as an unchecked C# `int` result is. */
  function Wrap32(d: int): (r: int)
    ensures IsInt32(r)
    ensures IsInt32(d) ==> r == d
    decreases if d < 0 then -d else d + 1
  {
    if d >= TwoTo31 then Wrap32(d - TwoTo32)
    else if d < -TwoTo31 then Wrap32(d + TwoTo32)
    else d
  }

  /** The wrap only removes multiples of 2^32. */
  lemma {:induction false} Wrap32Congruent(d: int)
    ensures (d - Wrap32(d)) % TwoTo32 == 0
    decreases if d < 0 then -d else d + 1
  {
    if d >= TwoTo31 {
      Wrap32Congruent(d - TwoTo32);
    } else if d < -TwoTo31 {
      Wrap32Congruent(d + TwoTo32);
    }
  }

  /** C# `int` subtraction in an unchecked context. */
  function Sub32(a: int, b: int): int
  {
    Wrap32(a - b)
  }

  /** Two heights differ by more than the threshold, the difference being
      taken as the source takes it, in 32-bit arithmetic. */
  predicate Jump(a: int, b: int)
  {
    Abs(Sub32(a, b)) > Threshold
  }

  /** Whenever the difference fits in an `int`, the test is the plain one
      on the exact difference. */
  lemma JumpExact(a: int, b: int)
    requires IsInt32(a - b)
    ensures Jump(a, b) <==> Abs(a - b) > Threshold
  {
  }

  /** The wrap shows between the extreme heights: `int.MaxValue` beside
      `int.MinValue` differ by 2^32 - 1, but the wrapped difference is -1,
      so the pair is not counted as a discontinuity. */
  lemma ExtremesWrapToNoJump()
    ensures IsInt32(TwoTo31 - 1) && IsInt32(-TwoTo31)
    ensures Abs((TwoTo31 - 1) - (-TwoTo31)) > Threshold
    ensures Sub32(TwoTo31 - 1, -TwoTo31) == -1
    ensures !Jump(TwoTo31 - 1, -TwoTo31)
  {
  }

  /** The `heights` and `biomes` arrays of the generator, both indexed
      `[x][y]` with `0 <= x < width` and `0 <= y < height`. */
  datatype Terrain = Terrain(width: nat, height: nat, heights: seq<seq<int>>, kinds: seq<seq<BiomeType>>)

  /** Both arrays are `width` by `height`. */
  predicate Valid(g: Terrain)
  {
    && |g.heights| == g.width
    && |g.kinds| == g.width
    && (forall x :: 0 <= x < g.width ==> |g.heights[x]| == g.height)
    && (forall x :: 0 <= x < g.width ==> |g.kinds[x]| == g.height)
  }

  /** Which neighbour a cell was compared with. */
  datatype Neighbour = PrevX | PrevY

  /** One counted discontinuity: the cell, the neighbour it jumps from, and
      the biome kinds of the cell and of that neighbour. */
  datatype Discontinuity = Discontinuity(x: nat, y: nat, from: Neighbour, here: BiomeType, there: BiomeType)

  /** The reference definition: `e` is a jump between a scanned cell and the
      neighbour it names, carrying the two cells' biome kinds. */
  predicate IsDiscontinuity(g: Terrain, e: Discontinuity)
    requires Valid(g)
  {
    && 1 <= e.x < g.width
    && 1 <= e.y < g.height
    && var nx := if e.from == PrevX then e.x - 1 else e.x;
       var ny := if e.from == PrevY then e.y - 1 else e.y;
       && Jump(g.heights[e.x][e.y], g.heights[nx][ny])
       && e.here == g.kinds[e.x][e.y]
       && e.there == g.kinds[nx][ny]
  }

  // ---------------------------------------------------------------------
  // The events in scan order
  // ---------------------------------------------------------------------

  /** The loop body at cell (x, y): the x-1 comparison first, then y-1. */
  function CellEvents(g: Terrain, x: nat, y: nat): seq<Discontinuity>
    requires Valid(g) && 1 <= x < g.width && 1 <= y < g.height
  {
    (if Jump(g.heights[x][y], g.heights[x - 1][y])
     then [Discontinuity(x, y, PrevX, g.kinds[x][y], g.kinds[x - 1][y])] else [])
    + (if Jump(g.heights[x][y], g.heights[x][y - 1])
       then [Discontinuity(x, y, PrevY, g.kinds[x][y], g.kinds[x][y - 1])] else [])
  }

  /** The events of column x for the cells `1 <= y' < y`. */
  function RowEvents(g: Terrain, x: nat, y: nat): seq<Discontinuity>
    requires Valid(g) && 1 <= x < g.width && (y <= 1 || y <= g.height)
  {
    if y <= 1 then [] else RowEvents(g, x, y - 1) + CellEvents(g, x, y - 1)
  }

  /** The events of the columns `1 <= x' < x`. */
  function EventsBefore(g: Terrain, x: nat): seq<Discontinuity>
    requires Valid(g) && (x <= 1 || x <= g.width)
  {
    if x <= 1 then [] else EventsBefore(g, x - 1) + RowEvents(g, x - 1, g.height)
  }

  /** Every event of the scan, in the order the loops meet them. */
  function Events(g: Terrain): seq<Discontinuity>
    requires Valid(g)
  {
    EventsBefore(g, g.width)
  }

  predicate Distinct<T(==)>(s: seq<T>)
  {
    forall i, j :: 0 <= i < j < |s| ==> s[i] != s[j]
  }

  lemma DistinctAppend<T>(a: seq<T>, b: seq<T>)
    requires Distinct(a) && Distinct(b)
    requires forall e :: e in a ==> e !in b
    ensures Distinct(a + b)
  {
    var ab := a + b;
    forall i, j | 0 <= i < j < |ab|
      ensures ab[i] != ab[j]
    {
      if j >= |a| && i < |a| {
        assert ab[i] in a && ab[j] == b[j - |a|];
      } else if i >= |a| {
        assert ab[i] == b[i - |a|] && ab[j] == b[j - |a|];
      }
    }
  }

  lemma CellEventsExact(g: Terrain, x: nat, y: nat)
    requires Valid(g) && 1 <= x < g.width && 1 <= y < g.height
    ensures forall e :: e in CellEvents(g, x, y) <==> IsDiscontinuity(g, e) && e.x == x && e.y == y
    ensures Distinct(CellEvents(g, x, y))
  {
  }

  lemma {:induction false} RowEventsExact(g: Terrain, x: nat, y: nat)
    requires Valid(g) && 1 <= x < g.width && y <= g.height
    ensures forall e :: e in RowEvents(g, x, y) <==> IsDiscontinuity(g, e) && e.x == x && e.y < y
    ensures Distinct(RowEvents(g, x, y))
  {
    if y > 1 {
      RowEventsExact(g, x, y - 1);
      CellEventsExact(g, x, y - 1);
      DistinctAppend(RowEvents(g, x, y - 1), CellEvents(g, x, y - 1));
    }
  }

  lemma {:induction false} EventsBeforeExact(g: Terrain, x: nat)
    requires Valid(g) && x <= g.width
    ensures forall e :: e in EventsBefore(g, x) <==> IsDiscontinuity(g, e) && e.x < x
    ensures Distinct(EventsBefore(g, x))
  {
    if x > 1 {
      EventsBeforeExact(g, x - 1);
      RowEventsExact(g, x - 1, g.height);
      DistinctAppend(EventsBefore(g, x - 1), RowEvents(g, x - 1, g.height));
    }
  }

  /** The scan meets exactly the discontinuities of the grid, each once, so
      its count is the number of (cell, neighbour) jumps with x >= 1 and
      y >= 1. */
  lemma EventsExact(g: Terrain)
    requires Valid(g)
    ensures forall e :: e in Events(g) <==> IsDiscontinuity(g, e)
    ensures Distinct(Events(g))
  {
    EventsBeforeExact(g, g.width);
  }

  /** A 2 by 2 grid whose low corner (0, 0) jumps to both its neighbours,
      which are level with the far corner. */
  function CornerPit(k: BiomeType): (g: Terrain)
    ensures Valid(g)
  {
    Terrain(2, 2, [[0, 100], [100, 100]], [[k, k], [k, k]])
  }

  /** Jumps between two cells of column 0 or of row 0 are never compared:
      the corner pit has two jumps, and the scan counts none. */
  lemma BorderJumpsUncounted(k: BiomeType)
    ensures Jump(CornerPit(k).heights[0][0], CornerPit(k).heights[0][1])
    ensures Jump(CornerPit(k).heights[0][0], CornerPit(k).heights[1][0])
    ensures Events(CornerPit(k)) == []
  {
    EventsExact(CornerPit(k));
  }

  // ---------------------------------------------------------------------
  // The biome-pair matrix
  // ---------------------------------------------------------------------

  /** A `Count` by `Count` matrix of counters. */
  predicate IsMatrix(m: seq<seq<nat>>)
  {
    |m| == Count && forall i :: 0 <= i < |m| ==> |m[i]| == Count
  }

  /** `new int[Count, Count]`. */
  function Zero(): (m: seq<seq<nat>>)
    ensures IsMatrix(m)
    ensures forall i, j :: 0 <= i < Count && 0 <= j < Count ==> m[i][j] == 0
  {
    seq(Count, _ => seq(Count, _ => 0))
  }

  /** `m[i, j]++`: that counter grows by one and every other is unchanged. */
  function Inc(m: seq<seq<nat>>, i: nat, j: nat): (r: seq<seq<nat>>)
    requires IsMatrix(m) && i < Count && j < Count
    ensures IsMatrix(r)
  {
    m[i := m[i][j := m[i][j] + 1]]
  }

  /** `Inc` grows counter [i, j] by one and leaves every other unchanged. */
  lemma IncFacts(m: seq<seq<nat>>, i: nat, j: nat)
    requires IsMatrix(m) && i < Count && j < Count
    ensures Inc(m, i, j)[i][j] == m[i][j] + 1
    ensures forall a, b :: 0 <= a < Count && 0 <= b < Count && (a, b) != (i, j) ==> Inc(m, i, j)[a][b] == m[a][b]
  {
  }

  /** The matrix after each event has incremented the cell of its
      (here, there) kinds. */
  function Tally(es: seq<Discontinuity>): (m: seq<seq<nat>>)
    ensures IsMatrix(m)
  {
    if |es| == 0 then Zero()
    else
      var e := es[|es| - 1];
      Inc(Tally(es[..|es| - 1]), Ordinal(e.here), Ordinal(e.there))
  }

  /** The (here, there) kind pair of each event. */
  function KindPairs(es: seq<Discontinuity>): (ps: seq<(BiomeType, BiomeType)>)
    ensures |ps| == |es|
    ensures forall k :: 0 <= k < |es| ==> ps[k] == (es[k].here, es[k].there)
  {
    seq(|es|, k requires 0 <= k < |es| => (es[k].here, es[k].there))
  }

  /** Cell [i, j] of the tally holds the number of events from a biome of
      ordinal i to one of ordinal j. */
  lemma {:induction false} TallyCounts(es: seq<Discontinuity>)
    ensures forall i, j :: 0 <= i < Count && 0 <= j < Count ==>
              Tally(es)[i][j] == multiset(KindPairs(es))[(FromOrdinal(i), FromOrdinal(j))]
  {
    if |es| > 0 {
      var prefix, e := es[..|es| - 1], es[|es| - 1];
      TallyCounts(prefix);
      assert KindPairs(es) == KindPairs(prefix) + [(e.here, e.there)];
      OrdinalBijection(e.here);
      OrdinalBijection(e.there);
      IncFacts(Tally(prefix), Ordinal(e.here), Ordinal(e.there));
      forall i, j | 0 <= i < Count && 0 <= j < Count
        ensures Tally(es)[i][j] == multiset(KindPairs(es))[(FromOrdinal(i), FromOrdinal(j))]
      {
        if (i, j) == (Ordinal(e.here), Ordinal(e.there)) {
          assert (FromOrdinal(i), FromOrdinal(j)) == (e.here, e.there);
        } else {
          assert (FromOrdinal(i), FromOrdinal(j)) != (e.here, e.there);
        }
      }
    }
  }

  function RowSum(r: seq<nat>): nat
  {
    if |r| == 0 then 0 else r[0] + RowSum(r[1..])
  }

  /** The sum of every counter of the matrix. */
  function MatrixSum(m: seq<seq<nat>>): nat
  {
    if |m| == 0 then 0 else RowSum(m[0]) + MatrixSum(m[1..])
  }

  lemma {:induction false} RowSumUpdate(r: seq<nat>, k: nat, v: nat)
    requires k < |r|
    ensures RowSum(r[k := v]) + r[k] == RowSum(r) + v
  {
    if k > 0 {
      RowSumUpdate(r[1..], k - 1, v);
      assert r[k := v][1..] == r[1..][k - 1 := v];
    }
  }

  lemma {:induction false} MatrixSumUpdate(m: seq<seq<nat>>, k: nat, r: seq<nat>)
    requires k < |m|
    ensures MatrixSum(m[k := r]) + RowSum(m[k]) == MatrixSum(m) + RowSum(r)
  {
    if k > 0 {
      MatrixSumUpdate(m[1..], k - 1, r);
      assert m[k := r][1..] == m[1..][k - 1 := r];
    }
  }

  lemma {:induction false} RowSumZero(r: seq<nat>)
    requires forall j :: 0 <= j < |r| ==> r[j] == 0
    ensures RowSum(r) == 0
  {
    if |r| > 0 {
      RowSumZero(r[1..]);
    }
  }

  lemma {:induction false} MatrixSumZero(m: seq<seq<nat>>)
    requires forall i, j :: 0 <= i < |m| && 0 <= j < |m[i]| ==> m[i][j] == 0
    ensures MatrixSum(m) == 0
  {
    if |m| > 0 {
      RowSumZero(m[0]);
      MatrixSumZero(m[1..]);
    }
  }

  /** The matrix accounts for every event exactly once: its counters sum to
      the number of events. */
  lemma {:induction false} TallySum(es: seq<Discontinuity>)
    ensures MatrixSum(Tally(es)) == |es|
  {
    if |es| == 0 {
      MatrixSumZero(Zero());
    } else {
      var prefix, e := es[..|es| - 1], es[|es| - 1];
      TallySum(prefix);
      var m, i, j := Tally(prefix), Ordinal(e.here), Ordinal(e.there);
      OrdinalBijection(e.here);
      OrdinalBijection(e.there);
      RowSumUpdate(m[i], j, m[i][j] + 1);
      MatrixSumUpdate(m, i, m[i][j := m[i][j] + 1]);
    }
  }

  // ---------------------------------------------------------------------
  // The scan
  // ---------------------------------------------------------------------

  /** One more event increments one counter of the tally. */
  lemma TallySnoc(s: seq<Discontinuity>, e: Discontinuity)
    ensures Tally(s + [e]) == Inc(Tally(s), Ordinal(e.here), Ordinal(e.there))
  {
    assert (s + [e])[..|s|] == s;
  }

  /** The loop body at (x, y): both comparisons, each counting and
      tallying a jump. `done` is the list of events counted so far. */
  method ScanCell(g: Terrain, x: nat, y: nat, count: nat, pairs: seq<seq<nat>>, ghost done: seq<Discontinuity>)
    returns (count': nat, pairs': seq<seq<nat>>)
    requires Valid(g) && 1 <= x < g.width && 1 <= y < g.height
    requires count == |done| && pairs == Tally(done)
    ensures count' == |done + CellEvents(g, x, y)|
    ensures pairs' == Tally(done + CellEvents(g, x, y))
  {
    count', pairs' := count, pairs;
    ghost var seen := done;
    if Jump(g.heights[x][y], g.heights[x - 1][y]) {
      var e := Discontinuity(x, y, PrevX, g.kinds[x][y], g.kinds[x - 1][y]);
      TallySnoc(seen, e);
      count' := count' + 1;
      pairs' := Inc(pairs', Ordinal(e.here), Ordinal(e.there));
      seen := seen + [e];
    }
    if Jump(g.heights[x][y], g.heights[x][y - 1]) {
      var e := Discontinuity(x, y, PrevY, g.kinds[x][y], g.kinds[x][y - 1]);
      TallySnoc(seen, e);
      count' := count' + 1;
      pairs' := Inc(pairs', Ordinal(e.here), Ordinal(e.there));
      seen := seen + [e];
    }
    assert seen == done + CellEvents(g, x, y);
  }

  lemma ColumnStep(done: seq<Discontinuity>, g: Terrain, x: nat, y: nat)
    requires Valid(g) && 1 <= x < g.width && 1 <= y < g.height
    ensures done + RowEvents(g, x, y) + CellEvents(g, x, y) == done + RowEvents(g, x, y + 1)
  {
    assert RowEvents(g, x, y + 1) == RowEvents(g, x, y) + CellEvents(g, x, y);
  }

  /** One pass of the inner loop: cell (x, y) extends the events of column x
      met so far by those of the cell. */
  method ScanStep(g: Terrain, x: nat, y: nat, count: nat, pairs: seq<seq<nat>>, ghost done: seq<Discontinuity>)
    returns (count': nat, pairs': seq<seq<nat>>)
    requires Valid(g) && 1 <= x < g.width && 1 <= y < g.height
    requires count == |done + RowEvents(g, x, y)| && pairs == Tally(done + RowEvents(g, x, y))
    ensures count' == |done + RowEvents(g, x, y + 1)|
    ensures pairs' == Tally(done + RowEvents(g, x, y + 1))
  {
    count', pairs' := ScanCell(g, x, y, count, pairs, done + RowEvents(g, x, y));
    ColumnStep(done, g, x, y);
  }

  /** The counters hold the events of the columns before x. */
  predicate Scanned(g: Terrain, x: nat, count: nat, pairs: seq<seq<nat>>)
    requires Valid(g) && (x <= 1 || x <= g.width)
  {
    count == |EventsBefore(g, x)| && pairs == Tally(EventsBefore(g, x))
  }

  /** The inner loop over y for column x: it extends the events of the
      columns before x by those of column x. */
  method ScanColumn(g: Terrain, x: nat, count: nat, pairs: seq<seq<nat>>)
    returns (count': nat, pairs': seq<seq<nat>>)
    requires Valid(g) && 1 <= x < g.width
    requires count == |EventsBefore(g, x)| && pairs == Tally(EventsBefore(g, x))
    ensures count' == |EventsBefore(g, x + 1)|
    ensures pairs' == Tally(EventsBefore(g, x + 1))
  {
    ghost var done := EventsBefore(g, x);
    count', pairs' := count, pairs;
    assert done + [] == done;
    if g.height > 1 {
      var y := 1;
      while y < g.height
        invariant 1 <= y <= g.height
        invariant count' == |done + RowEvents(g, x, y)| && pairs' == Tally(done + RowEvents(g, x, y))
      {
        count', pairs' := ScanStep(g, x, y, count', pairs', done);
        y := y + 1;
      }
    }
  }

  /** The counting loops: `discontinuities` and `discontinuetiesPairs`. */
  method Scan(g: Terrain) returns (count: nat, pairs: seq<seq<nat>>)
    requires Valid(g)
    ensures count == |Events(g)|
    ensures pairs == Tally(Events(g))
    ensures MatrixSum(pairs) == count
  {
    count, pairs := 0, Zero();
    var x := 1;
    ScanStart(g);
    while x < g.width
      invariant 1 <= x && (x <= g.width || x == 1)
      invariant Scanned(g, x, count, pairs)
    {
      count, pairs := ScanColumn(g, x, count, pairs);
      x := x + 1;
    }
    ScanDone(g, x);
  }

  /** Before the first column no events have been met. */
  lemma ScanStart(g: Terrain)
    requires Valid(g)
    ensures |EventsBefore(g, 1)| == 0 && Tally(EventsBefore(g, 1)) == Zero()
  {
  }

  /** When the column loop exits, the events met are all of them, and the
      tally's counters add up to their number. */
  lemma ScanDone(g: Terrain, x: nat)
    requires Valid(g) && 1 <= x && (x <= g.width || x == 1) && x >= g.width
    ensures EventsBefore(g, x) == Events(g)
    ensures MatrixSum(Tally(EventsBefore(g, x))) == |EventsBefore(g, x)|
  {
    TallySum(Events(g));
  }

  // ---------------------------------------------------------------------
  // The report
  // ---------------------------------------------------------------------

  /** One printed line, `"{(BiomeType)i} {(BiomeType)j} {total}"`, by the
      ordinals i and j it names. */
  datatype ReportLine = ReportLine(first: nat, second: nat, total: nat)

  /** How a matrix cell of the upper triangle becomes a line. */
  datatype Rule =
    | AsWritten  // printed when [i, j] > 0, with total [i, j] + [j, i]
    | Corrected  // printed when the unordered pair has events, each counted once

  /** The number of events between kinds of ordinals i and j in either
      direction, each event counted once. */
  function Unordered(p: seq<seq<nat>>, i: nat, j: nat): nat
    requires IsMatrix(p) && i < Count && j < Count
  {
    if i == j then p[i][i] else p[i][j] + p[j][i]
  }

  /** The line (if any) printed for cell [i, j], with i <= j. */
  function Line(p: seq<seq<nat>>, rule: Rule, i: nat, j: nat): seq<ReportLine>
    requires IsMatrix(p) && i < Count && j < Count
  {
    match rule
    case AsWritten => if p[i][j] > 0 then [ReportLine(i, j, p[i][j] + p[j][i])] else []
    case Corrected => if Unordered(p, i, j) > 0 then [ReportLine(i, j, Unordered(p, i, j))] else []
  }

  /** The inner loop: row i from column j on. */
  function ReportCells(p: seq<seq<nat>>, rule: Rule, i: nat, j: nat): seq<ReportLine>
    requires IsMatrix(p) && i < |p| && j <= |p|
    decreases |p| - j
  {
    if j == |p| then [] else Line(p, rule, i, j) + ReportCells(p, rule, i, j + 1)
  }

  /** The outer loop from row i on; each row starts at the diagonal. */
  function ReportRows(p: seq<seq<nat>>, rule: Rule, i: nat): seq<ReportLine>
    requires IsMatrix(p) && i <= |p|
    decreases |p| - i
  {
    if i == |p| then [] else ReportCells(p, rule, i, i) + ReportRows(p, rule, i + 1)
  }

  /** The lines printed after the count, in order. */
  function Report(p: seq<seq<nat>>, rule: Rule): seq<ReportLine>
    requires IsMatrix(p)
  {
    ReportRows(p, rule, 0)
  }

  lemma {:induction false} ReportCellsExact(p: seq<seq<nat>>, rule: Rule, i: nat, j: nat)
    requires IsMatrix(p) && i < Count && j <= Count
    decreases Count - j
    ensures forall l :: l in ReportCells(p, rule, i, j) <==>
              l.first == i && j <= l.second < Count && l in Line(p, rule, i, l.second)
  {
    if j < Count {
      ReportCellsExact(p, rule, i, j + 1);
    }
  }

  lemma {:induction false} ReportRowsExact(p: seq<seq<nat>>, rule: Rule, i: nat)
    requires IsMatrix(p) && i <= Count
    decreases Count - i
    ensures forall l :: l in ReportRows(p, rule, i) <==>
              i <= l.first <= l.second < Count && l in Line(p, rule, l.first, l.second)
  {
    if i < Count {
      ReportRowsExact(p, rule, i + 1);
      ReportCellsExact(p, rule, i, i);
    }
  }

  /** The report as written prints, for each ordered pair i <= j whose
      counter [i, j] is positive, the sum of the two mirrored counters; a
      pair counted only at [j, i] is never printed. */
  lemma ReportAsWrittenExact(p: seq<seq<nat>>)
    requires IsMatrix(p)
    ensures forall l :: l in Report(p, AsWritten) <==>
              && l.first <= l.second < Count
              && p[l.first][l.second] > 0
              && l.total == p[l.first][l.second] + p[l.second][l.first]
  {
    forall l: ReportLine | l.first <= l.second < Count
      ensures l in Line(p, AsWritten, l.first, l.second) <==>
                p[l.first][l.second] > 0 && l.total == p[l.first][l.second] + p[l.second][l.first]
    {
      var i, j := l.first, l.second;
      if p[i][j] > 0 {
        assert Line(p, AsWritten, i, j) == [ReportLine(i, j, p[i][j] + p[j][i])];
      } else {
        assert Line(p, AsWritten, i, j) == [];
      }
    }
    ReportRowsExact(p, AsWritten, 0);
  }

  /** The corrected report prints each unordered pair of kinds with events
      exactly once, with the number of events between them. */
  lemma ReportCorrectedExact(p: seq<seq<nat>>)
    requires IsMatrix(p)
    ensures forall l :: l in Report(p, Corrected) <==>
              && l.first <= l.second < Count
              && Unordered(p, l.first, l.second) > 0
              && l.total == Unordered(p, l.first, l.second)
  {
    forall l: ReportLine | l.first <= l.second < Count
      ensures l in Line(p, Corrected, l.first, l.second) <==>
                Unordered(p, l.first, l.second) > 0 && l.total == Unordered(p, l.first, l.second)
    {
    }
    ReportRowsExact(p, Corrected, 0);
  }

  // ---------------------------------------------------------------------
  // The corrected report accounts for every event
  // ---------------------------------------------------------------------

  /** The sum of the totals of a list of lines. */
  function Totals(ls: seq<ReportLine>): nat
  {
    if |ls| == 0 then 0 else ls[0].total + Totals(ls[1..])
  }

  lemma {:induction false} TotalsAppend(a: seq<ReportLine>, b: seq<ReportLine>)
    ensures Totals(a + b) == Totals(a) + Totals(b)
  {
    if |a| == 0 {
      assert a + b == b;
    } else {
      TotalsAppend(a[1..], b);
      assert (a + b)[1..] == a[1..] + b;
    }
  }

  /** Counters `r[j..]` of one row. */
  function RowFrom(r: seq<nat>, j: nat): nat
    decreases |r| - j
  {
    if j >= |r| then 0 else r[j] + RowFrom(r, j + 1)
  }

  /** Counters `[a..][col]` of one column. */
  function ColFrom(p: seq<seq<nat>>, col: nat, a: nat): nat
    requires IsMatrix(p) && col < Count
    decreases Count - a
  {
    if a >= Count then 0 else p[a][col] + ColFrom(p, col, a + 1)
  }

  /** The counters `[a..][j..]`. */
  function BlockFrom(p: seq<seq<nat>>, a: nat, j: nat): nat
    requires IsMatrix(p)
    decreases Count - a
  {
    if a >= Count then 0 else RowFrom(p[a], j) + BlockFrom(p, a + 1, j)
  }

  /** Row i of the corrected report, from column j > i on, totals the
      counters of row i and of column i from j on. */
  lemma {:induction false} CellsTotal(p: seq<seq<nat>>, i: nat, j: nat)
    requires IsMatrix(p) && i < j <= Count
    decreases Count - j
    ensures Totals(ReportCells(p, Corrected, i, j)) == RowFrom(p[i], j) + ColFrom(p, i, j)
  {
    if j < Count {
      CellsTotal(p, i, j + 1);
      TotalsAppend(Line(p, Corrected, i, j), ReportCells(p, Corrected, i, j + 1));
    }
  }

  /** Peeling column j off the block `[a..][j..]`. */
  lemma {:induction false} BlockSplit(p: seq<seq<nat>>, a: nat, j: nat)
    requires IsMatrix(p) && j < Count
    decreases Count - a
    ensures BlockFrom(p, a, j) == ColFrom(p, j, a) + BlockFrom(p, a, j + 1)
  {
    if a < Count {
      BlockSplit(p, a + 1, j);
    }
  }

  lemma {:induction false} RowsTotal(p: seq<seq<nat>>, i: nat)
    requires IsMatrix(p) && i <= Count
    decreases Count - i
    ensures Totals(ReportRows(p, Corrected, i)) == BlockFrom(p, i, i)
  {
    if i < Count {
      RowsTotal(p, i + 1);
      TotalsAppend(ReportCells(p, Corrected, i, i), ReportRows(p, Corrected, i + 1));
      TotalsAppend(Line(p, Corrected, i, i), ReportCells(p, Corrected, i, i + 1));
      CellsTotal(p, i, i + 1);
      BlockSplit(p, i + 1, i);
    }
  }

  lemma {:induction false} RowFromSum(r: seq<nat>, j: nat)
    requires j <= |r|
    decreases |r| - j
    ensures RowFrom(r, j) == RowSum(r[j..])
  {
    if j < |r| {
      RowFromSum(r, j + 1);
      assert r[j..][1..] == r[j + 1..];
    }
  }

  lemma {:induction false} BlockSum(p: seq<seq<nat>>, a: nat)
    requires IsMatrix(p) && a <= Count
    decreases Count - a
    ensures BlockFrom(p, a, 0) == MatrixSum(p[a..])
  {
    if a < Count {
      BlockSum(p, a + 1);
      RowFromSum(p[a], 0);
      assert p[a][0..] == p[a];
      assert p[a..][1..] == p[a + 1..];
    }
  }

  /** The corrected report accounts for every counted event once: its totals
      add up to the sum of the matrix. */
  lemma ReportCorrectedComplete(p: seq<seq<nat>>)
    requires IsMatrix(p)
    ensures Totals(Report(p, Corrected)) == MatrixSum(p)
  {
    RowsTotal(p, 0);
    BlockSum(p, 0);
    assert p[0..] == p;
  }

  /** After a scan, the corrected report's totals add up to the count. */
  lemma ReportCorrectedMatchesCount(g: Terrain)
    requires Valid(g)
    ensures Totals(Report(Tally(Events(g)), Corrected)) == |Events(g)|
  {
    ReportCorrectedComplete(Tally(Events(g)));
    TallySum(Events(g));
  }

  // ---------------------------------------------------------------------
  // Two grids on which the report as written goes wrong
  // ---------------------------------------------------------------------

  /** A 2 by 2 grid whose column 1 stands 20 above column 0, of kind `high`
      on column 1 and `low` on column 0: its one discontinuity runs from
      cell (1, 1) back to cell (0, 1). */
  function Step(high: BiomeType, low: BiomeType): (g: Terrain)
    ensures Valid(g)
  {
    Terrain(2, 2, [[0, 0], [20, 20]], [[low, low], [high, high]])
  }

  lemma StepEvents(high: BiomeType, low: BiomeType)
    ensures Events(Step(high, low)) == [Discontinuity(1, 1, PrevX, high, low)]
    ensures Tally(Events(Step(high, low))) == Inc(Zero(), Ordinal(high), Ordinal(low))
  {
    var g := Step(high, low);
    assert Events(g) == [Discontinuity(1, 1, PrevX, high, low)];
    TallySnoc([], Discontinuity(1, 1, PrevX, high, low));
  }

  /** One event tallied at [i, j] below the diagonal is not printed as
      written. */
  lemma MirroredCellAsWritten(i: nat, j: nat)
    requires j < i < Count
    ensures forall l :: l !in Report(Inc(Zero(), i, j), AsWritten)
  {
    IncFacts(Zero(), i, j);
    ReportAsWrittenExact(Inc(Zero(), i, j));
  }

  /** One event tallied at [i, j] below the diagonal is printed once by the
      corrected report. */
  lemma MirroredCellCorrected(i: nat, j: nat)
    requires j < i < Count
    ensures ReportLine(j, i, 1) in Report(Inc(Zero(), i, j), Corrected)
  {
    var p := Inc(Zero(), i, j);
    assert Unordered(p, j, i) == 1 by {
      IncFacts(Zero(), i, j);
    }
    ReportCorrectedExact(p);
  }

  /** A cell jumping from a neighbour of a kind with a lower ordinal (say
      a desert, 5, from a temperate grassland, 2) is tallied below the
      diagonal only, which the upper-triangle guard never reads: the report
      as written prints nothing, while the corrected one prints the pair
      with its one event. */
  lemma MirroredPairUnreported(high: BiomeType, low: BiomeType)
    requires Ordinal(low) < Ordinal(high)
    ensures |Events(Step(high, low))| == 1
    ensures forall l :: l !in Report(Tally(Events(Step(high, low))), AsWritten)
    ensures ReportLine(Ordinal(low), Ordinal(high), 1) in Report(Tally(Events(Step(high, low))), Corrected)
  {
    StepEvents(high, low);
    MirroredCellAsWritten(Ordinal(high), Ordinal(low));
    MirroredCellCorrected(Ordinal(high), Ordinal(low));
  }

  /** One event tallied on the diagonal at [i, i] is printed as written
      with total 2. */
  lemma DiagonalCellAsWritten(i: nat)
    requires i < Count
    ensures ReportLine(i, i, 2) in Report(Inc(Zero(), i, i), AsWritten)
  {
    var p := Inc(Zero(), i, i);
    var l := ReportLine(i, i, 2);
    assert p[l.first][l.second] == 1 by {
      IncFacts(Zero(), i, i);
    }
    assert l.total == p[l.first][l.second] + p[l.second][l.first];
    ReportAsWrittenExact(p);
  }

  /** One event tallied on the diagonal at [i, i] is printed by the
      corrected report with total 1. */
  lemma DiagonalCellCorrected(i: nat)
    requires i < Count
    ensures ReportLine(i, i, 1) in Report(Inc(Zero(), i, i), Corrected)
  {
    var p := Inc(Zero(), i, i);
    assert Unordered(p, i, i) == 1 by {
      IncFacts(Zero(), i, i);
    }
    ReportCorrectedExact(p);
  }

  /** A discontinuity between two cells of one kind is printed as written
      with total [k, k] + [k, k] = 2, twice the count; the corrected report
      prints 1. */
  lemma SameBiomeDoubled(k: BiomeType)
    ensures |Events(Step(k, k))| == 1
    ensures ReportLine(Ordinal(k), Ordinal(k), 2) in Report(Tally(Events(Step(k, k))), AsWritten)
    ensures ReportLine(Ordinal(k), Ordinal(k), 1) in Report(Tally(Events(Step(k, k))), Corrected)
  {
    StepEvents(k, k);
    DiagonalCellAsWritten(Ordinal(k));
    DiagonalCellCorrected(Ordinal(k));
  }
}
