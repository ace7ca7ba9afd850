/** Column aggregation: the filtered points are collapsed to one point per
    distinct row, rows ascending (numpy's `unique` sorts), each carrying the
    mean column of the points in that row. */
module Aggregator {
  import opened Common

  predicate StrictlyIncreasing(s: seq<int>)
  {
    forall i, j :: 0 <= i < j < |s| ==> s[i] < s[j]
  }

  /** The rows of a point list, in order (`coord[:, 1]`). */
  function Ys(pts: seq<Point>): (ys: seq<int>)
  {
    seq(|pts|, k requires 0 <= k < |pts| => pts[k].y)
  }

  /** The columns of a point list, in order (`coord[:, 0]`). */
  function Xs(pts: seq<Point>): (xs: seq<int>)
  {
    seq(|pts|, k requires 0 <= k < |pts| => pts[k].x)
  }

  /** `v` put in its place in the strictly increasing `s`, unless already there. */
  function InsertSorted(s: seq<int>, v: int): (r: seq<int>)
    requires StrictlyIncreasing(s)
    ensures StrictlyIncreasing(r)
    ensures forall u :: u in r <==> u in s || u == v
  {
    if |s| == 0 then [v]
    else if v < s[0] then [v] + s
    else if v == s[0] then s
    else
      var tail := s[1..];
      assert forall u :: u in s <==> u == s[0] || u in tail;
      var r := [s[0]] + InsertSorted(tail, v);
      assert forall k :: 1 <= k < |r| ==> r[k] in InsertSorted(tail, v);
      r
  }

  /** `np.unique`: the distinct values of `s`, ascending. */
  function Unique(s: seq<int>): (r: seq<int>)
    ensures StrictlyIncreasing(r)
    ensures forall u :: u in r <==> u in s
  {
    if |s| == 0 then []
    else
      var init := s[..|s| - 1];
      assert s == init + [s[|s| - 1]];
      InsertSorted(Unique(init), s[|s| - 1])
  }

  /** A strictly increasing sequence has as many elements as distinct values. */
  lemma {:induction false} DistinctCount(s: seq<int>)
    requires StrictlyIncreasing(s)
    ensures |(set v | v in s)| == |s|
  {
    if |s| > 0 {
      var init, last := s[..|s| - 1], s[|s| - 1];
      assert s == init + [last];
      assert StrictlyIncreasing(init);
      DistinctCount(init);
      assert forall k :: 0 <= k < |init| ==> init[k] < last;
      assert last !in init;
      assert (set v | v in s) == (set v | v in init) + {last};
    }
  }

  function Sum(s: seq<int>): int
  {
    if |s| == 0 then 0 else Sum(s[..|s| - 1]) + s[|s| - 1]
  }

  /** The selection `coord[:, 1] == y`. */
  function InRow(y: int): Point -> bool
  {
    (p: Point) => p.y == y
  }

  /** The columns of the points of row `y` (`coord[idx_x, 0]`). */
  function RowXs(coord: seq<Point>, y: int): (xs: seq<int>)
    ensures y in Ys(coord) ==> |xs| > 0
  {
    var inRow := Keep(coord, InRow(y));
    if y in Ys(coord) then
      var k :| 0 <= k < |coord| && Ys(coord)[k] == y;
      assert coord[k] in inRow;
      Xs(inRow)
    else Xs(inRow)
  }

  /** `np.mean(coord[idx_x, 0])` on exact reals. */
  function RowMean(coord: seq<Point>, y: int): real
    requires y in Ys(coord)
  {
    Sum(RowXs(coord, y)) as real / |RowXs(coord, y)| as real
  }

  /** The centerline `line`: for each distinct row `y`, ascending, the point
      `(mean column of row y, y)`. */
  function Centerline(coord: seq<Point>): (line: seq<RowPoint>)
  {
    var rows := Unique(Ys(coord));
    seq(|rows|, k requires 0 <= k < |rows| => RowPoint(RowMean(coord, rows[k]), rows[k] as real))
  }

  /** The centerline has as many points as its input has distinct rows. */
  lemma CenterlineCount(coord: seq<Point>)
    ensures |Centerline(coord)| == |(set y | y in Ys(coord))|
  {
    var rows := Unique(Ys(coord));
    DistinctCount(rows);
    assert (set y | y in rows) == (set y | y in Ys(coord));
  }

  /** The `k`-th centerline point lies in the `k`-th distinct row. */
  lemma CenterlineRows(coord: seq<Point>)
    ensures |Centerline(coord)| == |Unique(Ys(coord))|
    ensures forall k :: 0 <= k < |Centerline(coord)| ==>
      Centerline(coord)[k].y == Unique(Ys(coord))[k] as real
  {
  }

  /** A row is on the centerline exactly when some input point lies in it. */
  lemma CenterlineCoversRows(coord: seq<Point>)
    ensures var line := Centerline(coord);
      forall y :: y in Ys(coord) <==> exists k :: 0 <= k < |line| && line[k].y == y as real
  {
    var rows, line := Unique(Ys(coord)), Centerline(coord);
    CenterlineRows(coord);
    forall y ensures y in Ys(coord) <==> exists k :: 0 <= k < |line| && line[k].y == y as real {
      if y in Ys(coord) {
        var k :| 0 <= k < |rows| && rows[k] == y;
        assert line[k].y == y as real;
      }
      if exists k :: 0 <= k < |line| && line[k].y == y as real {
        var k :| 0 <= k < |line| && line[k].y == y as real;
        assert rows[k] == y && rows[k] in rows;
      }
    }
  }

  /** The centerline's rows ascend strictly. */
  lemma CenterlineAscending(coord: seq<Point>)
    ensures var line := Centerline(coord);
      forall i, j :: 0 <= i < j < |line| ==> line[i].y < line[j].y
  {
    CenterlineRows(coord);
  }

  /** The `k`-th centerline point lies in the `k`-th distinct row, and its
      column is the mean of the columns of the input points in that row:
      their sum divided by their (positive) count. */
  lemma CenterlineMean(coord: seq<Point>, k: nat)
    requires k < |Centerline(coord)|
    ensures var p, y := Centerline(coord)[k], Unique(Ys(coord))[k];
      && p.y == y as real && y in Ys(coord) && |RowXs(coord, y)| > 0
      && p.x == Sum(RowXs(coord, y)) as real / (|RowXs(coord, y)| as real)
  {
    var rows := Unique(Ys(coord));
    assert rows[k] in rows;
    assert Centerline(coord)[k] == RowPoint(RowMean(coord, rows[k]), rows[k] as real);
  }

  /** The sum of values in `[0, hi]` lies in `[0, |xs| * hi]`. */
  lemma {:induction false} SumBounds(xs: seq<int>, hi: int)
    requires forall k :: 0 <= k < |xs| ==> 0 <= xs[k] <= hi
    ensures 0 <= Sum(xs) <= |xs| * hi
  {
    if |xs| > 0 {
      var init := xs[..|xs| - 1];
      assert forall k :: 0 <= k < |init| ==> init[k] == xs[k];
      SumBounds(init, hi);
      assert |xs| * hi == |init| * hi + hi;
    }
  }

  /** A quotient `t / n` of `0 <= t <= n * hi` lies in `[0, hi]`. */
  lemma QuotientBounds(t: real, n: real, hi: real)
    requires n > 0.0 && 0.0 <= t <= n * hi
    ensures 0.0 <= t / n <= hi
  {
    var q := t / n;
    assert q * n == t;
  }

  /** The mean of values in `[0, hi]` lies in `[0, hi]`. */
  lemma MeanBounds(xs: seq<int>, hi: int)
    requires |xs| > 0
    requires forall k :: 0 <= k < |xs| ==> 0 <= xs[k] <= hi
    ensures 0.0 <= Sum(xs) as real / |xs| as real <= hi as real
  {
    SumBounds(xs, hi);
    assert (|xs| * hi) as real == |xs| as real * hi as real;
    QuotientBounds(Sum(xs) as real, |xs| as real, hi as real);
  }

  /** The mean column of a row lies between the smallest and largest
      possible column. */
  lemma RowMeanBounds(coord: seq<Point>, y: int, hi: int)
    requires y in Ys(coord)
    requires forall k :: 0 <= k < |coord| ==> 0 <= coord[k].x <= hi
    ensures 0.0 <= RowMean(coord, y) <= hi as real
  {
    var inRow := Keep(coord, InRow(y));
    var xs := RowXs(coord, y);
    assert xs == Xs(inRow);
    forall k | 0 <= k < |xs|
      ensures 0 <= xs[k] <= hi
    {
      assert inRow[k] in coord;
    }
    MeanBounds(xs, hi);
  }

  lemma {:induction false} SumUniform(xs: seq<int>, c: int)
    requires forall k :: 0 <= k < |xs| ==> xs[k] == c
    ensures Sum(xs) == |xs| * c
  {
    if |xs| > 0 {
      SumUniform(xs[..|xs| - 1], c);
    }
  }

  lemma MeanUniform(xs: seq<int>, c: int)
    requires |xs| > 0
    requires forall k :: 0 <= k < |xs| ==> xs[k] == c
    ensures Sum(xs) as real / |xs| as real == c as real
  {
    calc {
      Sum(xs) as real / |xs| as real;
      == { SumUniform(xs, c); }
      (|xs| * c) as real / |xs| as real;
      == c as real;
    }
  }

  /** When every point lies in column `c`, so does the mean of each row. */
  lemma RowMeanUniform(coord: seq<Point>, y: int, c: int)
    requires y in Ys(coord)
    requires forall k :: 0 <= k < |coord| ==> coord[k].x == c
    ensures RowMean(coord, y) == c as real
  {
    var inRow := Keep(coord, InRow(y));
    var xs := RowXs(coord, y);
    assert xs == Xs(inRow);
    forall k | 0 <= k < |xs|
      ensures xs[k] == c
    {
      assert inRow[k] in coord;
    }
    MeanUniform(xs, c);
  }

  /** Points that all lie in column `c` give a centerline in column `c`. */
  lemma CenterlineUniform(coord: seq<Point>, c: int)
    requires forall k :: 0 <= k < |coord| ==> coord[k].x == c
    ensures forall k :: 0 <= k < |Centerline(coord)| ==> Centerline(coord)[k].x == c as real
  {
    var rows := Unique(Ys(coord));
    CenterlineRows(coord);
    forall k | 0 <= k < |Centerline(coord)|
      ensures Centerline(coord)[k].x == c as real
    {
      assert rows[k] in rows;
      RowMeanUniform(coord, rows[k], c);
    }
  }

  /** A centerline of points inside a `h` by `w` image lies inside it:
      rows in `[0, h)`, mean columns in `[0, w - 1]`. */
  lemma CenterlineInside(coord: seq<Point>, h: int, w: int)
    requires forall k :: 0 <= k < |coord| ==> 0 <= coord[k].x < w && 0 <= coord[k].y < h
    ensures forall k :: 0 <= k < |Centerline(coord)| ==>
      0.0 <= Centerline(coord)[k].x <= (w - 1) as real
      && 0.0 <= Centerline(coord)[k].y < h as real
  {
    var rows := Unique(Ys(coord));
    CenterlineRows(coord);
    forall k | 0 <= k < |Centerline(coord)|
      ensures 0.0 <= Centerline(coord)[k].x <= (w - 1) as real
      ensures 0.0 <= Centerline(coord)[k].y < h as real
    {
      assert rows[k] in rows;
      var j :| 0 <= j < |coord| && Ys(coord)[j] == rows[k];
      RowMeanBounds(coord, rows[k], w - 1);
    }
  }

  /** The loop of `get_lane_mask` that builds `X` row by row over
      `Y = np.unique(coord[:, 1])`, then joins `X` and `Y` into `line`. */
  method BuildCenterline(coord: seq<Point>) returns (line: seq<RowPoint>)
    ensures line == Centerline(coord)
  {
    var ys := Unique(Ys(coord));
    var xs: seq<real> := [];
    for k := 0 to |ys|
      invariant |xs| == k
      invariant forall j :: 0 <= j < k ==> ys[j] in Ys(coord) && xs[j] == RowMean(coord, ys[j])
    {
      assert ys[k] in ys;
      xs := xs + [RowMean(coord, ys[k])];
    }
    line := seq(|ys|, k requires 0 <= k < |ys| => RowPoint(xs[k], ys[k] as real));
  }

  /** The worked example: `{(1,5), (3,5), (10,6)}` aggregates to `{(2,5), (10,6)}`. */
  lemma AggregationExample(coord: seq<Point>)
    requires coord == [Point(1, 5), Point(3, 5), Point(10, 6)]
    ensures Centerline(coord) == [RowPoint(2.0, 5.0), RowPoint(10.0, 6.0)]
  {
    ExampleRows(coord);
    ExampleMeans(coord);
    var line := Centerline(coord);
    assert line[0] == RowPoint(2.0, 5.0);
    assert line[1] == RowPoint(10.0, 6.0);
  }

  lemma ExampleRows(coord: seq<Point>)
    requires coord == [Point(1, 5), Point(3, 5), Point(10, 6)]
    ensures Unique(Ys(coord)) == [5, 6]
  {
    assert Ys(coord) == [5, 5, 6];
    assert [5, 5, 6][..2] == [5, 5];
    assert [5, 5][..1] == [5];
    assert Unique([5]) == [5] by { assert [5][..0] == []; }
    assert Unique([5, 5]) == [5];
  }

  lemma ExampleMeans(coord: seq<Point>)
    requires coord == [Point(1, 5), Point(3, 5), Point(10, 6)]
    ensures 5 in Ys(coord) && RowMean(coord, 5) == 2.0
    ensures 6 in Ys(coord) && RowMean(coord, 6) == 10.0
  {
    assert Ys(coord)[0] == 5 && Ys(coord)[2] == 6;
    ExampleRowFive(coord);
    ExampleRowSix(coord);
    assert RowXs(coord, 5) == [1, 3];
    assert RowXs(coord, 6) == [10];
    assert Sum([1, 3]) == 4 by { assert [1, 3][..1] == [1]; }
  }

  lemma ExampleRowFive(coord: seq<Point>)
    requires coord == [Point(1, 5), Point(3, 5), Point(10, 6)]
    ensures Keep(coord, InRow(5)) == [Point(1, 5), Point(3, 5)]
  {
    var f := InRow(5);
    assert coord[..2] == [Point(1, 5), Point(3, 5)];
    assert coord[..2][..1] == [Point(1, 5)];
    assert coord[..2][..1][..0] == [];
    assert Keep(coord[..2][..1], f) == [Point(1, 5)];
    assert Keep(coord[..2], f) == [Point(1, 5), Point(3, 5)];
    assert !f(coord[2]);
  }

  lemma ExampleRowSix(coord: seq<Point>)
    requires coord == [Point(1, 5), Point(3, 5), Point(10, 6)]
    ensures Keep(coord, InRow(6)) == [Point(10, 6)]
  {
    assert coord[..2] == [Point(1, 5), Point(3, 5)];
    assert coord[..2][..1] == [Point(1, 5)];
    assert coord[..2][..1][..0] == [];
  }
}
