/** The mean-deviation outlier filter `_thresh_coord`: a point is kept when
    its column deviates from the mean column of ALL input points by strictly
    less than that mean. */
module OutlierFilter {
  import opened Common

  function SumX(pts: seq<Point>): int
  {
    if |pts| == 0 then 0 else SumX(pts[..|pts| - 1]) + pts[|pts| - 1].x
  }

  /** `np.mean(coord[:, 0])`, on exact reals. */
  function MeanX(pts: seq<Point>): real
    requires |pts| > 0
  {
    SumX(pts) as real / |pts| as real
  }

  /** `np.abs(x - mean_x) < mean_x` */
  predicate NearMean(x: int, mean: real)
  {
    AbsR(x as real - mean) < mean
  }

  /** The selection `_thresh_coord` applies, for a given mean. */
  function Near(mean: real): Point -> bool
  {
    (p: Point) => NearMean(p.x, mean)
  }

  /** `_thresh_coord`. On an empty input numpy's mean is NaN, every
      comparison is false and nothing is kept. */
  function ThreshCoord(coord: seq<Point>): (kept: seq<Point>)
    ensures |coord| == 0 ==> kept == []
    ensures |coord| > 0 ==> forall k :: 0 <= k < |coord| ==>
      (coord[k] in kept <==> NearMean(coord[k].x, MeanX(coord)))
    ensures forall p :: p in kept ==> p in coord
    ensures IsSubsequence(kept, coord)
  {
    if |coord| == 0 then []
    else
      var mean := MeanX(coord);
      Keep(coord, Near(mean))
  }

  /** Every copy of a point that passes the test is kept. */
  lemma ThreshCoordCopies(coord: seq<Point>)
    requires |coord| > 0
    ensures forall k :: 0 <= k < |coord| ==>
      multiset(ThreshCoord(coord))[coord[k]] ==
        if NearMean(coord[k].x, MeanX(coord)) then multiset(coord)[coord[k]] else 0
  {
    KeepCopies(coord, Near(MeanX(coord)));
  }

  /** A kept point lies strictly between column 0 and twice the mean; in
      particular a point in column 0 is always dropped. */
  lemma KeptStrictlyInsideTwiceMean(coord: seq<Point>, p: Point)
    requires p in ThreshCoord(coord)
    ensures |coord| > 0 && 0 < p.x && p.x as real < 2.0 * MeanX(coord)
  {
    var kept := ThreshCoord(coord);
    assert |kept| > 0;
    assert p in coord;
    var k :| 0 <= k < |coord| && coord[k] == p;
    assert NearMean(p.x, MeanX(coord));
  }

  lemma {:induction false} SumXUniform(pts: seq<Point>, c: int)
    requires forall k :: 0 <= k < |pts| ==> pts[k].x == c
    ensures SumX(pts) == |pts| * c
  {
    if |pts| > 0 {
      SumXUniform(pts[..|pts| - 1], c);
    }
  }

  /** When every point has the same positive column, nothing is dropped. */
  lemma UniformColumnKept(coord: seq<Point>, c: int)
    requires c > 0
    requires forall k :: 0 <= k < |coord| ==> coord[k].x == c
    ensures ThreshCoord(coord) == coord
  {
    if |coord| > 0 {
      calc {
        MeanX(coord);
        == SumX(coord) as real / |coord| as real;
        == { SumXUniform(coord, c); }
        (|coord| * c) as real / |coord| as real;
        == c as real;
      }
      KeepAll(coord, Near(MeanX(coord)));
    }
  }

  /** The filter's test in integers: with `S` the column sum of `n > 0`
      points, `|x - S/n| < S/n` exactly when `|n*x - S| < S`. */
  lemma IntegerDeviationTest(x: int, s: int, n: int)
    requires n > 0
    ensures NearMean(x, s as real / n as real) <==>
      (if n * x - s < 0 then s - n * x else n * x - s) < s
  {
    var m := s as real / n as real;
    var nr := n as real;
    assert m * nr == s as real;
    assert (n * x - s) as real == nr * (x as real - m);
    if x as real - m < 0.0 {
      assert AbsR(x as real - m) * nr == (s - n * x) as real;
    } else {
      assert AbsR(x as real - m) * nr == (n * x - s) as real;
    }
  }
}
