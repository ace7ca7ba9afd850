/** Coordinate extraction: the positions of a quantised channel whose value
    reaches the threshold, in the row-major order numpy's `where` reports
    them, already flipped to (x = column, y = row); and the bounding extrema
    of those positions. */
module Extraction {
  import opened Common

  /** `p` comes before `q` in row-major order. */
  predicate RowMajorBefore(p: Point, q: Point)
  {
    p.y < q.y || (p.y == q.y && p.x < q.x)
  }

  /** The hits of one row `r`, by increasing column. */
  function RowHits(row: seq<byte>, r: int): (hits: seq<Point>)
    ensures forall p :: p in hits <==> p.y == r && 0 <= p.x < |row| && row[p.x] >= Threshold
    ensures forall i, j :: 0 <= i < j < |hits| ==> hits[i].x < hits[j].x
  {
    if |row| == 0 then []
    else
      var c := |row| - 1;
      var init := RowHits(row[..c], r);
      if row[c] >= Threshold then init + [Point(c, r)] else init
  }

  /** The hits of a whole channel, row by row. */
  function Hits(g: seq<seq<byte>>): (hits: seq<Point>)
  {
    if |g| == 0 then []
    else
      var here := RowHits(g[|g| - 1], |g| - 1);
      assert forall k :: 0 <= k < |here| ==> here[k] in here;
      Hits(g[..|g| - 1]) + here
  }

  /** A point is extracted exactly when it is a cell of the channel whose
      value reaches the threshold. */
  lemma {:induction false} HitsMembers(g: seq<seq<byte>>, p: Point)
    ensures p in Hits(g) <==>
      0 <= p.y < |g| && 0 <= p.x < |g[p.y]| && g[p.y][p.x] >= Threshold
  {
    if |g| > 0 {
      var r := |g| - 1;
      HitsMembers(g[..r], p);
      assert p in Hits(g) <==> p in Hits(g[..r]) || p in RowHits(g[r], r);
      if 0 <= p.y < r {
        assert g[..r][p.y] == g[p.y];
      }
    }
  }

  /** Every extracted point lies in a row of the channel, `0 <= y < |g|`. */
  lemma HitsRowsBelow(g: seq<seq<byte>>)
    ensures forall i :: 0 <= i < |Hits(g)| ==> 0 <= Hits(g)[i].y < |g|
  {
    forall i | 0 <= i < |Hits(g)| ensures 0 <= Hits(g)[i].y < |g| {
      HitsMembers(g, Hits(g)[i]);
    }
  }

  /** The hits come in strictly increasing row-major order, as numpy's
      `where` reports them. */
  lemma {:induction false} HitsRowMajor(g: seq<seq<byte>>)
    ensures forall i, j :: 0 <= i < j < |Hits(g)| ==> RowMajorBefore(Hits(g)[i], Hits(g)[j])
  {
    if |g| > 0 {
      var r := |g| - 1;
      HitsRowMajor(g[..r]);
      HitsRowsBelow(g[..r]);
      var here := RowHits(g[r], r);
      assert forall k :: 0 <= k < |here| ==> here[k] in here;
      RowMajorAppend(Hits(g[..r]), here, r);
    }
  }

  /** A row-major list above row `r`, followed by the points of row `r` by
      increasing column, is row-major. */
  lemma RowMajorAppend(above: seq<Point>, here: seq<Point>, r: int)
    requires forall i, j :: 0 <= i < j < |above| ==> RowMajorBefore(above[i], above[j])
    requires forall i :: 0 <= i < |above| ==> above[i].y < r
    requires forall k :: 0 <= k < |here| ==> here[k].y == r
    requires forall i, j :: 0 <= i < j < |here| ==> here[i].x < here[j].x
    ensures forall i, j :: 0 <= i < j < |above + here| ==>
      RowMajorBefore((above + here)[i], (above + here)[j])
  {
    var hits := above + here;
    forall i, j | 0 <= i < j < |hits| ensures RowMajorBefore(hits[i], hits[j]) {
      if j < |above| {
        assert hits[i] == above[i] && hits[j] == above[j];
      } else if i >= |above| {
        assert hits[i] == here[i - |above|] && hits[j] == here[j - |above|];
      } else {
        assert hits[i] == above[i] && hits[j] == here[j - |above|];
      }
    }
  }

  /** The extrema of the extracted columns and rows. */
  datatype Extent = Extent(minX: int, maxX: int, minY: int, maxY: int)

  function Min(s: seq<int>): (m: int)
    requires |s| > 0
    ensures m in s && forall k :: 0 <= k < |s| ==> m <= s[k]
  {
    if |s| == 1 then s[0]
    else
      var m' := Min(s[1..]);
      assert forall k :: 1 <= k < |s| ==> s[k] == s[1..][k - 1];
      if s[0] <= m' then s[0] else m'
  }

  function Max(s: seq<int>): (m: int)
    requires |s| > 0
    ensures m in s && forall k :: 0 <= k < |s| ==> s[k] <= m
  {
    if |s| == 1 then s[0]
    else
      var m' := Max(s[1..]);
      assert forall k :: 1 <= k < |s| ==> s[k] == s[1..][k - 1];
      if s[0] >= m' then s[0] else m'
  }

  function Columns(pts: seq<Point>): (cs: seq<int>)
  {
    seq(|pts|, k requires 0 <= k < |pts| => pts[k].x)
  }

  function Rows(pts: seq<Point>): (rs: seq<int>)
  {
    seq(|pts|, k requires 0 <= k < |pts| => pts[k].y)
  }

  /** `max_X`, `min_X`, `max_Y`, `min_Y` of a non-empty hit list. */
  function ExtentOf(pts: seq<Point>): (e: Extent)
    requires |pts| > 0
    ensures exists k :: 0 <= k < |pts| && pts[k].x == e.minX
    ensures exists k :: 0 <= k < |pts| && pts[k].x == e.maxX
    ensures exists k :: 0 <= k < |pts| && pts[k].y == e.minY
    ensures exists k :: 0 <= k < |pts| && pts[k].y == e.maxY
    ensures forall k :: 0 <= k < |pts| ==>
      e.minX <= pts[k].x <= e.maxX && e.minY <= pts[k].y <= e.maxY
  {
    var cs, rs := Columns(pts), Rows(pts);
    var e := Extent(Min(cs), Max(cs), Min(rs), Max(rs));
    assert forall k :: 0 <= k < |pts| ==> cs[k] == pts[k].x && rs[k] == pts[k].y;
    e
  }

  /** Every hit of an `h` by `w` channel lies inside it. */
  lemma HitsInside(g: seq<seq<byte>>, h: nat, w: nat)
    requires IsGrid(g, h, w)
    ensures forall k :: 0 <= k < |Hits(g)| ==> 0 <= Hits(g)[k].x < w && 0 <= Hits(g)[k].y < h
  {
    forall k | 0 <= k < |Hits(g)| ensures 0 <= Hits(g)[k].x < w && 0 <= Hits(g)[k].y < h {
      HitsMembers(g, Hits(g)[k]);
    }
  }

  /** On a channel's hits the extrema lie inside the channel, and, the hits
      being row-major, the row extrema are the rows of the first and the last hit. */
  lemma ExtentOfHits(g: seq<seq<byte>>, h: nat, w: nat)
    requires IsGrid(g, h, w) && |Hits(g)| > 0
    ensures var hits, e := Hits(g), ExtentOf(Hits(g));
      && 0 <= e.minX <= e.maxX < w && 0 <= e.minY <= e.maxY < h
      && e.minY == hits[0].y && e.maxY == hits[|hits| - 1].y
  {
    var hits := Hits(g);
    HitsInside(g, h, w);
    HitsRowMajor(g);
    ExtentOfOrdered(hits);
  }

  /** For a row-major list, the row extrema are its first and last rows. */
  lemma ExtentOfOrdered(pts: seq<Point>)
    requires |pts| > 0
    requires forall i, j :: 0 <= i < j < |pts| ==> RowMajorBefore(pts[i], pts[j])
    ensures ExtentOf(pts).minY == pts[0].y && ExtentOf(pts).maxY == pts[|pts| - 1].y
  {
    RowsNonDecreasing(pts);
    var e := ExtentOf(pts);
    var kMinY :| 0 <= kMinY < |pts| && pts[kMinY].y == e.minY;
    var kMaxY :| 0 <= kMaxY < |pts| && pts[kMaxY].y == e.maxY;
    assert pts[0].y <= pts[kMinY].y;
    assert pts[kMaxY].y <= pts[|pts| - 1].y;
  }

  /** In a row-major list no row comes after a larger one. */
  lemma RowsNonDecreasing(pts: seq<Point>)
    requires forall i, j :: 0 <= i < j < |pts| ==> RowMajorBefore(pts[i], pts[j])
    ensures forall i, j :: 0 <= i <= j < |pts| ==> pts[i].y <= pts[j].y
  {
    forall i, j | 0 <= i <= j < |pts| ensures pts[i].y <= pts[j].y {
      if i < j {
        assert RowMajorBefore(pts[i], pts[j]);
      }
    }
  }
}
