/** `get_lane_mask`: each of the first `SelectedLines` channels of the
    segmentation output is thresholded, its lane pixels are filtered for
    outliers and reduced to a centerline of one point per row, the centerline
    is pruned against its least-squares line when it is long enough, and the
    result is the channel's blank mask together with the polyline drawn on it. */
module LanePipeline {
  import opened Common
  import opened Extraction
  import opened OutlierFilter
  import opened Aggregator
  import opened LineFitter

  /** One entry of the mask list: the blank canvas of the channel's size and
      the polyline drawn onto it, `None` when the channel had no lane pixel
      and nothing is drawn. */
  datatype LaneMask = LaneMask(canvas: seq<seq<byte>>, polyline: Option<seq<Point>>)

  /** The black `h` by `w` single-channel image the mask starts as. */
  function ZeroCanvas(h: nat, w: nat): (canvas: seq<seq<byte>>)
    ensures IsGrid(canvas, h, w)
    ensures forall r, c :: 0 <= r < h && 0 <= c < w ==> canvas[r][c] == 0
  {
    seq(h, _ => seq(w, _ => 0 as byte))
  }

  /** numpy's `astype(int)` on a float: the integer part, rounding toward zero. */
  function Trunc(r: real): (i: int)
    ensures r >= 0.0 ==> 0 <= i && i as real <= r < i as real + 1.0
    ensures r < 0.0 ==> i <= 0 && i as real - 1.0 < r <= i as real
  {
    if r >= 0.0 then r.Floor else -((-r).Floor)
  }

  /** The centerline as the integer point array handed to `cv2.polylines`. */
  function Polyline(line: seq<RowPoint>): (pl: seq<Point>)
  {
    seq(|line|, k requires 0 <= k < |line| => Point(Trunc(line[k].x), Trunc(line[k].y)))
  }

  /** The polyline has one point per centerline point, each coordinate
      rounded toward zero by less than one: it keeps the coordinate's sign
      and lies between zero and the coordinate. */
  lemma PolylineTruncates(line: seq<RowPoint>)
    ensures var pl := Polyline(line);
      && |pl| == |line|
      && (forall k :: 0 <= k < |pl| ==>
        AbsR(pl[k].x as real) <= AbsR(line[k].x) < AbsR(pl[k].x as real) + 1.0
        && AbsR(pl[k].y as real) <= AbsR(line[k].y) < AbsR(pl[k].y as real) + 1.0)
      && (forall k :: 0 <= k < |pl| ==>
        (line[k].x >= 0.0 ==> 0 <= pl[k].x && pl[k].x as real <= line[k].x)
        && (line[k].x < 0.0 ==> pl[k].x <= 0 && line[k].x <= pl[k].x as real)
        && (line[k].y >= 0.0 ==> 0 <= pl[k].y && pl[k].y as real <= line[k].y)
        && (line[k].y < 0.0 ==> pl[k].y <= 0 && line[k].y <= pl[k].y as real))
  {
  }

  /** The fitting step: a centerline of more than `MinFitRows` rows (the
      guard on `len(X)` and `len(Y)`, which both count its rows) loses the
      points farther than `MaxDistance` from its least-squares line; a
      shorter one is kept as it is. */
  function Pruned(line: seq<RowPoint>): (kept: seq<RowPoint>)
    requires RowsAscend(line)
    ensures IsSubsequence(kept, line)
    ensures forall p :: p in kept ==> p in line
    ensures |line| <= MinFitRows ==> kept == line
    ensures |line| > MinFitRows ==> Det(MomentsOf(line)) > 0.0 && kept == Prune(line, Fit(line))
  {
    if |line| > MinFitRows then
      DetPositive(line);
      Prune(line, FitLine(line))
    else
      SubsequenceSelf(line);
      line
  }

  /** What one pass of the loop of `get_lane_mask` produces for the
      channel `f`. Both index arrays of `np.where` have one entry per lane
      pixel, so the guard asks for at least one lane pixel. */
  function LaneMaskOf(f: seq<seq<byte>>, h: nat, w: nat): (mask: LaneMask)
    requires IsGrid(f, h, w)
  {
    var hits := Hits(f);
    if |hits| > 0 then
      var coord := ThreshCoord(hits);
      CenterlineAscending(coord);
      LaneMask(ZeroCanvas(h, w), Some(Polyline(Pruned(Centerline(coord)))))
    else
      LaneMask(ZeroCanvas(h, w), None)
  }

  /** The mask of a channel with a lane pixel, step by step. */
  lemma LaneMaskOfHit(f: seq<seq<byte>>, h: nat, w: nat)
    requires IsGrid(f, h, w) && |Hits(f)| > 0
    ensures RowsAscend(Centerline(ThreshCoord(Hits(f))))
    ensures LaneMaskOf(f, h, w) ==
      LaneMask(ZeroCanvas(h, w), Some(Polyline(Pruned(Centerline(ThreshCoord(Hits(f)))))))
  {
    CenterlineAscending(ThreshCoord(Hits(f)));
  }

  /** One pass of the loop of `get_lane_mask`, on channel `f`. */
  method ProcessChannel(f: seq<seq<byte>>, h: nat, w: nat) returns (mask: LaneMask)
    requires IsGrid(f, h, w)
    ensures mask == LaneMaskOf(f, h, w)
  {
    var canvas := ZeroCanvas(h, w);
    var hits := Hits(f);
    if |hits| > 0 {
      var coord := ThreshCoord(hits);
      var line := BuildCenterline(coord);
      LaneMaskOfHit(f, h, w);
      ghost var centerline := line;
      if |line| > MinFitRows {
        DetPositive(line);
        var c := FitLine(line);
        line := Prune(line, c);
      }
      assert line == Pruned(centerline);
      mask := LaneMask(canvas, Some(Polyline(line)));
    } else {
      mask := LaneMask(canvas, None);
    }
  }

  /** `t` is an `h` by `w` image of `d` channels, indexed `t[row][col][channel]`. */
  predicate IsTensor(t: seq<seq<seq<byte>>>, h: nat, w: nat, d: nat)
  {
    |t| == h && forall r :: 0 <= r < h ==>
      |t[r]| == w && forall c :: 0 <= c < w ==> |t[r][c]| == d
  }

  /** `instance_seg[:, :, i]` */
  function Channel(t: seq<seq<seq<byte>>>, h: nat, w: nat, d: nat, i: nat): (f: seq<seq<byte>>)
    requires IsTensor(t, h, w, d) && i < d
    ensures IsGrid(f, h, w)
    ensures forall r, c :: 0 <= r < h && 0 <= c < w ==> f[r][c] == t[r][c][i]
  {
    seq(h, r requires 0 <= r < h => seq(w, c requires 0 <= c < w => t[r][c][i]))
  }

  /** `get_lane_mask`: one mask per selected channel, in channel order. */
  method GetLaneMask(t: seq<seq<seq<byte>>>, h: nat, w: nat, d: nat) returns (masks: seq<LaneMask>)
    requires IsTensor(t, h, w, d) && SelectedLines <= d
    ensures |masks| == SelectedLines
    ensures forall i :: 0 <= i < SelectedLines ==>
      masks[i] == LaneMaskOf(Channel(t, h, w, d, i), h, w)
  {
    masks := [];
    for i := 0 to SelectedLines
      invariant |masks| == i
      invariant forall j :: 0 <= j < i ==> masks[j] == LaneMaskOf(Channel(t, h, w, d, j), h, w)
    {
      var f := Channel(t, h, w, d, i);
      var mask := ProcessChannel(f, h, w);
      assert mask == LaneMaskOf(Channel(t, h, w, d, i), h, w);
      var old_masks := masks;
      masks := masks + [mask];
      forall j | 0 <= j < i + 1
        ensures masks[j] == LaneMaskOf(Channel(t, h, w, d, j), h, w)
      {
        if j < i {
          assert masks[j] == old_masks[j];
        }
      }
    }
  }

  /** Every mask is the blank canvas of its channel's size; a polyline is
      drawn exactly when some pixel of the channel reaches `Threshold`. */
  lemma BlankIffNoHit(f: seq<seq<byte>>, h: nat, w: nat)
    requires IsGrid(f, h, w)
    ensures LaneMaskOf(f, h, w).canvas == ZeroCanvas(h, w)
    ensures LaneMaskOf(f, h, w).polyline == None <==>
      forall r, c :: 0 <= r < h && 0 <= c < w ==> f[r][c] < Threshold
  {
    var hits := Hits(f);
    if |hits| > 0 {
      HitsMembers(f, hits[0]);
    } else {
      forall r, c | 0 <= r < h && 0 <= c < w
        ensures f[r][c] < Threshold
      {
        HitsMembers(f, Point(c, r));
      }
    }
  }

  /** The polyline drawn for a channel stays inside the image: its columns
      in `[0, w)` and its rows in `[0, h)`. */
  lemma PolylineInside(f: seq<seq<byte>>, h: nat, w: nat)
    requires IsGrid(f, h, w)
    ensures LaneMaskOf(f, h, w).polyline.Some? ==>
      var pl := LaneMaskOf(f, h, w).polyline.value;
      forall k :: 0 <= k < |pl| ==> 0 <= pl[k].x < w && 0 <= pl[k].y < h
  {
    var hits := Hits(f);
    if |hits| > 0 {
      HitsInside(f, h, w);
      var coord := ThreshCoord(hits);
      assert forall k :: 0 <= k < |coord| ==> coord[k] in hits;
      CenterlineInside(coord, h, w);
      var line := Centerline(coord);
      LaneMaskOfHit(f, h, w);
      var kept := Pruned(line);
      assert LaneMaskOf(f, h, w).polyline == Some(Polyline(kept));
      forall k | 0 <= k < |kept|
        ensures 0.0 <= kept[k].x <= (w - 1) as real && 0.0 <= kept[k].y < h as real
      {
        assert kept[k] in line;
      }
    }
  }

  /** A subsequence of a centerline whose rows ascend has ascending rows. */
  lemma {:induction false} SubsequenceAscends(a: seq<RowPoint>, b: seq<RowPoint>)
    requires IsSubsequence(a, b) && RowsAscend(b)
    ensures RowsAscend(a)
    decreases |b|
  {
    if |a| > 0 {
      var a', b' := a[..|a| - 1], b[..|b| - 1];
      assert RowsAscend(b');
      if a[|a| - 1] == b[|b| - 1] {
        SubsequenceAscends(a', b');
        SubsequenceMembers(a', b');
        forall i | 0 <= i < |a'|
          ensures a[i].y < a[|a| - 1].y
        {
          assert a[i] == a'[i];
          var j :| 0 <= j < |b'| && b'[j] == a'[i];
        }
      } else {
        SubsequenceAscends(a, b');
      }
    }
  }

  lemma TruncOfInt(n: int)
    ensures Trunc(n as real) == n
  {
  }

  /** Each row of a centerline of `coord` is a whole number: the row of some
      point of `coord`. */
  lemma CenterlinePointRow(coord: seq<Point>, p: RowPoint)
    requires p in Centerline(coord)
    ensures exists j :: 0 <= j < |coord| && p.y == coord[j].y as real
  {
    var rows := Unique(Ys(coord));
    CenterlineRows(coord);
    var m :| 0 <= m < |Centerline(coord)| && Centerline(coord)[m] == p;
    assert rows[m] in rows;
    var j :| 0 <= j < |coord| && Ys(coord)[j] == rows[m];
  }

  /** A row of the centerline of a channel is a whole number, a row of the
      image, and holds a lane pixel. */
  lemma CenterlineRowHasHit(f: seq<seq<byte>>, h: nat, w: nat, p: RowPoint)
    requires IsGrid(f, h, w) && p in Centerline(ThreshCoord(Hits(f)))
    ensures Trunc(p.y) as real == p.y && 0 <= Trunc(p.y) < h
    ensures exists c :: 0 <= c < w && f[Trunc(p.y)][c] >= Threshold
  {
    var coord := ThreshCoord(Hits(f));
    CenterlinePointRow(coord, p);
    var j :| 0 <= j < |coord| && p.y == coord[j].y as real;
    var q := coord[j];
    TruncOfInt(q.y);
    assert q in Hits(f);
    HitsMembers(f, q);
    assert 0 <= q.x < w && f[Trunc(p.y)][q.x] >= Threshold;
  }

  /** `pl` visits rows of the channel `f` from top to bottom, at most one
      point per row, and each of its rows is a row that holds a lane pixel. */
  predicate VisitsLaneRows(f: seq<seq<byte>>, h: nat, w: nat, pl: seq<Point>)
    requires IsGrid(f, h, w)
  {
    && (forall i, j :: 0 <= i < j < |pl| ==> pl[i].y < pl[j].y)
    && (forall k :: 0 <= k < |pl| ==>
          0 <= pl[k].y < h && exists c :: 0 <= c < w && f[pl[k].y][c] >= Threshold)
  }

  /** The polyline visits rows of the channel from top to bottom, at most
      one point per row, and each of its rows is a row that held a lane pixel. */
  lemma PolylineRowsAscend(f: seq<seq<byte>>, h: nat, w: nat)
    requires IsGrid(f, h, w)
    ensures LaneMaskOf(f, h, w).polyline.Some? ==>
      VisitsLaneRows(f, h, w, LaneMaskOf(f, h, w).polyline.value)
  {
    if |Hits(f)| > 0 {
      LaneMaskOfHit(f, h, w);
      var line := Centerline(ThreshCoord(Hits(f)));
      var kept := Pruned(line);
      SubsequenceAscends(kept, line);
      PolylineVisitsRows(f, h, w, kept);
    }
  }

  /** The polyline of ascending centerline points of a channel visits rows
      of the channel that held a lane pixel, from top to bottom. */
  lemma PolylineVisitsRows(f: seq<seq<byte>>, h: nat, w: nat, kept: seq<RowPoint>)
    requires IsGrid(f, h, w) && RowsAscend(kept)
    requires forall p :: p in kept ==> p in Centerline(ThreshCoord(Hits(f)))
    ensures VisitsLaneRows(f, h, w, Polyline(kept))
  {
    var pl := Polyline(kept);
    forall k | 0 <= k < |kept|
      ensures pl[k].y as real == kept[k].y
      ensures 0 <= pl[k].y < h && exists c :: 0 <= c < w && f[pl[k].y][c] >= Threshold
    {
      assert kept[k] in kept;
      CenterlineRowHasHit(f, h, w, kept[k]);
    }
    forall i, j | 0 <= i < j < |pl|
      ensures pl[i].y < pl[j].y
    {
      assert kept[i].y < kept[j].y;
    }
  }

  /** A centerline that lies exactly on a line is drawn whole: either it is
      too short to be fitted, or its fitted line is that line and no point
      is farther than `MaxDistance` from it. */
  lemma PrunedExactLine(line: seq<RowPoint>, c: Line)
    requires RowsAscend(line) && OnLine(line, c)
    ensures Pruned(line) == line
  {
    if |line| > MinFitRows {
      DetPositive(line);
      ExactLineKeptWhole(line, c);
    }
  }

  /** The lane pixels of a channel whose lane is the single column `c > 0`
      all survive the outlier filter, and their centerline lies on the
      vertical line `x = c`. */
  lemma VerticalLaneCenterline(f: seq<seq<byte>>, h: nat, w: nat, c: int)
    requires IsGrid(f, h, w) && 0 < c
    requires forall r, col :: 0 <= r < h && 0 <= col < w && f[r][col] >= Threshold ==> col == c
    ensures ThreshCoord(Hits(f)) == Hits(f)
    ensures OnLine(Centerline(Hits(f)), Line(0.0, c as real))
  {
    var hits := Hits(f);
    forall k | 0 <= k < |hits|
      ensures hits[k].x == c
    {
      HitsMembers(f, hits[k]);
    }
    UniformColumnKept(hits, c);
    CenterlineUniform(hits, c);
  }

  /** A lane that is the single column `c > 0` of the channel is drawn
      whole and straight: every point of the polyline is in column `c`, and
      every row holding a lane pixel has a point. */
  lemma VerticalLaneDrawnWhole(f: seq<seq<byte>>, h: nat, w: nat, c: int)
    requires IsGrid(f, h, w) && 0 < c < w
    requires forall r, col :: 0 <= r < h && 0 <= col < w && f[r][col] >= Threshold ==> col == c
    ensures LaneMaskOf(f, h, w).polyline.Some? ==>
      var pl := LaneMaskOf(f, h, w).polyline.value;
      && (forall k :: 0 <= k < |pl| ==> pl[k].x == c)
      && (forall r :: 0 <= r < h && f[r][c] >= Threshold ==>
            exists k :: 0 <= k < |pl| && pl[k].y == r)
  {
    var hits := Hits(f);
    if |hits| > 0 {
      VerticalLaneCenterline(f, h, w, c);
      var line := Centerline(hits);
      LaneMaskOfHit(f, h, w);
      PrunedExactLine(line, Line(0.0, c as real));
      var pl := Polyline(line);
      assert LaneMaskOf(f, h, w).polyline == Some(pl);
      TruncOfInt(c);
      forall k | 0 <= k < |pl|
        ensures pl[k].x == c
      {
        assert Residual(line[k], Line(0.0, c as real)) == 0.0;
      }
      CenterlineCoversRows(hits);
      forall r | 0 <= r < h && f[r][c] >= Threshold
        ensures exists k :: 0 <= k < |pl| && pl[k].y == r
      {
        HitsMembers(f, Point(c, r));
        var j :| 0 <= j < |hits| && hits[j] == Point(c, r);
        assert Ys(hits)[j] == r;
        assert r in Ys(hits);
        var k :| 0 <= k < |line| && line[k].y == r as real;
        TruncOfInt(r);
        assert pl[k].y == r;
      }
    }
  }
}
