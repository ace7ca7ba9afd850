/** The robust line fitter: a first-order least-squares fit `x = slope*y + intercept`
    through the centerline (`np.polyfit(Y, X, 1)`, here in closed form over
    exact reals), and the deletion of the centerline points whose
    perpendicular distance to that line exceeds `MaxDistance`.

    The fit depends on the centerline only through its moments (count and
    the sums of y, x, y*y, x*y, x*x), so the algebra of least squares is
    stated once on a `Moments` value and the sequence lemmas only fold
    points into it. */
module LineFitter {
  import opened Common

  /** `C = np.polyfit(Y, X, 1)`: `C[0]` is the slope, `C[1]` the intercept. */
  datatype Line = Line(slope: real, intercept: real)

  /** The rows of `line` ascend strictly, as the centerline's do. */
  predicate RowsAscend(line: seq<RowPoint>)
  {
    forall i, j :: 0 <= i < j < |line| ==> line[i].y < line[j].y
  }

  function Square(r: real): (s: real)
    ensures s >= 0.0
  {
    SquareNonNegative(r);
    r * r
  }

  // ---------------------------------------------------------------------
  // Moments of a point set.

  /** The count and the sums of `y`, `x`, `y*y`, `x*y` and `x*x`. */
  datatype Moments = Moments(n: real, sy: real, sx: real, syy: real, sxy: real, sxx: real)

  const NoMoments := Moments(0.0, 0.0, 0.0, 0.0, 0.0, 0.0)

  /** The moments with one more point. */
  function Add(m: Moments, p: RowPoint): Moments
  {
    Moments(m.n + 1.0, m.sy + p.y, m.sx + p.x, m.syy + p.y * p.y, m.sxy + p.x * p.y, m.sxx + p.x * p.x)
  }

  /** The moments of a centerline. */
  function MomentsOf(line: seq<RowPoint>): Moments
  {
    if |line| == 0 then NoMoments else Add(MomentsOf(line[..|line| - 1]), line[|line| - 1])
  }

  /** The count is the number of points. */
  lemma {:induction false} MomentsCount(line: seq<RowPoint>)
    ensures MomentsOf(line).n >= 0.0 && (MomentsOf(line).n == 0.0 <==> |line| == 0)
    ensures |line| == 0 ==> Det(MomentsOf(line)) == 0.0
  {
    if |line| > 0 {
      MomentsCount(line[..|line| - 1]);
    }
  }

  /** The determinant of the normal equations, `n*Syy - Sy^2`. */
  function Det(m: Moments): real
  {
    m.n * m.syy - m.sy * m.sy
  }

  /** `Sum (y - v)^2` over the points, written with the moments. */
  function Spread(m: Moments, v: real): real
  {
    m.syy - 2.0 * v * m.sy + m.n * v * v
  }

  /** The normal equations of least squares at `c`: the gradient of the
      squared error vanishes. */
  predicate Solves(m: Moments, c: Line)
  {
    && c.slope * m.syy + c.intercept * m.sy == m.sxy
    && c.slope * m.sy + c.intercept * m.n == m.sx
  }

  /** The sum of squared residuals against `c`, written with the moments. */
  function QuadraticError(m: Moments, c: Line): real
  {
    m.sxx - 2.0 * (c.slope * m.sxy + c.intercept * m.sx)
      + c.slope * c.slope * m.syy + 2.0 * c.slope * c.intercept * m.sy
      + c.intercept * c.intercept * m.n
  }

  /** The closed-form solution of the normal equations. */
  function SolutionOf(m: Moments): (c: Line)
    requires m.n != 0.0 && Det(m) != 0.0
    ensures Solves(m, c)
  {
    var slope := (m.n * m.sxy - m.sx * m.sy) / Det(m);
    var intercept := (m.sx - slope * m.sy) / m.n;
    SolutionAlgebra(m.n, m.sy, m.sx, m.syy, m.sxy, Det(m), slope, intercept);
    Line(slope, intercept)
  }

  /** The normal equations have one solution when the determinant is not zero. */
  lemma SolutionUnique(m: Moments, c: Line, c': Line)
    requires Det(m) != 0.0 && Solves(m, c) && Solves(m, c')
    ensures c == c'
  {
    var d0, d1 := c.slope - c'.slope, c.intercept - c'.intercept;
    assert d0 * m.syy + d1 * m.sy == 0.0;
    assert d0 * m.sy + d1 * m.n == 0.0;
    assert d0 * Det(m) == m.n * (d0 * m.syy + d1 * m.sy) - m.sy * (d0 * m.sy + d1 * m.n);
    assert d1 * Det(m) == m.syy * (d0 * m.sy + d1 * m.n) - m.sy * (d0 * m.syy + d1 * m.sy);
  }

  /** `Sum (d0*y + d1)^2`, written with the moments. */
  function Excess(m: Moments, d0: real, d1: real): real
  {
    d0 * d0 * m.syy + 2.0 * d0 * d1 * m.sy + d1 * d1 * m.n
  }

  /** Moving the line from a solution `c` of the normal equations to `e`
      adds the excess of the displacement to the squared error. */
  lemma QuadraticErrorShift(m: Moments, c: Line, e: Line)
    requires Solves(m, c)
    ensures QuadraticError(m, e)
         == QuadraticError(m, c) + Excess(m, e.slope - c.slope, e.intercept - c.intercept)
  {
    var a, b, d0, d1 := c.slope, c.intercept, e.slope - c.slope, e.intercept - c.intercept;
    assert e == Line(a + d0, b + d1);
    assert QuadraticError(m, e) - QuadraticError(m, c)
        == -2.0 * (d0 * (m.sxy - a * m.syy - b * m.sy) + d1 * (m.sx - a * m.sy - b * m.n))
           + Excess(m, d0, d1);
  }

  /** With a positive count and a non-negative determinant the excess is
      never negative:
      `n` times it is `(n*d1 + Sy*d0)^2 + d0^2 * Det`. */
  lemma ShiftNonNegative(m: Moments, d0: real, d1: real)
    requires m.n > 0.0 && Det(m) >= 0.0
    ensures Excess(m, d0, d1) >= 0.0
  {
    var q := Excess(m, d0, d1);
    assert m.n * q == Square(m.n * d1 + m.sy * d0) + Square(d0) * Det(m);
    ProductNonNegative(Square(d0), Det(m));
    if q < 0.0 {
      NegativeProduct(m.n, q);
    }
  }

  /** A solution of the normal equations minimises the squared error. */
  lemma SolutionMinimal(m: Moments, c: Line, e: Line)
    requires Solves(m, c) && m.n > 0.0 && Det(m) >= 0.0
    ensures QuadraticError(m, c) <= QuadraticError(m, e)
  {
    QuadraticErrorShift(m, c, e);
    ShiftNonNegative(m, e.slope - c.slope, e.intercept - c.intercept);
  }

  /** Folding points into the moments. */
  lemma DetAdd(m: Moments, p: RowPoint)
    ensures Det(Add(m, p)) == Det(m) + Spread(m, p.y)
  {
  }

  lemma SpreadAdd(m: Moments, p: RowPoint, v: real)
    ensures Spread(Add(m, p), v) == Spread(m, v) + Square(p.y - v)
  {
  }

  lemma QuadraticErrorAdd(m: Moments, p: RowPoint, c: Line)
    ensures QuadraticError(Add(m, p), c) == QuadraticError(m, c) + Square(Residual(p, c))
  {
  }

  lemma SolvesAdd(m: Moments, p: RowPoint, c: Line)
    requires Solves(m, c) && Residual(p, c) == 0.0
    ensures Solves(Add(m, p), c)
  {
  }

  // ---------------------------------------------------------------------
  // The fit of a centerline.

  /** The horizontal residual of `p` against `c`. */
  function Residual(p: RowPoint, c: Line): real
  {
    p.x - (c.slope * p.y + c.intercept)
  }

  /** Every point of `line` lies exactly on `c`. */
  predicate OnLine(line: seq<RowPoint>, c: Line)
  {
    forall k :: 0 <= k < |line| ==> Residual(line[k], c) == 0.0
  }

  /** The sum of squared residuals, the quantity `np.polyfit` minimises. */
  function SquaredError(line: seq<RowPoint>, c: Line): (e: real)
    ensures e >= 0.0
  {
    if |line| == 0 then 0.0
    else SquaredError(line[..|line| - 1], c) + Square(Residual(line[|line| - 1], c))
  }

  lemma {:induction false} SquaredErrorMoments(line: seq<RowPoint>, c: Line)
    ensures SquaredError(line, c) == QuadraticError(MomentsOf(line), c)
  {
    if |line| > 0 {
      SquaredErrorMoments(line[..|line| - 1], c);
      QuadraticErrorAdd(MomentsOf(line[..|line| - 1]), line[|line| - 1], c);
    }
  }

  /** The least-squares line of a centerline whose determinant is not zero:
      the line that satisfies the normal equations (there is only one, by
      `SolutionUnique`). */
  ghost function Fit(line: seq<RowPoint>): (c: Line)
    requires Det(MomentsOf(line)) != 0.0
    ensures Solves(MomentsOf(line), c)
  {
    MomentsCount(line);
    assert Solves(MomentsOf(line), SolutionOf(MomentsOf(line)));
    var c :| Solves(MomentsOf(line), c);
    c
  }

  /** `np.polyfit(Y, X, 1)` computed in closed form: it is the fit. */
  function FitLine(line: seq<RowPoint>): (c: Line)
    requires Det(MomentsOf(line)) != 0.0
    ensures c == Fit(line)
  {
    MomentsCount(line);
    SolutionUnique(MomentsOf(line), SolutionOf(MomentsOf(line)), Fit(line));
    SolutionOf(MomentsOf(line))
  }

  /** `Fit` is the least-squares line: no line has a smaller squared error. */
  lemma FitIsLeastSquares(line: seq<RowPoint>, other: Line)
    requires Det(MomentsOf(line)) != 0.0
    ensures SquaredError(line, Fit(line)) <= SquaredError(line, other)
  {
    SquaredErrorMoments(line, Fit(line));
    SquaredErrorMoments(line, other);
    MomentsCount(line);
    DetNonNegative(line);
    SolutionMinimal(MomentsOf(line), Fit(line), other);
  }

  /** The spread of the rows about any value is never negative. */
  lemma {:induction false} SpreadNonNegative(line: seq<RowPoint>, v: real)
    ensures Spread(MomentsOf(line), v) >= 0.0
  {
    if |line| > 0 {
      SpreadNonNegative(line[..|line| - 1], v);
      SpreadAdd(MomentsOf(line[..|line| - 1]), line[|line| - 1], v);
    }
  }

  /** The spread is positive when the first row differs from `v`. */
  lemma {:induction false} SpreadPositive(line: seq<RowPoint>, v: real)
    requires |line| > 0 && line[0].y != v
    ensures Spread(MomentsOf(line), v) > 0.0
  {
    var init := line[..|line| - 1];
    SpreadAdd(MomentsOf(init), line[|line| - 1], v);
    if |line| > 1 {
      assert init[0] == line[0];
      SpreadPositive(init, v);
    } else {
      SquarePositive(line[0].y - v);
    }
  }

  lemma {:induction false} DetNonNegative(line: seq<RowPoint>)
    ensures Det(MomentsOf(line)) >= 0.0
  {
    if |line| > 0 {
      DetNonNegative(line[..|line| - 1]);
      DetAdd(MomentsOf(line[..|line| - 1]), line[|line| - 1]);
      SpreadNonNegative(line[..|line| - 1], line[|line| - 1].y);
    }
  }

  /** With two or more distinct rows the fit is determined, so `np.polyfit`
      has a unique answer whenever the centerline passes the fit gate. */
  lemma DetPositive(line: seq<RowPoint>)
    requires |line| >= 2 && RowsAscend(line)
    ensures Det(MomentsOf(line)) > 0.0
  {
    var init := line[..|line| - 1];
    DetNonNegative(init);
    DetAdd(MomentsOf(init), line[|line| - 1]);
    assert init[0] == line[0];
    assert line[0].y < line[|line| - 1].y;
    SpreadPositive(init, line[|line| - 1].y);
  }

  /** Points lying exactly on `c` satisfy its normal equations. */
  lemma {:induction false} ExactLineSolves(line: seq<RowPoint>, c: Line)
    requires OnLine(line, c)
    ensures Solves(MomentsOf(line), c)
  {
    if |line| > 0 {
      ExactLineSolves(line[..|line| - 1], c);
      SolvesAdd(MomentsOf(line[..|line| - 1]), line[|line| - 1], c);
    }
  }

  /** A centerline lying exactly on a line is fitted by that very line. */
  lemma FitRecoversExactLine(line: seq<RowPoint>, c: Line)
    requires Det(MomentsOf(line)) != 0.0
    requires OnLine(line, c)
    ensures Fit(line) == c
  {
    ExactLineSolves(line, c);
    SolutionUnique(MomentsOf(line), Fit(line), c);
  }

  // ---------------------------------------------------------------------
  // Pruning.

  /** `D <= 5` with `D = |slope*y - x + intercept| / sqrt(slope^2 + 1)`,
      squared so that no square root is needed. */
  predicate WithinBand(p: RowPoint, c: Line)
  {
    Square(c.slope * p.y - p.x + c.intercept) <= Square(MaxDistance) * (Square(c.slope) + 1.0)
  }

  /** The squared test agrees with the distance test: for the distance
      `d >= 0`, i.e. `d * sqrt(slope^2 + 1) == |slope*y - x + intercept|`,
      the point is kept exactly when `d <= 5`, a distance of exactly 5 included. */
  lemma WithinBandIsDistance(p: RowPoint, c: Line, d: real)
    requires d >= 0.0
    requires Square(d) * (Square(c.slope) + 1.0) == Square(c.slope * p.y - p.x + c.intercept)
    ensures WithinBand(p, c) <==> d <= MaxDistance
  {
    ScaledSquares(d, MaxDistance, c.slope);
  }

  /** The selection `D <= 5`, for a given line. */
  function Band(c: Line): RowPoint -> bool
  {
    (p: RowPoint) => WithinBand(p, c)
  }

  /** `np.delete(line, np.where(D > 5), axis=0)`: the points within the band,
      in their order. */
  function Prune(line: seq<RowPoint>, c: Line): (kept: seq<RowPoint>)
    ensures forall k :: 0 <= k < |line| ==> (line[k] in kept <==> WithinBand(line[k], c))
    ensures forall p :: p in kept ==> p in line
    ensures IsSubsequence(kept, line)
  {
    Keep(line, Band(c))
  }

  /** Every copy of a point within the band survives. */
  lemma PruneCopies(line: seq<RowPoint>, c: Line)
    ensures forall k :: 0 <= k < |line| ==>
      multiset(Prune(line, c))[line[k]] ==
        if WithinBand(line[k], c) then multiset(line)[line[k]] else 0
  {
    KeepCopies(line, Band(c));
  }

  /** A centerline lying exactly on a line loses no point to pruning
      against its own fit. */
  lemma ExactLineKeptWhole(line: seq<RowPoint>, c: Line)
    requires Det(MomentsOf(line)) != 0.0
    requires OnLine(line, c)
    ensures Prune(line, Fit(line)) == line
  {
    calc {
      Prune(line, Fit(line));
      == { FitRecoversExactLine(line, c); }
      Prune(line, c);
      == { PruneKeepsOnLine(line, c); }
      line;
    }
  }

  /** Pruning against a line keeps every point lying on it. */
  lemma PruneKeepsOnLine(line: seq<RowPoint>, c: Line)
    requires OnLine(line, c)
    ensures Prune(line, c) == line
  {
    forall k | 0 <= k < |line| ensures Band(c)(line[k]) {
      OnLineWithinBand(line[k], c);
    }
    KeepAll(line, Band(c));
  }

  lemma OnLineWithinBand(p: RowPoint, c: Line)
    requires Residual(p, c) == 0.0
    ensures WithinBand(p, c)
  {
    assert c.slope * p.y - p.x + c.intercept == 0.0;
  }

  // ---------------------------------------------------------------------
  // Identities of real arithmetic, stated on plain reals.

  lemma SolutionAlgebra(n: real, sy: real, sx: real, syy: real, sxy: real,
                        d: real, slope: real, intercept: real)
    requires n != 0.0 && d == n * syy - sy * sy && d != 0.0
    requires slope == (n * sxy - sx * sy) / d && intercept == (sx - slope * sy) / n
    ensures slope * syy + intercept * sy == sxy && slope * sy + intercept * n == sx
  {
    assert slope * d == n * sxy - sx * sy;
    assert intercept * n == sx - slope * sy;
    assert (slope * syy + intercept * sy) * n == sxy * n by {
      calc {
        (slope * syy + intercept * sy) * n;
        slope * syy * n + (intercept * n) * sy;
        slope * syy * n + (sx - slope * sy) * sy;
        slope * (n * syy - sy * sy) + sx * sy;
        slope * d + sx * sy;
        sxy * n;
      }
    }
  }

  lemma SquareNonNegative(t: real)
    ensures t * t >= 0.0
  {
  }

  lemma SquarePositive(t: real)
    requires t != 0.0
    ensures Square(t) > 0.0
  {
    calc {
      Square(t);
      == t * t;
      > 0.0;
    }
  }

  lemma ProductPositive(a: real, b: real)
    requires a > 0.0 && b > 0.0
    ensures a * b > 0.0
  {
  }

  lemma ProductNonNegative(a: real, b: real)
    requires a >= 0.0 && b >= 0.0
    ensures a * b >= 0.0
  {
  }

  lemma NegativeProduct(a: real, b: real)
    requires a > 0.0 && b < 0.0
    ensures a * b < 0.0
  {
  }

  lemma ScaledSquares(d: real, m: real, s: real)
    requires d >= 0.0 && m >= 0.0
    ensures d <= m <==> Square(d) * (Square(s) + 1.0) <= Square(m) * (Square(s) + 1.0)
  {
    var k := Square(s) + 1.0;
    assert k > 0.0;
    if d < m {
      var a, b := m - d, m + d;
      ProductPositive(a, b);
      ProductPositive(a * b, k);
      assert a * b * k == Square(m) * k - Square(d) * k;
    } else if m < d {
      var a, b := d - m, d + m;
      ProductPositive(a, b);
      ProductPositive(a * b, k);
      assert a * b * k == Square(d) * k - Square(m) * k;
    }
  }
}
