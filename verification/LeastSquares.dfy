/** `_ols_slope`: the closed form against least squares, in exact arithmetic. */
module LeastSquares {
  import opened Products
  import opened Sums

  datatype Point = Point(x: real, y: real)
  datatype Result = Slope(slope: real) | Degenerate | NoPoints

  function Square(x: real): real { Times(x, x) }

  function X(): Point -> real { (p: Point) => p.x }
  function Y(): Point -> real { (p: Point) => p.y }
  function CentredX2(mx: real): Point -> real { (p: Point) => Square(p.x - mx) }
  function CentredXY(mx: real, my: real): Point -> real { (p: Point) => (p.x - mx) * (p.y - my) }

  function MeanX(points: seq<Point>): real
    requires points != []
  {
    SumBy(points, X()) / |points| as real
  }

  function MeanY(points: seq<Point>): real
    requires points != []
  {
    SumBy(points, Y()) / |points| as real
  }

  function Spread(points: seq<Point>): real
    requires points != []
  {
    SumBy(points, CentredX2(MeanX(points)))
  }

  function Cross(points: seq<Point>): real
    requires points != []
  {
    SumBy(points, CentredXY(MeanX(points), MeanY(points)))
  }

  /** An empty list divides by zero in the original, points without spread raise. */
  function OlsSlope(points: seq<Point>): Result {
    if points == [] then NoPoints
    else if Spread(points) == 0.0 then Degenerate
    else Slope(Cross(points) / Spread(points))
  }

  // ----- sums of squared residuals -----

  function SquaredResidual(a: real, b: real): Point -> real {
    (p: Point) => Square(p.y - a - b * p.x)
  }

  /** The squared error of the line y = a + b x. */
  function SquaredError(points: seq<Point>, a: real, b: real): real { SumBy(points, SquaredResidual(a, b)) }

  /** Residuals, and residuals weighted by the distance from the mean, of a line through (mx, my). */
  function Residual(mx: real, my: real, b: real): Point -> real { (p: Point) => p.y - my - b * (p.x - mx) }
  function WeightedResidual(mx: real, my: real, b: real): Point -> real {
    (p: Point) => (p.x - mx) * (p.y - my - b * (p.x - mx))
  }

  /** The squared distance between two lines at a point. */
  function Gap2(mx: real, c: real, d: real): Point -> real {
    (p: Point) => Square(c + d * (p.x - mx))
  }

  /** Moving the line (my - b mx) + b x by c + d (x - mx) changes the error by the square of the
      move less twice its product with the residuals. */
  lemma {:induction false} ErrorOfMovedLine(points: seq<Point>, mx: real, my: real, b: real, c: real, d: real)
    ensures SquaredError(points, my - Times(b, mx) + c - Times(d, mx), b + d)
      == SquaredError(points, my - Times(b, mx), b) + SumBy(points, Gap2(mx, c, d))
       - Times(2.0 * c, SumBy(points, Residual(mx, my, b))) - Times(2.0 * d, SumBy(points, WeightedResidual(mx, my, b)))
  {
    if points == [] {
      TimesZero(2.0 * c);
      TimesZero(2.0 * d);
    } else {
      ErrorOfMovedLine(points[1..], mx, my, b, c, d);
      OnePoint(points[0], mx, my, b, c, d);
      Distribute(2.0 * c, Residual(mx, my, b)(points[0]), SumBy(points[1..], Residual(mx, my, b)));
      Distribute(2.0 * d, WeightedResidual(mx, my, b)(points[0]), SumBy(points[1..], WeightedResidual(mx, my, b)));
    }
  }

  lemma OnePoint(p: Point, mx: real, my: real, b: real, c: real, d: real)
    ensures SquaredResidual(my - Times(b, mx) + c - Times(d, mx), b + d)(p)
      == SquaredResidual(my - Times(b, mx), b)(p) + Gap2(mx, c, d)(p)
       - Times(2.0 * c, Residual(mx, my, b)(p)) - Times(2.0 * d, WeightedResidual(mx, my, b)(p))
  {
    var u := p.x - mx;
    var r := p.y - my - b * u;
    var g := c + d * u;
    assert p.y - (my - Times(b, mx)) - b * p.x == r;
    assert p.y - (my - Times(b, mx) + c - Times(d, mx)) - (b + d) * p.x == r - g;
    assert Square(r - g) == Square(r) + Square(g) - 2.0 * g * r;
    assert 2.0 * g * r == Times(2.0 * c, r) + Times(2.0 * d, u * r);
  }

  lemma {:induction false} ResidualSum(points: seq<Point>, mx: real, my: real, b: real)
    ensures SumBy(points, Residual(mx, my, b)) == SumBy(points, Y()) - Times(|points| as real, my)
      - Times(b, SumBy(points, X()) - Times(|points| as real, mx))
  {
    if points == [] {
      TimesZero(b);
    } else {
      var rest, p, n := points[1..], points[0], |points[1..]| as real;
      ResidualSum(rest, mx, my, b);
      assert |points| as real == n + 1.0;
      Distribute(b, SumBy(rest, X()) - Times(n, mx), p.x - mx);
      OneMore(n, mx);
      OneMore(n, my);
    }
  }

  lemma {:induction false} WeightedResidualSum(points: seq<Point>, mx: real, my: real, b: real)
    ensures SumBy(points, WeightedResidual(mx, my, b))
      == SumBy(points, CentredXY(mx, my)) - Times(b, SumBy(points, CentredX2(mx)))
  {
    if points == [] {
      TimesZero(b);
    } else {
      WeightedResidualSum(points[1..], mx, my, b);
      OneWeightedResidual(points[0], mx, my, b);
      Distribute(b, CentredX2(mx)(points[0]), SumBy(points[1..], CentredX2(mx)));
    }
  }

  lemma OneWeightedResidual(p: Point, mx: real, my: real, b: real)
    ensures WeightedResidual(mx, my, b)(p) == CentredXY(mx, my)(p) - Times(b, CentredX2(mx)(p))
  {
    var u, v := p.x - mx, p.y - my;
    assert u * (v - b * u) == u * v - b * (u * u);
  }

  lemma {:induction false} GapSum(points: seq<Point>, mx: real, c: real, d: real)
    ensures SumBy(points, Gap2(mx, c, d)) == Times(|points| as real, Square(c))
      + Times(2.0 * Times(c, d), SumBy(points, X()) - Times(|points| as real, mx))
      + Times(Square(d), SumBy(points, CentredX2(mx)))
  {
    if points == [] {
      TimesZero(2.0 * Times(c, d));
      TimesZero(Square(d));
    } else {
      var rest, u, n := points[1..], points[0].x - mx, |points[1..]| as real;
      GapSum(rest, mx, c, d);
      assert |points| as real == n + 1.0;
      OneGap(points[0], mx, c, d);
      Distribute(2.0 * Times(c, d), SumBy(rest, X()) - Times(n, mx), u);
      Distribute(Square(d), SumBy(rest, CentredX2(mx)), Square(u));
      OneMore(n, Square(c));
      OneMore(n, mx);
    }
  }

  lemma OneGap(p: Point, mx: real, c: real, d: real)
    ensures Gap2(mx, c, d)(p) == Square(c) + Times(2.0 * Times(c, d), p.x - mx) + Times(Square(d), CentredX2(mx)(p))
  {
    var u := p.x - mx;
    assert Square(c + d * u) == Square(c) + Times(2.0 * Times(c, d), u) + Times(Square(d), Square(u));
  }

  lemma OneMore(n: real, x: real)
    ensures Times(n + 1.0, x) == Times(n, x) + x
  {
  }

  lemma Means(points: seq<Point>)
    requires points != []
    ensures SumBy(points, X()) - Times(|points| as real, MeanX(points)) == 0.0
    ensures SumBy(points, Y()) - Times(|points| as real, MeanY(points)) == 0.0
  {
    var n := |points| as real;
    assert n > 0.0;
    assert (SumBy(points, X()) / n) * n == SumBy(points, X());
    assert (SumBy(points, Y()) / n) * n == SumBy(points, Y());
  }

  lemma SquareSign(x: real)
    ensures Square(x) >= 0.0 && (Square(x) == 0.0 <==> x == 0.0)
  {
    if x > 0.0 {
      TimesPositive(x, x);
    } else if x < 0.0 {
      TimesPositive(-x, -x);
      assert Times(x, x) == Times(-x, -x);
    } else {
      TimesZero(x);
    }
  }

  lemma {:induction false} SpreadAbout(points: seq<Point>, mx: real)
    ensures SumBy(points, CentredX2(mx)) >= 0.0
    ensures SumBy(points, CentredX2(mx)) == 0.0 <==> forall i :: 0 <= i < |points| ==> points[i].x == mx
  {
    if points != [] {
      SpreadAbout(points[1..], mx);
      var u := points[0].x - mx;
      SquareSign(u);
      assert forall i :: 1 <= i < |points| ==> points[i] == points[1..][i - 1];
      assert forall i :: 0 <= i < |points| - 1 ==> points[1..][i] == points[i + 1];
    }
  }

  /** A line seen from the fitted one: its height over the mean point and its extra slope. */
  function Rise(points: seq<Point>, slope: real, a: real, b: real): real
    requires points != []
  {
    a - FittedIntercept(points, slope) + Times(b - slope, MeanX(points))
  }

  function FittedIntercept(points: seq<Point>, slope: real): real
    requires points != []
  {
    MeanY(points) - Times(slope, MeanX(points))
  }

  function Excess(n: real, c: real, d: real, spread: real): real { Times(n, Square(c)) + Times(Square(d), spread) }

  lemma NormalEquations(points: seq<Point>)
    requires OlsSlope(points).Slope?
    ensures var m := OlsSlope(points).slope;
      && SumBy(points, Residual(MeanX(points), MeanY(points), m)) == 0.0
      && SumBy(points, WeightedResidual(MeanX(points), MeanY(points), m)) == 0.0
  {
    var m, mx, my := OlsSlope(points).slope, MeanX(points), MeanY(points);
    Means(points);
    ResidualSum(points, mx, my, m);
    WeightedResidualSum(points, mx, my, m);
    QuotientTimes(Cross(points), Spread(points));
    TimesZero(m);
  }

  // ----- main results -----

  /** The exact price of any other line: its squared error exceeds that of the line through the
      means with the computed slope by n c^2 + d^2 S, with c its rise over the mean point, d its
      extra slope and S the spread of x. */
  lemma ExcessError(points: seq<Point>, a: real, b: real)
    requires OlsSlope(points).Slope?
    ensures var m := OlsSlope(points).slope; var c, d := Rise(points, m, a, b), b - m;
      SquaredError(points, a, b)
        == SquaredError(points, FittedIntercept(points, m), m) + Excess(|points| as real, c, d, Spread(points))
  {
    var m := OlsSlope(points).slope;
    var c, d := Rise(points, m, a, b), b - m;
    NormalEquations(points);
    CentredGap(points, c, d);
    ErrorAgainstFit(points, m, a, b);
    TimesZero(2.0 * c);
    TimesZero(2.0 * d);
  }

  lemma ErrorAgainstFit(points: seq<Point>, m: real, a: real, b: real)
    requires points != []
    ensures var c, d, mx, my := Rise(points, m, a, b), b - m, MeanX(points), MeanY(points);
      SquaredError(points, a, b) == SquaredError(points, FittedIntercept(points, m), m) + SumBy(points, Gap2(mx, c, d))
        - Times(2.0 * c, SumBy(points, Residual(mx, my, m)))
        - Times(2.0 * d, SumBy(points, WeightedResidual(mx, my, m)))
  {
    SameLine(points, m, a, b);
    ErrorOfMovedLine(points, MeanX(points), MeanY(points), m, Rise(points, m, a, b), b - m);
  }

  lemma SameLine(points: seq<Point>, m: real, a: real, b: real)
    requires points != []
    ensures var c, d, mx := Rise(points, m, a, b), b - m, MeanX(points);
      SquaredError(points, MeanY(points) - Times(m, mx) + c - Times(d, mx), m + d) == SquaredError(points, a, b)
  {
    var c, d, mx := Rise(points, m, a, b), b - m, MeanX(points);
    assert MeanY(points) - Times(m, mx) + c - Times(d, mx) == a && m + d == b;
  }

  lemma CentredGap(points: seq<Point>, c: real, d: real)
    requires points != []
    ensures SumBy(points, Gap2(MeanX(points), c, d)) == Excess(|points| as real, c, d, Spread(points))
  {
    Means(points);
    GapSum(points, MeanX(points), c, d);
    TimesZero(2.0 * Times(c, d));
  }

  /** No line does better, and only the same line does as well. */
  lemma OlsIsTheLeastSquaresLine(points: seq<Point>, a: real, b: real)
    requires OlsSlope(points).Slope?
    ensures var m := OlsSlope(points).slope; var best := SquaredError(points, FittedIntercept(points, m), m);
      && best <= SquaredError(points, a, b)
      && (SquaredError(points, a, b) == best <==> b == m && a == FittedIntercept(points, m))
  {
    var m := OlsSlope(points).slope;
    var c, d, n := Rise(points, m, a, b), b - m, |points| as real;
    ExcessError(points, a, b);
    SpreadAbout(points, MeanX(points));
    PositiveForm(n, c, d, Spread(points));
  }

  lemma PositiveForm(n: real, c: real, d: real, spread: real)
    requires n > 0.0 && spread > 0.0
    ensures Excess(n, c, d, spread) >= 0.0
    ensures Excess(n, c, d, spread) == 0.0 <==> c == 0.0 && d == 0.0
  {
    SquareSign(c);
    SquareSign(d);
    TimesSign(n, Square(c));
    TimesSign(spread, Square(d));
  }

  lemma {:induction false} ErrorsAreNonNegative(points: seq<Point>, a: real, b: real)
    ensures SquaredError(points, a, b) >= 0.0
    ensures (forall i :: 0 <= i < |points| ==> points[i].y == a + b * points[i].x) ==> SquaredError(points, a, b) == 0.0
  {
    if points != [] {
      ErrorsAreNonNegative(points[1..], a, b);
      SquareSign(points[0].y - a - b * points[0].x);
      assert forall i :: 0 <= i < |points| - 1 ==> points[1..][i] == points[i + 1];
    }
  }

  /** Points on a line give that line's slope. */
  lemma ExactOnAffineData(points: seq<Point>, a: real, b: real)
    requires OlsSlope(points).Slope?
    requires forall i :: 0 <= i < |points| ==> points[i].y == a + b * points[i].x
    ensures OlsSlope(points).slope == b
  {
    var m := OlsSlope(points).slope;
    OlsIsTheLeastSquaresLine(points, a, b);
    ErrorsAreNonNegative(points, a, b);
    ErrorsAreNonNegative(points, FittedIntercept(points, m), m);
  }

  lemma SlopeIgnoresOrder(a: seq<Point>, b: seq<Point>)
    requires multiset(a) == multiset(b)
    ensures OlsSlope(a) == OlsSlope(b)
  {
    assert |multiset(a)| == |a| && |multiset(b)| == |b|;
    if a != [] {
      SumByPermutation(a, b, X());
      SumByPermutation(a, b, Y());
      SumByPermutation(a, b, CentredX2(MeanX(a)));
      SumByPermutation(a, b, CentredXY(MeanX(a), MeanY(a)));
    }
  }

  /** The degenerate refusal fires exactly when all x are equal. */
  lemma DegenerateIffNoSpread(points: seq<Point>)
    requires points != []
    ensures OlsSlope(points).Degenerate? <==>
      forall i, j :: 0 <= i < |points| && 0 <= j < |points| ==> points[i].x == points[j].x
  {
    var x := points[0].x;
    SpreadAbout(points, MeanX(points));
    if forall i, j :: 0 <= i < |points| && 0 <= j < |points| ==> points[i].x == points[j].x {
      ConstantSum(points, x);
      assert (|points| as real * x) / |points| as real == x;
    }
  }

  lemma {:induction false} ConstantSum(points: seq<Point>, x: real)
    requires forall i :: 0 <= i < |points| ==> points[i].x == x
    ensures SumBy(points, X()) == |points| as real * x
  {
    if points != [] {
      ConstantSum(points[1..], x);
      assert |points| as real * x == x + (|points| - 1) as real * x;
    }
  }
}
