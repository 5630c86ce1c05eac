/**
 The amortization curve Wh/1k_out(C) = a/C + b fitted to throughput points by closed-form
 least squares. Follows _fit_amortization_curve in src/vetch/calibrate_cuda.py.
 */
module Amortization {
  import opened Reals

  datatype Point = Point(x: real, y: real)

  datatype Curve = Curve(a: real, b: real, r2: real)

  const TINY := 0.000000000000000001

  // The points with positive concurrency c, at x = 1/c.
  function Usable(points: seq<(int, real)>): seq<Point> {
    if points == [] then []
    else
      var (c, y) := points[0];
      (if c > 0 then [Point(1.0 / c as real, y)] else []) + Usable(points[1..])
  }

  function SumX(p: seq<Point>): real { if p == [] then 0.0 else p[0].x + SumX(p[1..]) }
  function SumY(p: seq<Point>): real { if p == [] then 0.0 else p[0].y + SumY(p[1..]) }
  function SumXX(p: seq<Point>): real { if p == [] then 0.0 else Times(p[0].x, p[0].x) + SumXX(p[1..]) }
  function SumXY(p: seq<Point>): real { if p == [] then 0.0 else Times(p[0].x, p[0].y) + SumXY(p[1..]) }
  function SumYY(p: seq<Point>): real { if p == [] then 0.0 else Times(p[0].y, p[0].y) + SumYY(p[1..]) }

  function Residual(q: Point, a: real, b: real): real { q.y - (a * q.x + b) }

  // Squared error of the curve a*x + b.
  function Sse(p: seq<Point>, a: real, b: real): real {
    if p == [] then 0.0
    else Times(Residual(p[0], a, b), Residual(p[0], a, b)) + Sse(p[1..], a, b)
  }

  function Determinant(sxx: real, sx: real, n: real): real {
    sxx * n - sx * sx
  }

  function Det(p: seq<Point>): real {
    Determinant(SumXX(p), SumX(p), |p| as real)
  }

  function SolvedA(p: seq<Point>): real
    requires Det(p) != 0.0
  {
    (SumXY(p) * |p| as real - SumX(p) * SumY(p)) / Det(p)
  }

  function SolvedB(p: seq<Point>): real
    requires Det(p) != 0.0
  {
    (SumXX(p) * SumY(p) - SumX(p) * SumXY(p)) / Det(p)
  }

  function FitAmortizationCurve(points: seq<(int, real)>): Curve {
    var p := Usable(points);
    if |p| < 2 then Curve(0.0, if p == [] then 0.0 else p[0].y, 0.0)
    else if Abs(Det(p)) < TINY then Curve(0.0, SumY(p) / |p| as real, 0.0)
    else
      var a, b := SolvedA(p), SolvedB(p);
      var ssTot := Sse(p, 0.0, SumY(p) / |p| as real);
      Curve(a, b, if ssTot > TINY then 1.0 - Sse(p, a, b) / ssTot else 0.0)
  }

  // ---------- which points, which branch ----------

  // The usable points are those of positive concurrency, at its reciprocal, in order.
  lemma {:induction false} UsableSplits(a: seq<(int, real)>, b: seq<(int, real)>)
    ensures Usable(a + b) == Usable(a) + Usable(b)
  {
    if a == [] {
      assert a + b == b;
    } else {
      assert (a + b)[1..] == a[1..] + b;
      UsableSplits(a[1..], b);
    }
  }

  lemma UsableOne(c: int, y: real)
    ensures Usable([(c, y)]) == if c >= 1 then [Point(1.0 / c as real, y)] else []
  {
    assert [(c, y)][1..] == [];
  }

  // With no usable point the curve is zero, with one it is flat at that point, and with more it is
  // flat exactly when their concurrencies hardly differ.
  lemma FlatBranchIff(points: seq<(int, real)>)
    ensures Usable(points) == [] ==> FitAmortizationCurve(points) == Curve(0.0, 0.0, 0.0)
    ensures |Usable(points)| == 1 ==> FitAmortizationCurve(points) == Curve(0.0, Usable(points)[0].y, 0.0)
    ensures SolveBranch(points) <==> |Usable(points)| >= 2 && Det(Usable(points)) >= 0.000000000000000001
  {
    DetIsPairwiseSpread(Usable(points));
  }

  // ---------- the determinant ----------

  // Squared differences of x from every later point's.
  function Spread(x: real, p: seq<Point>): real {
    if p == [] then 0.0 else Times(x - p[0].x, x - p[0].x) + Spread(x, p[1..])
  }

  // The sum of squared pairwise differences.
  function PairwiseSpread(p: seq<Point>): real {
    if p == [] then 0.0 else Spread(p[0].x, p[1..]) + PairwiseSpread(p[1..])
  }

  lemma PositiveSquare(x: real)
    requires x > 0.0
    ensures Times(x, x) > 0.0
  {
    calc {
      Times(x, x);
    ==
      x * x;
    >
      0.0;
    }
  }

  lemma SquarePositive(x: real)
    ensures Times(x, x) == x * x
    ensures Times(x, x) >= 0.0
    ensures x != 0.0 ==> Times(x, x) > 0.0
  {
    if x < 0.0 {
      PositiveSquare(-x);
      assert x * x == (-x) * (-x);
      assert Times(x, x) == Times(-x, -x);
    } else if x > 0.0 {
      PositiveSquare(x);
    }
  }

  lemma FactorZero(e: real, d: real)
    requires e * d == 0.0
    ensures e == 0.0 || d == 0.0
  {
  }

  lemma FactorSign(q: real, d: real)
    requires d > 0.0
    ensures q * d >= 0.0 <==> q >= 0.0
  {
  }

  // Spread from the sums: sum of (x - u)^2 over the points u.
  function SpreadForm(x: real, sxx: real, sx: real, m: real): real {
    sxx - 2.0 * x * sx + m * x * x
  }

  lemma SpreadStep(x: real, u: real, sxx: real, sx: real, m: real)
    ensures Times(x - u, x - u) + SpreadForm(x, sxx, sx, m) == SpreadForm(x, Times(u, u) + sxx, u + sx, m + 1.0)
  {
  }

  lemma DetStep(x: real, sxx: real, sx: real, m: real)
    ensures Determinant(Times(x, x) + sxx, x + sx, m + 1.0) == Determinant(sxx, sx, m) + SpreadForm(x, sxx, sx, m)
  {
  }

  lemma {:induction false} SpreadExpands(x: real, p: seq<Point>)
    ensures Spread(x, p) == SpreadForm(x, SumXX(p), SumX(p), |p| as real)
  {
    if p == [] {
    } else {
      hide Times, SpreadForm;
      var u, s := p[0].x, p[1..];
      SpreadExpands(x, s);
      SpreadStep(x, u, SumXX(s), SumX(s), |s| as real);
      assert |p| as real == |s| as real + 1.0;
    }
  }

  lemma {:induction false} SpreadZeroIff(x: real, p: seq<Point>)
    ensures Spread(x, p) >= 0.0
    ensures Spread(x, p) == 0.0 <==> forall q :: q in p ==> q.x == x
  {
    hide Times;
    if p != [] {
      SpreadZeroIff(x, p[1..]);
      SquarePositive(x - p[0].x);
      assert forall q :: q in p <==> q == p[0] || q in p[1..];
    }
  }

  lemma {:induction false} DetIsSpread(p: seq<Point>)
    ensures Det(p) == PairwiseSpread(p)
  {
    if p != [] {
      hide Times, SpreadForm, Spread, Determinant;
      var x, s := p[0].x, p[1..];
      DetIsSpread(s);
      SpreadExpands(x, s);
      assert |p| as real == |s| as real + 1.0;
      DetStep(x, SumXX(s), SumX(s), |s| as real);
    }
  }

  lemma {:induction false} SpreadVanishesIff(p: seq<Point>)
    ensures PairwiseSpread(p) >= 0.0
    ensures PairwiseSpread(p) == 0.0 <==> forall q, r :: q in p && r in p ==> q.x == r.x
  {
    hide SumX, SumXX, Spread;
    if p != [] {
      var x, s := p[0].x, p[1..];
      SpreadVanishesIff(s);
      SpreadZeroIff(x, s);
      assert forall q :: q in p <==> q == p[0] || q in s;
      if PairwiseSpread(p) == 0.0 {
        assert forall q :: q in p ==> q.x == x;
      }
    }
  }

  // The determinant is the sum of squared pairwise differences, so it is positive exactly
  // when two of the concurrencies differ.
  lemma DetIsPairwiseSpread(p: seq<Point>)
    ensures Det(p) == PairwiseSpread(p) >= 0.0
    ensures Det(p) > 0.0 <==> exists q, r :: q in p && r in p && q.x != r.x
  {
    hide Det, PairwiseSpread;
    DetIsSpread(p);
    SpreadVanishesIff(p);
  }

  // ---------- optimality ----------

  lemma ErrorSquared(x: real, y: real, a: real, b: real)
    ensures (y - (a * x + b)) * (y - (a * x + b))
            == y * y - 2.0 * a * (x * y) - 2.0 * b * y + a * a * (x * x) + 2.0 * a * b * x + b * b
  {
    var u := a * x;
    assert (y - (u + b)) * (y - (u + b)) == y * y - 2.0 * (y * u) - 2.0 * b * y + u * u + 2.0 * (u * b) + b * b;
    assert y * u == a * (x * y);
    assert u * u == a * a * (x * x);
    assert u * b == a * b * x;
  }

  // Squared error as a quadratic in (a, b), from the five sums and the count.
  function Quadratic(a: real, b: real, syy: real, sxy: real, sy: real, sxx: real, sx: real, n: real): real {
    syy - 2.0 * a * sxy - 2.0 * b * sy + a * a * sxx + 2.0 * a * b * sx + n * b * b
  }

  lemma QuadraticStep(a: real, b: real, x: real, y: real,
                      syy: real, sxy: real, sy: real, sxx: real, sx: real, n: real)
    ensures Quadratic(a, b, Times(y, y) + syy, Times(x, y) + sxy, y + sy, Times(x, x) + sxx, x + sx, n + 1.0)
            == Times(Residual(Point(x, y), a, b), Residual(Point(x, y), a, b)) + Quadratic(a, b, syy, sxy, sy, sxx, sx, n)
  {
    Distribute(2.0 * a, Times(x, y), sxy);
    Distribute(2.0 * b, y, sy);
    Distribute(a * a, Times(x, x), sxx);
    Distribute(2.0 * a * b, x, sx);
    AssociateSquare(n, b);
    Distribute(b * b, n, 1.0);
    ResidualSquared(x, y, a, b);
    hide Times, Residual;
  }

  lemma ResidualSquared(x: real, y: real, a: real, b: real)
    ensures Times(Residual(Point(x, y), a, b), Residual(Point(x, y), a, b))
            == Times(y, y) - 2.0 * a * Times(x, y) - 2.0 * b * y + a * a * Times(x, x) + 2.0 * a * b * x + b * b
  {
    ErrorSquared(x, y, a, b);
  }

  lemma AssociateSquare(n: real, b: real)
    ensures n * b * b == b * b * n && (n + 1.0) * b * b == b * b * (n + 1.0)
  {
  }

  lemma Distribute(k: real, c: real, d: real)
    ensures k * (c + d) == k * c + k * d
  {
  }

  lemma {:induction false} SseExpands(p: seq<Point>, a: real, b: real)
    ensures Sse(p, a, b) == Quadratic(a, b, SumYY(p), SumXY(p), SumY(p), SumXX(p), SumX(p), |p| as real)
  {
    if p == [] {
    } else {
      hide Quadratic, Times, Residual;
      var x, y, s := p[0].x, p[0].y, p[1..];
      assert p[0] == Point(x, y);
      SseExpands(s, a, b);
      assert |p| as real == |s| as real + 1.0;
      QuadraticStep(a, b, x, y, SumYY(s), SumXY(s), SumY(s), SumXX(s), SumX(s), |s| as real);
    }
  }

  lemma {:induction false} SseNonNegative(p: seq<Point>, a: real, b: real)
    ensures Sse(p, a, b) >= 0.0
  {
    if p != [] {
      SseNonNegative(p[1..], a, b);
      SquarePositive(Residual(p[0], a, b));
    }
  }

  // The solved coefficients satisfy the normal equations.
  lemma NormalEquations(p: seq<Point>)
    requires Det(p) != 0.0
    ensures var a, b := SolvedA(p), SolvedB(p);
      && a * SumXX(p) + b * SumX(p) == SumXY(p)
      && a * SumX(p) + b * |p| as real == SumY(p)
  {
    hide SumXX, SumX, SumXY, SumY;
    CramersRule(SumXX(p), SumX(p), |p| as real, SumXY(p), SumY(p), SolvedA(p), SolvedB(p));
  }

  lemma CramersRule(sxx: real, sx: real, n: real, sxy: real, sy: real, a: real, b: real)
    requires sxx * n - sx * sx != 0.0
    requires a == (sxy * n - sx * sy) / (sxx * n - sx * sx) && b == (sxx * sy - sx * sxy) / (sxx * n - sx * sx)
    ensures a * sxx + b * sx == sxy && a * sx + b * n == sy
  {
    var d := sxx * n - sx * sx;
    assert a * d == sxy * n - sx * sy;
    assert b * d == sxx * sy - sx * sxy;
    FirstEquation(sxx, sx, n, sxy, sy, a, b, d);
    SecondEquation(sxx, sx, n, sxy, sy, a, b, d);
    FactorZero(a * sxx + b * sx - sxy, d);
    FactorZero(a * sx + b * n - sy, d);
  }

  lemma FirstEquation(sxx: real, sx: real, n: real, sxy: real, sy: real, a: real, b: real, d: real)
    requires d == sxx * n - sx * sx && a * d == sxy * n - sx * sy && b * d == sxx * sy - sx * sxy
    ensures (a * sxx + b * sx - sxy) * d == 0.0
  {
    calc {
      (a * sxx + b * sx - sxy) * d;
      (a * d) * sxx + (b * d) * sx - sxy * d;
      (sxy * n - sx * sy) * sxx + (sxx * sy - sx * sxy) * sx - sxy * (sxx * n - sx * sx);
      0.0;
    }
  }

  lemma SecondEquation(sxx: real, sx: real, n: real, sxy: real, sy: real, a: real, b: real, d: real)
    requires d == sxx * n - sx * sx && a * d == sxy * n - sx * sy && b * d == sxx * sy - sx * sxy
    ensures (a * sx + b * n - sy) * d == 0.0
  {
    calc {
      (a * sx + b * n - sy) * d;
      (a * d) * sx + (b * d) * n - sy * d;
      (sxy * n - sx * sy) * sx + (sxx * sy - sx * sxy) * n - sy * (sxx * n - sx * sx);
      0.0;
    }
  }

  // What moving by (u, v) from the solution costs.
  function MoveCost(sxx: real, sx: real, n: real, u: real, v: real): real {
    u * u * sxx + 2.0 * u * v * sx + n * v * v
  }

  lemma MoveCostCompletesSquare(sxx: real, sx: real, n: real, u: real, v: real)
    ensures n * MoveCost(sxx, sx, n, u, v) == (n * v + u * sx) * (n * v + u * sx) + u * u * (sxx * n - sx * sx)
  {
    var w, z := n * v, u * sx;
    assert (w + z) * (w + z) == w * w + 2.0 * (w * z) + z * z;
    assert u * u * (sxx * n - sx * sx) == u * u * (sxx * n) - z * z;
    assert n * (u * u * sxx) == u * u * (sxx * n);
    assert n * (2.0 * u * v * sx) == 2.0 * (w * z);
    assert n * (n * v * v) == w * w;
    Distribute(n, u * u * sxx + 2.0 * u * v * sx, n * v * v);
    Distribute(n, u * u * sxx, 2.0 * u * v * sx);
  }

  // It is positive unless nothing moved.
  lemma MoveCostPositive(sxx: real, sx: real, n: real, u: real, v: real)
    requires n > 0.0 && sxx * n - sx * sx > 0.0
    ensures MoveCost(sxx, sx, n, u, v) >= 0.0
    ensures MoveCost(sxx, sx, n, u, v) == 0.0 ==> u == 0.0 && v == 0.0
  {
    var q, w, d := MoveCost(sxx, sx, n, u, v), n * v + u * sx, sxx * n - sx * sx;
    MoveCostCompletesSquare(sxx, sx, n, u, v);
    hide MoveCost;
    SquarePositive(w);
    SquarePositive(u);
    assert u * u * d >= 0.0;
    FactorSign(q, n);
    if q == 0.0 {
      assert w * w == 0.0 && u * u * d == 0.0;
      FactorZero(u * u, d);
      FactorZero(w, w);
      assert u * sx == 0.0;
      FactorZero(v, n);
    }
  }

  lemma QuadraticShift(a: real, b: real, u: real, v: real,
                       syy: real, sxy: real, sy: real, sxx: real, sx: real, n: real)
    requires a * sxx + b * sx == sxy && a * sx + b * n == sy
    ensures Quadratic(a + u, b + v, syy, sxy, sy, sxx, sx, n)
            == Quadratic(a, b, syy, sxy, sy, sxx, sx, n) + MoveCost(sxx, sx, n, u, v)
  {
    assert (a + u) * (a + u) * sxx == a * a * sxx + 2.0 * (u * (a * sxx)) + u * u * sxx;
    assert 2.0 * (a + u) * (b + v) * sx == 2.0 * a * b * sx + 2.0 * (v * (a * sx)) + 2.0 * (u * (b * sx)) + 2.0 * u * v * sx;
    assert n * (b + v) * (b + v) == n * b * b + 2.0 * (v * (b * n)) + n * v * v;
    Distribute(u, a * sxx, b * sx);
    Distribute(v, a * sx, b * n);
    assert 2.0 * (a + u) * sxy == 2.0 * a * sxy + 2.0 * (u * sxy);
    assert 2.0 * (b + v) * sy == 2.0 * b * sy + 2.0 * (v * sy);
  }

  // Moving away from the solution costs exactly the quadratic form of the move.
  lemma SseFromSolution(p: seq<Point>, a: real, b: real, u: real, v: real)
    requires a * SumXX(p) + b * SumX(p) == SumXY(p) && a * SumX(p) + b * |p| as real == SumY(p)
    ensures Sse(p, a + u, b + v) == Sse(p, a, b) + MoveCost(SumXX(p), SumX(p), |p| as real, u, v)
  {
    hide SumXX, SumX, SumXY, SumY, SumYY, Sse, Quadratic, MoveCost;
    SseExpands(p, a, b);
    SseExpands(p, a + u, b + v);
    QuadraticShift(a, b, u, v, SumYY(p), SumXY(p), SumY(p), SumXX(p), SumX(p), |p| as real);
  }

  predicate SolveBranch(points: seq<(int, real)>) {
    |Usable(points)| >= 2 && Abs(Det(Usable(points))) >= TINY
  }

  lemma FitSolves(points: seq<(int, real)>)
    requires SolveBranch(points)
    ensures Det(Usable(points)) != 0.0
    ensures FitAmortizationCurve(points).a == SolvedA(Usable(points))
    ensures FitAmortizationCurve(points).b == SolvedB(Usable(points))
  {
    hide SumXX, SumX, SumXY, SumY, Sse, Det, Usable, SolvedA, SolvedB;
  }

  /**
   A true least-squares optimum: when the solve branch is taken no other curve has a smaller
   squared error, and none other has the same.
   */
  lemma FitIsOptimal(points: seq<(int, real)>, a: real, b: real)
    requires SolveBranch(points)
    ensures var p, fit := Usable(points), FitAmortizationCurve(points);
      Sse(p, fit.a, fit.b) <= Sse(p, a, b)
      && (Sse(p, fit.a, fit.b) == Sse(p, a, b) ==> a == fit.a && b == fit.b)
  {
    hide FitAmortizationCurve, Sse, SolvedA, SolvedB, Det, Usable;
    FitSolves(points);
    SolutionIsOptimal(Usable(points), a, b);
  }

  lemma SolutionIsOptimal(p: seq<Point>, a: real, b: real)
    requires Det(p) != 0.0 && |p| >= 2
    ensures Sse(p, SolvedA(p), SolvedB(p)) <= Sse(p, a, b)
    ensures Sse(p, SolvedA(p), SolvedB(p)) == Sse(p, a, b) ==> a == SolvedA(p) && b == SolvedB(p)
  {
    hide SumXX, SumX, SumXY, SumY, Sse, MoveCost, SolvedA, SolvedB, PairwiseSpread;
    DetIsPairwiseSpread(p);
    NormalEquations(p);
    var u, v := a - SolvedA(p), b - SolvedB(p);
    SseFromSolution(p, SolvedA(p), SolvedB(p), u, v);
    MoveCostPositive(SumXX(p), SumX(p), |p| as real, u, v);
    assert SolvedA(p) + u == a && SolvedB(p) + v == b;
  }

  lemma {:induction false} ExactPointsNoError(p: seq<Point>, a: real, b: real)
    requires forall q :: q in p ==> q.y == a * q.x + b
    ensures Sse(p, a, b) == 0.0
  {
    if p != [] {
      assert p[0] in p;
      ExactPointsNoError(p[1..], a, b);
    }
  }

  // Points that lie on a curve are recovered exactly, unless the fit fell back to a flat
  // curve and theirs was not flat.
  lemma ExactPointsRecoveredIff(points: seq<(int, real)>, a: real, b: real)
    requires Usable(points) != []
    requires forall q :: q in Usable(points) ==> q.y == a * q.x + b
    ensures FitAmortizationCurve(points).a == a && FitAmortizationCurve(points).b == b
            <==> SolveBranch(points) || a == 0.0
  {
    hide Sse, SumY, FitAmortizationCurve, SolveBranch, Usable;
    var p, fit := Usable(points), FitAmortizationCurve(points);
    ExactPointsNoError(p, a, b);
    if SolveBranch(points) {
      FitIsOptimal(points, a, b);
      SseNonNegative(p, fit.a, fit.b);
    } else {
      FlatFallbackIsMean(points);
      if a == 0.0 {
        ConstantSum(p, b);
        assert (fit.b - b) * |p| as real == 0.0;
        FactorZero(fit.b - b, |p| as real);
      }
    }
  }

  lemma FlatFallbackIsMean(points: seq<(int, real)>)
    requires !SolveBranch(points) && Usable(points) != []
    ensures var p, fit := Usable(points), FitAmortizationCurve(points);
      fit.a == 0.0 && fit.r2 == 0.0 && fit.b * |p| as real == SumY(p)
  {
    hide Det, SolvedA, SolvedB, Sse;
    var p := Usable(points);
    if |p| == 1 { assert p[1..] == []; }
  }

  lemma {:induction false} ConstantSum(p: seq<Point>, b: real)
    requires forall q :: q in p ==> q.y == b
    ensures SumY(p) == b * |p| as real
  {
    if p != [] {
      assert p[0] in p;
      ConstantSum(p[1..], b);
      assert b * (|p[1..]| as real + 1.0) == b * |p[1..]| as real + b;
    }
  }

  // r2 is a proportion for every list of points.
  lemma R2IsProportion(points: seq<(int, real)>)
    ensures 0.0 <= FitAmortizationCurve(points).r2 <= 1.0
  {
    hide Sse, SumY, SolvedA, SolvedB, Det;
    if SolveBranch(points) {
      var p := Usable(points);
      var mean := SumY(p) / |p| as real;
      FitIsOptimal(points, 0.0, mean);
      SseNonNegative(p, SolvedA(p), SolvedB(p));
      if Sse(p, 0.0, mean) > TINY { Proportion(Sse(p, SolvedA(p), SolvedB(p)), Sse(p, 0.0, mean)); }
    }
  }

  // Squared deviations of the fitted values from a mean.
  function Explained(p: seq<Point>, a: real, b: real, mean: real): real {
    if p == [] then 0.0
    else Times(a * p[0].x + b - mean, a * p[0].x + b - mean) + Explained(p[1..], a, b, mean)
  }

  // The squared deviations split: a fitted value's from the mean, the residual, and their
  // product, which the normal equations make vanish in the sum.
  lemma {:induction false} DeviationsSplit(p: seq<Point>, a: real, b: real, mean: real)
    ensures
      Sse(p, 0.0, mean)
      == Sse(p, a, b) + Explained(p, a, b, mean)
         + 2.0 * Cross(a, b, mean, SumXY(p), SumXX(p), SumX(p), SumY(p), |p| as real)
  {
    hide Times, Residual, Cross;
    if p == [] {
      NoCross(a, b, mean);
    } else {
      var q, rest := p[0], p[1..];
      DeviationsSplit(rest, a, b, mean);
      assert q == Point(q.x, q.y) && |p| as real == |rest| as real + 1.0;
      DeviationStep(q.x, q.y, a, b, mean, SumXY(rest), SumXX(rest), SumX(rest), SumY(rest), |rest| as real);
    }
  }

  // What the two normal equations leave, weighed by the slope and by the offset from the mean.
  function Cross(a: real, b: real, mean: real, sxy: real, sxx: real, sx: real, sy: real, n: real): real {
    a * (sxy - a * sxx - b * sx) + (b - mean) * (sy - a * sx - b * n)
  }

  lemma NoCross(a: real, b: real, mean: real)
    ensures Cross(a, b, mean, 0.0, 0.0, 0.0, 0.0, 0.0) == 0.0
  {
  }

  // One point's share of that identity.
  lemma DeviationStep(x: real, y: real, a: real, b: real, mean: real, sxy: real, sxx: real, sx: real, sy: real, n: real)
    ensures Times(Residual(Point(x, y), 0.0, mean), Residual(Point(x, y), 0.0, mean))
            + 2.0 * Cross(a, b, mean, sxy, sxx, sx, sy, n)
            == Times(Residual(Point(x, y), a, b), Residual(Point(x, y), a, b))
               + Times(a * x + b - mean, a * x + b - mean)
               + 2.0 * Cross(a, b, mean, Times(x, y) + sxy, Times(x, x) + sxx, x + sx, y + sy, n + 1.0)
  {
    var h := a * x + b;
    var r := y - h;
    assert Residual(Point(x, y), 0.0, mean) == r + (h - mean);
    assert (r + (h - mean)) * (r + (h - mean)) == r * r + (h - mean) * (h - mean) + 2.0 * (r * (h - mean));
    CrossTerm(x, y, a, b, mean);
    CrossSums(x, y, a, b, mean, sxy, sxx, sx, sy, n);
  }

  lemma CrossTerm(x: real, y: real, a: real, b: real, mean: real)
    ensures (y - (a * x + b)) * (a * x + b - mean)
            == a * (x * y - a * (x * x) - b * x) + (b - mean) * (y - a * x - b)
  {
    var r := y - (a * x + b);
    assert r * (a * x + b - mean) == a * (x * r) + (b - mean) * r;
    assert x * r == x * y - a * (x * x) - b * x;
  }

  lemma CrossSums(x: real, y: real, a: real, b: real, mean: real, sxy: real, sxx: real, sx: real, sy: real, n: real)
    ensures a * (x * y + sxy - a * (x * x + sxx) - b * (x + sx)) + (b - mean) * (y + sy - a * (x + sx) - b * (n + 1.0))
            == a * (x * y - a * (x * x) - b * x) + (b - mean) * (y - a * x - b)
               + (a * (sxy - a * sxx - b * sx) + (b - mean) * (sy - a * sx - b * n))
  {
    Distribute(a, x * x, sxx);
    Distribute(b, x, sx);
    Distribute(a, x, sx);
    Distribute(b, n, 1.0);
    Distribute(a, x * y - a * (x * x) - b * x, sxy - a * sxx - b * sx);
    Distribute(b - mean, y - a * x - b, sy - a * sx - b * n);
  }

  /**
   What r2 measures: of the squared deviations from the mean it is the share of the fitted
   values; so it is one exactly when every point lies on the curve.
   */
  lemma R2IsExplainedShare(points: seq<(int, real)>)
    requires SolveBranch(points)
    ensures Usable(points) != []
    ensures
      var p, fit := Usable(points), FitAmortizationCurve(points);
      var mean := SumY(p) / |p| as real;
      && (Sse(p, 0.0, mean) <= 0.000000000000000001 ==> fit.r2 == 0.0)
      && (Sse(p, 0.0, mean) > 0.000000000000000001 ==>
            && fit.r2 * Sse(p, 0.0, mean) == Explained(p, fit.a, fit.b, mean)
            && (fit.r2 == 1.0 <==> forall q :: q in p ==> q.y == fit.a * q.x + fit.b))
  {
    hide Sse, SumY, SumXY, SumXX, SumX, SolvedA, SolvedB, Det, Explained;
    var p, fit := Usable(points), FitAmortizationCurve(points);
    FitSolves(points);
    NormalEquations(p);
    var mean := SumY(p) / |p| as real;
    DeviationsSplit(p, fit.a, fit.b, mean);
    assert Cross(fit.a, fit.b, mean, SumXY(p), SumXX(p), SumX(p), SumY(p), |p| as real) == 0.0 by {
      assert SumXY(p) - fit.a * SumXX(p) - fit.b * SumX(p) == 0.0;
      assert SumY(p) - fit.a * SumX(p) - fit.b * |p| as real == 0.0;
    }
    hide Cross;
    ErrorlessIff(p, fit.a, fit.b);
    if Sse(p, 0.0, mean) > TINY { ShareOf(Sse(p, fit.a, fit.b), Sse(p, 0.0, mean)); }
  }

  lemma ShareOf(part: real, whole: real)
    requires whole > 0.0
    ensures (1.0 - part / whole) * whole == whole - part
    ensures 1.0 - part / whole == 1.0 <==> part == 0.0
  {
    var q := part / whole;
    assert q * whole == part;
  }

  // No error means no residual.
  lemma {:induction false} ErrorlessIff(p: seq<Point>, a: real, b: real)
    ensures Sse(p, a, b) == 0.0 <==> forall q :: q in p ==> q.y == a * q.x + b
  {
    if p != [] {
      ErrorlessIff(p[1..], a, b);
      SseNonNegative(p[1..], a, b);
      SquarePositive(Residual(p[0], a, b));
      assert forall q :: q in p <==> q == p[0] || q in p[1..];
      hide Times;
    }
  }

  lemma Proportion(part: real, whole: real)
    requires 0.0 <= part <= whole && whole > 0.0
    ensures 0.0 <= part / whole <= 1.0
  {
    var q := part / whole;
    assert q * whole == part;
    assert (1.0 - q) * whole == whole - part;
    FactorSign(q, whole);
    FactorSign(1.0 - q, whole);
  }

  // With too little spread to solve, the flat curve at the mean is returned; no other flat
  // curve has a smaller error.
  lemma FlatFallbackIsBestFlat(points: seq<(int, real)>, b: real)
    requires !SolveBranch(points) && Usable(points) != []
    ensures var p, fit := Usable(points), FitAmortizationCurve(points);
      fit.a == 0.0 && fit.r2 == 0.0 && Sse(p, 0.0, fit.b) <= Sse(p, 0.0, b)
  {
    hide Sse, SumY, SumYY, SumXY, SumXX, SumX, Det, SolvedA, SolvedB;
    var p, fit := Usable(points), FitAmortizationCurve(points);
    var n := |p| as real;
    FlatFallbackIsMean(points);
    SseExpands(p, 0.0, fit.b);
    SseExpands(p, 0.0, b);
    FlatIsMean(b, fit.b, SumY(p), n);
  }

  lemma FlatIsMean(b: real, mean: real, sy: real, n: real)
    requires n > 0.0 && mean * n == sy
    ensures n * b * b - 2.0 * b * sy >= n * mean * mean - 2.0 * mean * sy
  {
    var v := b - mean;
    SquarePositive(v);
    assert n * (v * v) >= 0.0;
    assert n * b * b == n * mean * mean + 2.0 * (v * (mean * n)) + n * (v * v);
    assert 2.0 * b * sy == 2.0 * mean * sy + 2.0 * (v * sy);
  }

  // Distinct concurrencies do not always reach the solve branch: neighbouring large ones fall
  // under the determinant threshold, and a curve through both points comes back flat.
  lemma NeighboursFallUnderThreshold()
    ensures var points := [(40000, 40001.0), (40001, 40000.0)];
      && (forall q :: q in Usable(points) ==> q.y == 1600040000.0 * q.x)
      && Det(Usable(points)) > 0.0 && !SolveBranch(points) && FitAmortizationCurve(points).a == 0.0
  {
    var points := [(40000, 40001.0), (40001, 40000.0)];
    var q, r := Point(1.0 / 40000.0, 40001.0), Point(1.0 / 40001.0, 40000.0);
    assert points[1..] == [(40001, 40000.0)];
    assert Usable(points[1..][1..]) == [];
    assert Usable(points[1..]) == [r];
    assert Usable(points) == [q, r];
    var p := [q, r];
    DetIsPairwiseSpread(p);
    assert p[1..] == [r];
    assert PairwiseSpread([r]) == 0.0;
    assert Spread(q.x, [r]) == (q.x - r.x) * (q.x - r.x);
    assert q.x - r.x == 1.0 / 1600040000.0;
    assert q in p && r in p;
  }
}
