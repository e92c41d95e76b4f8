/**
 Ordinary least squares of y against x = 0, 1, ..., n-1, as
 LinearRegression().fit(np.arange(n).reshape(-1, 1), y) computes it, in
 closed form: slope = (n*Sxy - Sx*Sy) / (n*Sxx - Sx^2) and
 intercept = (Sy - slope*Sx) / n. With a single point the denominator is 0
 and the least-norm solution has slope 0.

 Sums are taken over whole columns built pointwise, so that every step of
 algebra happens at a single index. Linear combinations of sums are written
 with Combine and the determinant with Disc, so that facts proved about them
 in one lemma are recognised as such in the next.
 */
module Ols {
  import opened Stats

  // ---------------------------------------------------------------------
  // Pointwise columns and their sums

  /** The regressor column 0, 1, ..., n-1. */
  function Xs(n: int): (xs: seq<real>)
    requires n >= 0
    ensures |xs| == n
  {
    seq(n, i requires 0 <= i < n => i as real)
  }

  function Add(u: seq<real>, v: seq<real>): (w: seq<real>)
    requires |u| == |v|
    ensures |w| == |u|
  {
    seq(|u|, i requires 0 <= i < |u| => u[i] + v[i])
  }

  function Sub(u: seq<real>, v: seq<real>): (w: seq<real>)
    requires |u| == |v|
    ensures |w| == |u|
  {
    seq(|u|, i requires 0 <= i < |u| => u[i] - v[i])
  }

  function Scale(c: real, u: seq<real>): (w: seq<real>)
    ensures |w| == |u|
  {
    seq(|u|, i requires 0 <= i < |u| => c * u[i])
  }

  function Mul(u: seq<real>, v: seq<real>): (w: seq<real>)
    requires |u| == |v|
    ensures |w| == |u|
  {
    seq(|u|, i requires 0 <= i < |u| => u[i] * v[i])
  }

  lemma {:induction false} SumAdd(u: seq<real>, v: seq<real>)
    requires |u| == |v|
    ensures Sum(Add(u, v)) == Sum(u) + Sum(v)
    decreases |u|
  {
    if |u| > 0 {
      var k := |u| - 1;
      SumAdd(u[..k], v[..k]);
      assert Add(u, v)[..k] == Add(u[..k], v[..k]);
    }
  }

  lemma {:induction false} SumSub(u: seq<real>, v: seq<real>)
    requires |u| == |v|
    ensures Sum(Sub(u, v)) == Sum(u) - Sum(v)
    decreases |u|
  {
    if |u| > 0 {
      var k := |u| - 1;
      SumSub(u[..k], v[..k]);
      assert Sub(u, v)[..k] == Sub(u[..k], v[..k]);
    }
  }

  lemma {:induction false} SumScale(c: real, u: seq<real>)
    ensures Sum(Scale(c, u)) == c * Sum(u)
    decreases |u|
  {
    if |u| > 0 {
      var k := |u| - 1;
      SumScale(c, u[..k]);
      forall i | 0 <= i < k
        ensures Scale(c, u)[..k][i] == Scale(c, u[..k])[i]
      {
        assert u[..k][i] == u[i];
      }
      assert Scale(c, u)[..k] == Scale(c, u[..k]);
      Distribute(c, Sum(u[..k]), u[k]);
    }
  }

  lemma Distribute(c: real, a: real, b: real)
    ensures c * a + c * b == c * (a + b)
  {
  }

  lemma {:induction false} SumSquaresNonNegative(u: seq<real>)
    ensures Sum(Mul(u, u)) >= 0.0
    decreases |u|
  {
    if |u| > 0 {
      var k := |u| - 1;
      SumSquaresNonNegative(u[..k]);
      MulPrefix(u, u, k);
      SquareNonNegative(u[k]);
    }
  }

  lemma MulPrefix(u: seq<real>, v: seq<real>, k: nat)
    requires |u| == |v| && k <= |u|
    ensures Mul(u, v)[..k] == Mul(u[..k], v[..k])
  {
    forall i | 0 <= i < k
      ensures Mul(u, v)[..k][i] == Mul(u[..k], v[..k])[i]
    {
      assert u[..k][i] == u[i] && v[..k][i] == v[i];
    }
  }

  lemma SquareNonNegative(x: real)
    ensures x * x >= 0.0
  {
  }

  lemma XsStep(n: nat)
    requires n > 0
    ensures Xs(n)[..n - 1] == Xs(n - 1)
    ensures Mul(Xs(n), Xs(n))[..n - 1] == Mul(Xs(n - 1), Xs(n - 1))
  {
    var xs, xs' := Xs(n), Xs(n - 1);
    assert xs[..n - 1] == xs';
    forall i | 0 <= i < n - 1
      ensures Mul(xs, xs)[..n - 1][i] == Mul(xs', xs')[i]
    {
      assert xs[i] == xs'[i];
    }
  }

  // ---------------------------------------------------------------------
  // The fit

  function SumX(n: int): real
    requires n >= 0
  {
    Sum(Xs(n))
  }

  function SumXX(n: int): real
    requires n >= 0
  {
    Sum(Mul(Xs(n), Xs(n)))
  }

  function SumXY(ys: seq<real>): real {
    Sum(Mul(ys, Xs(|ys|)))
  }

  datatype Line = Line(intercept: real, slope: real)

  function Predict(m: Line, x: real): real {
    m.intercept + m.slope * x
  }

  /** The line's value at x = 0, 1, ..., n-1. */
  function Predictions(m: Line, n: int): (ps: seq<real>)
    requires n >= 0
    ensures |ps| == n
  {
    seq(n, i requires 0 <= i < n => Predict(m, i as real))
  }

  /** intercept*s0 + slope*s1: the line summed against the weights whose sum is s0 and whose x-weighted sum is s1. */
  function Combine(m: Line, s0: real, s1: real): real {
    m.intercept * s0 + m.slope * s1
  }

  /** n*Sxx - Sx^2, the determinant of the normal equations. */
  function Disc(n: real, sx: real, sxx: real): real {
    n * sxx - sx * sx
  }

  function Det(n: int): real
    requires n >= 0
  {
    Disc(n as real, SumX(n), SumXX(n))
  }

  /** The line given by the closed-form solution, from the count and the four sums. */
  function Solve(n: real, sx: real, sxx: real, sy: real, sxy: real): Line
    requires n > 0.0
  {
    var d := Disc(n, sx, sxx);
    var slope := if d == 0.0 then 0.0 else (n * sxy - sx * sy) / d;
    Line((sy - slope * sx) / n, slope)
  }

  /** The least-squares line through (i, ys[i]). */
  function Fit(ys: seq<real>): Line
    requires |ys| >= 1
  {
    Solve(|ys| as real, SumX(|ys|), SumXX(|ys|), Sum(ys), SumXY(ys))
  }

  /** The solution satisfies both normal equations whenever they have a unique solution or all x-sums vanish. */
  lemma SolveNormal(n: real, sx: real, sxx: real, sy: real, sxy: real, m: Line)
    requires n > 0.0 && m == Solve(n, sx, sxx, sy, sxy)
    requires Disc(n, sx, sxx) != 0.0 || (sx == 0.0 && sxx == 0.0 && sxy == 0.0)
    ensures Combine(m, n, sx) == sy
    ensures Combine(m, sx, sxx) == sxy
  {
    var a, b := m.intercept, m.slope;
    assert a * n == sy - b * sx;
    if Disc(n, sx, sxx) != 0.0 {
      var d := n * sxx - sx * sx;
      assert b * d == n * sxy - sx * sy;
      assert n * (a * sx + b * sxx) == (sy - b * sx) * sx + b * n * sxx;
      assert (sy - b * sx) * sx + b * n * sxx == sy * sx + b * d;
      assert n * (a * sx + b * sxx) == n * sxy;
    }
  }

  /** Sums that come from the line a + b*x, with a unique solution, give back that line. */
  lemma SolveExact(n: real, sx: real, sxx: real, sy: real, sxy: real, l: Line)
    requires n > 0.0 && Disc(n, sx, sxx) != 0.0
    requires sy == Combine(l, n, sx) && sxy == Combine(l, sx, sxx)
    ensures Solve(n, sx, sxx, sy, sxy) == l
  {
    var a, b := l.intercept, l.slope;
    var d := n * sxx - sx * sx;
    assert n * sxy - sx * sy == b * d;
    assert (sy - b * sx) / n == a;
  }

  // ---------------------------------------------------------------------
  // Closed forms

  lemma {:induction false} SumXClosed(n: nat)
    ensures 2.0 * SumX(n) == (n * (n - 1)) as real
    decreases n
  {
    if n > 0 {
      SumXClosed(n - 1);
      XsStep(n);
    }
  }

  lemma {:induction false} SumXXClosed(n: nat)
    ensures 6.0 * SumXX(n) == ((n - 1) * n * (2 * n - 1)) as real
    decreases n
  {
    if n > 0 {
      SumXXClosed(n - 1);
      XsStep(n);
      var sq := (n - 1) as real * (n - 1) as real;
      assert SumXX(n) == SumXX(n - 1) + sq;
      CastSquare(n - 1);
      CubeStep(n);
      SumStep(SumXX(n - 1), SumXX(n), sq, (n - 2) * (n - 1) * (2 * n - 3), (n - 1) * (n - 1), (n - 1) * n * (2 * n - 1));
    }
  }

  lemma SumStep(s0: real, s: real, sq: real, a: int, b: int, c: int)
    requires 6.0 * s0 == a as real && s == s0 + sq && sq == b as real && a + 6 * b == c
    ensures 6.0 * s == c as real
  {
  }

  lemma CastSquare(k: nat)
    ensures (k * k) as real == k as real * k as real
  {
  }

  lemma CubeStep(n: int)
    requires n >= 1
    ensures (n - 2) * (n - 1) * (2 * n - 3) + 6 * ((n - 1) * (n - 1)) == (n - 1) * n * (2 * n - 1)
  {
    var m := n - 1;
    assert (m - 1) * m * (2 * m - 1) + 6 * (m * m) == m * (m + 1) * (2 * m + 1);
  }

  /** 12 * (n*Sxx - Sx^2) == n^2 (n-1)(n+1): the fit has a unique line exactly when n >= 2. */
  lemma DetClosed(n: nat)
    ensures 12.0 * Det(n) == (n * n * (n - 1) * (n + 1)) as real
    ensures Det(n) > 0.0 <==> n >= 2
    ensures Det(n) == 0.0 <==> n <= 1
  {
    DetTimesTwelve(n);
    QuarticSign(n);
  }

  lemma DetTimesTwelve(n: nat)
    ensures 12.0 * Det(n) == (n * n * (n - 1) * (n + 1)) as real
  {
    SumXClosed(n);
    SumXXClosed(n);
    DetPolynomial(n);
    var sx, sxx := SumX(n), SumXX(n);
    DetScale(n as real, sx, sxx, (n * (n - 1)) as real, ((n - 1) * n * (2 * n - 1)) as real);
    CastPolynomial(n);
  }

  lemma QuarticSign(n: nat)
    ensures n * n * (n - 1) * (n + 1) > 0 <==> n >= 2
    ensures n * n * (n - 1) * (n + 1) == 0 <==> n <= 1
  {
    if n >= 2 {
      PositiveProduct(n * n, (n - 1) * (n + 1));
    }
  }

  lemma DetScale(n: real, sx: real, sxx: real, p: real, q: real)
    requires 2.0 * sx == p && 6.0 * sxx == q
    ensures 12.0 * Disc(n, sx, sxx) == 2.0 * n * q - 3.0 * p * p
  {
  }

  lemma CastPolynomial(n: nat)
    ensures 2.0 * n as real * ((n - 1) * n * (2 * n - 1)) as real
            - 3.0 * (n * (n - 1)) as real * (n * (n - 1)) as real
         == (2 * n * ((n - 1) * n * (2 * n - 1)) - 3 * (n * (n - 1)) * (n * (n - 1))) as real
  {
  }

  lemma DetPolynomial(n: int)
    ensures 2 * n * ((n - 1) * n * (2 * n - 1)) - 3 * (n * (n - 1)) * (n * (n - 1))
         == n * n * (n - 1) * (n + 1)
  {
  }

  lemma PositiveProduct(a: int, b: int)
    requires a > 0 && b > 0
    ensures a * b > 0
  {
  }

  lemma DetPositive(n: int)
    requires n >= 2
    ensures Det(n) > 0.0
  {
    DetClosed(n);
  }

  // ---------------------------------------------------------------------
  // Sums over a line

  /** The values of a line at 0..n-1 sum to n*intercept + slope*Sx. */
  lemma {:induction false} SumPredictions(m: Line, n: int)
    requires n >= 0
    ensures Sum(Predictions(m, n)) == Combine(m, n as real, SumX(n))
    decreases n
  {
    if n > 0 {
      SumPredictions(m, n - 1);
      assert Predictions(m, n)[..n - 1] == Predictions(m, n - 1);
      XsStep(n);
      CombineStep(m, (n - 1) as real, SumX(n - 1), (n - 1) as real, n as real, SumX(n));
    }
  }

  lemma CombineStep(m: Line, s0: real, s1: real, x: real, t0: real, t1: real)
    requires t0 == s0 + 1.0 && t1 == s1 + x
    ensures Combine(m, t0, t1) == Combine(m, s0, s1) + Predict(m, x)
  {
  }

  /** Sum of u weighted by a line: intercept * Sum(u) + slope * Sum(u*x). */
  lemma {:induction false} SumWeighted(m: Line, u: seq<real>)
    ensures Sum(Mul(Predictions(m, |u|), u)) == Combine(m, Sum(u), Sum(Mul(u, Xs(|u|))))
    decreases |u|
  {
    if |u| > 0 {
      var k := |u| - 1;
      var ps, xs := Predictions(m, |u|), Xs(|u|);
      SumWeighted(m, u[..k]);
      MulPrefix(ps, u, k);
      MulPrefix(u, xs, k);
      assert ps[..k] == Predictions(m, k);
      assert xs[..k] == Xs(k);
      WeightedStep(m, u, Sum(u[..k]), Sum(Mul(u[..k], Xs(k))), Sum(u), Sum(Mul(u, xs)));
    }
  }

  lemma WeightedStep(m: Line, u: seq<real>, s0: real, s1: real, t0: real, t1: real)
    requires |u| > 0
    requires t0 == s0 + u[|u| - 1] && t1 == s1 + Mul(u, Xs(|u|))[|u| - 1]
    ensures Combine(m, t0, t1) == Combine(m, s0, s1) + Mul(Predictions(m, |u|), u)[|u| - 1]
  {
    var k := |u| - 1;
    var w, x := u[k], k as real;
    assert Mul(u, Xs(|u|))[k] == w * x;
    assert Mul(Predictions(m, |u|), u)[k] == (m.intercept + m.slope * x) * w;
  }

  /** Sum of a line times x: intercept * Sx + slope * Sxx. */
  lemma SumXPredictions(m: Line, n: int)
    requires n >= 0
    ensures Sum(Mul(Predictions(m, n), Xs(n))) == Combine(m, SumX(n), SumXX(n))
  {
    SumWeighted(m, Xs(n));
  }

  // ---------------------------------------------------------------------
  // Residuals, normal equations and optimality

  /** ys[i] - (intercept + slope*i) for every row. */
  function Residuals(ys: seq<real>, m: Line): (rs: seq<real>)
    ensures |rs| == |ys|
  {
    Sub(ys, Predictions(m, |ys|))
  }

  /** The sum of squared residuals. */
  function Sse(ys: seq<real>, m: Line): real {
    Sum(Mul(Residuals(ys, m), Residuals(ys, m)))
  }

  /** The residuals of a line sum to Sy - (n*intercept + slope*Sx). */
  lemma ResidualSum(ys: seq<real>, m: Line)
    ensures Sum(Residuals(ys, m)) == Sum(ys) - Combine(m, |ys| as real, SumX(|ys|))
  {
    SumSub(ys, Predictions(m, |ys|));
    SumPredictions(m, |ys|);
  }

  /** The residuals weighted by x sum to Sxy - (intercept*Sx + slope*Sxx). */
  lemma WeightedResidualSum(ys: seq<real>, m: Line)
    ensures Sum(Mul(Residuals(ys, m), Xs(|ys|))) == SumXY(ys) - Combine(m, SumX(|ys|), SumXX(|ys|))
  {
    var xs, ps := Xs(|ys|), Predictions(m, |ys|);
    MulSub(ys, ps, xs);
    SumSub(Mul(ys, xs), Mul(ps, xs));
    SumXPredictions(m, |ys|);
  }

  lemma MulSub(u: seq<real>, v: seq<real>, w: seq<real>)
    requires |u| == |v| == |w|
    ensures Mul(Sub(u, v), w) == Sub(Mul(u, w), Mul(v, w))
  {
    forall i | 0 <= i < |u|
      ensures Mul(Sub(u, v), w)[i] == Sub(Mul(u, w), Mul(v, w))[i]
    {
      assert (u[i] - v[i]) * w[i] == u[i] * w[i] - v[i] * w[i];
    }
  }

  lemma SingleRowSums(ys: seq<real>)
    requires |ys| == 1
    ensures SumX(|ys|) == 0.0 && SumXX(|ys|) == 0.0 && SumXY(ys) == 0.0
  {
    assert Xs(1) == [0.0];
    assert Mul(Xs(1), Xs(1)) == [0.0];
    assert Mul(ys, Xs(1)) == [0.0];
  }

  /** The fitted line solves both normal equations. */
  lemma NormalEquations(ys: seq<real>)
    requires |ys| >= 1
    ensures Combine(Fit(ys), |ys| as real, SumX(|ys|)) == Sum(ys)
    ensures Combine(Fit(ys), SumX(|ys|), SumXX(|ys|)) == SumXY(ys)
  {
    if |ys| == 1 {
      SingleRowSums(ys);
      SolveNormal(|ys| as real, SumX(|ys|), SumXX(|ys|), Sum(ys), SumXY(ys), Fit(ys));
    } else {
      DetPositive(|ys|);
      SolveNormal(|ys| as real, SumX(|ys|), SumXX(|ys|), Sum(ys), SumXY(ys), Fit(ys));
    }
  }

  /** The residuals of the fitted line sum to zero, and so do they weighted by x. */
  lemma ResidualsBalance(ys: seq<real>)
    requires |ys| >= 1
    ensures Sum(Residuals(ys, Fit(ys))) == 0.0
    ensures Sum(Mul(Residuals(ys, Fit(ys)), Xs(|ys|))) == 0.0
  {
    NormalEquations(ys);
    ResidualSum(ys, Fit(ys));
    WeightedResidualSum(ys, Fit(ys));
  }

  lemma CombineZero(l: Line)
    ensures Combine(l, 0.0, 0.0) == 0.0
  {
  }

  /** The residuals of the fit are orthogonal to every line. */
  lemma Orthogonal(ys: seq<real>, l: Line)
    requires |ys| >= 1
    ensures Sum(Mul(Predictions(l, |ys|), Residuals(ys, Fit(ys)))) == 0.0
  {
    var r := Residuals(ys, Fit(ys));
    ResidualsBalance(ys);
    SumWeighted(l, r);
    CombineZero(l);
  }

  /** Moving a line by e changes each residual r into r - e. */
  lemma ShiftResiduals(ys: seq<real>, m: Line, e: Line)
    ensures Residuals(ys, Line(m.intercept + e.intercept, m.slope + e.slope))
         == Sub(Residuals(ys, m), Predictions(e, |ys|))
  {
    var m' := Line(m.intercept + e.intercept, m.slope + e.slope);
    forall i | 0 <= i < |ys|
      ensures Residuals(ys, m')[i] == Sub(Residuals(ys, m), Predictions(e, |ys|))[i]
    {
      var x := i as real;
      assert Predict(m', x) == Predict(m, x) + Predict(e, x);
    }
  }

  /** The sum of squares of r - p: that of r, minus twice the cross term, plus that of p. */
  lemma SquareOfDifference(r: seq<real>, p: seq<real>)
    requires |r| == |p|
    ensures Sum(Mul(Sub(r, p), Sub(r, p))) == Sum(Mul(r, r)) + (-2.0 * Sum(Mul(p, r)) + Sum(Mul(p, p)))
  {
    var d := Sub(r, p);
    var expanded := Add(Mul(r, r), Add(Scale(-2.0, Mul(p, r)), Mul(p, p)));
    forall i | 0 <= i < |r|
      ensures Mul(d, d)[i] == expanded[i]
    {
      assert (r[i] - p[i]) * (r[i] - p[i]) == r[i] * r[i] + (-2.0 * (p[i] * r[i]) + p[i] * p[i]);
    }
    assert Mul(d, d) == expanded;
    SumAdd(Mul(r, r), Add(Scale(-2.0, Mul(p, r)), Mul(p, p)));
    SumAdd(Scale(-2.0, Mul(p, r)), Mul(p, p));
    SumScale(-2.0, Mul(p, r));
  }

  /** The squared error after a move by e: old error - 2*cross term + the move's own square. */
  lemma SseShift(ys: seq<real>, m: Line, e: Line)
    ensures var p := Predictions(e, |ys|);
      Sse(ys, Line(m.intercept + e.intercept, m.slope + e.slope))
      == Sse(ys, m) + (-2.0 * Sum(Mul(p, Residuals(ys, m))) + Sum(Mul(p, p)))
  {
    ShiftResiduals(ys, m, e);
    SquareOfDifference(Residuals(ys, m), Predictions(e, |ys|));
  }

  /** No line has a smaller sum of squared residuals than the fitted one. */
  lemma LeastSquares(ys: seq<real>, other: Line)
    requires |ys| >= 1
    ensures Sse(ys, Fit(ys)) <= Sse(ys, other)
  {
    var m := Fit(ys);
    var e := Line(other.intercept - m.intercept, other.slope - m.slope);
    var p := Predictions(e, |ys|);
    SseShift(ys, m, e);
    assert Line(m.intercept + e.intercept, m.slope + e.slope) == other;
    Orthogonal(ys, e);
    SumSquaresNonNegative(p);
  }

  /** A sum of squares is zero only when every term is zero. */
  lemma {:induction false} SumSquaresZero(u: seq<real>)
    requires Sum(Mul(u, u)) == 0.0
    ensures forall i :: 0 <= i < |u| ==> u[i] == 0.0
    decreases |u|
  {
    if |u| > 0 {
      var k := |u| - 1;
      MulPrefix(u, u, k);
      SumSquaresNonNegative(u[..k]);
      SquareNonNegative(u[k]);
      ProductZero(u[k], u[k]);
      SumSquaresZero(u[..k]);
      assert forall i :: 0 <= i < k ==> u[..k][i] == u[i];
    }
  }

  lemma ProductZero(a: real, b: real)
    requires a * b == 0.0
    ensures a == 0.0 || b == 0.0
  {
  }

  /** With at least two rows, a line whose squared error is no larger than the fit's is the fit itself. */
  lemma FitUnique(ys: seq<real>, m: Line)
    requires |ys| >= 2 && Sse(ys, m) <= Sse(ys, Fit(ys))
    ensures m == Fit(ys)
  {
    var f := Fit(ys);
    var e := Line(m.intercept - f.intercept, m.slope - f.slope);
    var p := Predictions(e, |ys|);
    SseShift(ys, f, e);
    assert Line(f.intercept + e.intercept, f.slope + e.slope) == m;
    Orthogonal(ys, e);
    SumSquaresNonNegative(p);
    SumSquaresZero(p);
    assert p[0] == e.intercept && p[1] == e.intercept + e.slope;
  }

  // ---------------------------------------------------------------------
  // Exact lines

  /** Closes on a line have the sums of that line. */
  lemma LineSums(ys: seq<real>, l: Line)
    requires forall i :: 0 <= i < |ys| ==> ys[i] == Predict(l, i as real)
    ensures Sum(ys) == Combine(l, |ys| as real, SumX(|ys|))
    ensures SumXY(ys) == Combine(l, SumX(|ys|), SumXX(|ys|))
  {
    assert ys == Predictions(l, |ys|);
    SumPredictions(l, |ys|);
    SumXPredictions(l, |ys|);
  }

  /** Closes lying exactly on a line (at least two of them) are fitted by that very line. */
  lemma ExactLine(ys: seq<real>, l: Line)
    requires |ys| >= 2
    requires forall i :: 0 <= i < |ys| ==> ys[i] == Predict(l, i as real)
    ensures Fit(ys) == l
  {
    LineSums(ys, l);
    DetPositive(|ys|);
    SolveExact(|ys| as real, SumX(|ys|), SumXX(|ys|), Sum(ys), SumXY(ys), l);
  }
}
