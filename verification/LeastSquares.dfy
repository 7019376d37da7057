/**
  The leak detector's fit (scripts/soak/summarize.py,
  `linear_regression_slope`), over exact real numbers.
 */
module LeastSquares {
  import opened Options

  datatype Point = Point(x: real, y: real)

  function SumX(ps: seq<Point>): real { if ps == [] then 0.0 else ps[0].x + SumX(ps[1..]) }

  function SumY(ps: seq<Point>): real { if ps == [] then 0.0 else ps[0].y + SumY(ps[1..]) }

  /** Sum of `(x - mx) * (y - my)`. */
  function Cross(ps: seq<Point>, mx: real, my: real): real {
    if ps == [] then 0.0 else (ps[0].x - mx) * (ps[0].y - my) + Cross(ps[1..], mx, my)
  }

  function Square(r: real): real { r * r }

  /** Sum of `(x - mx)` squared. */
  function Spread(ps: seq<Point>, mx: real): real {
    if ps == [] then 0.0 else Square(ps[0].x - mx) + Spread(ps[1..], mx)
  }

  function MeanX(ps: seq<Point>): real
    requires ps != []
  {
    SumX(ps) / |ps| as real
  }

  function MeanY(ps: seq<Point>): real
    requires ps != []
  {
    SumY(ps) / |ps| as real
  }

  function Slope(ps: seq<Point>): Option<real> {
    if |ps| < 2 then None
    else
      var mx, my := MeanX(ps), MeanY(ps);
      if Spread(ps, mx) == 0.0 then None else Some(Cross(ps, mx, my) / Spread(ps, mx))
  }

  // ---- Facts about single numbers ----

  lemma Positive(k: real, r: real)
    requires k > 0.0 && r >= 0.0
    ensures if r == 0.0 then k * r == 0.0 else k * r > 0.0
  {
  }

  lemma PositiveSquare(d: real)
    requires d > 0.0
    ensures d * d > 0.0
  {
  }

  lemma NegativeSquare(d: real)
    requires d < 0.0
    ensures d * d > 0.0
  {
  }

  lemma NonZeroSquare(d: real)
    requires d != 0.0
    ensures Square(d) > 0.0
  {
    calc {
      Square(d);
    ==
      d * d;
    >  { if d > 0.0 { PositiveSquare(d); } else { NegativeSquare(d); } }
      0.0;
    }
  }

  lemma SquareSign(d: real)
    ensures if d == 0.0 then Square(d) == 0.0 else Square(d) > 0.0
  {
    if d != 0.0 {
      NonZeroSquare(d);
    }
  }

  lemma Cancel(n: real, x: real)
    requires n != 0.0
    ensures n * x / n == x
  {
  }

  lemma MeanTimes(sum: real, n: real)
    requires n != 0.0
    ensures n * (sum / n) == sum
  {
  }

  lemma ShiftedMean(sum: real, n: real, d: real)
    requires n != 0.0
    ensures (sum + n * d) / n == sum / n + d
  {
  }

  lemma SquareOfSum(u: real, v: real, a: real, d: real)
    ensures (u - a * v + d) * (u - a * v + d)
            == u * u - 2.0 * a * (v * u) + a * a * (v * v) + d * d + 2.0 * d * (u - a * v)
  {
    var w := u - a * v;
    assert (w + d) * (w + d) == w * w + 2.0 * d * w + d * d;
    assert w * w == u * u - 2.0 * a * (v * u) + a * a * (v * v) by {
      assert (a * v) * (a * v) == a * a * (v * v);
      assert u * (a * v) == a * (v * u);
    }
  }

  // ---- When there is a slope ----

  lemma {:induction false} SpreadZero(ps: seq<Point>, mx: real)
    ensures Spread(ps, mx) >= 0.0
    ensures Spread(ps, mx) == 0.0 <==> forall i | 0 <= i < |ps| :: ps[i].x == mx
  {
    if ps != [] {
      SpreadZero(ps[1..], mx);
      SquareSign(ps[0].x - mx);
      assert forall i | 1 <= i < |ps| :: ps[i] == ps[1..][i - 1];
      assert forall i | 0 <= i < |ps[1..]| :: ps[1..][i] == ps[i + 1];
      if ps[0].x == mx {
        assert ps[0].x - mx == 0.0;
      }
    }
  }

  lemma {:induction false} SumOfEqual(ps: seq<Point>, x: real)
    requires forall i | 0 <= i < |ps| :: ps[i].x == x
    ensures SumX(ps) == |ps| as real * x
  {
    if ps != [] {
      SumOfEqual(ps[1..], x);
    }
  }

  predicate TwoDistinctX(ps: seq<Point>) {
    exists i, j | 0 <= i < j < |ps| :: ps[i].x != ps[j].x
  }

  /** There is a slope exactly when two points differ in `x`. */
  lemma SlopeExists(ps: seq<Point>)
    ensures Slope(ps).Some? <==> TwoDistinctX(ps)
  {
    if |ps| >= 2 {
      SpreadZero(ps, MeanX(ps));
      if !TwoDistinctX(ps) {
        var x := ps[0].x;
        assert forall i | 0 <= i < |ps| :: ps[i].x == x;
        SumOfEqual(ps, x);
        Cancel(|ps| as real, x);
      }
    }
  }

  // ---- Optimality ----

  /** How far `p` is above the line `y = a x + c`. */
  function Residual(p: Point, a: real, c: real): real { p.y - a * p.x - c }

  /** Sum of squared residuals of the line `y = a x + c`. */
  function Residuals(ps: seq<Point>, a: real, c: real): real {
    if ps == [] then 0.0 else Square(Residual(ps[0], a, c)) + Residuals(ps[1..], a, c)
  }

  /** How far the centre is above the line. */
  function Miss(a: real, c: real, mx: real, my: real): real { my - a * mx - c }

  /** A residual seen from a centre the line misses by `d`. */
  function FromCentre(v: real, u: real, a: real, d: real): real { u - a * v + d }

  lemma SameResidual(p: Point, a: real, c: real, mx: real, my: real)
    ensures Residual(p, a, c) == FromCentre(p.x - mx, p.y - my, a, Miss(a, c, mx, my))
  {
  }

  /** The sums over some points taken around a centre. */
  datatype Sums = Sums(n: real, syy: real, sxy: real, sxx: real, ty: real, tx: real)

  /** One more point, at `(v, u)` from the centre. */
  function Add(s: Sums, v: real, u: real): Sums {
    Sums(s.n + 1.0, u * u + s.syy, v * u + s.sxy, v * v + s.sxx, u + s.ty, v + s.tx)
  }

  function Gather(ps: seq<Point>, mx: real, my: real): Sums {
    if ps == [] then Sums(0.0, 0.0, 0.0, 0.0, 0.0, 0.0)
    else Add(Gather(ps[1..], mx, my), ps[0].x - mx, ps[0].y - my)
  }

  /** The residuals of a line of slope `a` that misses the centre by `d`. */
  function Form(a: real, d: real, s: Sums): real {
    s.syy - 2.0 * a * s.sxy + a * a * s.sxx + s.n * (d * d) + 2.0 * d * (s.ty - a * s.tx)
  }

  lemma FormOfNothing(a: real, d: real)
    ensures Form(a, d, Sums(0.0, 0.0, 0.0, 0.0, 0.0, 0.0)) == 0.0
  {
  }

  lemma FormStep(v: real, u: real, a: real, d: real, s: Sums)
    ensures Square(FromCentre(v, u, a, d)) + Form(a, d, s) == Form(a, d, Add(s, v, u))
  {
    SquareOfSum(u, v, a, d);
  }

  /** The residuals of any line, written around any centre `(mx, my)`. */
  lemma {:induction false} Expand(ps: seq<Point>, a: real, c: real, mx: real, my: real)
    ensures Residuals(ps, a, c) == Form(a, Miss(a, c, mx, my), Gather(ps, mx, my))
  {
    hide Form, Square, Add, Residual, Miss, FromCentre;
    if ps == [] {
      FormOfNothing(a, Miss(a, c, mx, my));
    } else {
      Expand(ps[1..], a, c, mx, my);
      SameResidual(ps[0], a, c, mx, my);
      FormStep(ps[0].x - mx, ps[0].y - my, a, Miss(a, c, mx, my), Gather(ps[1..], mx, my));
    }
  }

  lemma OneMore(sum: real, first: real, n: real, m: real)
    ensures (first + sum) - (n + 1.0) * m == (first - m) + (sum - n * m)
  {
  }

  lemma {:induction false} GatherSpreads(ps: seq<Point>, mx: real, my: real)
    ensures Gather(ps, mx, my).sxy == Cross(ps, mx, my) && Gather(ps, mx, my).sxx == Spread(ps, mx)
  {
    if ps != [] {
      GatherSpreads(ps[1..], mx, my);
    }
  }

  lemma AddTotals(s: Sums, v: real, u: real)
    ensures var g := Add(s, v, u); g.n == s.n + 1.0 && g.ty == u + s.ty && g.tx == v + s.tx
  {
  }

  lemma {:induction false} GatherTotals(ps: seq<Point>, mx: real, my: real)
    ensures var g := Gather(ps, mx, my);
            && g.n == |ps| as real
            && g.ty == SumY(ps) - g.n * my && g.tx == SumX(ps) - g.n * mx
  {
    hide Add;
    if ps != [] {
      GatherTotals(ps[1..], mx, my);
      AddTotals(Gather(ps[1..], mx, my), ps[0].x - mx, ps[0].y - my);
      var n := |ps[1..]| as real;
      OneMore(SumY(ps[1..]), ps[0].y, n, my);
      OneMore(SumX(ps[1..]), ps[0].x, n, mx);
    }
  }

  /** Around the means the mixed terms vanish. */
  lemma GatherAtMeans(ps: seq<Point>)
    requires ps != []
    ensures var g := Gather(ps, MeanX(ps), MeanY(ps));
            && g.n == |ps| as real && g.ty == 0.0 && g.tx == 0.0
            && g.sxy == Cross(ps, MeanX(ps), MeanY(ps)) && g.sxx == Spread(ps, MeanX(ps))
  {
    hide Gather, Cross, Spread, SumX, SumY;
    GatherTotals(ps, MeanX(ps), MeanY(ps));
    GatherSpreads(ps, MeanX(ps), MeanY(ps));
    MeanTimes(SumX(ps), |ps| as real);
    MeanTimes(SumY(ps), |ps| as real);
  }

  /** Between two lines, one of which goes through the centre with the best slope. */
  lemma FormGap(a: real, d: real, best: real, s: Sums)
    requires s.ty == 0.0 && s.tx == 0.0 && s.sxy == best * s.sxx
    ensures Form(a, d, s) - Form(best, 0.0, s) == s.sxx * Square(a - best) + s.n * Square(d)
  {
    assert s.sxx * Square(a - best) == s.sxx * (a * a) - 2.0 * a * (best * s.sxx) + best * (best * s.sxx);
  }

  lemma GapSign(sxx: real, n: real, e: real, d: real)
    requires sxx > 0.0 && n > 0.0
    ensures var gap := sxx * Square(e) + n * Square(d);
            gap >= 0.0 && (gap == 0.0 <==> e == 0.0 && d == 0.0)
  {
    SquareSign(e);
    SquareSign(d);
    Positive(sxx, Square(e));
    Positive(n, Square(d));
  }

  function Intercept(ps: seq<Point>): real
    requires Slope(ps).Some?
  {
    MeanY(ps) - Slope(ps).value * MeanX(ps)
  }

  /**
    The slope is the least-squares one: with its intercept, no line has a
    smaller sum of squared residuals, and no other line has an equal one.
   */
  lemma SlopeIsOptimal(ps: seq<Point>, a: real, c: real)
    requires Slope(ps).Some?
    ensures var s, b := Slope(ps).value, Intercept(ps);
            && Residuals(ps, s, b) <= Residuals(ps, a, c)
            && (Residuals(ps, s, b) == Residuals(ps, a, c) <==> a == s && c == b)
  {
    hide Residuals, Gather, Form, Miss, Cross, Spread, MeanX, MeanY;
    var mx, my, s, b := MeanX(ps), MeanY(ps), Slope(ps).value, Intercept(ps);
    SpreadZero(ps, mx);
    GatherAtMeans(ps);
    MeanTimes(Cross(ps, mx, my), Spread(ps, mx));
    Expand(ps, a, c, mx, my);
    Expand(ps, s, b, mx, my);
    Conclude(a, c, s, b, mx, my, Gather(ps, mx, my));
  }

  lemma Conclude(a: real, c: real, s: real, b: real, mx: real, my: real, g: Sums)
    requires b == my - s * mx
    requires g.ty == 0.0 && g.tx == 0.0 && g.sxy == s * g.sxx && g.sxx > 0.0 && g.n > 0.0
    ensures var best, other := Form(s, Miss(s, b, mx, my), g), Form(a, Miss(a, c, mx, my), g);
            best <= other && (best == other <==> a == s && c == b)
  {
    assert Miss(s, b, mx, my) == 0.0;
    FormGap(a, Miss(a, c, mx, my), s, g);
    GapSign(g.sxx, g.n, a - s, Miss(a, c, mx, my));
  }

  // ---- Points on a line ----

  lemma {:induction false} NoResidualsOnALine(ps: seq<Point>, a: real, c: real)
    requires forall i | 0 <= i < |ps| :: ps[i].y == a * ps[i].x + c
    ensures Residuals(ps, a, c) == 0.0
  {
    if ps != [] {
      assert forall i | 0 <= i < |ps[1..]| :: ps[1..][i] == ps[i + 1];
      NoResidualsOnALine(ps[1..], a, c);
      assert Residual(ps[0], a, c) == 0.0;
    }
  }

  lemma {:induction false} ResidualsNonNegative(ps: seq<Point>, a: real, c: real)
    ensures Residuals(ps, a, c) >= 0.0
  {
    if ps != [] {
      ResidualsNonNegative(ps[1..], a, c);
      SquareSign(Residual(ps[0], a, c));
    }
  }

  /** Points on a line give that line's slope. */
  lemma RecoversALine(ps: seq<Point>, a: real, c: real)
    requires Slope(ps).Some? && forall i | 0 <= i < |ps| :: ps[i].y == a * ps[i].x + c
    ensures Slope(ps).value == a
  {
    NoResidualsOnALine(ps, a, c);
    ResidualsNonNegative(ps, Slope(ps).value, Intercept(ps));
    SlopeIsOptimal(ps, a, c);
  }

  // ---- Shifts ----

  function Shift(ps: seq<Point>, dx: real, dy: real): (r: seq<Point>)
    ensures |r| == |ps|
  {
    if ps == [] then [] else [Point(ps[0].x + dx, ps[0].y + dy)] + Shift(ps[1..], dx, dy)
  }

  lemma {:induction false} ShiftSums(ps: seq<Point>, dx: real, dy: real)
    ensures SumX(Shift(ps, dx, dy)) == SumX(ps) + |ps| as real * dx
    ensures SumY(Shift(ps, dx, dy)) == SumY(ps) + |ps| as real * dy
  {
    if ps != [] {
      ShiftSums(ps[1..], dx, dy);
      assert Shift(ps, dx, dy)[1..] == Shift(ps[1..], dx, dy);
      var n := |ps[1..]| as real;
      assert (n + 1.0) * dx == n * dx + dx && (n + 1.0) * dy == n * dy + dy;
    }
  }

  lemma ShiftMeans(ps: seq<Point>, dx: real, dy: real)
    requires ps != []
    ensures MeanX(Shift(ps, dx, dy)) == MeanX(ps) + dx && MeanY(Shift(ps, dx, dy)) == MeanY(ps) + dy
  {
    hide SumX, SumY, Shift;
    ShiftSums(ps, dx, dy);
    assert |Shift(ps, dx, dy)| == |ps|;
    ShiftedMean(SumX(ps), |ps| as real, dx);
    ShiftedMean(SumY(ps), |ps| as real, dy);
  }

  lemma {:induction false} ShiftSpreads(ps: seq<Point>, dx: real, dy: real, mx: real, my: real)
    ensures Cross(Shift(ps, dx, dy), mx + dx, my + dy) == Cross(ps, mx, my)
    ensures Spread(Shift(ps, dx, dy), mx + dx) == Spread(ps, mx)
  {
    if ps != [] {
      ShiftSpreads(ps[1..], dx, dy, mx, my);
      var shifted := Shift(ps, dx, dy);
      assert shifted[1..] == Shift(ps[1..], dx, dy);
      assert shifted[0].x - (mx + dx) == ps[0].x - mx && shifted[0].y - (my + dy) == ps[0].y - my;
    }
  }

  function Quotient(cross: real, spread: real): Option<real> {
    if spread == 0.0 then None else Some(cross / spread)
  }

  lemma SlopeOf(ps: seq<Point>)
    requires |ps| >= 2
    ensures Slope(ps) == Quotient(Cross(ps, MeanX(ps), MeanY(ps)), Spread(ps, MeanX(ps)))
  {
  }

  /** Moving all points leaves the slope alone. */
  lemma SlopeUnmoved(ps: seq<Point>, dx: real, dy: real)
    ensures Slope(Shift(ps, dx, dy)) == Slope(ps)
  {
    if |ps| >= 2 {
      hide MeanX, MeanY, Cross, Spread, Slope, Quotient;
      var shifted := Shift(ps, dx, dy);
      ShiftMeans(ps, dx, dy);
      ShiftSpreads(ps, dx, dy, MeanX(ps), MeanY(ps));
      SlopeOf(ps);
      SlopeOf(shifted);
    }
  }
}
