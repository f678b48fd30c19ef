// The delay-against-position fit and the flagging of surprising stops:
// scripts/export-site.ts. Over exact reals; the residual standard deviation is
// a parameter constrained by its square.
module Regression {
  // A fitted stop: position along the route in 0..1, and mean delay.
  datatype Stop = Stop(x: real, y: real)

  function Sum(stops: seq<Stop>, f: Stop -> real): real {
    if stops == [] then 0.0 else Sum(stops[..|stops| - 1], f) + f(stops[|stops| - 1])
  }

  function Mean(stops: seq<Stop>, f: Stop -> real): real
    requires stops != []
  {
    Sum(stops, f) / |stops| as real
  }

  datatype Line = Line(intercept: real, slope: real) {
    function At(x: real): real { intercept + slope * x }
  }

  function Residual(line: Line, stop: Stop): real {
    stop.y - line.At(stop.x)
  }

  function SquareOf(a: real): real { a * a }

  function SquaredError(stops: seq<Stop>, line: Line): real {
    Sum(stops, (s: Stop) => SquareOf(Residual(line, s)))
  }

  function XBar(stops: seq<Stop>): real
    requires stops != []
  {
    Mean(stops, (s: Stop) => s.x)
  }

  function YBar(stops: seq<Stop>): real
    requires stops != []
  {
    Mean(stops, (s: Stop) => s.y)
  }

  function CrossTerm(s: Stop, xBar: real, yBar: real): real {
    (s.x - xBar) * (s.y - yBar)
  }

  function Num(stops: seq<Stop>, xBar: real, yBar: real): real {
    Sum(stops, (s: Stop) => CrossTerm(s, xBar, yBar))
  }

  function Den(stops: seq<Stop>, xBar: real): real {
    Sum(stops, (s: Stop) => SquareOf(s.x - xBar))
  }

  // Below four fitted stops the trend is left at zero.
  function Fit(stops: seq<Stop>): Line {
    if |stops| < 4 then Line(0.0, 0.0)
    else
      var xBar, yBar := XBar(stops), YBar(stops);
      var num, den := Num(stops, xBar, yBar), Den(stops, xBar);
      var slope := if den > 0.0 then num / den else 0.0;
      Line(yBar - slope * xBar, slope)
  }

  // -- Sums -----------------------------------------------------------------------

  lemma {:induction false} SumOfSum(stops: seq<Stop>, f: Stop -> real, g: Stop -> real, h: Stop -> real)
    requires forall s | s in stops :: h(s) == f(s) + g(s)
    ensures Sum(stops, h) == Sum(stops, f) + Sum(stops, g)
  {
    if stops != [] {
      assert stops[|stops| - 1] in stops;
      SumOfSum(stops[..|stops| - 1], f, g, h);
    }
  }

  function Scaled(c: real, v: real): real { c * v }

  lemma {:induction false} SumOfScaled(stops: seq<Stop>, c: real, f: Stop -> real, h: Stop -> real)
    requires forall s | s in stops :: h(s) == Scaled(c, f(s))
    ensures Sum(stops, h) == Scaled(c, Sum(stops, f))
  {
    if stops != [] {
      assert stops[|stops| - 1] in stops;
      SumOfScaled(stops[..|stops| - 1], c, f, h);
    }
  }

  lemma {:induction false} SumOfConstant(stops: seq<Stop>, c: real, h: Stop -> real)
    requires forall s | s in stops :: h(s) == c
    ensures Sum(stops, h) == Scaled(c, |stops| as real)
  {
    if stops != [] {
      assert stops[|stops| - 1] in stops;
      SumOfConstant(stops[..|stops| - 1], c, h);
    }
  }

  lemma {:induction false} SumNonNegative(stops: seq<Stop>, h: Stop -> real)
    requires forall s | s in stops :: h(s) >= 0.0
    ensures Sum(stops, h) >= 0.0
    ensures Sum(stops, h) == 0.0 ==> forall s | s in stops :: h(s) == 0.0
  {
    if stops != [] {
      assert stops[|stops| - 1] in stops;
      SumNonNegative(stops[..|stops| - 1], h);
      assert stops == stops[..|stops| - 1] + [stops[|stops| - 1]];
    }
  }

  lemma SumOfDeviations(stops: seq<Stop>, f: Stop -> real, mean: real, d: Stop -> real)
    requires stops != [] && mean == Mean(stops, f)
    requires forall s | s in stops :: d(s) == f(s) - mean
    ensures Sum(stops, d) == 0.0
  {
    var c := (s: Stop) => -mean;
    SumOfConstant(stops, -mean, c);
    SumOfSum(stops, f, c, d);
    assert mean * |stops| as real == Sum(stops, f);
  }

  // -- The normal equations ------------------------------------------------------------

  lemma FittedResidual(stops: seq<Stop>, s: Stop)
    requires |stops| >= 4
    ensures Residual(Fit(stops), s) == (s.y - YBar(stops)) - Fit(stops).slope * (s.x - XBar(stops))
  {
    hide XBar, YBar, Num, Den;
  }

  lemma ResidualParts(stops: seq<Stop>, s: Stop)
    requires |stops| >= 4
    ensures Residual(Fit(stops), s) == (s.y - YBar(stops)) + Scaled(-Fit(stops).slope, s.x - XBar(stops))
  {
    hide Fit, XBar, YBar, Residual;
    FittedResidual(stops, s);
  }

  // Fitted residuals sum to zero.
  lemma ResidualsSumToZero(stops: seq<Stop>)
    requires |stops| >= 4
    ensures Sum(stops, (s: Stop) => Residual(Fit(stops), s)) == 0.0
  {
    var slope, xBar, yBar := Fit(stops).slope, XBar(stops), YBar(stops);
    var xs, ys := (s: Stop) => s.x, (s: Stop) => s.y;
    assert xBar == Mean(stops, xs) && yBar == Mean(stops, ys) && Scaled(-slope, 0.0) == 0.0;
    hide Fit, XBar, YBar, Mean, Sum, Scaled, Residual;
    var dx, dy := (s: Stop) => s.x - xBar, (s: Stop) => s.y - yBar;
    SumOfDeviations(stops, xs, xBar, dx);
    SumOfDeviations(stops, ys, yBar, dy);
    var scaled := (s: Stop) => Scaled(-slope, dx(s));
    SumOfScaled(stops, -slope, dx, scaled);
    var e := (s: Stop) => Residual(Fit(stops), s);
    forall s | s in stops
      ensures e(s) == dy(s) + scaled(s)
    {
      ResidualParts(stops, s);
    }
    SumOfSum(stops, dy, scaled, e);
  }

  // A residual times its stop's deviation in position.
  function Moment(line: Line, s: Stop, xBar: real): real {
    Residual(line, s) * (s.x - xBar)
  }

  lemma Expand(u: real, v: real, b: real)
    ensures (v - b * u) * u == u * v + -b * (u * u)
  {
  }

  lemma MomentParts(stops: seq<Stop>, s: Stop)
    requires |stops| >= 4
    ensures Moment(Fit(stops), s, XBar(stops)) ==
            CrossTerm(s, XBar(stops), YBar(stops)) + Scaled(-Fit(stops).slope, SquareOf(s.x - XBar(stops)))
  {
    FittedResidual(stops, s);
    hide Fit, XBar, YBar, Residual;
    Expand(s.x - XBar(stops), s.y - YBar(stops), Fit(stops).slope);
  }

  lemma SameSum(stops: seq<Stop>, f: Stop -> real, g: Stop -> real)
    requires forall s | s in stops :: f(s) == g(s)
    ensures Sum(stops, f) == Sum(stops, g)
  {
    var zero := (s: Stop) => 0.0;
    SumOfConstant(stops, 0.0, zero);
    SumOfSum(stops, f, zero, g);
  }

  lemma SumsOfParts(stops: seq<Stop>, xBar: real, yBar: real, cross: Stop -> real, square: Stop -> real)
    requires forall s | s in stops :: cross(s) == CrossTerm(s, xBar, yBar) && square(s) == SquareOf(s.x - xBar)
    ensures Sum(stops, cross) == Num(stops, xBar, yBar) && Sum(stops, square) == Den(stops, xBar)
  {
    hide CrossTerm, SquareOf, Sum;
    SameSum(stops, cross, (s: Stop) => CrossTerm(s, xBar, yBar));
    SameSum(stops, square, (s: Stop) => SquareOf(s.x - xBar));
  }

  lemma Negated(a: real, b: real)
    ensures Scaled(-a, b) == -Scaled(a, b)
  {
  }

  lemma Square(a: real)
    ensures SquareOf(a) >= 0.0
  {
  }

  lemma ZeroSquare(a: real, b: real)
    requires SquareOf(a) == 0.0
    ensures a * b == 0.0
  {
    if a != 0.0 { assert a * a != 0.0; }
  }

  // The denominator vanishes only when every position is the mean, and then the
  // numerator does too.
  lemma DenIsSpread(stops: seq<Stop>, xBar: real, yBar: real)
    ensures Den(stops, xBar) >= 0.0
    ensures Den(stops, xBar) == 0.0 ==> Num(stops, xBar, yBar) == 0.0
  {
    var square := (s: Stop) => SquareOf(s.x - xBar);
    forall s | s in stops
      ensures square(s) >= 0.0
    {
      Square(s.x - xBar);
    }
    SumNonNegative(stops, square);
    assert Den(stops, xBar) == Sum(stops, square);
    if Den(stops, xBar) == 0.0 {
      var cross := (s: Stop) => CrossTerm(s, xBar, yBar);
      forall s | s in stops
        ensures cross(s) == 0.0
      {
        assert square(s) == 0.0;
        ZeroSquare(s.x - xBar, s.y - yBar);
      }
      SumOfConstant(stops, 0.0, cross);
    }
  }

  lemma SlopeSolves(stops: seq<Stop>)
    requires |stops| >= 4
    ensures Num(stops, XBar(stops), YBar(stops)) == Scaled(Fit(stops).slope, Den(stops, XBar(stops)))
  {
    hide XBar, YBar, Sum, Num, Den;
    var xBar, yBar := XBar(stops), YBar(stops);
    DenIsSpread(stops, xBar, yBar);
  }

  // Fitted residuals are orthogonal to position, also when every stop has the
  // same position and the slope is set to zero.
  lemma ResidualsOrthogonal(stops: seq<Stop>)
    requires |stops| >= 4
    ensures Sum(stops, (s: Stop) => Moment(Fit(stops), s, XBar(stops))) == 0.0
  {
    hide Fit, XBar, YBar, Num, Den, Moment, CrossTerm, SquareOf, Sum, Scaled, Mean;
    var slope, xBar, yBar := Fit(stops).slope, XBar(stops), YBar(stops);
    var cross := (s: Stop) => CrossTerm(s, xBar, yBar);
    var square := (s: Stop) => SquareOf(s.x - xBar);
    var scaled := (s: Stop) => Scaled(-slope, square(s));
    var moment := (s: Stop) => Moment(Fit(stops), s, XBar(stops));
    SlopeSolves(stops);
    SumsOfParts(stops, xBar, yBar, cross, square);
    Negated(slope, Den(stops, xBar));
    SumOfScaled(stops, -slope, square, scaled);
    forall s | s in stops
      ensures moment(s) == cross(s) + scaled(s)
    {
      MomentParts(stops, s);
    }
    SumOfSum(stops, cross, scaled, moment);
  }

  // -- Optimality ------------------------------------------------------------------------

  function Gap(a: real, b: real, u: real): real {
    SquareOf(a + b * u)
  }

  lemma GapNonNegative(a: real, b: real, u: real)
    ensures Gap(a, b, u) >= 0.0
  {
    Square(a + b * u);
  }

  lemma ExpandSquare(e: real, a: real, b: real, u: real)
    ensures SquareOf(e + (a + b * u)) == SquareOf(e) + ((2.0 * a * e + 2.0 * b * (e * u)) + SquareOf(a + b * u))
  {
    var r := a + b * u;
    assert (e + r) * (e + r) == e * e + 2.0 * (e * r) + r * r;
    assert e * r == a * e + b * (e * u);
  }

  // The residual of any line, from that of the fit: a at the mean position, and
  // b per unit away from it.
  lemma OtherResidual(fit: Line, line: Line, s: Stop, xBar: real)
    ensures var (a, b) := (fit.At(xBar) - line.At(xBar), fit.slope - line.slope);
            SquareOf(Residual(line, s)) ==
            SquareOf(Residual(fit, s))
            + ((Scaled(2.0 * a, Residual(fit, s)) + Scaled(2.0 * b, Moment(fit, s, xBar))) + Gap(a, b, s.x - xBar))
  {
    var a, b, e, u := fit.At(xBar) - line.At(xBar), fit.slope - line.slope, Residual(fit, s), s.x - xBar;
    assert fit.slope * u == fit.slope * s.x - fit.slope * xBar
      && line.slope * u == line.slope * s.x - line.slope * xBar;
    assert Residual(line, s) == e + (a + b * u);
    ExpandSquare(e, a, b, u);
  }

  // No line, whatever its slope and intercept, has a smaller squared error.
  lemma FitIsOptimal(stops: seq<Stop>, line: Line)
    requires |stops| >= 4
    ensures SquaredError(stops, Fit(stops)) <= SquaredError(stops, line)
  {
    var fit, xBar := Fit(stops), XBar(stops);
    ResidualsSumToZero(stops);
    ResidualsOrthogonal(stops);
    var a, b := fit.At(xBar) - line.At(xBar), fit.slope - line.slope;
    var e := (s: Stop) => Residual(Fit(stops), s);
    var moment := (s: Stop) => Moment(Fit(stops), s, XBar(stops));
    var ee, all := (s: Stop) => SquareOf(Residual(fit, s)), (s: Stop) => SquareOf(Residual(line, s));
    assert Sum(stops, all) == SquaredError(stops, line) && Sum(stops, ee) == SquaredError(stops, fit);
    assert Scaled(2.0 * a, 0.0) == 0.0 && Scaled(2.0 * b, 0.0) == 0.0;
    hide Fit, XBar, Residual, Moment, SquareOf, Sum, SquaredError, Gap, Scaled;
    var e2, m2 := (s: Stop) => Scaled(2.0 * a, e(s)), (s: Stop) => Scaled(2.0 * b, moment(s));
    SumOfScaled(stops, 2.0 * a, e, e2);
    SumOfScaled(stops, 2.0 * b, moment, m2);
    var gap := (s: Stop) => Gap(a, b, s.x - xBar);
    forall s | s in stops
      ensures gap(s) >= 0.0
    {
      GapNonNegative(a, b, s.x - xBar);
    }
    SumNonNegative(stops, gap);
    var cross := (s: Stop) => e2(s) + m2(s);
    SumOfSum(stops, e2, m2, cross);
    var rest := (s: Stop) => cross(s) + gap(s);
    SumOfSum(stops, cross, gap, rest);
    forall s | s in stops
      ensures all(s) == ee(s) + rest(s)
    {
      OtherResidual(fit, line, s, xBar);
    }
    SumOfSum(stops, ee, rest, all);
  }

  lemma Times(a: real, b: real, c: real)
    requires a > 0.0 && b > 0.0 && c == a * b
    ensures c > 0.0
  {
  }

  lemma AboveFloor(r: real, f: real)
    requires r > f >= 0.0
    ensures SquareOf(r) > SquareOf(f)
  {
    Times(r - f, r + f, (r - f) * (r + f));
    assert r * r == f * f + (r - f) * (r + f);
  }

  lemma Positive(w: real, m: real)
    requires w > 0.0 && w * m > 0.0
    ensures m > 0.0
  {
  }

  // -- Flags --------------------------------------------------------------------------------

  // sd is the sample standard deviation of the residuals about their mean.
  ghost predicate IsResidualSd(stops: seq<Stop>, line: Line, sd: real) {
    sd >= 0.0 &&
    if |stops| <= 1 then sd == 0.0
    else
      var mean := Mean(stops, (s: Stop) => Residual(line, s));
      sd * sd == Sum(stops, (s: Stop) => SquareOf(Residual(line, s) - mean)) / (|stops| - 1) as real
  }

  predicate Flagged(line: Line, sd: real, stop: Stop) {
    sd > 0.0 && Residual(line, stop) > 1.5 * sd
  }

  function CountFlagged(stops: seq<Stop>, line: Line, sd: real): nat {
    if stops == [] then 0
    else CountFlagged(stops[..|stops| - 1], line, sd) + if Flagged(line, sd, stops[|stops| - 1]) then 1 else 0
  }

  // A non-negative quantity above `floor` at every flagged stop.
  lemma {:induction false} FlaggedShare(stops: seq<Stop>, line: Line, sd: real, g: Stop -> real, floor: real)
    requires forall s | s in stops :: g(s) >= 0.0
    requires forall s | s in stops && Flagged(line, sd, s) :: g(s) > floor
    ensures Sum(stops, g) >= Scaled(CountFlagged(stops, line, sd) as real, floor)
    ensures CountFlagged(stops, line, sd) > 0 ==> Sum(stops, g) > Scaled(CountFlagged(stops, line, sd) as real, floor)
  {
    if stops != [] {
      assert stops[|stops| - 1] in stops;
      FlaggedShare(stops[..|stops| - 1], line, sd, g, floor);
    }
  }

  lemma Shift(e: real, c: real)
    ensures SquareOf(e + c) == SquareOf(e) + (Scaled(2.0 * c, e) + SquareOf(c))
  {
  }

  // Shifting residuals of zero sum by c adds n c^2 to their squared sum.
  lemma ShiftedSquares(stops: seq<Stop>, c: real, e: Stop -> real, ee: Stop -> real, shifted: Stop -> real)
    requires Sum(stops, e) == 0.0
    requires forall s | s in stops :: ee(s) == SquareOf(e(s)) && shifted(s) == SquareOf(e(s) + c)
    ensures Sum(stops, shifted) == Sum(stops, ee) + Scaled(SquareOf(c), |stops| as real)
  {
    assert Scaled(2.0 * c, 0.0) == 0.0;
    hide SquareOf, Sum, Scaled;
    var twice, cc := (s: Stop) => Scaled(2.0 * c, e(s)), (s: Stop) => SquareOf(c);
    SumOfScaled(stops, 2.0 * c, e, twice);
    SumOfConstant(stops, SquareOf(c), cc);
    var rest := (s: Stop) => twice(s) + cc(s);
    SumOfSum(stops, twice, cc, rest);
    forall s | s in stops
      ensures shifted(s) == ee(s) + rest(s)
    {
      Shift(e(s), c);
    }
    SumOfSum(stops, ee, rest, shifted);
  }

  // The residual mean being zero, sd^2 (n - 1) is the squared error of the fit.
  lemma SpreadIsSquaredError(stops: seq<Stop>, sd: real)
    requires |stops| >= 4 && IsResidualSd(stops, Fit(stops), sd)
    ensures sd * sd * (|stops| - 1) as real == SquaredError(stops, Fit(stops))
  {
    ResidualsSumToZero(stops);
    hide Fit, Residual, SquareOf;
    var line := Fit(stops);
    var mean := Mean(stops, (s: Stop) => Residual(line, s));
    SameSum(stops, (s: Stop) => Residual(Fit(stops), s), (s: Stop) => Residual(line, s));
    assert mean == 0.0;
    SameSum(stops, (s: Stop) => SquareOf(Residual(line, s)), (s: Stop) => SquareOf(Residual(line, s) - mean));
  }

  lemma Factor(n: int, m: int)
    requires n > 0
    ensures n * m > 0 ==> m > 0
  {
  }

  lemma ProductAsReal(a: int, b: int)
    ensures (a * b) as real == a as real * b as real
  {
  }

  lemma InIntegers(n: int, k: int)
    requires 0 < k <= n && n >= 4
    requires 9.0 * k as real * n as real < 4.0 * (n as real - 1.0) * (n as real - k as real)
    ensures 9 * k * n < 4 * (n - 1) * (n - k) && 13 * k < 4 * n
  {
    var p, q := n * n, n * k;
    ProductAsReal(n, n);
    ProductAsReal(n, k);
    assert 9.0 * k as real * n as real == 9.0 * q as real;
    assert 4.0 * (n as real - 1.0) * (n as real - k as real)
           == 4.0 * p as real - 4.0 * q as real - 4.0 * n as real + 4.0 * k as real;
    assert 9 * q < 4 * p - 4 * q - 4 * n + 4 * k;
    assert 9 * k * n == 9 * q && 4 * (n - 1) * (n - k) == 4 * p - 4 * q - 4 * n + 4 * k;
    Factor(n, 4 * n - 13 * k);
    assert n * (4 * n - 13 * k) == 4 * p - 13 * q;
  }

  // The squared residuals, shifted up by c, are at least the flagged stops' share.
  lemma FlaggedWeight(stops: seq<Stop>, sd: real, c: real)
    requires |stops| >= 4 && IsResidualSd(stops, Fit(stops), sd) && sd > 0.0 && c > 0.0
    requires CountFlagged(stops, Fit(stops), sd) > 0
    ensures SquaredError(stops, Fit(stops)) + Scaled(SquareOf(c), |stops| as real)
            > Scaled(CountFlagged(stops, Fit(stops), sd) as real, SquareOf(1.5 * sd + c))
  {
    ResidualsSumToZero(stops);
    var line := Fit(stops);
    var ee := (s: Stop) => SquareOf(Residual(line, s));
    var shifted := (s: Stop) => SquareOf(Residual(line, s) + c);
    assert Sum(stops, ee) == SquaredError(stops, line);
    hide Fit, Residual, IsResidualSd, SquareOf, Sum, SquaredError, CountFlagged, Scaled;
    forall s | s in stops
      ensures shifted(s) >= 0.0
      ensures Flagged(line, sd, s) ==> shifted(s) > SquareOf(1.5 * sd + c)
    {
      Square(Residual(line, s) + c);
      if Flagged(line, sd, s) {
        AboveFloor(Residual(line, s) + c, 1.5 * sd + c);
      }
    }
    FlaggedShare(stops, line, sd, shifted, SquareOf(1.5 * sd + c));
    ShiftedSquares(stops, c, (s: Stop) => Residual(Fit(stops), s), ee, shifted);
  }

  lemma {:induction false} FlaggedMeansSpread(stops: seq<Stop>, line: Line, sd: real)
    requires CountFlagged(stops, line, sd) > 0
    ensures sd > 0.0
  {
    if !Flagged(line, sd, stops[|stops| - 1]) {
      FlaggedMeansSpread(stops[..|stops| - 1], line, sd);
    }
  }

  lemma {:induction false} FlaggedAtMostAll(stops: seq<Stop>, line: Line, sd: real)
    ensures CountFlagged(stops, line, sd) <= |stops|
  {
    if stops != [] {
      FlaggedAtMostAll(stops[..|stops| - 1], line, sd);
    }
  }

  lemma CantelliGap(n: real, k: real, sd: real, t: real, w: real, inner: real)
    requires t * (1.5 * n) == n - 1.0 && w == 1.5 + t && inner == n * t - k * w
    ensures sd * (sd * w * inner) ==
            sd * sd * (n - 1.0) + (sd * t) * (sd * t) * n - k * ((1.5 * sd + sd * t) * (1.5 * sd + sd * t))
  {
    var q := sd * sd;
    assert (1.5 * sd + sd * t) * (1.5 * sd + sd * t) == q * (w * w);
    assert (sd * t) * (sd * t) * n == q * (t * t * n);
    assert (n - 1.0) + t * t * n == n * t * w;
    assert q * (n - 1.0) + q * (t * t * n) == q * (n * t * w);
    assert sd * (sd * w * inner) == q * (w * inner);
    assert w * inner == n * t * w - k * (w * w);
    assert q * (w * inner) == q * (n * t * w) - q * (k * (w * w));
  }

  lemma Cantelli(n: real, k: real, sd: real, t: real)
    requires n >= 4.0 && k > 0.0 && sd > 0.0 && t * (1.5 * n) == n - 1.0
    requires sd * sd * (n - 1.0) + Scaled(SquareOf(sd * t), n) > Scaled(k, SquareOf(1.5 * sd + sd * t))
    ensures 9.0 * k * n < 4.0 * (n - 1.0) * (n - k)
  {
    var w, inner := 1.5 + t, n * t - k * (1.5 + t);
    Positive(1.5 * n, t);
    CantelliGap(n, k, sd, t, w, inner);
    var p := sd * w * inner;
    Positive(sd, p);
    assert p == (sd * w) * inner;
    Times(sd, w, sd * w);
    Positive(sd * w, inner);
    Times(inner, 1.5 * n, inner * (1.5 * n));
    assert inner * (1.5 * n) == (n - k) * (t * (1.5 * n)) - 2.25 * k * n;
  }

  // However the delays fall, few stops can be flagged: of n fitted stops, k
  // flagged satisfy 9 k n < 4 (n - 1) (n - k), a one-sided Chebyshev bound. So
  // fewer than four in thirteen are ever flagged.
  lemma FewAreFlagged(stops: seq<Stop>, sd: real)
    requires |stops| >= 4 && IsResidualSd(stops, Fit(stops), sd)
    requires CountFlagged(stops, Fit(stops), sd) > 0
    ensures var (n, k) := (|stops|, CountFlagged(stops, Fit(stops), sd));
            9 * k * n < 4 * (n - 1) * (n - k) && 13 * k < 4 * n
  {
    hide Fit, IsResidualSd, CountFlagged, SquareOf, SquaredError, Scaled;
    var line := Fit(stops);
    FlaggedMeansSpread(stops, line, sd);
    FlaggedAtMostAll(stops, line, sd);
    var n, k := |stops|, CountFlagged(stops, line, sd);
    // The shift that makes the bound tightest.
    var t := (n as real - 1.0) / (1.5 * n as real);
    assert t * (1.5 * n as real) == n as real - 1.0;
    Positive(1.5 * n as real, t);
    Times(sd, t, sd * t);
    SpreadIsSquaredError(stops, sd);
    FlaggedWeight(stops, sd, sd * t);
    Cantelli(n as real, k as real, sd, t);
    InIntegers(n, k);
  }

  // -- Fewer than four stops ------------------------------------------------------------------

  function LeastMean(stops: seq<Stop>): (least: real)
    requires stops != []
    ensures forall s | s in stops :: least <= s.y
    ensures exists s | s in stops :: s.y == least
  {
    var n := |stops| - 1;
    assert stops == stops[..n] + [stops[n]];
    if n == 0 then stops[0].y
    else
      var before := LeastMean(stops[..n]);
      if stops[n].y < before then stops[n].y else before
  }

  lemma {:induction false} AllFlagged(stops: seq<Stop>, line: Line, sd: real)
    ensures CountFlagged(stops, line, sd) == |stops| <==> forall s | s in stops :: Flagged(line, sd, s)
  {
    if stops != [] {
      var n := |stops| - 1;
      assert stops == stops[..n] + [stops[n]];
      hide Flagged;
      AllFlagged(stops[..n], line, sd);
      FlaggedAtMostAll(stops[..n], line, sd);
    }
  }

  lemma FlaggedByMean(sd: real, s: Stop)
    ensures Flagged(Line(0.0, 0.0), sd, s) <==> s.y > 1.5 * sd > 0.0
  {
    assert 0.0 * s.x == 0.0;
  }

  lemma OneStopIsNotFlagged(stops: seq<Stop>, sd: real)
    requires |stops| == 1 ==> IsResidualSd(stops, Fit(stops), sd)
    ensures |stops| == 1 ==> CountFlagged(stops, Fit(stops), sd) == 0
  {
    hide Fit;
    if |stops| == 1 {
      assert stops[..0] == [];
    }
  }

  // Without a fit the trend is zero, so a stop is flagged by its mean delay alone:
  // exactly when it exceeds 1.5 SD of a spread that is not zero, and every stop of
  // a route is flagged exactly when the least mean does.
  lemma BelowFourFlaggedExactlyWhen(stops: seq<Stop>, sd: real)
    requires 0 < |stops| < 4 && IsResidualSd(stops, Fit(stops), sd)
    ensures forall s | s in stops :: Flagged(Fit(stops), sd, s) <==> s.y > 1.5 * sd > 0.0
    ensures CountFlagged(stops, Fit(stops), sd) == |stops| <==> LeastMean(stops) > 1.5 * sd > 0.0
    ensures |stops| == 1 ==> CountFlagged(stops, Fit(stops), sd) == 0
  {
    hide CountFlagged, IsResidualSd, Flagged, LeastMean;
    var line := Fit(stops);
    forall s
      ensures Flagged(line, sd, s) <==> s.y > 1.5 * sd > 0.0
    {
      FlaggedByMean(sd, s);
    }
    AllFlagged(stops, line, sd);
    assert (forall s | s in stops :: s.y > 1.5 * sd) <==> LeastMean(stops) > 1.5 * sd;
    OneStopIsNotFlagged(stops, sd);
  }

  lemma SumOfThree(a: Stop, b: Stop, c: Stop, f: Stop -> real)
    ensures Sum([a, b, c], f) == f(a) + f(b) + f(c)
  {
    assert [a, b, c][..2] == [a, b] && [a, b][..1] == [a] && [a][..0] == [];
    assert Sum([], f) == 0.0;
    assert Sum([a], f) == f(a);
    assert Sum([a, b], f) == f(a) + f(b);
  }

  lemma SpreadOfThree(a: Stop, b: Stop, c: Stop, mean: real, sd: real)
    requires a.y + b.y + c.y == 3.0 * mean && sd >= 0.0
    requires SquareOf(a.y - mean) + SquareOf(b.y - mean) + SquareOf(c.y - mean) == 2.0 * (sd * sd)
    ensures IsResidualSd([a, b, c], Fit([a, b, c]), sd)
  {
    var stops := [a, b, c];
    var line := Fit(stops);
    forall s: Stop
      ensures Residual(line, s) == s.y
    {
      assert line.slope * s.x == 0.0;
    }
    hide Fit, Residual, SquareOf, Sum;
    var residual := (s: Stop) => Residual(line, s);
    SumOfThree(a, b, c, residual);
    var found := Mean(stops, residual);
    assert found == mean;
    SumOfThree(a, b, c, (s: Stop) => SquareOf(Residual(line, s) - mean));
    SameSum(stops, (s: Stop) => SquareOf(Residual(line, s) - mean),
      (s: Stop) => SquareOf(Residual(line, s) - Mean([a, b, c], (s: Stop) => Residual(line, s))));
  }

  // The bound above needs its four stops: three stops of a generally late route,
  // a second apart, are all flagged.
  lemma ThreeLateStopsAreAllFlagged()
    ensures var stops := [Stop(0.0, 100.0), Stop(0.5, 101.0), Stop(1.0, 102.0)];
            IsResidualSd(stops, Fit(stops), 1.0) && CountFlagged(stops, Fit(stops), 1.0) == 3
  {
    var (a, b, c) := (Stop(0.0, 100.0), Stop(0.5, 101.0), Stop(1.0, 102.0));
    SpreadOfThree(a, b, c, 101.0, 1.0);
    hide IsResidualSd;
    BelowFourFlaggedExactlyWhen([a, b, c], 1.0);
    assert LeastMean([a, b, c]) >= 100.0;
  }
}
