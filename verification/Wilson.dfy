// The Wilson score interval: wilson in scripts/export-site.ts, and the client's
// own arrangement of it in site/public/app.js. Over exact reals; the square
// root is a parameter constrained by IsRoot.
module Wilson {
  datatype Interval = Interval(lo: real, hi: real)

  predicate IsRoot(root: real, square: real) {
    root >= 0.0 && root * root == square
  }

  function Max(a: real, b: real): real { if a >= b then a else b }

  function Min(a: real, b: real): real { if a <= b then a else b }

  // What is under the root in both programs.
  function Radicand(p: real, total: real, z: real): real
    requires total > 0.0
  {
    p * (1.0 - p) / total + z * z / (4.0 * total * total)
  }

  // The exporter's interval, in per cent.
  function Wilson(successes: nat, total: nat, z: real, root: real): Interval
    requires z > 0.0
  {
    if total == 0 then Interval(0.0, 100.0)
    else
      var n := total as real;
      var p := successes as real / n;
      var denom := 1.0 + z * z / n;
      var centre := p + z * z / (2.0 * n);
      var spread := z * root;
      Interval(Max(0.0, (centre - spread) / denom * 100.0), Min(100.0, (centre + spread) / denom * 100.0))
  }

  // The client's interval for pooled cells.
  function Combined(nLate: nat, n: nat, z: real, root: real): Interval
    requires n > 0 && z > 0.0
  {
    var total := n as real;
    var p := nLate as real / total;
    var denom := 1.0 + z * z / total;
    var center := (p + z * z / (2.0 * total)) / denom;
    var half := z * root / denom;
    Interval(Max(0.0, center - half) * 100.0, Min(1.0, center + half) * 100.0)
  }

  // -- The interval as fractions, in terms of k = z^2 / n ----------------------

  // The ends before clamping: (p + k/2 -+ s) / (1 + k).
  function Low(p: real, k: real, s: real): real
    requires k > 0.0
  {
    (p + k / 2.0 - s) / (1.0 + k)
  }

  function High(p: real, k: real, s: real): real
    requires k > 0.0
  {
    (p + k / 2.0 + s) / (1.0 + k)
  }

  predicate IsSpread(p: real, k: real, s: real) {
    IsRoot(s, k * p * (1.0 - p) + k * k / 4.0)
  }

  lemma Product(a: real, b: real)
    ensures a >= 0.0 && b >= 0.0 ==> a * b >= 0.0
    ensures a > 0.0 && b > 0.0 ==> a * b > 0.0
    ensures a * a >= 0.0
  {
  }

  lemma Times(a: real, b: real, c: real)
    requires a > 0.0 && b > 0.0 && c == a * b
    ensures c > 0.0
  {
  }

  lemma SquareOrder(a: real, b: real)
    requires b >= 0.0
    ensures a * a <= b * b ==> a <= b
    ensures a * a < b * b ==> a < b
  {
    var u, v := a - b, a + b;
    assert u * v == a * a - b * b;
    Product(u, v);
    assert a >= b ==> u * v >= 0.0;
    assert a > b ==> u * v > 0.0;
  }

  lemma DivideOrder(a: real, b: real, d: real)
    requires d > 0.0
    ensures a / d <= b <==> a <= b * d
    ensures b <= a / d <==> b * d <= a
  {
    var q := a / d;
    assert q * d == a;
    assert (q - b) * d == a - b * d;
  }

  lemma SpreadBelowCentre(p: real, k: real, s: real)
    requires 0.0 <= p <= 1.0 && k > 0.0 && IsSpread(p, k, s)
    ensures s <= p + k / 2.0
  {
    var c, d := p + k / 2.0, 1.0 + k;
    assert c * c - s * s == d * (p * p);
    Product(p, p);
    Product(d, p * p);
    SquareOrder(s, c);
  }

  lemma SpreadBelowRest(p: real, k: real, s: real)
    requires 0.0 <= p <= 1.0 && k > 0.0 && IsSpread(p, k, s)
    ensures s <= (1.0 - p) + k / 2.0
  {
    assert k * (1.0 - p) * (1.0 - (1.0 - p)) == k * p * (1.0 - p);
    SpreadBelowCentre(1.0 - p, k, s);
  }

  lemma SpreadReachesProportion(p: real, k: real, s: real)
    requires 0.0 <= p <= 1.0 && k > 0.0 && IsSpread(p, k, s)
    ensures -s <= k * (p - 0.5) <= s
  {
    var f, a := k * (p - 0.5), p * (1.0 - p);
    assert s * s == k * a + k * k / 4.0;
    assert (p - 0.5) * (p - 0.5) == 0.25 - a;
    assert f * f == (k * k) * ((p - 0.5) * (p - 0.5));
    assert f * f == k * k / 4.0 - (k * k) * a;
    Product(p, 1.0 - p);
    Product(k, a);
    Product(k, k);
    Product(k * k, a);
    SquareOrder(f, s);
    assert (-f) * (-f) == f * f;
    SquareOrder(-f, s);
  }

  // Both clamps are redundant, and the interval holds the observed proportion.
  lemma BoundsInOrder(p: real, k: real, s: real)
    requires 0.0 <= p <= 1.0 && k > 0.0 && IsSpread(p, k, s)
    ensures 0.0 <= Low(p, k, s) <= p <= High(p, k, s) <= 1.0
  {
    hide IsSpread;
    var c, d := p + k / 2.0, 1.0 + k;
    SpreadBelowCentre(p, k, s);
    SpreadBelowRest(p, k, s);
    SpreadReachesProportion(p, k, s);
    assert p * d - c == k * (p - 0.5);
    DivideOrder(c - s, 0.0, d);
    DivideOrder(c - s, p, d);
    DivideOrder(c + s, p, d);
    DivideOrder(c + s, 1.0, d);
  }

  // The score test of proportion x, given an observed p and k = z^2 / n.
  predicate NotRejected(p: real, k: real, x: real) {
    (p - x) * (p - x) <= k * x * (1.0 - x)
  }

  predicate OnBoundary(p: real, k: real, x: real) {
    (p - x) * (p - x) == k * x * (1.0 - x)
  }

  lemma ProductOfEnds(p: real, k: real, s: real, lo: real, hi: real)
    requires k > 0.0 && IsSpread(p, k, s)
    requires lo * (1.0 + k) == p + k / 2.0 - s && hi * (1.0 + k) == p + k / 2.0 + s
    ensures lo * hi * (1.0 + k) == p * p
  {
    var c, d := p + k / 2.0, 1.0 + k;
    assert (lo * d) * (hi * d) == (c - s) * (c + s) == c * c - s * s;
    assert c * c - s * s == d * (p * p);
    assert (lo * d) * (hi * d) == d * (lo * hi * d);
    assert d * (lo * hi * d - p * p) == 0.0;
  }

  lemma Factored(p: real, k: real, s: real, x: real)
    requires k > 0.0 && IsSpread(p, k, s)
    ensures (p - x) * (p - x) - k * x * (1.0 - x) == (1.0 + k) * ((x - Low(p, k, s)) * (x - High(p, k, s)))
  {
    var lo, hi, c, d := Low(p, k, s), High(p, k, s), p + k / 2.0, 1.0 + k;
    assert lo * d == c - s && hi * d == c + s;
    var sum, product := lo + hi, lo * hi;
    assert sum * d == 2.0 * c;
    ProductOfEnds(p, k, s, lo, hi);
    calc {
      d * ((x - lo) * (x - hi));
      d * (x * x - sum * x + product);
      d * (x * x) - (sum * d) * x + product * d;
      d * (x * x) - 2.0 * c * x + p * p;
      (p - x) * (p - x) - k * x * (1.0 - x);
    }
  }

  lemma SignOfProduct(d: real, w: real)
    requires d > 0.0
    ensures d * w <= 0.0 <==> w <= 0.0
    ensures d * w == 0.0 <==> w == 0.0
  {
  }

  lemma SignOfProduct2(u: real, v: real)
    requires v <= u
    ensures u * v <= 0.0 <==> u >= 0.0 >= v
    ensures u * v == 0.0 <==> u == 0.0 || v == 0.0
  {
    if u > 0.0 && v > 0.0 { assert u * v > 0.0; }
    if u < 0.0 && v < 0.0 { assert u * v > 0.0; }
  }

  // The two ends are the roots of the score equation, and the interval is
  // exactly the set of proportions the score test does not reject.
  lemma ScoreTest(p: real, k: real, s: real, x: real)
    requires k > 0.0 && IsSpread(p, k, s)
    ensures OnBoundary(p, k, x) <==> x == Low(p, k, s) || x == High(p, k, s)
    ensures NotRejected(p, k, x) <==> Low(p, k, s) <= x <= High(p, k, s)
  {
    var lo, hi, d := Low(p, k, s), High(p, k, s), 1.0 + k;
    assert lo * d == p + k / 2.0 - s && hi * d == p + k / 2.0 + s;
    Factored(p, k, s, x);
    var g := (p - x) * (p - x) - k * x * (1.0 - x);
    var u, v := x - lo, x - hi;
    assert d * (hi - lo) == 2.0 * s;
    assert lo <= hi;
    assert v <= u;
    assert g == d * (u * v);
    SignOfProduct(d, u * v);
    SignOfProduct2(u, v);
  }

  // -- Narrowing ----------------------------------------------------------------

  lemma CrossRatio(w: real, d: real, w': real, d': real)
    requires d > 0.0 && d' > 0.0 && (w' * d') * d < (w * d) * d'
    ensures w' < w
  {
    Product(d, d');
    Product(w' - w, d * d');
    assert (w' - w) * (d * d') == (w' * d') * d - (w * d) * d';
  }

  lemma RatioOrder(s: real, d: real, s': real, d': real)
    requires s >= 0.0 && s' >= 0.0 && d > 0.0 && d' > 0.0
    requires (s' * s') * (d * d) < (s * s) * (d' * d')
    ensures s' / d' < s / d
  {
    var w, w' := s / d, s' / d';
    assert w * d == s && w' * d' == s';
    var t, t' := s * d', s' * d;
    assert t * t == (s * s) * (d' * d') && t' * t' == (s' * s') * (d * d);
    Product(s, d');
    SquareOrder(t', t);
    CrossRatio(w, d, w', d');
  }

  lemma Halves(c: real, s: real, d: real)
    requires d > 0.0
    ensures (c + s) / d - (c - s) / d == 2.0 * (s / d)
  {
    var u, v, w := (c + s) / d, (c - s) / d, s / d;
    assert u * d == c + s && v * d == c - s && w * d == s;
    assert (u - v - 2.0 * w) * d == 0.0;
  }

  lemma Widths(p: real, k: real, s: real, k': real, s': real)
    requires 0.0 < k' && 0.0 < k && s >= 0.0 && s' >= 0.0
    requires (s' * s') * ((1.0 + k) * (1.0 + k)) < (s * s) * ((1.0 + k') * (1.0 + k'))
    ensures High(p, k', s') - Low(p, k', s') < High(p, k, s) - Low(p, k, s)
  {
    var d, d' := 1.0 + k, 1.0 + k';
    Halves(p + k / 2.0, s, d);
    Halves(p + k' / 2.0, s', d');
    RatioOrder(s, d, s', d');
  }

  lemma CrossMultiplied(a: real, k: real, k': real)
    requires a <= 0.25 && 0.0 < k' < k && a >= 0.0
    ensures (k' * a + k' * k' / 4.0) * ((1.0 + k) * (1.0 + k)) < (k * a + k * k / 4.0) * ((1.0 + k') * (1.0 + k'))
  {
    var m := k * k';
    var inner := a * (1.0 - m) + (k + k') / 4.0 + m / 2.0;
    assert m > 0.0;
    assert a * m <= 0.25 * m;
    assert inner > 0.0;
    assert (k - k') * inner > 0.0;
    calc {
      (k * a + k * k / 4.0) * ((1.0 + k') * (1.0 + k')) - (k' * a + k' * k' / 4.0) * ((1.0 + k) * (1.0 + k));
      (k - k') * inner;
    }
  }

  // At one proportion, more observations give a strictly narrower interval.
  lemma Narrows(p: real, k: real, s: real, k': real, s': real)
    requires 0.0 <= p <= 1.0 && 0.0 < k' < k && IsSpread(p, k, s) && IsSpread(p, k', s')
    ensures High(p, k', s') - Low(p, k', s') < High(p, k, s) - Low(p, k, s)
  {
    var a := p * (1.0 - p);
    Product(p, 1.0 - p);
    Product(p - 0.5, p - 0.5);
    assert a == 0.25 - (p - 0.5) * (p - 0.5);
    CrossMultiplied(a, k, k');
    assert s * s == k * a + k * k / 4.0 && s' * s' == k' * a + k' * k' / 4.0;
    Widths(p, k, s, k', s');
  }

  // -- The programs ----------------------------------------------------------------

  lemma Quotient(x: real, a: real, n: real)
    requires n > 0.0 && x * n == a
    ensures x == a / n
  {
    assert (x - a / n) * n == 0.0;
  }

  lemma Positive(a: real, n: real)
    requires a > 0.0 && n > 0.0
    ensures a / n > 0.0
  {
    var k := a / n;
    assert k * n == a;
    Product(-k, n);
    assert (-k) * n == -a;
  }

  // With a = z^2: the terms of the programs, over k = a / n.
  lemma HalfTerm(a: real, n: real)
    requires n > 0.0
    ensures a / (2.0 * n) == a / n / 2.0
  {
    assert a / n * n == a;
    Quotient(a / n / 2.0, a, 2.0 * n);
  }

  lemma ProductTerm(a: real, b: real, n: real)
    requires n > 0.0
    ensures a * (b / n) == a / n * b
  {
    assert a / n * n == a && b / n * n == b;
    Quotient(a * (b / n), a * b, n);
    Quotient(a / n * b, a * b, n);
  }

  lemma SquareOfQuotient(k: real, n: real, m: real)
    requires m == 4.0 * (n * n)
    ensures k * k / 4.0 * m == (k * n) * (k * n)
  {
    assert k * k / 4.0 * m == (k * k) * (n * n);
  }

  lemma SquareTerm(a: real, n: real)
    requires n > 0.0
    ensures a * (a / (4.0 * n * n)) == (a / n) * (a / n) / 4.0
  {
    var k, m := a / n, 4.0 * n * n;
    assert k * n == a;
    Times(4.0 * n, n, m);
    SquareOfQuotient(k, n, m);
    Quotient(k * k / 4.0, a * a, m);
    assert a / m * m == a;
    assert a * (a / m) * m == a * (a / m * m);
    Quotient(a * (a / m), a * a, m);
  }

  lemma SpreadOf(p: real, n: real, z: real, root: real)
    requires n > 0.0 && z > 0.0 && IsRoot(root, Radicand(p, n, z))
    ensures IsSpread(p, z * z / n, z * root) && z * z / n > 0.0
    ensures z * z / (2.0 * n) == z * z / n / 2.0
  {
    var a, b := z * z, p * (1.0 - p);
    Product(z, root);
    HalfTerm(a, n);
    ProductTerm(a, b, n);
    SquareTerm(a, n);
    Times(z, z, a);
    Positive(a, n);
    assert (z * root) * (z * root) == a * (root * root);
    assert a * (b / n + a / (4.0 * n * n)) == a * (b / n) + a * (a / (4.0 * n * n));
    assert a / n * b == a / n * p * (1.0 - p);
  }

  lemma Proportion(successes: nat, total: nat)
    requires successes <= total && total > 0
    ensures 0.0 <= successes as real / total as real <= 1.0
  {
    DivideOrder(successes as real, 0.0, total as real);
    DivideOrder(successes as real, 1.0, total as real);
  }

  lemma Halves2(c: real, s: real, d: real)
    requires d > 0.0
    ensures (c - s) / d == c / d - s / d && (c + s) / d == c / d + s / d
  {
    var u, v, w, x := (c + s) / d, (c - s) / d, s / d, c / d;
    assert u * d == c + s && v * d == c - s && w * d == s && x * d == c;
    assert (u - x - w) * d == 0.0 && (v - x + w) * d == 0.0;
  }

  // The exporter's interval is the unclamped one, in per cent; the client's
  // arrangement of the formula computes the same interval.
  lemma ProgramsAgree(successes: nat, total: nat, z: real, root: real)
    requires successes <= total && total > 0 && z > 0.0
    requires IsRoot(root, Radicand(successes as real / total as real, total as real, z))
    ensures var (n, p) := (total as real, successes as real / total as real);
            var (k, s) := (z * z / n, z * root);
            k > 0.0 && IsSpread(p, k, s) && 0.0 <= p <= 1.0
            && Wilson(successes, total, z, root) == Interval(Low(p, k, s) * 100.0, High(p, k, s) * 100.0)
            && Combined(successes, total, z, root) == Wilson(successes, total, z, root)
  {
    var n, p := total as real, successes as real / total as real;
    Proportion(successes, total);
    SpreadOf(p, n, z, root);
    var k, s := z * z / n, z * root;
    BoundsInOrder(p, k, s);
    Halves2(p + k / 2.0, s, 1.0 + k);
  }

  // The interval lies within 0..100, holds the observed percentage, and is
  // exactly the proportions x at which the score statistic (p - x)^2 does not
  // exceed z^2 x (1 - x) / n, with equality at its two ends.
  lemma WilsonIsScoreInterval(successes: nat, total: nat, z: real, root: real, x: real)
    requires successes <= total && total > 0 && z > 0.0
    requires IsRoot(root, Radicand(successes as real / total as real, total as real, z))
    ensures var (n, p) := (total as real, successes as real / total as real);
            var i := Wilson(successes, total, z, root);
            && 0.0 <= i.lo <= p * 100.0 <= i.hi <= 100.0
            && (NotRejected(p, z * z / n, x) <==> i.lo <= x * 100.0 <= i.hi)
            && (OnBoundary(p, z * z / n, x) <==> x * 100.0 == i.lo || x * 100.0 == i.hi)
  {
    hide Wilson, Combined, IsSpread, IsRoot, NotRejected, OnBoundary, Low, High;
    var n, p := total as real, successes as real / total as real;
    ProgramsAgree(successes, total, z, root);
    var k, s := z * z / n, z * root;
    BoundsInOrder(p, k, s);
    ScoreTest(p, k, s, x);
  }

  lemma ScaledOrder(a: real, b: real, d: real)
    requires d > 0.0
    ensures a <= b <==> d * a <= d * b
  {
    assert d * (b - a) == d * b - d * a;
    if a <= b {
      Product(d, b - a);
    } else {
      Product(d, a - b);
      assert d * (a - b) == -(d * (b - a));
    }
  }

  lemma SquaredProduct(n: real, d: real, e: real)
    requires e == n * d
    ensures n * n * (d * d) == e * e
  {
  }

  lemma SharedFactor(n: real, k: real, v: real, w: real)
    requires k * n == w
    ensures n * n * (k * v) == w * (n * v)
  {
    var u := n * v;
    assert n * n * (k * v) == (k * n) * (n * v);
  }

  ghost predicate HoldsCount(s: real, n: real, w: real, x: real) {
    (s - n * x) * (s - n * x) <= w * (n * (x * (1.0 - x)))
  }

  // The score test in counts.
  lemma NotRejectedInCounts(p: real, k: real, x: real, s: real, n: real, w: real)
    requires n > 0.0 && p * n == s && k * n == w
    ensures NotRejected(p, k, x) <==> HoldsCount(s, n, w, x)
  {
    var (d, e, v) := (p - x, s - n * x, x * (1.0 - x));
    assert e == n * d;
    assert k * x * (1.0 - x) == k * v;
    SquaredProduct(n, d, e);
    SharedFactor(n, k, v, w);
    var (a, b, m) := (d * d, k * v, n * n);
    Times(n, n, m);
    ScaledOrder(a, b, m);
  }

  lemma SomeObservations(successes: nat, total: nat, z: real, root: real, x: real)
    requires successes <= total && z > 0.0 && total > 0
    requires IsRoot(root, Radicand(successes as real / total as real, total as real, z))
    ensures var i := Wilson(successes, total, z, root);
            i.lo <= x * 100.0 <= i.hi <==> HoldsCount(successes as real, total as real, z * z, x)
  {
    hide IsRoot, OnBoundary, Radicand, Wilson;
    WilsonIsScoreInterval(successes, total, z, root, x);
    var (s, n, w) := (successes as real, total as real, z * z);
    NotRejectedInCounts(s / n, w / n, x, s, n, w);
    hide NotRejected;
  }

  lemma NoObservations(z: real, root: real, x: real)
    requires z > 0.0 && 0.0 <= x <= 1.0
    ensures Wilson(0, 0, z, root).lo <= x * 100.0 <= Wilson(0, 0, z, root).hi
    ensures HoldsCount(0.0, 0.0, z * z, x)
  {
    assert 0.0 * (x * (1.0 - x)) == 0.0;
  }

  // For any number of observations, none included, the interval holds a percentage
  // exactly when the observed count is within z standard deviations of what that
  // proportion makes of the total. Without observations that is every percentage.
  lemma IntervalHoldsExactlyWhen(successes: nat, total: nat, z: real, root: real, x: real)
    requires successes <= total && z > 0.0 && 0.0 <= x <= 1.0
    requires total > 0 ==> IsRoot(root, Radicand(successes as real / total as real, total as real, z))
    ensures var i := Wilson(successes, total, z, root);
            i.lo <= x * 100.0 <= i.hi <==> HoldsCount(successes as real, total as real, z * z, x)
  {
    hide IsRoot, Radicand, Wilson, HoldsCount;
    if total == 0 {
      NoObservations(z, root, x);
    } else {
      SomeObservations(successes, total, z, root, x);
    }
  }

  lemma SmallerShare(a: real, n: real, n': real)
    requires a > 0.0 && 0.0 < n < n'
    ensures a / n' < a / n
  {
    var k, k' := a / n, a / n';
    assert k * n == a && k' * n' == a;
    Positive(a, n);
    Product(k, n' - n);
    Product(k' - k, n');
    assert (k' - k) * n' == -(k * (n' - n));
  }

  // At the same observed proportion, more observations narrow the interval.
  lemma WilsonNarrows(successes: nat, total: nat, root: real, successes': nat, total': nat, root': real, z: real)
    requires successes <= total && 0 < total < total' && successes' <= total' && z > 0.0
    requires successes as real / total as real == successes' as real / total' as real
    requires IsRoot(root, Radicand(successes as real / total as real, total as real, z))
    requires IsRoot(root', Radicand(successes' as real / total' as real, total' as real, z))
    ensures var (i, i') := (Wilson(successes, total, z, root), Wilson(successes', total', z, root'));
            i'.hi - i'.lo < i.hi - i.lo
  {
    hide Wilson, Combined, IsSpread, IsRoot;
    ProgramsAgree(successes, total, z, root);
    ProgramsAgree(successes', total', z, root');
    var p, k, k' := successes as real / total as real, z * z / total as real, z * z / total' as real;
    SmallerShare(z * z, total as real, total' as real);
    Narrows(p, k, z * root, k', z * root');
  }
}
