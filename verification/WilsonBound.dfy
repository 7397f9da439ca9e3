/** The Wilson lower bound of the calibration sidecar, over exact reals with an arbitrary quantile `z`. */
module WilsonBound {

  /** The square root, as far as the code relies on it. */
  ghost predicate IsSqrt(sqrt: real -> real) {
    forall x: real :: x >= 0.0 ==> sqrt(x) >= 0.0 && sqrt(x) * sqrt(x) == x
  }

  function Abs(x: real): real {
    if x < 0.0 then -x else x
  }

  function Max(a: real, b: real): real {
    if a < b then b else a
  }

  /** The radicand of the spread, with w = z^2. */
  function RadicandOf(p: real, n: real, w: real): real
    requires n > 0.0
  {
    p * (1.0 - p) / n + w / (4.0 * n * n)
  }

  function SpreadTerm(alpha: real, beta: real, z: real, sqrt: real -> real): real
    requires alpha + beta > 0.0
  {
    Abs(z) * sqrt(RadicandOf(alpha / (alpha + beta), alpha + beta, z * z))
  }

  /** `(centre - spread) / denom`, with w = z^2. */
  function Combine(p: real, n: real, w: real, spread: real): real
    requires n > 0.0 && w >= 0.0
  {
    assert w / n >= 0.0;
    (p + w / (2.0 * n) - spread) / (1.0 + w / n)
  }

  function Unclamped(alpha: real, beta: real, z: real, sqrt: real -> real): real
    requires alpha + beta > 0.0
  {
    assert z * z >= 0.0;
    Combine(alpha / (alpha + beta), alpha + beta, z * z, SpreadTerm(alpha, beta, z, sqrt))
  }

  function LowerBound(alpha: real, beta: real, z: real, sqrt: real -> real): real {
    if alpha + beta < 2.0 then 0.0 else Max(0.0, Unclamped(alpha, beta, z, sqrt))
  }

  lemma SquareOrder(a: real, b: real)
    requires b >= 0.0 && a * a <= b * b
    ensures a <= b
  {
    if a > b {
      SquareGrows(b, a - b);
    }
  }

  lemma SquareGrows(b: real, h: real)
    requires b >= 0.0 && h > 0.0
    ensures (b + h) * (b + h) > b * b
  {
    ProductNonNegative(b, h);
    assert (b + h) * (b + h) == b * b + 2.0 * (b * h) + h * h;
  }

  lemma ProductNonNegative(a: real, b: real)
    requires a >= 0.0 && b >= 0.0
    ensures a * b >= 0.0
  {}

  lemma CancelPositive(a: real, b: real, k: real)
    requires k > 0.0 && a * k <= b * k
    ensures a <= b
  {}

  /** `x` is the smaller root of (x - p)^2 = v x (1 - x). */
  ghost predicate IsLower(p: real, v: real, x: real) {
    && 0.0 <= x <= p <= 1.0 && 0.0 <= v
    && (p - x) * (p - x) == v * (x * (1.0 - x))
  }

  /** How the spread `t` and the bound `x` depend on the proportion `p` and on `v = z^2 / n`. */
  ghost predicate Spread(p: real, v: real, t: real, x: real) {
    && 0.0 <= p <= 1.0 && v >= 0.0 && t >= 0.0
    && t * t == v * (p * (1.0 - p)) + v * v / 4.0
    && x * (1.0 + v) == p + v / 2.0 - t
  }

  /** centre^2 - spread^2 == denom * p^2. */
  lemma CentreIdentity(p: real, v: real, t: real)
    requires t * t == v * (p * (1.0 - p)) + v * v / 4.0
    ensures (p + v / 2.0) * (p + v / 2.0) - t * t == (1.0 + v) * (p * p)
  {}

  lemma SpreadBelowCentre(p: real, v: real, t: real, x: real)
    requires Spread(p, v, t, x)
    ensures t <= p + v / 2.0 && x >= 0.0
  {
    CentreIdentity(p, v, t);
    ProductNonNegative(p, p);
    ProductNonNegative(1.0 + v, p * p);
    SquareOrder(t, p + v / 2.0);
    CancelPositive(0.0, x, 1.0 + v);
  }

  lemma GapSquare(p: real, v: real)
    ensures (v * (0.5 - p)) * (v * (0.5 - p)) == v * v / 4.0 - (v * v) * (p * (1.0 - p))
  {
    assert (0.5 - p) * (0.5 - p) == 0.25 - p * (1.0 - p);
    assert (v * (0.5 - p)) * (v * (0.5 - p)) == (v * v) * ((0.5 - p) * (0.5 - p));
  }

  lemma SpreadCoversGap(p: real, v: real, t: real, x: real)
    requires Spread(p, v, t, x)
    ensures v * (0.5 - p) <= t && v * (p - 0.5) <= t
  {
    var a := v * (0.5 - p);
    GapSquare(p, v);
    ProductNonNegative(p, 1.0 - p);
    ProductNonNegative(v, v);
    ProductNonNegative(v * v, p * (1.0 - p));
    ProductNonNegative(v, p * (1.0 - p));
    WithinSquare(a, t);
    assert v * (p - 0.5) == -a;
  }

  lemma WithinSquare(a: real, t: real)
    requires t >= 0.0 && a * a <= t * t
    ensures -t <= a <= t
  {
    SquareOrder(a, t);
    assert (-a) * (-a) == a * a;
    SquareOrder(-a, t);
  }

  lemma LowerFromSpread(p: real, v: real, t: real, x: real)
    requires Spread(p, v, t, x)
    ensures IsLower(p, v, x)
  {
    SpreadBelowCentre(p, v, t, x);
    SpreadCoversGap(p, v, t, x);
    CancelPositive(x, p, 1.0 + v);
    CentreIdentity(p, v, t);
    RootOfQuadratic(p, v, t, x, p + v / 2.0);
  }

  lemma RootOfQuadratic(p: real, v: real, t: real, x: real, c: real)
    requires v >= 0.0 && c == p + v / 2.0 && x * (1.0 + v) == c - t
    requires c * c - t * t == (1.0 + v) * (p * p)
    ensures (p - x) * (p - x) == v * (x * (1.0 - x))
  {
    var k := 1.0 + v;
    var residue := x * (x * k) - 2.0 * c * x + p * p;
    assert k * residue == (x * k) * (x * k) - 2.0 * c * (x * k) + k * (p * p);
    assert (x * k) * (x * k) - 2.0 * c * (x * k) == (c - x * k) * (c - x * k) - c * c;
    assert k * residue == 0.0;
    assert residue == 0.0;
    assert residue == (p - x) * (p - x) - v * (x * (1.0 - x));
  }

  // ---- One more observation ----

  /** A smaller root lies at or below every point left of `p'` at which the quadratic of (p', v') is non-positive. */
  lemma LowerIsBelow(p': real, v': real, t': real, x': real, x: real)
    requires Spread(p', v', t', x')
    requires (p' - x) * (p' - x) <= v' * (x * (1.0 - x))
    ensures x' <= x
  {
    var c, k := p' + v' / 2.0, 1.0 + v';
    ScaledQuadratic(p', v', t', x, c);
    assert (c - k * x) * (c - k * x) <= t' * t';
    SquareOrder(c - k * x, t');
    CancelPositive(x', x, k);
  }

  /** ... and at or above every point strictly left of `p'` at which it is non-negative. */
  lemma LowerIsAbove(p': real, v': real, t': real, x': real, x: real)
    requires Spread(p', v', t', x') && x < p'
    requires (p' - x) * (p' - x) >= v' * (x * (1.0 - x))
    ensures x <= x'
  {
    var c, k := p' + v' / 2.0, 1.0 + v';
    ScaledQuadratic(p', v', t', x, c);
    assert (c - k * x) * (c - k * x) >= t' * t';
    SpreadCoversGap(p', v', t', x');
    LeftOfUpperRoot(p', v', t', x, c, k);
    CancelPositive(x, x', k);
  }

  lemma LeftOfUpperRoot(p: real, v: real, t: real, x: real, c: real, k: real)
    requires k == 1.0 + v && v >= 0.0 && t >= 0.0 && x < p && c == p + v / 2.0
    requires v * (p - 0.5) <= t && (c - k * x) * (c - k * x) >= t * t
    ensures t <= c - k * x
  {
    SquareGrows(0.0, 1.0);
    assert k * (p - x) >= p - x;
    assert k * x - c < t;
    if c - k * x < 0.0 {
      SquareOrder(t, k * x - c);
    } else {
      SquareOrder(t, c - k * x);
    }
  }

  /** denom times the quadratic is a difference of squares. */
  lemma ScaledQuadratic(p: real, v: real, t: real, x: real, c: real)
    requires c == p + v / 2.0 && t * t == v * (p * (1.0 - p)) + v * v / 4.0 && v >= 0.0
    ensures
      var gap := (p - x) * (p - x) - v * (x * (1.0 - x));
      && (c - (1.0 + v) * x) * (c - (1.0 + v) * x) - t * t == (1.0 + v) * gap
      && (gap <= 0.0 ==> (1.0 + v) * gap <= 0.0) && (gap >= 0.0 ==> (1.0 + v) * gap >= 0.0)
  {
    CentreIdentity(p, v, t);
    var k := 1.0 + v;
    var gap := (p - x) * (p - x) - v * (x * (1.0 - x));
    assert gap == k * (x * x) - 2.0 * c * x + p * p;
    assert k * gap == (k * x) * (k * x) - 2.0 * c * (k * x) + k * (p * p);
    assert (c - k * x) * (c - k * x) == c * c - 2.0 * c * (k * x) + (k * x) * (k * x);
  }

  lemma Compare(a: real, b: real, k: real)
    requires k > 0.0
    ensures a * k >= b * k ==> a >= b
    ensures a * k <= b * k ==> a <= b
  {}

  lemma ProductPositive(a: real, b: real)
    requires a > 0.0 && b > 0.0
    ensures a * b > 0.0
  {}

  lemma Scale(k: real, a: real, b: real)
    requires k >= 0.0 && a <= b
    ensures k * a <= k * b
  {}

  lemma TimesEqual(a: real, b: real, k: real)
    requires a == b
    ensures k * a == k * b
  {}

  /** Clearing the denominator n from the old root: a = n (p - x), g = x (1 - x), w = v n. */
  lemma ScaledRoot(n: real, w: real, p: real, v: real, x: real, g: real)
    requires (p - x) * (p - x) == v * g && v * n == w
    ensures (n * (p - x)) * (n * (p - x)) == n * (w * g)
  {
    var y := p - x;
    assert (n * y) * (n * y) == n * (n * (y * y));
    TimesEqual(y * y, v * g, n);
    assert n * (v * g) == (v * n) * g;
  }

  lemma LevelBound(n: real, a: real, u: real, level: real)
    requires n > 0.0 && 0.0 <= a <= n * u && a * a == n * level
    ensures level <= a * u
  {
    var au := a * u;
    ProductNonNegative(a, n * u - a);
    assert au * n == a * (n * u);
    CancelPositive(level, au, n);
  }

  lemma AcceptanceSquares(n: real, a: real, u: real, level: real)
    requires n > 0.0 && 0.0 <= a <= n * u && u >= 0.0 && a * a == n * level
    ensures (a + u) * (a + u) >= (n + 1.0) * level
  {
    LevelBound(n, a, u, level);
    ProductNonNegative(a, u);
    ProductNonNegative(u, u);
    assert (a + u) * (a + u) == a * a + 2.0 * (a * u) + u * u;
    assert (n + 1.0) * level == n * level + level;
  }

  lemma RejectionSquares(n: real, a: real, x: real, level: real)
    requires n > 0.0 && 0.0 <= x <= a && a * a == n * level
    ensures (a - x) * (a - x) <= (n + 1.0) * level
  {
    ProductNonNegative(x, a - x);
    ProductNonNegative(x, a);
    assert (a - x) * (a - x) == a * a - x * a - x * (a - x);
    ProductNonNegative(a, a);
    CancelPositive(0.0, level, n);
  }

  /** From the cleared comparison back to the quotients `y` and `l`. */
  lemma Divide(m: real, y: real, l: real, rest: real, level: real)
    requires m > 0.0 && m * y == rest && m * l == level
    ensures rest * rest >= m * level ==> y * y >= l
    ensures rest * rest <= m * level ==> y * y <= l
  {
    assert rest * rest == (y * rest) * m;
    Compare(y * rest, level, m);
    assert y * rest == (y * y) * m;
    Compare(y * y, l, m);
  }

  lemma AcceptanceStep(n: real, a: real, u: real, level: real, y: real, l: real)
    requires n > 0.0 && 0.0 <= a <= n * u && u >= 0.0 && a * a == n * level
    requires (n + 1.0) * y == a + u && (n + 1.0) * l == level
    ensures y * y >= l
  {
    AcceptanceSquares(n, a, u, level);
    Divide(n + 1.0, y, l, a + u, level);
  }

  lemma RejectionStep(n: real, a: real, x: real, level: real, y: real, l: real)
    requires n > 0.0 && 0.0 <= x <= a && a * a == n * level
    requires (n + 1.0) * y == a - x && (n + 1.0) * l == level
    ensures y * y <= l
  {
    RejectionSquares(n, a, x, level);
    Divide(n + 1.0, y, l, a - x, level);
  }

  /** The numbers of one more observation, counted `extra` (1 accepted, 0 rejected), with m = n + 1. */
  ghost predicate OneMore(n: real, m: real, w: real, p: real, v: real, p': real, v': real, extra: real) {
    && n > 0.0 && m == n + 1.0
    && v * n == w && v' * m == w && p' * m == p * n + extra
  }

  lemma ShiftProportion(n: real, m: real, p: real, p': real, extra: real, x: real)
    requires m == n + 1.0 && p' * m == p * n + extra
    ensures (n + 1.0) * (p' - x) == n * (p - x) + (extra - x)
  {
    TimesEqual(m, n + 1.0, p');
  }

  lemma ShiftLevel(n: real, m: real, w: real, v': real, g: real)
    requires m == n + 1.0 && v' * m == w
    ensures (n + 1.0) * (v' * g) == w * g
  {
    TimesEqual(m, n + 1.0, v');
    assert (n + 1.0) * (v' * g) == (v' * (n + 1.0)) * g;
  }

  /** One more acceptance: at the old bound the new quadratic is non-negative. */
  lemma AcceptanceGap(n: real, m: real, w: real, p: real, v: real, x: real, g: real, p': real, v': real)
    requires OneMore(n, m, w, p, v, p', v', 1.0) && x <= p <= 1.0 && (p - x) * (p - x) == v * g
    ensures (p' - x) * (p' - x) >= v' * g
  {
    ScaledRoot(n, w, p, v, x, g);
    ShiftProportion(n, m, p, p', 1.0, x);
    ShiftLevel(n, m, w, v', g);
    Scale(n, 0.0, p - x);
    Scale(n, p - x, 1.0 - x);
    AcceptanceStep(n, n * (p - x), 1.0 - x, w * g, p' - x, v' * g);
  }

  /** One more rejection: at the old bound, if left of the new proportion, it is non-positive. */
  lemma RejectionGap(n: real, m: real, w: real, p: real, v: real, x: real, g: real, p': real, v': real)
    requires OneMore(n, m, w, p, v, p', v', 0.0) && 0.0 <= x <= p' && (p - x) * (p - x) == v * g
    ensures (p' - x) * (p' - x) <= v' * g
  {
    ScaledRoot(n, w, p, v, x, g);
    ShiftProportion(n, m, p, p', 0.0, x);
    ShiftLevel(n, m, w, v', g);
    Scale(n + 1.0, 0.0, p' - x);
    RejectionStep(n, n * (p - x), x, w * g, p' - x, v' * g);
  }

  lemma AcceptanceKeepsLeft(n: real, m: real, w: real, p: real, v: real, x: real, p': real, v': real)
    requires OneMore(n, m, w, p, v, p', v', 1.0) && IsLower(p, v, x)
    ensures (p' - x) * (p' - x) >= v' * (x * (1.0 - x))
  {
    var g := x * (1.0 - x);
    AcceptanceGap(n, m, w, p, v, x, g, p', v');
    TimesEqual(g, x * (1.0 - x), v');
  }

  lemma RejectionPutsRight(n: real, m: real, w: real, p: real, v: real, x: real, p': real, v': real)
    requires OneMore(n, m, w, p, v, p', v', 0.0) && IsLower(p, v, x) && x <= p'
    ensures (p' - x) * (p' - x) <= v' * (x * (1.0 - x))
  {
    var g := x * (1.0 - x);
    RejectionGap(n, m, w, p, v, x, g, p', v');
    TimesEqual(g, x * (1.0 - x), v');
  }

  /** If the new proportion does not lie right of the old bound, everything was accepted and z is 0. */
  lemma ProportionGrows(n: real, m: real, p: real, p': real)
    requires n > 0.0 && m == n + 1.0 && p' * m == p * n + 1.0 && p <= 1.0
    ensures p <= p' && (p' <= p ==> p == 1.0)
  {
    TimesEqual(m, n + 1.0, p');
    assert (p' - p) * (n + 1.0) == 1.0 - p;
    Compare(p' - p, 0.0, n + 1.0);
  }

  lemma AllAccepted(v: real, t: real, x: real)
    requires x == 1.0 && v >= 0.0 && t >= 0.0 && x * (1.0 + v) == 1.0 + v / 2.0 - t
    ensures v == 0.0
  {}

  lemma NoSpread(p: real, v: real, t: real, x: real)
    requires Spread(p, v, t, x) && v == 0.0
    ensures x == p
  {
    SquareOrder(t, 0.0);
  }

  lemma AcceptanceRaises(n: real, m: real, w: real, p: real, v: real, t: real, x: real,
                         p': real, v': real, t': real, x': real)
    requires OneMore(n, m, w, p, v, p', v', 1.0) && Spread(p, v, t, x) && Spread(p', v', t', x')
    ensures x <= x'
  {
    LowerFromSpread(p, v, t, x);
    ProportionGrows(n, m, p, p');
    if x < p' {
      AcceptanceKeepsLeft(n, m, w, p, v, x, p', v');
      LowerIsAbove(p', v', t', x', x);
    } else {
      AllAccepted(v, t, x);
      ZeroFactor(v', m);
      NoSpread(p', v', t', x');
    }
  }

  lemma ZeroFactor(a: real, b: real)
    requires a * b == 0.0 && b > 0.0
    ensures a == 0.0
  {}

  lemma RejectionLowers(n: real, m: real, w: real, p: real, v: real, t: real, x: real,
                        p': real, v': real, t': real, x': real)
    requires OneMore(n, m, w, p, v, p', v', 0.0) && Spread(p, v, t, x) && Spread(p', v', t', x')
    ensures x' <= x
  {
    LowerFromSpread(p, v, t, x);
    if x < p' {
      RejectionPutsRight(n, m, w, p, v, x, p', v');
      LowerIsBelow(p', v', t', x', x);
    } else {
      LowerFromSpread(p', v', t', x');
    }
  }

  // ---- Main results on the bound ----

  lemma Quotient(a: real, b: real)
    requires b > 0.0
    ensures a / b * b == a
  {}

  lemma QuotientIs(q: real, a: real, b: real)
    requires b > 0.0 && q * b == a
    ensures q == a / b
  {}

  lemma NestedQuotient(w: real, a: real, b: real)
    requires a > 0.0 && b > 0.0
    ensures a * b > 0.0 && w / (a * b) == w / a / b
  {
    ProductPositive(a, b);
    var q := w / a / b;
    Quotient(w / a, b);
    Quotient(w, a);
    assert q * (a * b) == (q * b) * a;
    QuotientIs(q, w, a * b);
  }

  lemma QuotientNonNegative(w: real, n: real)
    requires w >= 0.0 && n > 0.0
    ensures w / n >= 0.0
  {}

  lemma CombineValue(p: real, n: real, w: real, spread: real)
    requires n > 0.0 && w >= 0.0
    ensures w / n >= 0.0 && Combine(p, n, w, spread) * (1.0 + w / n) == p + w / n / 2.0 - spread
  {
    QuotientNonNegative(w, n);
    NestedQuotient(w, n, 2.0);
    Quotient(p + w / (2.0 * n) - spread, 1.0 + w / n);
  }

  lemma RadicandValue(n: real, p: real, w: real, v: real)
    requires n > 0.0 && 0.0 <= p <= 1.0 && w >= 0.0 && v == w / n
    ensures RadicandOf(p, n, w) >= 0.0
    ensures w * RadicandOf(p, n, w) == v * (p * (1.0 - p)) + v * v / 4.0
  {
    var e := p * (1.0 - p);
    ProductNonNegative(p, 1.0 - p);
    QuotientNonNegative(e, n);
    QuotientNonNegative(w, n);
    QuotientNonNegative(v, n);
    Quotient(w, n);
    Quotient(v, n);
    Quotient(e, n);
    QuarterQuotient(w, n, n);
    RadicandTimes(n, w, v, e / n, v / n, e);
  }

  lemma QuarterQuotient(w: real, n: real, m: real)
    requires n > 0.0 && m > 0.0
    ensures 4.0 * n * m > 0.0 && w / (4.0 * n * m) == w / n / m / 4.0
  {
    ProductPositive(n, m);
    var u := w / n;
    var q := u / m;
    Quotient(w, n);
    Quotient(u, m);
    QuarterTimes(n, m, u, q, w);
    QuotientIs(q / 4.0, w, 4.0 * n * m);
  }

  lemma QuarterTimes(n: real, m: real, u: real, q: real, w: real)
    requires u * n == w && q * m == u
    ensures q / 4.0 * (4.0 * n * m) == w
  {
    assert q / 4.0 * (4.0 * n * m) == (q * m) * n;
  }

  lemma RadicandTimes(n: real, w: real, v: real, en: real, vn: real, e: real)
    requires v * n == w && en * n == e && vn * n == v
    ensures w * (en + vn / 4.0) == v * e + v * v / 4.0
  {
    assert w * en == v * (en * n);
    assert w * vn == v * (vn * n);
  }

  lemma Proportion(alpha: real, beta: real)
    requires alpha >= 0.0 && beta >= 0.0 && alpha + beta > 0.0
    ensures 0.0 <= alpha / (alpha + beta) <= 1.0
  {}

  lemma SquareOfProduct(z: real, s: real, t: real)
    requires t == Abs(z) * s
    ensures t * t == (z * z) * (s * s)
  {
    assert Abs(z) * Abs(z) == z * z;
    assert t * t == (Abs(z) * Abs(z)) * (s * s);
  }

  lemma SpreadSquare(alpha: real, beta: real, z: real, sqrt: real -> real, p: real, v: real)
    requires IsSqrt(sqrt) && alpha >= 0.0 && beta >= 0.0 && alpha + beta > 0.0
    requires p == alpha / (alpha + beta) && v == z * z / (alpha + beta)
    ensures
      var t := SpreadTerm(alpha, beta, z, sqrt);
      t >= 0.0 && t * t == v * (p * (1.0 - p)) + v * v / 4.0
  {
    Proportion(alpha, beta);
    RadicandValue(alpha + beta, p, z * z, v);
    var root := sqrt(RadicandOf(p, alpha + beta, z * z));
    ProductNonNegative(Abs(z), root);
    SquareOfProduct(z, root, SpreadTerm(alpha, beta, z, sqrt));
  }

  /** The code's intermediate values are a spread in the sense above. */
  lemma SpreadOf(alpha: real, beta: real, z: real, sqrt: real -> real)
    requires IsSqrt(sqrt) && alpha >= 0.0 && beta >= 0.0 && alpha + beta > 0.0
    ensures
      var n := alpha + beta;
      Spread(alpha / n, z * z / n, SpreadTerm(alpha, beta, z, sqrt), Unclamped(alpha, beta, z, sqrt))
  {
    var n := alpha + beta;
    Proportion(alpha, beta);
    SpreadSquare(alpha, beta, z, sqrt, alpha / n, z * z / n);
    CombineValue(alpha / n, n, z * z, SpreadTerm(alpha, beta, z, sqrt));
  }

  lemma LowerOf(alpha: real, beta: real, z: real, sqrt: real -> real)
    requires IsSqrt(sqrt) && alpha >= 0.0 && beta >= 0.0 && alpha + beta > 0.0
    ensures IsLower(alpha / (alpha + beta), z * z / (alpha + beta), Unclamped(alpha, beta, z, sqrt))
  {
    SpreadOf(alpha, beta, z, sqrt);
    LowerFromSpread(alpha / (alpha + beta), z * z / (alpha + beta),
                    SpreadTerm(alpha, beta, z, sqrt), Unclamped(alpha, beta, z, sqrt));
  }

  /** The Wilson bound lies in [0, alpha / (alpha + beta)], and the clamp at 0 never acts. */
  lemma BoundBelowMean(alpha: real, beta: real, z: real, sqrt: real -> real)
    requires IsSqrt(sqrt) && alpha >= 0.0 && beta >= 0.0 && alpha + beta >= 2.0
    ensures LowerBound(alpha, beta, z, sqrt) == Unclamped(alpha, beta, z, sqrt)
    ensures 0.0 <= LowerBound(alpha, beta, z, sqrt) <= alpha / (alpha + beta)
  {
    LowerOf(alpha, beta, z, sqrt);
  }

  /** It is the smaller root of Wilson's equation n (p - x)^2 = z^2 x (1 - x) for the proportion p = alpha / n, and 0
      for samples of weight below 2. */
  lemma BoundIsWilsonRoot(alpha: real, beta: real, z: real, sqrt: real -> real, n: real, p: real, x: real)
    requires IsSqrt(sqrt) && alpha >= 0.0 && beta >= 0.0
    requires n == alpha + beta && x == LowerBound(alpha, beta, z, sqrt) && (n > 0.0 ==> p == alpha / n)
    ensures n < 2.0 ==> x == 0.0
    ensures n >= 2.0 ==> 0.0 <= x <= p && n * ((p - x) * (p - x)) == (z * z) * (x * (1.0 - x))
  {
    if n >= 2.0 {
      BoundBelowMean(alpha, beta, z, sqrt);
      LowerOf(alpha, beta, z, sqrt);
      LowerIsRoot(n, p, z * z, z * z / n, x);
    }
  }

  lemma LowerIsRoot(n: real, p: real, w: real, v: real, x: real)
    requires n > 0.0 && v == w / n && IsLower(p, v, x)
    ensures 0.0 <= x <= p && n * ((p - x) * (p - x)) == w * (x * (1.0 - x))
  {
    var gap, g := (p - x) * (p - x), x * (1.0 - x);
    RootTimes(n, w, v, gap, g);
  }

  lemma RootTimes(n: real, w: real, v: real, gap: real, g: real)
    requires n > 0.0 && v == w / n && gap == v * g
    ensures n * gap == w * g
  {
    Quotient(w, n);
    assert n * gap == (v * n) * g;
  }

  lemma OneMoreOf(alpha: real, beta: real, alpha': real, beta': real, w: real)
    requires alpha + beta > 0.0 && alpha' + beta' == alpha + beta + 1.0
    ensures OneMore(alpha + beta, alpha' + beta', w, alpha / (alpha + beta), w / (alpha + beta),
                    alpha' / (alpha' + beta'), w / (alpha' + beta'), alpha' - alpha)
  {
    Quotient(alpha, alpha + beta);
    Quotient(w, alpha + beta);
    Quotient(alpha', alpha' + beta');
    Quotient(w, alpha' + beta');
  }

  /** One more acceptance never lowers the bound. */
  lemma AcceptanceNeverLowers(alpha: real, beta: real, z: real, sqrt: real -> real)
    requires IsSqrt(sqrt) && alpha >= 0.0 && beta >= 0.0
    ensures LowerBound(alpha, beta, z, sqrt) <= LowerBound(alpha + 1.0, beta, z, sqrt)
  {
    if alpha + beta >= 2.0 {
      var alpha' := alpha + 1.0;
      var n, m, w := alpha + beta, alpha' + beta, z * z;
      OneMoreOf(alpha, beta, alpha', beta, w);
      SpreadOf(alpha, beta, z, sqrt);
      SpreadOf(alpha', beta, z, sqrt);
      AcceptanceRaises(n, m, w, alpha / n, w / n, SpreadTerm(alpha, beta, z, sqrt), Unclamped(alpha, beta, z, sqrt),
                       alpha' / m, w / m, SpreadTerm(alpha', beta, z, sqrt), Unclamped(alpha', beta, z, sqrt));
    }
  }

  /** Once alpha + beta >= 2, one more rejection never raises the bound. */
  lemma RejectionNeverRaises(alpha: real, beta: real, z: real, sqrt: real -> real)
    requires IsSqrt(sqrt) && alpha >= 0.0 && beta >= 0.0 && alpha + beta >= 2.0
    ensures LowerBound(alpha, beta + 1.0, z, sqrt) <= LowerBound(alpha, beta, z, sqrt)
  {
    var beta' := beta + 1.0;
    var n, m, w := alpha + beta, alpha + beta', z * z;
    OneMoreOf(alpha, beta, alpha, beta', w);
    SpreadOf(alpha, beta, z, sqrt);
    SpreadOf(alpha, beta', z, sqrt);
    RejectionLowers(n, m, w, alpha / n, w / n, SpreadTerm(alpha, beta, z, sqrt), Unclamped(alpha, beta, z, sqrt),
                    alpha / m, w / m, SpreadTerm(alpha, beta', z, sqrt), Unclamped(alpha, beta', z, sqrt));
  }

  lemma LowerPositive(p: real, v: real, x: real)
    requires IsLower(p, v, x)
    ensures x > 0.0 <==> p > 0.0
  {
    if x == 0.0 {
      SquareOrder(p, 0.0);
    }
  }

  lemma QuotientPositive(a: real, n: real)
    requires n > 0.0
    ensures a / n > 0.0 <==> a > 0.0
  {}

  lemma BoundPositive(alpha: real, beta: real, z: real, sqrt: real -> real)
    requires IsSqrt(sqrt) && alpha >= 0.0 && beta >= 0.0 && alpha + beta >= 2.0
    ensures LowerBound(alpha, beta, z, sqrt) > 0.0 <==> alpha > 0.0
  {
    LowerOf(alpha, beta, z, sqrt);
    LowerPositive(alpha / (alpha + beta), z * z / (alpha + beta), Unclamped(alpha, beta, z, sqrt));
    QuotientPositive(alpha, alpha + beta);
  }

  /** The small-sample fallback is the one exception: a rejection raises the bound exactly when it
      lifts a sample with some acceptance weight across the threshold of 2. */
  lemma RejectionRaisesExactlyWhen(alpha: real, beta: real, z: real, sqrt: real -> real)
    requires IsSqrt(sqrt) && alpha >= 0.0 && beta >= 0.0
    ensures LowerBound(alpha, beta + 1.0, z, sqrt) > LowerBound(alpha, beta, z, sqrt)
            <==> alpha > 0.0 && 1.0 <= alpha + beta < 2.0
  {
    if alpha + beta >= 2.0 {
      RejectionNeverRaises(alpha, beta, z, sqrt);
    } else if alpha + beta >= 1.0 {
      BoundPositive(alpha, beta + 1.0, z, sqrt);
    }
  }
}
