/** The Wilson score upper bound (src/mlcache/calibration/wilson.py) in exact arithmetic.

    Reals have no square-root function here: the value `sqrt` returns is a
    parameter `root`, and every result holds for the non-negative root. The
    predicate `UpperAtMost` decides comparisons with the bound without a root. */
module Wilson {
  import opened Scores
  import opened RealArithmetic

  function Rate(successes: int, n: int): real
    requires n > 0
  {
    (successes as real) / (n as real)
  }

  /** The argument of `sqrt`. */
  function Radicand(phat: real, n: real, z: real): real
    requires n > 0.0
  {
    phat * (1.0 - phat) / n + (z * z) / (4.0 * n * n)
  }

  ghost predicate IsRoot(root: real, x: real) {
    root >= 0.0 && root * root == x
  }

  /** `(center + radius) / denom`, before the final clamp. */
  function Upper(phat: real, n: real, z: real, root: real): real
    requires n > 0.0
  {
    var z2 := z * z;
    assert z2 / n >= 0.0;
    var denom := 1.0 + z2 / n;
    var center := phat + z2 / (2.0 * n);
    (center + z * root) / denom
  }

  function RawUpper(successes: int, n: int, z: real, root: real): real
    requires n > 0
  {
    Upper(Rate(successes, n), n as real, z, root)
  }

  function WilsonUpperBound(successes: int, n: int, z: real, root: real): Result<Option<real>> {
    if successes < 0 then Err("successes must be non-negative")
    else if n < 0 then Err("n must be non-negative")
    else if successes > n then Err("successes must be less than or equal to n")
    else if z <= 0.0 then Err("z must be positive")
    else if n == 0 then Ok(None)
    else Ok(Some(MinReal(1.0, RawUpper(successes, n, z, root))))
  }

  /** `root` is what `sqrt` returns for these arguments. */
  ghost predicate IsWilsonRoot(successes: int, n: int, z: real, root: real) {
    0 <= successes <= n && n > 0 && z > 0.0 && IsRoot(root, Radicand(Rate(successes, n), n as real, z))
  }

  predicate AtMost(phat: real, n: real, z: real, a: real) {
    a > 0.0 && a >= phat && n * (a - phat) * (a - phat) >= z * z * a * (1.0 - a)
  }

  /** Whether the bound is at most `a`, without a square root. */
  predicate UpperAtMost(successes: int, n: int, z: real, a: real)
    requires n > 0
  {
    AtMost(Rate(successes, n), n as real, z, a)
  }

  // ---- the quadratic behind the bound; t stands for z^2 / n and s for the radius ----

  function PerSample(n: real, z: real): real
    requires n > 0.0
  {
    z * z / n
  }

  function Radius(z: real, root: real): real { z * root }

  function Slack(p: real, t: real, a: real): real { (a - p) + t * (a - 0.5) }

  predicate GapWide(p: real, t: real, a: real) {
    (a - p) * (a - p) >= t * (a * (1.0 - a))
  }

  predicate IsRadius(p: real, t: real, s: real) {
    s >= 0.0 && s * s == t * (p * (1.0 - p)) + t * t / 4.0
  }

  /** Completing the square: D is the slack of the root, t = z^2/n. */
  lemma SlackSquared(p: real, t: real, a: real)
    ensures Slack(p, t, a) * Slack(p, t, a) - (t * (p * (1.0 - p)) + t * t / 4.0)
            == (1.0 + t) * ((a - p) * (a - p) - t * (a * (1.0 - a)))
  {
    var x, y := a - p, a - 0.5;
    var d := x + t * y;
    assert d * d == x * x + 2.0 * t * (x * y) + t * t * (y * y);
    assert y * y == a * a - a + 0.25;
    assert x * y == a * a - 0.5 * a - a * p + 0.5 * p;
    assert x * x == a * a - 2.0 * (a * p) + p * p;
    assert p * (1.0 - p) == p - p * p;
    assert a * (1.0 - a) == a - a * a;
    var q, u := x * x, a * a - a;
    assert 2.0 * (x * y) - p * (1.0 - p) == q + u;
    assert t * (2.0 * (x * y)) - t * (p * (1.0 - p)) == t * (q + u);
    assert t * t * (y * y) == t * t * u + t * t / 4.0;
    assert (1.0 + t) * (q + t * u) == q + t * u + t * q + t * t * u;
  }

  lemma SlackProduct(x: real, hi: real, y: real, wide: real, t: real)
    requires 0.0 <= x <= hi && 0.0 < hi && 0.0 < y < wide && t > 0.0
    requires x <= t * y
    ensures x * x < t * (wide * hi)
  {
    var u, hy, hw := t * y, hi * y, hi * wide;
    StrictProducts(hi, y, wide, hy, hw);
    var mid, high := t * hy, t * hw;
    StrictProducts(t, hy, hw, mid, high);
    MulMonotone(x, x, u);
    MulMonotone(u, x, hi);
    var xu := x * u;
    assert x * x <= xu <= u * hi;
    assert u * hi == mid;
    assert wide * hi == hw;
  }

  lemma SlackAbove(p: real, t: real, a: real)
    requires 0.0 <= p <= 1.0 && t > 0.0 && a < p
    requires Slack(p, t, a) >= 0.0
    ensures !GapWide(p, t, a)
  {
    var x, y := p - a, a - 0.5;
    assert y > 0.0 by { if y <= 0.0 { MulMonotone(t, y, 0.0); } }
    SlackProduct(x, 1.0 - a, y, a, t);
    assert (a - p) * (a - p) == x * x;
  }

  lemma SlackBelow(p: real, t: real, a: real)
    requires 0.0 <= p <= a && 0.0 < a && t > 0.0
    requires Slack(p, t, a) < 0.0
    ensures !GapWide(p, t, a)
  {
    var x, y := a - p, 0.5 - a;
    assert t * (a - 0.5) == -(t * y);
    assert y > 0.0 by { if y <= 0.0 { MulMonotone(t, y, 0.0); } }
    SlackProduct(x, a, y, 1.0 - a, t);
    assert (1.0 - a) * a == a * (1.0 - a);
  }

  /** The sign of the slack agrees with the side of the empirical rate. */
  lemma SlackSign(p: real, t: real, a: real)
    requires 0.0 <= p <= 1.0 && t > 0.0
    requires GapWide(p, t, a)
    ensures Slack(p, t, a) >= 0.0 <==> a > 0.0 && a >= p
  {
    var d := Slack(p, t, a);
    if d >= 0.0 && a < p {
      SlackAbove(p, t, a);
    }
    if a >= p && a <= 0.0 {
      assert a == p == 0.0;
    }
    if a > 0.0 && a >= p && d < 0.0 {
      SlackBelow(p, t, a);
    }
  }

  lemma CoreComparison(p: real, t: real, a: real, s: real)
    requires 0.0 <= p <= 1.0 && t > 0.0 && IsRadius(p, t, s)
    ensures s <= Slack(p, t, a) <==> a > 0.0 && a >= p && GapWide(p, t, a)
  {
    var d := Slack(p, t, a);
    var q := (a - p) * (a - p) - t * (a * (1.0 - a));
    SlackSquared(p, t, a);
    SquareOrder(s, d);
    MulStrict(1.0 + t, 0.0, q);
    if q >= 0.0 {
      SlackSign(p, t, a);
    }
  }

  lemma PerSamplePositive(n: real, z: real)
    requires n > 0.0 && z > 0.0
    ensures z * z > 0.0 && PerSample(n, z) > 0.0
  {
    var z2 := z * z;
    ProductPositive(z, z, z2);
    QuotientPositive(z2, n, z2 / n);
  }

  lemma SmallTerm(z2: real, n: real, t: real, w: real)
    requires n > 0.0 && t == z2 / n && n * n > 0.0 && w == z2 / (4.0 * n * n)
    ensures z2 * w == t * t / 4.0
  {
    var n2 := n * n;
    assert t * n == z2;
    assert 4.0 * n * n == 4.0 * n2;
    var d := 4.0 * n2;
    assert w * d == z2;
    assert z2 * z2 == (t * t) * n2;
    var u := z2 * w;
    assert u * d == z2 * z2;
    assert (u - t * t / 4.0) * d == 0.0;
  }

  lemma Distribute(c: real, n: real, u: real, w: real)
    ensures c * (u + w) == c * u + c * w
  {
  }

  lemma RadiusOfRoot(p: real, n: real, z: real, root: real)
    requires n > 0.0 && z > 0.0 && IsRoot(root, Radicand(p, n, z))
    ensures IsRadius(p, PerSample(n, z), Radius(z, root))
  {
    var z2, y, n2 := z * z, p * (1.0 - p), n * n;
    var t := z2 / n;
    ProductPositive(n, n, n2);
    var w := z2 / (4.0 * n * n);
    assert 4.0 * n * n == 4.0 * n2;
    SmallTerm(z2, n, t, w);
    Distribute(z2, n, y / n, w);
    var s := z * root;
    assert s * s == z2 * (root * root);
    assert t * y == z2 * (y / n);
    assert s >= 0.0;
  }

  lemma UpperAsSlack(p: real, n: real, z: real, root: real, a: real)
    requires n > 0.0 && z > 0.0
    ensures Upper(p, n, z, root) <= a <==> Radius(z, root) <= Slack(p, PerSample(n, z), a)
  {
    PerSamplePositive(n, z);
    var z2, t, s := z * z, z * z / n, z * root;
    assert z2 / (2.0 * n) == t / 2.0;
    var top, denom := p + t / 2.0 + s, 1.0 + t;
    var u := top / denom;
    assert u * denom == top;
    MulStrict(denom, u, a);
    assert denom * a == a + t * a && t * (a - 0.5) == t * a - t / 2.0;
  }

  lemma GapScaled(p: real, n: real, z: real, a: real)
    requires n > 0.0
    ensures a > 0.0 && a >= p && GapWide(p, PerSample(n, z), a) <==> AtMost(p, n, z, a)
  {
    var z2, t, x, y := z * z, z * z / n, (a - p) * (a - p), a * (1.0 - a);
    assert t * n == z2;
    assert n * (t * y) == (t * n) * y;
    MulStrict(n, t * y, x);
    assert n * (a - p) * (a - p) == n * x;
    assert z * z * a * (1.0 - a) == z2 * y;
  }

  lemma Comparison(p: real, n: real, z: real, root: real, a: real)
    requires 0.0 <= p <= 1.0 && n > 0.0 && z > 0.0 && IsRoot(root, Radicand(p, n, z))
    ensures Upper(p, n, z, root) <= a <==> AtMost(p, n, z, a)
  {
    PerSamplePositive(n, z);
    RadiusOfRoot(p, n, z, root);
    CoreComparison(p, PerSample(n, z), a, Radius(z, root));
    UpperAsSlack(p, n, z, root, a);
    GapScaled(p, n, z, a);
  }

  // ---- main results ----

  lemma RateInUnit(successes: int, n: int)
    requires 0 <= successes <= n && n > 0
    ensures 0.0 <= Rate(successes, n) <= 1.0
  {
  }

  /** Comparing with the bound needs no square root. */
  lemma UpperBoundComparison(successes: int, n: int, z: real, root: real, a: real)
    requires IsWilsonRoot(successes, n, z, root)
    ensures RawUpper(successes, n, z, root) <= a <==> UpperAtMost(successes, n, z, a)
  {
    RateInUnit(successes, n);
    Comparison(Rate(successes, n), n as real, z, root, a);
  }

  lemma AtMostOne(p: real, n: real, z: real)
    requires 0.0 <= p <= 1.0 && n > 0.0
    ensures AtMost(p, n, z, 1.0)
  {
    var x := (1.0 - p) * (1.0 - p);
    assert x >= 0.0;
    assert n * (1.0 - p) * (1.0 - p) == n * x;
    MulMonotone(n, 0.0, x);
  }

  /** The bound lies between the empirical rate and one, and is positive; the clamp is a no-op. */
  lemma UpperBoundRange(successes: int, n: int, z: real, root: real)
    requires IsWilsonRoot(successes, n, z, root)
    ensures 0.0 < RawUpper(successes, n, z, root) <= 1.0
    ensures Rate(successes, n) <= RawUpper(successes, n, z, root)
    ensures WilsonUpperBound(successes, n, z, root) == Ok(Some(RawUpper(successes, n, z, root)))
  {
    RateInUnit(successes, n);
    AtMostOne(Rate(successes, n), n as real, z);
    UpperBoundComparison(successes, n, z, root, 1.0);
    UpperBoundComparison(successes, n, z, root, RawUpper(successes, n, z, root));
  }

  /** When there is a bound: never for counts that do not fit or a z that is not positive, which are errors, and
      not for an empty sample. */
  lemma BoundExists(successes: int, n: int, z: real, root: real)
    ensures WilsonUpperBound(successes, n, z, root).Ok? <==> 0 <= successes <= n && z > 0.0
    ensures WilsonUpperBound(successes, n, z, root).Ok? ==>
              (WilsonUpperBound(successes, n, z, root).value.None? <==> n == 0)
  {
    hide RawUpper;
  }

  /** `UpperAtMost` decides what the code asks of the clamped bound. */
  lemma BoundAtMost(successes: int, n: int, z: real, root: real, a: real)
    requires IsWilsonRoot(successes, n, z, root)
    ensures WilsonUpperBound(successes, n, z, root).Ok? && WilsonUpperBound(successes, n, z, root).value.Some?
    ensures UpperAtMost(successes, n, z, a) <==> WilsonUpperBound(successes, n, z, root).value.value <= a
  {
    UpperBoundRange(successes, n, z, root);
    UpperBoundComparison(successes, n, z, root, a);
  }

  lemma AtMostBoundsRate(p: real, n: real, z: real, a: real)
    requires AtMost(p, n, z, a)
    ensures p <= a
  {
  }

  lemma FractionBelow(k: real, n: real, p: real, a: real)
    requires n > 0.0 && p == k / n && p <= a
    ensures k <= a * n
  {
    assert p * n == k;
    MulStrict(n, p, a);
  }

  /** A bound at most `a` leaves at most a fraction `a` of successes. */
  lemma UpperAtMostBoundsCount(successes: int, n: int, z: real, a: real)
    requires n > 0 && UpperAtMost(successes, n, z, a)
    ensures successes as real <= a * (n as real)
  {
    AtMostBoundsRate(Rate(successes, n), n as real, z, a);
    FractionBelow(successes as real, n as real, Rate(successes, n), a);
  }

  lemma AtMostAntitone(p1: real, p2: real, n: real, z: real, a: real)
    requires n > 0.0 && p1 <= p2 && AtMost(p2, n, z, a)
    ensures AtMost(p1, n, z, a)
  {
    var x, y := a - p2, a - p1;
    MulMonotone(x, x, y);
    MulMonotone(y, x, y);
    MulMonotone(n, x * x, y * y);
    assert n * x * x == n * (x * x) && n * y * y == n * (y * y);
  }

  lemma RateMonotone(k1: int, k2: int, n: int)
    requires k1 <= k2 && n > 0
    ensures Rate(k1, n) <= Rate(k2, n)
  {
    var r1, r2, nr := Rate(k1, n), Rate(k2, n), n as real;
    assert r1 * nr == k1 as real && r2 * nr == k2 as real;
    MulStrict(nr, r1, r2);
  }

  /** More successes never lower the bound. */
  lemma UpperBoundMonotone(k1: int, k2: int, n: int, z: real, root1: real, root2: real)
    requires k1 <= k2 && IsWilsonRoot(k1, n, z, root1) && IsWilsonRoot(k2, n, z, root2)
    ensures RawUpper(k1, n, z, root1) <= RawUpper(k2, n, z, root2)
  {
    var a := RawUpper(k2, n, z, root2);
    UpperBoundComparison(k2, n, z, root2, a);
    RateMonotone(k1, k2, n);
    AtMostAntitone(Rate(k1, n), Rate(k2, n), n as real, z, a);
    UpperBoundComparison(k1, n, z, root1, a);
  }

  /** The bound when nothing was accepted. */
  function CleanBound(n: real, z: real): real
    requires n > 0.0
  {
    var z2 := z * z;
    assert z2 >= 0.0;
    z2 / (n + z2)
  }

  lemma CleanAtMost(n: real, z: real, a: real)
    requires n > 0.0 && z > 0.0
    ensures CleanBound(n, z) > 0.0
    ensures AtMost(0.0, n, z, a) <==> CleanBound(n, z) <= a
  {
    var z2 := z * z;
    ProductPositive(z, z, z2);
    var d := n + z2;
    var b := z2 / d;
    assert b * d == z2;
    assert b > 0.0;
    if a > 0.0 {
      var x, y := n * a, z2 * (1.0 - a);
      assert n * (a - 0.0) * (a - 0.0) == a * x;
      assert z * z * a * (1.0 - a) == a * y;
      MulStrict(a, y, x);
      assert d * a == x + z2 * a && y == z2 - z2 * a;
      MulStrict(d, b, a);
    }
  }

  /** With no successes the bound is z^2 / (n + z^2). */
  lemma UpperBoundAtZero(n: int, z: real, root: real)
    requires IsWilsonRoot(0, n, z, root)
    ensures RawUpper(0, n, z, root) == CleanBound(n as real, z)
  {
    assert Rate(0, n) == 0.0;
    var ub, b := RawUpper(0, n, z, root), CleanBound(n as real, z);
    UpperBoundComparison(0, n, z, root, ub);
    CleanAtMost(n as real, z, ub);
    UpperBoundComparison(0, n, z, root, b);
    CleanAtMost(n as real, z, b);
  }

  /** The sample-size floor `max(1, ceil(z^2 (1 - allowed) / allowed))`
      (src/mlcache/system.py:194). */
  function CleanSampleFloor(z: real, allowed: real): int
    requires allowed > 0.0
  {
    Max(1, Ceil(z * z * (1.0 - allowed) / allowed))
  }

  lemma CleanSamples(n: real, z: real, a: real)
    requires n > 0.0 && z > 0.0 && a > 0.0
    ensures CleanBound(n, z) <= a <==> n >= z * z * (1.0 - a) / a
  {
    var z2 := z * z;
    ProductPositive(z, z, z2);
    var d := n + z2;
    var b, x := z2 / d, z2 * (1.0 - a);
    var q := x / a;
    assert b * d == z2 && q * a == x;
    assert z * z * (1.0 - a) == x;
    assert x == z2 - z2 * a && d * a == n * a + z2 * a;
    MulStrict(d, b, a);
    MulStrict(a, q, n);
  }

  /** The floor is the least sample size with which a clean calibration stays within `allowed`. */
  lemma CleanSampleFloorIsExact(n: int, z: real, root: real, allowed: real)
    requires allowed > 0.0 && IsWilsonRoot(0, n, z, root)
    ensures RawUpper(0, n, z, root) <= allowed <==> n >= CleanSampleFloor(z, allowed)
  {
    UpperBoundAtZero(n, z, root);
    CleanSamples(n as real, z, allowed);
    var q := z * z * (1.0 - allowed) / allowed;
    assert n as real >= q <==> n >= Ceil(q);
  }
}
