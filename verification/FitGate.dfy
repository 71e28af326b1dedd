/** Which fits pass the activation gate, decided by the H0 calibration scores of the new scorer
    (src/mlcache/oracle/trainable.py:475-506, 590-668). The system always compares with GE. */
module FitGate {
  import opened Scores
  import opened OrderStatistics
  import opened Thresholds
  import opened RealArithmetic
  import opened Wilson
  import opened FitCalibration
  import opened GateSizing

  /** The gate's answer to a fit with these calibration scores; None is a pass. */
  function FitFailure(config: Policy.Config, c: Counts, scores: seq<Score>, target: real, tie: TieMode)
    : Option<GateFailure>
  {
    var threshold := FitThreshold(scores, target, tie);
    GateFailureOf(config, c, IsFinite(threshold), AcceptCount(scores, Some(threshold), tie), target)
  }

  /** The Wilson test of the gate on k accepted of n scores. */
  predicate CountPasses(config: Policy.Config, k: nat, n: int, target: real) {
    n > 0 && UpperAtMost(k, n, config.z, target + config.wilsonMargin)
  }

  lemma GateVerdict(config: Policy.Config, c: Counts, finite: bool, k: nat, target: real)
    ensures GateFailureOf(config, c, finite, k, target) == None
            <==> SizesMet(config, c) && (config.requireFiniteThreshold ==> finite)
                 && CountPasses(config, k, c.calibrationH0, target)
  {
    hide UpperAtMost;
  }

  lemma CountNeedsScores(config: Policy.Config, k: nat, n: int, target: real)
    requires CountPasses(config, k, n, target)
    ensures n > 0
  {
  }

  lemma CountPassesAntitone(config: Policy.Config, j: nat, k: nat, n: int, target: real)
    requires j <= k && CountPasses(config, k, n, target)
    ensures CountPasses(config, j, n, target)
  {
    hide AtMost, Rate;
    RateMonotone(j, k, n);
    AtMostAntitone(Rate(j, n), Rate(k, n), n as real, config.z, target + config.wilsonMargin);
  }

  // ---- any scores ----

  /** Every group of scores that fits the rate passes the Wilson test. */
  ghost predicate FittingGroupsPass(config: Policy.Config, scores: seq<Score>, target: real) {
    forall x :: x in scores && CountGe(scores, x) <= AllowedAccepts(|scores|, target)
                ==> CountPasses(config, CountGe(scores, x), |scores|, target)
  }

  /** When a fit passes: its sizes are met, some finite tie group fits the rate, and every group that fits
      passes the Wilson test. Where the gate does not insist on a finite threshold, a fit without such a group
      passes on the count of its +inf scores. */
  lemma FitPassesIff(config: Policy.Config, c: Counts, scores: seq<Score>, target: real)
    requires 0.0 < target < 1.0 && |scores| == c.calibrationH0
    ensures FitFailure(config, c, scores, target, GE) == None
            <==> SizesMet(config, c)
                 && if SomeGroupFits(scores, target) then FittingGroupsPass(config, scores, target)
                    else !config.requireFiniteThreshold
                         && CountPasses(config, CountGe(scores, POS_INF), |scores|, target)
  {
    hide SizesMet, CountPasses, AllowedAccepts, CountGe, FitThreshold, GateFailureOf, SomeGroupFits, IsFinite;
    var fit := FitThreshold(scores, target, GE);
    var accepts := AcceptCount(scores, Some(fit), GE);
    FiniteFit(scores, target);
    GateVerdict(config, c, IsFinite(fit), accepts, target);
    if SomeGroupFits(scores, target) && CountPasses(config, accepts, |scores|, target) {
      forall x | x in scores && CountGe(scores, x) <= AllowedAccepts(|scores|, target)
        ensures CountPasses(config, CountGe(scores, x), |scores|, target)
      {
        CountPassesAntitone(config, CountGe(scores, x), accepts, |scores|, target);
      }
    }
  }

  /** Under GT, with finite scores, the threshold is always finite and may accept none of them. */
  lemma FitPassesUnderGTIff(config: Policy.Config, c: Counts, scores: seq<Score>, target: real)
    requires 0.0 < target < 1.0 && |scores| == c.calibrationH0 && forall x | x in scores :: IsFinite(x)
    ensures FitFailure(config, c, scores, target, GT) == None
            <==> SizesMet(config, c) && CountPasses(config, 0, |scores|, target)
                 && FittingGroupsPass(config, scores, target)
  {
    hide SizesMet, AllowedAccepts, CountGe, FitThreshold, GateFailureOf, IsFinite, UpperAtMost;
    var fit := FitThreshold(scores, target, GT);
    var accepts := AcceptCount(scores, Some(fit), GT);
    GateVerdict(config, c, IsFinite(fit), accepts, target);
    if scores != [] {
      FiniteFitUnderGT(scores, target);
      if CountPasses(config, accepts, |scores|, target) {
        CountPassesAntitone(config, 0, accepts, |scores|, target);
        forall x | x in scores && CountGe(scores, x) <= AllowedAccepts(|scores|, target)
          ensures CountPasses(config, CountGe(scores, x), |scores|, target)
        {
          CountPassesAntitone(config, CountGe(scores, x), accepts, |scores|, target);
        }
      }
    }
  }

  /** How many of n scores the rate lets through, before the fraction is dropped. */
  function Quota(rate: real, n: nat): real { rate * (n as real) }

  lemma AtLeastOne(n: nat, target: real)
    requires 0.0 < target < 1.0
    ensures AllowedAccepts(n, target) >= 1 <==> Quota(target, n) >= 1.0
    ensures AllowedAccepts(n, target) == Quota(target, n).Floor
  {
    var x := target * (n as real);
    if n > 0 {
      ProductPositive(target, n as real, x);
      ProductPositive(1.0 - target, n as real, n as real - x);
    }
    assert 0 <= x.Floor <= n;
  }

  /** Distinct finite scores: a fit passes if and only if its sizes are met, the rate lets one score through
      where a finite threshold is required, and accepting as many as the rate allows passes the Wilson test. */
  lemma DistinctFitPassesIff(config: Policy.Config, c: Counts, scores: seq<Score>, target: real)
    requires 0.0 < target < 1.0 && |scores| == c.calibrationH0
    requires Distinct(scores) && forall x | x in scores :: IsFinite(x)
    ensures FitFailure(config, c, scores, target, GE) == None
            <==> SizesMet(config, c) && (config.requireFiniteThreshold ==> Quota(target, |scores|) >= 1.0)
                 && CountPasses(config, Quota(target, |scores|).Floor, |scores|, target)
  {
    AtLeastOne(|scores|, target);
    hide SizesMet, CountPasses, AllowedAccepts, Quota, FitThreshold, GateFailureOf, IsFinite, Distinct;
    var fit := FitThreshold(scores, target, GE);
    DistinctFit(scores, target);
    GateVerdict(config, c, IsFinite(fit), AcceptCount(scores, Some(fit), GE), target);
  }

  // ---- all scores at once ----

  /** k scores of one and m scores of zero. */
  function Ties(k: nat, m: nat): (scores: seq<Score>)
    ensures |scores| == k + m
  {
    if k > 0 then [1] + Ties(k - 1, m) else if m > 0 then [0] + Ties(0, m - 1) else []
  }

  lemma {:induction false} TiesCount(k: nat, m: nat)
    ensures forall x | x in Ties(k, m) :: x == 0 || x == 1
    ensures k > 0 ==> 1 in Ties(k, m)
    ensures CountGe(Ties(k, m), 1) == k && CountGe(Ties(k, m), 0) == k + m
  {
    if k > 0 {
      TiesCount(k - 1, m);
    } else if m > 0 {
      TiesCount(0, m - 1);
    }
  }

  /** Such scores are accepted down to one exactly. */
  lemma TiesFit(k: nat, m: nat, target: real)
    requires 0.0 < target < 1.0 && 1 <= k <= AllowedAccepts(k + m, target)
    ensures var fit := FitThreshold(Ties(k, m), target, GE);
            IsFinite(fit) && AcceptCount(Ties(k, m), Some(fit), GE) == k
  {
    var scores := Ties(k, m);
    TiesCount(k, m);
    FiniteFit(scores, target);
    RatesBelowOneNeverSaturateBelow(scores, target);
    hide Ties, AllowedAccepts, CountGe, FitThreshold;
    assert SomeGroupFits(scores, target);
  }

  /** A fit on these counts can pass at all. */
  ghost predicate SomeFitPasses(config: Policy.Config, c: Counts, target: real) {
    exists scores: seq<Score> :: |scores| == c.calibrationH0 && FitFailure(config, c, scores, target, GE) == None
  }

  /** Every fit on these counts that finds a finite threshold passes. */
  ghost predicate EveryFiniteFitPasses(config: Policy.Config, c: Counts, target: real) {
    forall scores: seq<Score> :: |scores| == c.calibrationH0 && IsFinite(FitThreshold(scores, target, GE))
                                 ==> FitFailure(config, c, scores, target, GE) == None
  }

  /** Equal scores find no finite threshold, and +inf accepts none of them. */
  lemma EqualScoresFindNone(m: nat, target: real)
    requires 0.0 < target < 1.0 && m > 0
    ensures var fit := FitThreshold(Ties(0, m), target, GE);
            !IsFinite(fit) && AcceptCount(Ties(0, m), Some(fit), GE) == 0
  {
    var scores := Ties(0, m);
    TiesCount(0, m);
    FiniteFit(scores, target);
    RatesBelowOneNeverSaturateBelow(scores, target);
    CountAntitone(scores, 1, POS_INF);
    hide Ties, AllowedAccepts, CountGe, FitThreshold;
  }

  /** Some scores let a fit pass if and only if the sizes are met, the rate lets one score through, and one
      accepted score passes the Wilson test; where +inf will do, none accepted may pass it instead. */
  lemma SomeFitPassesIff(config: Policy.Config, c: Counts, target: real)
    requires 0.0 < target < 1.0 && c.calibrationH0 >= 0
    ensures SomeFitPasses(config, c, target)
            <==> SizesMet(config, c)
                 && ((Quota(target, c.calibrationH0) >= 1.0 && CountPasses(config, 1, c.calibrationH0, target))
                     || (!config.requireFiniteThreshold && CountPasses(config, 0, c.calibrationH0, target)))
  {
    AtLeastOne(c.calibrationH0, target);
    hide SizesMet, CountPasses, AllowedAccepts, Quota, FitThreshold, GateFailureOf, IsFinite;
    var n := c.calibrationH0;
    forall scores: seq<Score> | |scores| == n && FitFailure(config, c, scores, target, GE) == None
      ensures SizesMet(config, c)
      ensures (AllowedAccepts(n, target) >= 1 && CountPasses(config, 1, n, target))
              || (!config.requireFiniteThreshold && CountPasses(config, 0, n, target))
    {
      var fit := FitThreshold(scores, target, GE);
      var accepts := AcceptCount(scores, Some(fit), GE);
      FiniteFit(scores, target);
      GateVerdict(config, c, IsFinite(fit), accepts, target);
      CountPassesAntitone(config, if IsFinite(fit) then 1 else 0, accepts, n, target);
    }
    if SizesMet(config, c) && AllowedAccepts(n, target) >= 1 && CountPasses(config, 1, n, target) {
      TiesFit(1, n - 1, target);
      GateVerdict(config, c, true, 1, target);
      assert FitFailure(config, c, Ties(1, n - 1), target, GE) == None;
    } else if SizesMet(config, c) && !config.requireFiniteThreshold && CountPasses(config, 0, n, target) {
      CountNeedsScores(config, 0, n, target);
      EqualScoresFindNone(n, target);
      GateVerdict(config, c, false, 0, target);
      assert FitFailure(config, c, Ties(0, n), target, GE) == None;
    }
  }

  /** Every finite threshold passes if and only if the rate lets no score through, so that there is none, or
      accepting as many as the rate allows passes the Wilson test. */
  lemma EveryFiniteFitPassesIff(config: Policy.Config, c: Counts, target: real)
    requires 0.0 < target < 1.0 && c.calibrationH0 >= 0 && SizesMet(config, c)
    ensures EveryFiniteFitPasses(config, c, target)
            <==> Quota(target, c.calibrationH0) < 1.0
                 || CountPasses(config, Quota(target, c.calibrationH0).Floor, c.calibrationH0, target)
  {
    AtLeastOne(c.calibrationH0, target);
    hide SizesMet, CountPasses, AllowedAccepts, Quota, FitThreshold, GateFailureOf, IsFinite;
    var n := c.calibrationH0;
    var allowed := AllowedAccepts(n, target);
    if allowed == 0 || CountPasses(config, allowed, n, target) {
      forall scores: seq<Score> | |scores| == n && IsFinite(FitThreshold(scores, target, GE))
        ensures FitFailure(config, c, scores, target, GE) == None
      {
        var accepts := AcceptCount(scores, Some(FitThreshold(scores, target, GE)), GE);
        FiniteFit(scores, target);
        CountPassesAntitone(config, accepts, allowed, n, target);
        GateVerdict(config, c, true, accepts, target);
      }
    } else {
      TiesFit(allowed, n - allowed, target);
      GateVerdict(config, c, true, allowed, target);
      assert FitFailure(config, c, Ties(allowed, n - allowed), target, GE) != None;
    }
  }

  // ---- setups ----

  /** A threshold that accepts no H0 calibration score passes the gate of a setup whose sizes are met. Only GT
      finds such a threshold, and it does whenever the rate lets no score through; GE then finds none. */
  lemma CleanFits(s: Setup, c: Counts, scores: seq<Score>)
    requires s.Valid() && SizesMet(s.PolicyConfig(), c)
    requires |scores| == c.calibrationH0 && forall x | x in scores :: IsFinite(x)
    ensures AcceptCount(scores, Some(FitThreshold(scores, s.target, GT)), GT) == 0
            ==> FitFailure(s.PolicyConfig(), c, scores, s.target, GT) == None
    ensures Quota(s.target, |scores|) < 1.0
            ==> FitFailure(s.PolicyConfig(), c, scores, s.target, GT) == None
                && FitFailure(s.PolicyConfig(), c, scores, s.target, GE) == Some(ThresholdNotFinite)
  {
    AtLeastOne(|scores|, s.target);
    CleanGate(c.calibrationH0, s.target + s.WilsonMargin());
    hide CleanSampleFloor, UpperAtMost, Setup.TrainFraction, Setup.CalibrationFraction, Setup.MinH0ForFit,
         AllowedAccepts, Quota, FitThreshold, IsFinite;
    FiniteFitUnderGT(scores, s.target);
    FiniteFit(scores, s.target);
  }

  lemma OneOfAlgebra(n: real, x: real)
    requires x == 0.1 * n - 1.0
    ensures n >= 53.0 ==> x * x >= 0.345744 * n
    ensures 10.0 <= n <= 52.0 ==> x * x < 0.345744 * n
  {
    var nn := n * n;
    assert x * x == 0.01 * nn - 0.2 * n + 1.0;
    var above, below := (n - 53.0) * (n - 1.5744), (52.0 - n) * (n - 2.5744);
    assert above == nn - 54.5744 * n + 83.4432;
    assert below == -nn + 54.5744 * n - 133.8688;
    if n >= 53.0 {
      ProductNonNegative(n - 53.0, n - 1.5744, above);
    } else if 10.0 <= n <= 52.0 {
      ProductNonNegative(52.0 - n, n - 2.5744, below);
    }
  }

  lemma OneOfScaled(n: real, p: real, x: real)
    requires n > 0.0 && p * n == 1.0 && x == 0.1 * n - 1.0
    ensures AtMost(p, n, Z, 0.1) <==> x >= 0.0 && x * x >= 0.345744 * n
  {
    var gap := 0.1 - p;
    assert n * gap == x;
    MulStrict(n, 0.0, gap);
    assert n * gap * gap == x * gap;
    assert Z * Z * 0.1 * (1.0 - 0.1) == 0.345744;
    assert n * (x * gap) == x * x;
    MulStrict(n, 0.345744, x * gap);
  }

  /** One accepted score of n passes the default Wilson test from n = 53 on. */
  lemma OneOf(n: nat)
    requires n > 0
    ensures UpperAtMost(1, n, Z, 0.1) <==> n >= 53
  {
    var nr, p := n as real, Rate(1, n);
    assert p * nr == 1.0;
    hide AtMost;
    OneOfScaled(nr, p, 0.1 * nr - 1.0);
    OneOfAlgebra(nr, 0.1 * nr - 1.0);
  }

  lemma DefaultBucket(n0: nat)
    ensures DEFAULT_SETUP.Calibrated(n0) == n0 / 10
  {
    assert DEFAULT_SETUP.EveryN() == 10;
  }

  lemma DefaultTest(n: nat)
    ensures DEFAULT_SETUP.Valid()
    ensures Quota(DEFAULT_SETUP.target, n) >= 1.0 <==> n >= 20
    ensures CountPasses(DEFAULT_SETUP.PolicyConfig(), 1, n, DEFAULT_SETUP.target) <==> n >= 53
    ensures DEFAULT_SETUP.PolicyConfig().requireFiniteThreshold
  {
    hide UpperAtMost, Setup.MinH0ForFit, Setup.MinCalibrationH0, Setup.TrainFraction, Setup.CalibrationFraction,
         Setup.EveryN;
    assert DEFAULT_SETUP.target + DEFAULT_SETUP.PolicyConfig().wilsonMargin == 0.1;
    assert DEFAULT_SETUP.PolicyConfig().z == Z;
    if n > 0 {
      OneOf(n);
    }
  }

  lemma DefaultSizesMet(n0: nat, n1: nat)
    requires n0 >= 350 && n1 >= 20
    ensures DEFAULT_SETUP.Valid() && SizesMet(DEFAULT_SETUP.PolicyConfig(), DEFAULT_SETUP.CountsAt(n0, n1))
  {
    hide SizesMet, Setup.MinH0ForFit, Setup.MinCalibrationH0, Setup.TrainFraction, Setup.CalibrationFraction,
         Setup.EveryN;
    DefaultSizes();
    ModuloGatesIff(DEFAULT_SETUP);
    MetFromTheTriggerOn(DEFAULT_SETUP);
  }

  /** The default arguments trigger a first fit at 350 H0 pairs, where every size is met. No fit can pass its
      gate before 530: until then the bound on one accepted calibration score exceeds what the gate allows, and
      a threshold that accepts none is not finite. */
  lemma DefaultFitsNeed530(n0: nat, n1: nat)
    requires n1 >= 20
    ensures DEFAULT_SETUP.Valid() && DEFAULT_SETUP.MinH0ForFit() == 350
    ensures n0 >= 350 ==> SizesMet(DEFAULT_SETUP.PolicyConfig(), DEFAULT_SETUP.CountsAt(n0, n1))
    ensures SomeFitPasses(DEFAULT_SETUP.PolicyConfig(), DEFAULT_SETUP.CountsAt(n0, n1), DEFAULT_SETUP.target)
            <==> n0 >= 530
  {
    hide SizesMet, CountPasses, SomeFitPasses, Quota, Setup.MinH0ForFit, Setup.MinCalibrationH0, Setup.TrainFraction,
         Setup.CalibrationFraction, Setup.EveryN, Setup.PolicyConfig;
    DefaultSizes();
    DefaultBucket(n0);
    DefaultTest(n0 / 10);
    if n0 >= 350 {
      DefaultSizesMet(n0, n1);
    }
    SomeFitPassesIff(DEFAULT_SETUP.PolicyConfig(), DEFAULT_SETUP.CountsAt(n0, n1), DEFAULT_SETUP.target);
  }

  const SMALL_SETUP := Setup(0.3, 20, 3, 2, None)

  /** A well-sized setup whose rate lets none of the three calibration scores through at its trigger. The
      Wilson test would pass a clean threshold, and yet no scores give the fit a finite one. */
  lemma SmallSetupFindsNoThreshold(n1: nat)
    requires n1 >= 2
    ensures SMALL_SETUP.Valid() && WellSized(SMALL_SETUP) && SMALL_SETUP.MinH0ForFit() == 6
    ensures var config, counts := SMALL_SETUP.PolicyConfig(), SMALL_SETUP.CountsAt(6, n1);
            && counts.calibrationH0 == 3 && SizesMet(config, counts)
            && CountPasses(config, 0, 3, SMALL_SETUP.target)
            && !SomeFitPasses(config, counts, SMALL_SETUP.target)
  {
    assert SMALL_SETUP.EveryN() == 2 && SMALL_SETUP.CalibrationFraction() == 0.5;
    assert SMALL_SETUP.WilsonMargin() == 0.3;
    assert Z * Z * (1.0 - 0.6) / 0.6 == 1.53664 / 0.6;
    assert CleanSampleFloor(Z, 0.6) == 3;
    assert SMALL_SETUP.MinCalibrationH0() == 3;
    assert SMALL_SETUP.MinH0ForFit() == 6;
    assert Quota(SMALL_SETUP.target, 3) < 1.0;
    hide CountPasses, Quota, SomeFitPasses, Setup.MinH0ForFit, Setup.MinCalibrationH0, Setup.TrainFraction,
         CleanSampleFloor, Setup.CalibrationFraction, SizesMet;
    CleanGate(3, 0.6);
    ModuloGatesIff(SMALL_SETUP);
    MetFromTheTriggerOn(SMALL_SETUP);
    SomeFitPassesIff(SMALL_SETUP.PolicyConfig(), SMALL_SETUP.CountsAt(6, n1), SMALL_SETUP.target);
  }
}
