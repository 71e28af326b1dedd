/** Whether the activation gate of the first fit can be met when the fit trigger fires
    (src/mlcache/system.py:170-198, 242-257; src/mlcache/oracle/trainable.py:607-668). */
module GateSizing {
  import opened Scores
  import opened RealArithmetic
  import opened IntegerArithmetic
  import opened Wilson
  import Collector = ShadowCollector
  import opened CollectorRuns
  import Policy = RefitPolicy
  import Store = TrainingStore

  // ---- the activation gate ----

  datatype Counts = Counts(trainH0: int, trainH1: int, calibrationH0: int, calibrationH1: int)

  datatype GateFailure =
    | MinTrainTotalNotMet | MinTrainH0NotMet | MinTrainH1NotMet | MinCalibrationH0NotMet | MinCalibrationH1NotMet
    | ThresholdNotFinite | WilsonUpperUnavailable | WilsonUpperExceedsBound

  /** The gate of a fit, where train and H1 calibration minimums are required; `accepts` counts the H0
      calibration scores the new threshold accepts. None is a pass. */
  function GateFailureOf(config: Policy.Config, c: Counts, thresholdIsFinite: bool, accepts: int, target: real)
    : Option<GateFailure>
  {
    if c.trainH0 + c.trainH1 < config.minTrainTotal then Some(MinTrainTotalNotMet)
    else if c.trainH0 < config.minTrainH0 then Some(MinTrainH0NotMet)
    else if c.trainH1 < config.minTrainH1 then Some(MinTrainH1NotMet)
    else if c.calibrationH0 < config.minCalibrationH0 then Some(MinCalibrationH0NotMet)
    else if c.calibrationH1 < config.minCalibrationH1 then Some(MinCalibrationH1NotMet)
    else if config.requireFiniteThreshold && !thresholdIsFinite then Some(ThresholdNotFinite)
    else if c.calibrationH0 <= 0 then Some(WilsonUpperUnavailable)
    else if !UpperAtMost(accepts, c.calibrationH0, config.z, target + config.wilsonMargin) then
      Some(WilsonUpperExceedsBound)
    else None
  }

  /** The per-bucket minimums. */
  predicate BucketsMet(config: Policy.Config, c: Counts) {
    && c.trainH0 >= config.minTrainH0 && c.trainH1 >= config.minTrainH1
    && c.calibrationH0 >= config.minCalibrationH0 && c.calibrationH1 >= config.minCalibrationH1
  }

  predicate SizesMet(config: Policy.Config, c: Counts) {
    BucketsMet(config, c) && c.trainH0 + c.trainH1 >= config.minTrainTotal
  }

  /** The last branch is the code's comparison of the Wilson bound, when the counts admit one. */
  lemma GateAsksTheWilsonBound(config: Policy.Config, c: Counts, thresholdIsFinite: bool, accepts: int, target: real,
                               root: real)
    requires IsWilsonRoot(accepts, c.calibrationH0, config.z, root)
    ensures WilsonUpperBound(accepts, c.calibrationH0, config.z, root).Ok?
    ensures var upper := WilsonUpperBound(accepts, c.calibrationH0, config.z, root).value;
            && upper.Some?
            && (GateFailureOf(config, c, thresholdIsFinite, accepts, target) == None
                <==> SizesMet(config, c) && (config.requireFiniteThreshold ==> thresholdIsFinite)
                     && upper.value <= target + config.wilsonMargin)
  {
    hide UpperAtMost, WilsonUpperBound, IsRoot;
    BoundAtMost(accepts, c.calibrationH0, config.z, root, target + config.wilsonMargin);
  }

  /** What a failed gate names: the sizes first, in order, then the threshold, then the bound. */
  lemma FailureNamesTheGap(config: Policy.Config, c: Counts, thresholdIsFinite: bool, accepts: int, target: real)
    ensures var failure := GateFailureOf(config, c, thresholdIsFinite, accepts, target);
            && (failure == Some(MinTrainTotalNotMet) <==> c.trainH0 + c.trainH1 < config.minTrainTotal)
            && (failure == Some(MinTrainH0NotMet) ==> c.trainH0 < config.minTrainH0)
            && (failure == Some(MinTrainH1NotMet) ==> c.trainH1 < config.minTrainH1 && c.trainH0 >= config.minTrainH0)
            && (failure == Some(MinCalibrationH0NotMet) ==> c.calibrationH0 < config.minCalibrationH0)
            && (failure == Some(MinCalibrationH1NotMet) ==> c.calibrationH1 < config.minCalibrationH1
                                                            && c.calibrationH0 >= config.minCalibrationH0)
            && (SizesMet(config, c) ==>
                  failure == if config.requireFiniteThreshold && !thresholdIsFinite then Some(ThresholdNotFinite)
                             else if c.calibrationH0 <= 0 then Some(WilsonUpperUnavailable)
                             else if UpperAtMost(accepts, c.calibrationH0, config.z, target + config.wilsonMargin)
                             then None
                             else Some(WilsonUpperExceedsBound))
  {
    hide UpperAtMost;
  }

  // ---- the sizing ----

  /** A share of a count, before it is truncated. */
  function Share(n: int, fraction: real): real { n as real * fraction }

  /** The fraction that a split by k leaves to train. */
  function AllButOneOf(k: int): real
    requires k > 0
  {
    (k - 1) as real / k as real
  }

  const Z: real := 1.96

  /** The arguments of the system that decide the sizes. */
  datatype Setup = Setup(target: real, batchSize: int, minH0: int, minH1: int, fraction: Option<real>) {
    predicate Valid() {
      0.0 < target < 1.0 && minH0 >= 0 && minH1 >= 0 && (fraction.Some? ==> 0.0 < fraction.value < 1.0)
    }

    function EveryN(): int { Max(1, batchSize / 10) }

    /** Both buckets get a share: a modulo split by one sends everything to calibration. */
    predicate Splits() { fraction.Some? || EveryN() > 1 }

    function TrainFraction(): real {
      if fraction.Some? then 1.0 - fraction.value
      else if EveryN() > 1 then AllButOneOf(EveryN())
      else 1.0
    }

    function CalibrationFraction(): real {
      if fraction.Some? then fraction.value else 1.0 - TrainFraction()
    }

    function WilsonMargin(): real { MaxReal(0.03, target) }

    /** The H0 calibration minimum of the gate. */
    function MinCalibrationH0(): int
      requires Valid()
    {
      Max(Max(1, Share(minH0, CalibrationFraction()).Floor), CleanSampleFloor(Z, target + WilsonMargin()))
    }

    /** The H0 total that triggers the first fit. */
    function MinH0ForFit(): nat
      requires Valid()
    {
      if CalibrationFraction() > 0.0 then Max(minH0, Ceil(MinCalibrationH0() as real / CalibrationFraction()))
      else minH0
    }

    function PolicyConfig(): Policy.Config
      requires Valid()
    {
      Policy.DEFAULT_CONFIG.(
        minH0ForFit := MinH0ForFit(),
        minH1ForFit := minH1,
        minH0ForCalibration := MinH0ForFit(),
        minTrainTotal := Max(2, Share(minH0 + minH1, TrainFraction()).Floor),
        minTrainH0 := Max(1, Share(minH0, TrainFraction()).Floor),
        minTrainH1 := Max(1, Share(minH1, TrainFraction()).Floor),
        minCalibrationH0 := MinCalibrationH0(),
        minCalibrationH1 := Max(1, Share(minH1, CalibrationFraction()).Floor),
        minNewH0ForCalibration := Max(1, MinH0ForFit() / 4),
        minNewH0ForRefit := Max(1, MinH0ForFit() / 4),
        minNewH1ForRefit := Max(1, minH1 / 2),
        wilsonMargin := WilsonMargin())
    }

    /** Where the collector of the system sends n pairs of a label. */
    function Calibrated(n: nat): int {
      if fraction.Some? then Ceil(Collector.Portion(fraction.value, n)) else Quotient(n, EveryN())
    }

    function Trained(n: nat): int { n - Calibrated(n) }

    /** Bucket sizes after n0 and n1 pairs, when the store dropped and evicted none. */
    function CountsAt(n0: nat, n1: nat): Counts {
      Counts(Trained(n0), Trained(n1), Calibrated(n0), Calibrated(n1))
    }
  }

  ghost predicate Lossless(env: Collector.Env, calls: seq<Call>, judged: Store.JudgeLabel)
    requires env.Valid()
  {
    var t := Store.TalliesOf(AfterCalls(env, calls).offers, env.bounds, judged);
    t.evicted == t.dropped == t.raised == 0
  }

  /** These counts are what the collector makes of the store: after any calls that lost no pair, the
      buckets have exactly the sizes `CountsAt` gives for the pairs of each label offered so far. */
  lemma CountsAreBucketSizes(s: Setup, env: Collector.Env, calls: seq<Call>)
    requires env.Valid() && env.config.everyN == s.EveryN() && env.config.fraction == s.fraction
    requires Lossless(env, calls, Store.NotReusable) && Lossless(env, calls, Store.Reusable)
    ensures var offers := AfterCalls(env, calls).offers;
            var store := Store.RunOffers(offers, env.bounds);
            var n0 := Store.TalliesOf(offers, env.bounds, Store.NotReusable).offered;
            var n1 := Store.TalliesOf(offers, env.bounds, Store.Reusable).offered;
            s.CountsAt(n0, n1)
            == Counts(|store.train.h0|, |store.train.h1|, |store.calibration.h0|, |store.calibration.h1|)
  {
    hide AfterCalls, Store.RunOffers, Store.TalliesOf;
    LosslessBucketSizes(env, calls, Store.NotReusable);
    LosslessBucketSizes(env, calls, Store.Reusable);
  }

  // ---- floors and ceilings ----

  lemma ScaledQuotient(n: real, k: real, q: real, r: real, x: real)
    requires k > 0.0 && n == q * k + r && 0.0 <= r < k && x == n / k
    ensures q <= x < q + 1.0
  {
    assert x * k == n;
    assert k * (x - q) == r;
    MulStrict(k, x - q, 1.0);
    MulStrict(k, 0.0, x - q);
  }

  /** Dividing floors like multiplying by the reciprocal does. */
  lemma QuotientIsFloor(n: nat, k: int)
    requires k > 0
    ensures n / k == (n as real / k as real).Floor
  {
    var q, r := n / k, n % k;
    assert n == q * k + r;
    ScaledQuotient(n as real, k as real, q as real, r as real, n as real / k as real);
  }

  lemma FractionShares(n: nat, f: real)
    ensures n - Ceil(Collector.Portion(f, n)) == Share(n, 1.0 - f).Floor
    ensures Ceil(Collector.Portion(f, n)) == Ceil(Share(n, f))
  {
    var x := n as real;
    assert x * (1.0 - f) == x - f * x;
  }

  lemma ReciprocalShare(x: real, k: real, t: real)
    requires k > 0.0 && t == (k - 1.0) / k
    ensures x * (1.0 - t) == x / k && x * t == x - x / k
  {
    assert t * k == k - 1.0;
    assert (1.0 - t) * k == 1.0;
    var y := x / k;
    assert y * k == x;
    assert (x * (1.0 - t)) * k == x * ((1.0 - t) * k) == x;
    assert (x * (1.0 - t) - y) * k == 0.0;
  }

  lemma ModuloShares(n: nat, k: int, t: real)
    requires k > 0 && t == AllButOneOf(k)
    ensures n - Quotient(n, k) == Ceil(Share(n, t))
    ensures Quotient(n, k) == Share(n, 1.0 - t).Floor
  {
    QuotientIsFloor(n, k);
    ReciprocalShare(n as real, k as real, t);
  }

  lemma QuotientByOne(n: nat)
    ensures Quotient(n, 1) == n
  {
  }

  /** Train keeps the floor of its share under the fraction rule, the ceiling under the modulo rule. */
  lemma SharesOf(s: Setup, n: nat)
    requires s.Valid()
    ensures s.fraction.Some? ==> s.Trained(n) == Share(n, s.TrainFraction()).Floor
                                 && s.Calibrated(n) == Ceil(Share(n, s.CalibrationFraction()))
    ensures s.Splits() && s.fraction.None? ==> s.Trained(n) == Ceil(Share(n, s.TrainFraction()))
                                               && s.Calibrated(n) == Share(n, s.CalibrationFraction()).Floor
    ensures !s.Splits() ==> s.Trained(n) == 0 && s.Calibrated(n) == n
  {
    hide Share, Ceil, AllButOneOf, CleanSampleFloor, Collector.Portion, Quotient;
    if s.fraction.Some? {
      FractionShares(n, s.fraction.value);
    } else if s.EveryN() > 1 {
      ModuloShares(n, s.EveryN(), s.TrainFraction());
    } else {
      QuotientByOne(n);
    }
  }

  lemma ShareGrows(m: int, n: int, t: real)
    requires t >= 0.0 && m <= n
    ensures Share(m, t) <= Share(n, t)
  {
    MulMonotone(t, m as real, n as real);
  }

  lemma ShareIsPositive(n: nat, t: real)
    requires t > 0.0
    ensures Share(n, t) > 0.0 <==> n > 0
    ensures Share(n, t) >= 0.0
  {
    if n > 0 {
      ProductPositive(n as real, t, Share(n, t));
    }
  }

  lemma UnitShare(n: nat, t: real, k: int)
    requires t > 0.0 && t * k as real == 1.0
    ensures Share(n, t) >= 1.0 <==> n >= k
  {
    MulStrict(t, k as real, n as real);
  }

  lemma SumOfShares(m: nat, n: nat, t: real)
    ensures var whole := Share(m + n, t).Floor;
            && Ceil(Share(m, t)) + Ceil(Share(n, t)) >= whole
            && Share(m, t).Floor + Share(n, t).Floor >= whole - 1
  {
    assert (m + n) as real * t == m as real * t + n as real * t;
  }

  lemma ShareCovers(m: int, n: int, t: real)
    requires t > 0.0 && n >= Ceil(m as real / t)
    ensures Share(n, t) >= m as real
  {
    var quotient := m as real / t;
    assert quotient * t == m as real;
    MulMonotone(t, quotient, n as real);
  }

  lemma FractionsAreShares(s: Setup)
    requires s.Valid() && s.Splits()
    ensures 0.0 < s.CalibrationFraction() < 1.0
    ensures s.TrainFraction() == 1.0 - s.CalibrationFraction()
    ensures s.fraction.None? ==> s.CalibrationFraction() * s.EveryN() as real == 1.0
  {
    if s.fraction.None? {
      var k := s.EveryN() as real;
      var t := AllButOneOf(s.EveryN());
      assert t * k == k - 1.0;
      assert (1.0 - t) * k == 1.0;
      QuotientPositive(k - 1.0, k, t);
      MulStrict(k, t, 1.0);
    }
  }

  // ---- from the trigger on ----

  lemma SharesGrow(s: Setup, m: nat, n: nat)
    requires s.Valid() && m <= n
    ensures s.Trained(m) <= s.Trained(n) && s.Calibrated(m) <= s.Calibrated(n)
  {
    hide Share, Setup.Trained, Setup.Calibrated, Setup.TrainFraction, Setup.CalibrationFraction, Setup.EveryN;
    SharesOf(s, m);
    SharesOf(s, n);
    if s.Splits() {
      FractionsAreShares(s);
      var t, c := s.TrainFraction(), s.CalibrationFraction();
      ShareGrows(m, n, t);
      ShareGrows(m, n, c);
    }
  }

  lemma TriggerCovers(s: Setup)
    requires s.Valid()
    ensures s.minH0 <= s.MinH0ForFit()
    ensures s.CalibrationFraction() > 0.0
            ==> s.MinH0ForFit() >= Ceil(s.MinCalibrationH0() as real / s.CalibrationFraction())
  {
  }

  /** The size gates are met for all totals from the trigger on exactly when they are met at the trigger. */
  lemma MetFromTheTriggerOn(s: Setup)
    requires s.Valid()
    ensures SizesMet(s.PolicyConfig(), s.CountsAt(s.MinH0ForFit(), s.minH1))
            <==> forall n0: nat, n1: nat :: n0 >= s.MinH0ForFit() && n1 >= s.minH1
                                            ==> SizesMet(s.PolicyConfig(), s.CountsAt(n0, n1))
  {
    hide Setup.MinH0ForFit, Setup.PolicyConfig, Setup.Trained, Setup.Calibrated;
    if SizesMet(s.PolicyConfig(), s.CountsAt(s.MinH0ForFit(), s.minH1)) {
      forall n0: nat, n1: nat | n0 >= s.MinH0ForFit() && n1 >= s.minH1
        ensures SizesMet(s.PolicyConfig(), s.CountsAt(n0, n1))
      {
        SharesGrow(s, s.MinH0ForFit(), n0);
        SharesGrow(s, s.minH1, n1);
      }
    }
  }

  /** At the trigger the H0 calibration minimum is met whenever the split calibrates at all. */
  lemma CalibrationH0IsMet(s: Setup)
    requires s.Valid() && s.Splits()
    ensures s.Calibrated(s.MinH0ForFit()) >= s.MinCalibrationH0()
  {
    hide Share, Setup.MinCalibrationH0, Setup.CalibrationFraction, Setup.MinH0ForFit, Setup.Calibrated, Setup.Trained;
    FractionsAreShares(s);
    SharesOf(s, s.MinH0ForFit());
    TriggerCovers(s);
    var c, m, n := s.CalibrationFraction(), s.MinCalibrationH0(), s.MinH0ForFit();
    ShareCovers(m, n, c);
  }

  // ---- bucket by bucket ----

  /** After n >= m pairs each bucket holds at least the floor of its share of m. */
  lemma BucketsCover(s: Setup, m: nat, n: nat)
    requires s.Valid() && s.Splits() && m <= n
    ensures s.Trained(n) >= Share(m, s.TrainFraction()).Floor
    ensures s.Calibrated(n) >= Share(m, s.CalibrationFraction()).Floor
  {
    hide Share, Setup.Trained, Setup.Calibrated, Setup.TrainFraction, Setup.CalibrationFraction, Setup.EveryN;
    SharesOf(s, m);
    SharesGrow(s, m, n);
  }

  /** When the buckets are not empty. */
  lemma BucketsOpen(s: Setup, n: nat)
    requires s.Valid() && s.Splits()
    ensures s.Trained(n) >= 1 <==> if s.fraction.Some? then Share(n, s.TrainFraction()) >= 1.0 else n >= 1
    ensures s.Calibrated(n) >= 1 <==> if s.fraction.Some? then n >= 1 else n >= s.EveryN()
  {
    hide Share, Setup.Trained, Setup.Calibrated, Setup.TrainFraction, Setup.CalibrationFraction, Setup.EveryN;
    SharesOf(s, n);
    FractionsAreShares(s);
    if s.fraction.Some? {
      ShareIsPositive(n, s.CalibrationFraction());
    } else {
      ShareIsPositive(n, s.TrainFraction());
      UnitShare(n, s.CalibrationFraction(), s.EveryN());
    }
  }

  /** The bucket minimums at the trigger, exactly, with the total that comes with them. */
  lemma BucketsAtTrigger(s: Setup)
    requires s.Valid() && s.Splits()
    ensures BucketsMet(s.PolicyConfig(), s.CountsAt(s.MinH0ForFit(), s.minH1))
            <==> s.Trained(s.MinH0ForFit()) >= 1 && s.Trained(s.minH1) >= 1 && s.Calibrated(s.minH1) >= 1
  {
    hide Share, Setup.Trained, Setup.Calibrated, Setup.TrainFraction, Setup.CalibrationFraction, Setup.EveryN,
         Setup.MinH0ForFit, Setup.MinCalibrationH0;
    TriggerCovers(s);
    CalibrationH0IsMet(s);
    BucketsCover(s, s.minH0, s.MinH0ForFit());
    BucketsCover(s, s.minH1, s.minH1);
  }

  lemma CalibrationMinimumIsPositive(s: Setup)
    requires s.Valid()
    ensures s.MinCalibrationH0() >= 1
  {
  }

  /** The modulo split: the gate's sizes are met from the trigger on if and only if the split is by at
      least two and min_h1 is at least the modulus. A batch size below 20 splits by one, sends every pair
      to calibration, and can never fit. */
  lemma ModuloGatesIff(s: Setup)
    requires s.Valid() && s.fraction.None?
    ensures SizesMet(s.PolicyConfig(), s.CountsAt(s.MinH0ForFit(), s.minH1))
            <==> s.EveryN() >= 2 && s.minH1 >= s.EveryN()
  {
    hide Share, Setup.Trained, Setup.Calibrated, Setup.TrainFraction, Setup.CalibrationFraction, Setup.EveryN,
         Setup.MinH0ForFit, Setup.MinCalibrationH0;
    TriggerCovers(s);
    if s.Splits() {
      CalibrationH0IsMet(s);
      BucketsAtTrigger(s);
      BucketsOpen(s, s.minH1);
      BucketsOpen(s, s.MinH0ForFit());
      SharesOf(s, s.minH0);
      SharesOf(s, s.minH1);
      SharesGrow(s, s.minH0, s.MinH0ForFit());
      SumOfShares(s.minH0, s.minH1, s.TrainFraction());
      CalibrationMinimumIsPositive(s);
    } else {
      SharesOf(s, s.MinH0ForFit());
    }
  }

  lemma FractionBucketsIff(s: Setup)
    requires s.Valid() && s.fraction.Some?
    ensures BucketsMet(s.PolicyConfig(), s.CountsAt(s.MinH0ForFit(), s.minH1))
            <==> Share(s.MinH0ForFit(), s.TrainFraction()) >= 1.0 && Share(s.minH1, s.TrainFraction()) >= 1.0
  {
    hide Share, Setup.Trained, Setup.Calibrated, Setup.TrainFraction, Setup.CalibrationFraction,
         Setup.MinH0ForFit, Setup.PolicyConfig, BucketsMet;
    BucketsAtTrigger(s);
    BucketsOpen(s, s.minH1);
    BucketsOpen(s, s.MinH0ForFit());
    FractionsAreShares(s);
    ShareIsPositive(s.minH1, s.TrainFraction());
  }

  lemma FractionTotals(s: Setup)
    requires s.Valid() && s.fraction.Some?
    ensures var counts, t := s.CountsAt(s.MinH0ForFit(), s.minH1), s.TrainFraction();
            counts.trainH0 + counts.trainH1 == Share(s.MinH0ForFit(), t).Floor + Share(s.minH1, t).Floor
            && counts.trainH0 + counts.trainH1 >= Share(s.minH0 + s.minH1, t).Floor - 1
  {
    hide Share, Setup.Trained, Setup.Calibrated, Setup.TrainFraction, Setup.CalibrationFraction, Setup.MinH0ForFit;
    TriggerCovers(s);
    SharesOf(s, s.MinH0ForFit());
    SharesOf(s, s.minH0);
    SharesOf(s, s.minH1);
    SharesGrow(s, s.minH0, s.MinH0ForFit());
    SumOfShares(s.minH0, s.minH1, s.TrainFraction());
  }

  /** The fraction split: the bucket minimums are met from the trigger on if and only if train's share of
      both trigger totals reaches one example; the train total is then at most one short. */
  lemma FractionGatesIff(s: Setup)
    requires s.Valid() && s.fraction.Some?
    ensures var t := s.TrainFraction();
            var counts := s.CountsAt(s.MinH0ForFit(), s.minH1);
            var bucketsFit := Share(s.MinH0ForFit(), t) >= 1.0 && Share(s.minH1, t) >= 1.0;
            && (BucketsMet(s.PolicyConfig(), counts) <==> bucketsFit)
            && (bucketsFit ==> counts.trainH0 + counts.trainH1 >= s.PolicyConfig().minTrainTotal - 1)
            && (SizesMet(s.PolicyConfig(), counts)
                <==> bucketsFit && Share(s.MinH0ForFit(), t).Floor + Share(s.minH1, t).Floor
                                   >= Share(s.minH0 + s.minH1, t).Floor)
  {
    hide Share, Setup.Trained, Setup.Calibrated, Setup.TrainFraction, Setup.MinH0ForFit, Setup.MinCalibrationH0,
         BucketsMet;
    FractionBucketsIff(s);
    FractionTotals(s);
  }

  /** What a caller can check before building the system. */
  predicate WellSized(s: Setup)
    requires s.Valid()
  {
    if s.fraction.None? then s.EveryN() >= 2 && s.minH1 >= s.EveryN()
    else
      var x, y := Share(s.MinH0ForFit(), s.TrainFraction()), Share(s.minH1, s.TrainFraction());
      x >= 1.0 && y >= 1.0 && x.Floor + y.Floor >= Share(s.minH0 + s.minH1, s.TrainFraction()).Floor
  }

  /** Put together, for both splits: the sizes are met for all totals that trigger a first fit exactly
      when the setup is well sized. */
  lemma GatesAreMetIff(s: Setup)
    requires s.Valid()
    ensures WellSized(s)
            <==> forall n0: nat, n1: nat :: n0 >= s.MinH0ForFit() && n1 >= s.minH1
                                            ==> SizesMet(s.PolicyConfig(), s.CountsAt(n0, n1))
  {
    hide Setup.Trained, Setup.Calibrated, Setup.EveryN, Setup.MinH0ForFit, SizesMet, Setup.TrainFraction,
         Setup.CalibrationFraction, CleanSampleFloor, Share, BucketsMet, Setup.PolicyConfig, Setup.CountsAt;
    if s.fraction.None? {
      ModuloGatesIff(s);
    } else {
      FractionGatesIff(s);
    }
    MetFromTheTriggerOn(s);
  }

  /** Whenever the policy starts the first fit of a well-sized setup, its buckets meet their sizes. */
  lemma FirstFitMeetsItsSizes(s: Setup, c: Policy.Context)
    requires s.Valid() && WellSized(s)
    requires c.Valid() && c.threshold.None?
    requires Policy.Decide(s.PolicyConfig(), c).Ok?
    requires Policy.Decide(s.PolicyConfig(), c).value.action == Policy.RefitScorer
    ensures SizesMet(s.PolicyConfig(), s.CountsAt(c.totalH0, c.totalH1))
  {
    Policy.RefitsIff(s.PolicyConfig(), c);
    hide Setup.Trained, Setup.Calibrated, Setup.EveryN, Setup.MinH0ForFit, SizesMet, Setup.TrainFraction,
         Setup.CalibrationFraction, CleanSampleFloor, Share, WellSized;
    GatesAreMetIff(s);
  }

  /** A split by one leaves train empty, so that the gate fails however many pairs are collected. */
  lemma SplitByOneNeverFits(s: Setup, n0: nat, n1: nat)
    requires s.Valid() && s.fraction.None? && s.batchSize < 20
    ensures s.CountsAt(n0, n1) == Counts(0, 0, n0, n1)
    ensures GateFailureOf(s.PolicyConfig(), s.CountsAt(n0, n1), true, 0, s.target) == Some(MinTrainTotalNotMet)
  {
    SharesOf(s, n0);
    SharesOf(s, n1);
    hide Setup.MinCalibrationH0, Setup.CalibrationFraction, Setup.MinH0ForFit, Setup.TrainFraction;
  }

  // ---- the Wilson part of the gate ----

  lemma CleanGate(n: int, allowed: real)
    requires n > 0 && allowed > 0.0
    ensures UpperAtMost(0, n, Z, allowed) <==> n >= CleanSampleFloor(Z, allowed)
  {
    CleanAtMost(n as real, Z, allowed);
    CleanSamples(n as real, Z, allowed);
    assert Rate(0, n) == 0.0;
    var q := Z * Z * (1.0 - allowed) / allowed;
    assert n as real >= q <==> n >= Ceil(q);
    hide AtMost, CleanBound;
  }

  /** When every accept count within a budget passes the Wilson test: exactly when the largest one does. */
  lemma BudgetedGateIff(budget: nat, n: nat, z: real, allowed: real)
    requires n > 0
    ensures (forall k: nat :: k <= budget ==> UpperAtMost(k, n, z, allowed)) <==> UpperAtMost(budget, n, z, allowed)
  {
    hide AtMost, Rate;
    if UpperAtMost(budget, n, z, allowed) {
      forall k: nat | k <= budget ensures UpperAtMost(k, n, z, allowed) {
        RateMonotone(k, budget, n);
        AtMostAntitone(Rate(k, n), Rate(budget, n), n as real, z, allowed);
      }
    }
  }

  lemma RateWithin(k: real, n: real, target: real, rate: real)
    requires n > 0.0 && k <= target * n && rate == k / n
    ensures rate <= target
    ensures k == target * n ==> rate == target
  {
    assert rate * n == k;
    MulStrict(n, target, rate);
    MulStrict(n, rate, target);
  }

  /** A size from which the budget always passes: n * margin^2 >= z^2 * allowed * (1 - allowed). It is also
      necessary where the budget is a whole number. */
  lemma BudgetedAcceptsPass(k: nat, n: int, z: real, target: real, margin: real)
    requires n > 0 && z > 0.0 && target > 0.0 && margin > 0.0 && k as real <= target * (n as real)
    ensures var allowed := target + margin;
            var enough := n as real * margin * margin >= z * z * allowed * (1.0 - allowed);
            (enough ==> UpperAtMost(k, n, z, allowed))
            && (k as real == target * (n as real) ==> (UpperAtMost(k, n, z, allowed) <==> enough))
  {
    var allowed := target + margin;
    assert allowed - target == margin;
    assert AtMost(target, n as real, z, allowed) <==> n as real * margin * margin >= z * z * allowed * (1.0 - allowed);
    RateWithin(k as real, n as real, target, Rate(k, n));
    if AtMost(target, n as real, z, allowed) {
      AtMostAntitone(Rate(k, n), target, n as real, z, allowed);
    }
    hide AtMost;
  }

  // ---- two setups worth knowing ----

  const DEFAULT_SETUP := Setup(0.05, 100, 50, 20, None)

  lemma DefaultSizes()
    ensures DEFAULT_SETUP.Valid() && DEFAULT_SETUP.EveryN() == 10
    ensures DEFAULT_SETUP.MinCalibrationH0() == 35 && DEFAULT_SETUP.MinH0ForFit() == 350
  {
    assert DEFAULT_SETUP.CalibrationFraction() == 0.1;
    assert DEFAULT_SETUP.WilsonMargin() == 0.05;
    assert Z * Z * (1.0 - 0.1) / 0.1 == 34.5744;
    assert CleanSampleFloor(Z, 0.1) == 35;
  }

  const HALF_SETUP := Setup(0.05, 100, 101, 21, Some(0.5))

  /** A fraction split whose buckets are all met at the trigger and whose train total is one short. */
  lemma TrainTotalCanBeOneShort()
    ensures HALF_SETUP.Valid() && HALF_SETUP.MinH0ForFit() == 101
    ensures var config, counts := HALF_SETUP.PolicyConfig(), HALF_SETUP.CountsAt(101, 21);
            && BucketsMet(config, counts)
            && counts.trainH0 + counts.trainH1 == config.minTrainTotal - 1
            && GateFailureOf(config, counts, true, 0, HALF_SETUP.target) == Some(MinTrainTotalNotMet)
  {
    assert HALF_SETUP.WilsonMargin() == 0.05;
    assert Z * Z * (1.0 - 0.1) / 0.1 == 34.5744;
    assert CleanSampleFloor(Z, 0.1) == 35;
    assert HALF_SETUP.MinCalibrationH0() == 50;
    assert HALF_SETUP.MinH0ForFit() == 101;
    FractionGatesIff(HALF_SETUP);
  }

  /** The gate allows twice the target, or the target plus 0.03 if that is more. */
  lemma AllowedBound(s: Setup)
    requires s.Valid()
    ensures s.target + s.PolicyConfig().wilsonMargin == if s.target >= 0.03 then 2.0 * s.target else s.target + 0.03
    ensures s.PolicyConfig().z == 1.96 && s.PolicyConfig().requireFiniteThreshold
  {
    hide Setup.MinH0ForFit, Setup.MinCalibrationH0, Setup.TrainFraction, Setup.CalibrationFraction;
  }

  /** A later refit of an unchanged distribution waits for a quarter of the trigger in new H0 pairs and half the H1
      minimum in new H1 pairs, at least one of each; and so does a recalibration, for H0 alone, after an excess FPR. */
  lemma LaterFitsWait(s: Setup, c: Policy.Context)
    requires s.Valid() && c.threshold.Some? && !c.RequiresFullRefit()
    ensures Policy.Choose(s.PolicyConfig(), c).action == Policy.RefitScorer ==>
              && c.newH0SinceFit >= Max(1, s.MinH0ForFit() / 4) && c.newH1SinceFit >= Max(1, s.minH1 / 2)
              && c.totalH0 >= s.MinH0ForFit() && c.totalH1 >= s.minH1
    ensures Policy.Choose(s.PolicyConfig(), c).action == Policy.RecalibrateThreshold && s.PolicyConfig().FprAbove(c) ==>
              c.newH0SinceCalibration >= Max(1, s.MinH0ForFit() / 4)
  {
    Policy.RefitsIff(s.PolicyConfig(), c);
    Policy.RecalibratesIff(s.PolicyConfig(), c);
    hide Setup.MinH0ForFit, Setup.MinCalibrationH0, Setup.TrainFraction, Setup.CalibrationFraction, Policy.Choose;
  }

  // ---- the sizes of a modulo split, in whole numbers ----

  lemma CeilingQuotient(n: nat, k: int)
    requires k > 1
    ensures Ceil(n as real / k as real) == (n + k - 1) / k
  {
    var q, r := n / k, n % k;
    assert n == k * q + r;
    ScaledQuotient(n as real, k as real, q as real, r as real, n as real / k as real);
    if r == 0 {
      RemainderIs(n + k - 1, k, q, k - 1);
      assert (n as real / k as real) * k as real == q as real * k as real;
    } else {
      assert k * (q + 1) == k * q + k;
      RemainderIs(n + k - 1, k, q + 1, r - 1);
      assert (n as real / k as real) * k as real == q as real * k as real + r as real;
    }
  }

  /** What calibration gets of n pairs split by k, and what that leaves. */
  lemma SharesInWhole(n: nat, k: int)
    requires k > 1
    ensures Share(n, 1.0 - AllButOneOf(k)).Floor == n / k
    ensures Share(n, AllButOneOf(k)).Floor == n - (n + k - 1) / k
  {
    ModuloShares(n, k, AllButOneOf(k));
    ReciprocalShare(n as real, k as real, AllButOneOf(k));
    QuotientIsFloor(n, k);
    CeilingQuotient(n, k);
    hide Share, AllButOneOf;
  }

  lemma ScaledUp(m: int, n: int, c: real)
    requires c > 0.0 && c * n as real == 1.0
    ensures Ceil(m as real / c) == n * m
  {
    var q := m as real / c;
    assert q * c == m as real;
    assert q == q * (c * n as real) == (q * c) * n as real;
    assert q == (n * m) as real;
  }

  lemma SetupShares(s: Setup, m: nat)
    requires s.Valid() && s.fraction.None? && s.batchSize >= 20
    ensures var n := s.batchSize / 10;
            && Share(m, s.TrainFraction()).Floor == m - (m + n - 1) / n
            && Share(m, s.CalibrationFraction()).Floor == m / n
            && 0.0 < s.CalibrationFraction() && Ceil(m as real / s.CalibrationFraction()) == n * m
  {
    var n := s.batchSize / 10;
    assert s.TrainFraction() == AllButOneOf(n) && s.CalibrationFraction() == 1.0 - AllButOneOf(n);
    FractionsAreShares(s);
    hide Share, AllButOneOf, Ceil, Setup.TrainFraction, Setup.CalibrationFraction;
    SharesInWhole(m, n);
    ScaledUp(m, n, s.CalibrationFraction());
  }

  /** The minimums of the gate and the trigger for a split by N = batch_size / 10 >= 2. */
  lemma ModuloSizes(s: Setup)
    requires s.Valid() && s.fraction.None? && s.batchSize >= 20
    ensures var n, config := s.batchSize / 10, s.PolicyConfig();
            var all := s.minH0 + s.minH1;
            && config.minTrainH0 == Max(1, s.minH0 - (s.minH0 + n - 1) / n)
            && config.minTrainH1 == Max(1, s.minH1 - (s.minH1 + n - 1) / n)
            && config.minTrainTotal == Max(2, all - (all + n - 1) / n)
            && config.minCalibrationH0
               == Max(Max(1, s.minH0 / n), CleanSampleFloor(1.96, s.target + config.wilsonMargin))
            && config.minCalibrationH1 == Max(1, s.minH1 / n)
            && config.minH0ForFit == config.minH0ForCalibration == Max(s.minH0, n * config.minCalibrationH0)
            && config.minH1ForFit == s.minH1
  {
    hide Share, AllButOneOf, CleanSampleFloor, Ceil, Setup.TrainFraction, Setup.CalibrationFraction;
    SetupShares(s, s.minH0);
    SetupShares(s, s.minH1);
    SetupShares(s, s.minH0 + s.minH1);
    CalibrationMinimumIsPositive(s);
    SetupShares(s, s.MinCalibrationH0());
  }

  lemma WholeShares(m: nat)
    ensures Share(m, 1.0).Floor == m && Share(m, 0.0).Floor == 0
  {
  }

  /** A split by one is sized as if all pairs went to train, although all go to calibration. */
  lemma SplitByOneSizes(s: Setup)
    requires s.Valid() && s.fraction.None? && s.batchSize < 20
    ensures var config := s.PolicyConfig();
            && config.minTrainH0 == Max(1, s.minH0) && config.minTrainH1 == Max(1, s.minH1)
            && config.minTrainTotal == Max(2, s.minH0 + s.minH1)
            && config.minCalibrationH0 == CleanSampleFloor(1.96, s.target + config.wilsonMargin)
            && config.minCalibrationH1 == 1 && config.minH0ForFit == s.minH0
  {
    assert s.TrainFraction() == 1.0 && s.CalibrationFraction() == 0.0;
    WholeShares(s.minH0);
    WholeShares(s.minH1);
    WholeShares(s.minH0 + s.minH1);
    hide Share;
  }

  /** A split by a fraction f: its shares truncated, and a trigger that fills the H0 calibration minimum. */
  lemma FractionSizes(s: Setup)
    requires s.Valid() && s.fraction.Some?
    ensures var f, config := s.fraction.value, s.PolicyConfig();
            && config.minTrainH0 == Max(1, Share(s.minH0, 1.0 - f).Floor)
            && config.minTrainH1 == Max(1, Share(s.minH1, 1.0 - f).Floor)
            && config.minTrainTotal == Max(2, Share(s.minH0 + s.minH1, 1.0 - f).Floor)
            && config.minCalibrationH0
               == Max(Max(1, Share(s.minH0, f).Floor), CleanSampleFloor(1.96, s.target + config.wilsonMargin))
            && config.minCalibrationH1 == Max(1, Share(s.minH1, f).Floor)
            && config.minH0ForFit == Max(s.minH0, Ceil(config.minCalibrationH0 as real / f))
  {
    hide CleanSampleFloor, Ceil, Share;
  }
}
