/** When the oracle refits its scorer or recalibrates its threshold (src/mlcache/policies/refit.py). */
module RefitPolicy {
  import opened Scores
  import opened RealArithmetic

  datatype Action = Noop | RecalibrateThreshold | RefitScorer | DisableSemanticHits

  datatype Reason =
    | FitInProgress | InitialFitReady | InsufficientInitialTrainingData
    | SemanticDistributionChanged | DistributionChangedButRefitNotReady
    | FprAboveLimit | CalibrationCooldownActive | FprAboveLimitWaitingForH0
    | TprDegraded | RefitCooldownActive | TprDegradedWaitingForLabels
    | EnoughNewBalancedExamples | ThresholdStale | NoRefitSignal

  datatype Decision = Decision(action: Action, reason: Reason)

  datatype OnlineMetrics = OnlineMetrics(target: real, fpr: real, tpr: real)

  datatype Context = Context(
    totalH0: int, totalH1: int, target: real, threshold: Option<Score>, metrics: Option<OnlineMetrics>,
    newH0SinceFit: int, newH1SinceFit: int, newH0SinceCalibration: int,
    monitorFpr: Option<real>, monitorFprUpperBound: Option<real>, monitorTpr: Option<real>, previousTpr: Option<real>,
    decisionsSinceFit: int, decisionsSinceCalibration: int,
    secondsSinceFit: Option<real>, secondsSinceCalibration: Option<real>,
    fitInProgress: bool, scorerChanged: bool, embeddingModelChanged: bool, trafficDistributionChanged: bool)
  {
    function EffectiveTarget(): real {
      if metrics.Some? then metrics.value.target else target
    }

    function EffectiveFpr(): Option<real> {
      if monitorFpr.Some? then monitorFpr else if metrics.Some? then Some(metrics.value.fpr) else None
    }

    function EffectiveTpr(): Option<real> {
      if monitorTpr.Some? then monitorTpr else if metrics.Some? then Some(metrics.value.tpr) else None
    }

    predicate Valid() {
      totalH0 >= 0 && totalH1 >= 0 && 0.0 < EffectiveTarget() < 1.0
    }

    /** New examples relative to the ones the last fit had. */
    function NewFraction(): real {
      var newTotal := Max(0, newH0SinceFit) + Max(0, newH1SinceFit);
      var total := Max(0, totalH0) + Max(0, totalH1);
      newTotal as real / Max(1, total - newTotal) as real
    }

    predicate RequiresFullRefit() {
      scorerChanged || embeddingModelChanged || trafficDistributionChanged
    }
  }

  predicate NonNegative(x: Option<real>) { x.Some? ==> x.value >= 0.0 }

  predicate Reached(n: int, limit: Option<int>) { limit.Some? && n >= limit.value }

  predicate Elapsed(seconds: Option<real>, limit: Option<real>) {
    limit.Some? && seconds.Some? && seconds.value >= limit.value
  }

  predicate TooSoon(seconds: Option<real>, least: Option<real>) {
    least.Some? && seconds.Some? && seconds.value < least.value
  }

  datatype Config = Config(
    minH0ForFit: int, minH1ForFit: int, minH0ForCalibration: int,
    minTrainTotal: int, minTrainH0: int, minTrainH1: int, minCalibrationH0: int, minCalibrationH1: int,
    z: real, wilsonMargin: real, requireFiniteThreshold: bool,
    minNewH0ForCalibration: int, minNewH0ForRefit: int, minNewH1ForRefit: int, minNewFraction: real,
    fprMargin: real, tprDropMargin: real,
    minDecisionsBetweenCalibrations: int, minDecisionsBetweenRefits: int,
    maxDecisionsBetweenCalibrations: Option<int>, maxDecisionsBetweenRefits: Option<int>,
    minSecondsBetweenCalibrations: Option<real>, minSecondsBetweenRefits: Option<real>,
    maxSecondsBetweenCalibrations: Option<real>, maxSecondsBetweenRefits: Option<real>)
  {
    predicate Valid() {
      && minH0ForFit >= 0 && minH1ForFit >= 0 && minH0ForCalibration >= 0
      && minTrainTotal >= 0 && minTrainH0 >= 0 && minTrainH1 >= 0 && minCalibrationH0 >= 0 && minCalibrationH1 >= 0
      && minNewH0ForCalibration >= 0 && minNewH0ForRefit >= 0 && minNewH1ForRefit >= 0
      && minDecisionsBetweenCalibrations >= 0 && minDecisionsBetweenRefits >= 0
      && (maxDecisionsBetweenCalibrations.Some? ==> maxDecisionsBetweenCalibrations.value > 0)
      && (maxDecisionsBetweenRefits.Some? ==> maxDecisionsBetweenRefits.value > 0)
      && NonNegative(minSecondsBetweenCalibrations) && NonNegative(minSecondsBetweenRefits)
      && NonNegative(maxSecondsBetweenCalibrations) && NonNegative(maxSecondsBetweenRefits)
      && minNewFraction >= 0.0 && fprMargin >= 0.0 && tprDropMargin >= 0.0 && z > 0.0 && wilsonMargin >= 0.0
    }

    predicate CanFit(c: Context) {
      c.totalH0 >= minH0ForFit && c.totalH1 >= minH1ForFit
    }

    predicate CanCalibrate(c: Context) {
      c.totalH0 >= minH0ForCalibration
    }

    predicate HasNewCalibrationData(c: Context) {
      c.newH0SinceCalibration >= minNewH0ForCalibration
    }

    predicate HasNewRefitData(c: Context) {
      c.newH0SinceFit >= minNewH0ForRefit && c.newH1SinceFit >= minNewH1ForRefit && c.NewFraction() >= minNewFraction
    }

    predicate FprAbove(c: Context) {
      if c.monitorFprUpperBound.Some? then c.monitorFprUpperBound.value > c.EffectiveTarget()
      else c.EffectiveFpr().Some? && c.EffectiveFpr().value > c.EffectiveTarget() + fprMargin
    }

    predicate TprDropped(c: Context) {
      c.EffectiveTpr().Some? && c.previousTpr.Some? && c.previousTpr.value - c.EffectiveTpr().value >= tprDropMargin
    }

    predicate IsStale(c: Context) {
      || Reached(c.decisionsSinceCalibration, maxDecisionsBetweenCalibrations)
      || Elapsed(c.secondsSinceCalibration, maxSecondsBetweenCalibrations)
      || Reached(c.decisionsSinceFit, maxDecisionsBetweenRefits)
      || Elapsed(c.secondsSinceFit, maxSecondsBetweenRefits)
    }

    predicate CalibrationCooldownElapsed(c: Context) {
      && c.decisionsSinceCalibration >= minDecisionsBetweenCalibrations
      && !TooSoon(c.secondsSinceCalibration, minSecondsBetweenCalibrations)
    }

    predicate RefitCooldownElapsed(c: Context) {
      && c.decisionsSinceFit >= minDecisionsBetweenRefits
      && !TooSoon(c.secondsSinceFit, minSecondsBetweenRefits)
    }
  }

  const DEFAULT_CONFIG := Config(
    100, 50, 100, 1200, 100, 50, 500, 50, 1.96, 0.03, true, 25, 50, 50, 0.25, 0.01, 0.05, 1, 5,
    None, None, None, None, None, None)

  function Choose(config: Config, c: Context): Decision {
    var canFit, canCalibrate := config.CanFit(c), config.CanCalibrate(c);
    var refitReady := config.RefitCooldownElapsed(c);
    if c.fitInProgress then Decision(Noop, FitInProgress)
    else if c.threshold.None? then
      if canFit && refitReady then Decision(RefitScorer, InitialFitReady)
      else Decision(Noop, InsufficientInitialTrainingData)
    else if c.RequiresFullRefit() then
      if canFit && refitReady then Decision(RefitScorer, SemanticDistributionChanged)
      else Decision(Noop, DistributionChangedButRefitNotReady)
    else if config.FprAbove(c) then
      if canCalibrate && config.HasNewCalibrationData(c) then
        if config.CalibrationCooldownElapsed(c) then Decision(RecalibrateThreshold, FprAboveLimit)
        else Decision(Noop, CalibrationCooldownActive)
      else Decision(Noop, FprAboveLimitWaitingForH0)
    else if config.TprDropped(c) then
      if canFit && config.HasNewRefitData(c) then
        if refitReady then Decision(RefitScorer, TprDegraded) else Decision(Noop, RefitCooldownActive)
      else Decision(Noop, TprDegradedWaitingForLabels)
    else if canFit && config.HasNewRefitData(c) then
      if refitReady then Decision(RefitScorer, EnoughNewBalancedExamples) else Decision(Noop, RefitCooldownActive)
    else if canCalibrate && config.IsStale(c) then
      if config.CalibrationCooldownElapsed(c) then Decision(RecalibrateThreshold, ThresholdStale)
      else Decision(Noop, CalibrationCooldownActive)
    else Decision(Noop, NoRefitSignal)
  }

  function Decide(config: Config, c: Context): Result<Decision> {
    if !(c.totalH0 >= 0 && c.totalH1 >= 0) then Err("total_h0 and total_h1 must be non-negative")
    else if !(0.0 < c.EffectiveTarget() < 1.0) then Err("target_false_accept_rate must be in (0,1)")
    else Ok(Choose(config, c))
  }

  // ---- when each action is taken ----

  predicate WantsRefit(config: Config, c: Context) {
    c.threshold.None? || c.RequiresFullRefit() || (!config.FprAbove(c) && config.HasNewRefitData(c))
  }

  /** A refit happens exactly when none is running, the label totals and the cooldown allow it, and either
      there is no threshold, or the distribution changed, or enough balanced labels arrived while the FPR
      is within its limit. A TPR drop plays no part. */
  lemma RefitsIff(config: Config, c: Context)
    ensures Choose(config, c).action == RefitScorer
            <==> !c.fitInProgress && config.CanFit(c) && config.RefitCooldownElapsed(c) && WantsRefit(config, c)
  {
    hide Config.CanFit, Config.RefitCooldownElapsed, Config.HasNewRefitData, Config.FprAbove, Config.TprDropped;
    hide Config.CanCalibrate, Config.HasNewCalibrationData, Config.IsStale, Config.CalibrationCooldownElapsed;
  }

  /** A recalibration happens exactly when nothing above it in the order applies: an excess FPR with new H0
      labels, or else a stale threshold while no refit is wanted and the TPR has not dropped. */
  lemma RecalibratesIff(config: Config, c: Context)
    ensures Choose(config, c).action == RecalibrateThreshold
            <==> !c.fitInProgress && c.threshold.Some? && !c.RequiresFullRefit()
                 && config.CanCalibrate(c) && config.CalibrationCooldownElapsed(c)
                 && (if config.FprAbove(c) then config.HasNewCalibrationData(c)
                     else !config.TprDropped(c) && config.IsStale(c)
                          && !(config.CanFit(c) && config.HasNewRefitData(c)))
    ensures Choose(config, c).action != DisableSemanticHits
  {
    hide Config.CanFit, Config.RefitCooldownElapsed, Config.HasNewRefitData, Config.FprAbove, Config.TprDropped;
    hide Config.CanCalibrate, Config.HasNewCalibrationData, Config.IsStale, Config.CalibrationCooldownElapsed;
  }

  /** A degraded TPR never causes an action. Forgetting the previous TPR changes the action exactly where a
      stale threshold would otherwise have been recalibrated; there the drop suppresses it. */
  lemma TprDropOnlySuppresses(config: Config, c: Context)
    ensures var actual, other := Choose(config, c).action, Choose(config, c.(previousTpr := None)).action;
            && (actual != other
                <==> && !c.fitInProgress && c.threshold.Some? && !c.RequiresFullRefit()
                     && !config.FprAbove(c) && config.TprDropped(c) && !(config.CanFit(c) && config.HasNewRefitData(c))
                     && config.CanCalibrate(c) && config.IsStale(c) && config.CalibrationCooldownElapsed(c))
            && (actual != other ==> actual == Noop && other == RecalibrateThreshold)
  {
    var calm := c.(previousTpr := None);
    assert calm.EffectiveTarget() == c.EffectiveTarget() && calm.EffectiveFpr() == c.EffectiveFpr();
    assert calm.NewFraction() == c.NewFraction();
    assert !config.TprDropped(calm);
    RefitsIff(config, c);
    RefitsIff(config, calm);
    RecalibratesIff(config, c);
    RecalibratesIff(config, calm);
  }

  /** With enough labels for a calibration, a threshold 40 decisions old under a limit of 30, and a TPR that
      fell from 0.9 to 0.7, nothing is done; without the previous TPR the threshold is recalibrated. */
  lemma TprDropSuppressesRecalibration()
    ensures var config := DEFAULT_CONFIG.(maxDecisionsBetweenCalibrations := Some(30));
            var c := Context(200, 100, 0.05, Some(0), None, 0, 0, 0, Some(0.01), None, Some(0.7), Some(0.9), 40, 40,
                             None, None, false, false, false, false);
            && config.Valid()
            && Decide(config, c) == Ok(Decision(Noop, TprDegradedWaitingForLabels))
            && Decide(config, c.(previousTpr := None)) == Ok(Decision(RecalibrateThreshold, ThresholdStale))
  {
  }

  // ---- the conditions, read off the context ----

  /** The monitored FPR is above its limit: an upper bound, if there is one, is held against the target itself; a
      plain rate, of the context or else of its metrics, against the target plus the margin. */
  lemma FprAboveIff(config: Config, c: Context)
    ensures var target := if c.metrics.Some? then c.metrics.value.target else c.target;
            config.FprAbove(c)
            <==> match (c.monitorFprUpperBound, c.monitorFpr, c.metrics)
                 case (Some(bound), _, _) => bound > target
                 case (None, Some(fpr), _) => fpr > target + config.fprMargin
                 case (None, None, Some(m)) => m.fpr > target + config.fprMargin
                 case _ => false
  {
  }

  /** The TPR has fallen by the margin or more since the last fit. */
  lemma TprDroppedIff(config: Config, c: Context)
    ensures config.TprDropped(c)
            <==> match (c.previousTpr, c.monitorTpr, c.metrics)
                 case (Some(before), Some(now), _) => before >= now + config.tprDropMargin
                 case (Some(before), None, Some(m)) => before >= m.tpr + config.tprDropMargin
                 case _ => false
  {
  }

  lemma FractionAtLeast(x: nat, y: nat, f: real)
    requires y > 0
    ensures x as real / y as real >= f <==> x as real >= f * y as real
  {
    var q, yr := x as real / y as real, y as real;
    assert q * yr == x as real;
    MulStrict(yr, f, q);
  }

  /** Labels for a refit are new when both labels gained their minimum and the new examples make up the required
      fraction of the older ones. */
  lemma NewRefitDataIff(config: Config, c: Context)
    requires config.Valid() && c.totalH0 >= 0 && c.totalH1 >= 0
    ensures var gained, total := Max(0, c.newH0SinceFit) + Max(0, c.newH1SinceFit), c.totalH0 + c.totalH1;
            config.HasNewRefitData(c)
            <==> c.newH0SinceFit >= config.minNewH0ForRefit && c.newH1SinceFit >= config.minNewH1ForRefit
                 && gained as real >= config.minNewFraction * Max(1, total - gained) as real
  {
    var gained, total := Max(0, c.newH0SinceFit) + Max(0, c.newH1SinceFit), c.totalH0 + c.totalH1;
    FractionAtLeast(gained, Max(1, total - gained), config.minNewFraction);
  }

  /** Enough decisions, and enough seconds where both the elapsed time and a minimum are known. */
  predicate Rested(decisions: int, seconds: Option<real>, leastDecisions: int, leastSeconds: Option<real>) {
    decisions >= leastDecisions
    && (leastSeconds.Some? && seconds.Some? ==> seconds.value >= leastSeconds.value)
  }

  /** Too many decisions, or too many seconds, where a maximum is set. */
  predicate Overdue(decisions: int, seconds: Option<real>, mostDecisions: Option<int>, mostSeconds: Option<real>) {
    (mostDecisions.Some? && decisions >= mostDecisions.value)
    || (mostSeconds.Some? && seconds.Some? && seconds.value >= mostSeconds.value)
  }

  lemma TimingIff(config: Config, c: Context)
    ensures config.RefitCooldownElapsed(c)
            <==> Rested(c.decisionsSinceFit, c.secondsSinceFit, config.minDecisionsBetweenRefits,
                        config.minSecondsBetweenRefits)
    ensures config.CalibrationCooldownElapsed(c)
            <==> Rested(c.decisionsSinceCalibration, c.secondsSinceCalibration, config.minDecisionsBetweenCalibrations,
                        config.minSecondsBetweenCalibrations)
    ensures config.IsStale(c)
            <==> Overdue(c.decisionsSinceCalibration, c.secondsSinceCalibration,
                         config.maxDecisionsBetweenCalibrations, config.maxSecondsBetweenCalibrations)
                 || Overdue(c.decisionsSinceFit, c.secondsSinceFit, config.maxDecisionsBetweenRefits,
                            config.maxSecondsBetweenRefits)
  {
  }

  /** A decision is refused exactly for a negative total or a target that is no rate. */
  lemma DecidesIff(config: Config, c: Context)
    ensures Decide(config, c).Ok?
            <==> c.totalH0 >= 0 && c.totalH1 >= 0
                 && 0.0 < (if c.metrics.Some? then c.metrics.value.target else c.target) < 1.0
    ensures Decide(config, c).Ok? ==> Decide(config, c).value == Choose(config, c)
    ensures c.Valid() <==> Decide(config, c).Ok?
  {
    hide Choose;
  }

  /** The first fit, in the context's own terms: no threshold yet, no fit running, enough pairs of both labels, and
      the cooldown over. */
  lemma FirstFitIff(config: Config, c: Context)
    requires c.threshold.None?
    ensures Choose(config, c).action
            == if !c.fitInProgress && c.totalH0 >= config.minH0ForFit && c.totalH1 >= config.minH1ForFit
                  && Rested(c.decisionsSinceFit, c.secondsSinceFit, config.minDecisionsBetweenRefits,
                            config.minSecondsBetweenRefits)
               then RefitScorer else Noop
  {
    RefitsIff(config, c);
    RecalibratesIff(config, c);
    TimingIff(config, c);
    hide Rested;
  }

  /** An excess FPR under an existing threshold is met by recalibration, or by waiting for it, never by a refit. */
  lemma ExcessFprIff(config: Config, c: Context)
    requires c.threshold.Some? && !c.fitInProgress && config.FprAbove(c)
    requires !c.scorerChanged && !c.embeddingModelChanged && !c.trafficDistributionChanged
    ensures Choose(config, c)
            == if c.totalH0 < config.minH0ForCalibration || c.newH0SinceCalibration < config.minNewH0ForCalibration
               then Decision(Noop, FprAboveLimitWaitingForH0)
               else if Rested(c.decisionsSinceCalibration, c.secondsSinceCalibration,
                              config.minDecisionsBetweenCalibrations, config.minSecondsBetweenCalibrations)
               then Decision(RecalibrateThreshold, FprAboveLimit)
               else Decision(Noop, CalibrationCooldownActive)
  {
    TimingIff(config, c);
    hide Config.FprAbove, Rested;
  }

  /** The reason names the signal: a running fit, a missing threshold, a changed distribution, an excess FPR, a
      fallen TPR, new labels, a stale threshold, or none of these, the first that applies. */
  lemma ReasonNamesTheSignal(config: Config, c: Context)
    ensures var reason := Choose(config, c).reason;
            var changed := c.scorerChanged || c.embeddingModelChanged || c.trafficDistributionChanged;
            var ready := c.totalH0 >= config.minH0ForFit && c.totalH1 >= config.minH1ForFit
                         && config.HasNewRefitData(c);
            if c.fitInProgress then reason == FitInProgress
            else if c.threshold.None? then reason in {InitialFitReady, InsufficientInitialTrainingData}
            else if changed then reason in {SemanticDistributionChanged, DistributionChangedButRefitNotReady}
            else if config.FprAbove(c) then
              reason in {FprAboveLimit, CalibrationCooldownActive, FprAboveLimitWaitingForH0}
            else if config.TprDropped(c) then
              reason in (if ready then {TprDegraded, RefitCooldownActive} else {TprDegradedWaitingForLabels})
            else if ready then reason in {EnoughNewBalancedExamples, RefitCooldownActive}
            else if c.totalH0 >= config.minH0ForCalibration && config.IsStale(c) then
              reason in {ThresholdStale, CalibrationCooldownActive}
            else reason == NoRefitSignal
    ensures Choose(config, c).action == RefitScorer
            <==> Choose(config, c).reason
                 in {InitialFitReady, SemanticDistributionChanged, TprDegraded, EnoughNewBalancedExamples}
    ensures Choose(config, c).action == RecalibrateThreshold
            <==> Choose(config, c).reason in {FprAboveLimit, ThresholdStale}
  {
    hide Config.FprAbove, Config.TprDropped, Config.IsStale, Config.HasNewRefitData, Config.RefitCooldownElapsed,
         Config.CalibrationCooldownElapsed, Config.HasNewCalibrationData;
  }
}
