/** What shadow collection conserves, within a call and across calls. */
module CollectorRuns {
  import opened Scores
  import opened TrainingStore
  import opened ShadowCollector

  // ---- one call ----

  /** Preparation: every candidate considered is skipped or observed, and every observed pair is either
      prepared or a failure. Without a pair limit and without a raise all of them are considered. */
  lemma {:induction false} PreparationConserved(config: Config, request: Request, selected: seq<Candidate>, n: nat)
    requires n <= |selected|
    ensures var p := Prepare(config, request, selected, n);
            && p.tally.pairs == |p.prepared| + p.tally.failures
            && p.tally.judgeCalls == p.tally.h0 == p.tally.h1 == p.tally.uncertain == 0
            && (config.maxPairs.None? ==> !p.stopped)
            && (config.maxPairs.Some? ==> p.tally.pairs <= config.maxPairs.value)
            && (!p.stopped && !p.halted ==> p.tally.pairs + p.tally.skipped == n)
            && (p.halted ==> config.raiseOnFailure)
  {
    hide Skips;
    if n > 0 {
      PreparationConserved(config, request, selected, n - 1);
    }
  }

  /** One judged candidate ends in one of the four counts, unless the call had raised before. */
  lemma StepConserved(env: Env, p: Progress, c: Candidate)
    requires env.Valid() && !p.local.halted && c.features.Some?
    ensures var q := env.JudgeNext(p, c);
            var t, t' := p.local.tally, q.local.tally;
            && t'.pairs == t.pairs && t'.skipped == t.skipped && t'.judgeCalls == t.judgeCalls + 1
            && t'.h0 + t'.h1 + t'.uncertain + t'.failures == t.h0 + t.h1 + t.uncertain + t.failures + 1
            && (q.local.halted ==> env.config.raiseOnFailure)
  {
    hide Env.OfferOf, Outcomes, RunOffers, SplitCounts.Next, SplitCounts.Advanced, LabelOf;
  }

  /** Judging: each prepared pair ends as H0, H1, uncertain or a failure, until a raise. */
  lemma {:induction false} JudgingConserved(env: Env, p: Progress, cs: seq<Candidate>)
    requires env.Valid() && !p.local.halted
    requires AllFeatured(cs)
    ensures var q := env.Judge(p, cs);
            var t, t' := p.local.tally, q.local.tally;
            && t'.pairs == t.pairs && t'.skipped == t.skipped
            && (!q.local.halted ==>
                 t'.h0 + t'.h1 + t'.uncertain + t'.failures == t.h0 + t.h1 + t.uncertain + t.failures + |cs|
                 && t'.judgeCalls == t.judgeCalls + |cs|)
            && (q.local.halted ==> env.config.raiseOnFailure)
  {
    hide Env.JudgeNext;
    if cs != [] {
      var n := |cs| - 1;
      JudgingConserved(env, p, cs[..n]);
      var before := env.Judge(p, cs[..n]);
      if before.local.halted {
        HaltedJudgeNext(env, before, cs[n]);
      } else {
        StepConserved(env, before, cs[n]);
      }
    }
  }

  /** Conservation of one call: unless it raises, observed pairs, plus one if the query record failed,
      are exactly the H0, H1 and uncertain pairs and the failures; every observed pair with features is
      judged; and without a pair limit every candidate considered was skipped or observed. A call raises
      only if configured to. */
  lemma CallIsConserved(st: State, env: Env, request: Request, candidates: seq<Candidate>, recordStored: Option<bool>)
    requires env.Valid() && env.config.enabled
    ensures match AfterCollect(st, env, request, candidates, recordStored).1
            case CollectionRaised => env.config.raiseOnFailure
            case Collected(t, _) =>
              && t.pairs + (if recordStored == Some(false) then 1 else 0) == t.h0 + t.h1 + t.uncertain + t.failures
              && t.judgeCalls <= t.pairs
              && (env.config.maxPairs.None? ==> t.skipped + t.pairs == Min(|candidates|, env.config.topK))
              && (env.config.maxPairs.Some? ==> t.pairs <= env.config.maxPairs.value)
  {
    hide Env.Judge, Prepare;
    var selected := Selected(env.config, candidates);
    PreparationConserved(env.config, request, selected, |selected|);
    PreparedHaveFeatures(env.config, request, selected, |selected|);
    var prep := PrepOf(env.config, request, candidates);
    if !prep.halted {
      JudgingConserved(env, Progress(Local(prep.tally, map[], false), st.splits, st.offers), prep.prepared);
    }
  }

  // ---- the split rule ----

  function Quotient(n: nat, every: int): nat
    requires every > 0
  {
    n / every
  }

  /** What a split has sent to calibration after n pairs of a label. */
  function CalibrationShare(config: Config, n: nat): int
    requires config.everyN > 0
  {
    if config.fraction.Some? then Ceil(Portion(config.fraction.value, n)) else Quotient(n, config.everyN)
  }

  ghost predicate ExactSplits(s: SplitCounts, config: Config)
    requires config.everyN > 0
  {
    && s.h0Calibration == CalibrationShare(config, s.h0Seen)
    && s.h1Calibration == CalibrationShare(config, s.h1Seen)
  }

  lemma CeilStep(f: real, x: real, y: real)
    requires 0.0 < f < 1.0 && y == x + f
    ensures Ceil(y) == Ceil(x) + if Ceil(x) as real < y then 1 else 0
  {
  }

  lemma FractionStep(f: real, n: nat)
    requires 0.0 < f < 1.0
    ensures Ceil(Portion(f, 0)) == 0
    ensures var share := Ceil(Portion(f, n));
            Ceil(Portion(f, n + 1)) == share + if share as real < Portion(f, n + 1) then 1 else 0
  {
    CeilStep(f, Portion(f, n), Portion(f, n + 1));
  }

  lemma MultipleSize(d: int, k: int)
    requires k > 0
    ensures d >= 1 ==> d * k >= k
    ensures d <= -1 ==> d * k <= -k
  {
    if d >= 1 {
      assert (d - 1) * k >= 0;
    } else if d <= -1 {
      assert (-d - 1) * k >= 0;
    }
  }

  lemma DivUnique(n: int, k: int, q: int, r: int)
    requires k > 0 && n == q * k + r && 0 <= r < k
    ensures n / k == q && n % k == r
  {
    var d := n / k - q;
    assert d * k == r - n % k;
    MultipleSize(d, k);
  }

  lemma {:induction false} QuotientStep(n: nat, k: int)
    requires k > 0
    ensures Quotient(0, k) == 0
    ensures Quotient(n + 1, k) == Quotient(n, k) + if IsNth(n + 1, k) then 1 else 0
  {
    var q, r := n / k, n % k;
    assert n == q * k + r;
    DivUnique(0, k, 0, 0);
    if r == k - 1 {
      assert n + 1 == (q + 1) * k;
      DivUnique(n + 1, k, q + 1, 0);
    } else {
      DivUnique(n + 1, k, q, r + 1);
    }
  }

  /** One more pair moves the share by exactly the decision of the rule. */
  lemma ShareStep(config: Config, n: nat)
    requires config.Valid()
    ensures CalibrationShare(config, 0) == 0
    ensures var share := CalibrationShare(config, n);
            CalibrationShare(config, n + 1)
            == share + if (if config.fraction.Some? then share as real < Portion(config.fraction.value, n + 1)
                           else IsNth(n + 1, config.everyN)) then 1 else 0
  {
    hide Portion, Ceil, Quotient, IsNth;
    if config.fraction.Some? {
      FractionStep(config.fraction.value, n);
    } else {
      QuotientStep(n, config.everyN);
    }
  }

  lemma NextKeepsExact(s: SplitCounts, judged: JudgeLabel, config: Config)
    requires config.Valid() && ExactSplits(s, config)
    ensures ExactSplits(s.Advanced(judged, s.Next(judged, config)), config)
  {
    hide CalibrationShare, Portion, IsNth;
    ShareStep(config, s.Seen(judged));
  }

  function AfterLabels(config: Config, labels: seq<JudgeLabel>): SplitCounts
    requires config.Valid()
  {
    if labels == [] then SplitCounts(0, 0, 0, 0)
    else
      var s := AfterLabels(config, labels[..|labels| - 1]);
      s.Advanced(labels[|labels| - 1], s.Next(labels[|labels| - 1], config))
  }

  function CountLabel(labels: seq<JudgeLabel>, judged: JudgeLabel): nat {
    if labels == [] then 0
    else CountLabel(labels[..|labels| - 1], judged) + if labels[|labels| - 1] == judged then 1 else 0
  }

  /** Split exactness: for every interleaving of the two labels, after n decided pairs of a label the
      fraction rule has sent ceil(fraction * n) of them to calibration and the modulo rule floor(n / N). */
  lemma {:induction false} SplitsAreExact(config: Config, labels: seq<JudgeLabel>)
    requires config.Valid()
    ensures var s := AfterLabels(config, labels);
            ExactSplits(s, config) && s.h0Seen + s.h1Seen == |labels| && s.h1Seen == CountLabel(labels, Reusable)
  {
    ShareStep(config, 0);
    if labels != [] {
      SplitsAreExact(config, labels[..|labels| - 1]);
      NextKeepsExact(AfterLabels(config, labels[..|labels| - 1]), labels[|labels| - 1], config);
      hide ExactSplits;
    }
  }

  // ---- across calls ----

  datatype Call = Call(request: Request, candidates: seq<Candidate>, recordStored: Option<bool>)

  /** A call whose query record could not be stored while failures are fatal: its counts are never committed. */
  predicate RecordRaises(env: Env, c: Call) {
    env.config.enabled && env.config.raiseOnFailure && c.recordStored == Some(false)
  }

  ghost function AfterCalls(env: Env, calls: seq<Call>): State
    requires env.Valid()
  {
    if calls == [] then FRESH
    else
      var c := calls[|calls| - 1];
      AfterCollect(AfterCalls(env, calls[..|calls| - 1]), env, c.request, c.candidates, c.recordStored).0
  }

  function CountOf(t: Tally, judged: JudgeLabel): nat { if judged == Reusable then t.h1 else t.h0 }

  /** Offers of a label that did not raise. */
  ghost function Entered(env: Env, offers: seq<Offer>, judged: JudgeLabel): int {
    TalliesOf(offers, env.bounds, judged).offered - TalliesOf(offers, env.bounds, judged).raised
  }

  ghost function OfferedTo(env: Env, offers: seq<Offer>, judged: JudgeLabel): nat {
    TalliesOf(offers, env.bounds, judged).offered
  }

  /** Offers of a label made to calibration. */
  function ToCalibration(offers: seq<Offer>, judged: JudgeLabel): nat {
    if offers == [] then 0
    else
      var o := offers[|offers| - 1];
      ToCalibration(offers[..|offers| - 1], judged)
      + if o.example.judged == judged && o.split == Calibration then 1 else 0
  }

  lemma ToCalibrationAppend(offers: seq<Offer>, o: Offer, judged: JudgeLabel)
    ensures ToCalibration(offers + [o], judged)
            == ToCalibration(offers, judged) + if o.example.judged == judged && o.split == Calibration then 1 else 0
  {
    assert (offers + [o])[..|offers|] == offers;
  }

  lemma TalliesAppend(env: Env, offers: seq<Offer>, o: Offer, judged: JudgeLabel)
    ensures var raised := Outcomes(RunOffers(offers, env.bounds), o, env.bounds).1 == Raised;
            && OfferedTo(env, offers + [o], judged)
               == OfferedTo(env, offers, judged) + (if o.example.judged == judged then 1 else 0)
            && Entered(env, offers + [o], judged)
               == Entered(env, offers, judged) + (if o.example.judged == judged && !raised then 1 else 0)
  {
    assert (offers + [o])[..|offers|] == offers;
    hide Outcomes;
  }

  /** Within a call the counts, the split counters and the offers move together, and the splits stay exact. */
  ghost predicate InStep(env: Env, p: Progress, q: Progress, judged: JudgeLabel)
    requires env.Valid()
  {
    && CountOf(q.local.tally, judged) - CountOf(p.local.tally, judged)
       == Entered(env, q.offers, judged) - Entered(env, p.offers, judged) >= 0
    && q.splits.Seen(judged) - p.splits.Seen(judged)
       == OfferedTo(env, q.offers, judged) - OfferedTo(env, p.offers, judged)
    && q.splits.Calibrated(judged) - p.splits.Calibrated(judged)
       == ToCalibration(q.offers, judged) - ToCalibration(p.offers, judged)
    && (ExactSplits(p.splits, env.config) ==> ExactSplits(q.splits, env.config))
  }

  lemma UncertainOffer(env: Env, offers: seq<Offer>, e: Example, judged: JudgeLabel)
    requires e.judged == Uncertain != judged
    ensures var o := env.OfferOf(offers, Train, e);
            Entered(env, offers + [o], judged) == Entered(env, offers, judged)
            && OfferedTo(env, offers + [o], judged) == OfferedTo(env, offers, judged)
            && ToCalibration(offers + [o], judged) == ToCalibration(offers, judged)
  {
    hide Entered, OfferedTo, ToCalibration;
    TalliesAppend(env, offers, env.OfferOf(offers, Train, e), judged);
    ToCalibrationAppend(offers, env.OfferOf(offers, Train, e), judged);
  }

  lemma DecidedOffer(env: Env, offers: seq<Offer>, split: Split, e: Example, judged: JudgeLabel)
    ensures var o := env.OfferOf(offers, split, e);
            var raised := Outcomes(RunOffers(offers, env.bounds), o, env.bounds).1 == Raised;
            && OfferedTo(env, offers + [o], judged)
               == OfferedTo(env, offers, judged) + (if e.judged == judged then 1 else 0)
            && Entered(env, offers + [o], judged)
               == Entered(env, offers, judged) + (if e.judged == judged && !raised then 1 else 0)
            && ToCalibration(offers + [o], judged)
               == ToCalibration(offers, judged) + (if e.judged == judged && split == Calibration then 1 else 0)
  {
    hide Entered, OfferedTo, ToCalibration;
    TalliesAppend(env, offers, env.OfferOf(offers, split, e), judged);
    ToCalibrationAppend(offers, env.OfferOf(offers, split, e), judged);
  }

  /** Whether the judge decided on this label. */
  predicate JudgedAs(c: Candidate, judged: JudgeLabel) {
    c.judgement.Some? && c.judgement.value.judged == judged
  }

  lemma DecideInStep(env: Env, p: Progress, e: Example, judged: JudgeLabel)
    requires env.Valid() && judged != Uncertain && e.judged != Uncertain
    ensures var q := env.DecideNext(p, e);
            && InStep(env, p, q, judged)
            && (env.config.raiseOnFailure && !q.local.halted ==>
                  CountOf(q.local.tally, judged)
                  == CountOf(p.local.tally, judged) + if e.judged == judged then 1 else 0)
  {
    hide RunOffers, Outcomes, ExactSplits, SplitCounts.Next, Entered, OfferedTo, ToCalibration, Env.OfferOf;
    DecidedOffer(env, p.offers, p.splits.Next(e.judged, env.config), e, judged);
    if ExactSplits(p.splits, env.config) {
      NextKeepsExact(p.splits, e.judged, env.config);
    }
  }

  /** One candidate keeps step; when failures are fatal and none occurred, it counts exactly if it was
      judged to have the label. */
  lemma StepInStep(env: Env, p: Progress, c: Candidate, judged: JudgeLabel)
    requires env.Valid() && judged != Uncertain
    ensures var q := env.JudgeNext(p, c);
            && InStep(env, p, q, judged)
            && (env.config.raiseOnFailure && !q.local.halted && c.features.Some? ==>
                  !p.local.halted
                  && CountOf(q.local.tally, judged)
                     == CountOf(p.local.tally, judged) + if JudgedAs(c, judged) then 1 else 0)
  {
    hide Env.DecideNext, Env.OfferOf, ExactSplits, Entered, OfferedTo, ToCalibration, LabelOf;
    if !p.local.halted && c.features.Some? && c.judgement.Some? {
      var e := ExampleOf(c);
      if e.judged == Uncertain {
        UncertainOffer(env, p.offers, e, judged);
      } else {
        var t := p.local.tally.(judgeCalls := p.local.tally.judgeCalls + 1);
        var labels := p.local.labels[c.key := LabelOf(e.judged)];
        DecideInStep(env, p.(local := Local(t, labels, false)), e, judged);
      }
    }
  }

  lemma {:induction false} JudgingInStep(env: Env, p: Progress, cs: seq<Candidate>, judged: JudgeLabel)
    requires env.Valid() && judged != Uncertain
    ensures InStep(env, p, env.Judge(p, cs), judged)
  {
    hide Env.JudgeNext, ExactSplits, Entered, OfferedTo, ToCalibration, CountOf;
    if cs != [] {
      var n := |cs| - 1;
      JudgingInStep(env, p, cs[..n], judged);
      StepInStep(env, env.Judge(p, cs[..n]), cs[n], judged);
    }
  }

  /** When failures are fatal and judging did not raise, something was counted exactly if some candidate
      was judged to have the label. */
  lemma {:induction false} FatalJudgingCounts(env: Env, p: Progress, cs: seq<Candidate>, judged: JudgeLabel)
    requires env.Valid() && judged != Uncertain && env.config.raiseOnFailure && AllFeatured(cs)
    requires !env.Judge(p, cs).local.halted
    ensures CountOf(env.Judge(p, cs).local.tally, judged) >= CountOf(p.local.tally, judged)
    ensures CountOf(env.Judge(p, cs).local.tally, judged) > CountOf(p.local.tally, judged)
            <==> exists k :: 0 <= k < |cs| && JudgedAs(cs[k], judged)
  {
    hide Env.JudgeNext, InStep, JudgedAs, CountOf;
    if cs != [] {
      var n := |cs| - 1;
      StepInStep(env, env.Judge(p, cs[..n]), cs[n], judged);
      FatalJudgingCounts(env, p, cs[..n], judged);
      if k :| 0 <= k < n && JudgedAs(cs[..n][k], judged) {
        assert JudgedAs(cs[k], judged);
      }
      if k :| 0 <= k < n && JudgedAs(cs[k], judged) {
        assert JudgedAs(cs[..n][k], judged);
      }
    }
  }

  /** A call that loses its counts for a label: nothing raised before the query record failed fatally, and
      some prepared pair was judged to have the label. */
  ghost predicate Loses(st: State, env: Env, c: Call, judged: JudgeLabel)
    requires env.Valid()
  {
    && RecordRaises(env, c)
    && var prep := PrepOf(env.config, c.request, c.candidates);
       && !prep.halted && !JudgedOf(st, env, prep).local.halted
       && exists k :: 0 <= k < |prep.prepared| && JudgedAs(prep.prepared[k], judged)
  }

  /** What the end of a call does to the counts, given what judging did. */
  lemma ConcludeInStep(st: State, env: Env, c: Call, start: Progress, p: Progress, judged: JudgeLabel)
    requires env.Valid() && InStep(env, start, p, judged) && start.splits == st.splits && start.offers == st.offers
    requires judged != Uncertain && CountOf(start.local.tally, judged) == 0
    requires env.config.enabled
    ensures var next := Conclude(st, env.config, c.request, p, c.recordStored).0;
            var moved := CountOf(next.totals, judged) - CountOf(st.totals, judged);
            var entered := Entered(env, next.offers, judged) - Entered(env, st.offers, judged);
            && next.splits == p.splits && next.offers == p.offers
            && 0 <= moved <= entered
            && (moved == entered <==> !(RecordRaises(env, c) && !p.local.halted && CountOf(p.local.tally, judged) > 0))
  {
    hide Entered, OfferedTo, ToCalibration, ExactSplits;
  }

  /** What one call does to the lifetime counts: they move with the offers, exactly unless the call loses them. */
  lemma CallInStep(st: State, env: Env, c: Call, judged: JudgeLabel)
    requires env.Valid() && judged != Uncertain
    ensures var next := AfterCollect(st, env, c.request, c.candidates, c.recordStored).0;
            var moved := CountOf(next.totals, judged) - CountOf(st.totals, judged);
            var entered := Entered(env, next.offers, judged) - Entered(env, st.offers, judged);
            && 0 <= moved <= entered && (moved == entered <==> !Loses(st, env, c, judged))
            && next.splits.Seen(judged) - st.splits.Seen(judged)
               == OfferedTo(env, next.offers, judged) - OfferedTo(env, st.offers, judged)
            && next.splits.Calibrated(judged) - st.splits.Calibrated(judged)
               == ToCalibration(next.offers, judged) - ToCalibration(st.offers, judged)
            && (ExactSplits(st.splits, env.config) ==> ExactSplits(next.splits, env.config))
  {
    hide Env.Judge, Prepare, ExactSplits, Entered, OfferedTo, ToCalibration, Conclude, AllFeatured, JudgedAs;
    if env.config.enabled {
      var selected := Selected(env.config, c.candidates);
      PreparationConserved(env.config, c.request, selected, |selected|);
      PreparedHaveFeatures(env.config, c.request, selected, |selected|);
      var prep := PrepOf(env.config, c.request, c.candidates);
      if !prep.halted {
        var start := Progress(Local(prep.tally, map[], false), st.splits, st.offers);
        JudgingInStep(env, start, prep.prepared, judged);
        ConcludeInStep(st, env, c, start, JudgedOf(st, env, prep), judged);
        if RecordRaises(env, c) && !JudgedOf(st, env, prep).local.halted {
          FatalJudgingCounts(env, start, prep.prepared, judged);
        }
      }
    }
  }

  /** No call of the run loses its counts for the label. */
  ghost predicate NoneLost(env: Env, calls: seq<Call>, judged: JudgeLabel)
    requires env.Valid()
  {
    forall i :: 0 <= i < |calls| ==> !Loses(AfterCalls(env, calls[..i]), env, calls[i], judged)
  }

  lemma NoneLostStep(env: Env, calls: seq<Call>, judged: JudgeLabel)
    requires env.Valid() && calls != []
    ensures var n := |calls| - 1;
            NoneLost(env, calls, judged)
            <==> NoneLost(env, calls[..n], judged) && !Loses(AfterCalls(env, calls[..n]), env, calls[n], judged)
  {
    hide Loses, AfterCalls;
    var n := |calls| - 1;
    assert forall i :: 0 <= i < n ==> calls[..n][..i] == calls[..i] && calls[..n][i] == calls[i];
  }

  lemma FreshInStep(env: Env, judged: JudgeLabel)
    requires env.Valid() && judged != Uncertain
    ensures AfterCalls(env, []) == FRESH && ExactSplits(FRESH.splits, env.config) && NoneLost(env, [], judged)
    ensures CountOf(FRESH.totals, judged) == Entered(env, FRESH.offers, judged) == 0
    ensures FRESH.splits.Seen(judged) == OfferedTo(env, FRESH.offers, judged) == 0
    ensures FRESH.splits.Calibrated(judged) == ToCalibration(FRESH.offers, judged) == 0
  {
    hide AfterCollect, Loses;
    ShareStep(env.config, 0);
  }

  lemma {:induction false} CallsInStep(env: Env, calls: seq<Call>, judged: JudgeLabel)
    requires env.Valid() && judged != Uncertain
    ensures var st := AfterCalls(env, calls);
            && CountOf(st.totals, judged) <= Entered(env, st.offers, judged)
            && (CountOf(st.totals, judged) == Entered(env, st.offers, judged) <==> NoneLost(env, calls, judged))
            && st.splits.Seen(judged) == OfferedTo(env, st.offers, judged)
            && st.splits.Calibrated(judged) == ToCalibration(st.offers, judged)
            && ExactSplits(st.splits, env.config)
  {
    hide AfterCollect, Loses, NoneLost;
    if calls == [] {
      FreshInStep(env, judged);
    } else {
      hide ExactSplits, Entered, OfferedTo, ToCalibration, CountOf;
      var n := |calls| - 1;
      CallsInStep(env, calls[..n], judged);
      CallInStep(AfterCalls(env, calls[..n]), env, calls[n], judged);
      NoneLostStep(env, calls, judged);
    }
  }

  /** Conservation over the collector's lifetime, from an empty store: the observed pairs of a label never
      exceed those still stored, evicted, or dropped because the other split held their key, and equal them
      exactly when no call lost its counts to a fatal query-record failure. Over the same run the pairs that
      went to calibration are exactly the share the split rule promises. */
  lemma ObservedPairsAreAccountedFor(env: Env, calls: seq<Call>, judged: JudgeLabel)
    requires env.Valid() && judged != Uncertain
    ensures var st := AfterCalls(env, calls);
            var store, t := RunOffers(st.offers, env.bounds), TalliesOf(st.offers, env.bounds, judged);
            var accounted := |store.train.Of(judged)| + |store.calibration.Of(judged)| + t.evicted + t.dropped;
            && CountOf(st.totals, judged) <= accounted
            && (CountOf(st.totals, judged) == accounted <==> NoneLost(env, calls, judged))
            && st.splits.Seen(judged) == t.offered
            && st.splits.Calibrated(judged) == CalibrationShare(env.config, t.offered)
  {
    hide CalibrationShare, AfterCalls, RunOffers, TalliesOf, NoneLost, CountOf;
    CallsInStep(env, calls, judged);
    OffersAreConserved(AfterCalls(env, calls).offers, env.bounds, judged);
  }

  /** Without evictions, drops and raises the buckets hold exactly what was sent to them. */
  lemma {:induction false} BucketsHoldWhatWasSent(offers: seq<Offer>, bounds: Bounds, judged: JudgeLabel)
    requires judged != Uncertain
    requires var t := TalliesOf(offers, bounds, judged); t.evicted == t.dropped == t.raised == 0
    ensures |RunOffers(offers, bounds).calibration.Of(judged)| == ToCalibration(offers, judged)
    ensures |RunOffers(offers, bounds).train.Of(judged)|
            == TalliesOf(offers, bounds, judged).offered - ToCalibration(offers, judged)
  {
    hide Outcomes, AfterOffer;
    if offers != [] {
      var n := |offers| - 1;
      BucketsHoldWhatWasSent(offers[..n], bounds, judged);
      OfferSizes(RunOffers(offers[..n], bounds), offers[n], bounds, judged);
    }
  }

  /** The bucket sizes of a run that lost nothing: calibration has the exact share of the pairs offered,
      train has the rest. */
  lemma LosslessBucketSizes(env: Env, calls: seq<Call>, judged: JudgeLabel)
    requires env.Valid() && judged != Uncertain
    requires var t := TalliesOf(AfterCalls(env, calls).offers, env.bounds, judged);
             t.evicted == t.dropped == t.raised == 0
    ensures var offers := AfterCalls(env, calls).offers;
            var store, n := RunOffers(offers, env.bounds), TalliesOf(offers, env.bounds, judged).offered;
            && |store.calibration.Of(judged)| == CalibrationShare(env.config, n)
            && |store.train.Of(judged)| == n - CalibrationShare(env.config, n)
  {
    hide CalibrationShare, AfterCalls, RunOffers, TalliesOf, ToCalibration, NoneLost, CountOf;
    CallsInStep(env, calls, judged);
    BucketsHoldWhatWasSent(AfterCalls(env, calls).offers, env.bounds, judged);
  }

  // ---- a loss ----

  const LOSS_CONFIG := Config(true, 5, None, 5, None, false, true, true, true, true, true)
  const LOSS_ENV := Env(LOSS_CONFIG, Bounds(Capacities(9, 9), Capacities(9, 9)), (_, _, _) => 0)
  const LOSS_CANDIDATE := Candidate("k", 0, None, Some([]), Some(Judgement(NotReusable, "q", Some("k"))), 0)
  const LOSS_CALL := Call(Request("q", None, None), [LOSS_CANDIDATE], Some(false))

  /** A candidate nothing excludes is prepared. */
  lemma OneCandidateIsPrepared(config: Config, request: Request, c: Candidate)
    requires config.Valid() && config.maxPairs.None? && !Skips(config, request, [c], 0) && c.features.Some?
    ensures PrepOf(config, request, [c]) == Prep(ZERO_TALLY.(pairs := 1), [c], false, false)
  {
    hide Skips;
    assert Selected(config, [c]) == [c];
    assert Prepare(config, request, [c], 0) == Prep(ZERO_TALLY, [], false, false);
  }

  lemma LossIsPrepared()
    ensures LOSS_ENV.Valid()
    ensures PrepOf(LOSS_CONFIG, LOSS_CALL.request, LOSS_CALL.candidates)
            == Prep(ZERO_TALLY.(pairs := 1), [LOSS_CANDIDATE], false, false)
  {
    OneCandidateIsPrepared(LOSS_CONFIG, LOSS_CALL.request, LOSS_CANDIDATE);
  }

  lemma EmptyStoreKeeps(o: Offer, bounds: Bounds)
    requires bounds.Valid() && o.example.judged != Uncertain
    ensures Outcomes(RunOffers([], bounds), o, bounds).1 == Kept(None)
    ensures |RunOffers([o], bounds).Of(o.split).Of(o.example.judged)| == 1
  {
    assert RunOffers([], bounds) == EMPTY_STORE && [o][..0] == [];
    assert EMPTY_STORE.Of(Other(o.split)).Held(KeyOf(o.example)) == 0;
  }

  /** A decided pair offered to an empty store is kept, so judging it does not raise. */
  lemma OnePairIsKept(env: Env, p: Progress, c: Candidate)
    requires env.Valid() && p.offers == [] && !p.local.halted && c.features.Some?
    requires c.judgement.Some? && c.judgement.value.judged != Uncertain
    ensures var split := p.splits.Next(c.judgement.value.judged, env.config);
            var q := env.Judge(p, [c]);
            !q.local.halted && |RunOffers(q.offers, env.bounds).Of(split).Of(c.judgement.value.judged)| == 1
  {
    var e := ExampleOf(c);
    var o := env.OfferOf([], p.splits.Next(e.judged, env.config), e);
    EmptyStoreKeeps(o, env.bounds);
    hide RunOffers, Outcomes, Env.OfferOf, SplitCounts.Next;
    assert [c][..0] == [];
    assert env.Judge(p, []) == p;
    assert env.Judge(p, [c]) == env.JudgeNext(p, c);
    assert [] + [o] == [o];
  }

  lemma OneCall(env: Env, c: Call)
    requires env.Valid()
    ensures AfterCalls(env, [c]) == AfterCollect(FRESH, env, c.request, c.candidates, c.recordStored).0
  {
    hide AfterCollect;
    assert [c][..0] == [];
  }

  /** The loss is real: one judged H0 pair is stored, the query record fails fatally, nothing is counted. */
  lemma FatalRecordFailureLosesCounts()
    ensures LOSS_ENV.Valid() && Loses(FRESH, LOSS_ENV, LOSS_CALL, NotReusable)
    ensures var st := AfterCalls(LOSS_ENV, [LOSS_CALL]);
            st.totals == ZERO_TALLY && |RunOffers(st.offers, LOSS_ENV.bounds).train.h0| == 1
  {
    hide Env.Judge, Prepare, RunOffers, AfterCalls;
    LossIsPrepared();
    var prep := PrepOf(LOSS_CONFIG, LOSS_CALL.request, LOSS_CALL.candidates);
    OnePairIsKept(LOSS_ENV, Progress(Local(prep.tally, map[], false), FRESH.splits, FRESH.offers), LOSS_CANDIDATE);
    assert JudgedAs(prep.prepared[0], NotReusable);
    OneCall(LOSS_ENV, LOSS_CALL);
  }
}
