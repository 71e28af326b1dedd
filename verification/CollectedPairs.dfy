/** Which pairs a call of the collector observes, judges and stores, and what it counts
    (src/mlcache/feedback/shadow_collector.py:127-267, 314-336). */
module CollectedPairs {
  import opened Scores
  import opened TrainingStore
  import opened ShadowCollector

  // ---- which candidates are prepared ----

  lemma {:induction false} KeysBeforeMean(selected: seq<Candidate>, n: nat, key: string)
    requires n <= |selected|
    ensures key in KeysBefore(selected, n) <==> exists j :: 0 <= j < n && selected[j].key == key
  {
    if n > 0 {
      KeysBeforeMean(selected, n - 1, key);
    }
  }

  /** A candidate is skipped as a duplicate of an earlier one, as the request's own query, or by whether it was
      served, each only where configured. */
  lemma SkipsIff(config: Config, request: Request, selected: seq<Candidate>, i: nat)
    requires i < |selected|
    ensures var c := selected[i];
            Skips(config, request, selected, i)
            <==> || (config.skipDuplicates && exists j :: 0 <= j < i && selected[j].key == c.key)
                 || (config.skipSelf && c.query == Some(request.query))
                 || (if request.servedKey == Some(c.key) then !config.includeServed else !config.includeUnserved)
  {
    KeysBeforeMean(selected, i, selected[i].key);
  }

  /** The unskipped candidates before position n. */
  ghost function Unskipped(config: Config, request: Request, selected: seq<Candidate>, n: nat): set<int>
    requires n <= |selected|
  {
    set i | 0 <= i < n && !Skips(config, request, selected, i)
  }

  /** Neither skipped nor past the pair limit. */
  ghost predicate Wanted(config: Config, request: Request, selected: seq<Candidate>, i: nat)
    requires i < |selected|
  {
    !Skips(config, request, selected, i)
    && (config.maxPairs.Some? ==> |Unskipped(config, request, selected, i)| < config.maxPairs.value)
  }

  /** The wanted candidates that have features, in order. */
  ghost function Usable(config: Config, request: Request, selected: seq<Candidate>, n: nat): seq<Candidate>
    requires n <= |selected|
  {
    if n == 0 then []
    else
      Usable(config, request, selected, n - 1)
      + if Wanted(config, request, selected, n - 1) && selected[n - 1].features.Some? then [selected[n - 1]] else []
  }

  lemma UnskippedStep(config: Config, request: Request, selected: seq<Candidate>, n: nat)
    requires 0 < n <= |selected|
    ensures |Unskipped(config, request, selected, n)|
            == |Unskipped(config, request, selected, n - 1)| + if Skips(config, request, selected, n - 1) then 0 else 1
    ensures Unskipped(config, request, selected, 0) == {}
  {
    hide Skips;
    assert Unskipped(config, request, selected, n)
        == Unskipped(config, request, selected, n - 1)
           + if Skips(config, request, selected, n - 1) then {} else {n - 1};
  }

  lemma NothingUnskipped(config: Config, request: Request, selected: seq<Candidate>)
    ensures Unskipped(config, request, selected, 0) == {}
  {
  }

  /** Preparation takes exactly the usable candidates: unskipped ones, up to the pair limit, that have features. It
      counts every unskipped one within the limit as a pair, and halts exactly if one of them has no features and
      failures are fatal. */
  lemma {:induction false} PreparedExactly(config: Config, request: Request, selected: seq<Candidate>, n: nat)
    requires n <= |selected|
    ensures var p, unskipped := Prepare(config, request, selected, n), |Unskipped(config, request, selected, n)|;
            && (p.halted <==> config.raiseOnFailure
                              && exists i :: 0 <= i < n && Wanted(config, request, selected, i)
                                             && selected[i].features.None?)
            && (!p.halted ==>
                  && p.prepared == Usable(config, request, selected, n)
                  && p.tally.pairs
                     == (if config.maxPairs.Some? then Min(config.maxPairs.value, unskipped) else unskipped)
                  && (p.stopped ==> config.maxPairs.Some? && unskipped >= config.maxPairs.value)
                  && (!p.stopped ==> p.tally.skipped == n - unskipped))
  {
    hide Skips, Unskipped;
    if n > 0 {
      PreparedExactly(config, request, selected, n - 1);
      UnskippedStep(config, request, selected, n);
    } else if 0 < |selected| {
      UnskippedStep(config, request, selected, 1);
    } else {
      NothingUnskipped(config, request, selected);
    }
  }

  // ---- what one judged candidate does ----

  /** The split rule, on the counts of the pair's own label. */
  ghost predicate ToCalibration(config: Config, splits: SplitCounts, judged: JudgeLabel)
    requires config.everyN > 0
  {
    var (seen, calibrated) := if judged == Reusable then (splits.h1Seen, splits.h1Calibration)
                              else (splits.h0Seen, splits.h0Calibration);
    if config.fraction.Some? then calibrated as real < config.fraction.value * (seen + 1) as real
    else (seen + 1) % config.everyN == 0
  }

  lemma SplitIs(config: Config, splits: SplitCounts, judged: JudgeLabel)
    requires config.everyN > 0
    ensures splits.Next(judged, config) == if ToCalibration(config, splits, judged) then Calibration else Train
  {
  }

  lemma AdvanceIs(splits: SplitCounts, judged: JudgeLabel, split: Split)
    ensures var more := if split == Calibration then 1 else 0;
            splits.Advanced(judged, split)
            == if judged == Reusable
               then splits.(h1Seen := splits.h1Seen + 1, h1Calibration := splits.h1Calibration + more)
               else splits.(h0Seen := splits.h0Seen + 1, h0Calibration := splits.h0Calibration + more)
  {
  }

  /** What a judged candidate does, in closed form. A failed judge call is counted. An uncertain pair is counted and,
      if configured, offered to train. A decided one is offered to the split of its label's turn, under the request
      the judge returned, and counted under its label, or as a failure if the store raised. */
  lemma JudgementIs(env: Env, p: Progress, c: Candidate)
    requires env.Valid() && !p.local.halted && c.features.Some?
    ensures var q := env.JudgeNext(p, c);
            var called := p.local.tally.(judgeCalls := p.local.tally.judgeCalls + 1);
            var failed := called.(failures := called.failures + 1);
            match c.judgement
            case None =>
              && q.local.tally == failed && q.local.halted == env.config.raiseOnFailure
              && q.splits == p.splits && q.offers == p.offers
            case Some(Judgement(judged, query, candidateKey)) =>
              var e := Example(query, candidateKey, c.features.value, judged, c.payload);
              if judged == Uncertain then
                && q.local.tally == called.(uncertain := called.uncertain + 1) && !q.local.halted
                && q.splits == p.splits
                && q.offers == p.offers
                   + (if env.config.collectUncertain then [env.OfferOf(p.offers, Train, e)] else [])
              else
                var split := if ToCalibration(env.config, p.splits, judged) then Calibration else Train;
                var o := env.OfferOf(p.offers, split, e);
                var raised := Outcomes(RunOffers(p.offers, env.bounds), o, env.bounds).1 == Raised;
                && q.offers == p.offers + [o]
                && q.splits == p.splits.Advanced(judged, split)
                && q.local.halted == (raised && env.config.raiseOnFailure)
                && q.local.tally == if raised then failed
                                    else if judged == Reusable then called.(h1 := called.h1 + 1)
                                    else called.(h0 := called.h0 + 1)
  {
    hide Env.OfferOf, Outcomes, RunOffers, ToCalibration, SplitCounts.Next, SplitCounts.Advanced;
    if c.judgement.Some? {
      SplitIs(env.config, p.splits, c.judgement.value.judged);
    }
  }

  /** What the offer of a pair is: that pair, for that split, with the eviction policy's answer for the bucket as
      the earlier offers left it. */
  lemma OfferIs(env: Env, offers: seq<Offer>, split: Split, e: Example)
    ensures var o := env.OfferOf(offers, split, e);
            var st := RunOffers(offers, env.bounds);
            var here := if split == Train then st.train else st.calibration;
            o == Offer(split, e, env.choose(e.judged, if e.judged == Reusable then here.h1 else here.h0, e))
  {
    hide RunOffers;
  }

  // ---- totals ----

  /** A call that returns adds its own counts to the lifetime totals, one by one; a disabled collector does nothing. */
  lemma TotalsAdd(st: State, env: Env, request: Request, candidates: seq<Candidate>, recordStored: Option<bool>)
    requires env.Valid()
    requires AfterCollect(st, env, request, candidates, recordStored).1.Collected?
    ensures var (after, outcome) := AfterCollect(st, env, request, candidates, recordStored);
            var t, before := outcome.tally, st.totals;
            && after.totals == Tally(before.pairs + t.pairs, before.judgeCalls + t.judgeCalls, before.h0 + t.h0,
                                     before.h1 + t.h1, before.uncertain + t.uncertain, before.skipped + t.skipped,
                                     before.failures + t.failures)
            && (!env.config.enabled ==> after == st && outcome == Collected(Tally(0, 0, 0, 0, 0, 0, 0), None))
  {
    hide PrepOf, JudgedOf, LabelOf;
  }
}
