/** Shadow collection of judged pairs (src/mlcache/feedback/shadow_collector.py).

    What the feature builder and the judge do with a candidate is part of the candidate: no features
    or no judgement means that the call raised. The query texts of a request and of its candidates are
    already stripped. */
module ShadowCollector {
  import opened Scores
  import opened TrainingStore
  import QueryLevel = QueryLevelCalibration

  /** A judge's answer: the label, with the request it says it judged. */
  datatype Judgement = Judgement(judged: JudgeLabel, query: string, candidateKey: Option<string>)

  /** `score` is the similarity the vector search found. */
  datatype Candidate = Candidate(key: string, score: Score, query: Option<string>, features: Option<seq<real>>,
                                 judgement: Option<Judgement>, payload: nat)

  datatype Config = Config(enabled: bool, topK: int, maxPairs: Option<nat>, everyN: int, fraction: Option<real>,
                           collectUncertain: bool, includeServed: bool, includeUnserved: bool,
                           skipSelf: bool, skipDuplicates: bool, raiseOnFailure: bool)
  {
    predicate Valid() {
      topK > 0 && everyN > 0 && (fraction.Some? ==> 0.0 < fraction.value < 1.0)
    }
  }

  /** The counters of one call, and of the collector's lifetime. */
  datatype Tally = Tally(pairs: nat, judgeCalls: nat, h0: nat, h1: nat, uncertain: nat, skipped: nat, failures: nat) {
    function Plus(t: Tally): Tally {
      Tally(pairs + t.pairs, judgeCalls + t.judgeCalls, h0 + t.h0, h1 + t.h1, uncertain + t.uncertain,
            skipped + t.skipped, failures + t.failures)
    }
  }

  const ZERO_TALLY := Tally(0, 0, 0, 0, 0, 0, 0)

  /** `fraction * n` */
  function Portion(fraction: real, n: nat): real { fraction * (n as real) }

  predicate IsNth(n: nat, every: int)
    requires every > 0
  {
    n % every == 0
  }

  /** Decided pairs seen per label, and how many of them went to calibration. */
  datatype SplitCounts = SplitCounts(h0Seen: nat, h0Calibration: nat, h1Seen: nat, h1Calibration: nat) {
    function Seen(judged: JudgeLabel): nat { if judged == Reusable then h1Seen else h0Seen }

    function Calibrated(judged: JudgeLabel): nat { if judged == Reusable then h1Calibration else h0Calibration }

    /** The split of the next pair of a label. */
    function Next(judged: JudgeLabel, config: Config): Split
      requires config.everyN > 0
    {
      var seen, calib := Seen(judged) + 1, Calibrated(judged);
      var toCalibration :=
        if config.fraction.Some? then calib as real < Portion(config.fraction.value, seen)
        else IsNth(seen, config.everyN);
      if toCalibration then Calibration else Train
    }

    function Advanced(judged: JudgeLabel, split: Split): SplitCounts {
      var more := if split == Calibration then 1 else 0;
      if judged == Reusable then this.(h1Seen := h1Seen + 1, h1Calibration := h1Calibration + more)
      else this.(h0Seen := h0Seen + 1, h0Calibration := h0Calibration + more)
    }
  }

  /** `id` is the query id or request id among the request's attributes. */
  datatype Request = Request(query: string, id: Option<string>, servedKey: Option<string>) {
    function QueryId(): string {
      if id.Some? && id.value != "" then id.value else if query != "" then query else "anonymous_query"
    }
  }

  // ---- preparing the candidates ----

  function KeysBefore(selected: seq<Candidate>, n: nat): set<string>
    requires n <= |selected|
  {
    if n == 0 then {} else KeysBefore(selected, n - 1) + {selected[n - 1].key}
  }

  predicate Skips(config: Config, request: Request, selected: seq<Candidate>, i: nat)
    requires i < |selected|
  {
    var c := selected[i];
    var served := request.servedKey == Some(c.key);
    || (config.skipDuplicates && c.key in KeysBefore(selected, i))
    || (config.skipSelf && c.query == Some(request.query))
    || (served && !config.includeServed)
    || (!served && !config.includeUnserved)
  }

  /** Progress through the selected candidates: it may stop at the pair limit, or halt on a raise. */
  datatype Prep = Prep(tally: Tally, prepared: seq<Candidate>, stopped: bool, halted: bool)

  function PrepareNext(p: Prep, config: Config, request: Request, selected: seq<Candidate>, i: nat): Prep
    requires i < |selected|
  {
    if p.stopped || p.halted then p
    else if config.maxPairs.Some? && p.tally.pairs >= config.maxPairs.value then p.(stopped := true)
    else if Skips(config, request, selected, i) then p.(tally := p.tally.(skipped := p.tally.skipped + 1))
    else
      var t := p.tally.(pairs := p.tally.pairs + 1);
      if selected[i].features.Some? then p.(tally := t, prepared := p.prepared + [selected[i]])
      else p.(tally := t.(failures := t.failures + 1), halted := config.raiseOnFailure)
  }

  function Prepare(config: Config, request: Request, selected: seq<Candidate>, n: nat): Prep
    requires n <= |selected|
  {
    if n == 0 then Prep(ZERO_TALLY, [], false, false)
    else PrepareNext(Prepare(config, request, selected, n - 1), config, request, selected, n - 1)
  }

  // ---- judging and storing ----

  function LabelOf(judged: JudgeLabel): Label {
    match judged
    case Reusable => H1
    case NotReusable => H0
    case Uncertain => None
  }

  /** What is local to a call. */
  datatype Local = Local(tally: Tally, labels: map<string, Label>, halted: bool)

  datatype Progress = Progress(local: Local, splits: SplitCounts, offers: seq<Offer>)

  function ExampleOf(c: Candidate): Example
    requires c.features.Some? && c.judgement.Some?
  {
    var j := c.judgement.value;
    Example(j.query, j.candidateKey, c.features.value, j.judged, c.payload)
  }

  /** The environment of a call: configuration, store bounds and eviction policy. */
  datatype Env = Env(config: Config, bounds: Bounds, choose: EvictionChoice) {
    predicate Valid() { config.Valid() && bounds.Valid() }

    /** The offer a pair becomes, with the answer the eviction policy would give now. */
    ghost function OfferOf(offers: seq<Offer>, split: Split, e: Example): Offer {
      Offer(split, e, choose(e.judged, RunOffers(offers, bounds).Of(split).Of(e.judged), e))
    }

    /** The counts once the store has taken a decided pair or raised. */
    static function StoredTally(t: Tally, judged: JudgeLabel, raised: bool): Tally {
      if raised then t.(failures := t.failures + 1)
      else if judged == Reusable then t.(h1 := t.h1 + 1)
      else t.(h0 := t.h0 + 1)
    }

    /** A decided pair goes to its split, and counts as added or, if the store raises, as a failure. */
    ghost function DecideNext(p: Progress, e: Example): Progress
      requires Valid()
    {
      var split := p.splits.Next(e.judged, config);
      var o := OfferOf(p.offers, split, e);
      var raised := Outcomes(RunOffers(p.offers, bounds), o, bounds).1 == Raised;
      Progress(Local(StoredTally(p.local.tally, e.judged, raised), p.local.labels, raised && config.raiseOnFailure),
               p.splits.Advanced(e.judged, split), p.offers + [o])
    }

    ghost function JudgeNext(p: Progress, c: Candidate): Progress
      requires Valid()
    {
      var t := p.local.tally.(judgeCalls := p.local.tally.judgeCalls + 1);
      if p.local.halted || c.features.None? then p
      else if c.judgement.None? then
        p.(local := Local(t.(failures := t.failures + 1), p.local.labels, config.raiseOnFailure))
      else
        var e := ExampleOf(c);
        var labels := p.local.labels[c.key := LabelOf(e.judged)];
        if e.judged == Uncertain then
          Progress(Local(t.(uncertain := t.uncertain + 1), labels, false), p.splits,
                   if config.collectUncertain then p.offers + [OfferOf(p.offers, Train, e)] else p.offers)
        else DecideNext(p.(local := Local(t, labels, false)), e)
    }

    ghost function Judge(p: Progress, cs: seq<Candidate>): Progress
      requires Valid()
    {
      if cs == [] then p
      else JudgeNext(Judge(p, cs[..|cs| - 1]), cs[|cs| - 1])
    }
  }

  /** The collector's state as a value: lifetime totals, split counts and everything offered to the store. */
  datatype State = State(totals: Tally, splits: SplitCounts, offers: seq<Offer>)

  const FRESH := State(ZERO_TALLY, SplitCounts(0, 0, 0, 0), [])

  /** A call returns its tally and the served candidate's label, or raises. */
  datatype Outcome = Collected(tally: Tally, servedLabel: Label) | CollectionRaised

  function Selected(config: Config, candidates: seq<Candidate>): seq<Candidate>
    requires config.Valid()
  {
    if |candidates| <= config.topK then candidates else candidates[..config.topK]
  }

  function PrepOf(config: Config, request: Request, candidates: seq<Candidate>): Prep
    requires config.Valid()
  {
    var selected := Selected(config, candidates);
    Prepare(config, request, selected, |selected|)
  }

  ghost function JudgedOf(st: State, env: Env, prep: Prep): Progress
    requires env.Valid()
  {
    env.Judge(Progress(Local(prep.tally, map[], false), st.splits, st.offers), prep.prepared)
  }

  /** The end of a call: the query record is stored and the local counts are committed. */
  ghost function Conclude(st: State, config: Config, request: Request, p: Progress, recordStored: Option<bool>)
    : (State, Outcome)
  {
    var local := p.local;
    if local.halted then (State(st.totals.Plus(local.tally), p.splits, p.offers), CollectionRaised)
    else if recordStored == Some(false) && config.raiseOnFailure then
      (State(st.totals, p.splits, p.offers), CollectionRaised)
    else
      var tally := if recordStored == Some(false) then local.tally.(failures := local.tally.failures + 1)
                   else local.tally;
      (State(st.totals.Plus(tally), p.splits, p.offers),
       Collected(tally, if request.servedKey.Some? && request.servedKey.value in local.labels
                        then local.labels[request.servedKey.value] else None))
  }

  // ---- the query calibration record ----

  /** The label of a key that was judged; None for unjudged keys and for uncertain ones. */
  function LabelIn(labels: map<string, Label>, key: string): Label {
    if key in labels then labels[key] else None
  }

  /** The first n candidates of the record, ranked from one. */
  function Recorded(selected: seq<Candidate>, labels: map<string, Label>, n: nat): (cs: seq<QueryLevel.Candidate>)
    requires n <= |selected|
    ensures |cs| == n
    ensures forall i :: 0 <= i < n ==>
              cs[i] == QueryLevel.Candidate(selected[i].score, LabelIn(labels, selected[i].key), Some(i + 1),
                                            Some(selected[i].key))
  {
    if n == 0 then []
    else
      var c := selected[n - 1];
      Recorded(selected, labels, n - 1)
      + [QueryLevel.Candidate(c.score, LabelIn(labels, c.key), Some(n), Some(c.key))]
  }

  function RecordOf(request: Request, selected: seq<Candidate>, labels: map<string, Label>): QueryLevel.Record {
    QueryLevel.Record(request.QueryId(), Recorded(selected, labels, |selected|))
  }

  /** The record a call hands to the record store, if records are kept and nothing raised before. */
  ghost function RecordMade(st: State, env: Env, request: Request, candidates: seq<Candidate>,
                            recordStored: Option<bool>)
    : Option<QueryLevel.Record>
    requires env.Valid()
  {
    var prep := PrepOf(env.config, request, candidates);
    if !env.config.enabled || recordStored.None? || prep.halted then None
    else
      var local := JudgedOf(st, env, prep).local;
      if local.halted then None else Some(RecordOf(request, Selected(env.config, candidates), local.labels))
  }

  /** One call. `recordStored` says whether storing the query record succeeded, if records are kept.
      A record failure that raises leaves the totals uncommitted. */
  ghost function AfterCollect(st: State, env: Env, request: Request, candidates: seq<Candidate>,
                              recordStored: Option<bool>)
    : (State, Outcome)
    requires env.Valid()
  {
    if !env.config.enabled then (st, Collected(ZERO_TALLY, None))
    else
      var prep := PrepOf(env.config, request, candidates);
      if prep.halted then (st.(totals := st.totals.Plus(prep.tally)), CollectionRaised)
      else Conclude(st, env.config, request, JudgedOf(st, env, prep), recordStored)
  }

  ghost predicate AllFeatured(cs: seq<Candidate>) {
    forall i :: 0 <= i < |cs| ==> cs[i].features.Some?
  }

  lemma {:induction false} PreparedHaveFeatures(config: Config, request: Request, selected: seq<Candidate>, n: nat)
    requires n <= |selected|
    ensures AllFeatured(Prepare(config, request, selected, n).prepared)
  {
    hide Skips;
    if n > 0 {
      PreparedHaveFeatures(config, request, selected, n - 1);
    }
  }

  lemma HaltedJudgeNext(env: Env, p: Progress, c: Candidate)
    requires env.Valid() && p.local.halted
    ensures env.JudgeNext(p, c) == p
  {
    hide Env.DecideNext, Env.OfferOf;
  }

  lemma {:induction false} HaltStays(env: Env, p: Progress, cs: seq<Candidate>, i: nat)
    requires env.Valid() && i <= |cs| && env.Judge(p, cs[..i]).local.halted
    ensures env.Judge(p, cs) == env.Judge(p, cs[..i])
  {
    hide Env.JudgeNext;
    if i == |cs| {
      assert cs[..i] == cs;
    } else {
      var n := |cs| - 1;
      assert cs[..n][..i] == cs[..i];
      HaltStays(env, p, cs[..n], i);
      HaltedJudgeNext(env, env.Judge(p, cs[..n]), cs[n]);
    }
  }

  lemma {:induction false} StoppedStays(config: Config, request: Request, selected: seq<Candidate>, i: nat, n: nat)
    requires i <= n <= |selected|
    requires Prepare(config, request, selected, i).stopped || Prepare(config, request, selected, i).halted
    ensures Prepare(config, request, selected, n) == Prepare(config, request, selected, i)
  {
    if i < n {
      StoppedStays(config, request, selected, i, n - 1);
    }
  }

  class DefaultShadowTopKCollector {
    const config: Config
    const store: InMemorySplitJudgeTrainingStore
    const choose: EvictionChoice
    var totals: Tally
    var splits: SplitCounts
    ghost var offers: seq<Offer>

    ghost function Environment(): Env {
      Env(config, Bounds(store.train.capacities, store.calibration.capacities), choose)
    }

    ghost function Abstract(): State
      reads this
    {
      State(totals, splits, offers)
    }

    /** The store is what the offers made so far have made of it. */
    ghost predicate Valid()
      reads this, store.train, store.calibration
    {
      && Environment().Valid() && store.Valid()
      && store.train.choose == choose && store.calibration.choose == choose
      && Store(store.train.Abstract(), store.calibration.Abstract()) == RunOffers(offers, Environment().bounds)
    }

    constructor (config: Config, train: Capacities, calibration: Capacities, choose: EvictionChoice)
      requires config.Valid() && train.Valid() && calibration.Valid()
      ensures Valid() && Abstract() == FRESH
    {
      this.config, this.choose := config, choose;
      store := new InMemorySplitJudgeTrainingStore(train, calibration, choose);
      totals, splits, offers := ZERO_TALLY, SplitCounts(0, 0, 0, 0), [];
    }

    method ShouldSkip(request: Request, selected: seq<Candidate>, i: nat, seen: set<string>) returns (skip: bool)
      requires i < |selected| && (config.skipDuplicates ==> seen == KeysBefore(selected, i))
      ensures skip == Skips(config, request, selected, i)
    {
      var c := selected[i];
      if config.skipDuplicates && c.key in seen {
        return true;
      }
      if config.skipSelf && c.query == Some(request.query) {
        return true;
      }
      var served := request.servedKey == Some(c.key);
      skip := if served then !config.includeServed else !config.includeUnserved;
    }

    method PrepareCandidates(request: Request, selected: seq<Candidate>) returns (prep: Prep)
      ensures prep == Prepare(config, request, selected, |selected|)
    {
      var seen: set<string> := {};
      prep := Prep(ZERO_TALLY, [], false, false);
      for i := 0 to |selected|
        invariant prep == Prepare(config, request, selected, i)
        invariant !prep.stopped && !prep.halted
        invariant seen == KeysBefore(selected, i)
      {
        if config.maxPairs.Some? && prep.tally.pairs >= config.maxPairs.value {
          prep := prep.(stopped := true);
          StoppedStays(config, request, selected, i + 1, |selected|);
          return;
        }
        var skip := ShouldSkip(request, selected, i, seen);
        seen := seen + {selected[i].key};
        if skip {
          prep := prep.(tally := prep.tally.(skipped := prep.tally.skipped + 1));
        } else {
          prep := prep.(tally := prep.tally.(pairs := prep.tally.pairs + 1));
          if selected[i].features.Some? {
            prep := prep.(prepared := prep.prepared + [selected[i]]);
          } else {
            prep := prep.(tally := prep.tally.(failures := prep.tally.failures + 1));
            if config.raiseOnFailure {
              prep := prep.(halted := true);
              StoppedStays(config, request, selected, i + 1, |selected|);
              return;
            }
          }
        }
      }
    }

    method NextSplit(judged: JudgeLabel) returns (split: Split)
      requires Valid()
      modifies `splits
      ensures Valid()
      ensures split == old(splits).Next(judged, config) && splits == old(splits).Advanced(judged, split)
    {
      var seen := splits.Seen(judged) + 1;
      var calib := splits.Calibrated(judged);
      var toCalibration := IsNth(seen, config.everyN);
      if config.fraction.Some? {
        toCalibration := calib as real < Portion(config.fraction.value, seen);
      }
      split := if toCalibration then Calibration else Train;
      splits := splits.Advanced(judged, split);
    }

    method StoreExample(e: Example, split: Split) returns (error: Option<string>)
      requires Valid()
      modifies `offers, store.train, store.calibration
      ensures Valid()
      ensures var o := Environment().OfferOf(old(offers), split, e);
              && offers == old(offers) + [o]
              && (error.Some?
                  <==> Outcomes(RunOffers(old(offers), Environment().bounds), o, Environment().bounds).1 == Raised)
    {
      ghost var o := Environment().OfferOf(offers, split, e);
      assert (offers + [o])[..|offers|] == offers;
      if split == Calibration {
        error := store.AddCalibration(e);
      } else {
        error := store.AddTrain(e);
      }
      offers := offers + [o];
    }

    /** Stores a decided pair in the split its label's counts send it to. */
    method StoreDecided(local: Local, e: Example) returns (next: Local)
      requires Valid() && e.judged != Uncertain
      modifies `splits, `offers, store.train, store.calibration
      ensures Valid()
      ensures Progress(next, splits, offers) == Environment().DecideNext(Progress(local, old(splits), old(offers)), e)
    {
      assert Environment().Valid();
      hide Valid, RunOffers, Outcomes, SplitCounts.Next, SplitCounts.Advanced, Env.OfferOf, Env.StoredTally;
      var split := NextSplit(e.judged);
      var error := StoreExample(e, split);
      next := CountStored(local, e.judged, error.Some?);
    }

    method CountStored(local: Local, judged: JudgeLabel, raised: bool) returns (next: Local)
      ensures next == Local(Env.StoredTally(local.tally, judged, raised), local.labels, raised && config.raiseOnFailure)
    {
      var tally := local.tally;
      if raised {
        return Local(tally.(failures := tally.failures + 1), local.labels, config.raiseOnFailure);
      }
      if judged == Reusable {
        tally := tally.(h1 := tally.h1 + 1);
      } else {
        tally := tally.(h0 := tally.h0 + 1);
      }
      next := Local(tally, local.labels, false);
    }

    /** Judges one prepared candidate and stores the pair it makes. */
    method JudgeOne(local: Local, c: Candidate) returns (next: Local)
      requires Valid() && !local.halted && c.features.Some?
      modifies `splits, `offers, store.train, store.calibration
      ensures Valid()
      ensures Progress(next, splits, offers) == Environment().JudgeNext(Progress(local, old(splits), old(offers)), c)
    {
      assert Environment().Valid();
      hide Valid, RunOffers, Outcomes, Env.DecideNext, Env.OfferOf, LabelOf;
      var tally := local.tally.(judgeCalls := local.tally.judgeCalls + 1);
      if c.judgement.None? {
        return Local(tally.(failures := tally.failures + 1), local.labels, config.raiseOnFailure);
      }
      var e := ExampleOf(c);
      var labels := local.labels[c.key := LabelOf(e.judged)];
      if e.judged == Uncertain {
        if config.collectUncertain {
          var _ := StoreExample(e, Train);
        }
        return Local(tally.(uncertain := tally.uncertain + 1), labels, false);
      }
      next := StoreDecided(Local(tally, labels, false), e);
    }

    method JudgeAll(prep: Prep) returns (local: Local)
      requires Valid() && AllFeatured(prep.prepared)
      modifies `splits, `offers, store.train, store.calibration
      ensures Valid()
      ensures Progress(local, splits, offers)
              == Environment().Judge(Progress(Local(prep.tally, map[], false), old(splits), old(offers)), prep.prepared)
    {
      hide InMemorySplitJudgeTrainingStore.Valid, RunOffers, Env.JudgeNext;
      local := Local(prep.tally, map[], false);
      ghost var start := Progress(local, splits, offers);
      for i := 0 to |prep.prepared|
        invariant Valid() && !local.halted
        invariant Progress(local, splits, offers) == Environment().Judge(start, prep.prepared[..i])
      {
        assert prep.prepared[..i + 1][..i] == prep.prepared[..i];
        local := JudgeOne(local, prep.prepared[i]);
        if local.halted {
          HaltStays(Environment(), start, prep.prepared, i + 1);
          return;
        }
      }
      assert prep.prepared[..|prep.prepared|] == prep.prepared;
    }

    method BuildRecord(request: Request, selected: seq<Candidate>, labels: map<string, Label>)
      returns (record: QueryLevel.Record)
      ensures record == RecordOf(request, selected, labels)
    {
      var built: seq<QueryLevel.Candidate> := [];
      for i := 0 to |selected|
        invariant built == Recorded(selected, labels, i)
      {
        var c := selected[i];
        built := built + [QueryLevel.Candidate(c.score, LabelIn(labels, c.key), Some(i + 1), Some(c.key))];
      }
      record := QueryLevel.Record(request.QueryId(), built);
    }

    /** One call, with the record it hands to the record store. */
    method Collect(request: Request, candidates: seq<Candidate>, recordStored: Option<bool>)
      returns (outcome: Outcome, record: Option<QueryLevel.Record>)
      requires Valid()
      modifies this, store.train, store.calibration
      ensures Valid()
      ensures (Abstract(), outcome) == AfterCollect(old(Abstract()), Environment(), request, candidates, recordStored)
      ensures record == RecordMade(old(Abstract()), Environment(), request, candidates, recordStored)
    {
      hide InMemorySplitJudgeTrainingStore.Valid, RunOffers, Prepare, Env.Judge, RecordOf;
      record := None;
      if !config.enabled {
        return Collected(ZERO_TALLY, None), None;
      }
      var selected := Selected(config, candidates);
      var prep := PrepareCandidates(request, selected);
      PreparedHaveFeatures(config, request, selected, |selected|);
      if prep.halted {
        totals := totals.Plus(prep.tally);
        return CollectionRaised, None;
      }
      var local := JudgeAll(prep);
      var tally := local.tally;
      if local.halted {
        totals := totals.Plus(tally);
        return CollectionRaised, None;
      }
      if recordStored.Some? {
        var built := BuildRecord(request, selected, local.labels);
        record := Some(built);
      }
      if recordStored == Some(false) {
        if config.raiseOnFailure {
          return CollectionRaised, record;
        }
        tally := tally.(failures := tally.failures + 1);
      }
      totals := totals.Plus(tally);
      outcome := Collected(tally, if request.servedKey.Some? && request.servedKey.value in local.labels
                                  then local.labels[request.servedKey.value] else None);
    }
  }
}
