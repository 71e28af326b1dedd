/** What the serving system keeps over whole runs (src/mlcache/system.py:308-453). */
module SystemRuns {
  import opened Scores
  import opened Stopping
  import opened StoppingBounds
  import opened StoppingDrift
  import opened CacheSystem
  import opened RealArithmetic
  import opened IntegerArithmetic

  // ---- counting ----

  function SourceCount(stream: seq<Request>, k: nat, source: Source): nat
    requires k <= |stream|
  {
    if k == 0 then 0 else SourceCount(stream, k - 1, source) + if stream[k - 1].source == source then 1 else 0
  }

  lemma CheckKeepsCounts(st: State, settings: Settings, m: Monitor)
    requires settings.Valid()
    ensures var next := Checked(st, settings, m);
            next.fromCache == st.fromCache && next.fromLlm == st.fromLlm
            && next.scorerVersion == st.scorerVersion && next.lastScorer == st.lastScorer
  {
    hide StatusOf, Consumed, MetricsOf;
  }

  lemma ServedCounts(st: State, r: Request)
    ensures var next := Served(st, r);
            && next.fromCache == st.fromCache + (if r.source == FromCache then 1 else 0)
            && next.fromLlm == st.fromLlm + (if r.source == FromLlm then 1 else 0)
  {
  }

  /** Every request is counted once, by where its answer came from; those the LLM failed are not. */
  lemma {:induction false} RequestsAreCounted(st: State, settings: Settings, stream: seq<Request>, k: nat)
    requires settings.Valid() && k <= |stream|
    ensures var after := AfterServing(st, settings, stream, k);
            && after.fromCache == st.fromCache + SourceCount(stream, k, FromCache)
            && after.fromLlm == st.fromLlm + SourceCount(stream, k, FromLlm)
            && after.fromCache + after.fromLlm + SourceCount(stream, k, LlmRaises) == st.fromCache + st.fromLlm + k
  {
    hide Checked, Served;
    if k > 0 {
      var before, r := AfterServing(st, settings, stream, k - 1), stream[k - 1];
      RequestsAreCounted(st, settings, stream, k - 1);
      ServedCounts(before, r);
      CheckKeepsCounts(Served(before, r), settings, r.monitor);
    }
  }

  /** After at least one request, as many updates have been made as are allowed. */
  predicate LimitReached(st: State, settings: Settings, stream: seq<Request>, k: nat)
    requires settings.Valid() && k <= |stream|
  {
    0 < k && settings.maxUpdates.Some? && AfterServing(st, settings, stream, k).updates >= settings.maxUpdates.value
  }

  /** Serving ends after k requests although the stream and max_requests have more. */
  predicate CutsShort(st: State, settings: Settings, stream: seq<Request>, k: nat)
    requires settings.Valid()
  {
    k <= |stream| && ((k < |stream| && stream[k].source == LlmRaises) || LimitReached(st, settings, stream, k))
  }

  lemma RaisesInside(stream: seq<Request>, k: nat)
    ensures RaisesAt(stream, k) ==> k < |stream|
  {
  }

  /** How many requests a run serves: the stream or up to max_requests - but at least one even when that is
      zero or negative - unless some earlier request finds the LLM raising or follows the update limit. */
  lemma RunLength(st: State, settings: Settings, stream: seq<Request>, maxRequests: Option<int>, served: nat,
                  raised: bool)
    requires settings.Valid() && RunServes(st, settings, stream, maxRequests, served, raised)
    ensures var bound := if maxRequests.None? then |stream| else Min(|stream|, Max(1, maxRequests.value));
            && served <= bound
            && (served < bound <==> exists k: nat :: k < bound && CutsShort(st, settings, stream, k))
            && (forall k: nat :: k < served ==> !CutsShort(st, settings, stream, k))
            && (raised <==> served < bound && !LimitReached(st, settings, stream, served))
  {
    hide AfterServing;
    assert forall k: nat :: 0 < k < served ==> !EndsAfter(st, settings, stream, maxRequests, k);
    RaisesInside(stream, served);
    if maxRequests.Some? {
      var limit := Max(1, maxRequests.value);
      assert limit < served ==> !EndsAfter(st, settings, stream, maxRequests, limit);
    }
    assert CutsShort(st, settings, stream, served)
           <==> RaisesAt(stream, served) || (0 < served && UpdatesReached(st, settings, stream, served));
    forall k: nat | k < served ensures !CutsShort(st, settings, stream, k) {
      assert !RaisesAt(stream, k);
      assert 0 < k ==> !EndsAfter(st, settings, stream, maxRequests, k);
    }
  }

  // ---- freezing ----

  /** Freezing is final: whatever is served afterwards, the reason, the update count and the monitoring
      history stay as they were, and only the serving counts move. */
  lemma {:induction false} FreezeIsFinal(st: State, settings: Settings, stream: seq<Request>, j: nat, k: nat)
    requires settings.Valid() && j <= k <= |stream| && AfterServing(st, settings, stream, j).frozen
    ensures var frozen, after := AfterServing(st, settings, stream, j), AfterServing(st, settings, stream, k);
            && after.frozen && after.freezeReason == frozen.freezeReason && after.autoRefit == frozen.autoRefit
            && after.updates == frozen.updates && after.seen == frozen.seen
    decreases k
  {
    hide StatusOf, Consumed, MetricsOf;
    if j < k {
      FreezeIsFinal(st, settings, stream, j, k - 1);
    }
  }

  ghost predicate FiniteReadings(m: Metrics) {
    forall c: Channel :: c.Of(m).Finite?
  }

  /** The lifecycle invariant: one monitored observation per update, in order and finite; refitting is off
      exactly when frozen; and a freeze by convergence is exactly a stop of the controller. */
  ghost predicate Sound(st: State, settings: Settings)
    requires settings.Valid()
  {
    && |st.seen| == st.updates
    && (forall i :: 0 <= i < |st.seen| ==>
          st.seen[i].batchIndex == i + 1 && st.seen[i].target == settings.target && FiniteReadings(st.seen[i]))
    && st.autoRefit == !st.frozen
    && (st.frozen <==> st.freezeReason.Some?)
    && Consumed(settings.stopping, st.seen) == |st.seen|
    && (Stops(settings.stopping, st.seen) <==> st.freezeReason.Some? && st.freezeReason.value.StoppedBecause?)
    && (Stops(settings.stopping, st.seen) ==> st.freezeReason == Some(StoppedBecause(Converged)))
  }

  lemma NextIsConsumed(config: Config, seen: seq<Metrics>, m: Metrics)
    requires config.Valid() && Consumed(config, seen) == |seen| && !Stops(config, seen)
    ensures Consumed(config, seen + [m]) == |seen + [m]|
  {
    assert (seen + [m])[..|seen|] == seen;
    hide Stops;
  }

  lemma StatusFacts(config: Config, h: seq<Metrics>)
    requires config.Valid() && h != []
    ensures StatusOf(config, h).stopped == Stops(config, h)
    ensures Stops(config, h) ==> StatusOf(config, h).reason == Some(Converged)
  {
    hide Stops, VerdictOf;
  }

  lemma MetricsAreFinite(m: Monitor, target: real, index: nat)
    ensures var metrics := MetricsOf(m, target, index);
            metrics.Some?
            ==> metrics.value.batchIndex == index && metrics.value.target == target && FiniteReadings(metrics.value)
  {
  }

  lemma CheckKeepsSound(st: State, settings: Settings, m: Monitor)
    requires settings.Valid() && Sound(st, settings)
    ensures Sound(Checked(st, settings, m), settings)
  {
    hide Stops, Consumed, StatusOf, MetricsOf, FiniteReadings;
    var metrics := MetricsOf(m, settings.target, st.updates + 1);
    if !st.frozen && metrics.Some? {
      var seen := st.seen + [metrics.value];
      MetricsAreFinite(m, settings.target, st.updates + 1);
      NextIsConsumed(settings.stopping, st.seen, metrics.value);
      StatusFacts(settings.stopping, seen);
      assert seen[..|seen|] == seen;
    }
  }

  /** The invariant holds after any number of requests. */
  lemma {:induction false} ServingKeepsSound(st: State, settings: Settings, stream: seq<Request>, k: nat)
    requires settings.Valid() && Sound(st, settings) && k <= |stream|
    ensures Sound(AfterServing(st, settings, stream, k), settings)
  {
    hide Stops, Consumed, Checked, FiniteReadings;
    if k > 0 {
      ServingKeepsSound(st, settings, stream, k - 1);
      var next := Served(AfterServing(st, settings, stream, k - 1), stream[k - 1]);
      if ChecksAfter(settings, k) {
        CheckKeepsSound(next, settings, stream[k - 1].monitor);
      }
    }
  }

  lemma SoundIsNumbered(st: State, settings: Settings)
    requires settings.Valid() && Sound(st, settings)
    requires st.freezeReason.Some? && st.freezeReason.value.StoppedBecause?
    ensures Numbered(st.seen) && StopsLast(settings.stopping, st.seen) && |st.seen| == st.updates
    ensures forall i :: 0 <= i < |st.seen| ==> st.seen[i].target == settings.target && FiniteReadings(st.seen[i])
  {
    hide Stops, Consumed, FiniteReadings;
  }

  /** A freeze by convergence in a sound state. */
  lemma SoundFreeze(st: State, settings: Settings, c: Channel, a: nat, b: nat, hops: nat)
    requires settings.Valid() && Sound(st, settings)
    requires st.freezeReason.Some? && st.freezeReason.value.StoppedBecause?
    ensures st.updates == |st.seen| && st.updates % settings.stopping.checkEvery == 0
    ensures var config, n := settings.stopping, st.updates;
            var first := FirstCheck(config, n);
            && config.window - 1 <= first
            && (forall i :: first <= i < n && IsCheck(i, config.checkEvery) ==>
                  st.seen[i].fpr.Finite? && st.seen[i].fpr.v <= settings.target + config.fprMargin)
            && (first + 1 - config.window <= a <= b < n
                && (b <= Reach(n, config.window, config.checkEvery, a, hops) || WindowsCover(config, a, b, hops))
                ==> c.Of(st.seen[a]).Finite? && c.Of(st.seen[b]).Finite?
                    && var x, y := c.Of(st.seen[a]).v, c.Of(st.seen[b]).v;
                       -Rung(hops, config.Eps(c)) <= x - y <= Rung(hops, config.Eps(c)))
  {
    var config, n := settings.stopping, st.updates;
    SoundIsNumbered(st, settings);
    StopDrift(config, st.seen, c, a, b, hops);
    assert n % config.checkEvery == 0;
    hide StopsLast, Sound, Numbered, WindowsCover, Reach, Rung, FirstCheck, IsCheck;
    var first := FirstCheck(config, n);
    forall i | first <= i < n && IsCheck(i, config.checkEvery)
      ensures st.seen[i].fpr.Finite? && st.seen[i].fpr.v <= settings.target + config.fprMargin
    {
      assert FiniteReadings(st.seen[i]) && MeetsLimits(config, st.seen[i]);
      assert Fpr.Of(st.seen[i]).Finite?;
    }
    if first + 1 - config.window <= a <= b < n {
      assert FiniteReadings(st.seen[a]) && FiniteReadings(st.seen[b]);
      forall i | a <= i <= b ensures Readings(st.seen, c)[i].Finite? {
        assert FiniteReadings(st.seen[i]);
      }
      assert FiniteBetween(Readings(st.seen, c), a, b);
    }
  }

  // ---- every reachable state ----

  /** What can be done to a system: serving requests in one run, freezing it by hand, reading its policy. */
  datatype Action = Serving(stream: seq<Request>) | Freezing(text: Option<string>) | Reading(scorer: int)

  function Acted(st: State, settings: Settings, action: Action): State
    requires settings.Valid()
  {
    match action
    case Serving(stream) => AfterServing(st, settings, stream, |stream|)
    case Freezing(text) => Frozen(st, Manual(text))
    case Reading(scorer) => PolicyRead(st, scorer)
  }

  function Reached(settings: Settings, actions: seq<Action>): State
    requires settings.Valid()
  {
    if actions == [] then INITIAL
    else Acted(Reached(settings, actions[..|actions| - 1]), settings, actions[|actions| - 1])
  }

  lemma {:induction false} ServingPrefix(st: State, settings: Settings, stream: seq<Request>, n: nat, k: nat)
    requires settings.Valid() && k <= n <= |stream|
    ensures AfterServing(st, settings, stream[..n], k) == AfterServing(st, settings, stream, k)
  {
    hide Checked, Served;
    if k > 0 {
      ServingPrefix(st, settings, stream, n, k - 1);
    }
  }

  /** A run from a reachable state is two more actions: serving what it served, and
      reading the policy for its report. */
  lemma RunReaches(settings: Settings, actions: seq<Action>, stream: seq<Request>, served: nat, scorer: int)
    requires settings.Valid() && served <= |stream|
    ensures Reached(settings, actions + [Serving(stream[..served]), Reading(scorer)])
            == PolicyRead(AfterServing(Reached(settings, actions), settings, stream, served), scorer)
  {
    hide PolicyRead, AfterServing;
    var serve, read := Serving(stream[..served]), Reading(scorer);
    ServingPrefix(Reached(settings, actions), settings, stream, served, served);
    assert (actions + [serve])[..|actions|] == actions;
    assert (actions + [serve, read])[..|actions| + 1] == actions + [serve];
  }

  lemma InitialIsSound(settings: Settings)
    requires settings.Valid()
    ensures Sound(INITIAL, settings)
  {
    assert StableRun(settings.stopping, []) == 0;
  }

  /** A manual freeze keeps the invariant. */
  lemma ManualFreezeIsSound(st: State, settings: Settings, text: Option<string>)
    requires settings.Valid() && Sound(st, settings)
    ensures Sound(Frozen(st, Manual(text)), settings)
  {
    hide Stops, Consumed;
  }

  lemma ReadingKeepsSound(st: State, settings: Settings, scorer: int)
    requires settings.Valid() && Sound(st, settings)
    ensures Sound(PolicyRead(st, scorer), settings)
  {
    hide Stops, Consumed, FiniteReadings;
  }

  lemma {:induction false} ReachedIsSound(settings: Settings, actions: seq<Action>)
    requires settings.Valid()
    ensures Sound(Reached(settings, actions), settings)
  {
    hide Sound, AfterServing, Frozen;
    if actions == [] {
      InitialIsSound(settings);
    } else {
      var before, action := Reached(settings, actions[..|actions| - 1]), actions[|actions| - 1];
      ReachedIsSound(settings, actions[..|actions| - 1]);
      match action {
        case Serving(stream) => ServingKeepsSound(before, settings, stream, |stream|);
        case Freezing(text) => ManualFreezeIsSound(before, settings, text);
        case Reading(scorer) => ReadingKeepsSound(before, settings, scorer);
      }
    }
  }

  /** The scorers seen by the policy reads of a history, in order. */
  function ScorersOf(stream: seq<Request>): seq<int> {
    if stream == [] then [] else ScorersOf(stream[..|stream| - 1]) + [stream[|stream| - 1].scorer]
  }

  function ScorersRead(actions: seq<Action>): seq<int> {
    if actions == [] then []
    else
      var last := actions[|actions| - 1];
      ScorersRead(actions[..|actions| - 1])
      + match last
        case Serving(stream) => ScorersOf(stream)
        case Freezing(_) => []
        case Reading(scorer) => [scorer]
  }

  /** Maximal stretches of equal entries. */
  function Stretches(xs: seq<int>): nat {
    if |xs| <= 1 then |xs|
    else Stretches(xs[..|xs| - 1]) + if xs[|xs| - 1] != xs[|xs| - 2] then 1 else 0
  }

  predicate VersionCounts(st: State, xs: seq<int>) {
    && st.scorerVersion == Stretches(xs)
    && st.lastScorer == if xs == [] then None else Some(xs[|xs| - 1])
  }

  lemma ReadingCounts(st: State, xs: seq<int>, scorer: int)
    requires VersionCounts(st, xs)
    ensures VersionCounts(PolicyRead(st, scorer), xs + [scorer])
  {
    assert (xs + [scorer])[..|xs|] == xs;
  }

  lemma {:induction false} ServingCounts(st: State, settings: Settings, stream: seq<Request>, xs: seq<int>)
    requires settings.Valid() && VersionCounts(st, xs)
    ensures VersionCounts(AfterServing(st, settings, stream, |stream|), xs + ScorersOf(stream))
  {
    hide Checked, PolicyRead, Stretches;
    if stream == [] {
      assert xs + [] == xs;
    } else {
      var n := |stream| - 1;
      var r := stream[n];
      ServingCounts(st, settings, stream[..n], xs);
      ServingPrefix(st, settings, stream, n, n);
      var before := AfterServing(st, settings, stream, n);
      ReadingCounts(before, xs + ScorersOf(stream[..n]), r.scorer);
      CheckKeepsCounts(Served(before, r), settings, r.monitor);
      assert xs + ScorersOf(stream) == xs + ScorersOf(stream[..n]) + [r.scorer];
    }
  }

  lemma NothingRead()
    ensures VersionCounts(INITIAL, [])
  {
  }

  /** In every reachable state the scorer version is the number of stretches of policy reads - by requests,
      by the reports of runs, or by a caller - that saw one active scorer. */
  lemma {:induction false} VersionsCountSwaps(settings: Settings, actions: seq<Action>)
    requires settings.Valid()
    ensures VersionCounts(Reached(settings, actions), ScorersRead(actions))
  {
    hide AfterServing, PolicyRead, Stretches;
    if actions != [] {
      var n := |actions| - 1;
      var before, xs := Reached(settings, actions[..n]), ScorersRead(actions[..n]);
      VersionsCountSwaps(settings, actions[..n]);
      match actions[n] {
        case Serving(stream) => ServingCounts(before, settings, stream, xs);
        case Freezing(_) => assert xs + [] == xs;
        case Reading(scorer) => ReadingCounts(before, xs, scorer);
      }
    } else {
      NothingRead();
    }
  }

  // ---- what the observations are ----

  /** The calibration scores available to the requests of a history. */
  ghost function MonitorsOf(stream: seq<Request>): set<Monitor> {
    set k | 0 <= k < |stream| :: stream[k].monitor
  }

  ghost function MonitorsIn(actions: seq<Action>): set<Monitor> {
    if actions == [] then {}
    else
      var last := actions[|actions| - 1];
      MonitorsIn(actions[..|actions| - 1]) + if last.Serving? then MonitorsOf(last.stream) else {}
  }

  /** The observation is one of these monitors'. */
  ghost predicate Monitored(o: Metrics, ms: set<Monitor>) {
    exists m :: m in ms && Observes(o, m)
  }

  ghost predicate AllMonitored(seen: seq<Metrics>, ms: set<Monitor>) {
    forall i :: 0 <= i < |seen| ==> Monitored(seen[i], ms)
  }

  lemma CheckIsMonitored(st: State, settings: Settings, m: Monitor, ms: set<Monitor>)
    requires settings.Valid() && AllMonitored(st.seen, ms) && m in ms
    ensures AllMonitored(Checked(st, settings, m).seen, ms)
  {
    hide Checked, Observes;
    CheckObserves(st, settings, m);
    var next := Checked(st, settings, m);
    forall i | 0 <= i < |next.seen| ensures Monitored(next.seen[i], ms) {
      assert i < |st.seen| ==> next.seen[i] == st.seen[i];
    }
  }

  lemma {:induction false} ServingIsMonitored(st: State, settings: Settings, stream: seq<Request>, k: nat,
                                              ms: set<Monitor>)
    requires settings.Valid() && k <= |stream| && AllMonitored(st.seen, ms) && MonitorsOf(stream) <= ms
    ensures AllMonitored(AfterServing(st, settings, stream, k).seen, ms)
  {
    hide Checked, Monitored;
    if k > 0 {
      ServingIsMonitored(st, settings, stream, k - 1, ms);
      assert stream[k - 1].monitor in MonitorsOf(stream);
      CheckIsMonitored(Served(AfterServing(st, settings, stream, k - 1), stream[k - 1]), settings,
                       stream[k - 1].monitor, ms);
    }
  }

  lemma MoreMonitors(seen: seq<Metrics>, ms: set<Monitor>, ns: set<Monitor>)
    requires AllMonitored(seen, ms) && ms <= ns
    ensures AllMonitored(seen, ns)
  {
    hide Observes;
    forall i | 0 <= i < |seen| ensures Monitored(seen[i], ns) {
      assert Monitored(seen[i], ms);
      var m :| m in ms && Observes(seen[i], m);
      assert m in ns;
    }
  }

  /** In every reachable state each observation is that of a monitor some request of the history offered. */
  lemma {:induction false} ReachedIsMonitored(settings: Settings, actions: seq<Action>)
    requires settings.Valid()
    ensures AllMonitored(Reached(settings, actions).seen, MonitorsIn(actions))
  {
    hide AfterServing, Monitored, MonitorsOf;
    if actions != [] {
      var front := actions[..|actions| - 1];
      ReachedIsMonitored(settings, front);
      MoreMonitors(Reached(settings, front).seen, MonitorsIn(front), MonitorsIn(actions));
      var last := actions[|actions| - 1];
      if last.Serving? {
        ServingIsMonitored(Reached(settings, front), settings, last.stream, |last.stream|, MonitorsIn(actions));
      }
    }
  }

  lemma ShareAtMost(share: real, n: real, count: real, limit: real)
    requires n > 0.0 && share * n == count && share <= limit
    ensures count <= limit * n
  {
    MulStrict(n, share, limit);
  }

  /** What a freeze by convergence guarantees in every reachable state, for every check interval, window and
      patience. The freeze happens at a check; the last `patience` checks found empirical false positive rates
      within the target plus the margin; and between any two updates from the first of their windows on, the
      TPR, the FPR and the threshold moved by at most eps per window needed to get from one to the other.
      Where the windows of successive checks overlap, those are at most `patience`, and one per
      window - check_every updates. */
  lemma ConvergedFreeze(settings: Settings, actions: seq<Action>, c: Channel, a: nat, b: nat, hops: nat)
    requires settings.Valid()
    requires var st := Reached(settings, actions); st.freezeReason.Some? && st.freezeReason.value.StoppedBecause?
    ensures var st, config := Reached(settings, actions), settings.stopping;
            var n, first := st.updates, FirstCheck(config, st.updates);
            && n == |st.seen| && n % config.checkEvery == 0 && config.window - 1 <= first
            && AllMonitored(st.seen, MonitorsIn(actions))
            && (forall i :: first <= i < n && IsCheck(i, config.checkEvery) ==>
                  st.seen[i].fpr.Finite? && st.seen[i].fpr.v <= settings.target + config.fprMargin)
            && (first + 1 - config.window <= a <= b < n
                && (b <= Reach(n, config.window, config.checkEvery, a, hops) || WindowsCover(config, a, b, hops))
                ==> c.Of(st.seen[a]).Finite? && c.Of(st.seen[b]).Finite?
                    && var x, y := c.Of(st.seen[a]).v, c.Of(st.seen[b]).v;
                       -Rung(hops, config.Eps(c)) <= x - y <= Rung(hops, config.Eps(c)))
  {
    hide Reached, Reach, FirstCheck, IsCheck, Rung, WindowsCover, Sound, AllMonitored, MonitorsIn;
    ReachedIsSound(settings, actions);
    ReachedIsMonitored(settings, actions);
    SoundFreeze(Reached(settings, actions), settings, c, a, b, hops);
  }

  /** What the limit on the FPR says of the scores: at each of the last `patience` checks before a freeze by
      convergence, some request of the history offered a monitor with that FPR, and of its H0 calibration scores
      at most the fraction target + margin reached the threshold. */
  lemma FrozenFalseAccepts(settings: Settings, actions: seq<Action>, i: nat)
    requires settings.Valid()
    requires var st := Reached(settings, actions); st.freezeReason.Some? && st.freezeReason.value.StoppedBecause?
    requires var st := Reached(settings, actions);
             FirstCheck(settings.stopping, st.updates) <= i < st.updates && IsCheck(i, settings.stopping.checkEvery)
    ensures var st := Reached(settings, actions);
            && i < |st.seen|
            && exists m :: m in MonitorsIn(actions) && Observes(st.seen[i], m)
                           && |Passing(m.h0Scores, st.seen[i].threshold.v)| as real
                              <= (settings.target + settings.stopping.fprMargin) * |m.h0Scores| as real
  {
    hide Reached, FirstCheck, IsCheck, Passing, MonitorsIn;
    ReachedIsMonitored(settings, actions);
    ConvergedFreeze(settings, actions, Fpr, i, i, 0);
    var o := Reached(settings, actions).seen[i];
    assert Monitored(o, MonitorsIn(actions));
    var m :| m in MonitorsIn(actions) && Observes(o, m);
    ShareAtMost(o.fpr.v, |m.h0Scores| as real, |Passing(m.h0Scores, o.threshold.v)| as real,
                settings.target + settings.stopping.fprMargin);
  }

  // ---- how often a run checks ----

  /** Batches completed by k requests. */
  function Batches(k: nat, settings: Settings): nat { k / Max(1, settings.batchSize) }

  lemma BatchesStep(k: nat, settings: Settings)
    requires k > 0
    ensures Batches(k, settings) == Batches(k - 1, settings) + if ChecksAfter(settings, k) then 1 else 0
    ensures Batches(0, settings) == 0
  {
    QuotientStep(k, Max(1, settings.batchSize));
  }

  lemma FrozenStays(st: State, settings: Settings, r: Request)
    requires settings.Valid() && st.frozen
    ensures Served(st, r).frozen && Checked(Served(st, r), settings, r.monitor).frozen
  {
  }

  /** A check after every full batch and at no other time: a stream none of whose requests raises and all of whose
      monitors are observable makes one update per batch, as long as nothing is frozen. */
  lemma {:induction false} UpdatesCountBatches(st: State, settings: Settings, stream: seq<Request>, k: nat)
    requires settings.Valid() && k <= |stream| && !AfterServing(st, settings, stream, k).frozen
    requires forall j :: 0 <= j < k ==> Observable(stream[j].monitor) && stream[j].source != LlmRaises
    ensures AfterServing(st, settings, stream, k).updates == st.updates + Batches(k, settings)
    ensures !st.frozen
  {
    hide Checked, ChecksAfter, Batches;
    if k > 0 {
      var before := AfterServing(st, settings, stream, k - 1);
      if before.frozen {
        FrozenStays(before, settings, stream[k - 1]);
      }
      UpdatesCountBatches(st, settings, stream, k - 1);
      BatchesStep(k, settings);
      CheckObserves(Served(before, stream[k - 1]), settings, stream[k - 1].monitor);
    } else {
      BatchesStep(1, settings);
    }
  }

  /** Every update checked and patience <= window: nothing moved by more than 2 * eps. */
  lemma EveryUpdateChecked(settings: Settings, actions: seq<Action>, c: Channel, a: nat, b: nat)
    requires settings.Valid() && settings.stopping.checkEvery == 1
    requires settings.stopping.patience <= settings.stopping.window
    requires var st := Reached(settings, actions); st.freezeReason.Some? && st.freezeReason.value.StoppedBecause?
    ensures var st, config := Reached(settings, actions), settings.stopping;
            && config.window + config.patience - 1 <= st.updates == |st.seen|
            && (st.updates - (config.window + config.patience - 1) <= a <= b < st.updates
                ==> c.Of(st.seen[a]).Finite? && c.Of(st.seen[b]).Finite?
                    && var x, y := c.Of(st.seen[a]).v, c.Of(st.seen[b]).v;
                       -2.0 * config.Eps(c) <= x - y <= 2.0 * config.Eps(c))
  {
    hide Reached, Reach, IsCheck;
    ConvergedFreeze(settings, actions, c, a, b, 2);
  }
}
