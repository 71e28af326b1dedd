/** The lifecycle of the serving system: counting, convergence checks and freezing
    (src/mlcache/system.py:265-453).

    What the cache, the LLM, the oracle and the judge do during a request is part of the request: where its
    answer came from or that the LLM raised, the scorer then active, and the calibration scores a
    convergence check would read. */
module CacheSystem {
  import opened Scores
  import opened Stopping

  datatype Source = FromCache | FromLlm | LlmRaises

  /** What a convergence check reads; no store, or a store without calibration pairs, has no scores. */
  datatype Monitor = Monitor(threshold: Option<Reading>, h0Scores: seq<real>, h1Scores: seq<real>)

  datatype Request = Request(source: Source, scorer: int, monitor: Monitor)

  datatype FreezeReason = Manual(text: Option<string>) | StoppedBecause(reason: Reason)

  datatype Settings = Settings(stopping: Config, target: real, batchSize: int, maxUpdates: Option<int>) {
    predicate Valid() { stopping.Valid() }
  }

  datatype State = State(fromCache: nat, fromLlm: nat, lastScorer: Option<int>, scorerVersion: nat,
                         frozen: bool, freezeReason: Option<FreezeReason>, autoRefit: bool,
                         updates: nat, seen: seq<Metrics>)

  const INITIAL := State(0, 0, None, 0, false, None, true, 0, [])

  // ---- steps ----

  function CountAtLeast(scores: seq<real>, tau: real): (n: nat)
    ensures n <= |scores|
  {
    if scores == [] then 0 else CountAtLeast(scores[..|scores| - 1], tau) + if scores[|scores| - 1] >= tau then 1 else 0
  }

  function ShareAtLeast(scores: seq<real>, tau: real): (share: real)
    requires scores != []
    ensures 0.0 <= share <= 1.0
  {
    CountAtLeast(scores, tau) as real / |scores| as real
  }

  /** The metrics of check number `index`, if the threshold is finite and both labels have calibration pairs. */
  function MetricsOf(m: Monitor, target: real, index: nat): Option<Metrics> {
    if m.threshold.None? || !m.threshold.value.Finite? || m.h0Scores == [] || m.h1Scores == [] then None
    else
      var tau := m.threshold.value.v;
      Some(Metrics(index, Finite(ShareAtLeast(m.h1Scores, tau)), Finite(ShareAtLeast(m.h0Scores, tau)),
                   m.threshold.value, target, Some(|m.h0Scores|), Some(|m.h1Scores|)))
  }

  /** Reading the policy: the version advances when the active scorer is not the one last seen. */
  function PolicyRead(st: State, scorer: int): State {
    st.(lastScorer := Some(scorer), scorerVersion := st.scorerVersion + if st.lastScorer != Some(scorer) then 1 else 0)
  }

  /** One request; it is counted unless the LLM raises. */
  function Served(st: State, r: Request): State {
    var read := PolicyRead(st, r.scorer);
    match r.source
    case FromCache => read.(fromCache := st.fromCache + 1)
    case FromLlm => read.(fromLlm := st.fromLlm + 1)
    case LlmRaises => read
  }

  function Frozen(st: State, reason: FreezeReason): State {
    if st.frozen then st else st.(frozen := true, freezeReason := Some(reason), autoRefit := false)
  }

  /** One convergence check. */
  function Checked(st: State, settings: Settings, m: Monitor): State
    requires settings.Valid()
  {
    var metrics := MetricsOf(m, settings.target, st.updates + 1);
    if st.frozen || metrics.None? then st
    else
      var seen := st.seen + [metrics.value];
      var next := st.(updates := st.updates + 1, seen := seen);
      var status := StatusOf(settings.stopping, seen[..Consumed(settings.stopping, seen)]);
      if status.stopped then Frozen(next, StoppedBecause(status.reason.value)) else next
  }

  // ---- what a check observes ----

  /** The positions of the scores that the threshold accepts. */
  ghost function Passing(scores: seq<real>, tau: real): set<int> {
    set i | 0 <= i < |scores| && scores[i] >= tau
  }

  lemma {:induction false} CountIsCardinality(scores: seq<real>, tau: real)
    ensures CountAtLeast(scores, tau) == |Passing(scores, tau)|
  {
    if scores != [] {
      var n := |scores| - 1;
      CountIsCardinality(scores[..n], tau);
      assert Passing(scores, tau) == Passing(scores[..n], tau) + if scores[n] >= tau then {n} else {};
    }
  }

  /** The reading is the accepted share of these scores. */
  ghost predicate IsShare(reading: Reading, scores: seq<real>, tau: real) {
    scores != [] && reading.Finite? && reading.v * |scores| as real == |Passing(scores, tau)| as real
  }

  /** There is a finite threshold and both labels have calibration scores. */
  predicate Observable(m: Monitor) {
    m.threshold.Some? && m.threshold.value.Finite? && m.h0Scores != [] && m.h1Scores != []
  }

  /** The observation says of this monitor: its FPR is the share of the H0 scores at or above the threshold,
      its TPR that of the H1 scores. */
  ghost predicate Observes(o: Metrics, m: Monitor) {
    && Observable(m) && o.threshold == m.threshold.value
    && IsShare(o.fpr, m.h0Scores, o.threshold.v) && IsShare(o.tpr, m.h1Scores, o.threshold.v)
    && o.h0Count == Some(|m.h0Scores|) && o.h1Count == Some(|m.h1Scores|)
  }

  lemma ShareIsShare(scores: seq<real>, tau: real)
    requires scores != []
    ensures IsShare(Finite(ShareAtLeast(scores, tau)), scores, tau)
  {
    CountIsCardinality(scores, tau);
    hide CountAtLeast, Passing;
    var x, n := CountAtLeast(scores, tau) as real, |scores| as real;
    assert (x / n) * n == x;
  }

  /** A check of a system that is not frozen appends one observation of the monitor, if it is observable; other
      checks change nothing. */
  lemma CheckObserves(st: State, settings: Settings, m: Monitor)
    requires settings.Valid()
    ensures var next := Checked(st, settings, m);
            if st.frozen || !Observable(m) then next == st
            else
              && |next.seen| == |st.seen| + 1 && next.seen[..|st.seen|] == st.seen
              && next.updates == st.updates + 1
              && Observes(next.seen[|st.seen|], m)
              && next.seen[|st.seen|].batchIndex == st.updates + 1
              && next.seen[|st.seen|].target == settings.target
  {
    hide StatusOf, Consumed, Passing, ShareAtLeast, IsShare;
    if Observable(m) {
      ShareIsShare(m.h0Scores, m.threshold.value.v);
      ShareIsShare(m.h1Scores, m.threshold.value.v);
    }
  }

  predicate ChecksAfter(settings: Settings, served: nat) {
    served % Max(1, settings.batchSize) == 0
  }

  predicate RaisesAt(stream: seq<Request>, k: nat) {
    k < |stream| && stream[k].source == LlmRaises
  }

  /** The state after the first k requests of a stream; a request that raises is not followed by a check. */
  function AfterServing(st: State, settings: Settings, stream: seq<Request>, k: nat): State
    requires settings.Valid() && k <= |stream|
  {
    if k == 0 then st
    else
      var next := Served(AfterServing(st, settings, stream, k - 1), stream[k - 1]);
      if ChecksAfter(settings, k) && !RaisesAt(stream, k - 1) then Checked(next, settings, stream[k - 1].monitor)
      else next
  }

  predicate UpdatesReached(st: State, settings: Settings, stream: seq<Request>, k: nat)
    requires settings.Valid() && k <= |stream|
  {
    settings.maxUpdates.Some? && AfterServing(st, settings, stream, k).updates >= settings.maxUpdates.value
  }

  /** Whether a run ends after k requests. */
  predicate EndsAfter(st: State, settings: Settings, stream: seq<Request>, maxRequests: Option<int>, k: nat)
    requires settings.Valid() && k <= |stream|
  {
    (maxRequests.Some? && k >= maxRequests.value) || UpdatesReached(st, settings, stream, k)
  }

  /** A run serves its stream until it raises or a limit is reached after a request, whichever is first. */
  ghost predicate RunServes(st: State, settings: Settings, stream: seq<Request>, maxRequests: Option<int>,
                            served: nat, raised: bool)
    requires settings.Valid()
  {
    && served <= |stream|
    && (forall k: nat :: k < served ==> !RaisesAt(stream, k))
    && (forall k: nat :: 0 < k < served ==> !EndsAfter(st, settings, stream, maxRequests, k))
    && (if raised
        then RaisesAt(stream, served) && (served > 0 ==> !EndsAfter(st, settings, stream, maxRequests, served))
        else served == |stream| || (served > 0 && EndsAfter(st, settings, stream, maxRequests, served)))
  }

  class SemanticCacheSystem {
    const settings: Settings
    const stopping: WindowedOnlineStoppingController
    var fromCache: nat
    var fromLlm: nat
    var lastScorer: Option<int>
    var scorerVersion: nat
    var frozen: bool
    var freezeReason: Option<FreezeReason>
    var autoRefit: bool
    var updateCount: nat

    ghost function Abstract(): State
      reads this, stopping
    {
      State(fromCache, fromLlm, lastScorer, scorerVersion, frozen, freezeReason, autoRefit, updateCount, stopping.seen)
    }

    ghost predicate Valid()
      reads this, stopping
    {
      settings.Valid() && stopping.Valid() && stopping.config == settings.stopping
    }

    constructor (settings: Settings)
      requires settings.Valid()
      ensures Valid() && fresh(stopping) && this.settings == settings && Abstract() == INITIAL
    {
      this.settings := settings;
      stopping := new WindowedOnlineStoppingController(settings.stopping);
      fromCache, fromLlm, lastScorer, scorerVersion := 0, 0, None, 0;
      frozen, freezeReason, autoRefit, updateCount := false, None, true, 0;
    }

    method ReadPolicy(scorer: int)
      requires Valid()
      modifies `lastScorer, `scorerVersion
      ensures Valid() && Abstract() == PolicyRead(old(Abstract()), scorer)
    {
      if lastScorer != Some(scorer) {
        lastScorer := Some(scorer);
        scorerVersion := scorerVersion + 1;
      }
    }

    method Handle(r: Request) returns (raised: bool)
      requires Valid()
      modifies `fromCache, `fromLlm, `lastScorer, `scorerVersion
      ensures Valid() && Abstract() == Served(old(Abstract()), r)
      ensures raised <==> r.source == LlmRaises
    {
      hide WindowedOnlineStoppingController.Valid, Config.Valid, PolicyRead;
      ReadPolicy(r.scorer);
      raised := r.source == LlmRaises;
      if r.source == FromCache {
        fromCache := fromCache + 1;
      } else if !raised {
        fromLlm := fromLlm + 1;
      }
    }

    method Freeze(reason: FreezeReason)
      requires Valid()
      modifies `frozen, `freezeReason, `autoRefit
      ensures Valid() && Abstract() == Frozen(old(Abstract()), reason)
    {
      if frozen {
        return;
      }
      frozen := true;
      freezeReason := Some(reason);
      autoRefit := false;
    }

    method MaybeCheckStopping(m: Monitor)
      requires Valid()
      modifies `updateCount, `frozen, `freezeReason, `autoRefit, stopping
      ensures Valid() && Abstract() == Checked(old(Abstract()), settings, m)
    {
      hide StatusOf, Consumed, StableRun, ShareAtLeast, Config.Valid;
      if frozen {
        return;
      }
      if m.threshold.None? || !m.threshold.value.Finite? {
        return;
      }
      if m.h0Scores == [] || m.h1Scores == [] {
        return;
      }
      var tau := m.threshold.value.v;
      var fpr, tpr := ShareAtLeast(m.h0Scores, tau), ShareAtLeast(m.h1Scores, tau);
      updateCount := updateCount + 1;
      var status := stopping.Observe(
        Metrics(updateCount, Finite(tpr), Finite(fpr), m.threshold.value, settings.target,
                Some(|m.h0Scores|), Some(|m.h1Scores|)));
      if status.stopped {
        Freeze(StoppedBecause(status.reason.value));
      }
    }

    /** Serves a stream; unless it raises, it ends by reporting, which reads the policy. */
    method Run(stream: seq<Request>, maxRequests: Option<int>, reportScorer: int) returns (served: nat, raised: bool)
      requires Valid()
      modifies this, stopping
      ensures Valid()
      ensures RunServes(old(Abstract()), settings, stream, maxRequests, served, raised)
      ensures Abstract() == if raised then AfterServing(old(Abstract()), settings, stream, served + 1)
                            else PolicyRead(AfterServing(old(Abstract()), settings, stream, served), reportScorer)
    {
      served, raised := ServeAll(stream, maxRequests);
      if !raised {
        ReadPolicy(reportScorer);
      }
    }

    method ServeAll(stream: seq<Request>, maxRequests: Option<int>) returns (served: nat, raised: bool)
      requires Valid()
      modifies this, stopping
      ensures Valid()
      ensures RunServes(old(Abstract()), settings, stream, maxRequests, served, raised)
      ensures Abstract() == AfterServing(old(Abstract()), settings, stream, if raised then served + 1 else served)
    {
      hide Checked, Served, WindowedOnlineStoppingController.Valid, Config.Valid;
      ghost var start := Abstract();
      served, raised := 0, false;
      while served < |stream|
        invariant served <= |stream| && Valid()
        invariant Abstract() == AfterServing(start, settings, stream, served)
        invariant forall k: nat :: k < served ==> !RaisesAt(stream, k)
        invariant forall k: nat :: 0 < k <= served ==> !EndsAfter(start, settings, stream, maxRequests, k)
      {
        raised := Handle(stream[served]);
        if raised {
          return;
        }
        served := served + 1;
        if served % Max(1, settings.batchSize) == 0 {
          MaybeCheckStopping(stream[served - 1].monitor);
        }
        if maxRequests.Some? && served >= maxRequests.value {
          return;
        }
        if settings.maxUpdates.Some? && updateCount >= settings.maxUpdates.value {
          return;
        }
      }
      raised := false;
    }
  }
}
