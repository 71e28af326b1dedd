/** The convergence stopping controller (src/mlcache/online/stopping.py).

    Monitor readings are floats and may be infinite or NaN; finite ones are taken as reals. */
module Stopping {
  import opened Scores

  datatype Reading = Finite(v: real) | PosInf | NegInf | NaN {
    /** `self <= limit`, for a finite limit */
    predicate AtMost(limit: real) {
      match this
      case Finite(v) => v <= limit
      case NegInf => true
      case _ => false
    }
  }

  datatype Metrics = Metrics(batchIndex: int, tpr: Reading, fpr: Reading, threshold: Reading, target: real,
                             h0Count: Option<int>, h1Count: Option<int>)

  /** The three monitored readings. */
  datatype Channel = Tpr | Fpr | Tau {
    function Of(m: Metrics): Reading {
      match this
      case Tpr => m.tpr
      case Fpr => m.fpr
      case Tau => m.threshold
    }
  }

  datatype Config = Config(checkEvery: int, window: int, patience: int, epsTpr: real, epsFpr: real, epsTau: real,
                           fprMargin: real, minH0: int, minH1: int)
  {
    predicate Valid() { checkEvery > 0 && window > 1 && patience > 0 }

    function Eps(c: Channel): real {
      match c
      case Tpr => epsTpr
      case Fpr => epsFpr
      case Tau => epsTau
    }

    predicate IsCheckBatch(m: Metrics)
      requires checkEvery > 0
    {
      m.batchIndex % checkEvery == 0
    }

    predicate HasEnoughMonitorData(m: Metrics) {
      && (m.h0Count.None? || m.h0Count.value >= minH0)
      && (m.h1Count.None? || m.h1Count.value >= minH1)
    }
  }

  // ---- the range of a window ----

  function Finites(xs: seq<Reading>): seq<real> {
    if xs == [] then []
    else Finites(xs[..|xs| - 1]) + if xs[|xs| - 1].Finite? then [xs[|xs| - 1].v] else []
  }

  function MaxOf(s: seq<real>): (m: real)
    requires s != []
    ensures m in s && forall i :: 0 <= i < |s| ==> s[i] <= m
  {
    if |s| == 1 then s[0] else MaxReal(MaxOf(s[..|s| - 1]), s[|s| - 1])
  }

  function MinOf(s: seq<real>): (m: real)
    requires s != []
    ensures m in s && forall i :: 0 <= i < |s| ==> m <= s[i]
  {
    if |s| == 1 then s[0] else MinReal(MinOf(s[..|s| - 1]), s[|s| - 1])
  }

  /** Largest minus smallest finite reading; None is the infinite range of no finite reading. */
  function Range(xs: seq<Reading>): Option<real> {
    var finite := Finites(xs);
    if finite == [] then None else Some(MaxOf(finite) - MinOf(finite))
  }

  predicate Within(xs: seq<Reading>, eps: real) {
    Range(xs).Some? && Range(xs).value <= eps
  }

  /** Finite readings at a and b differ by at most d. */
  predicate Close(xs: seq<Reading>, a: nat, b: nat, d: real)
    requires a < |xs| && b < |xs|
  {
    xs[a].Finite? && xs[b].Finite? ==> -d <= xs[a].v - xs[b].v <= d
  }

  lemma {:induction false} FinitesHolds(xs: seq<Reading>, v: real)
    ensures v in Finites(xs) <==> Finite(v) in xs
  {
    if xs != [] {
      FinitesHolds(xs[..|xs| - 1], v);
      assert xs == xs[..|xs| - 1] + [xs[|xs| - 1]];
    }
  }

  /** A window is within eps exactly when it has a finite reading and every two finite readings are. */
  lemma WithinMeansPairwise(xs: seq<Reading>, eps: real)
    ensures Within(xs, eps) <==> (exists i :: 0 <= i < |xs| && xs[i].Finite?)
                                 && (forall i, j :: 0 <= i < |xs| && 0 <= j < |xs| ==> Close(xs, i, j, eps))
  {
    var finite := Finites(xs);
    forall i | 0 <= i < |xs| && xs[i].Finite? ensures xs[i].v in finite {
      FinitesHolds(xs, xs[i].v);
    }
    if finite != [] {
      var high, low := MaxOf(finite), MinOf(finite);
      FinitesHolds(xs, high);
      FinitesHolds(xs, low);
      var i :| 0 <= i < |xs| && xs[i] == Finite(high);
      var j :| 0 <= j < |xs| && xs[j] == Finite(low);
      assert Close(xs, i, j, eps) <==> high - low <= eps && low - high <= eps;
    }
  }

  // ---- verdicts on a history ----

  datatype Verdict = Skipped | TooFewMonitored | ShortWindow | Stable | Unstable

  function Readings(h: seq<Metrics>, c: Channel): (xs: seq<Reading>)
    ensures |xs| == |h| && forall i :: 0 <= i < |h| ==> xs[i] == c.Of(h[i])
  {
    if h == [] then [] else Readings(h[..|h| - 1], c) + [c.Of(h[|h| - 1])]
  }

  predicate Settled(config: Config, window: seq<Metrics>) {
    && Within(Readings(window, Tpr), config.epsTpr)
    && Within(Readings(window, Fpr), config.epsFpr)
    && Within(Readings(window, Tau), config.epsTau)
  }

  /** The verdict on the latest observation of a history. */
  function VerdictOf(config: Config, h: seq<Metrics>): Verdict
    requires config.Valid() && h != []
  {
    var m := h[|h| - 1];
    if !config.IsCheckBatch(m) then Skipped
    else if !config.HasEnoughMonitorData(m) then TooFewMonitored
    else if |h| < config.window then ShortWindow
    else if m.fpr.AtMost(m.target + config.fprMargin) && Settled(config, h[|h| - config.window..]) then Stable
    else Unstable
  }

  /** Every two finite readings of one channel in the window differ by at most eps, and there is one. */
  ghost predicate CloseTogether(window: seq<Metrics>, c: Channel, eps: real) {
    && (exists i :: 0 <= i < |window| && c.Of(window[i]).Finite?)
    && forall i, j :: 0 <= i < |window| && 0 <= j < |window| && c.Of(window[i]).Finite? && c.Of(window[j]).Finite? ==>
         c.Of(window[i]).v - c.Of(window[j]).v <= eps
  }

  lemma WithinIsCloseTogether(window: seq<Metrics>, c: Channel, eps: real)
    ensures Within(Readings(window, c), eps) <==> CloseTogether(window, c, eps)
  {
    var xs := Readings(window, c);
    WithinMeansPairwise(xs, eps);
    hide Within, Readings;
    if CloseTogether(window, c, eps) {
      var k :| 0 <= k < |window| && c.Of(window[k]).Finite?;
      assert xs[k].Finite?;
      forall i, j | 0 <= i < |xs| && 0 <= j < |xs| ensures Close(xs, i, j, eps) {
      }
    }
    if Within(xs, eps) {
      var k :| 0 <= k < |xs| && xs[k].Finite?;
      assert c.Of(window[k]).Finite?;
      forall i, j | 0 <= i < |window| && 0 <= j < |window| && c.Of(window[i]).Finite? && c.Of(window[j]).Finite?
        ensures c.Of(window[i]).v - c.Of(window[j]).v <= eps
      {
        assert Close(xs, i, j, eps);
      }
    }
  }

  lemma SettledIff(config: Config, window: seq<Metrics>)
    ensures Settled(config, window)
            <==> CloseTogether(window, Tpr, config.epsTpr) && CloseTogether(window, Fpr, config.epsFpr)
                 && CloseTogether(window, Tau, config.epsTau)
  {
    hide Within, CloseTogether, Readings;
    WithinIsCloseTogether(window, Tpr, config.epsTpr);
    WithinIsCloseTogether(window, Fpr, config.epsFpr);
    WithinIsCloseTogether(window, Tau, config.epsTau);
  }

  /** A stable check, spelled out: a check batch with enough monitored pairs of both labels, after a full window,
      whose FPR is within the target plus the margin, and all of whose three channels stayed within their eps over
      the last window. */
  lemma StableIff(config: Config, h: seq<Metrics>)
    requires config.Valid() && h != []
    ensures var m := h[|h| - 1];
            VerdictOf(config, h) == Stable
            <==> && m.batchIndex % config.checkEvery == 0
                 && (m.h0Count.Some? ==> m.h0Count.value >= config.minH0)
                 && (m.h1Count.Some? ==> m.h1Count.value >= config.minH1)
                 && |h| >= config.window
                 && (m.fpr == NegInf || (m.fpr.Finite? && m.fpr.v <= m.target + config.fprMargin))
                 && CloseTogether(h[|h| - config.window..], Tpr, config.epsTpr)
                 && CloseTogether(h[|h| - config.window..], Fpr, config.epsFpr)
                 && CloseTogether(h[|h| - config.window..], Tau, config.epsTau)
  {
    hide Settled, CloseTogether;
    if |h| >= config.window {
      SettledIff(config, h[|h| - config.window..]);
    }
  }

  /** For each check batch, in order: was it stable? */
  function CheckOutcomes(config: Config, h: seq<Metrics>): seq<bool>
    requires config.Valid()
  {
    if h == [] then []
    else
      CheckOutcomes(config, h[..|h| - 1])
      + if config.IsCheckBatch(h[|h| - 1]) then [VerdictOf(config, h) == Stable] else []
  }

  /** The counter of consecutive stable checks after a history, while nothing has stopped. */
  function StableRun(config: Config, h: seq<Metrics>): nat
    requires config.Valid()
  {
    if h == [] then 0
    else
      match VerdictOf(config, h)
      case Skipped => StableRun(config, h[..|h| - 1])
      case ShortWindow => StableRun(config, h[..|h| - 1])
      case Stable => StableRun(config, h[..|h| - 1]) + 1
      case _ => 0
  }

  predicate Stops(config: Config, h: seq<Metrics>)
    requires config.Valid()
  {
    StableRun(config, h) >= config.patience
  }

  lemma {:induction false} NoRunBeforeAWindow(config: Config, h: seq<Metrics>)
    requires config.Valid() && |h| < config.window
    ensures StableRun(config, h) == 0
  {
    hide Settled;
    if h != [] {
      NoRunBeforeAWindow(config, h[..|h| - 1]);
    }
  }

  lemma RunStep(config: Config, h: seq<Metrics>)
    requires config.Valid() && h != []
    ensures var run := StableRun(config, h[..|h| - 1]);
            StableRun(config, h) == if !config.IsCheckBatch(h[|h| - 1]) then run
                                    else if VerdictOf(config, h) == Stable then run + 1 else 0
  {
    hide Settled;
    if |h| < config.window {
      NoRunBeforeAWindow(config, h);
    }
  }

  /** The counter is the length of the trailing run of stable check batches: exactly the last StableRun
      check batches are stable, and the one before them, if any, is not. */
  lemma {:induction false} StableRunIsTrailing(config: Config, h: seq<Metrics>)
    requires config.Valid()
    ensures var outcomes, run := CheckOutcomes(config, h), StableRun(config, h);
            && run <= |outcomes|
            && (forall j :: |outcomes| - run <= j < |outcomes| ==> outcomes[j])
            && (run < |outcomes| ==> !outcomes[|outcomes| - 1 - run])
  {
    hide VerdictOf;
    if h != [] {
      StableRunIsTrailing(config, h[..|h| - 1]);
      RunStep(config, h);
    }
  }

  // ---- stopping ----

  /** How many of the observations the controller takes in: it ignores everything after it stopped. */
  function Consumed(config: Config, seen: seq<Metrics>): (n: nat)
    requires config.Valid()
    ensures n <= |seen|
  {
    if seen == [] then 0
    else
      var n := Consumed(config, seen[..|seen| - 1]);
      if n == |seen| - 1 && !Stops(config, seen[..|seen| - 1]) then |seen| else n
  }

  /** The controller takes in the shortest prefix that stops, or everything if none does; when it stops
      the counter is exactly the patience. Stopping is absorbing. */
  lemma {:induction false} ConsumesUpToTheFirstStop(config: Config, seen: seq<Metrics>)
    requires config.Valid()
    ensures var n := Consumed(config, seen);
            && (forall k :: 0 <= k < n ==> !Stops(config, seen[..k]))
            && (n < |seen| ==> Stops(config, seen[..n]))
            && (Stops(config, seen[..n]) ==> StableRun(config, seen[..n]) == config.patience)
  {
    hide VerdictOf;
    if seen == [] {
      assert StableRun(config, []) == 0;
    } else {
      var init := seen[..|seen| - 1];
      ConsumesUpToTheFirstStop(config, init);
      var n := Consumed(config, init);
      forall k | 0 <= k <= |init| ensures seen[..k] == init[..k] {
      }
      if n == |init| && !Stops(config, init) {
        assert init[..n] == init;
        assert seen[..|seen|] == seen;
      }
    }
  }

  datatype Reason = WaitingForCheckInterval | InsufficientMonitorData | InsufficientWindow | NotConverged | Converged

  datatype Status = Status(stopped: bool, reason: Option<Reason>)

  function StatusOf(config: Config, h: seq<Metrics>): Status
    requires config.Valid()
  {
    if h == [] then Status(false, None)
    else if Stops(config, h) then Status(true, Some(Converged))
    else
      Status(false, Some(match VerdictOf(config, h)
                         case Skipped => WaitingForCheckInterval
                         case TooFewMonitored => InsufficientMonitorData
                         case ShortWindow => InsufficientWindow
                         case _ => NotConverged))
  }

  /** What the status says of the last observation: stopped with the patience reached, or why not. */
  lemma StatusTells(config: Config, h: seq<Metrics>)
    requires config.Valid() && h != []
    ensures var m, status := h[|h| - 1], StatusOf(config, h);
            && (status.stopped <==> StableRun(config, h) >= config.patience)
            && (status.stopped <==> status.reason == Some(Converged))
            && (!status.stopped ==>
                  status.reason
                  == if m.batchIndex % config.checkEvery != 0 then Some(WaitingForCheckInterval)
                     else if (m.h0Count.Some? && m.h0Count.value < config.minH0)
                             || (m.h1Count.Some? && m.h1Count.value < config.minH1) then Some(InsufficientMonitorData)
                     else if |h| < config.window then Some(InsufficientWindow)
                     else Some(NotConverged))
  {
    hide Settled, StableRun;
  }

  /** One more observation, while nothing has stopped. */
  lemma StatusNext(config: Config, h: seq<Metrics>, m: Metrics)
    requires config.Valid() && !Stops(config, h)
    ensures var next, run := h + [m], StableRun(config, h);
            var run', status' := StableRun(config, next), StatusOf(config, next);
            match VerdictOf(config, next)
            case Skipped => run' == run && status' == Status(false, Some(WaitingForCheckInterval))
            case TooFewMonitored => run' == 0 && status' == Status(false, Some(InsufficientMonitorData))
            case ShortWindow => run' == run && status' == Status(false, Some(InsufficientWindow))
            case Unstable => run' == 0 && status' == Status(false, Some(NotConverged))
            case Stable => run' == run + 1
                           && status' == if run' >= config.patience then Status(true, Some(Converged))
                                         else Status(false, Some(NotConverged))
  {
    assert (h + [m])[..|h|] == h;
    hide VerdictOf;
  }

  lemma ObservedNext(config: Config, seen: seq<Metrics>, m: Metrics)
    requires config.Valid()
    ensures var n := Consumed(config, seen);
            var next := (seen + [m])[..Consumed(config, seen + [m])];
            next == if Stops(config, seen[..n]) then seen[..n] else seen[..n] + [m]
  {
    ConsumesUpToTheFirstStop(config, seen);
    assert (seen + [m])[..|seen|] == seen == seen[..|seen|];
    hide Stops;
  }

  class WindowedOnlineStoppingController {
    const config: Config
    var history: seq<Metrics>
    var stableChecks: int
    var status: Status
    ghost var seen: seq<Metrics>

    /** The state is what the observations since construction or the last reset determine. */
    ghost predicate Valid()
      reads this
    {
      && config.Valid()
      && history == seen[..Consumed(config, seen)]
      && stableChecks == StableRun(config, history)
      && status == StatusOf(config, history)
    }

    constructor (config: Config)
      requires config.Valid()
      ensures Valid() && this.config == config && seen == [] && status == Status(false, None)
    {
      this.config := config;
      history, stableChecks, status, seen := [], 0, Status(false, None), [];
    }

    method Observe(m: Metrics) returns (result: Status)
      requires Valid()
      modifies this
      ensures Valid() && seen == old(seen) + [m]
      ensures result == status
      ensures result.stopped <==> result.reason == Some(Converged)
      ensures old(status).stopped
              ==> history == old(history) && status == old(status) && stableChecks == old(stableChecks)
      ensures !old(status).stopped ==> history == old(history) + [m]
    {
      hide Settled, Consumed;
      ObservedNext(config, seen, m);
      seen := seen + [m];
      if status.stopped {
        return status;
      }
      StatusNext(config, history, m);
      history := history + [m];
      hide StableRun, StatusOf;
      if !config.IsCheckBatch(m) {
        result := PendingStatus(WaitingForCheckInterval);
        return;
      }
      if !config.HasEnoughMonitorData(m) {
        stableChecks := 0;
        result := PendingStatus(InsufficientMonitorData);
        return;
      }
      if |history| < config.window {
        result := PendingStatus(InsufficientWindow);
        return;
      }
      var fprOk := m.fpr.AtMost(m.target + config.fprMargin);
      var stable := fprOk && Settled(config, history[|history| - config.window..]);
      stableChecks := if stable then stableChecks + 1 else 0;
      status := if stableChecks >= config.patience then Status(true, Some(Converged))
                else Status(false, Some(NotConverged));
      result := status;
    }

    method PendingStatus(reason: Reason) returns (result: Status)
      modifies `status
      ensures result == status == Status(false, Some(reason))
    {
      status := Status(false, Some(reason));
      result := status;
    }

    method Reset()
      requires Valid()
      modifies this
      ensures Valid() && seen == [] && status == Status(false, None)
    {
      history, stableChecks, status, seen := [], 0, Status(false, None), [];
    }
  }
}
