/** What a converged stop says about the last readings (src/mlcache/online/stopping.py:56-114, 143-148). */
module StoppingBounds {
  import opened Scores
  import opened Stopping

  /** The w readings ending at position i. */
  function Window<T>(xs: seq<T>, i: int, w: nat): seq<T>
    requires 0 < w && w - 1 <= i < |xs|
  {
    xs[i + 1 - w..i + 1]
  }

  /** Every window ending at one of the last p observations is within eps. */
  ghost predicate Calm(xs: seq<Reading>, w: nat, p: nat, eps: real)
    requires 0 < w && w + p - 1 <= |xs|
  {
    forall i :: |xs| - p <= i < |xs| ==> Within(Window(xs, i, w), eps)
  }

  // ---- a stop makes the last readings calm ----

  lemma {:induction false} ReadingsWindow(h: seq<Metrics>, c: Channel, i: int, w: nat)
    requires 0 < w && w - 1 <= i < |h|
    ensures Readings(Window(h, i, w), c) == Window(Readings(h, c), i, w)
  {
  }

  lemma StableFacts(config: Config, h: seq<Metrics>, c: Channel)
    requires config.Valid() && h != [] && VerdictOf(config, h) == Stable
    ensures |h| >= config.window
    ensures h[|h| - 1].fpr.AtMost(h[|h| - 1].target + config.fprMargin) && config.HasEnoughMonitorData(h[|h| - 1])
    ensures Within(Window(Readings(h, c), |h| - 1, config.window), config.Eps(c))
  {
    hide Within, Readings, Reading.AtMost, Config.HasEnoughMonitorData, Config.IsCheckBatch;
    ReadingsWindow(h, c, |h| - 1, config.window);
    assert Window(h, |h| - 1, config.window) == h[|h| - config.window..];
  }

  lemma LastIsStable(config: Config, h: seq<Metrics>)
    requires config.Valid() && config.checkEvery == 1 && StableRun(config, h) > 0
    ensures h != [] && VerdictOf(config, h) == Stable
    ensures StableRun(config, h[..|h| - 1]) == StableRun(config, h) - 1
  {
    if |h| < config.window {
      NoRunBeforeAWindow(config, h);
    }
    hide Settled;
  }

  /** When every batch is checked, a counter of p means that the last p observations met their FPR limit
      with enough monitor data, and that all their windows are within eps. */
  lemma {:induction false} StableRunIsCalm(config: Config, h: seq<Metrics>, p: nat, c: Channel)
    requires config.Valid() && config.checkEvery == 1 && 0 < p <= StableRun(config, h)
    ensures config.window + p - 1 <= |h|
    ensures forall i :: |h| - p <= i < |h| ==>
              h[i].fpr.AtMost(h[i].target + config.fprMargin) && config.HasEnoughMonitorData(h[i])
    ensures Calm(Readings(h, c), config.window, p, config.Eps(c))
  {
    hide VerdictOf, StableRun, Within, Reading.AtMost, Config.HasEnoughMonitorData;
    LastIsStable(config, h);
    StableFacts(config, h, c);
    if p > 1 {
      var n := |h| - 1;
      StableRunIsCalm(config, h[..n], p - 1, c);
      var xs := Readings(h, c);
      forall i | |h| - p <= i < n ensures Within(Window(xs, i, config.window), config.Eps(c)) {
        assert Window(Readings(h[..n], c), i, config.window) == Window(xs, i, config.window);
      }
    }
  }

  // ---- how far apart calm readings can be ----

  /** Two positions that fit in one window fit in one of the calm ones. */
  lemma SharedWindow(xs: seq<Reading>, w: nat, p: nat, eps: real, a: nat, b: nat)
    requires 0 < w && 0 < p && w + p - 1 <= |xs| && Calm(xs, w, p, eps)
    requires |xs| - (w + p - 1) <= a <= b < |xs| && b - a <= w - 1
    ensures Close(xs, a, b, eps) && Close(xs, b, a, eps)
    ensures xs[a].Finite? ==> eps >= 0.0
  {
    var i := Max(b, |xs| - p);
    var window := Window(xs, i, w);
    WithinMeansPairwise(window, eps);
    var start := i + 1 - w;
    assert window[a - start] == xs[a] && window[b - start] == xs[b];
    assert Close(window, a - start, b - start, eps) && Close(window, a - start, a - start, eps);
  }

  /** A position between a and b sharing a window with each. */
  predicate Bridges(x: int, w: int, a: int, b: int) {
    a <= x <= b && x - a <= w - 1 && b - x <= w - 1
  }

  /** Two positions are bridged if one window holds both, or if a finite reading between them shares a
      window with each. */
  ghost predicate Bridged(xs: seq<Reading>, w: nat, a: nat, b: nat)
    requires a <= b < |xs|
  {
    b - a <= w - 1 || exists x :: Bridges(x, w, a, b) && xs[x].Finite?
  }

  lemma BridgedIsClose(xs: seq<Reading>, w: nat, p: nat, eps: real, a: nat, b: nat)
    requires 0 < w && 0 < p && w + p - 1 <= |xs| && Calm(xs, w, p, eps)
    requires |xs| - (w + p - 1) <= a <= b < |xs| && Bridged(xs, w, a, b)
    ensures Close(xs, a, b, 2.0 * eps)
  {
    hide Calm;
    if b - a <= w - 1 {
      SharedWindow(xs, w, p, eps, a, b);
    } else {
      var x: nat :| Bridges(x, w, a, b) && xs[x].Finite?;
      SharedWindow(xs, w, p, eps, a, x);
      SharedWindow(xs, w, p, eps, x, b);
    }
  }

  /** Finite at the same positions. */
  ghost predicate SamePattern(xs: seq<Reading>, ys: seq<Reading>) {
    |ys| == |xs| && forall i :: 0 <= i < |xs| ==> ys[i].Finite? == xs[i].Finite?
  }

  /** Calm readings that climb to 3 * eps between two positions nothing bridges. */
  function Stair(i: int, a: int, b: int, w: int, eps: real): real {
    if i <= a then 0.0
    else if i < b - w + 1 then eps
    else if i < b then 2.0 * eps
    else 3.0 * eps
  }

  function Staircase(xs: seq<Reading>, n: nat, a: nat, b: nat, w: nat, eps: real): (ys: seq<Reading>)
    requires n <= |xs|
    ensures |ys| == n
    ensures forall i :: 0 <= i < n ==> ys[i] == if xs[i].Finite? then Finite(Stair(i, a, b, w, eps)) else xs[i]
  {
    if n == 0 then []
    else
      Staircase(xs, n - 1, a, b, w, eps)
      + [if xs[n - 1].Finite? then Finite(Stair(n - 1, a, b, w, eps)) else xs[n - 1]]
  }

  lemma StairStep(i: int, j: int, w: int, a: int, b: int, eps: real)
    requires eps > 0.0 && w - 1 < b - a && i < j + w && j < i + w
    requires !Bridges(i, w, a, b) && !Bridges(j, w, a, b)
    ensures -eps <= Stair(i, a, b, w, eps) - Stair(j, a, b, w, eps) <= eps
  {
  }

  lemma StairClose(xs: seq<Reading>, w: nat, a: nat, b: nat, eps: real, i: nat, j: nat)
    requires eps > 0.0 && a <= b < |xs| && !Bridged(xs, w, a, b)
    requires i < |xs| && j < |xs| && i < j + w && j < i + w
    ensures Close(Staircase(xs, |xs|, a, b, w, eps), i, j, eps)
  {
    if xs[i].Finite? && xs[j].Finite? {
      StairStep(i, j, w, a, b, eps);
    }
    hide Stair;
  }

  lemma StairWindow(xs: seq<Reading>, w: nat, a: nat, b: nat, eps: real, i: nat)
    requires 0 < w && w - 1 <= i < |xs| && Within(Window(xs, i, w), eps) && eps > 0.0
    requires a <= b < |xs| && !Bridged(xs, w, a, b)
    ensures Within(Window(Staircase(xs, |xs|, a, b, w, eps), i, w), eps)
  {
    hide Stair, Bridged, Within;
    var ys := Staircase(xs, |xs|, a, b, w, eps);
    var before, after := Window(xs, i, w), Window(ys, i, w);
    WithinMeansPairwise(before, eps);
    WithinMeansPairwise(after, eps);
    var k :| 0 <= k < |before| && before[k].Finite?;
    assert after[k].Finite?;
    forall s, t | 0 <= s < |after| && 0 <= t < |after| ensures Close(after, s, t, eps) {
      StairClose(xs, w, a, b, eps, i + 1 - w + s, i + 1 - w + t);
    }
  }

  lemma StaircaseIsCalm(xs: seq<Reading>, w: nat, p: nat, eps: real, a: nat, b: nat)
    requires 0 < w && w + p - 1 <= |xs| && Calm(xs, w, p, eps) && eps > 0.0
    requires a <= b < |xs| && !Bridged(xs, w, a, b)
    ensures Calm(Staircase(xs, |xs|, a, b, w, eps), w, p, eps)
  {
    hide Stair, Bridged, Within;
    forall i | |xs| - p <= i < |xs| ensures Within(Window(Staircase(xs, |xs|, a, b, w, eps), i, w), eps) {
      StairWindow(xs, w, a, b, eps, i);
    }
  }

  /** The 2 * eps bound between two finite readings, exactly: it holds for all calm readings of a given
      pattern of finite positions if and only if the pattern bridges the two. */
  lemma TwoEpsIffBridged(xs: seq<Reading>, w: nat, p: nat, eps: real, a: nat, b: nat)
    requires 0 < w && 0 < p && w + p - 1 <= |xs| && Calm(xs, w, p, eps) && eps > 0.0
    requires |xs| - (w + p - 1) <= a <= b < |xs| && xs[a].Finite? && xs[b].Finite?
    ensures Bridged(xs, w, a, b)
            <==> forall ys :: SamePattern(xs, ys) && Calm(ys, w, p, eps) ==> Close(ys, a, b, 2.0 * eps)
  {
    if Bridged(xs, w, a, b) {
      forall ys | SamePattern(xs, ys) && Calm(ys, w, p, eps) ensures Close(ys, a, b, 2.0 * eps) {
        BridgedIsClose(ys, w, p, eps, a, b);
      }
    } else {
      StaircaseIsCalm(xs, w, p, eps, a, b);
      var ys := Staircase(xs, |xs|, a, b, w, eps);
      assert SamePattern(xs, ys) && !Close(ys, a, b, 2.0 * eps);
    }
  }

  // ---- what a stop means ----

  /** A stop with every batch checked: the last `patience` observations met their FPR limit, and each
      monitored reading moved by at most 2 * eps over the last window + patience - 1 observations between
      positions the finite readings bridge. */
  lemma ConvergenceBound(config: Config, h: seq<Metrics>, c: Channel, a: nat, b: nat)
    requires config.Valid() && config.checkEvery == 1 && Stops(config, h)
    ensures config.window + config.patience - 1 <= |h|
    ensures forall i :: |h| - config.patience <= i < |h| ==> h[i].fpr.AtMost(h[i].target + config.fprMargin)
    ensures |h| - (config.window + config.patience - 1) <= a <= b < |h| && Bridged(Readings(h, c), config.window, a, b)
            ==> Close(Readings(h, c), a, b, 2.0 * config.Eps(c))
  {
    hide Calm, Bridged, Close, StableRun;
    StableRunIsCalm(config, h, config.patience, c);
    if |h| - (config.window + config.patience - 1) <= a <= b < |h| && Bridged(Readings(h, c), config.window, a, b) {
      BridgedIsClose(Readings(h, c), config.window, config.patience, config.Eps(c), a, b);
    }
  }

  // ---- the exact condition, for the controller ----

  /** A history the controller takes in to its end and stops at. */
  ghost predicate StopsLast(config: Config, h: seq<Metrics>)
    requires config.Valid()
  {
    Stops(config, h) && Consumed(config, h) == |h|
  }

  lemma {:induction false} NoEarlierStop(config: Config, h: seq<Metrics>)
    requires config.Valid() && forall k :: 0 <= k < |h| ==> !Stops(config, h[..k])
    ensures Consumed(config, h) == |h|
  {
    hide Stops;
    if h != [] {
      var n := |h| - 1;
      assert forall k :: 0 <= k <= n ==> h[..n][..k] == h[..k];
      NoEarlierStop(config, h[..n]);
    }
  }

  ghost predicate StableAt(config: Config, h: seq<Metrics>, i: nat)
    requires config.Valid() && i < |h|
  {
    VerdictOf(config, h[..i + 1]) == Stable
  }

  /** The window ending at i is within eps on one channel. */
  ghost predicate CalmAt(config: Config, h: seq<Metrics>, c: Channel, i: int)
    requires config.Valid() && config.window - 1 <= i < |h|
  {
    Within(Window(Readings(h, c), i, config.window), config.Eps(c))
  }

  lemma WindowSettled(config: Config, h: seq<Metrics>, i: int)
    requires config.Valid() && config.window - 1 <= i < |h|
    requires CalmAt(config, h, Tpr, i) && CalmAt(config, h, Fpr, i) && CalmAt(config, h, Tau, i)
    ensures Settled(config, Window(h, i, config.window))
  {
    hide Within;
    ReadingsWindow(h, Tpr, i, config.window);
    ReadingsWindow(h, Fpr, i, config.window);
    ReadingsWindow(h, Tau, i, config.window);
  }

  lemma EveryBatchIsChecked(config: Config, m: Metrics)
    requires config.checkEvery == 1
    ensures config.IsCheckBatch(m)
  {
  }

  lemma StableWhen(config: Config, h: seq<Metrics>, i: nat)
    requires config.Valid() && config.checkEvery == 1 && config.window - 1 <= i < |h|
    requires config.HasEnoughMonitorData(h[i]) && h[i].fpr.AtMost(h[i].target + config.fprMargin)
    requires Settled(config, Window(h, i, config.window))
    ensures StableAt(config, h, i)
  {
    hide Settled, Config.IsCheckBatch, Config.HasEnoughMonitorData, Reading.AtMost;
    EveryBatchIsChecked(config, h[i]);
    assert h[..i + 1][i] == h[i];
    assert h[..i + 1][i + 1 - config.window..] == Window(h, i, config.window);
  }

  /** A history of too little monitor data followed by p stable observations: its counter, prefix by prefix. */
  lemma {:induction false} LateRun(config: Config, h: seq<Metrics>, p: nat, k: nat)
    requires config.Valid() && config.checkEvery == 1 && p <= |h| && k <= |h|
    requires forall i :: 0 <= i < |h| - p ==> !config.HasEnoughMonitorData(h[i])
    requires forall i: nat :: |h| - p <= i < |h| ==> StableAt(config, h, i)
    ensures StableRun(config, h[..k]) == Max(0, k - (|h| - p))
  {
    hide Settled, Config.IsCheckBatch, Config.HasEnoughMonitorData;
    if k > 0 {
      LateRun(config, h, p, k - 1);
      EveryBatchIsChecked(config, h[k - 1]);
      assert h[..k][..k - 1] == h[..k - 1] && h[..k][k - 1] == h[k - 1];
      if k - 1 >= |h| - p {
        assert StableAt(config, h, k - 1);
      }
    }
  }

  /** The observation with another reading on one channel, and with too little monitor data unless kept. */
  function Remade(config: Config, c: Channel, m: Metrics, y: Reading, top: real, kept: bool): Metrics {
    var changed := match c
                   case Tpr => m.(tpr := y)
                   case Fpr => m.(fpr := y, target := top - config.fprMargin)
                   case Tau => m.(threshold := y);
    if kept then changed else changed.(h0Count := Some(config.minH0 - 1))
  }

  function Remake(config: Config, c: Channel, h: seq<Metrics>, ys: seq<Reading>, top: real, from: int, n: nat)
    : (r: seq<Metrics>)
    requires n <= |h| == |ys|
    ensures |r| == n && forall i :: 0 <= i < n ==> r[i] == Remade(config, c, h[i], ys[i], top, i >= from)
  {
    if n == 0 then []
    else Remake(config, c, h, ys, top, from, n - 1) + [Remade(config, c, h[n - 1], ys[n - 1], top, n - 1 >= from)]
  }

  lemma RemadeReadings(config: Config, c: Channel, h: seq<Metrics>, ys: seq<Reading>, top: real, from: int, d: Channel)
    requires |h| == |ys|
    ensures Readings(Remake(config, c, h, ys, top, from, |h|), d) == if d == c then ys else Readings(h, d)
  {
    var h' := Remake(config, c, h, ys, top, from, |h|);
    forall i | 0 <= i < |h| ensures Readings(h', d)[i] == (if d == c then ys[i] else Readings(h, d)[i]) {
      assert h'[i] == Remade(config, c, h[i], ys[i], top, i >= from);
    }
  }

  lemma KeptObservation(config: Config, c: Channel, m: Metrics, y: Reading, top: real)
    requires config.HasEnoughMonitorData(m) && m.fpr.AtMost(m.target + config.fprMargin)
    requires if c.Of(m).Finite? then y.Finite? && y.v <= top else y == c.Of(m)
    ensures var m' := Remade(config, c, m, y, top, true);
            config.HasEnoughMonitorData(m') && m'.fpr.AtMost(m'.target + config.fprMargin)
  {
  }

  lemma DroppedObservation(config: Config, c: Channel, m: Metrics, y: Reading, top: real)
    ensures !config.HasEnoughMonitorData(Remade(config, c, m, y, top, false))
  {
  }

  /** Readings for one channel that fit a history: finite at the same positions, within `top`, otherwise the same. */
  ghost predicate Fits(c: Channel, h: seq<Metrics>, ys: seq<Reading>, top: real) {
    |ys| == |h|
    && forall i :: 0 <= i < |h| ==> if c.Of(h[i]).Finite? then ys[i].Finite? && ys[i].v <= top else ys[i] == c.Of(h[i])
  }

  lemma RemadeIsCalm(config: Config, h: seq<Metrics>, c: Channel, ys: seq<Reading>, top: real, from: int, d: Channel,
                     i: int)
    requires config.Valid() && |ys| == |h| && config.window - 1 <= i < |h|
    requires Within(Window(ys, i, config.window), config.Eps(c))
    requires Within(Window(Readings(h, d), i, config.window), config.Eps(d))
    ensures CalmAt(config, Remake(config, c, h, ys, top, from, |h|), d, i)
  {
    hide Within;
    RemadeReadings(config, c, h, ys, top, from, d);
  }

  /** One of the last observations stays stable. */
  lemma RemadeStable(config: Config, h: seq<Metrics>, c: Channel, ys: seq<Reading>, top: real, from: int, i: nat)
    requires config.Valid() && config.checkEvery == 1 && Fits(c, h, ys, top) && from <= i
    requires config.window - 1 <= i < |h| && Within(Window(ys, i, config.window), config.Eps(c))
    requires config.HasEnoughMonitorData(h[i]) && h[i].fpr.AtMost(h[i].target + config.fprMargin)
    requires forall d: Channel :: CalmAt(config, h, d, i)
    ensures StableAt(config, Remake(config, c, h, ys, top, from, |h|), i)
  {
    hide StableAt, Within, Config.HasEnoughMonitorData, Reading.AtMost, Readings;
    var h' := Remake(config, c, h, ys, top, from, |h|);
    assert h'[i] == Remade(config, c, h[i], ys[i], top, true);
    KeptObservation(config, c, h[i], ys[i], top);
    assert CalmAt(config, h, Tpr, i) && CalmAt(config, h, Fpr, i) && CalmAt(config, h, Tau, i);
    RemadeIsCalm(config, h, c, ys, top, from, Tpr, i);
    RemadeIsCalm(config, h, c, ys, top, from, Fpr, i);
    RemadeIsCalm(config, h, c, ys, top, from, Tau, i);
    hide CalmAt;
    WindowSettled(config, h', i);
    StableWhen(config, h', i);
  }

  lemma CalmAtLast(config: Config, h: seq<Metrics>, d: Channel, i: int)
    requires config.Valid() && config.checkEvery == 1 && Stops(config, h)
    ensures config.window + config.patience - 1 <= |h|
    ensures |h| - config.patience <= i < |h| ==>
              CalmAt(config, h, d, i) && h[i].fpr.AtMost(h[i].target + config.fprMargin)
              && config.HasEnoughMonitorData(h[i])
  {
    hide StableRun, Within, Config.HasEnoughMonitorData, Reading.AtMost;
    StableRunIsCalm(config, h, config.patience, d);
  }

  lemma FitsLength(c: Channel, h: seq<Metrics>, ys: seq<Reading>, top: real)
    requires Fits(c, h, ys, top)
    ensures |ys| == |h|
  {
  }

  lemma StopsAtTheEnd(config: Config, h: seq<Metrics>)
    requires config.Valid() && config.checkEvery == 1 && config.patience <= |h|
    requires forall i :: 0 <= i < |h| - config.patience ==> !config.HasEnoughMonitorData(h[i])
    requires forall i: nat :: |h| - config.patience <= i < |h| ==> StableAt(config, h, i)
    ensures StopsLast(config, h)
  {
    hide StableRun, StableAt, Consumed, Config.HasEnoughMonitorData;
    forall k | 0 <= k <= |h| ensures Stops(config, h[..k]) <==> k == |h| {
      LateRun(config, h, config.patience, k);
    }
    assert h[..|h|] == h;
    NoEarlierStop(config, h);
  }

  /** Putting calm readings that fit on one channel of a stopping history gives a history that the controller
      stops at, at the same length. */
  lemma RemadeStops(config: Config, h: seq<Metrics>, c: Channel, ys: seq<Reading>, top: real)
    requires config.Valid() && config.checkEvery == 1 && Stops(config, h) && Fits(c, h, ys, top)
    requires config.window + config.patience - 1 <= |h| && Calm(ys, config.window, config.patience, config.Eps(c))
    ensures StopsLast(config, Remake(config, c, h, ys, top, |h| - config.patience, |h|))
  {
    hide StableRun, StableAt, Within, Consumed, Config.HasEnoughMonitorData, Reading.AtMost, CalmAt, Fits;
    var n, p := |h|, config.patience;
    FitsLength(c, h, ys, top);
    var h' := Remake(config, c, h, ys, top, n - p, n);
    forall i: nat | n - p <= i < n ensures StableAt(config, h', i) {
      forall d: Channel ensures CalmAt(config, h, d, i) {
        CalmAtLast(config, h, d, i);
      }
      CalmAtLast(config, h, c, i);
      RemadeStable(config, h, c, ys, top, n - p, i);
    }
    forall i | 0 <= i < n - p ensures !config.HasEnoughMonitorData(h'[i]) {
      assert h'[i] == Remade(config, c, h[i], ys[i], top, false);
      DroppedObservation(config, c, h[i], ys[i], top);
    }
    StopsAtTheEnd(config, h');
  }

  lemma BridgedBySamePattern(xs: seq<Reading>, ys: seq<Reading>, w: nat, a: nat, b: nat)
    requires SamePattern(xs, ys) && a <= b < |xs|
    ensures Bridged(xs, w, a, b) <==> Bridged(ys, w, a, b)
  {
    assert forall x :: 0 <= x < |xs| ==> ys[x].Finite? == xs[x].Finite?;
  }

  lemma StairEnds(config: Config, h: seq<Metrics>, c: Channel, a: nat, b: nat)
    requires config.Valid() && config.Eps(c) > 0.0 && a <= b < |h|
    requires Readings(h, c)[a].Finite? && Readings(h, c)[b].Finite? && !Bridged(Readings(h, c), config.window, a, b)
    ensures var ys := Staircase(Readings(h, c), |h|, a, b, config.window, config.Eps(c));
            Fits(c, h, ys, 3.0 * config.Eps(c)) && !Close(ys, a, b, 2.0 * config.Eps(c))
            && SamePattern(Readings(h, c), ys)
  {
  }

  lemma StopIsCalm(config: Config, h: seq<Metrics>, c: Channel)
    requires config.Valid() && config.checkEvery == 1 && Stops(config, h)
    ensures config.window + config.patience - 1 <= |h|
    ensures Calm(Readings(h, c), config.window, config.patience, config.Eps(c))
  {
    hide StableRun, Calm;
    StableRunIsCalm(config, h, config.patience, c);
  }

  /** A stopping history with these readings on one channel. */
  lemma RemadeHistory(config: Config, h: seq<Metrics>, c: Channel, ys: seq<Reading>, top: real)
    returns (h': seq<Metrics>)
    requires config.Valid() && config.checkEvery == 1 && Stops(config, h) && Fits(c, h, ys, top)
    requires config.window + config.patience - 1 <= |h| && Calm(ys, config.window, config.patience, config.Eps(c))
    ensures StopsLast(config, h') && Readings(h', c) == ys
  {
    hide Stops, StopsLast, Calm, Fits, Readings, Remake;
    FitsLength(c, h, ys, top);
    h' := Remake(config, c, h, ys, top, |h| - config.patience, |h|);
    RemadeStops(config, h, c, ys, top);
    RemadeReadings(config, c, h, ys, top, |h| - config.patience, c);
  }

  /** Where nothing bridges two readings of a stopping history, calm readings fit it that are 3 * eps apart. */
  lemma UnbridgedReadings(config: Config, h: seq<Metrics>, c: Channel, a: nat, b: nat) returns (ys: seq<Reading>)
    requires config.Valid() && config.checkEvery == 1 && Stops(config, h) && config.Eps(c) > 0.0
    requires |h| - (config.window + config.patience - 1) <= a <= b < |h|
    requires Readings(h, c)[a].Finite? && Readings(h, c)[b].Finite? && !Bridged(Readings(h, c), config.window, a, b)
    ensures config.window + config.patience - 1 <= |h| == |ys|
    ensures Calm(ys, config.window, config.patience, config.Eps(c)) && Fits(c, h, ys, 3.0 * config.Eps(c))
    ensures SamePattern(Readings(h, c), ys) && !Close(ys, a, b, 2.0 * config.Eps(c))
  {
    hide Close, Calm, Stops, Bridged, Fits, SamePattern;
    StopIsCalm(config, h, c);
    StaircaseIsCalm(Readings(h, c), config.window, config.patience, config.Eps(c), a, b);
    StairEnds(config, h, c, a, b);
    ys := Staircase(Readings(h, c), |h|, a, b, config.window, config.Eps(c));
  }

  /** Then the controller also stops at a history that has the two 3 * eps apart. */
  lemma UnbridgedStop(config: Config, h: seq<Metrics>, c: Channel, a: nat, b: nat) returns (h': seq<Metrics>)
    requires config.Valid() && config.checkEvery == 1 && Stops(config, h) && config.Eps(c) > 0.0
    requires |h| - (config.window + config.patience - 1) <= a <= b < |h|
    requires Readings(h, c)[a].Finite? && Readings(h, c)[b].Finite? && !Bridged(Readings(h, c), config.window, a, b)
    ensures StopsLast(config, h') && SamePattern(Readings(h, c), Readings(h', c))
    ensures |h'| == |h| && !Close(Readings(h', c), a, b, 2.0 * config.Eps(c))
  {
    hide Close, Calm, Stops, StopsLast, Bridged, Fits, SamePattern;
    var ys := UnbridgedReadings(config, h, c, a, b);
    h' := RemadeHistory(config, h, c, ys, 3.0 * config.Eps(c));
    assert |Readings(h', c)| == |h'|;
  }

  /** The 2 * eps bound of the controller, exactly. Take a history it stops at, with every batch checked, and
      two finite readings of a channel among the last window + patience - 1. Over all histories it stops at
      whose readings are finite at the same positions, the two are within 2 * eps if and only if the finite
      readings bridge them. */
  lemma StopTwoEpsIffBridged(config: Config, h: seq<Metrics>, c: Channel, a: nat, b: nat)
    requires config.Valid() && config.checkEvery == 1 && StopsLast(config, h) && config.Eps(c) > 0.0
    requires |h| - (config.window + config.patience - 1) <= a <= b < |h|
    requires Readings(h, c)[a].Finite? && Readings(h, c)[b].Finite?
    ensures Bridged(Readings(h, c), config.window, a, b)
            <==> forall h' :: StopsLast(config, h') && SamePattern(Readings(h, c), Readings(h', c))
                              ==> Close(Readings(h', c), a, b, 2.0 * config.Eps(c))
  {
    hide Close, Consumed, StableRun, Bridged;
    var xs := Readings(h, c);
    if Bridged(xs, config.window, a, b) {
      forall h' | StopsLast(config, h') && SamePattern(xs, Readings(h', c))
        ensures Close(Readings(h', c), a, b, 2.0 * config.Eps(c))
      {
        BridgedBySamePattern(xs, Readings(h', c), config.window, a, b);
        ConvergenceBound(config, h', c, a, b);
      }
    } else {
      var h' := UnbridgedStop(config, h, c, a, b);
    }
  }

  /** With patience <= window, one finite reading in the part that all the last windows share bridges every
      two positions of the last window + patience - 1. */
  lemma CommonReadingBridges(xs: seq<Reading>, w: nat, p: nat, a: nat, b: nat)
    requires 0 < p <= w && w + p - 1 <= |xs|
    requires exists x :: |xs| - w <= x <= |xs| - p && xs[x].Finite?
    requires |xs| - (w + p - 1) <= a <= b < |xs|
    ensures Bridged(xs, w, a, b)
  {
    if b - a > w - 1 {
      var x :| |xs| - w <= x <= |xs| - p && xs[x].Finite?;
      assert Bridges(x, w, a, b);
    }
  }

  lemma StopsAtThree(config: Config, x: Metrics, y: Metrics, z: Metrics)
    requires config.Valid() && config.checkEvery == 1 && config.window == 2 && config.patience == 2
    requires forall m :: m in [y, z] ==> config.HasEnoughMonitorData(m) && m.fpr.AtMost(m.target + config.fprMargin)
    requires Settled(config, [x, y]) && Settled(config, [y, z])
    ensures Stops(config, [x, y, z])
  {
    hide Settled;
    var h := [x, y, z];
    assert h[..2] == [x, y] && h[1..] == [y, z] && h[..2][0..] == [x, y];
    assert z in [y, z] && y in [y, z];
    assert VerdictOf(config, h) == Stable && VerdictOf(config, h[..2]) == Stable;
    assert StableRun(config, h) == StableRun(config, h[..2]) + 1;
  }

  function Reported(threshold: Reading): Metrics {
    Metrics(1, Finite(0.5), Finite(0.0), threshold, 0.1, None, None)
  }

  lemma PairWithin(x: Reading, y: Reading)
    requires (x == y && x.Finite?) || x.Finite? != y.Finite?
    ensures Within([x, y], 1.0)
  {
    WithinMeansPairwise([x, y], 1.0);
    assert [x, y][0].Finite? || [x, y][1].Finite?;
  }

  lemma PairReadings(m: Metrics, n: Metrics, c: Channel)
    ensures Readings([m, n], c) == [c.Of(m), c.Of(n)]
  {
  }

  lemma SettledPair(config: Config, m: Metrics, n: Metrics)
    requires config.epsTpr == config.epsFpr == config.epsTau == 1.0
    requires m == Reported(m.threshold) && n == Reported(n.threshold)
    requires m.threshold.Finite? != n.threshold.Finite?
    ensures Settled(config, [m, n])
  {
    hide Within, Readings;
    PairReadings(m, n, Tpr);
    PairReadings(m, n, Fpr);
    PairReadings(m, n, Tau);
    PairWithin(m.tpr, n.tpr);
    PairWithin(m.fpr, n.fpr);
    PairWithin(m.threshold, n.threshold);
  }

  /** Without such a reading the bound fails: window 2, patience 2, a NaN threshold between 0 and 5. */
  lemma StopsFarApart()
    ensures var config := Config(1, 2, 2, 1.0, 1.0, 1.0, 0.0, 0, 0);
            var h := [Reported(Finite(0.0)), Reported(NaN), Reported(Finite(5.0))];
            Stops(config, h) && !Close(Readings(h, Tau), 0, 2, 2.0 * config.epsTau)
  {
    var config := Config(1, 2, 2, 1.0, 1.0, 1.0, 0.0, 0, 0);
    var h := [Reported(Finite(0.0)), Reported(NaN), Reported(Finite(5.0))];
    hide Stops, Settled;
    SettledPair(config, h[0], h[1]);
    SettledPair(config, h[1], h[2]);
    StopsAtThree(config, h[0], h[1], h[2]);
  }
}
