/** How far monitored readings can drift before a converged stop, for any check interval
    (src/mlcache/online/stopping.py:56-114), when the batches are numbered from one as the system does
    (src/mlcache/system.py:436-448): position i holds batch i + 1. */
module StoppingDrift {
  import opened Scores
  import opened Stopping
  import opened StoppingBounds
  import opened IntegerArithmetic

  // ---- check positions ----

  predicate IsCheck(i: int, every: nat)
    requires every > 0
  {
    (i + 1) % every == 0
  }

  /** Checks are the multiples of the interval. */
  lemma CheckIs(i: int, every: nat, q: int)
    requires every > 0 && i + 1 == every * q
    ensures IsCheck(i, every)
  {
    RemainderIs(i + 1, every, q, 0);
  }

  lemma CheckQuotient(i: int, every: nat) returns (q: int)
    requires every > 0 && IsCheck(i, every)
    ensures i + 1 == every * q
  {
    q := (i + 1) / every;
  }

  lemma ChecksApart(i: int, j: int, every: nat)
    requires every > 0 && IsCheck(i, every) && IsCheck(j, every) && i < j
    ensures i + every <= j
  {
    hide IsCheck;
    var q := CheckQuotient(i, every);
    var r := CheckQuotient(j, every);
    var d := r - q;
    assert every * d == j - i;
    PositiveFactor(every, d, every * d);
    ProductAtLeast(every, d, every * d);
  }

  /** The last check position up to x. */
  function LastCheck(x: nat, every: nat): int
    requires every > 0
  {
    (x + 1) / every * every - 1
  }

  lemma LastCheckIs(x: nat, every: nat)
    requires every > 0
    ensures IsCheck(LastCheck(x, every), every)
    ensures LastCheck(x, every) <= x < LastCheck(x, every) + every
  {
    var q := (x + 1) / every;
    assert q * every == every * q;
    assert x + 1 == every * q + (x + 1) % every;
    CheckIs(LastCheck(x, every), every, q);
    hide IsCheck;
  }

  // ---- how far a chain of windows reaches ----

  /** The last of n positions that shares a checked window of w with x. */
  function Next(n: nat, w: nat, every: nat, x: nat): nat
    requires every > 0 && w > 0
  {
    Max(x, Min(n - 1, LastCheck(x + w - 1, every)))
  }

  /** How far `hops` windows, each overlapping the next, reach from a. */
  function Reach(n: nat, w: nat, every: nat, a: nat, hops: nat): nat
    requires every > 0 && w > 0
  {
    if hops == 0 then a else Next(n, w, every, Reach(n, w, every, a, hops - 1))
  }

  /** The checks of a history of n observations start at or before position `from` and end with the last one. */
  predicate CheckedFrom(n: nat, w: nat, every: nat, from: nat) {
    every > 0 && w > 0 && w - 1 <= from < n && IsCheck(from, every) && IsCheck(n - 1, every)
  }

  lemma NextIs(n: nat, w: nat, every: nat, from: nat, x: nat)
    requires CheckedFrom(n, w, every, from) && from + 1 - w <= x < n
    ensures x <= Next(n, w, every, x) < n
    ensures Next(n, w, every, x) > x ==>
              IsCheck(Next(n, w, every, x), every) && from <= Next(n, w, every, x) <= x + w - 1
    ensures forall j :: IsCheck(j, every) && j < n && j <= x + w - 1 ==> j <= Next(n, w, every, x)
  {
    hide IsCheck, LastCheck;
    LastCheckIs(x + w - 1, every);
    var last := LastCheck(x + w - 1, every);
    forall j | IsCheck(j, every) && j <= x + w - 1 ensures j <= last {
      if last < j {
        ChecksApart(last, j, every);
      }
    }
  }

  lemma {:induction false} ReachIs(n: nat, w: nat, every: nat, from: nat, a: nat, hops: nat)
    requires CheckedFrom(n, w, every, from) && from + 1 - w <= a < n
    ensures a <= Reach(n, w, every, a, hops) < n
  {
    assert every > 0 && w > 0;
    hide CheckedFrom, Next;
    if hops > 0 {
      ReachIs(n, w, every, from, a, hops - 1);
      NextIs(n, w, every, from, Reach(n, w, every, a, hops - 1));
    }
  }

  // ---- drift ----

  /** Every checked window from position `from` on is within eps. */
  ghost predicate CalmChecks(xs: seq<Reading>, w: nat, every: nat, from: nat, eps: real)
    requires CheckedFrom(|xs|, w, every, from)
  {
    forall i :: from <= i < |xs| && IsCheck(i, every) ==> Within(Window(xs, i, w), eps)
  }

  ghost predicate FiniteBetween(xs: seq<Reading>, a: nat, b: nat)
    requires b < |xs|
  {
    forall i :: a <= i <= b ==> xs[i].Finite?
  }

  lemma CalmPair(xs: seq<Reading>, w: nat, every: nat, from: nat, eps: real, i: nat, a: nat, b: nat)
    requires CheckedFrom(|xs|, w, every, from) && CalmChecks(xs, w, every, from, eps)
    requires from <= i < |xs| && IsCheck(i, every) && i + 1 - w <= a <= i && i + 1 - w <= b <= i
    ensures Close(xs, a, b, eps) && eps >= 0.0
  {
    hide IsCheck;
    var window := Window(xs, i, w);
    WithinMeansPairwise(window, eps);
    var k :| 0 <= k < |window| && window[k].Finite?;
    assert Close(window, k, k, eps);
    var start := i + 1 - w;
    assert Close(window, a - start, b - start, eps);
  }

  function Rung(level: nat, eps: real): real { level as real * eps }

  lemma RungStep(level: nat, eps: real)
    ensures Rung(level + 1, eps) == Rung(level, eps) + eps
    ensures Rung(0, eps) == 0.0
  {
  }

  lemma {:induction false} RungGrows(low: nat, high: nat, eps: real)
    requires low <= high && eps >= 0.0
    ensures Rung(low, eps) <= Rung(high, eps)
    ensures low < high ==> Rung(low, eps) + eps <= Rung(high, eps)
    decreases high
  {
    hide Rung;
    if low < high {
      RungGrows(low, high - 1, eps);
      RungStep(high - 1, eps);
    }
  }

  /** Finite readings a chain of windows connects drift by at most eps per window. */
  lemma {:induction false} DriftBound(xs: seq<Reading>, w: nat, every: nat, from: nat, eps: real, a: nat, b: nat,
                                      hops: nat)
    requires CheckedFrom(|xs|, w, every, from) && CalmChecks(xs, w, every, from, eps)
    requires from + 1 - w <= a <= b < |xs| && FiniteBetween(xs, a, b) && b <= Reach(|xs|, w, every, a, hops)
    ensures Close(xs, a, b, Rung(hops, eps))
  {
    hide CalmChecks, Next, IsCheck, Rung;
    if hops == 0 {
      RungStep(0, eps);
    } else {
      var x := Reach(|xs|, w, every, a, hops - 1);
      ReachIs(|xs|, w, every, from, a, hops - 1);
      RungStep(hops - 1, eps);
      CalmPair(xs, w, every, from, eps, from, from, from);
      if b <= x {
        DriftBound(xs, w, every, from, eps, a, b, hops - 1);
      } else {
        DriftBound(xs, w, every, from, eps, a, x, hops - 1);
        NextIs(|xs|, w, every, from, x);
        CalmPair(xs, w, every, from, eps, Next(|xs|, w, every, x), x, b);
      }
    }
  }

  // ---- and no less ----

  /** The least number of hops, up to `most`, that reach i from a; most + 1 if none do. */
  function Level(n: nat, w: nat, every: nat, a: nat, most: nat, i: nat): nat
    requires every > 0 && w > 0
  {
    if i > Reach(n, w, every, a, most) then most + 1
    else if most == 0 then 0
    else Level(n, w, every, a, most - 1, i)
  }

  lemma {:induction false} ReachGrows(n: nat, w: nat, every: nat, a: nat, j: nat, k: nat)
    requires every > 0 && w > 0 && j <= k
    ensures Reach(n, w, every, a, j) <= Reach(n, w, every, a, k)
    decreases k
  {
    hide LastCheck;
    if j < k {
      ReachGrows(n, w, every, a, j, k - 1);
    }
  }

  lemma {:induction false} LevelIs(n: nat, w: nat, every: nat, a: nat, most: nat, i: nat)
    requires every > 0 && w > 0
    ensures var level := Level(n, w, every, a, most, i);
            && level <= most + 1
            && (level <= most ==> i <= Reach(n, w, every, a, level))
            && forall l: nat :: l < level ==> i > Reach(n, w, every, a, l)
  {
    hide Next;
    if i <= Reach(n, w, every, a, most) {
      if most > 0 {
        LevelIs(n, w, every, a, most - 1, i);
      }
    } else {
      forall l: nat | l < most + 1 ensures i > Reach(n, w, every, a, l) {
        ReachGrows(n, w, every, a, l, most);
      }
    }
  }

  lemma LevelsInWindow(n: nat, w: nat, every: nat, from: nat, a: nat, most: nat, j: nat, i: nat, i': nat)
    requires CheckedFrom(n, w, every, from) && from + 1 - w <= a < n
    requires from <= j < n && IsCheck(j, every) && j + 1 - w <= i <= j && j + 1 - w <= i' <= j
    ensures Level(n, w, every, a, most, i) <= Level(n, w, every, a, most, i') + 1
  {
    assert every > 0 && w > 0;
    hide CheckedFrom, Next, IsCheck, Level;
    var low, high := Level(n, w, every, a, most, i'), Level(n, w, every, a, most, i);
    LevelIs(n, w, every, a, most, i');
    LevelIs(n, w, every, a, most, i);
    if low < most {
      var x := Reach(n, w, every, a, low);
      assert i' <= x;
      ReachIs(n, w, every, from, a, low);
      NextIs(n, w, every, from, x);
      assert Reach(n, w, every, a, low + 1) == Next(n, w, every, x) >= j >= i;
    }
  }

  /** Readings that rise by eps wherever one more hop is needed. */
  function Ladder(n: nat, w: nat, every: nat, a: nat, most: nat, eps: real, k: nat): (xs: seq<Reading>)
    requires every > 0 && w > 0
    ensures |xs| == k && forall i :: 0 <= i < k ==> xs[i] == Finite(Rung(Level(n, w, every, a, most, i), eps))
  {
    if k == 0 then []
    else
      Ladder(n, w, every, a, most, eps, k - 1)
      + [Finite(Rung(Level(n, w, every, a, most, k - 1), eps))]
  }

  lemma RungsClose(x: nat, y: nat, eps: real)
    requires eps >= 0.0 && x <= y + 1 && y <= x + 1
    ensures -eps <= Rung(x, eps) - Rung(y, eps) <= eps
  {
    hide Rung;
    RungStep(x, eps);
    RungStep(y, eps);
  }

  lemma LadderIsCalm(n: nat, w: nat, every: nat, from: nat, a: nat, most: nat, eps: real)
    requires CheckedFrom(n, w, every, from) && from + 1 - w <= a < n && eps >= 0.0
    ensures CalmChecks(Ladder(n, w, every, a, most, eps, n), w, every, from, eps)
  {
    hide IsCheck, Rung, Level, Within;
    var xs := Ladder(n, w, every, a, most, eps, n);
    forall j | from <= j < n && IsCheck(j, every) ensures Within(Window(xs, j, w), eps) {
      var window := Window(xs, j, w);
      WithinMeansPairwise(window, eps);
      assert window[0].Finite?;
      forall s, t | 0 <= s < w && 0 <= t < w ensures Close(window, s, t, eps) {
        var i, i' := j + 1 - w + s, j + 1 - w + t;
        LevelsInWindow(n, w, every, from, a, most, j, i, i');
        LevelsInWindow(n, w, every, from, a, most, j, i', i);
        RungsClose(Level(n, w, every, a, most, i), Level(n, w, every, a, most, i'), eps);
      }
    }
  }

  /** Drift, exactly: readings at a and b are within hops * eps of each other, for all readings that are
      finite between them and have calm checks, if and only if so many windows reach from a to b. */
  lemma DriftIffReached(n: nat, w: nat, every: nat, from: nat, eps: real, a: nat, b: nat, hops: nat)
    requires CheckedFrom(n, w, every, from) && from + 1 - w <= a <= b < n && eps > 0.0
    ensures b <= Reach(n, w, every, a, hops)
            <==> forall xs :: |xs| == n && FiniteBetween(xs, a, b) && CalmChecks(xs, w, every, from, eps)
                              ==> Close(xs, a, b, Rung(hops, eps))
  {
    hide CalmChecks, IsCheck, Rung, Level, Next;
    if b <= Reach(n, w, every, a, hops) {
      forall xs | |xs| == n && FiniteBetween(xs, a, b) && CalmChecks(xs, w, every, from, eps)
        ensures Close(xs, a, b, Rung(hops, eps))
      {
        DriftBound(xs, w, every, from, eps, a, b, hops);
      }
    } else {
      var xs := Ladder(n, w, every, a, hops, eps, n);
      LadderIsCalm(n, w, every, from, a, hops, eps);
      LevelIs(n, w, every, a, hops, a);
      LevelIs(n, w, every, a, hops, b);
      RungStep(hops, eps);
      RungStep(0, eps);
      assert Reach(n, w, every, a, 0) == a;
      assert Level(n, w, every, a, hops, a) == 0;
      if Level(n, w, every, a, hops, b) <= hops {
        ReachGrows(n, w, every, a, Level(n, w, every, a, hops, b), hops);
      }
      assert Level(n, w, every, a, hops, b) == hops + 1;
      assert !Close(xs, a, b, Rung(hops, eps));
    }
  }

  // ---- how far that is ----

  /** Each hop covers at least w - every positions, until the end is reached. */
  lemma {:induction false} ReachByDistance(n: nat, w: nat, every: nat, from: nat, a: nat, hops: nat)
    requires CheckedFrom(n, w, every, from) && from + 1 - w <= a < n && every < w
    ensures Reach(n, w, every, a, hops) >= Min(n - 1, a + hops * (w - every))
  {
    if hops > 0 {
      var x, d := Reach(n, w, every, a, hops - 1), w - every;
      ReachByDistance(n, w, every, from, a, hops - 1);
      assert hops * d == (hops - 1) * d + d;
      LastCheckIs(x + w - 1, every);
      hide IsCheck, LastCheck;
    }
  }

  /** The k-th check position after `from`. */
  function CheckAfter(from: nat, every: nat, k: nat): nat { from + k * every }

  lemma ChecksFollow(from: nat, every: nat, k: nat)
    requires every > 0 && IsCheck(from, every)
    ensures IsCheck(CheckAfter(from, every, k), every)
    ensures CheckAfter(from, every, k + 1) == CheckAfter(from, every, k) + every
    ensures CheckAfter(from, every, 0) == from
  {
    hide IsCheck;
    var q := CheckQuotient(from, every);
    assert from + k * every + 1 == every * (q + k);
    CheckIs(CheckAfter(from, every, k), every, q + k);
  }

  /** The first hop reaches the first check, and each further hop the next one. */
  lemma {:induction false} ReachByChecks(n: nat, w: nat, every: nat, from: nat, a: nat, hops: nat)
    requires CheckedFrom(n, w, every, from) && from + 1 - w <= a < n && every < w
    ensures Reach(n, w, every, a, hops + 1) >= Min(n - 1, CheckAfter(from, every, hops))
  {
    var x := Reach(n, w, every, a, hops);
    hide IsCheck, LastCheck, Next, CheckAfter;
    ReachIs(n, w, every, from, a, hops);
    NextIs(n, w, every, from, x);
    ChecksFollow(from, every, hops);
    if hops > 0 {
      ReachByChecks(n, w, every, from, a, hops - 1);
      ChecksFollow(from, every, hops - 1);
    }
  }

  // ---- what a stop means ----

  /** Batches are numbered from one, without gaps. */
  ghost predicate Numbered(h: seq<Metrics>) {
    forall i :: 0 <= i < |h| ==> h[i].batchIndex == i + 1
  }

  /** Between checks the counter stands still. */
  lemma {:induction false} SkippedBack(config: Config, h: seq<Metrics>, j: nat, k: nat)
    requires config.Valid() && Numbered(h) && j <= k <= |h|
    requires forall i :: j <= i < k ==> !IsCheck(i, config.checkEvery)
    ensures StableRun(config, h[..k]) == StableRun(config, h[..j])
    decreases k
  {
    hide StableRun, VerdictOf;
    if j < k {
      SkippedBack(config, h, j, k - 1);
      assert h[..k][..k - 1] == h[..k - 1];
      RunStep(config, h[..k]);
      assert !IsCheck(k - 1, config.checkEvery);
    }
  }

  lemma LastIsCheckBatch(config: Config, h: seq<Metrics>)
    requires config.Valid() && Numbered(h) && h != []
    ensures config.IsCheckBatch(h[|h| - 1]) <==> IsCheck(|h| - 1, config.checkEvery)
  {
  }

  /** The check before the last one, and nothing checked between them. */
  lemma PreviousCheck(n: nat, every: nat)
    requires every > 0 && IsCheck(n - 1, every)
    ensures IsCheck(n - every - 1, every)
    ensures forall i :: n - every <= i < n - 1 ==> !IsCheck(i, every)
  {
    hide IsCheck;
    var q := CheckQuotient(n - 1, every);
    CheckIs(n - every - 1, every, q - 1);
    forall i | n - every <= i < n - 1 ensures !IsCheck(i, every) {
      if IsCheck(i, every) {
        ChecksApart(i, n - 1, every);
      }
    }
  }

  /** A stable check takes the counter back to the check before it. */
  lemma LastCheckIsStable(config: Config, h: seq<Metrics>)
    requires config.Valid() && Numbered(h) && h != [] && IsCheck(|h| - 1, config.checkEvery) && StableRun(config, h) > 0
    ensures VerdictOf(config, h) == Stable && config.checkEvery <= |h|
    ensures StableRun(config, h[..|h| - config.checkEvery]) == StableRun(config, h) - 1
  {
    hide StableRun, VerdictOf, IsCheck;
    var n, e := |h|, config.checkEvery;
    LastIsCheckBatch(config, h);
    RunStep(config, h);
    CheckIs(-1, e, 0);
    ChecksApart(-1, n - 1, e);
    PreviousCheck(n, e);
    SkippedBack(config, h, n - e, n - 1);
  }

  /** The observation at i met its FPR limit with enough monitor data. */
  ghost predicate MeetsLimits(config: Config, m: Metrics) {
    m.fpr.AtMost(m.target + config.fprMargin) && config.HasEnoughMonitorData(m)
  }

  lemma StableLast(config: Config, h: seq<Metrics>, c: Channel)
    requires config.Valid() && h != [] && VerdictOf(config, h) == Stable
    ensures |h| >= config.window && MeetsLimits(config, h[|h| - 1])
    ensures Within(Window(Readings(h, c), |h| - 1, config.window), config.Eps(c))
  {
    StableFacts(config, h, c);
  }

  /** One more check with a calm window. */
  lemma CalmGrows(xs: seq<Reading>, ys: seq<Reading>, w: nat, every: nat, from: nat, eps: real)
    requires CheckedFrom(|xs|, w, every, from) && CheckedFrom(|ys|, w, every, from)
    requires |ys| < |xs| && forall i :: 0 <= i < |ys| ==> ys[i] == xs[i]
    requires forall i :: |ys| <= i < |xs| - 1 ==> !IsCheck(i, every)
    requires CalmChecks(ys, w, every, from, eps) && Within(Window(xs, |xs| - 1, w), eps)
    ensures CalmChecks(xs, w, every, from, eps)
  {
    hide IsCheck, Within;
    forall i | from <= i < |xs| && IsCheck(i, every) ensures Within(Window(xs, i, w), eps) {
      if i < |ys| {
        assert Window(ys, i, w) == Window(xs, i, w);
      }
    }
  }

  lemma OneCalmCheck(xs: seq<Reading>, w: nat, every: nat, eps: real)
    requires xs != [] && CheckedFrom(|xs|, w, every, |xs| - 1) && Within(Window(xs, |xs| - 1, w), eps)
    ensures CalmChecks(xs, w, every, |xs| - 1, eps)
  {
  }

  /** What is known at the check before a stable one. */
  lemma FrontOfStable(config: Config, h: seq<Metrics>)
    requires config.Valid() && Numbered(h) && h != [] && IsCheck(|h| - 1, config.checkEvery) && StableRun(config, h) > 1
    ensures 0 < config.checkEvery < |h|
    ensures var front := h[..|h| - config.checkEvery];
            && Numbered(front) && IsCheck(|front| - 1, config.checkEvery)
            && StableRun(config, front) == StableRun(config, h) - 1
            && (forall i :: |front| <= i < |h| - 1 ==> !IsCheck(i, config.checkEvery))
  {
    hide VerdictOf, StableRun, IsCheck;
    LastCheckIsStable(config, h);
    PreviousCheck(|h|, config.checkEvery);
    NoRunBeforeAWindow(config, []);
    assert h[..|h| - config.checkEvery] != [];
  }

  /** A counter of p after a check means that the last p checks met their limits and found their windows
      within eps. */
  lemma {:induction false} StableChecksAreCalm(config: Config, h: seq<Metrics>, p: nat, c: Channel) returns (from: nat)
    requires config.Valid() && Numbered(h) && h != [] && IsCheck(|h| - 1, config.checkEvery)
    requires 0 < p <= StableRun(config, h)
    ensures CheckAfter(from, config.checkEvery, p - 1) == |h| - 1
    ensures CheckedFrom(|h|, config.window, config.checkEvery, from)
    ensures forall i :: from <= i < |h| && IsCheck(i, config.checkEvery) ==> MeetsLimits(config, h[i])
    ensures CalmChecks(Readings(h, c), config.window, config.checkEvery, from, config.Eps(c))
    decreases p
  {
    hide VerdictOf, StableRun, Within, MeetsLimits, IsCheck, CalmChecks, CheckAfter, Config.Eps, Readings;
    LastCheckIsStable(config, h);
    StableLast(config, h, c);
    if p == 1 {
      from := |h| - 1;
      ChecksFollow(from, config.checkEvery, 0);
      OneCalmCheck(Readings(h, c), config.window, config.checkEvery, config.Eps(c));
    } else {
      hide Numbered;
      FrontOfStable(config, h);
      var front := h[..|h| - config.checkEvery];
      from := StableChecksAreCalm(config, front, p - 1, c);
      ChecksFollow(from, config.checkEvery, p - 2);
      CalmGrows(Readings(h, c), Readings(front, c), config.window, config.checkEvery, from, config.Eps(c));
    }
  }

  /** The controller stops only at a check. */
  lemma StopsAtACheck(config: Config, h: seq<Metrics>)
    requires config.Valid() && Numbered(h) && StopsLast(config, h)
    ensures h != [] && IsCheck(|h| - 1, config.checkEvery)
  {
    NoRunBeforeAWindow(config, []);
    hide StableRun, VerdictOf, IsCheck;
    ConsumesUpToTheFirstStop(config, h);
    RunStep(config, h);
    LastIsCheckBatch(config, h);
  }

  /** The first of the checks a stop after n observations counts. */
  function FirstCheck(config: Config, n: int): int { n - 1 - (config.patience - 1) * config.checkEvery }

  /** Enough windows reach from a to b: by distance, or because there are no more than that. */
  predicate WindowsCover(config: Config, a: nat, b: nat, hops: nat) {
    config.checkEvery < config.window
    && (b - a <= hops * (config.window - config.checkEvery) || config.patience <= hops)
  }

  lemma CoverReaches(config: Config, n: nat, from: nat, a: nat, b: nat, hops: nat)
    requires config.Valid() && CheckedFrom(n, config.window, config.checkEvery, from)
    requires CheckAfter(from, config.checkEvery, config.patience - 1) == n - 1
    requires from + 1 - config.window <= a <= b < n && WindowsCover(config, a, b, hops)
    ensures b <= Reach(n, config.window, config.checkEvery, a, hops)
  {
    hide IsCheck, Reach, CheckAfter;
    if config.patience <= hops {
      ReachByChecks(n, config.window, config.checkEvery, from, a, config.patience - 1);
      ReachGrows(n, config.window, config.checkEvery, a, config.patience, hops);
    } else {
      ReachByDistance(n, config.window, config.checkEvery, from, a, hops);
    }
  }

  /** A stop, whatever the check interval: the last `patience` checks met their limits, and a channel with
      finite readings moved by at most eps per window needed to get from one observation to the other. Where
      successive windows overlap, `patience` of them cover the whole stretch. */
  lemma StopDrift(config: Config, h: seq<Metrics>, c: Channel, a: nat, b: nat, hops: nat)
    requires config.Valid() && Numbered(h) && StopsLast(config, h)
    ensures config.window - 1 <= FirstCheck(config, |h|) && IsCheck(|h| - 1, config.checkEvery)
    ensures forall i :: FirstCheck(config, |h|) <= i < |h| && IsCheck(i, config.checkEvery) ==>
              MeetsLimits(config, h[i])
    ensures FirstCheck(config, |h|) + 1 - config.window <= a <= b < |h| && FiniteBetween(Readings(h, c), a, b)
            && (b <= Reach(|h|, config.window, config.checkEvery, a, hops) || WindowsCover(config, a, b, hops))
            ==> Close(Readings(h, c), a, b, Rung(hops, config.Eps(c)))
  {
    hide StableRun, VerdictOf, IsCheck, MeetsLimits, CalmChecks, FiniteBetween, Close, Reach, WindowsCover, Rung;
    StopsAtACheck(config, h);
    var from := StableChecksAreCalm(config, h, config.patience, c);
    assert from == FirstCheck(config, |h|);
    hide CheckAfter, FirstCheck;
    if from + 1 - config.window <= a <= b < |h| && FiniteBetween(Readings(h, c), a, b) {
      if WindowsCover(config, a, b, hops) {
        CoverReaches(config, |h|, from, a, b, hops);
      }
      if b <= Reach(|h|, config.window, config.checkEvery, a, hops) {
        DriftBound(Readings(h, c), config.window, config.checkEvery, from, config.Eps(c), a, b, hops);
      }
    }
  }
}
