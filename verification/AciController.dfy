/** The global ACI admission-threshold controller (src/mlcache/adaptive/aci_controller.py). */
module AciController {
  import opened Scores
  import opened Thresholds
  import opened Wilson

  function Repeat<T>(x: T, n: nat): seq<T> {
    if n == 0 then [] else Repeat(x, n - 1) + [x]
  }

  lemma {:induction false} RepeatLength<T>(x: T, n: nat)
    ensures |Repeat(x, n)| == n
  {
    if n > 0 {
      RepeatLength(x, n - 1);
    }
  }

  datatype Settings = Settings(alphaTarget: real, gamma: real, alphaMin: real, alphaMax: real,
                               bufferSize: int, minBufferSize: int, tie: TieMode,
                               wilsonGate: bool, wilsonZ: real, wilsonWindow: int)
  {
    /** The checks of the constructor. */
    predicate Valid() {
      && 0.0 < alphaTarget < 1.0 && gamma > 0.0
      && 0.0 < alphaMin <= alphaTarget <= alphaMax < 1.0
      && bufferSize > 0 && minBufferSize > 0 && wilsonZ > 0.0 && wilsonWindow > 0
    }
  }

  /** The ACI step before gating and clipping. */
  function Nudge(alpha: real, gamma: real, target: real, err: real): real {
    alpha + gamma * (target - err)
  }

  function Clip(low: real, high: real, x: real): real {
    MinReal(high, MaxReal(low, x))
  }

  function CountTrue(flags: seq<bool>): nat {
    if flags == [] then 0 else CountTrue(flags[..|flags| - 1]) + if flags[|flags| - 1] then 1 else 0
  }

  /** There are outcomes, and the Wilson bound on their accepted fraction is at most the target. */
  predicate SafelyUnder(window: seq<bool>, z: real, target: real) {
    window != [] && UpperAtMost(CountTrue(window), |window|, z, target)
  }

  /** The controller's whole state as a value; it is also what `state_dict` saves. */
  datatype State = State(settings: Settings, fallback: Option<Score>, alpha: real, buffer: seq<Score>,
                         origin: seq<bool>, outcomes: seq<bool>, updateCount: nat, h0Seen: nat, blocked: nat)
  {
    ghost predicate Valid() {
      && settings.Valid()
      && settings.alphaMin <= alpha <= settings.alphaMax
      && |buffer| == |origin| <= settings.bufferSize
      && |outcomes| <= settings.wilsonWindow
      && blocked <= updateCount == h0Seen
    }

    predicate BufferReady() { |buffer| >= settings.minBufferSize }

    /** The threshold quantile of the buffer; absent until the buffer is large enough. */
    function Quantile(): Option<Score> {
      if BufferReady() then ThresholdFromSelectedH0Scores(buffer, alpha, settings.tie) else None
    }

    /** `threshold()`: the quantile when it is finite, else the fallback, else +inf. */
    function Threshold(): Score {
      if Quantile().Some? && IsFinite(Quantile().value) then Quantile().value
      else if fallback.Some? then fallback.value
      else POS_INF
    }

    predicate ShouldAccept(score: Score) {
      Accepts(Threshold(), settings.tie, score)
    }

    function Proposed(accepted: bool): real {
      Nudge(alpha, settings.gamma, settings.alphaTarget, if accepted then 1.0 else 0.0)
    }

    /** An H0 event enters the windows. */
    function Observed(score: Score, accepted: bool): State
      requires settings.wilsonWindow > 0 && settings.bufferSize > 0
    {
      this.(buffer := LastN(buffer + [score], settings.bufferSize),
            origin := LastN(origin + [true], settings.bufferSize),
            outcomes := LastN(outcomes + [accepted], settings.wilsonWindow),
            h0Seen := h0Seen + 1)
    }

    /** The Wilson gate holds back an upward move unless the bound on the observed outcomes is
        within the target. */
    predicate Blocks(accepted: bool) {
      settings.wilsonGate && Proposed(accepted) > alpha
      && !SafelyUnder(outcomes, settings.wilsonZ, settings.alphaTarget)
    }

    function Gated(accepted: bool): real {
      if Blocks(accepted) then alpha else Proposed(accepted)
    }

    /** Alpha moves once the event has been observed. */
    function Adjusted(accepted: bool): State {
      this.(alpha := Clip(settings.alphaMin, settings.alphaMax, Gated(accepted)),
            updateCount := updateCount + 1,
            blocked := blocked + if Blocks(accepted) then 1 else 0)
    }

    /** The state after one update; H1 and unknown labels change nothing. */
    function Updated(score: Score, truth: Label, accepted: bool): State
      requires settings.wilsonWindow > 0 && settings.bufferSize > 0
    {
      if truth != H0 then this else Observed(score, accepted).Adjusted(accepted)
    }

    function Seeded(scores: seq<Score>, newFallback: Option<Score>): State
      requires settings.bufferSize > 0
    {
      this.(buffer := LastN(buffer + scores, settings.bufferSize),
            origin := LastN(origin + Repeat(false, |scores|), settings.bufferSize),
            fallback := if newFallback.Some? then newFallback else fallback)
    }
  }

  lemma {:induction false} CountTrueBounded(flags: seq<bool>)
    ensures CountTrue(flags) <= |flags|
  {
    if flags != [] {
      CountTrueBounded(flags[..|flags| - 1]);
    }
  }

  /** The positions of the true flags. */
  ghost function Trues(flags: seq<bool>): set<int> {
    set i | 0 <= i < |flags| && flags[i]
  }

  lemma {:induction false} CountTrueIsCardinality(flags: seq<bool>)
    ensures CountTrue(flags) == |Trues(flags)|
  {
    if flags != [] {
      var n := |flags| - 1;
      CountTrueIsCardinality(flags[..n]);
      assert Trues(flags) == Trues(flags[..n]) + if flags[n] then {n} else {};
    }
  }

  /** The gate's test is the code's: there are outcomes, and the clamped Wilson bound does not exceed the target. */
  lemma SafelyUnderIsWilson(window: seq<bool>, z: real, root: real, target: real)
    requires window != [] && z > 0.0
    requires IsRoot(root, Radicand(Rate(CountTrue(window), |window|), |window| as real, z))
    ensures var upper := WilsonUpperBound(CountTrue(window), |window|, z, root);
            upper.Ok? && upper.value.Some? && (SafelyUnder(window, z, target) <==> upper.value.value <= target)
  {
    hide WilsonUpperBound, UpperAtMost, IsRoot;
    CountTrueBounded(window);
    BoundAtMost(CountTrue(window), |window|, z, root, target);
  }

  /** Labels that `update` refuses with a ValueError. */
  predicate Malformed(truth: Label) {
    truth.Some? && truth.value != 0 && truth.value != 1
  }

  lemma WellFormedLabels(truth: Label)
    ensures !Malformed(truth) <==> truth in {H0, H1, None}
  {
  }

  /** The threshold in force: the fallback, else +inf, while the buffer is short or its quantile is not finite;
      otherwise the quantile, under which the buffered scores accepted stay within alpha. */
  lemma ThresholdInForce(st: State)
    requires st.Valid()
    ensures var standIn := if st.fallback.Some? then st.fallback.value else POS_INF;
            if |st.buffer| < st.settings.minBufferSize then st.Threshold() == standIn
            else
              var quantile := ThresholdFromSelectedH0Scores(st.buffer, st.alpha, st.settings.tie).value;
              && st.Threshold() == (if IsFinite(quantile) then quantile else standIn)
              && (IsFinite(quantile) ==> AcceptCount(st.buffer, Some(st.Threshold()), st.settings.tie)
                                         <= AllowedAccepts(|st.buffer|, st.alpha))
  {
    if |st.buffer| >= st.settings.minBufferSize {
      ThresholdCut(st.buffer, st.alpha, st.settings.tie);
      BudgetIsKept(st.buffer, st.alpha, st.settings.tie);
      TopSaturation(st.buffer, st.alpha);
      hide AcceptCount, AllowedAccepts, IdealCut;
    }
  }

  /** Admission compares the score with the threshold in force, strictly under GT alone. */
  lemma AdmissionIs(st: State, score: Score)
    ensures st.ShouldAccept(score)
            <==> score > st.Threshold() || (score == st.Threshold() && st.settings.tie == GE)
  {
    hide State.Threshold;
  }

  /** A saved checkpoint: the entries that older checkpoints may lack are optional. */
  datatype StateDict = StateDict(alphaTarget: real, alpha: real, gamma: real, alphaMin: real, alphaMax: real,
                                 bufferSize: int, minBufferSize: int, fallback: Option<Score>, tie: TieMode,
                                 wilsonGate: Option<bool>, wilsonZ: Option<real>, wilsonWindow: Option<int>,
                                 buffer: Option<seq<Score>>, origin: Option<seq<bool>>, outcomes: Option<seq<bool>>,
                                 updateCount: Option<nat>, h0Seen: Option<nat>, blocked: Option<nat>)

  function Default<T>(entry: Option<T>, default: T): T {
    if entry.Some? then entry.value else default
  }

  function SettingsOf(d: StateDict): Settings {
    Settings(d.alphaTarget, d.gamma, d.alphaMin, d.alphaMax, d.bufferSize, d.minBufferSize, d.tie,
             Default(d.wilsonGate, false), Default(d.wilsonZ, 1.96), Default(d.wilsonWindow, 1000))
  }

  function Saved(st: State): StateDict {
    var s := st.settings;
    StateDict(s.alphaTarget, st.alpha, s.gamma, s.alphaMin, s.alphaMax, s.bufferSize, s.minBufferSize, st.fallback,
              s.tie, Some(s.wilsonGate), Some(s.wilsonZ), Some(s.wilsonWindow), Some(st.buffer), Some(st.origin),
              Some(st.outcomes), Some(st.updateCount), Some(st.h0Seen), Some(st.blocked))
  }

  function Loaded(d: StateDict): State
    requires d.bufferSize >= 0 && SettingsOf(d).wilsonWindow >= 0
  {
    var buffer := LastN(Default(d.buffer, []), d.bufferSize);
    State(SettingsOf(d), d.fallback, d.alpha, buffer,
          LastN(Default(d.origin, Repeat(false, |buffer|)), d.bufferSize),
          LastN(Default(d.outcomes, []), SettingsOf(d).wilsonWindow),
          Default(d.updateCount, 0), Default(d.h0Seen, 0), Default(d.blocked, 0))
  }

  /** Checkpoints: loading what was saved restores the state, whatever controller loads it, exactly
      when the deques respect their bounds - as they do in every valid state. */
  lemma CheckpointRoundTrip(st: State)
    requires st.settings.bufferSize >= 0 && st.settings.wilsonWindow >= 0
    ensures Loaded(Saved(st)) == st
            <==> |st.buffer| <= st.settings.bufferSize && |st.origin| <= st.settings.bufferSize
                 && |st.outcomes| <= st.settings.wilsonWindow
    ensures st.Valid() ==> Loaded(Saved(st)) == st
  {
  }

  /** What loading takes from a checkpoint: each entry for the field it is named after. */
  lemma LoadedIsNamed(d: StateDict)
    requires d.bufferSize >= 0 && (d.wilsonWindow.Some? ==> d.wilsonWindow.value >= 0)
    ensures SettingsOf(d).wilsonWindow >= 0
    ensures var st := Loaded(d);
            var s := st.settings;
            && s.alphaTarget == d.alphaTarget && s.gamma == d.gamma
            && s.alphaMin == d.alphaMin && s.alphaMax == d.alphaMax
            && s.bufferSize == d.bufferSize && s.minBufferSize == d.minBufferSize && s.tie == d.tie
            && st.alpha == d.alpha && st.fallback == d.fallback
            && (d.wilsonGate.Some? ==> s.wilsonGate == d.wilsonGate.value)
            && (d.wilsonZ.Some? ==> s.wilsonZ == d.wilsonZ.value)
            && (d.wilsonWindow.Some? ==> s.wilsonWindow == d.wilsonWindow.value)
            && (d.updateCount.Some? ==> st.updateCount == d.updateCount.value)
            && (d.h0Seen.Some? ==> st.h0Seen == d.h0Seen.value)
            && (d.blocked.Some? ==> st.blocked == d.blocked.value)
  {
  }

  /** Older checkpoints, without the origin flags or with none of the optional entries, load into a valid
      state whenever the saved settings and alpha are valid; every buffered score then counts as seeded. */
  lemma OldCheckpointsLoad(st: State)
    requires st.Valid()
    ensures Loaded(Saved(st).(origin := None)) == st.(origin := Repeat(false, |st.buffer|))
    ensures Loaded(Saved(st).(origin := None)).Valid()
    ensures var bare := Saved(st).(wilsonGate := None, wilsonZ := None, wilsonWindow := None, buffer := None,
                                   origin := None, outcomes := None, updateCount := None, h0Seen := None,
                                   blocked := None);
            Loaded(bare) == State(st.settings.(wilsonGate := false, wilsonZ := 1.96, wilsonWindow := 1000),
                                  st.fallback, st.alpha, [], [], [], 0, 0, 0)
            && Loaded(bare).Valid()
  {
    RepeatLength(false, |st.buffer|);
    RepeatLength(false, 0);
  }

  /** Every update keeps the state valid; in particular alpha stays in [alpha_min, alpha_max]. */
  lemma UpdatedIsValid(st: State, score: Score, truth: Label, accepted: bool)
    requires st.Valid()
    ensures st.Updated(score, truth, accepted).Valid()
  {
  }

  lemma {:induction false} RepeatIs<T>(x: T, n: nat)
    ensures |Repeat(x, n)| == n && forall i :: 0 <= i < n ==> Repeat(x, n)[i] == x
  {
    if n > 0 {
      RepeatIs(x, n - 1);
    }
  }

  /** Seeding keeps the latest entries of both deques: the last of the given scores, flagged as seeded, after the last
      of the old ones with their flags. A given fallback replaces the old one; nothing else changes. */
  lemma SeedingKeepsTheLatest(st: State, scores: seq<Score>, newFallback: Option<Score>)
    requires st.Valid()
    ensures var next := st.Seeded(scores, newFallback);
            var n, old' := |next.buffer|, |st.buffer|;
            && next.Valid() && n == Min(old' + |scores|, st.settings.bufferSize)
            && (forall i :: 0 <= i < n && i >= n - |scores| ==>
                  next.buffer[i] == scores[|scores| - n + i] && !next.origin[i])
            && (forall i :: 0 <= i < n - |scores| ==>
                  next.buffer[i] == st.buffer[old' + |scores| - n + i]
                  && next.origin[i] == st.origin[old' + |scores| - n + i])
            && next.fallback == (if newFallback.Some? then newFallback else st.fallback)
            && next == st.(buffer := next.buffer, origin := next.origin, fallback := next.fallback)
  {
    RepeatIs(false, |scores|);
    hide Repeat;
  }

  /** Seeding nothing leaves both deques as they are. */
  lemma SeedStart(buffer: seq<Score>, origin: seq<bool>, cap: nat)
    requires |buffer| <= cap && |origin| <= cap
    ensures LastN(buffer + [], cap) == buffer
    ensures LastN(origin + Repeat(false, 0), cap) == origin
  {
    assert buffer + [] == buffer && origin + [] == origin;
  }

  /** One more seeded score enters both deques. */
  lemma SeedStep(buffer: seq<Score>, origin: seq<bool>, scores: seq<Score>, i: nat, cap: nat)
    requires i < |scores|
    ensures LastN(LastN(buffer + scores[..i], cap) + [scores[i]], cap) == LastN(buffer + scores[..i + 1], cap)
    ensures LastN(LastN(origin + Repeat(false, i), cap) + [false], cap) == LastN(origin + Repeat(false, i + 1), cap)
  {
    LastNAppend(buffer + scores[..i], scores[i], cap);
    LastNAppend(origin + Repeat(false, i), false, cap);
    assert buffer + scores[..i + 1] == buffer + scores[..i] + [scores[i]];
    assert origin + Repeat(false, i + 1) == origin + Repeat(false, i) + [false];
  }

  lemma SeededLengths(st: State, scores: seq<Score>)
    requires st.Valid()
    ensures st.Seeded(scores, None).Valid()
    ensures |st.buffer| <= st.settings.bufferSize && |st.origin| <= st.settings.bufferSize
  {
    RepeatLength(false, |scores|);
  }

  class GlobalACIController {
    var settings: Settings
    var fallback: Option<Score>
    var alpha: real
    var buffer: seq<Score>
    var origin: seq<bool>
    var outcomes: seq<bool>
    var updateCount: nat
    var h0Seen: nat
    var blocked: nat

    function Abstract(): State
      reads this
    {
      State(settings, fallback, alpha, buffer, origin, outcomes, updateCount, h0Seen, blocked)
    }

    ghost predicate Valid()
      reads this
    {
      Abstract().Valid()
    }

    constructor (settings: Settings, fallback: Option<Score>)
      requires settings.Valid()
      ensures Valid()
      ensures Abstract() == State(settings, fallback, settings.alphaTarget, [], [], [], 0, 0, 0)
    {
      this.settings := settings;
      this.fallback := fallback;
      alpha := settings.alphaTarget;
      buffer, origin, outcomes := [], [], [];
      updateCount, h0Seen, blocked := 0, 0, 0;
    }

    method AppendSeeds(scores: seq<Score>)
      requires |buffer| <= settings.bufferSize && |origin| <= settings.bufferSize
      modifies `buffer, `origin
      ensures buffer == LastN(old(buffer) + scores, settings.bufferSize)
      ensures origin == LastN(old(origin) + Repeat(false, |scores|), settings.bufferSize)
    {
      ghost var buffer0, origin0 := buffer, origin;
      hide LastN, Repeat;
      SeedStart(buffer0, origin0, settings.bufferSize);
      assert scores[..0] == [];
      for i := 0 to |scores|
        invariant buffer == LastN(buffer0 + scores[..i], settings.bufferSize)
        invariant origin == LastN(origin0 + Repeat(false, i), settings.bufferSize)
      {
        SeedStep(buffer0, origin0, scores, i, settings.bufferSize);
        buffer := LastN(buffer + [scores[i]], settings.bufferSize);
        origin := LastN(origin + [false], settings.bufferSize);
      }
      assert scores[..|scores|] == scores;
    }

    method Seed(scores: seq<Score>, newFallback: Option<Score>)
      requires Valid()
      modifies this
      ensures Valid()
      ensures Abstract() == old(Abstract()).Seeded(scores, newFallback)
    {
      SeededLengths(Abstract(), scores);
      hide LastN, Repeat;
      AppendSeeds(scores);
      if newFallback.Some? {
        fallback := newFallback;
      }
    }

    method Threshold() returns (tau: Score)
      requires Valid()
      ensures tau == Abstract().Threshold()
    {
      if |buffer| < settings.minBufferSize {
        return if fallback.None? then POS_INF else fallback.value;
      }
      var quantile := ThresholdFromSelectedH0Scores(buffer, alpha, settings.tie);
      if quantile.None? || !IsFinite(quantile.value) {
        return if fallback.Some? then fallback.value else POS_INF;
      }
      tau := quantile.value;
    }

    method ShouldAccept(score: Score) returns (accepted: bool)
      requires Valid()
      ensures accepted == Abstract().ShouldAccept(score)
    {
      var tau := Threshold();
      accepted := if settings.tie == GT then score > tau else score >= tau;
    }

    /** Returns the message of the ValueError for a malformed label, leaving the state alone. */
    method Update(score: Score, truth: Label, accepted: bool) returns (error: Option<string>)
      requires Valid()
      modifies this
      ensures Valid()
      ensures error.Some? <==> Malformed(truth)
      ensures Abstract() == old(Abstract()).Updated(score, truth, accepted)
    {
      if truth.None? || truth == H1 {
        return None;
      }
      if truth != H0 {
        return Some("label must be 0, 1, or None");
      }
      UpdatedIsValid(Abstract(), score, truth, accepted);
      Observe(score, accepted);
      Adjust(accepted);
      error := None;
    }

    method Observe(score: Score, accepted: bool)
      requires settings.bufferSize > 0 && settings.wilsonWindow > 0
      modifies `h0Seen, `buffer, `origin, `outcomes
      ensures Abstract() == old(Abstract()).Observed(score, accepted)
    {
      h0Seen := h0Seen + 1;
      buffer := LastN(buffer + [score], settings.bufferSize);
      origin := LastN(origin + [true], settings.bufferSize);
      outcomes := LastN(outcomes + [accepted], settings.wilsonWindow);
    }

    method Adjust(accepted: bool)
      modifies `alpha, `updateCount, `blocked
      ensures Abstract() == old(Abstract()).Adjusted(accepted)
    {
      var err := if accepted then 1.0 else 0.0;
      var proposed := Nudge(alpha, settings.gamma, settings.alphaTarget, err);
      if settings.wilsonGate && proposed > alpha && !SafelyUnder(outcomes, settings.wilsonZ, settings.alphaTarget) {
        proposed := alpha;
        blocked := blocked + 1;
      }
      alpha := Clip(settings.alphaMin, settings.alphaMax, proposed);
      updateCount := updateCount + 1;
    }

    /** What is saved lacks no entry, and loading it brings a valid controller back to this state. */
    method SaveStateDict() returns (d: StateDict)
      ensures d == Saved(Abstract())
      ensures Valid() ==> d.bufferSize >= 0 && SettingsOf(d).wilsonWindow >= 0 && Loaded(d) == Abstract()
    {
      d := StateDict(settings.alphaTarget, alpha, settings.gamma, settings.alphaMin, settings.alphaMax,
                     settings.bufferSize, settings.minBufferSize, fallback, settings.tie, Some(settings.wilsonGate),
                     Some(settings.wilsonZ), Some(settings.wilsonWindow), Some(buffer), Some(origin), Some(outcomes),
                     Some(updateCount), Some(h0Seen), Some(blocked));
      if settings.bufferSize >= 0 && settings.wilsonWindow >= 0 {
        CheckpointRoundTrip(Abstract());
      }
    }

    /** Returns the message of the ValueError for a negative deque length; the counters are then not loaded. */
    method LoadStateDict(d: StateDict) returns (error: Option<string>)
      modifies this
      ensures error.Some? <==> d.bufferSize < 0 || SettingsOf(d).wilsonWindow < 0
      ensures error.None? ==> Abstract() == Loaded(d)
      ensures error.Some? ==> settings == SettingsOf(d) && alpha == d.alpha && fallback == d.fallback
                              && outcomes == old(outcomes) && updateCount == old(updateCount)
                              && h0Seen == old(h0Seen) && blocked == old(blocked)
    {
      hide LastN, Repeat;
      settings, alpha, fallback := SettingsOf(d), d.alpha, d.fallback;
      if settings.bufferSize < 0 {
        return Some("maxlen must be non-negative");
      }
      buffer := LastN(Default(d.buffer, []), settings.bufferSize);
      origin := LastN(if d.origin.None? then Repeat(false, |buffer|) else d.origin.value, settings.bufferSize);
      if settings.wilsonWindow < 0 {
        return Some("maxlen must be non-negative");
      }
      outcomes := LastN(Default(d.outcomes, []), settings.wilsonWindow);
      updateCount, h0Seen, blocked := Default(d.updateCount, 0), Default(d.h0Seen, 0), Default(d.blocked, 0);
      error := None;
    }
  }
}
