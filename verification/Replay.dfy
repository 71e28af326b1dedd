/** Offline replay of an admission method over a frozen stream (src/mlcache/adaptive/replay.py). */
module Replay {
  import opened Scores
  import opened AciController
  import opened AuditPolicy
  import opened Metrics

  datatype ScoredSelection = ScoredSelection(queryId: string, bestScore: Score, truth: Label)

  /** An admission method as a value. */
  datatype AdmissionState = FixedState(tau: Score, tie: TieMode) | AciState(controller: State) {

    ghost predicate Valid() { AciState? ==> controller.Valid() }

    function Threshold(): Score {
      match this
      case FixedState(tau, _) => tau
      case AciState(st) => st.Threshold()
    }

    predicate Decides(score: Score) {
      match this
      case FixedState(tau, tie) => Accepts(tau, tie, score)
      case AciState(st) => st.ShouldAccept(score)
    }

    /** The learning step: only control-audited events reach the controller. */
    function Learned(score: Score, truth: Label, accepted: bool, control: bool): AdmissionState
      requires Valid()
    {
      if AciState? && control then AciState(controller.Updated(score, truth, accepted)) else this
    }

    predicate Raises(truth: Label, control: bool) {
      AciState? && control && Malformed(truth)
    }

    /** The logged alpha; a fixed threshold logs NaN. */
    function LoggedAlpha(): Option<real> {
      if AciState? then Some(controller.alpha) else None
    }

    function Source(): ThresholdSource {
      if FixedState? then FixedSource else if controller.BufferReady() then Adaptive else Fallback
    }
  }

  lemma LearnedIsValid(a: AdmissionState, score: Score, truth: Label, accepted: bool, control: bool)
    requires a.Valid()
    ensures a.Learned(score, truth, accepted, control).Valid()
  {
    if a.AciState? && control {
      UpdatedIsValid(a.controller, score, truth, accepted);
    }
  }

  /** The audit side of a run: its configuration and tape of draws. */
  datatype Audits = Audits(config: Config, value: Score -> real, tape: nat -> real) {
    function At(cursor: nat, score: Score, tau: Score): AuditDecision {
      config.AuditAt(value, tape, cursor, score, tau)
    }
  }

  /** Decide, audit, and only then look at the label. */
  function NextState(a: AdmissionState, audits: Audits, cursor: nat, s: ScoredSelection): AdmissionState
    requires a.Valid()
  {
    var audit := audits.At(cursor, s.bestScore, a.Threshold());
    a.Learned(s.bestScore, s.truth, a.Decides(s.bestScore), audit.control)
  }

  /** The event logged for one selection; alpha and threshold source are read after learning. */
  function EventOf(a: AdmissionState, audits: Audits, cursor: nat, s: ScoredSelection, position: nat): AdmissionEvent
    requires a.Valid()
  {
    var tau := a.Threshold();
    var audit := audits.At(cursor, s.bestScore, tau);
    var after := NextState(a, audits, cursor, s);
    AdmissionEvent(position, s.queryId, s.bestScore, tau, after.LoggedAlpha(), a.Decides(s.bestScore), s.truth,
                   audit.Judged(), audit.control, audit.diagnostic, audit.pControl, audit.pDiagnostic, audit.zone,
                   after.Source())
  }

  predicate StepRaises(a: AdmissionState, audits: Audits, cursor: nat, s: ScoredSelection) {
    a.Raises(s.truth, audits.At(cursor, s.bestScore, a.Threshold()).control)
  }

  /** The state of the admission method before position i. */
  ghost function StateAt(a: AdmissionState, audits: Audits, cursor: nat, stream: seq<ScoredSelection>, i: nat)
    : (r: AdmissionState)
    requires a.Valid() && i <= |stream|
    ensures r.Valid()
  {
    if i == 0 then a
    else
      var before := StateAt(a, audits, cursor, stream, i - 1);
      var s := stream[i - 1];
      LearnedIsValid(before, s.bestScore, s.truth, before.Decides(s.bestScore),
                     audits.At(cursor + 2 * (i - 1), s.bestScore, before.Threshold()).control);
      NextState(before, audits, cursor + 2 * (i - 1), s)
  }

  /** The event at position i of a run that starts at `cursor` of the tape. */
  ghost function EventAt(a: AdmissionState, audits: Audits, cursor: nat, stream: seq<ScoredSelection>, i: nat)
    : AdmissionEvent
    requires a.Valid() && i < |stream|
  {
    EventOf(StateAt(a, audits, cursor, stream, i), audits, cursor + 2 * i, stream[i], i)
  }

  /** The run gets past position i without a ValueError. */
  ghost predicate Survives(a: AdmissionState, audits: Audits, cursor: nat, stream: seq<ScoredSelection>, i: nat)
    requires a.Valid() && i < |stream|
  {
    !StepRaises(StateAt(a, audits, cursor, stream, i), audits, cursor + 2 * i, stream[i])
  }

  /** The events are those of the run, position by position, and none of them raised. */
  ghost predicate Replayed(a: AdmissionState, audits: Audits, cursor: nat,
                           stream: seq<ScoredSelection>, events: seq<AdmissionEvent>)
    requires a.Valid()
  {
    |events| <= |stream|
    && forall i :: 0 <= i < |events| ==>
         Survives(a, audits, cursor, stream, i) && events[i] == EventAt(a, audits, cursor, stream, i)
  }

  lemma ReplayedAppend(a: AdmissionState, audits: Audits, start: nat, stream: seq<ScoredSelection>,
                       events: seq<AdmissionEvent>, before: AdmissionState, cursor: nat, e: AdmissionEvent)
    requires a.Valid() && |events| < |stream| && Replayed(a, audits, start, stream, events)
    requires before == StateAt(a, audits, start, stream, |events|) && cursor == start + 2 * |events|
    requires !StepRaises(before, audits, cursor, stream[|events|])
    requires e == EventOf(before, audits, cursor, stream[|events|], |events|)
    ensures Replayed(a, audits, start, stream, events + [e])
    ensures StateAt(a, audits, start, stream, |events| + 1) == NextState(before, audits, cursor, stream[|events|])
  {
    hide EventOf, StepRaises, NextState, AdmissionState.Valid;
  }

  lemma ReplayStart(a: AdmissionState, audits: Audits, start: nat, stream: seq<ScoredSelection>)
    requires a.Valid()
    ensures StateAt(a, audits, start, stream, 0) == a && Replayed(a, audits, start, stream, [])
  {
  }

  datatype Admission = FixedThresholdAdmission(tau: Score, tie: TieMode)
                     | GlobalACIAdmission(controller: GlobalACIController)

  ghost function Footprint(admission: Admission): set<object> {
    if admission.GlobalACIAdmission? then {admission.controller} else {}
  }

  function Abstract(admission: Admission): AdmissionState
    reads if admission.GlobalACIAdmission? then {admission.controller} else {}
  {
    match admission
    case FixedThresholdAdmission(tau, tie) => FixedState(tau, tie)
    case GlobalACIAdmission(controller) => AciState(controller.Abstract())
  }

  method ThresholdOf(admission: Admission) returns (tau: Score)
    requires Abstract(admission).Valid()
    ensures tau == Abstract(admission).Threshold()
  {
    match admission
    case FixedThresholdAdmission(t, _) => tau := t;
    case GlobalACIAdmission(controller) => tau := controller.Threshold();
  }

  method Decide(admission: Admission, score: Score) returns (accepted: bool)
    requires Abstract(admission).Valid()
    ensures accepted == Abstract(admission).Decides(score)
  {
    match admission
    case FixedThresholdAdmission(tau, tie) => accepted := if tie == GT then score > tau else score >= tau;
    case GlobalACIAdmission(controller) => accepted := controller.ShouldAccept(score);
  }

  method Learn(admission: Admission, score: Score, truth: Label, accepted: bool, control: bool)
    returns (error: Option<string>)
    requires Abstract(admission).Valid()
    modifies Footprint(admission)
    ensures Abstract(admission).Valid()
    ensures Abstract(admission) == old(Abstract(admission)).Learned(score, truth, accepted, control)
    ensures error.Some? <==> old(Abstract(admission)).Raises(truth, control)
  {
    error := None;
    if control && admission.GlobalACIAdmission? {
      error := admission.controller.Update(score, truth, accepted);
    }
  }

  class OfflineReplayRunner {
    const auditPolicy: MarginBandAuditPolicy
    const window: nat
    const snapshotEvery: int

    constructor (auditPolicy: MarginBandAuditPolicy, window: nat, snapshotEvery: int)
      requires snapshotEvery != 0 ==> window > 0
      ensures this.auditPolicy == auditPolicy && this.window == window && this.snapshotEvery == snapshotEvery
    {
      this.auditPolicy, this.window, this.snapshotEvery := auditPolicy, window, snapshotEvery;
    }

    function AuditSide(): Audits {
      Audits(auditPolicy.config, auditPolicy.value, auditPolicy.tape)
    }

    /** One event: decide and audit without the label, then learn from it and log. */
    method Serve(admission: Admission, s: ScoredSelection, position: nat)
      returns (e: AdmissionEvent, error: Option<string>)
      requires Abstract(admission).Valid()
      modifies Footprint(admission), auditPolicy`cursor
      ensures Abstract(admission).Valid()
      ensures auditPolicy.cursor == old(auditPolicy.cursor) + 2
      ensures error.Some? <==> StepRaises(old(Abstract(admission)), AuditSide(), old(auditPolicy.cursor), s)
      ensures old(Abstract(admission)).Valid()
              && Abstract(admission) == NextState(old(Abstract(admission)), AuditSide(), old(auditPolicy.cursor), s)
              && e == EventOf(old(Abstract(admission)), AuditSide(), old(auditPolicy.cursor), s, position)
    {
      var tau := ThresholdOf(admission);
      var accepted := Decide(admission, s.bestScore);
      var audit := auditPolicy.Decide(s.bestScore, tau);
      error := Learn(admission, s.bestScore, s.truth, accepted, audit.control);
      var after := Abstract(admission);
      e := AdmissionEvent(position, s.queryId, s.bestScore, tau, after.LoggedAlpha(), accepted, s.truth,
                          audit.Judged(), audit.control, audit.diagnostic, audit.pControl, audit.pDiagnostic,
                          audit.zone, after.Source());
    }

    /** What holds after the events so far of a run from method state `a` and tape position `start`. */
    ghost predicate Running(admission: Admission, metrics: AdmissionMetrics, stream: seq<ScoredSelection>,
                            events: seq<AdmissionEvent>, a: AdmissionState, start: nat)
      requires a.Valid()
      reads this, auditPolicy, Footprint(admission), metrics, metrics.Counters()
    {
      && metrics.Valid() && metrics.history == events
      && Replayed(a, AuditSide(), start, stream, events)
      && Abstract(admission) == StateAt(a, AuditSide(), start, stream, |events|)
      && auditPolicy.cursor == start + 2 * |events|
    }

    /** Serves and records the next event of a run. */
    method Advance(admission: Admission, metrics: AdmissionMetrics, stream: seq<ScoredSelection>,
                   events: seq<AdmissionEvent>, ghost a: AdmissionState, ghost start: nat)
      returns (events': seq<AdmissionEvent>, error: Option<string>)
      requires a.Valid() && Running(admission, metrics, stream, events, a, start) && |events| < |stream|
      requires Footprint(admission) !! {metrics} + metrics.Counters()
      modifies Footprint(admission), auditPolicy`cursor, metrics, metrics.Counters()
      ensures error.None? ==> |events'| == |events| + 1 && Running(admission, metrics, stream, events', a, start)
      ensures error.Some? ==> events' == events && metrics.Valid() && metrics.history == events
      ensures error.None? <==> Survives(a, AuditSide(), start, stream, |events|)
    {
      hide EventOf, StepRaises, NextState, StateAt, EventAt, AdmissionMetrics.Valid;
      ghost var before, cursor := Abstract(admission), auditPolicy.cursor;
      var e;
      e, error := Serve(admission, stream[|events|], |events|);
      if error.Some? {
        return events, error;
      }
      ReplayedAppend(a, AuditSide(), start, stream, events, before, cursor, e);
      metrics.Record(e);
      events' := events + [e];
    }

    /** Serves and records all events of a run, or those before the first ValueError. */
    method AdvanceAll(admission: Admission, metrics: AdmissionMetrics, stream: seq<ScoredSelection>,
                      ghost a: AdmissionState, ghost start: nat)
      returns (events: seq<AdmissionEvent>, error: Option<string>)
      requires a.Valid() && Running(admission, metrics, stream, [], a, start)
      requires Footprint(admission) !! {metrics} + metrics.Counters()
      modifies Footprint(admission), auditPolicy`cursor, metrics, metrics.Counters()
      ensures |events| <= |stream| && (error.None? <==> |events| == |stream|)
      ensures metrics.Valid() && metrics.history == events && Replayed(a, AuditSide(), start, stream, events)
      ensures error.None? ==> Running(admission, metrics, stream, events, a, start)
      ensures error.Some? ==> !Survives(a, AuditSide(), start, stream, |events|)
    {
      hide StateAt, Survives, EventAt, AdmissionMetrics.Valid, AdmissionState.Valid;
      events := [];
      error := None;
      while |events| < |stream|
        invariant error.None? && |events| <= |stream|
        invariant Running(admission, metrics, stream, events, a, start)
        decreases |stream| - |events|
      {
        events, error := Advance(admission, metrics, stream, events, a, start);
        if error.Some? {
          return;
        }
      }
    }

    /** Replays the stream; stops at the first ValueError. The metrics are those of the events. */
    method Run(admission: Admission, stream: seq<ScoredSelection>)
      returns (events: seq<AdmissionEvent>, metrics: AdmissionMetrics, error: Option<string>)
      requires Abstract(admission).Valid()
      requires snapshotEvery != 0 ==> window > 0
      modifies Footprint(admission), auditPolicy`cursor
      ensures fresh(metrics) && metrics.Valid() && metrics.history == events
      ensures |events| <= |stream| && (error.None? <==> |events| == |stream|)
      ensures var a, start := old(Abstract(admission)), old(auditPolicy.cursor);
              && a.Valid()
              && Replayed(a, AuditSide(), start, stream, events)
              && (error.Some? ==> !Survives(a, AuditSide(), start, stream, |events|))
              && (error.None? ==> Abstract(admission) == StateAt(a, AuditSide(), start, stream, |stream|)
                                  && auditPolicy.cursor == start + 2 * |stream|)
    {
      ghost var a, start := Abstract(admission), auditPolicy.cursor;
      hide StateAt, Survives, EventAt, AdmissionMetrics.Valid, Replayed, AdmissionState.Valid;
      ReplayStart(a, AuditSide(), start, stream);
      metrics := new AdmissionMetrics(window, snapshotEvery);
      events, error := AdvanceAll(admission, metrics, stream, a, start);
    }
  }

  // ---- what is logged ----

  /** What the event at position i says: the selection it served and its label; the threshold in force before the
      event and the comparison with it; the two audit draws of the position, each against its logged rate; the band;
      and alpha and the threshold source as they are after the event. */
  lemma EventTells(a: AdmissionState, audits: Audits, cursor: nat, stream: seq<ScoredSelection>, i: nat)
    requires a.Valid() && i < |stream|
    ensures var e, s := EventAt(a, audits, cursor, stream, i), stream[i];
            var before, after := StateAt(a, audits, cursor, stream, i), StateAt(a, audits, cursor, stream, i + 1);
            var tie := match before case FixedState(_, tie) => tie case AciState(st) => st.settings.tie;
            && e.streamIndex == i && e.queryId == s.queryId && e.score == s.bestScore && e.truth == s.truth
            && e.tau == (match before case FixedState(tau, _) => tau case AciState(st) => st.Threshold())
            && (e.accepted <==> s.bestScore > e.tau || (s.bestScore == e.tau && tie == GE))
            && e.pControl == audits.config.pControl && (e.control <==> audits.tape(cursor + 2 * i) < e.pControl)
            && (e.diagnostic <==> audits.tape(cursor + 2 * i + 1) < e.pDiagnostic)
            && (e.judged <==> e.control || e.diagnostic)
            && e.zone == audits.config.ZoneOf(audits.value, s.bestScore, e.tau)
            && e.alpha == (match after case FixedState(_, _) => None case AciState(st) => Some(st.alpha))
            && e.source == (match after
                            case FixedState(_, _) => FixedSource
                            case AciState(st) =>
                              if |st.buffer| >= st.settings.minBufferSize then Adaptive else Fallback)
  {
    hide State.Threshold, State.Updated, Config.ZoneOf;
    var before := StateAt(a, audits, cursor, stream, i);
    DrawsDecide(audits.config, audits.value, audits.tape, cursor + 2 * i, stream[i].bestScore, before.Threshold());
    if before.AciState? {
      AdmissionIs(before.controller, stream[i].bestScore);
    }
  }

  /** What one position does to the method: only a control-audited event of an adaptive method changes it, by one
      update of the controller with the score, the label and the outcome of that event. */
  lemma StepTells(a: AdmissionState, audits: Audits, cursor: nat, stream: seq<ScoredSelection>, i: nat)
    requires a.Valid() && i < |stream|
    ensures var e := EventAt(a, audits, cursor, stream, i);
            var before, after := StateAt(a, audits, cursor, stream, i), StateAt(a, audits, cursor, stream, i + 1);
            if before.AciState? && e.control
            then after == AciState(before.controller.Updated(stream[i].bestScore, stream[i].truth, e.accepted))
            else after == before
  {
    hide State.Threshold, State.Updated, Config.ZoneOf, State.ShouldAccept;
  }
}
