/** The false-hit budget of a replay, read off its metrics: the streaming control counters of an adaptive
    run are the controller's own ledger (src/mlcache/adaptive/replay.py:321-381). */
module ReplayBudget {
  import opened AciController
  import Aci = AciBudget
  import opened Metrics
  import opened Replay

  /** What the controller learns from: the control-audited events, in order. */
  function Audited(events: seq<AdmissionEvent>): seq<Aci.Event> {
    if events == [] then []
    else
      var n := |events| - 1;
      var e := events[n];
      Audited(events[..n]) + if e.control then [Aci.Event(e.score, e.truth, e.accepted)] else []
  }

  /** The control counters are those of the H0 outcomes the controller learned. */
  lemma {:induction false} ControlTally(events: seq<AdmissionEvent>)
    ensures TallyOf(events, Control).nH0 == |Aci.H0Flags(Audited(events))|
    ensures TallyOf(events, Control).fp == CountTrue(Aci.H0Flags(Audited(events)))
  {
    if events != [] {
      var n := |events| - 1;
      var e := events[n];
      ControlTally(events[..n]);
      if e.control {
        Aci.HistoryAppend(Audited(events[..n]), Aci.Event(e.score, e.truth, e.accepted));
      } else {
        assert Audited(events[..n]) + [] == Audited(events[..n]);
      }
    }
  }

  /** One more event of a replay under an adaptive method. */
  lemma AuditedStep(before: State, audits: Audits, cursor: nat, s: ScoredSelection, position: nat)
    requires before.Valid()
    ensures var e := EventOf(AciState(before), audits, cursor, s, position);
            NextState(AciState(before), audits, cursor, s)
            == AciState(if e.control then before.Updated(e.score, e.truth, e.accepted) else before)
  {
    hide State.Updated, State.Threshold, State.ShouldAccept;
  }

  /** The state of the controller after the first n events of a replay is that of a run over the audited ones. */
  lemma {:induction false} ControllerRuns(st: State, audits: Audits, cursor: nat, stream: seq<ScoredSelection>,
                                          events: seq<AdmissionEvent>, n: nat)
    requires st.Valid() && Replayed(AciState(st), audits, cursor, stream, events) && n <= |events|
    ensures StateAt(AciState(st), audits, cursor, stream, n) == AciState(Aci.Run(st, Audited(events[..n])))
  {
    hide State.Valid, State.Updated, NextState, EventOf, Survives;
    if n > 0 {
      ControllerRuns(st, audits, cursor, stream, events, n - 1);
      var before := Aci.Run(st, Audited(events[..n - 1]));
      var e := events[n - 1];
      assert events[..n][..n - 1] == events[..n - 1];
      assert e == EventAt(AciState(st), audits, cursor, stream, n - 1);
      AuditedStep(before, audits, cursor + 2 * (n - 1), stream[n - 1], n - 1);
      if e.control {
        Aci.RunStep(st, Audited(events[..n - 1]), Aci.Event(e.score, e.truth, e.accepted));
      } else {
        assert Audited(events[..n]) == Audited(events[..n - 1]);
      }
    }
  }

  /** The budget of a replay, from its metrics alone. With S false hits among T audited H0 events, as the
      control counter reports them, and alpha before and after the run, S <= target * T + (start - end) / gamma
      exactly when the lower clamp lifted no more than the upper clamp and the gate took away; and so
      whenever the lower clamp never bound. */
  lemma MetricsKeepTheBudget(st: State, audits: Audits, cursor: nat, stream: seq<ScoredSelection>,
                             metrics: AdmissionMetrics)
    requires metrics.Valid()
    requires st.Valid() && Replayed(AciState(st), audits, cursor, stream, metrics.history)
    ensures StateAt(AciState(st), audits, cursor, stream, |metrics.history|).AciState?
    ensures var counted, ledger := metrics.control.value, Aci.Totals(st, Audited(metrics.history));
            var end := StateAt(AciState(st), audits, cursor, stream, |metrics.history|).controller.alpha;
            var budget := Aci.Budget(st.settings, counted.nH0, st.alpha, end);
            && counted.nH0 == ledger.h0 && counted.fp == ledger.hits
            && (counted.fp as real <= budget <==> ledger.lift <= ledger.cut + ledger.withheld)
            && (Aci.NeverFloored(st, Audited(metrics.history)) ==> counted.fp as real <= budget)
  {
    hide State.Valid, Aci.Budget, Aci.NeverFloored, TallyOf, Replayed, StateAt, Aci.Totals, Aci.Run;
    var events := metrics.history;
    var audited := Audited(events);
    assert events[..|events|] == events;
    ControllerRuns(st, audits, cursor, stream, events, |events|);
    ControlTally(events);
    Aci.LedgerCounts(st, audited);
    Aci.FalseHitBudget(st, audited);
    Aci.BudgetBounds(st, audited);
  }
}
