/** Which labels a replay can depend on. */
module ReplayLeakage {
  import opened Scores
  import opened AciController
  import opened AciBudget
  import opened Replay

  /** Whether position i is control-audited, read off the tape alone. */
  predicate ControlAudited(audits: Audits, cursor: nat, i: nat) {
    audits.tape(cursor + 2 * i) < audits.config.pControl
  }

  /** Before position i the scores are the same, and control-audited positions agree on being H0. */
  ghost predicate SameTo(s: seq<ScoredSelection>, t: seq<ScoredSelection>, audits: Audits, cursor: nat, i: nat) {
    && i <= |s| && i <= |t|
    && (forall j :: 0 <= j < i ==> s[j].bestScore == t[j].bestScore)
    && (forall j :: 0 <= j < i && ControlAudited(audits, cursor, j) ==> (s[j].truth == H0 <==> t[j].truth == H0))
  }

  lemma SameStep(before: AdmissionState, audits: Audits, cursor: nat, x: ScoredSelection, y: ScoredSelection, i: nat)
    requires before.Valid() && x.bestScore == y.bestScore
    requires ControlAudited(audits, cursor, i) ==> (x.truth == H0 <==> y.truth == H0)
    ensures NextState(before, audits, cursor + 2 * i, x) == NextState(before, audits, cursor + 2 * i, y)
  {
    hide State.Observed, State.Adjusted, State.Threshold;
  }

  lemma {:induction false} SameLearning(a: AdmissionState, audits: Audits, cursor: nat,
                                        s: seq<ScoredSelection>, t: seq<ScoredSelection>, i: nat)
    requires a.Valid() && SameTo(s, t, audits, cursor, i)
    ensures StateAt(a, audits, cursor, s, i) == StateAt(a, audits, cursor, t, i)
  {
    hide NextState;
    if i > 0 {
      SameLearning(a, audits, cursor, s, t, i - 1);
      assert ControlAudited(audits, cursor, i - 1) ==> (s[i - 1].truth == H0 <==> t[i - 1].truth == H0);
      SameStep(StateAt(a, audits, cursor, s, i - 1), audits, cursor, s[i - 1], t[i - 1], i - 1);
    }
  }

  /** Noninterference: the decision at position i - its threshold, outcome, zone and both audit draws -
      depends on the scores up to i, and on labels only through which earlier control-audited events are H0.
      The label at i, everything later, un-audited labels, and H1 against unknown change nothing. */
  lemma DecisionsDoNotLeak(a: AdmissionState, audits: Audits, cursor: nat,
                           s: seq<ScoredSelection>, t: seq<ScoredSelection>, i: nat)
    requires a.Valid() && i < |s| && i < |t| && SameTo(s, t, audits, cursor, i) && s[i].bestScore == t[i].bestScore
    ensures var e, f := EventAt(a, audits, cursor, s, i), EventAt(a, audits, cursor, t, i);
            && e.tau == f.tau && e.accepted == f.accepted && e.zone == f.zone
            && e.control == f.control && e.diagnostic == f.diagnostic && e.judged == f.judged
  {
    SameLearning(a, audits, cursor, s, t, i);
  }

  /** The control-audit mask is a property of the tape: the same for every admission method and every
      stream, because each event takes exactly two draws. */
  lemma ControlMaskIsShared(a: AdmissionState, b: AdmissionState, audits: Audits, cursor: nat,
                            s: seq<ScoredSelection>, t: seq<ScoredSelection>, i: nat)
    requires a.Valid() && b.Valid() && i < |s| && i < |t|
    ensures EventAt(a, audits, cursor, s, i).control == EventAt(b, audits, cursor, t, i).control
            == ControlAudited(audits, cursor, i)
  {
  }

  /** A run can only be stopped by a malformed label on a control-audited event. */
  lemma OnlyAuditedLabelsStopARun(a: AdmissionState, audits: Audits, cursor: nat, s: seq<ScoredSelection>, i: nat)
    requires a.Valid() && i < |s|
    ensures !Survives(a, audits, cursor, s, i)
            <==> StateAt(a, audits, cursor, s, i).AciState? && ControlAudited(audits, cursor, i)
                 && Malformed(s[i].truth)
  {
  }

  // ---- the logged alpha ----

  /** An accepted H0 at the floor, or a rejected one at the cap or held back by the gate. */
  predicate AlphaStuck(st: State, accepted: bool)
    requires st.settings.wilsonWindow > 0
  {
    if accepted then st.alpha == st.settings.alphaMin
    else
      st.alpha == st.settings.alphaMax
      || (st.settings.wilsonGate
          && !SafelyUnder(LastN(st.outcomes + [false], st.settings.wilsonWindow), st.settings.wilsonZ,
                          st.settings.alphaTarget))
  }

  /** The alpha logged for an event whose label is H0, and for the same event with another label. */
  lemma LoggedAlphaOfStep(before: AdmissionState, audits: Audits, cursor: nat, x: ScoredSelection, y: ScoredSelection,
                          i: nat)
    requires before.Valid() && x.bestScore == y.bestScore && x.truth == H0 && y.truth != H0
    ensures before.AciState? ==> before.controller.settings.wilsonWindow > 0
    ensures NextState(before, audits, cursor + 2 * i, x).LoggedAlpha()
            == NextState(before, audits, cursor + 2 * i, y).LoggedAlpha()
            <==> before.FixedState? || !ControlAudited(audits, cursor, i)
                 || AlphaStuck(before.controller, before.Decides(x.bestScore))
  {
    if before.AciState? {
      AlphaMoves(before.controller, Event(x.bestScore, H0, before.Decides(x.bestScore)));
    }
    hide SafelyUnder, State.ShouldAccept, State.Threshold, State.Observed, State.Adjusted;
  }

  /** The alpha logged at position i does see the label at i. For two streams that agree before i and
      differ at i in being H0, it is the same exactly when the method does not adapt, the event is not
      control-audited, or alpha is stuck. */
  lemma LoggedAlphaSeesTheLabel(a: AdmissionState, audits: Audits, cursor: nat,
                                s: seq<ScoredSelection>, t: seq<ScoredSelection>, i: nat)
    requires a.Valid() && i < |s| && i < |t| && SameTo(s, t, audits, cursor, i) && s[i].bestScore == t[i].bestScore
    requires s[i].truth == H0 && t[i].truth != H0
    ensures var e, f := EventAt(a, audits, cursor, s, i), EventAt(a, audits, cursor, t, i);
            var before := StateAt(a, audits, cursor, s, i);
            && (before.AciState? ==> before.controller.settings.wilsonWindow > 0)
            && (e.alpha == f.alpha
                <==> before.FixedState? || !ControlAudited(audits, cursor, i)
                     || AlphaStuck(before.controller, e.accepted))
  {
    hide AlphaStuck, NextState, StateAt, ControlAudited, AdmissionState.Decides, AdmissionState.LoggedAlpha, SameTo;
    SameLearning(a, audits, cursor, s, t, i);
    LoggedAlphaOfStep(StateAt(a, audits, cursor, s, i), audits, cursor, s[i], t[i], i);
  }

  /** The threshold source logged at i describes the state after learning: it differs from the source
      of the threshold that was used exactly when this event is the control-audited H0 that fills the buffer. */
  lemma LoggedSourceRunsAhead(a: AdmissionState, audits: Audits, cursor: nat, s: seq<ScoredSelection>, i: nat)
    requires a.Valid() && i < |s|
    ensures var before := StateAt(a, audits, cursor, s, i);
            EventAt(a, audits, cursor, s, i).source != before.Source()
            <==> && before.AciState? && ControlAudited(audits, cursor, i) && s[i].truth == H0
                 && |before.controller.buffer| + 1 == before.controller.settings.minBufferSize
                 && |before.controller.buffer| < before.controller.settings.bufferSize
  {
    hide State.Threshold, StateAt;
  }

  /** A concrete leak: one control-audited event, accepted by the fallback threshold. */
  lemma LoggedAlphaLeaks()
    ensures var settings := Settings(0.1, 0.02, 0.001, 0.3, 10, 20, GE, false, 1.96, 100);
            var a := AciState(State(settings, Some(0), 0.1, [], [], [], 0, 0, 0));
            var config := AuditPolicy.Config(0.05, 0.05, 0.1, 0.0, 0.0, 0.0, 0.0);
            var audits := Audits(config, x => x as real, _ => 0.0);
            var s, t := [ScoredSelection("q", 0, H0)], [ScoredSelection("q", 0, H1)];
            a.Valid()
            && EventAt(a, audits, 0, s, 0).accepted == EventAt(a, audits, 0, t, 0).accepted
            && EventAt(a, audits, 0, s, 0).alpha != EventAt(a, audits, 0, t, 0).alpha
  {
    var settings := Settings(0.1, 0.02, 0.001, 0.3, 10, 20, GE, false, 1.96, 100);
    var a := AciState(State(settings, Some(0), 0.1, [], [], [], 0, 0, 0));
    var config := AuditPolicy.Config(0.05, 0.05, 0.1, 0.0, 0.0, 0.0, 0.0);
    var audits := Audits(config, x => x as real, _ => 0.0);
    var s, t := [ScoredSelection("q", 0, H0)], [ScoredSelection("q", 0, H1)];
    assert ControlAudited(audits, 0, 0);
    assert a.Decides(0);
    LoggedAlphaSeesTheLabel(a, audits, 0, s, t, 0);
  }
}
