/** Serving with a calibrated threshold (src/mlcache/policies/query_level.py). */
module QueryLevelPolicy {
  import opened Scores
  import opened Thresholds
  import opened Wilson
  import opened QueryLevelCalibration

  datatype Reason = NoCandidates | ThresholdMissing | SelectedScoreBelowThreshold

  datatype PolicyDecision = PolicyDecision(status: Status, accepted: bool, selected: Option<Candidate>,
                                           threshold: Option<Score>, reason: Option<Reason>)

  datatype Policy = Policy(threshold: Option<Score>, tie: TieMode, select: SelectionFn) {

    function Evaluate(candidates: seq<Candidate>, override: Option<Score>): PolicyDecision {
      var effective := if override.Some? then override else threshold;
      if candidates == [] then PolicyDecision(Abstain, false, None, effective, Some(NoCandidates))
      else
        match select(candidates)
        case None => PolicyDecision(Abstain, false, None, effective, Some(NoCandidates))
        case Some(c) =>
          if effective.None? then PolicyDecision(Abstain, false, Some(c), None, Some(ThresholdMissing))
          else if Accepts(effective.value, tie, c.score) then PolicyDecision(Hit, true, Some(c), effective, None)
          else PolicyDecision(Miss, false, Some(c), effective, Some(SelectedScoreBelowThreshold))
    }
  }

  /** The score passes the threshold in force: the override if one is given, else the policy's own, if any. */
  predicate Passes(policy: Policy, override: Option<Score>, score: Score) {
    var t := if override.Some? then override else policy.threshold;
    t.Some? && (score > t.value || (score == t.value && policy.tie == GE))
  }

  /** Every evaluation, with or without a threshold or an override: it hits exactly when a candidate is selected
      and passes, misses exactly when one is selected and fails a threshold there is, and abstains otherwise. */
  lemma EvaluationIs(policy: Policy, candidates: seq<Candidate>, override: Option<Score>)
    ensures var d := policy.Evaluate(candidates, override);
            var selected := if candidates == [] then None else policy.select(candidates);
            var thresholdIsSet := override.Some? || policy.threshold.Some?;
            && d.selected == selected
            && (d.accepted <==> selected.Some? && Passes(policy, override, selected.value.score))
            && (d.status == Hit <==> d.accepted)
            && (d.status == Miss <==> selected.Some? && thresholdIsSet && !d.accepted)
            && (d.status == Abstain <==> selected.None? || !thresholdIsSet)
            && d.threshold == (if override.Some? then override else policy.threshold)
            && d.reason == (if selected.None? then Some(NoCandidates)
                            else if !thresholdIsSet then Some(ThresholdMissing)
                            else if !d.accepted then Some(SelectedScoreBelowThreshold)
                            else None)
  {
  }

  function FalseHit(r: Record, policy: Policy): nat {
    var d := policy.Evaluate(r.candidates, None);
    if d.accepted && d.selected.value.truth == H0 then 1 else 0
  }

  /** The served queries whose selected candidate is H0: false hits of the policy on the records. */
  function FalseHits(records: seq<Record>, policy: Policy): nat {
    if records == [] then 0
    else FalseHits(records[..|records| - 1], policy) + FalseHit(records[|records| - 1], policy)
  }

  /** The H0 score of the decision a record yields, if any. */
  function SelectedBy(made: seq<Decision>): seq<Score> {
    if made == [] then [] else SelectedH0In(made[0])
  }

  lemma FalseHitIsAccept(r: Record, policy: Policy, abstainOnEmpty: bool)
    requires policy.threshold.Some?
    ensures var made := DecisionFor(r, policy.select, abstainOnEmpty);
            FalseHit(r, policy)
            == AcceptCount(SelectedBy(made), policy.threshold, policy.tie)
  {
  }

  lemma SelectedH0AfterRecord(records: seq<Record>, r: Record, select: SelectionFn, abstainOnEmpty: bool)
    ensures var made := DecisionFor(r, select, abstainOnEmpty);
            SelectedH0(Decisions(records + [r], select, abstainOnEmpty))
            == SelectedH0(Decisions(records, select, abstainOnEmpty)) + SelectedBy(made)
  {
    assert (records + [r])[..|records|] == records;
    var before, made := Decisions(records, select, abstainOnEmpty), DecisionFor(r, select, abstainOnEmpty);
    if made == [] {
      assert before + made == before;
    } else {
      DecisionAppended(before, made[0]);
    }
  }

  lemma {:induction false} AcceptCountConcat(a: seq<Score>, b: seq<Score>, tau: Option<Score>, tie: TieMode)
    ensures AcceptCount(a + b, tau, tie) == AcceptCount(a, tau, tie) + AcceptCount(b, tau, tie)
  {
    if a == [] {
      assert a + b == b;
    } else {
      assert (a + b)[1..] == a[1..] + b;
      AcceptCountConcat(a[1..], b, tau, tie);
    }
  }

  /** Serving the calibration records repeats the calibration count. */
  lemma {:induction false} FalseHitsAreAccepts(records: seq<Record>, policy: Policy, abstainOnEmpty: bool)
    requires policy.threshold.Some?
    ensures FalseHits(records, policy)
            == AcceptCount(SelectedH0(Decisions(records, policy.select, abstainOnEmpty)), policy.threshold, policy.tie)
  {
    if records == [] {
      assert SelectedH0([]) == [];
    } else {
      hide FalseHit, DecisionFor, Decisions, SelectedH0, SelectedBy, AcceptCount;
      var n := |records| - 1;
      var front, r := records[..n], records[n];
      FalseHitsAreAccepts(front, policy, abstainOnEmpty);
      FalseHitIsAccept(r, policy, abstainOnEmpty);
      SelectedH0AfterRecord(front, r, policy.select, abstainOnEmpty);
      assert records == front + [r];
      var made := DecisionFor(r, policy.select, abstainOnEmpty);
      AcceptCountConcat(SelectedH0(Decisions(front, policy.select, abstainOnEmpty)),
                        SelectedBy(made), policy.threshold, policy.tie);
    }
  }

  /** Calibrate, then serve: when calibration publishes a threshold, serving the same records with the
      same selection and tie mode makes exactly `selectedAccepts` false hits, and the Wilson gate bounds
      their rate. They are at most floor(target * n) exactly when the tie mode is strict or the +inf scores
      fit the budget, which a finite threshold guarantees. */
  lemma CalibrateThenServe(records: seq<Record>, d: Dataset, select: SelectionFn, abstainOnEmpty: bool,
                           config: Config, roots: real -> real)
    requires config.Valid() && IsSqrt(roots) && DatasetOf(d, records, select, abstainOnEmpty)
    requires CalibrateDataset(d, config, None, roots).Ok?
    requires CalibrateDataset(d, config, None, roots).value.threshold.Some?
    ensures var c := CalibrateDataset(d, config, None, roots).value;
            var hits := FalseHits(records, Policy(c.threshold, config.tie, select));
            && hits == c.selectedAccepts
            && 0 < c.selectedH0
            && Rate(hits, c.selectedH0) <= config.target + config.margin
            && (hits <= AllowedAccepts(c.selectedH0, config.target)
                <==> config.tie == GT || !TopSaturates(d.h0Scores, config.target))
            && (IsFinite(c.threshold.value) ==> hits <= AllowedAccepts(c.selectedH0, config.target))
  {
    PublishedIff(d, config, roots);
    var c := CalibrateDataset(d, config, None, roots).value;
    FalseHitsAreAccepts(records, Policy(c.threshold, config.tie, select), abstainOnEmpty);
    BudgetIsKept(d.h0Scores, config.target, config.tie);
    ThresholdCut(d.h0Scores, config.target, config.tie);
    TopSaturation(d.h0Scores, config.target);
  }

  /** With the default selection a query is a HIT exactly when some candidate passes the threshold in force. */
  lemma HitIffSomeCandidatePasses(policy: Policy, candidates: seq<Candidate>, override: Option<Score>)
    requires policy.select == SelectMaxScore
    ensures policy.Evaluate(candidates, override).status.Hit?
            <==> exists i :: 0 <= i < |candidates| && Passes(policy, override, candidates[i].score)
  {
    if candidates != [] {
      var best := FirstBestIsFirst(candidates, |candidates|);
      assert SelectMaxScore(candidates) == Some(candidates[best]);
      forall i | 0 <= i < |candidates| ensures candidates[i].score <= candidates[best].score {
        assert !Better(candidates[i], candidates[best], |candidates|);
      }
    }
  }
}
