/** Sparse auditing with two independent channels (src/mlcache/adaptive/audit_policy.py).

    The random generator is a tape of draws in [0, 1) and a cursor; every decision takes two. The
    real value of a finite score is the parameter `value`. */
module AuditPolicy {
  import opened Scores

  datatype Zone = SafeAccept | BorderlineAccept | BorderlineReject | SafeReject

  datatype AuditDecision = AuditDecision(zone: Zone, control: bool, diagnostic: bool, pControl: real,
                                         pDiagnostic: real) {
    predicate Judged() { control || diagnostic }
  }

  datatype Config = Config(acceptMargin: real, rejectMargin: real, pControl: real, pSafeAccept: real,
                           pBorderlineAccept: real, pBorderlineReject: real, pSafeReject: real)
  {
    predicate Valid() {
      && 0.0 <= pControl <= 1.0 && 0.0 <= pSafeAccept <= 1.0 && 0.0 <= pBorderlineAccept <= 1.0
      && 0.0 <= pBorderlineReject <= 1.0 && 0.0 <= pSafeReject <= 1.0
      && acceptMargin >= 0.0 && rejectMargin >= 0.0
    }

    /** The margin band. Between two equal infinities the margin is NaN and every comparison fails. */
    function ZoneOf(value: Score -> real, score: Score, tau: Score): Zone {
      if IsFinite(score) && IsFinite(tau) then
        var margin := value(score) - value(tau);
        if margin >= acceptMargin then SafeAccept
        else if margin >= 0.0 then BorderlineAccept
        else if margin >= -rejectMargin then BorderlineReject
        else SafeReject
      else if score > tau then SafeAccept
      else SafeReject
    }

    function PDiagnostic(zone: Zone): real {
      match zone
      case SafeAccept => pSafeAccept
      case BorderlineAccept => pBorderlineAccept
      case BorderlineReject => pBorderlineReject
      case SafeReject => pSafeReject
    }

    /** The decision made from the two draws at `cursor`. */
    function AuditAt(value: Score -> real, tape: nat -> real, cursor: nat, score: Score, tau: Score): AuditDecision {
      var zone := ZoneOf(value, score, tau);
      AuditDecision(zone, tape(cursor) < pControl, tape(cursor + 1) < PDiagnostic(zone), pControl, PDiagnostic(zone))
    }
  }

  class MarginBandAuditPolicy {
    const config: Config
    const value: Score -> real
    const tape: nat -> real
    var cursor: nat

    constructor (config: Config, value: Score -> real, tape: nat -> real)
      requires config.Valid()
      ensures this.config == config && this.value == value && this.tape == tape && cursor == 0
    {
      this.config, this.value, this.tape, cursor := config, value, tape, 0;
    }

    method Decide(score: Score, tau: Score) returns (d: AuditDecision)
      modifies `cursor
      ensures cursor == old(cursor) + 2
      ensures d == config.AuditAt(value, tape, old(cursor), score, tau)
    {
      var zone := config.ZoneOf(value, score, tau);
      var control := tape(cursor) < config.pControl;
      cursor := cursor + 1;
      var diagnostic := tape(cursor) < config.PDiagnostic(zone);
      cursor := cursor + 1;
      d := AuditDecision(zone, control, diagnostic, config.pControl, config.PDiagnostic(zone));
    }
  }

  /** `value` respects the order of finite scores. */
  ghost predicate Increasing(value: Score -> real) {
    forall x: Score, y: Score :: IsFinite(x) && IsFinite(y) && x < y ==> value(x) < value(y)
  }

  /** The band and the admission decision fall on the same side of the threshold, except at
      score == tau: there a finite tie counts as accepted and an infinite one as rejected,
      whatever the tie mode. */
  lemma ZoneSidesWithDecision(config: Config, value: Score -> real, score: Score, tau: Score, tie: TieMode)
    requires config.Valid() && Increasing(value)
    ensures (config.ZoneOf(value, score, tau) in {SafeAccept, BorderlineAccept} <==> Accepts(tau, tie, score))
            <==> !(score == tau && (tie == GE <==> !IsFinite(tau)))
  {
    if IsFinite(score) && IsFinite(tau) && score != tau {
      assert score < tau ==> value(score) < value(tau);
      assert tau < score ==> value(tau) < value(score);
    }
  }

  /** The bands, by the margin of a finite score over a finite tau: safe from the accept margin up, borderline down
      to zero, borderline again down to the reject margin, safe below. */
  lemma BandsByMargin(config: Config, value: Score -> real, score: Score, tau: Score)
    requires config.Valid() && IsFinite(score) && IsFinite(tau)
    ensures var zone, x, t := config.ZoneOf(value, score, tau), value(score), value(tau);
            && (zone == SafeAccept <==> x >= t + config.acceptMargin)
            && (zone == BorderlineAccept <==> t <= x < t + config.acceptMargin)
            && (zone == BorderlineReject <==> t - config.rejectMargin <= x < t)
            && (zone == SafeReject <==> x < t - config.rejectMargin)
  {
  }

  /** Next to an infinity only the order counts. */
  lemma BandsAtInfinity(config: Config, value: Score -> real, score: Score, tau: Score)
    requires !IsFinite(score) || !IsFinite(tau)
    ensures config.ZoneOf(value, score, tau) == if score > tau then SafeAccept else SafeReject
  {
  }

  /** From a sure reject to a sure accept. */
  function Standing(zone: Zone): nat {
    match zone
    case SafeReject => 0
    case BorderlineReject => 1
    case BorderlineAccept => 2
    case SafeAccept => 3
  }

  /** A higher score never falls into a lower band. */
  lemma BandsAreOrdered(config: Config, value: Score -> real, low: Score, high: Score, tau: Score)
    requires config.Valid() && Increasing(value) && low <= high
    ensures Standing(config.ZoneOf(value, low, tau)) <= Standing(config.ZoneOf(value, high, tau))
  {
    if IsFinite(low) && IsFinite(high) && low < high {
      assert value(low) < value(high);
    }
  }

  /** What the two draws decide: a control audit with the same rate everywhere, a diagnostic one with the rate of
      the band; an event is judged if either falls. The rates are those the decision reports. */
  lemma DrawsDecide(config: Config, value: Score -> real, tape: nat -> real, cursor: nat, score: Score, tau: Score)
    ensures var d := config.AuditAt(value, tape, cursor, score, tau);
            && d.zone == config.ZoneOf(value, score, tau)
            && d.pControl == config.pControl && (d.control <==> tape(cursor) < config.pControl)
            && d.pDiagnostic == (match Standing(d.zone)
                                 case 0 => config.pSafeReject
                                 case 1 => config.pBorderlineReject
                                 case 2 => config.pBorderlineAccept
                                 case _ => config.pSafeAccept)
            && (d.diagnostic <==> tape(cursor + 1) < d.pDiagnostic)
            && (d.Judged() <==> d.control || d.diagnostic)
  {
  }
}
