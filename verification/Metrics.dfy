/** Streaming admission metrics (src/mlcache/adaptive/metrics.py) against recounts of the history. */
module Metrics {
  import opened Scores
  import opened AuditPolicy
  import opened RealArithmetic
  import opened IntegerArithmetic

  datatype ThresholdSource = FixedSource | Adaptive | Fallback

  /** One decision; `alpha` is None where the method logs NaN. */
  datatype AdmissionEvent = AdmissionEvent(streamIndex: nat, queryId: string, score: Score, tau: Score,
                                           alpha: Option<real>, accepted: bool, truth: Label, judged: bool,
                                           control: bool, diagnostic: bool, pControl: real, pDiagnostic: real,
                                           zone: Zone, source: ThresholdSource)

  function Ratio(numerator: real, denominator: real): Option<real> {
    if denominator <= 0.0 then None else Some(numerator / denominator)
  }

  // ---- recounting ----

  datatype Channel = GroundTruth | Raw | Control

  predicate Sees(channel: Channel, e: AdmissionEvent) {
    match channel
    case GroundTruth => true
    case Raw => e.judged
    case Control => e.control
  }

  /** How many events of the channel carry this label, accepted ones only if asked. */
  function CountLabel(events: seq<AdmissionEvent>, channel: Channel, truth: Label, acceptedOnly: bool): nat {
    if events == [] then 0
    else
      var n := |events| - 1;
      var e := events[n];
      CountLabel(events[..n], channel, truth, acceptedOnly)
      + if Sees(channel, e) && e.truth == truth && (acceptedOnly ==> e.accepted) then 1 else 0
  }

  datatype Tally = Tally(nH0: nat, nH1: nat, fp: nat, tp: nat) {
    function Fpr(): Option<real> { Ratio(fp as real, nH0 as real) }
    function Tpr(): Option<real> { Ratio(tp as real, nH1 as real) }
  }

  function TallyOf(events: seq<AdmissionEvent>, channel: Channel): Tally {
    Tally(CountLabel(events, channel, H0, false), CountLabel(events, channel, H1, false),
          CountLabel(events, channel, H0, true), CountLabel(events, channel, H1, true))
  }

  datatype Served = Served(total: nat, accepted: nat, noJudgeHits: nat, judged: nat)

  function ServedOf(events: seq<AdmissionEvent>): Served {
    if events == [] then Served(0, 0, 0, 0)
    else
      var n := |events| - 1;
      var s, e := ServedOf(events[..n]), events[n];
      Served(s.total + 1,
             s.accepted + (if e.accepted then 1 else 0),
             s.noJudgeHits + (if e.accepted && !e.judged then 1 else 0),
             s.judged + (if e.judged then 1 else 0))
  }

  /** Diagnostic audits weighted by the inverse of their probability. */
  predicate Weighted(e: AdmissionEvent, truth: Label) {
    e.diagnostic && e.pDiagnostic > 0.0 && e.truth == truth
  }

  function WeightOf(e: AdmissionEvent): real
    requires e.pDiagnostic > 0.0
  {
    1.0 / e.pDiagnostic
  }

  predicate Carries(e: AdmissionEvent, truth: Label, acceptedOnly: bool) {
    Weighted(e, truth) && (acceptedOnly ==> e.accepted)
  }

  function Weights(events: seq<AdmissionEvent>, truth: Label, acceptedOnly: bool): (ws: seq<real>)
    ensures forall i :: 0 <= i < |ws| ==> ws[i] > 0.0
  {
    if events == [] then []
    else
      var n := |events| - 1;
      var e := events[n];
      var front := Weights(events[..n], truth, acceptedOnly);
      if Carries(e, truth, acceptedOnly) then
        QuotientPositive(1.0, e.pDiagnostic, WeightOf(e));
        front + [WeightOf(e)]
      else front
  }

  function Square(x: real): real { x * x }

  function Sum(ws: seq<real>): real {
    if ws == [] then 0.0 else Sum(ws[..|ws| - 1]) + ws[|ws| - 1]
  }

  function SumSquares(ws: seq<real>): real {
    if ws == [] then 0.0 else SumSquares(ws[..|ws| - 1]) + Square(ws[|ws| - 1])
  }

  datatype WeightedTally = WeightedTally(wH0: real, wH1: real, fpW: real, tpW: real,
                                         wH0Sq: real, wH1Sq: real, nH0: nat, nH1: nat)

  function WeightedTallyOf(events: seq<AdmissionEvent>): WeightedTally {
    var w0, w1 := Weights(events, H0, false), Weights(events, H1, false);
    WeightedTally(Sum(w0), Sum(w1), Sum(Weights(events, H0, true)), Sum(Weights(events, H1, true)),
                  SumSquares(w0), SumSquares(w1), |w0|, |w1|)
  }

  datatype Rates = Rates(fpr: Option<real>, tpr: Option<real>, hitRate: Option<real>,
                         noJudgeHitRate: Option<real>, judgedFraction: Option<real>)

  function RatesOf(t: Tally, s: Served): Rates {
    var n := s.total as real;
    Rates(t.Fpr(), t.Tpr(), Ratio(s.accepted as real, n), Ratio(s.noJudgeHits as real, n), Ratio(s.judged as real, n))
  }

  /** A window snapshot: counters and rates over the whole history and over the last `window` events. */
  datatype Snapshot = Snapshot(last: AdmissionEvent, cumulative: Tally, cumulativeServed: Served,
                               cumulativeRates: Rates, recent: Tally, recentServed: Served, recentRates: Rates)

  /** The snapshot of these counters. */
  function SnapshotWith(last: AdmissionEvent, cumulative: Tally, served: Served, recent: Tally,
                        recentServed: Served)
    : Snapshot
  {
    Snapshot(last, cumulative, served, RatesOf(cumulative, served), recent, recentServed, RatesOf(recent, recentServed))
  }

  function SnapshotOf(events: seq<AdmissionEvent>, window: nat): Snapshot
    requires events != []
  {
    var recent := LastN(events, window);
    SnapshotWith(events[|events| - 1], TallyOf(events, GroundTruth), ServedOf(events),
                 TallyOf(recent, GroundTruth), ServedOf(recent))
  }

  predicate SnapshotDue(total: nat, every: int) {
    every != 0 && total % every == 0
  }

  function SnapshotsOf(events: seq<AdmissionEvent>, window: nat, every: int): seq<Snapshot> {
    if events == [] then []
    else
      SnapshotsOf(events[..|events| - 1], window, every)
      + if SnapshotDue(|events|, every) then [SnapshotOf(events, window)] else []
  }

  // ---- the accumulators ----

  function TallyAdded(t: Tally, truth: Label, accepted: bool): Tally {
    Tally(t.nH0 + (if truth == H0 then 1 else 0), t.nH1 + (if truth == H1 then 1 else 0),
          t.fp + (if truth == H0 && accepted then 1 else 0), t.tp + (if truth == H1 && accepted then 1 else 0))
  }

  function WeightAdded(v: WeightedTally, truth: Label, accepted: bool, weight: real): WeightedTally {
    var hit := if accepted then weight else 0.0;
    if weight <= 0.0 then v
    else if truth == H0 then
      v.(wH0 := v.wH0 + weight, wH0Sq := v.wH0Sq + Square(weight), nH0 := v.nH0 + 1, fpW := v.fpW + hit)
    else if truth == H1 then
      v.(wH1 := v.wH1 + weight, wH1Sq := v.wH1Sq + Square(weight), nH1 := v.nH1 + 1, tpW := v.tpW + hit)
    else v
  }

  /** Weights that are not positive, and labels other than 0 and 1, add nothing. */
  lemma NothingAdded(v: WeightedTally, truth: Label, accepted: bool, weight: real)
    requires weight <= 0.0 || truth !in {Some(0), Some(1)}
    ensures WeightAdded(v, truth, accepted, weight) == v
  {
    hide Square;
  }

  class Counter {
    var value: Tally

    constructor ()
      ensures value == Tally(0, 0, 0, 0)
    {
      value := Tally(0, 0, 0, 0);
    }

    method Add(truth: Label, accepted: bool)
      modifies this
      ensures value == TallyAdded(old(value), truth, accepted)
    {
      if truth == H0 {
        value := value.(nH0 := value.nH0 + 1);
        if accepted {
          value := value.(fp := value.fp + 1);
        }
      } else if truth == H1 {
        value := value.(nH1 := value.nH1 + 1);
        if accepted {
          value := value.(tp := value.tp + 1);
        }
      }
    }
  }

  class WeightedCounter {
    var value: WeightedTally

    constructor ()
      ensures value == WeightedTally(0.0, 0.0, 0.0, 0.0, 0.0, 0.0, 0, 0)
    {
      value := WeightedTally(0.0, 0.0, 0.0, 0.0, 0.0, 0.0, 0, 0);
    }

    method Add(truth: Label, accepted: bool, weight: real)
      modifies this
      ensures value == WeightAdded(old(value), truth, accepted, weight)
    {
      if weight <= 0.0 {
        return;
      }
      if truth == H0 {
        value := value.(wH0 := value.wH0 + weight, wH0Sq := value.wH0Sq + Square(weight), nH0 := value.nH0 + 1);
        if accepted {
          value := value.(fpW := value.fpW + weight);
        }
      } else if truth == H1 {
        value := value.(wH1 := value.wH1 + weight, wH1Sq := value.wH1Sq + Square(weight), nH1 := value.nH1 + 1);
        if accepted {
          value := value.(tpW := value.tpW + weight);
        }
      }
    }
  }

  lemma WeightsAppend(events: seq<AdmissionEvent>, e: AdmissionEvent, truth: Label, acceptedOnly: bool)
    ensures var ws, ws' := Weights(events, truth, acceptedOnly), Weights(events + [e], truth, acceptedOnly);
            if Carries(e, truth, acceptedOnly)
            then |ws'| == |ws| + 1 && Sum(ws') == Sum(ws) + WeightOf(e)
                 && SumSquares(ws') == SumSquares(ws) + Square(WeightOf(e))
            else ws' == ws
  {
    assert (events + [e])[..|events|] == events;
    if Carries(e, truth, acceptedOnly) {
      var ws := Weights(events, truth, acceptedOnly);
      assert (ws + [WeightOf(e)])[..|ws|] == ws;
    }
  }

  lemma WeightedTallyAppend(events: seq<AdmissionEvent>, e: AdmissionEvent)
    ensures WeightedTallyOf(events + [e])
            == if e.diagnostic && e.pDiagnostic > 0.0
               then WeightAdded(WeightedTallyOf(events), e.truth, e.accepted, WeightOf(e))
               else WeightedTallyOf(events)
  {
    WeightsAppend(events, e, H0, false);
    WeightsAppend(events, e, H1, false);
    WeightsAppend(events, e, H0, true);
    WeightsAppend(events, e, H1, true);
    if e.pDiagnostic > 0.0 {
      QuotientPositive(1.0, e.pDiagnostic, WeightOf(e));
    }
  }

  lemma ServedAppend(events: seq<AdmissionEvent>, e: AdmissionEvent)
    ensures ServedOf(events + [e]) ==
            var s := ServedOf(events);
            Served(s.total + 1, s.accepted + (if e.accepted then 1 else 0),
                   s.noJudgeHits + (if e.accepted && !e.judged then 1 else 0), s.judged + (if e.judged then 1 else 0))
  {
    assert (events + [e])[..|events|] == events;
  }

  lemma TallyAppend(events: seq<AdmissionEvent>, e: AdmissionEvent, channel: Channel)
    ensures TallyOf(events + [e], channel)
            == if Sees(channel, e) then TallyAdded(TallyOf(events, channel), e.truth, e.accepted)
               else TallyOf(events, channel)
  {
    assert (events + [e])[..|events|] == events;
  }

  class AdmissionMetrics {
    const window: nat
    const snapshotEvery: int
    var total: nat
    var accepted: nat
    var noJudgeHits: nat
    var judged: nat
    var providerCalls: nat
    const groundTruth: Counter
    const raw: Counter
    const control: Counter
    const iw: WeightedCounter
    var win: seq<AdmissionEvent>
    var snapshots: seq<Snapshot>
    ghost var history: seq<AdmissionEvent>

    ghost function Counters(): set<object> {
      {groundTruth, raw, control, iw}
    }

    /** Every accumulator equals a recount: over the history, or over its last `window` events. */
    ghost predicate Valid()
      reads this, groundTruth, raw, control, iw
    {
      && groundTruth != raw && groundTruth != control && raw != control
      && (snapshotEvery != 0 ==> window > 0)
      && Served(total, accepted, noJudgeHits, judged) == ServedOf(history)
      && total == |history| && total == accepted + providerCalls
      && groundTruth.value == TallyOf(history, GroundTruth)
      && raw.value == TallyOf(history, Raw)
      && control.value == TallyOf(history, Control)
      && iw.value == WeightedTallyOf(history)
      && win == LastN(history, window)
      && snapshots == SnapshotsOf(history, window, snapshotEvery)
    }

    constructor (window: nat, snapshotEvery: int)
      requires snapshotEvery != 0 ==> window > 0
      ensures Valid() && history == []
      ensures this.window == window && this.snapshotEvery == snapshotEvery
      ensures fresh(groundTruth) && fresh(raw) && fresh(control) && fresh(iw)
    {
      this.window, this.snapshotEvery := window, snapshotEvery;
      total, accepted, noJudgeHits, judged, providerCalls := 0, 0, 0, 0, 0;
      groundTruth := new Counter();
      raw := new Counter();
      control := new Counter();
      iw := new WeightedCounter();
      win, snapshots, history := [], [], [];
    }

    method Record(e: AdmissionEvent)
      requires Valid()
      modifies this, groundTruth, raw, control, iw
      ensures Valid() && history == old(history) + [e]
    {
      hide ServedOf, TallyOf, WeightedTallyOf, SnapshotsOf, LastN;
      ServedAppend(history, e);
      CountAdded(e);
      Tallied(e);
      Slide(e);
    }

    /** The window moves on, and a snapshot is taken if one is due. */
    method Slide(e: AdmissionEvent)
      requires Served(total, accepted, noJudgeHits, judged) == ServedOf(history + [e])
      requires total == |history| + 1
      requires groundTruth.value == TallyOf(history + [e], GroundTruth)
      requires win == LastN(history, window) && snapshots == SnapshotsOf(history, window, snapshotEvery)
      requires snapshotEvery != 0 ==> window > 0
      modifies `win, `snapshots, `history
      ensures history == old(history) + [e]
      ensures win == LastN(history, window) && snapshots == SnapshotsOf(history, window, snapshotEvery)
    {
      LastNAppend(history, e, window);
      assert (history + [e])[..|history|] == history;
      win := LastN(win + [e], window);
      history := history + [e];
      if SnapshotDue(total, snapshotEvery) {
        var snapshot := WindowSnapshot();
        snapshots := snapshots + [snapshot];
      }
    }

    method CountAdded(e: AdmissionEvent)
      modifies `total, `accepted, `noJudgeHits, `judged, `providerCalls
      ensures total == old(total) + 1
      ensures accepted == old(accepted) + (if e.accepted then 1 else 0)
      ensures noJudgeHits == old(noJudgeHits) + (if e.accepted && !e.judged then 1 else 0)
      ensures providerCalls == old(providerCalls) + (if e.accepted then 0 else 1)
      ensures judged == old(judged) + (if e.judged then 1 else 0)
    {
      total := total + 1;
      if e.accepted {
        accepted := accepted + 1;
        if !e.judged {
          noJudgeHits := noJudgeHits + 1;
        }
      } else {
        providerCalls := providerCalls + 1;
      }
      if e.judged {
        judged := judged + 1;
      }
    }

    method Tallied(e: AdmissionEvent)
      requires groundTruth != raw && groundTruth != control && raw != control
      requires groundTruth.value == TallyOf(history, GroundTruth) && raw.value == TallyOf(history, Raw)
      requires control.value == TallyOf(history, Control) && iw.value == WeightedTallyOf(history)
      modifies groundTruth, raw, control, iw
      ensures groundTruth.value == TallyOf(history + [e], GroundTruth)
      ensures raw.value == TallyOf(history + [e], Raw)
      ensures control.value == TallyOf(history + [e], Control)
      ensures iw.value == WeightedTallyOf(history + [e])
    {
      TallyAppend(history, e, GroundTruth);
      TallyAppend(history, e, Raw);
      TallyAppend(history, e, Control);
      WeightedTallyAppend(history, e);
      groundTruth.Add(e.truth, e.accepted);
      if e.judged {
        raw.Add(e.truth, e.accepted);
      }
      if e.control {
        control.Add(e.truth, e.accepted);
      }
      if e.diagnostic && e.pDiagnostic > 0.0 {
        iw.Add(e.truth, e.accepted, WeightOf(e));
      }
    }

    /** Recounts the window event by event. */
    method WindowSnapshot() returns (s: Snapshot)
      requires history != [] && window > 0 && win == LastN(history, window)
      requires Served(total, accepted, noJudgeHits, judged) == ServedOf(history)
      requires groundTruth.value == TallyOf(history, GroundTruth)
      ensures s == SnapshotOf(history, window)
    {
      assert win != [] && win[|win| - 1] == history[|history| - 1];
      assert win[..0] == [];
      assert TallyOf([], GroundTruth) == Tally(0, 0, 0, 0) && ServedOf([]) == Served(0, 0, 0, 0);
      hide LastN, CountLabel, TallyOf, ServedOf, Ratio, Tally.Fpr, Tally.Tpr;
      var recent := new Counter();
      var hits, unjudged, audits := 0, 0, 0;
      for i := 0 to |win|
        invariant fresh(recent) && 0 <= hits && 0 <= unjudged && 0 <= audits
        invariant recent.value == TallyOf(win[..i], GroundTruth)
        invariant Served(i, hits, unjudged, audits) == ServedOf(win[..i])
      {
        var ev := win[i];
        ServedAppend(win[..i], ev);
        TallyAppend(win[..i], ev, GroundTruth);
        assert win[..i + 1] == win[..i] + [ev];
        recent.Add(ev.truth, ev.accepted);
        if ev.accepted {
          hits := hits + 1;
          if !ev.judged {
            unjudged := unjudged + 1;
          }
        }
        if ev.judged {
          audits := audits + 1;
        }
      }
      assert win[..|win|] == win;
      var t, r := groundTruth.value, recent.value;
      var all, n := total as real, |win| as real;
      s := Snapshot(win[|win| - 1],
                    t, Served(total, accepted, noJudgeHits, judged),
                    Rates(t.Fpr(), t.Tpr(), Ratio(accepted as real, all), Ratio(noJudgeHits as real, all),
                          Ratio(judged as real, all)),
                    r, Served(|win|, hits, unjudged, audits),
                    Rates(r.Fpr(), r.Tpr(), Ratio(hits as real, n), Ratio(unjudged as real, n),
                          Ratio(audits as real, n)));
    }
  }

  // ---- Kish effective sample size ----

  function Kish(sumW: real, sumWSq: real): Option<real> {
    if sumWSq <= 0.0 then None else Some(Square(sumW) / sumWSq)
  }

  /** The sum of squared distances to any x, expanded, is not negative. */
  lemma {:induction false} SpreadNonNegative(ws: seq<real>, x: real)
    ensures SumSquares(ws) - 2.0 * (x * Sum(ws)) + (|ws| as real) * (x * x) >= 0.0
  {
    if ws != [] {
      var n := |ws| - 1;
      var w := ws[n];
      SpreadNonNegative(ws[..n], x);
      assert (w - x) * (w - x) >= 0.0;
      assert (w - x) * (w - x) == w * w - 2.0 * (x * w) + x * x;
      assert x * Sum(ws) == x * Sum(ws[..n]) + x * w;
      assert (|ws| as real) * (x * x) == ((|ws| - 1) as real) * (x * x) + x * x;
    }
  }

  /** Cauchy-Schwarz for positive weights, and the opposite bound. */
  lemma {:induction false} SquaresAgainstSum(ws: seq<real>)
    requires forall i :: 0 <= i < |ws| ==> ws[i] > 0.0
    ensures SumSquares(ws) <= Square(Sum(ws)) <= (|ws| as real) * SumSquares(ws)
    ensures Sum(ws) >= 0.0 && SumSquares(ws) >= 0.0
    ensures ws != [] ==> SumSquares(ws) > 0.0
  {
    if ws != [] {
      var n := |ws| - 1;
      var front, w := ws[..n], ws[n];
      SquaresAgainstSum(front);
      SpreadNonNegative(front, w);
      var s, q, w2, sw, nr := Sum(front), SumSquares(front), w * w, w * Sum(front), n as real;
      ProductPositive(w, w, w2);
      MulMonotone(w, 0.0, s);
      assert Sum(ws) == s + w && SumSquares(ws) == q + w2;
      assert Square(s + w) == Square(s) + 2.0 * sw + w2;
      assert (nr + 1.0) * (q + w2) == nr * q + nr * w2 + q + w2;
    }
  }

  lemma QuotientBetween(x: real, y: real, high: real, product: real)
    requires y > 0.0 && product == high * y && y <= x <= product
    ensures 1.0 <= x / y <= high
  {
    var q := x / y;
    assert q * y == x;
    MulStrict(y, 1.0, q);
    MulStrict(y, q, high);
  }

  lemma KishOfWeights(ws: seq<real>)
    requires forall i :: 0 <= i < |ws| ==> ws[i] > 0.0
    ensures var ess := Kish(Sum(ws), SumSquares(ws));
            && (ess.None? <==> ws == [])
            && (ess.Some? ==> 1.0 <= ess.value <= |ws| as real)
  {
    SquaresAgainstSum(ws);
    if ws != [] {
      var x, q, n := Square(Sum(ws)), SumSquares(ws), |ws| as real;
      var nq := n * q;
      assert q <= x <= nq;
      QuotientBetween(x, q, n, nq);
    }
  }

  /** With n >= 1 weighted events of a label, 1 <= ESS <= n; without any there is no ESS. */
  lemma KishBounds(events: seq<AdmissionEvent>, truth: Label)
    ensures var ws := Weights(events, truth, false);
            var ess := Kish(Sum(ws), SumSquares(ws));
            && (ess.None? <==> ws == [])
            && (ess.Some? ==> 1.0 <= ess.value <= |ws| as real)
  {
    KishOfWeights(Weights(events, truth, false));
  }

  lemma QuotientIs(x: real, y: real, quotient: real)
    requires y > 0.0 && x == quotient * y
    ensures x / y == quotient
  {
  }

  lemma SquareOfProduct(n: real, w: real)
    ensures Square(n * w) == n * (n * Square(w))
  {
    var p := n * w;
    assert p * p == n * (w * p);
    assert w * p == n * (w * w);
  }

  /** n equal weights have an effective size of n. */
  lemma KishOfEqualWeights(n: nat, w: real)
    requires n > 0 && w > 0.0
    ensures Kish(n as real * w, n as real * Square(w)) == Some(n as real)
  {
    ProductPositive(w, w, Square(w));
    ProductPositive(n as real, Square(w), n as real * Square(w));
    SquareOfProduct(n as real, w);
    hide Square;
    QuotientIs(Square(n as real * w), n as real * Square(w), n as real);
  }

  // ---- what is counted ----

  /** The event has this label, is accepted if asked, and the channel sees it: all events, the judged ones or the
      control-audited ones. */
  predicate Shows(e: AdmissionEvent, channel: Channel, truth: Label, acceptedOnly: bool) {
    && e.truth == truth && (acceptedOnly ==> e.accepted)
    && (channel == Raw ==> e.judged) && (channel == Control ==> e.control)
  }

  /** The positions of such events. */
  ghost function Labelled(events: seq<AdmissionEvent>, channel: Channel, truth: Label, acceptedOnly: bool): set<int> {
    set i | 0 <= i < |events| && Shows(events[i], channel, truth, acceptedOnly)
  }

  lemma LabelledAppend(events: seq<AdmissionEvent>, e: AdmissionEvent, channel: Channel, truth: Label,
                       acceptedOnly: bool)
    ensures |Labelled(events + [e], channel, truth, acceptedOnly)|
            == |Labelled(events, channel, truth, acceptedOnly)|
               + if Shows(e, channel, truth, acceptedOnly) then 1 else 0
  {
    hide Shows;
    assert Labelled(events + [e], channel, truth, acceptedOnly)
        == Labelled(events, channel, truth, acceptedOnly)
           + if Shows(e, channel, truth, acceptedOnly) then {|events|} else {};
  }

  lemma {:induction false} LabelsAreCounted(events: seq<AdmissionEvent>, channel: Channel, truth: Label,
                                            acceptedOnly: bool)
    ensures CountLabel(events, channel, truth, acceptedOnly) == |Labelled(events, channel, truth, acceptedOnly)|
  {
    if events != [] {
      hide Labelled;
      var front, e := events[..|events| - 1], events[|events| - 1];
      assert events == front + [e];
      LabelsAreCounted(front, channel, truth, acceptedOnly);
      LabelledAppend(front, e, channel, truth, acceptedOnly);
    }
  }

  /** The four counters of a channel count H0 and H1 events, and the accepted ones among them. */
  lemma TallyCounts(events: seq<AdmissionEvent>, channel: Channel)
    ensures var t := TallyOf(events, channel);
            && t.nH0 == |Labelled(events, channel, Some(0), false)|
            && t.fp == |Labelled(events, channel, Some(0), true)|
            && t.nH1 == |Labelled(events, channel, Some(1), false)|
            && t.tp == |Labelled(events, channel, Some(1), true)|
  {
    LabelsAreCounted(events, channel, H0, false);
    LabelsAreCounted(events, channel, H0, true);
    LabelsAreCounted(events, channel, H1, false);
    LabelsAreCounted(events, channel, H1, true);
    hide CountLabel, Labelled;
  }

  /** The event has this outcome and was judged or not, where asked. */
  predicate Fits(e: AdmissionEvent, accepted: Option<bool>, judged: Option<bool>) {
    (accepted.Some? ==> e.accepted == accepted.value) && (judged.Some? ==> e.judged == judged.value)
  }

  ghost function Positions(events: seq<AdmissionEvent>, accepted: Option<bool>, judged: Option<bool>): set<int> {
    set i | 0 <= i < |events| && Fits(events[i], accepted, judged)
  }

  lemma PositionsAppend(events: seq<AdmissionEvent>, e: AdmissionEvent, accepted: Option<bool>, judged: Option<bool>)
    ensures |Positions(events + [e], accepted, judged)|
            == |Positions(events, accepted, judged)| + if Fits(e, accepted, judged) then 1 else 0
  {
    hide Fits;
    assert Positions(events + [e], accepted, judged)
        == Positions(events, accepted, judged) + if Fits(e, accepted, judged) then {|events|} else {};
  }

  /** Hits, hits without a judge, and judged events. */
  lemma {:induction false} ServedCounts(events: seq<AdmissionEvent>)
    ensures ServedOf(events) == Served(|events|, |Positions(events, Some(true), None)|,
                                       |Positions(events, Some(true), Some(false))|,
                                       |Positions(events, None, Some(true))|)
  {
    if events != [] {
      var front, e := events[..|events| - 1], events[|events| - 1];
      assert events == front + [e];
      ServedCounts(front);
      PositionsAppend(front, e, Some(true), None);
      PositionsAppend(front, e, Some(true), Some(false));
      PositionsAppend(front, e, None, Some(true));
      hide Positions;
    }
  }

  /** A ratio times its denominator is its numerator; there is none for a denominator of zero. */
  predicate IsRatio(x: Option<real>, numerator: nat, denominator: nat) {
    (x.None? <==> denominator == 0) && (x.Some? ==> x.value * denominator as real == numerator as real)
  }

  lemma RatioIsRatio(numerator: nat, denominator: nat)
    ensures IsRatio(Ratio(numerator as real, denominator as real), numerator, denominator)
  {
    if denominator > 0 {
      var x, y := numerator as real, denominator as real;
      assert (x / y) * y == x;
    }
  }

  /** The rates: false accepts among H0, true accepts among H1, and the shares of all events. */
  lemma RatesAreShares(t: Tally, s: Served)
    ensures var rates := RatesOf(t, s);
            && IsRatio(rates.fpr, t.fp, t.nH0) && IsRatio(rates.tpr, t.tp, t.nH1)
            && IsRatio(rates.hitRate, s.accepted, s.total) && IsRatio(rates.noJudgeHitRate, s.noJudgeHits, s.total)
            && IsRatio(rates.judgedFraction, s.judged, s.total)
  {
    RatioIsRatio(t.fp, t.nH0);
    RatioIsRatio(t.tp, t.nH1);
    RatioIsRatio(s.accepted, s.total);
    RatioIsRatio(s.noJudgeHits, s.total);
    RatioIsRatio(s.judged, s.total);
    hide Ratio, IsRatio;
  }

  /** The j-th snapshot. */
  function SnapshotEnd(j: nat, every: nat): nat { every * (j + 1) }

  /** A snapshot after every `every` events and at no other time; it shows the whole history so far and the last
      `window` events of it. */
  lemma {:induction false} SnapshotsAreRegular(events: seq<AdmissionEvent>, window: nat, every: nat)
    requires every > 0
    ensures |SnapshotsOf(events, window, every)| == |events| / every
    ensures forall j :: 0 <= j < |SnapshotsOf(events, window, every)| ==>
              && 0 < SnapshotEnd(j, every) <= |events|
              && SnapshotsOf(events, window, every)[j] == SnapshotOf(events[..SnapshotEnd(j, every)], window)
  {
    hide SnapshotOf;
    if events == [] {
      QuotientStep(1, every);
    } else {
      var n := |events|;
      SnapshotsAreRegular(events[..n - 1], window, every);
      QuotientStep(n, every);
      var before, after := SnapshotsOf(events[..n - 1], window, every), SnapshotsOf(events, window, every);
      forall j | 0 <= j < |after|
        ensures 0 < SnapshotEnd(j, every) <= n && after[j] == SnapshotOf(events[..SnapshotEnd(j, every)], window)
      {
        if j < |before| {
          assert events[..n - 1][..SnapshotEnd(j, every)] == events[..SnapshotEnd(j, every)];
        } else {
          assert SnapshotEnd(j, every) == n && events[..n] == events;
        }
      }
    }
  }

  /** What a snapshot shows. */
  lemma SnapshotShows(events: seq<AdmissionEvent>, window: nat)
    requires events != []
    ensures var s := SnapshotOf(events, window);
            var recent := events[|events| - Min(|events|, window)..];
            && s.last == events[|events| - 1]
            && s.cumulative == TallyOf(events, GroundTruth) && s.recent == TallyOf(recent, GroundTruth)
            && s.cumulativeServed == ServedOf(events) && s.recentServed == ServedOf(recent)
            && s.cumulativeRates == RatesOf(s.cumulative, s.cumulativeServed)
            && s.recentRates == RatesOf(s.recent, s.recentServed)
  {
    assert LastN(events, window) == events[|events| - Min(|events|, window)..];
    hide TallyOf, ServedOf, RatesOf, LastN;
  }

  // ---- inverse-probability weighting ----

  /** What a diagnostic audit of an event adds to the weighted sums. */
  lemma WeightedStep(events: seq<AdmissionEvent>, e: AdmissionEvent)
    requires e.pDiagnostic > 0.0
    ensures var v, w := WeightedTallyOf(events), 1.0 / e.pDiagnostic;
            WeightedTallyOf(events + [e])
            == if !e.diagnostic then v
               else if e.truth == Some(0) then
                 v.(wH0 := v.wH0 + w, wH0Sq := v.wH0Sq + Square(w), nH0 := v.nH0 + 1,
                    fpW := v.fpW + if e.accepted then w else 0.0)
               else if e.truth == Some(1) then
                 v.(wH1 := v.wH1 + w, wH1Sq := v.wH1Sq + Square(w), nH1 := v.nH1 + 1,
                    tpW := v.tpW + if e.accepted then w else 0.0)
               else v
  {
    hide WeightedTallyOf, Square;
    QuotientPositive(1.0, e.pDiagnostic, WeightOf(e));
    WeightedTallyAppend(events, e);
  }

  /** The mean of x and y when x is drawn with probability p. */
  function Mean(p: real, x: real, y: real): real { p * x + (1.0 - p) * y }

  lemma MeanOfWeight(p: real, base: real)
    requires p > 0.0
    ensures Mean(p, base + 1.0 / p, base) == base + 1.0 && Mean(p, base, base) == base
    ensures Mean(p, base + 0.0, base) == base
  {
    assert p * (1.0 / p) == 1.0;
    assert p * (base + 1.0 / p) == p * base + p * (1.0 / p);
  }

  /** Unbiased: whatever came before, the mean over the diagnostic draw of an event, audited with its logged
      probability, moves each weighted sum by exactly what counting every event would. */
  lemma WeightsAreUnbiased(events: seq<AdmissionEvent>, e: AdmissionEvent)
    requires e.pDiagnostic > 0.0
    ensures var v, p := WeightedTallyOf(events), e.pDiagnostic;
            var x, y := WeightedTallyOf(events + [e.(diagnostic := true)]),
                        WeightedTallyOf(events + [e.(diagnostic := false)]);
            && Mean(p, x.wH0, y.wH0) == v.wH0 + (if e.truth == Some(0) then 1.0 else 0.0)
            && Mean(p, x.wH1, y.wH1) == v.wH1 + (if e.truth == Some(1) then 1.0 else 0.0)
            && Mean(p, x.fpW, y.fpW) == v.fpW + (if e.truth == Some(0) && e.accepted then 1.0 else 0.0)
            && Mean(p, x.tpW, y.tpW) == v.tpW + (if e.truth == Some(1) && e.accepted then 1.0 else 0.0)
  {
    hide WeightedTallyOf, Mean, Square;
    WeightedStep(events, e.(diagnostic := true));
    WeightedStep(events, e.(diagnostic := false));
    var v, p := WeightedTallyOf(events), e.pDiagnostic;
    MeanOfWeight(p, v.wH0);
    MeanOfWeight(p, v.wH1);
    MeanOfWeight(p, v.fpW);
    MeanOfWeight(p, v.tpW);
  }
}
