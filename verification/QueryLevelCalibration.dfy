/** Query-level calibration: one selected candidate per query, a threshold from the selected
    H0 scores, and a Wilson gate (src/mlcache/calibration/query_level.py:54-400). */
module QueryLevelCalibration {
  import opened Scores
  import opened Thresholds
  import opened Wilson
  import opened RealArithmetic

  datatype Candidate = Candidate(score: Score, truth: Label, rank: Option<int>, key: Option<string>)

  datatype Record = Record(queryId: string, candidates: seq<Candidate>)

  datatype Status = Hit | Miss | Abstain

  datatype Decision = Decision(queryId: string, status: Status, selected: Option<Candidate>)

  datatype Dataset = Dataset(decisions: seq<Decision>, h0Scores: seq<Score>, allPairH0Scores: seq<Score>,
                             totalQueries: nat, skippedQueries: nat, abstainedQueries: nat)

  type SelectionFn = seq<Candidate> -> Option<Candidate>

  // ---- candidate selection ----

  function EffectiveRank(c: Candidate, n: nat): int {
    if c.rank.Some? then c.rank.value else n + 1
  }

  /** The order of the selection key (score, -rank); a missing rank counts as n + 1. */
  predicate Better(c: Candidate, d: Candidate, n: nat) {
    c.score > d.score || (c.score == d.score && EffectiveRank(c, n) < EffectiveRank(d, n))
  }

  function FirstBest(cs: seq<Candidate>, n: nat): Candidate
    requires cs != []
  {
    var last := cs[|cs| - 1];
    if |cs| == 1 then last
    else
      var best := FirstBest(cs[..|cs| - 1], n);
      if Better(last, best, n) then last else best
  }

  function SelectMaxScore(cs: seq<Candidate>): Option<Candidate> {
    if cs == [] then None else Some(FirstBest(cs, |cs|))
  }

  lemma {:induction false} FirstBestIsFirst(cs: seq<Candidate>, n: nat) returns (i: nat)
    requires cs != []
    ensures i < |cs| && FirstBest(cs, n) == cs[i]
    ensures forall j :: 0 <= j < |cs| ==> !Better(cs[j], cs[i], n)
    ensures forall j :: 0 <= j < i ==> Better(cs[i], cs[j], n)
  {
    i := |cs| - 1;
    if |cs| > 1 {
      var front := cs[..|cs| - 1];
      var k := FirstBestIsFirst(front, n);
      if Better(cs[i], front[k], n) {
        forall j | 0 <= j < i ensures Better(cs[i], cs[j], n) {
          assert cs[j] == front[j] && !Better(front[j], front[k], n);
        }
      } else {
        i := k;
        forall j | 0 <= j < |cs| ensures !Better(cs[j], cs[i], n) {
          assert j < |cs| - 1 ==> cs[j] == front[j];
        }
      }
    }
  }

  /** The selected candidate has the top score; among those the least rank; among those it comes first. */
  lemma SelectMaxScoreIsFirstBest(cs: seq<Candidate>, i: nat)
    requires i < |cs|
    requires forall j :: 0 <= j < |cs| ==> !Better(cs[j], cs[i], |cs|)
    requires forall j :: 0 <= j < i ==> Better(cs[i], cs[j], |cs|)
    ensures SelectMaxScore(cs) == Some(cs[i])
  {
    var k := FirstBestIsFirst(cs, |cs|);
  }

  /** The selection in terms of scores and ranks alone: the highest score, then the least rank, where a missing
      one counts as the number of candidates plus one, then the first position. */
  lemma SelectionIs(cs: seq<Candidate>, i: nat)
    requires i < |cs|
    requires forall j :: 0 <= j < |cs| ==> cs[j].score <= cs[i].score
    requires forall j :: 0 <= j < |cs| && cs[j].score == cs[i].score ==>
               var r, s := if cs[i].rank.Some? then cs[i].rank.value else |cs| + 1,
                           if cs[j].rank.Some? then cs[j].rank.value else |cs| + 1;
               r < s || (r == s && i <= j)
    ensures SelectMaxScore(cs) == Some(cs[i])
  {
    forall j | 0 <= j < |cs| ensures !Better(cs[j], cs[i], |cs|) && (j < i ==> Better(cs[i], cs[j], |cs|)) {
    }
    SelectMaxScoreIsFirstBest(cs, i);
  }

  // ---- what a run over the records yields, record by record ----

  /** No selection is made for an empty candidate list. */
  function Selection(r: Record, select: SelectionFn): Option<Candidate> {
    if r.candidates == [] then None else select(r.candidates)
  }

  function DecisionFor(r: Record, select: SelectionFn, abstainOnEmpty: bool): seq<Decision> {
    match Selection(r, select)
    case Some(c) => [Decision(r.queryId, Hit, Some(c))]
    case None => if abstainOnEmpty then [Decision(r.queryId, Abstain, None)] else []
  }

  function Decisions(records: seq<Record>, select: SelectionFn, abstainOnEmpty: bool): seq<Decision> {
    if records == [] then []
    else
      var n := |records| - 1;
      Decisions(records[..n], select, abstainOnEmpty) + DecisionFor(records[n], select, abstainOnEmpty)
  }

  function SelectedH0In(d: Decision): seq<Score> {
    if d.selected.Some? && d.selected.value.truth == H0 then [d.selected.value.score] else []
  }

  /** Scores of the selected candidates known to be H0, in order. */
  function SelectedH0(decisions: seq<Decision>): seq<Score> {
    if decisions == [] then []
    else
      var n := |decisions| - 1;
      SelectedH0(decisions[..n]) + SelectedH0In(decisions[n])
  }

  function H0ScoresOf(cs: seq<Candidate>): seq<Score> {
    if cs == [] then []
    else (if cs[0].truth == H0 then [cs[0].score] else []) + H0ScoresOf(cs[1..])
  }

  function AllPairH0(records: seq<Record>): seq<Score> {
    if records == [] then []
    else
      var n := |records| - 1;
      AllPairH0(records[..n]) + H0ScoresOf(records[n].candidates)
  }

  /** The positions of the candidates that are known to be H0 and score x. */
  ghost function H0Positions(cs: seq<Candidate>, x: Score): set<int> {
    set i | 0 <= i < |cs| && cs[i].truth == Some(0) && cs[i].score == x
  }

  lemma Associates(a: seq<Score>, b: seq<Score>, c: seq<Score>)
    ensures a + (b + c) == a + b + c
  {
  }

  lemma {:induction false} H0ScoresAppend(cs: seq<Candidate>, c: Candidate)
    ensures H0ScoresOf(cs + [c]) == H0ScoresOf(cs) + if c.truth == Some(0) then [c.score] else []
  {
    var last := if c.truth == Some(0) then [c.score] else [];
    if cs == [] {
      assert cs + [c] == [c] && [c][1..] == [];
      assert last + [] == last && [] + last == last;
    } else {
      var first := if cs[0].truth == H0 then [cs[0].score] else [];
      assert (cs + [c])[1..] == cs[1..] + [c] && (cs + [c])[0] == cs[0];
      H0ScoresAppend(cs[1..], c);
      Associates(first, H0ScoresOf(cs[1..]), last);
      assert H0ScoresOf(cs) == first + H0ScoresOf(cs[1..]);
      assert H0ScoresOf(cs + [c]) == first + H0ScoresOf(cs[1..] + [c]);
      hide H0ScoresOf;
    }
  }

  lemma H0PositionsAppend(cs: seq<Candidate>, c: Candidate, x: Score)
    ensures |H0Positions(cs + [c], x)| == |H0Positions(cs, x)| + if c.truth == Some(0) && c.score == x then 1 else 0
  {
    var here := c.truth == Some(0) && c.score == x;
    assert H0Positions(cs + [c], x) == H0Positions(cs, x) + if here then {|cs|} else {};
  }

  /** The scores of a record's H0 pairs, each as often as it occurs. */
  lemma {:induction false} H0ScoresAreCounted(cs: seq<Candidate>, x: Score)
    ensures multiset(H0ScoresOf(cs))[x] == |H0Positions(cs, x)|
    decreases |cs|
  {
    if cs != [] {
      hide H0ScoresOf, H0Positions;
      var front, c := cs[..|cs| - 1], cs[|cs| - 1];
      assert cs == front + [c];
      H0ScoresAreCounted(front, x);
      H0ScoresAppend(front, c);
      H0PositionsAppend(front, c, x);
    }
  }

  /** What one record adds to the decisions and to the selected H0 scores. */
  lemma RecordDecides(r: Record, select: SelectionFn, abstainOnEmpty: bool)
    ensures var selected := if r.candidates == [] then None else select(r.candidates);
            DecisionFor(r, select, abstainOnEmpty)
            == (if selected.Some? then [Decision(r.queryId, Hit, selected)]
                else if abstainOnEmpty then [Decision(r.queryId, Abstain, None)]
                else [])
            && SelectedH0(DecisionFor(r, select, abstainOnEmpty))
               == if selected.Some? && selected.value.truth == Some(0) then [selected.value.score] else []
  {
    var made := DecisionFor(r, select, abstainOnEmpty);
    if made != [] {
      assert made[..0] == [];
    }
  }

  function Abstentions(decisions: seq<Decision>): nat {
    if decisions == [] then 0
    else
      var n := |decisions| - 1;
      Abstentions(decisions[..n]) + if decisions[n].status.Abstain? then 1 else 0
  }

  /** The dataset agrees with the records: every query is decided or skipped, the H0 scores
      are those of the decisions, and the two counters count what they are named after. */
  ghost predicate DatasetOf(d: Dataset, records: seq<Record>, select: SelectionFn, abstainOnEmpty: bool) {
    && d.decisions == Decisions(records, select, abstainOnEmpty)
    && d.h0Scores == SelectedH0(d.decisions)
    && d.allPairH0Scores == AllPairH0(records)
    && d.totalQueries == |records|
    && d.skippedQueries + |d.decisions| == d.totalQueries
    && d.abstainedQueries == Abstentions(d.decisions)
    && (abstainOnEmpty ==> d.skippedQueries == 0)
    && (!abstainOnEmpty ==> d.abstainedQueries == 0)
  }

  lemma DecisionAppended(decisions: seq<Decision>, d: Decision)
    ensures SelectedH0(decisions + [d]) == SelectedH0(decisions) + SelectedH0In(d)
    ensures Abstentions(decisions + [d]) == Abstentions(decisions) + if d.status.Abstain? then 1 else 0
  {
    assert (decisions + [d])[..|decisions|] == decisions;
  }

  /** The dataset after one more record: its decision, if any, is appended and one counter moves. */
  ghost function AppendRecord(d: Dataset, r: Record, select: SelectionFn, abstainOnEmpty: bool): Dataset {
    var all := d.allPairH0Scores + H0ScoresOf(r.candidates);
    var made := DecisionFor(r, select, abstainOnEmpty);
    if made == [] then
      d.(allPairH0Scores := all, totalQueries := d.totalQueries + 1, skippedQueries := d.skippedQueries + 1)
    else
      Dataset(d.decisions + made, d.h0Scores + SelectedH0In(made[0]), all, d.totalQueries + 1, d.skippedQueries,
              d.abstainedQueries + if made[0].status.Abstain? then 1 else 0)
  }

  lemma RecordAppended(d: Dataset, records: seq<Record>, r: Record, select: SelectionFn, abstainOnEmpty: bool)
    requires DatasetOf(d, records, select, abstainOnEmpty)
    ensures DatasetOf(AppendRecord(d, r, select, abstainOnEmpty), records + [r], select, abstainOnEmpty)
  {
    assert (records + [r])[..|records|] == records;
    var made := DecisionFor(r, select, abstainOnEmpty);
    if made == [] {
      assert d.decisions + made == d.decisions;
    } else {
      DecisionAppended(d.decisions, made[0]);
    }
  }

  ghost function DatasetAfter(records: seq<Record>, select: SelectionFn, abstainOnEmpty: bool): Dataset {
    if records == [] then Dataset([], [], [], 0, 0, 0)
    else
      var n := |records| - 1;
      AppendRecord(DatasetAfter(records[..n], select, abstainOnEmpty), records[n], select, abstainOnEmpty)
  }

  lemma EmptyDataset(select: SelectionFn, abstainOnEmpty: bool)
    ensures DatasetOf(Dataset([], [], [], 0, 0, 0), [], select, abstainOnEmpty)
  {
  }

  lemma {:induction false} DatasetAfterAll(records: seq<Record>, select: SelectionFn, abstainOnEmpty: bool)
    ensures DatasetOf(DatasetAfter(records, select, abstainOnEmpty), records, select, abstainOnEmpty)
  {
    hide AppendRecord, DatasetOf, Decisions, AllPairH0, SelectedH0, Abstentions;
    if records == [] {
      EmptyDataset(select, abstainOnEmpty);
    } else {
      var n := |records| - 1;
      DatasetAfterAll(records[..n], select, abstainOnEmpty);
      RecordAppended(DatasetAfter(records[..n], select, abstainOnEmpty), records[..n], records[n], select,
                     abstainOnEmpty);
      assert records == records[..n] + [records[n]];
    }
  }

  datatype Config = Config(target: real, tie: TieMode, z: real, margin: real, minSelectedH0: int, requireFinite: bool) {
    predicate Valid() {
      0.0 < target < 1.0 && minSelectedH0 > 0 && z > 0.0 && margin >= 0.0
    }
  }

  datatype GateReason = MinSelectedH0NotMet | ThresholdNotFinite | WilsonUpperUnavailable | WilsonUpperExceedsBound

  datatype Calibration = Calibration(threshold: Option<Score>, candidate: Option<Score>, selectedH0: nat,
                                     selectedAccepts: nat, allPairAccepts: nat, wilsonUpper: Option<real>,
                                     reason: Option<GateReason>)

  function CalibrateDataset(dataset: Dataset, base: Config, target: Option<real>, roots: real -> real)
    : Result<Calibration>
  {
    var config := if target.Some? then base.(target := target.value) else base;
    if target.Some? && !(0.0 < target.value < 1.0) then Err("target_false_accept_rate must be in (0, 1)")
    else
      var n := |dataset.h0Scores|;
      var candidate := ThresholdFromSelectedH0Scores(dataset.h0Scores, config.target, config.tie);
      var accepts := AcceptCount(dataset.h0Scores, candidate, config.tie);
      var root := if n == 0 then 0.0 else roots(Radicand(Rate(accepts, n), n as real, config.z));
      match WilsonUpperBound(accepts, n, config.z, root)
      case Err(e) => Err(e)
      case Ok(upper) =>
        var finite := candidate.Some? && IsFinite(candidate.value);
        var reason :=
          if n < config.minSelectedH0 then Some(MinSelectedH0NotMet)
          else if config.requireFinite && !finite then Some(ThresholdNotFinite)
          else if upper.None? then Some(WilsonUpperUnavailable)
          else if upper.value > config.target + config.margin then Some(WilsonUpperExceedsBound)
          else None;
        Ok(Calibration(if reason.None? then candidate else None, candidate, n, accepts,
                       AcceptCount(dataset.allPairH0Scores, candidate, config.tie), upper, reason))
  }

  class DefaultQueryLevelCalibrationBuilder {
    const select: SelectionFn
    const abstainOnEmpty: bool
    const config: Config

    constructor (select: SelectionFn, abstainOnEmpty: bool, config: Config)
      requires config.Valid()
      ensures this.select == select && this.abstainOnEmpty == abstainOnEmpty && this.config == config
    {
      this.select := select;
      this.abstainOnEmpty := abstainOnEmpty;
      this.config := config;
    }

    /** One more record: its decision, if any, is appended and one counter moves. */
    method AddRecord(d: Dataset, record: Record) returns (next: Dataset)
      ensures next == AppendRecord(d, record, select, abstainOnEmpty)
    {
      next := d.(totalQueries := d.totalQueries + 1,
                 allPairH0Scores := d.allPairH0Scores + H0ScoresOf(record.candidates));
      var selected := Selection(record, select);
      if selected.None? {
        if abstainOnEmpty {
          next := next.(decisions := next.decisions + [Decision(record.queryId, Abstain, None)],
                        abstainedQueries := next.abstainedQueries + 1);
        } else {
          next := next.(skippedQueries := next.skippedQueries + 1);
        }
        return;
      }
      next := next.(decisions := next.decisions + [Decision(record.queryId, Hit, selected)]);
      if selected.value.truth == H0 {
        next := next.(h0Scores := next.h0Scores + [selected.value.score]);
      }
    }

    method BuildCalibrationDecisions(records: seq<Record>) returns (d: Dataset)
      ensures DatasetOf(d, records, select, abstainOnEmpty)
    {
      hide DatasetOf, AppendRecord;
      d := Dataset([], [], [], 0, 0, 0);
      for i := 0 to |records|
        invariant d == DatasetAfter(records[..i], select, abstainOnEmpty)
      {
        assert records[..i + 1][..i] == records[..i];
        d := AddRecord(d, records[i]);
      }
      assert records[..|records|] == records;
      DatasetAfterAll(records, select, abstainOnEmpty);
    }

    /** Calibrates from records; `roots` stands for `math.sqrt`. */
    method Calibrate(records: seq<Record>, target: Option<real>, roots: real -> real)
      returns (dataset: Dataset, r: Result<Calibration>)
      ensures DatasetOf(dataset, records, select, abstainOnEmpty)
      ensures r == CalibrateDataset(dataset, config, target, roots)
    {
      dataset := BuildCalibrationDecisions(records);
      r := CalibrateDataset(dataset, config, target, roots);
    }
  }

  // ---- calibration of a dataset ----

  /** `roots` behaves like a square root. */
  ghost predicate IsSqrt(roots: real -> real) {
    forall x :: x >= 0.0 ==> IsRoot(roots(x), x)
  }

  lemma {:induction false} AcceptCountBounded(scores: seq<Score>, tau: Option<Score>, tie: TieMode)
    ensures AcceptCount(scores, tau, tie) <= |scores|
  {
    if tau.Some? && scores != [] {
      AcceptCountBounded(scores[1..], tau, tie);
    }
  }

  lemma RadicandNonNegative(p: real, n: real, z: real)
    requires 0.0 <= p <= 1.0 && n > 0.0
    ensures Radicand(p, n, z) >= 0.0
  {
    var x, z2, d := p * (1.0 - p), z * z, 4.0 * n * n;
    ProductNonNegative(p, 1.0 - p, x);
    assert z2 >= 0.0;
    var n2 := n * n;
    ProductPositive(n, n, n2);
    assert d == 4.0 * n2;
    NonNegativeQuotient(x, n, x / n);
    NonNegativeQuotient(z2, d, z2 / d);
  }

  lemma SqrtIsWilsonRoot(accepts: nat, n: int, z: real, roots: real -> real)
    requires accepts <= n && n > 0 && z > 0.0 && IsSqrt(roots)
    ensures IsWilsonRoot(accepts, n, z, roots(Radicand(Rate(accepts, n), n as real, z)))
  {
    RateInUnit(accepts, n);
    RadicandNonNegative(Rate(accepts, n), n as real, z);
  }

  /** Exactly when a calibration publishes a threshold, without a square root; and what a published
      threshold guarantees about the scores it was taken from. */
  lemma PublishedIff(dataset: Dataset, config: Config, roots: real -> real)
    requires config.Valid() && IsSqrt(roots)
    ensures CalibrateDataset(dataset, config, None, roots).Ok?
    ensures var c := CalibrateDataset(dataset, config, None, roots).value;
            && c.candidate == ThresholdFromSelectedH0Scores(dataset.h0Scores, config.target, config.tie)
            && c.selectedH0 == |dataset.h0Scores|
            && c.selectedAccepts == AcceptCount(dataset.h0Scores, c.candidate, config.tie)
            && (c.threshold.Some? <==>
                && c.selectedH0 >= config.minSelectedH0
                && (config.requireFinite ==> IsFinite(c.candidate.value))
                && UpperAtMost(c.selectedAccepts, c.selectedH0, config.z, config.target + config.margin))
            && (c.threshold.Some? ==> c.threshold == c.candidate
                                      && Rate(c.selectedAccepts, c.selectedH0) <= config.target + config.margin)
  {
    var n := |dataset.h0Scores|;
    var candidate := ThresholdFromSelectedH0Scores(dataset.h0Scores, config.target, config.tie);
    var accepts := AcceptCount(dataset.h0Scores, candidate, config.tie);
    AcceptCountBounded(dataset.h0Scores, candidate, config.tie);
    if n > 0 {
      SqrtIsWilsonRoot(accepts, n, config.z, roots);
      var root := roots(Radicand(Rate(accepts, n), n as real, config.z));
      UpperBoundRange(accepts, n, config.z, root);
      UpperBoundComparison(accepts, n, config.z, root, config.target + config.margin);
    }
  }

  /** A target given for one call replaces the configured one, and must be a rate. */
  lemma TargetOverride(dataset: Dataset, config: Config, target: real, roots: real -> real)
    ensures CalibrateDataset(dataset, config, Some(target), roots)
            == if 0.0 < target < 1.0 then CalibrateDataset(dataset, config.(target := target), None, roots)
               else Err("target_false_accept_rate must be in (0, 1)")
  {
    hide WilsonUpperBound, AcceptCount, ThresholdFromSelectedH0Scores;
  }

  /** What a calibration reports beside its threshold: the Wilson bound on the selected accepts, present unless no
      H0 was selected; the accepts among all H0 pairs; and the first gate that failed. */
  lemma CalibrationReports(dataset: Dataset, config: Config, roots: real -> real)
    requires config.Valid() && IsSqrt(roots)
    ensures CalibrateDataset(dataset, config, None, roots).Ok?
    ensures var c := CalibrateDataset(dataset, config, None, roots).value;
            var n, allowed := |dataset.h0Scores|, config.target + config.margin;
            && (c.wilsonUpper.None? <==> n == 0)
            && (n > 0 ==> (c.wilsonUpper.value <= allowed <==> UpperAtMost(c.selectedAccepts, n, config.z, allowed)))
            && c.allPairAccepts == AcceptCount(dataset.allPairH0Scores, c.candidate, config.tie)
            && c.reason == (if n < config.minSelectedH0 then Some(MinSelectedH0NotMet)
                            else if config.requireFinite && !IsFinite(c.candidate.value) then Some(ThresholdNotFinite)
                            else if c.wilsonUpper.value > allowed then Some(WilsonUpperExceedsBound)
                            else None)
            && (c.threshold.Some? <==> c.reason.None?)
  {
    var n := |dataset.h0Scores|;
    var candidate := ThresholdFromSelectedH0Scores(dataset.h0Scores, config.target, config.tie);
    var accepts := AcceptCount(dataset.h0Scores, candidate, config.tie);
    AcceptCountBounded(dataset.h0Scores, candidate, config.tie);
    if n > 0 {
      SqrtIsWilsonRoot(accepts, n, config.z, roots);
      var root := roots(Radicand(Rate(accepts, n), n as real, config.z));
      UpperBoundRange(accepts, n, config.z, root);
      UpperBoundComparison(accepts, n, config.z, root, config.target + config.margin);
    }
  }
}
