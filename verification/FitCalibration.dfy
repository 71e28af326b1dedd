/** The threshold a fit gets for its H0 calibration scores (src/mlcache/scorers/utils.py:52-72), and how it
    relates to the query-level threshold of the same budget. */
module FitCalibration {
  import opened Scores
  import opened OrderStatistics
  import opened Thresholds
  import opened RealArithmetic

  // ---- the specification ----

  /** Under the threshold x at most `allowed` scores are accepted. */
  predicate Fits(scores: seq<Score>, x: Score, allowed: nat, tie: TieMode) {
    CountGe(scores, Cut(x, tie)) <= allowed
  }

  /** The least candidate that fits, else +inf. */
  function LeastFitting(candidates: seq<Score>, scores: seq<Score>, allowed: nat, tie: TieMode): Score {
    if candidates == [] then POS_INF
    else
      var rest := LeastFitting(candidates[1..], scores, allowed, tie);
      if Fits(scores, candidates[0], allowed, tie) && candidates[0] < rest then candidates[0] else rest
  }

  function FitThreshold(scores: seq<Score>, rate: real, tie: TieMode): Score {
    LeastFitting(scores, scores, AllowedAccepts(|scores|, rate), tie)
  }

  lemma {:induction false} LeastFittingIs(candidates: seq<Score>, scores: seq<Score>, allowed: nat, tie: TieMode)
    ensures var t := LeastFitting(candidates, scores, allowed, tie);
            && (t == POS_INF || (t in candidates && Fits(scores, t, allowed, tie)))
            && forall x | x in candidates :: Fits(scores, x, allowed, tie) ==> t <= x
  {
    hide Fits;
    if candidates != [] {
      LeastFittingIs(candidates[1..], scores, allowed, tie);
    }
  }

  lemma QuotientAtMost(k: real, n: real, rate: real, whole: real)
    requires n > 0.0 && whole == rate * n
    ensures k / n <= rate <==> k <= whole
  {
    var q := k / n;
    assert q * n == k;
    MulStrict(n, q, rate);
  }

  /** What `false_accepts / n <= alpha` asks of a count. */
  lemma WithinRate(count: nat, n: nat, rate: real)
    requires count <= n && 0 < n && 0.0 < rate < 1.0
    ensures (count as real) / (n as real) <= rate <==> count <= AllowedAccepts(n, rate)
  {
    var nr := n as real;
    var x := rate * nr;
    QuotientAtMost(count as real, nr, rate, x);
    ProductPositive(1.0 - rate, nr, nr - x);
    ProductPositive(rate, nr, x);
    assert count as real <= x <==> count <= x.Floor;
    assert AllowedAccepts(n, rate) == x.Floor;
  }

  // ---- the loop ----

  /** A distinct score and how often it occurs. */
  datatype Group = Group(value: Score, count: nat)

  function AddTo(groups: seq<Group>, x: Score): seq<Group> {
    if groups == [] || x < groups[0].value then [Group(x, 1)] + groups
    else if x == groups[0].value then [Group(x, groups[0].count + 1)] + groups[1..]
    else [groups[0]] + AddTo(groups[1..], x)
  }

  /** `unique(scores, return_counts=True)`: the distinct scores in ascending order, with their counts. */
  function Groups(scores: seq<Score>): seq<Group> {
    if scores == [] then [] else AddTo(Groups(scores[1..]), scores[0])
  }

  ghost predicate Ascending(groups: seq<Group>) {
    forall i, j :: 0 <= i < j < |groups| ==> groups[i].value < groups[j].value
  }

  /** How many scores of the groups reach the cut. */
  function GroupedGe(groups: seq<Group>, c: int): nat {
    if groups == [] then 0 else (if groups[0].value >= c then groups[0].count else 0) + GroupedGe(groups[1..], c)
  }

  lemma {:induction false} AddToCounts(groups: seq<Group>, x: Score, c: int)
    ensures GroupedGe(AddTo(groups, x), c) == GroupedGe(groups, c) + if x >= c then 1 else 0
  {
    if groups != [] && x > groups[0].value {
      AddToCounts(groups[1..], x, c);
    }
  }

  lemma PrependKeepsOrder(g: Group, groups: seq<Group>)
    requires Ascending(groups) && (groups == [] || g.value < groups[0].value)
    ensures Ascending([g] + groups)
  {
  }

  lemma {:induction false} AddToKeepsOrder(groups: seq<Group>, x: Score)
    requires Ascending(groups)
    ensures Ascending(AddTo(groups, x)) && AddTo(groups, x) != []
    ensures AddTo(groups, x)[0].value == if groups == [] || x < groups[0].value then x else groups[0].value
  {
    if groups == [] || x < groups[0].value {
      PrependKeepsOrder(Group(x, 1), groups);
    } else {
      var rest := groups[1..];
      assert Ascending(rest) && (rest == [] || groups[0].value < rest[0].value);
      hide Ascending;
      if x == groups[0].value {
        PrependKeepsOrder(Group(x, groups[0].count + 1), rest);
      } else {
        AddToKeepsOrder(rest, x);
        PrependKeepsOrder(groups[0], AddTo(rest, x));
      }
    }
  }

  /** Some group holds this score. */
  predicate Holds(groups: seq<Group>, x: Score) {
    groups != [] && (groups[0].value == x || Holds(groups[1..], x))
  }

  lemma {:induction false} AddToHolds(groups: seq<Group>, x: Score, y: Score)
    ensures Holds(AddTo(groups, x), y) <==> y == x || Holds(groups, y)
  {
    if groups != [] && x > groups[0].value {
      AddToHolds(groups[1..], x, y);
    }
  }

  lemma {:induction false} HoldsIff(groups: seq<Group>, x: Score)
    ensures Holds(groups, x) <==> exists i :: 0 <= i < |groups| && groups[i].value == x
  {
    if groups != [] {
      HoldsIff(groups[1..], x);
      if i :| 0 < i < |groups| && groups[i].value == x {
        assert groups[1..][i - 1].value == x;
      }
    }
  }

  /** The groups hold exactly the scores, in strictly ascending order, and count them. */
  lemma {:induction false} GroupsOfScores(scores: seq<Score>)
    ensures Ascending(Groups(scores))
    ensures forall y: Score :: Holds(Groups(scores), y) <==> y in scores
    ensures forall c: int :: GroupedGe(Groups(scores), c) == CountGe(scores, c)
  {
    if scores != [] {
      hide AddTo, Holds, GroupedGe, Ascending;
      GroupsOfScores(scores[1..]);
      AddToKeepsOrder(Groups(scores[1..]), scores[0]);
      forall y: Score ensures Holds(Groups(scores), y) <==> y in scores {
        AddToHolds(Groups(scores[1..]), scores[0], y);
      }
      forall c: int ensures GroupedGe(Groups(scores), c) == CountGe(scores, c) {
        AddToCounts(Groups(scores[1..]), scores[0], c);
      }
    }
  }

  lemma {:induction false} AllReach(groups: seq<Group>, c: int, d: int)
    requires forall g | g in groups :: g.value >= c && g.value >= d
    ensures GroupedGe(groups, c) == GroupedGe(groups, d)
  {
    if groups != [] {
      AllReach(groups[1..], c, d);
    }
  }

  /** In ascending groups, passing one group lowers the count by that group. */
  lemma {:induction false} CutAtGroup(groups: seq<Group>, i: nat)
    requires Ascending(groups) && i < |groups|
    ensures GroupedGe(groups, groups[i].value) == GroupedGe(groups, groups[i].value + 1) + groups[i].count
    ensures i + 1 < |groups| ==> GroupedGe(groups, groups[i + 1].value) == GroupedGe(groups, groups[i].value + 1)
  {
    var rest := groups[1..];
    if i > 0 {
      CutAtGroup(rest, i - 1);
    } else {
      AllReach(rest, groups[0].value, groups[0].value + 1);
      if |groups| > 1 {
        AllReach(rest, groups[1].value, groups[0].value + 1);
      }
    }
  }

  /** The fit threshold is the only value that is +inf or a fitting score, and at most every fitting score. */
  lemma FitThresholdIsOnly(scores: seq<Score>, rate: real, tie: TieMode, t: Score)
    requires t == POS_INF || (t in scores && Fits(scores, t, AllowedAccepts(|scores|, rate), tie))
    requires forall x | x in scores :: Fits(scores, x, AllowedAccepts(|scores|, rate), tie) ==> t <= x
    ensures t == FitThreshold(scores, rate, tie)
  {
    hide Fits, LeastFitting, AllowedAccepts;
    LeastFittingIs(scores, scores, AllowedAccepts(|scores|, rate), tie);
  }

  lemma GroupsCount(scores: seq<Score>, i: nat)
    requires i < |Groups(scores)|
    ensures var g := Groups(scores)[i];
            && g.value in scores
            && CountGe(scores, g.value) == CountGe(scores, g.value + 1) + g.count
            && CountGe(scores, g.value) <= |scores|
            && (i + 1 < |Groups(scores)|
                ==> CountGe(scores, Groups(scores)[i + 1].value) == CountGe(scores, g.value + 1))
  {
    hide Groups, CountGe, GroupedGe;
    GroupsOfScores(scores);
    CutAtGroup(Groups(scores), i);
    HoldsIff(Groups(scores), Groups(scores)[i].value);
    CountAntitone(scores, Groups(scores)[i].value, Groups(scores)[i].value);
  }

  lemma FirstGroup(scores: seq<Score>)
    requires scores != []
    ensures Groups(scores) != [] && CountGe(scores, Groups(scores)[0].value) == |scores|
  {
    GroupsOfScores(scores);
    hide Groups;
    var groups := Groups(scores);
    assert Holds(groups, scores[0]);
    AllReach(groups, groups[0].value, NEG_INF);
    CountAll(scores);
  }

  lemma StopAtGroup(scores: seq<Score>, rate: real, tie: TieMode, k: nat)
    requires k <= |Groups(scores)|
    requires forall j :: 0 <= j < k ==> !Fits(scores, Groups(scores)[j].value, AllowedAccepts(|scores|, rate), tie)
    requires k < |Groups(scores)| ==> Fits(scores, Groups(scores)[k].value, AllowedAccepts(|scores|, rate), tie)
    ensures FitThreshold(scores, rate, tie) == if k < |Groups(scores)| then Groups(scores)[k].value else POS_INF
  {
    hide Fits, LeastFitting, AllowedAccepts, Groups, FitThreshold, Holds, GroupedGe, CountGe;
    GroupsOfScores(scores);
    var groups := Groups(scores);
    if k < |groups| {
      HoldsIff(groups, groups[k].value);
    }
    var t := if k < |groups| then groups[k].value else POS_INF;
    forall x | x in scores && Fits(scores, x, AllowedAccepts(|scores|, rate), tie) ensures t <= x {
      HoldsIff(groups, x);
    }
    FitThresholdIsOnly(scores, rate, tie, t);
  }

  method ScoresToThreshold(scores: seq<Score>, rate: real, tie: TieMode) returns (r: Result<Score>)
    ensures r == if scores == [] then Ok(POS_INF)
                 else if !(0.0 < rate < 1.0) then Err("target_false_accept_rate must be in (0,1)")
                 else Ok(FitThreshold(scores, rate, tie))
  {
    if scores == [] { return Ok(POS_INF); }
    if !(0.0 < rate < 1.0) { return Err("target_false_accept_rate must be in (0,1)"); }
    hide Groups, CountGe, AllowedAccepts, FitThreshold, Ascending, Holds;
    var groups, n, below, i := Groups(scores), |scores|, 0, 0;
    FirstGroup(scores);
    while i < |groups|
      invariant 0 <= i <= |groups|
      invariant i < |groups| ==> n - below == CountGe(scores, groups[i].value)
      invariant forall j :: 0 <= j < i ==> !Fits(scores, groups[j].value, AllowedAccepts(n, rate), tie)
    {
      GroupsCount(scores, i);
      var falseAccepts := if tie == GT then n - (below + groups[i].count) else n - below;
      WithinRate(falseAccepts, n, rate);
      if falseAccepts as real / n as real <= rate {
        StopAtGroup(scores, rate, tie, i);
        return Ok(groups[i].value);
      }
      below, i := below + groups[i].count, i + 1;
    }
    StopAtGroup(scores, rate, tie, i);
    return Ok(POS_INF);
  }

  // ---- what it accepts ----

  /** The lowest score at or above a cut. */
  lemma NextHigher(scores: seq<Score>, c: int) returns (y: Score)
    requires CountGe(scores, c) > 0
    ensures y in scores && y >= c && CountGe(scores, y) == CountGe(scores, c)
  {
    SortIsSorted(scores);
    hide SortDesc;
    var v, k := SortDesc(scores), CountGe(scores, c) - 1;
    CountAntitone(scores, c, c);
    y := v[k];
    CountPermutation(scores, v, c);
    CountPermutation(scores, v, y);
    CountAt(v, c, k);
    CountAt(v, y, k);
    CountAntitone(v, c, y);
    assert y in multiset(scores);
  }

  /** Below a score that not every score reaches there is a next lower score. */
  lemma NextLower(scores: seq<Score>, x: int) returns (y: Score)
    requires CountGe(scores, x) < |scores|
    ensures y in scores && y < x && CountGe(scores, y + 1) == CountGe(scores, x)
  {
    SortIsSorted(scores);
    hide SortDesc;
    var v, k := SortDesc(scores), CountGe(scores, x);
    y := v[k];
    CountPermutation(scores, v, x);
    CountPermutation(scores, v, y + 1);
    CountAt(v, x, k);
    CountAt(v, y + 1, k);
    CountAntitone(v, y + 1, x);
    assert y in multiset(scores);
  }

  /** Which calibration scores the fit threshold accepts: those whose whole tie group fits the budget. Under
      GE it also accepts scores of +inf that do not. */
  lemma FitAccepts(scores: seq<Score>, rate: real, tie: TieMode, x: Score)
    requires 0.0 < rate < 1.0 && x in scores
    ensures Accepts(FitThreshold(scores, rate, tie), tie, x)
            <==> CountGe(scores, x) <= AllowedAccepts(|scores|, rate) || (tie == GE && x == POS_INF)
  {
    var allowed, t := AllowedAccepts(|scores|, rate), FitThreshold(scores, rate, tie);
    RatesBelowOneNeverSaturateBelow(scores, rate);
    LeastFittingIs(scores, scores, allowed, tie);
    hide AllowedAccepts, CountGe, LeastFitting;
    if Accepts(t, tie, x) && t != POS_INF {
      CountAntitone(scores, Cut(t, tie), x);
    }
    if tie == GT && CountGe(scores, x) <= allowed {
      var y := NextLower(scores, x);
    }
  }

  lemma SelectedAccepts(scores: seq<Score>, rate: real, tie: TieMode, x: Score)
    requires 0.0 < rate < 1.0 && x in scores
    ensures ThresholdFromSelectedH0Scores(scores, rate, tie).Some?
    ensures Accepts(ThresholdFromSelectedH0Scores(scores, rate, tie).value, tie, x)
            <==> CountGe(scores, x) <= AllowedAccepts(|scores|, rate) || (tie == GE && x == POS_INF)
  {
    hide AllowedAccepts, CountGe, IdealCut, ThresholdFromSelectedH0Scores, SortDesc;
    ThresholdCut(scores, rate, tie);
    IdealCutAtBoundary(scores, AllowedAccepts(|scores|, rate));
    IdealCutFits(scores, AllowedAccepts(|scores|, rate), x);
    BottomSaturation(scores, rate);
    RatesBelowOneNeverSaturateBelow(scores, rate);
  }

  lemma FitThresholdIs(scores: seq<Score>, rate: real, tie: TieMode)
    ensures var t, allowed := FitThreshold(scores, rate, tie), AllowedAccepts(|scores|, rate);
            && (t == POS_INF || (t in scores && Fits(scores, t, allowed, tie)))
            && forall x | x in scores :: Fits(scores, x, allowed, tie) ==> t <= x
  {
    hide AllowedAccepts, Fits, LeastFitting;
    LeastFittingIs(scores, scores, AllowedAccepts(|scores|, rate), tie);
  }

  /** Under GT the largest score always fits. */
  lemma SomeFitsUnderGT(scores: seq<Score>, rate: real)
    requires scores != []
    ensures FitThreshold(scores, rate, GT) in scores
  {
    hide AllowedAccepts, CountGe, LeastFitting;
    CountTop(scores);
    var y := NextLower(scores, POS_INF + 1);
    LeastFittingIs(scores, scores, AllowedAccepts(|scores|, rate), GT);
  }

  /** On the calibration scores the fit threshold decides like the query-level threshold of the same rate,
      in both tie modes. It is that threshold rounded to a calibration score: up under GE, so that a fit serves
      fewer unseen scores, and down under GT, so that it serves more. */
  lemma FitRefinesSelected(scores: seq<Score>, rate: real, tie: TieMode)
    requires scores != [] && 0.0 < rate < 1.0
    ensures ThresholdFromSelectedH0Scores(scores, rate, tie).Some?
    ensures var selected := ThresholdFromSelectedH0Scores(scores, rate, tie).value;
            var fit := FitThreshold(scores, rate, tie);
            && (forall x | x in scores :: Accepts(fit, tie, x) <==> Accepts(selected, tie, x))
            && (if tie == GE then selected <= fit else fit <= selected)
            && (fit in scores || (tie == GE && fit == POS_INF))
  {
    hide AllowedAccepts, CountGe, LeastFitting, ThresholdFromSelectedH0Scores, FitThreshold;
    ThresholdCut(scores, rate, tie);
    var selected, fit := ThresholdFromSelectedH0Scores(scores, rate, tie).value, FitThreshold(scores, rate, tie);
    FitThresholdIs(scores, rate, tie);
    SomeFitsUnderGT(scores, rate);
    forall x | x in scores ensures Accepts(fit, tie, x) <==> Accepts(selected, tie, x) {
      FitAccepts(scores, rate, tie, x);
      SelectedAccepts(scores, rate, tie, x);
    }
  }

  lemma {:induction false} SameAccepts(scores: seq<Score>, a: Score, b: Score, tie: TieMode)
    requires forall x | x in scores :: Accepts(a, tie, x) <==> Accepts(b, tie, x)
    ensures AcceptCount(scores, Some(a), tie) == AcceptCount(scores, Some(b), tie)
  {
    if scores != [] {
      SameAccepts(scores[1..], a, b, tie);
    }
  }

  /** The accepted calibration scores stay within the rate exactly when GE does not let +inf scores through
      that exceed it. */
  lemma FitKeepsBudget(scores: seq<Score>, rate: real, tie: TieMode)
    requires scores != [] && 0.0 < rate < 1.0
    ensures AcceptCount(scores, Some(FitThreshold(scores, rate, tie)), tie) <= AllowedAccepts(|scores|, rate)
            <==> tie == GT || !TopSaturates(scores, rate)
  {
    hide AllowedAccepts, TopSaturates, ThresholdFromSelectedH0Scores, FitThreshold;
    FitRefinesSelected(scores, rate, tie);
    SameAccepts(scores, FitThreshold(scores, rate, tie), ThresholdFromSelectedH0Scores(scores, rate, tie).value, tie);
    BudgetIsKept(scores, rate, tie);
  }

  // ---- when it is finite ----

  lemma {:induction false} MemberCounts(scores: seq<Score>, x: Score)
    requires x in scores
    ensures CountGe(scores, x) >= 1
  {
    if x != scores[0] {
      MemberCounts(scores[1..], x);
    }
  }

  /** Some finite score fits the budget together with all scores above and beside it. */
  ghost predicate SomeGroupFits(scores: seq<Score>, rate: real) {
    exists x :: x in scores && IsFinite(x) && CountGe(scores, x) <= AllowedAccepts(|scores|, rate)
  }

  /** Under GE a fit threshold is finite exactly when some finite tie group fits, and it then accepts at least
      one calibration score and no more than the rate allows: as many as the largest group that fits. */
  lemma FiniteFit(scores: seq<Score>, rate: real)
    requires 0.0 < rate < 1.0
    ensures var fit, allowed := FitThreshold(scores, rate, GE), AllowedAccepts(|scores|, rate);
            var accepts := AcceptCount(scores, Some(fit), GE);
            && (IsFinite(fit) <==> SomeGroupFits(scores, rate))
            && (IsFinite(fit) ==> 1 <= accepts <= allowed && fit in scores && accepts == CountGe(scores, fit))
            && (!IsFinite(fit) ==> fit == POS_INF && accepts == CountGe(scores, POS_INF))
            && (forall x | x in scores && CountGe(scores, x) <= allowed :: CountGe(scores, x) <= accepts)
  {
    var fit, allowed := FitThreshold(scores, rate, GE), AllowedAccepts(|scores|, rate);
    FitThresholdIs(scores, rate, GE);
    AcceptCountIsCountAtCut(scores, fit, GE);
    CountAll(scores);
    if scores != [] {
      RatesBelowOneNeverSaturateBelow(scores, rate);
    }
    hide AllowedAccepts, CountGe, FitThreshold;
    if fit in scores {
      MemberCounts(scores, fit);
    }
    forall x | x in scores && CountGe(scores, x) <= allowed ensures CountGe(scores, x) <= CountGe(scores, fit) {
      CountAntitone(scores, fit, x);
    }
  }

  /** Under GT the threshold of finite scores is always finite. */
  lemma FiniteFitUnderGT(scores: seq<Score>, rate: real)
    requires scores != [] && 0.0 < rate < 1.0 && forall x | x in scores :: IsFinite(x)
    ensures var fit, allowed := FitThreshold(scores, rate, GT), AllowedAccepts(|scores|, rate);
            var accepts := AcceptCount(scores, Some(fit), GT);
            && IsFinite(fit) && accepts <= allowed
            && (accepts == 0 || exists x :: x in scores && accepts == CountGe(scores, x))
            && (forall x | x in scores && CountGe(scores, x) <= allowed :: CountGe(scores, x) <= accepts)
  {
    hide AllowedAccepts, CountGe, FitThreshold, TopSaturates;
    var fit, allowed := FitThreshold(scores, rate, GT), AllowedAccepts(|scores|, rate);
    SomeFitsUnderGT(scores, rate);
    FitKeepsBudget(scores, rate, GT);
    AcceptCountIsCountAtCut(scores, fit, GT);
    forall x | x in scores && CountGe(scores, x) <= allowed ensures CountGe(scores, x) <= CountGe(scores, fit + 1) {
      FitAccepts(scores, rate, GT, x);
      CountAntitone(scores, fit + 1, x);
    }
    if CountGe(scores, fit + 1) > 0 {
      var x := NextHigher(scores, fit + 1);
    }
  }

  // ---- distinct scores ----

  ghost predicate Distinct(scores: seq<Score>) {
    forall i, j :: 0 <= i < j < |scores| ==> scores[i] != scores[j]
  }

  lemma {:induction false} DistinctOnce(scores: seq<Score>, x: Score)
    requires Distinct(scores)
    ensures multiset(scores)[x] <= 1
  {
    if scores != [] {
      assert scores == [scores[0]] + scores[1..];
      DistinctOnce(scores[1..], x);
      if x == scores[0] {
        assert x !in scores[1..];
      }
    }
  }

  lemma SortIsStrict(scores: seq<Score>, k: nat)
    requires Distinct(scores) && 1 <= k < |scores|
    ensures |SortDesc(scores)| == |scores| && SortDesc(scores)[k] < SortDesc(scores)[k - 1]
  {
    SortIsSorted(scores);
    hide SortDesc;
    var v := SortDesc(scores);
    if v[k] == v[k - 1] {
      var pair := [v[k - 1], v[k]];
      assert v == v[..k - 1] + pair + v[k + 1..];
      assert multiset(v)[v[k]] >= multiset(pair)[v[k]] == 2;
      DistinctOnce(scores, v[k]);
    }
  }

  /** Among distinct scores every count is reached. */
  lemma DistinctRank(scores: seq<Score>, k: nat) returns (x: Score)
    requires Distinct(scores) && 1 <= k <= |scores|
    ensures x in scores && CountGe(scores, x) == k
  {
    SortIsSorted(scores);
    hide SortDesc;
    var v := SortDesc(scores);
    x := v[k - 1];
    assert x in multiset(scores);
    CountPermutation(scores, v, x);
    CountAt(v, x, k - 1);
    CountAntitone(v, x, x);
    if k < |v| {
      CountAt(v, x, k);
      SortIsStrict(scores, k);
    }
  }

  /** Distinct finite scores use the whole budget under GE. */
  lemma DistinctFit(scores: seq<Score>, rate: real)
    requires 0.0 < rate < 1.0 && Distinct(scores) && forall x | x in scores :: IsFinite(x)
    ensures var fit, allowed := FitThreshold(scores, rate, GE), AllowedAccepts(|scores|, rate);
            && (IsFinite(fit) <==> allowed >= 1)
            && AcceptCount(scores, Some(fit), GE) == allowed
  {
    hide AllowedAccepts, CountGe, FitThreshold;
    var allowed := AllowedAccepts(|scores|, rate);
    FiniteFit(scores, rate);
    if allowed >= 1 {
      var x := DistinctRank(scores, allowed);
      assert SomeGroupFits(scores, rate);
    } else {
      CountBelow(scores, POS_INF);
    }
  }
}
