/** Neyman-Pearson thresholding of selected-H0 scores
    (src/mlcache/calibration/query_level.py:15-51). */
module Thresholds {
  import opened Scores
  import opened OrderStatistics
  import opened RealArithmetic

  /** How many of n H0 scores the rate lets through. */
  function AllowedAccepts(n: nat, rate: real): (allowed: nat)
    ensures allowed <= n
  {
    Max(0, Min((rate * (n as real)).Floor, n))
  }

  function ThresholdOfSorted(values: seq<Score>, allowed: nat, tie: TieMode): Score
    requires 0 < |values| && allowed <= |values|
  {
    if tie == GE then
      if allowed == 0 then NextUp(values[0])
      else
        var boundary := values[allowed - 1];
        if CountGe(values, boundary) <= allowed then boundary else NextUp(boundary)
    else
      if allowed == 0 then values[0]
      else
        var boundary := values[allowed - 1];
        if CountGe(values, boundary) <= allowed then NextDown(boundary) else boundary
  }

  function ThresholdFromSelectedH0Scores(scores: seq<Score>, rate: real, tie: TieMode): Option<Score> {
    if scores == [] then None
    else
      SortIsSorted(scores);
      var values := SortDesc(scores);
      Some(ThresholdOfSorted(values, AllowedAccepts(|values|, rate), tie))
  }

  /** `_accept_count`: how many scores a threshold accepts; no threshold accepts none. */
  function AcceptCount(scores: seq<Score>, tau: Option<Score>, tie: TieMode): nat {
    if tau.None? || scores == [] then 0
    else (if Accepts(tau.value, tie, scores[0]) then 1 else 0) + AcceptCount(scores[1..], tau, tie)
  }

  /** Without scores there is no threshold, and without a threshold nothing is accepted. */
  lemma NoThreshold(scores: seq<Score>, rate: real, tie: TieMode)
    ensures ThresholdFromSelectedH0Scores(scores, rate, tie).None? <==> scores == []
    ensures AcceptCount(scores, None, tie) == 0
  {
    hide SortDesc, CountGe;
  }

  lemma {:induction false} AcceptCountIsCountAtCut(scores: seq<Score>, tau: Score, tie: TieMode)
    ensures AcceptCount(scores, Some(tau), tie) == CountGe(scores, Cut(tau, tie))
  {
    if scores != [] {
      AcceptCountIsCountAtCut(scores[1..], tau, tie);
    }
  }

  // ---- the cut the threshold aims at, free of the limits of the number line ----

  function IdealCut(scores: seq<Score>, allowed: nat): int
    requires 0 < |scores| && allowed <= |scores|
  {
    SortIsSorted(scores);
    var values := SortDesc(scores);
    var boundary: int := values[if allowed == 0 then 0 else allowed - 1];
    if 0 < allowed && CountGe(values, boundary) <= allowed then boundary else boundary + 1
  }

  lemma ThresholdCut(scores: seq<Score>, rate: real, tie: TieMode)
    requires scores != []
    ensures ThresholdFromSelectedH0Scores(scores, rate, tie).Some?
    ensures var ideal := IdealCut(scores, AllowedAccepts(|scores|, rate));
            Cut(ThresholdFromSelectedH0Scores(scores, rate, tie).value, tie)
            == if tie == GE then Min(ideal, POS_INF) else Max(ideal, NEG_INF + 1)
  {
    SortIsSorted(scores);
    hide AllowedAccepts, SortDesc, CountGe;
  }

  lemma SortedMember(scores: seq<Score>, x: Score) returns (j: nat)
    requires x in scores
    ensures |SortDesc(scores)| == |scores|
    ensures j < |scores| && SortDesc(scores)[j] == x
  {
    SortIsSorted(scores);
    assert x in multiset(scores);
    assert x in SortDesc(scores);
    j :| 0 <= j < |scores| && SortDesc(scores)[j] == x;
  }

  /** The ideal cut takes exactly the tie groups that fit whole into the budget. */
  lemma IdealCutFits(scores: seq<Score>, allowed: nat, x: Score)
    requires allowed <= |scores| && x in scores
    ensures x >= IdealCut(scores, allowed) <==> CountGe(scores, x) <= allowed
  {
    SortIsSorted(scores);
    var values := SortDesc(scores);
    CountPermutation(scores, values, x);
    CountAntitone(values, x, x);
    var j := SortedMember(scores, x);
    if allowed < |values| {
      CountAt(values, x, allowed);
      if allowed > 0 {
        CountAt(values, values[allowed - 1], allowed);
      }
    } else {
      CountAntitone(values, values[allowed - 1], values[allowed - 1]);
    }
  }

  lemma IdealCutWithinBudget(scores: seq<Score>, allowed: nat)
    requires 0 < |scores| && allowed <= |scores|
    ensures CountGe(scores, IdealCut(scores, allowed)) <= allowed
  {
    SortIsSorted(scores);
    var values := SortDesc(scores);
    var ideal := IdealCut(scores, allowed);
    CountPermutation(scores, values, ideal);
    CountAntitone(values, ideal, ideal);
    if allowed < |values| {
      CountAt(values, ideal, allowed);
      if allowed > 0 {
        CountAt(values, values[allowed - 1], allowed);
      }
    }
  }

  lemma IdealCutAntitone(scores: seq<Score>, a: nat, b: nat)
    requires 0 < |scores| && a <= b <= |scores|
    ensures IdealCut(scores, b) <= IdealCut(scores, a)
  {
    SortIsSorted(scores);
    hide SortDesc, CountGe;
    var values := SortDesc(scores);
    if 0 < a < b {
      CountAt(values, values[a - 1], a);
    }
  }

  // ---- where the number line ends ----

  /** More scores are +inf than the budget allows, and `nextafter` cannot step past +inf. */
  predicate TopSaturates(scores: seq<Score>, rate: real) {
    CountGe(scores, POS_INF) > AllowedAccepts(|scores|, rate)
  }

  /** The whole list fits the budget (so rate >= 1) and contains -inf. */
  predicate BottomSaturates(scores: seq<Score>, rate: real) {
    AllowedAccepts(|scores|, rate) == |scores| && NEG_INF in scores
  }

  lemma {:induction false} CountTop(scores: seq<Score>)
    ensures CountGe(scores, POS_INF + 1) == 0
    ensures CountGe(scores, POS_INF) > 0 <==> POS_INF in scores
  {
    if scores != [] {
      CountTop(scores[1..]);
    }
  }

  lemma {:induction false} CountAll(scores: seq<Score>)
    ensures CountGe(scores, NEG_INF) == |scores|
    ensures CountGe(scores, NEG_INF + 1) < |scores| <==> NEG_INF in scores
  {
    if scores != [] {
      CountAll(scores[1..]);
      CountAntitone(scores[1..], NEG_INF, NEG_INF + 1);
    }
  }

  /** The entry the cut starts from is one of the scores. */
  lemma BoundaryIsScore(scores: seq<Score>, allowed: nat)
    requires 0 < |scores| && allowed <= |scores|
    ensures |SortDesc(scores)| == |scores|
    ensures SortDesc(scores)[if allowed == 0 then 0 else allowed - 1] in scores
  {
    SortIsSorted(scores);
    hide SortDesc;
    assert SortDesc(scores)[if allowed == 0 then 0 else allowed - 1] in multiset(scores);
  }

  /** The ideal cut is at its boundary entry if that entry's tie group fits the budget, else just above. */
  lemma IdealCutAtBoundary(scores: seq<Score>, allowed: nat)
    requires 0 < |scores| && allowed <= |scores|
    ensures |SortDesc(scores)| == |scores|
    ensures var boundary: int := SortDesc(scores)[if allowed == 0 then 0 else allowed - 1];
            boundary in scores
            && IdealCut(scores, allowed) == (if CountGe(scores, boundary) <= allowed then boundary else boundary + 1)
  {
    BoundaryIsScore(scores, allowed);
    SortIsSorted(scores);
    hide SortDesc, CountGe;
    var boundary: int := SortDesc(scores)[if allowed == 0 then 0 else allowed - 1];
    IdealCutFits(scores, allowed, boundary);
  }

  lemma TopSaturation(scores: seq<Score>, rate: real)
    requires scores != []
    ensures TopSaturates(scores, rate)
            <==> IdealCut(scores, AllowedAccepts(|scores|, rate)) == POS_INF + 1
  {
    hide AllowedAccepts, SortDesc, CountGe, IdealCut;
    var allowed := AllowedAccepts(|scores|, rate);
    CountTop(scores);
    IdealCutWithinBudget(scores, allowed);
    IdealCutAtBoundary(scores, allowed);
    if POS_INF in scores {
      IdealCutFits(scores, allowed, POS_INF);
    }
  }

  lemma BottomSaturation(scores: seq<Score>, rate: real)
    requires scores != []
    ensures BottomSaturates(scores, rate)
            <==> IdealCut(scores, AllowedAccepts(|scores|, rate)) == NEG_INF
  {
    hide AllowedAccepts, SortDesc, CountGe, IdealCut;
    var allowed := AllowedAccepts(|scores|, rate);
    CountAll(scores);
    IdealCutWithinBudget(scores, allowed);
    IdealCutAtBoundary(scores, allowed);
    if NEG_INF in scores {
      IdealCutFits(scores, allowed, NEG_INF);
    }
  }

  // ---- main results ----

  /** Budget: at most floor(rate * n) scores are accepted, ties included, exactly when the
      tie mode is strict or the +inf scores themselves fit the budget. */
  lemma BudgetIsKept(scores: seq<Score>, rate: real, tie: TieMode)
    requires scores != []
    ensures AcceptCount(scores, ThresholdFromSelectedH0Scores(scores, rate, tie), tie) <= AllowedAccepts(|scores|, rate)
            <==> (tie == GT || !TopSaturates(scores, rate))
  {
    var allowed := AllowedAccepts(|scores|, rate);
    var tau := ThresholdFromSelectedH0Scores(scores, rate, tie).value;
    ThresholdCut(scores, rate, tie);
    AcceptCountIsCountAtCut(scores, tau, tie);
    IdealCutWithinBudget(scores, allowed);
    CountAntitone(scores, IdealCut(scores, allowed), Max(IdealCut(scores, allowed), NEG_INF + 1));
    TopSaturation(scores, rate);
  }

  lemma AcceptedMembers(scores: seq<Score>, allowed: nat, tau: Score, tie: TieMode)
    requires 0 < |scores| && allowed <= |scores|
    requires Cut(tau, tie) == if tie == GE then Min(IdealCut(scores, allowed), POS_INF)
                                           else Max(IdealCut(scores, allowed), NEG_INF + 1)
    ensures (forall x | x in scores :: Accepts(tau, tie, x) <==> CountGe(scores, x) <= allowed)
            <==> !(tie == GE && IdealCut(scores, allowed) == POS_INF + 1)
                 && !(tie == GT && IdealCut(scores, allowed) == NEG_INF)
  {
    hide IdealCut, CountGe, SortDesc;
    var ideal := IdealCut(scores, allowed);
    forall x | x in scores ensures x >= ideal <==> CountGe(scores, x) <= allowed {
      IdealCutFits(scores, allowed, x);
    }
    IdealCutAtBoundary(scores, allowed);
  }

  /** Which scores are accepted: those whose whole tie group fits the budget. This pins the
      accepted set down without sorting; it fails exactly when the range ends saturate. */
  lemma AcceptedIffTieGroupFits(scores: seq<Score>, rate: real, tie: TieMode)
    requires scores != []
    ensures var tau := ThresholdFromSelectedH0Scores(scores, rate, tie).value;
            (forall x | x in scores :: Accepts(tau, tie, x) <==> CountGe(scores, x) <= AllowedAccepts(|scores|, rate))
            <==> !(tie == GE && TopSaturates(scores, rate)) && !(tie == GT && BottomSaturates(scores, rate))
  {
    var allowed := AllowedAccepts(|scores|, rate);
    var tau := ThresholdFromSelectedH0Scores(scores, rate, tie).value;
    ThresholdCut(scores, rate, tie);
    TopSaturation(scores, rate);
    BottomSaturation(scores, rate);
    AcceptedMembers(scores, allowed, tau, tie);
  }

  /** Maximality: any threshold that keeps the budget accepts no score the returned one rejects. */
  lemma ThresholdIsMaximal(scores: seq<Score>, rate: real, tie: TieMode, other: Score, x: Score)
    requires x in scores
    requires AcceptCount(scores, Some(other), tie) <= AllowedAccepts(|scores|, rate)
    requires Accepts(other, tie, x)
    ensures Accepts(ThresholdFromSelectedH0Scores(scores, rate, tie).value, tie, x)
  {
    AcceptCountIsCountAtCut(scores, other, tie);
    CountAntitone(scores, Cut(other, tie), x);
    IdealCutFits(scores, AllowedAccepts(|scores|, rate), x);
    ThresholdCut(scores, rate, tie);
  }

  /** The two tie modes accept the same scores, over every score there is, exactly when
      neither range end saturates. */
  lemma TieModesAgree(scores: seq<Score>, rate: real)
    requires scores != []
    ensures var ge := ThresholdFromSelectedH0Scores(scores, rate, GE).value;
            var gt := ThresholdFromSelectedH0Scores(scores, rate, GT).value;
            (forall x: Score :: Accepts(ge, GE, x) <==> Accepts(gt, GT, x))
            <==> !TopSaturates(scores, rate) && !BottomSaturates(scores, rate)
  {
    var ge := ThresholdFromSelectedH0Scores(scores, rate, GE).value;
    var gt := ThresholdFromSelectedH0Scores(scores, rate, GT).value;
    ThresholdCut(scores, rate, GE);
    ThresholdCut(scores, rate, GT);
    TopSaturation(scores, rate);
    BottomSaturation(scores, rate);
    if TopSaturates(scores, rate) {
      assert Accepts(ge, GE, POS_INF) && !Accepts(gt, GT, POS_INF);
    }
    if BottomSaturates(scores, rate) {
      assert Accepts(ge, GE, NEG_INF) && !Accepts(gt, GT, NEG_INF);
    }
  }

  lemma AllowedMonotone(n: nat, r1: real, r2: real)
    requires r1 <= r2
    ensures AllowedAccepts(n, r1) <= AllowedAccepts(n, r2) <= n
  {
    var nr := n as real;
    var x, y := r1 * nr, r2 * nr;
    ProductNonNegative(r2 - r1, nr, y - x);
    assert x.Floor <= y.Floor;
  }

  /** A larger rate never raises the threshold, in either tie mode. */
  lemma ThresholdAntitoneInRate(scores: seq<Score>, r1: real, r2: real, tie: TieMode)
    requires scores != [] && r1 <= r2
    ensures ThresholdFromSelectedH0Scores(scores, r2, tie).value <= ThresholdFromSelectedH0Scores(scores, r1, tie).value
  {
    AllowedMonotone(|scores|, r1, r2);
    IdealCutAntitone(scores, AllowedAccepts(|scores|, r1), AllowedAccepts(|scores|, r2));
    ThresholdCut(scores, r1, tie);
    ThresholdCut(scores, r2, tie);
  }

  /** The order in which scores arrive is irrelevant. */
  lemma ThresholdIgnoresOrder(a: seq<Score>, b: seq<Score>, rate: real, tie: TieMode)
    requires multiset(a) == multiset(b)
    ensures ThresholdFromSelectedH0Scores(a, rate, tie) == ThresholdFromSelectedH0Scores(b, rate, tie)
  {
    SortPermutation(a, b);
    assert |a| == |multiset(a)| == |multiset(b)| == |b|;
    SortIsSorted(a);
    SortIsSorted(b);
  }

  /** With a rate below one the bottom of the range never interferes. */
  lemma RatesBelowOneNeverSaturateBelow(scores: seq<Score>, rate: real)
    requires scores != [] && rate < 1.0
    ensures AllowedAccepts(|scores|, rate) < |scores| && !BottomSaturates(scores, rate)
  {
    var n := |scores| as real;
    var x := rate * n;
    ProductPositive(1.0 - rate, n, n - x);
    assert x.Floor < |scores|;
  }

  /** The budget can be broken: one +inf score, accepted although the rate allows none. */
  lemma TopSaturationBreaksBudget()
    ensures var scores: seq<Score> := [POS_INF, 0];
            ThresholdFromSelectedH0Scores(scores, 0.05, GE) == Some(POS_INF)
            && AllowedAccepts(|scores|, 0.05) == 0
            && AcceptCount(scores, Some(POS_INF), GE) == 1
  {
    var scores: seq<Score> := [POS_INF, 0];
    assert scores[1..] == [0];
    assert SortDesc([0]) == [0] by { assert [0][1..] == []; }
    assert SortDesc(scores) == scores;
    assert AcceptCount([0], Some(POS_INF), GE) == 0 by { assert [0][1..] == []; }
  }
}
