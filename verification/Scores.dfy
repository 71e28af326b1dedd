/** Shared value types: options, tie modes and scores.

    A score is a non-NaN IEEE-754 double, represented by its position in the
    total order of doubles: position 0 is zero, consecutive doubles have
    consecutive positions, and the two infinities close the range. Comparing
    scores is comparing positions, and `nextafter` is a step of one position
    that stops at the infinity it moves towards. */
module Scores {

  datatype Option<+T> = None | Some(value: T)

  /** A value, or the message of the exception that was raised instead. */
  datatype Result<+T> = Ok(value: T) | Err(error: string)

  datatype TieMode = GE | GT

  /** Labels of selected candidates: Some(0) is H0, Some(1) is H1, None is unknown. */
  type Label = Option<int>

  const H0: Label := Some(0)
  const H1: Label := Some(1)

  const MAX_FINITE: int := 0x7FEF_FFFF_FFFF_FFFF
  const POS_INF: int := MAX_FINITE + 1
  const NEG_INF: int := -POS_INF

  type Score = x: int | NEG_INF <= x <= POS_INF

  predicate IsFinite(x: Score) {
    NEG_INF < x < POS_INF
  }

  /** `nextafter(x, inf)` */
  function NextUp(x: Score): Score {
    if x < POS_INF then x + 1 else x
  }

  /** `nextafter(x, -inf)` */
  function NextDown(x: Score): Score {
    if x > NEG_INF then x - 1 else x
  }

  /** The admission comparison used by calibration, serving and the controller. */
  predicate Accepts(tau: Score, tie: TieMode, score: Score) {
    match tie
    case GE => score >= tau
    case GT => score > tau
  }

  /** The least position accepted under (tau, tie); it may lie one past POS_INF. */
  function Cut(tau: Score, tie: TieMode): int {
    if tie == GE then tau else tau + 1
  }

  function Min(a: int, b: int): int { if a <= b then a else b }

  function Max(a: int, b: int): int { if a >= b then a else b }

  function MinReal(a: real, b: real): real { if a <= b then a else b }

  function MaxReal(a: real, b: real): real { if a >= b then a else b }

  function Ceil(x: real): int { -((-x).Floor) }

  /** The window kept by `deque(maxlen=cap)` after appending all of `s`. */
  function LastN<T>(s: seq<T>, cap: nat): seq<T> {
    if |s| <= cap then s else s[|s| - cap..]
  }

  /** The last min(|s|, cap) entries, in order. */
  lemma LastNIsEnd<T>(s: seq<T>, cap: nat)
    ensures |LastN(s, cap)| == Min(|s|, cap)
    ensures forall i :: 0 <= i < |LastN(s, cap)| ==> LastN(s, cap)[i] == s[|s| - |LastN(s, cap)| + i]
  {
  }

  /** Appending to a bounded deque and bounding the appended history agree. */
  lemma LastNAppend<T>(s: seq<T>, x: T, cap: nat)
    ensures LastN(LastN(s, cap) + [x], cap) == LastN(s + [x], cap)
  {
    if |s| > cap {
      assert LastN(s, cap) + [x] == (s + [x])[|s| - cap..];
    }
  }
}
