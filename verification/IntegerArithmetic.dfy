/** Facts about quotients and remainders by a variable. */
module IntegerArithmetic {

  lemma ProductAtLeast(c: int, d: int, product: int)
    requires c > 0 && d >= 1 && product == c * d
    ensures product >= c
  {
    assert c * (d - 1) >= 0;
  }

  lemma PositiveFactor(c: int, d: int, product: int)
    requires c > 0 && product == c * d && product > 0
    ensures d >= 1
  {
  }

  lemma RemainderIs(x: int, c: nat, q: int, r: int)
    requires c > 0 && x == c * q + r && 0 <= r < c
    ensures x % c == r && x / c == q
  {
    var quotient, rest := x / c, x % c;
    assert x == c * quotient + rest;
    var d := quotient - q;
    assert c * d == r - rest;
    if d >= 1 {
      ProductAtLeast(c, d, c * d);
    } else if d <= -1 {
      assert c * -d == -(c * d);
      ProductAtLeast(c, -d, c * -d);
    }
  }

  /** Counting up, the quotient grows exactly at the multiples. */
  lemma QuotientStep(k: nat, c: nat)
    requires k > 0 && c > 0
    ensures k / c == (k - 1) / c + if k % c == 0 then 1 else 0
    ensures 0 / c == 0
    ensures k % c == 0 ==> c * (k / c) == k
  {
    var q, rest := (k - 1) / c, (k - 1) % c;
    assert k - 1 == c * q + rest;
    if rest == c - 1 {
      assert c * (q + 1) == c * q + c;
      RemainderIs(k, c, q + 1, 0);
    } else {
      RemainderIs(k, c, q, rest + 1);
    }
  }
}
