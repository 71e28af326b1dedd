/** Facts about products and quotients of reals. Several take the product as a parameter, so that
    a caller's own expression is matched by name. */
module RealArithmetic {

  lemma ProductPositive(x: real, y: real, product: real)
    requires x > 0.0 && y > 0.0 && product == x * y
    ensures product > 0.0
  {
  }

  lemma QuotientPositive(x: real, y: real, quotient: real)
    requires x > 0.0 && y > 0.0 && quotient == x / y
    ensures quotient > 0.0
  {
  }

  lemma MulMonotone(c: real, x: real, y: real)
    requires c >= 0.0 && x <= y
    ensures c * x <= c * y
  {
    assert c * (y - x) >= 0.0;
  }

  lemma MulStrict(c: real, x: real, y: real)
    requires c > 0.0
    ensures c * x < c * y <==> x < y
    ensures c * x <= c * y <==> x <= y
  {
    assert c * (y - x) == c * y - c * x;
    if x < y {
      assert c * (y - x) > 0.0;
    } else {
      MulMonotone(c, y, x);
      if x > y { assert c * (x - y) > 0.0; }
    }
  }

  lemma StrictProducts(c: real, x: real, y: real, cx: real, cy: real)
    requires c > 0.0 && x < y && cx == c * x && cy == c * y
    ensures cx < cy
  {
    MulStrict(c, x, y);
  }

  lemma SquareOrder(s: real, d: real)
    requires s >= 0.0
    ensures s <= d <==> d >= 0.0 && s * s <= d * d
  {
    if s <= d {
      MulMonotone(s, s, d);
      MulMonotone(d, s, d);
    } else if d >= 0.0 {
      var u, v := s - d, s + d;
      assert u * v > 0.0;
      assert u * v == s * s - d * d;
    }
  }

  lemma ProductNonNegative(x: real, y: real, product: real)
    requires x >= 0.0 && y >= 0.0 && product == x * y
    ensures product >= 0.0
  {
  }

  lemma NonNegativeQuotient(x: real, y: real, quotient: real)
    requires x >= 0.0 && y > 0.0 && quotient == x / y
    ensures quotient >= 0.0
  {
  }
}
