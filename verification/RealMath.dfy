/** Small facts about products and quotients of reals.  Each names the product it is about,
    so that a caller can hand over a term whose definition is hidden. */
module RealMath {

  lemma ProductPositive(a: real, b: real, q: real)
    requires a > 0.0 && b > 0.0 && q == a * b
    ensures q > 0.0
  {
  }

  lemma ProductNonZero(a: real, b: real, q: real)
    requires a != 0.0 && b != 0.0 && q == a * b
    ensures q != 0.0
  {
  }

  lemma DivideBack(a: real, d: real)
    requires d != 0.0
    ensures (a / d) * d == a
  {
  }

  lemma Cancel(m: real, w: real, d: real)
    requires m * w == 1.0
    ensures m * (w * d) == d
  {
    assert m * (w * d) == (m * w) * d;
  }

  lemma Negate(a: real, b: real, c: real)
    requires b == -c
    ensures a * b == -(a * c)
  {
  }

  lemma DivideUnique(a: real, d: real, v: real)
    requires d != 0.0 && a == v * d
    ensures a / d == v
  {
  }

  lemma CrossDivide(a: real, d: real, b: real, h: real)
    requires d != 0.0 && h != 0.0 && a * h == b * d
    ensures a / d == b / h
  {
    var x := a / d;
    assert x * d == a;
    assert (x * h) * d == b * d;
    assert x * h == b;
  }

  lemma QuotientPositive(a: real, d: real, q: real)
    requires a > 0.0 && d > 0.0 && q == a / d
    ensures q > 0.0
  {
    assert q * d == a;
    if q <= 0.0 { ProductNotPositive(q, d, a); }
  }

  lemma ProductNotPositive(a: real, b: real, q: real)
    requires a <= 0.0 && b > 0.0 && q == a * b
    ensures q <= 0.0
  {
  }

  lemma ProductIncreases(a: real, b: real, c: real)
    requires a < b && c > 0.0
    ensures a * c < b * c
  {
  }

  lemma InversesReverse(x: real, y: real)
    requires 0.0 < x <= y
    ensures 1.0 / y <= 1.0 / x
    ensures x < y ==> 1.0 / y < 1.0 / x
  {
    var p, q := 1.0 / x, 1.0 / y;
    QuotientPositive(1.0, y, q);
    if x < y {
      ProductIncreases(x, y, q);
      assert x * q < x * p;
      if p < q { ProductIncreases(p, q, x); }
    }
  }

  ghost predicate IsSqrt(sqrt: real -> real) {
    forall x: real :: x >= 0.0 ==> sqrt(x) >= 0.0 && sqrt(x) * sqrt(x) == x
  }
}
