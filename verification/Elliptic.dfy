/** The elliptic functions of the filter approximation: the complete integral by the
    arithmetic-geometric mean, and sn by descending Landen transformations. */
module Elliptic {
  import opened RealMath

  // ----- order of squares -----

  lemma SquareOrder(x: real, y: real)
    requires x >= 0.0 && y >= 0.0
    ensures x * x <= y * y <==> x <= y
    ensures x * x == y * y <==> x == y
  {
    if x < y { SquareGrows(x, y); }
    if y < x { SquareGrows(y, x); }
  }

  lemma SquareGrows(x: real, y: real)
    requires 0.0 <= x < y
    ensures x * x < y * y
  {
    ProductIncreases(x, y, y);
    if x > 0.0 {
      ProductIncreases(x, y, x);
    } else {
      assert x * x == 0.0 * x;
      ProductPositive(y, y, y * y);
    }
  }

  // ----- the arithmetic-geometric mean -----

  datatype Means = Means(a: real, b: real)

  function Product(a: real, b: real): real {
    a * b
  }

  function NextMeans(m: Means, sqrt: real -> real): Means {
    Means(0.5 * (m.a + m.b), sqrt(Product(m.a, m.b)))
  }

  function MeansAfter(m: Means, n: nat, sqrt: real -> real): Means {
    if n == 0 then m else NextMeans(MeansAfter(m, n - 1, sqrt), sqrt)
  }

  /** p lies between the means of m, in order. */
  ghost predicate Between(m: Means, p: Means) {
    m.b <= p.b <= p.a <= m.a
  }

  /** The distance of p, taken n times double, is at most that of m. */
  ghost predicate Shrunk(m: Means, p: Means, n: nat) {
    (p.a - p.b) * Power(n) <= m.a - m.b
  }

  /** One step keeps the order of the means, moves both inwards, and halves their distance. */
  lemma MeansStep(m: Means, sqrt: real -> real)
    requires IsSqrt(sqrt) && 0.0 < m.b <= m.a
    ensures var n := NextMeans(m, sqrt);
            Between(m, n) && 0.0 < n.b && n.a - n.b <= 0.5 * (m.a - m.b)
  {
    var n := NextMeans(m, sqrt);
    ProductPositive(m.a, m.b, m.a * m.b);
    assert n.b >= 0.0 && n.b * n.b == m.a * m.b;
    assert m.b * m.b <= m.a * m.b by { if m.b < m.a { ProductIncreases(m.b, m.a, m.b); } }
    SquareOrder(m.b, n.b);
    MeanOrder(m.a, m.b, n.a);
    SquareOrder(n.b, n.a);
  }

  /** The geometric mean is at most the arithmetic one. */
  lemma MeanOrder(a: real, b: real, m: real)
    requires m == 0.5 * (a + b)
    ensures a * b <= m * m
  {
    var d := 0.5 * (a - b);
    assert a == m + d && b == m - d;
    assert (m + d) * (m - d) == m * m - d * d;
    NotNegative(d);
  }

  lemma NotNegative(d: real)
    ensures d * d >= 0.0
  {
  }

  /** What the two means of a step are, by their squares: the new distance is quadratic in the old one. */
  lemma MeansAre(m: Means, sqrt: real -> real)
    requires IsSqrt(sqrt) && 0.0 < m.b <= m.a
    ensures var n := NextMeans(m, sqrt);
            && 2.0 * n.a == m.a + m.b && n.b >= 0.0 && n.b * n.b == m.a * m.b
            && 4.0 * (n.a * n.a - n.b * n.b) == (m.a - m.b) * (m.a - m.b)
  {
    var n := NextMeans(m, sqrt);
    ProductPositive(m.a, m.b, m.a * m.b);
    assert 4.0 * (n.a * n.a) == (m.a + m.b) * (m.a + m.b);
  }

  /** The first means are 1 and the complement of k. */
  lemma FirstMeansAre(k: real, sqrt: real -> real)
    requires IsSqrt(sqrt) && 0.0 <= k < 1.0
    ensures var m := FirstMeans(k, sqrt); m.a == 1.0 && 0.0 < m.b <= 1.0 && m.b * m.b + k * k == 1.0
  {
    Complement(k, sqrt);
  }

  function Power(n: nat): real {
    if n == 0 then 1.0 else 2.0 * Power(n - 1)
  }

  lemma {:induction false} PowerGrows(n: nat)
    ensures Power(n) >= n as real + 1.0
    decreases n
  {
    if n > 0 { PowerGrows(n - 1); }
  }

  /** After any number of steps the means are still between the first ones, in order, and their
      distance has been halved as many times: what the mean converges to lies between them. */
  lemma {:induction false} MeansNested(m: Means, n: nat, sqrt: real -> real)
    requires IsSqrt(sqrt) && 0.0 < m.b <= m.a
    ensures Between(m, MeansAfter(m, n, sqrt)) && Shrunk(m, MeansAfter(m, n, sqrt), n)
    decreases n
  {
    if n > 0 {
      MeansNested(m, n - 1, sqrt);
      var q := MeansAfter(m, n - 1, sqrt);
      assert 0.0 < q.b <= q.a;
      hide NextMeans, IsSqrt;
      MeansStep(q, sqrt);
      ShrunkNext(m, q, MeansAfter(m, n, sqrt), n - 1);
    } else {
      assert (m.a - m.b) * 1.0 == m.a - m.b;
    }
  }

  lemma ShrunkNext(m: Means, q: Means, p: Means, n: nat)
    requires Shrunk(m, q, n) && p.a - p.b <= 0.5 * (q.a - q.b)
    ensures Shrunk(m, p, n + 1)
  {
    PowerGrows(n);
    Halved(p.a - p.b, q.a - q.b, Power(n));
  }

  lemma Halved(x: real, y: real, p: real)
    requires x <= 0.5 * y && p > 0.0
    ensures x * (2.0 * p) <= y * p
  {
    if 2.0 * x < y { ProductIncreases(2.0 * x, y, p); }
    assert x * (2.0 * p) == 2.0 * x * p;
  }

  /** The number of steps after which the distance is certainly below err. */
  function Steps(err: real): nat
    requires err > 0.0
  {
    QuotientPositive(1.0, err, 1.0 / err);
    (1.0 / err).Floor + 1
  }

  lemma StepsAreEnough(err: real, n: nat, d: real)
    requires err > 0.0 && d > err && d * Power(n) <= 1.0
    ensures n < Steps(err)
  {
    PowerGrows(n);
    var q := 1.0 / err;
    QuotientPositive(1.0, err, q);
    ProductIncreases(err, d, Power(n));
    ProductCompare(Power(n), q, err, err * Power(n));
  }

  lemma ProductCompare(p: real, q: real, err: real, e: real)
    requires err > 0.0 && q * err == 1.0 && e == err * p && e < 1.0
    ensures p < q
  {
    assert q <= p ==> err * q <= err * p by {
      if q < p { ProductIncreases(q, p, err); }
    }
  }

  /** r is pi / (2 a) for the means after n steps, which are at most err apart and enclose all later ones. */
  ghost predicate Integral(r: real, k: real, pi: real, err: real, n: nat, sqrt: real -> real) {
    var m := MeansAfter(FirstMeans(k, sqrt), n, sqrt);
    && 0.0 < m.b <= m.a && m.a - m.b <= err && r == pi / (2.0 * m.a)
    && forall i: nat :: Between(m, MeansAfter(m, i, sqrt))
  }

  /** K(k) = pi / (2 M(1, sqrt(1 - k^2))): the loop ends for every 0 <= k < 1, after a number of
      steps known beforehand. */
  method K(k: real, pi: real, err: real, sqrt: real -> real) returns (r: real)
    requires IsSqrt(sqrt) && 0.0 <= k < 1.0 && err > 0.0
    ensures exists n: nat :: n <= Steps(err) && Integral(r, k, pi, err, n, sqrt)
  {
    ghost var m0 := FirstMeans(k, sqrt);
    Complement(k, sqrt);
    var a, b := 1.0, sqrt(1.0 - k * k);
    ghost var n := 0;
    hide IsSqrt, Between, Shrunk, Steps, NextMeans;
    while (if a - b < 0.0 then b - a else a - b) > err
      invariant 0.0 < b <= a && Means(a, b) == MeansAfter(m0, n, sqrt)
      invariant n <= Steps(err)
      decreases Steps(err) - n
    {
      MeansNested(m0, n, sqrt);
      StepsWithin(m0, Means(a, b), n, err);
      MeansStep(Means(a, b), sqrt);
      BetweenIs(Means(a, b), NextMeans(Means(a, b), sqrt));
      NextMeansIs(a, b, sqrt);
      var temp := a;
      a := 0.5 * (a + b);
      assert temp * b == Product(temp, b);
      b := sqrt(temp * b);
      n := n + 1;
    }
    r := pi / (2.0 * a);
    forall i: nat ensures Between(Means(a, b), MeansAfter(Means(a, b), i, sqrt)) {
      MeansNested(Means(a, b), i, sqrt);
    }
    assert Integral(r, k, pi, err, n, sqrt);
  }

  function FirstMeans(k: real, sqrt: real -> real): Means {
    Means(1.0, sqrt(1.0 - k * k))
  }

  lemma NextMeansIs(a: real, b: real, sqrt: real -> real)
    ensures NextMeans(Means(a, b), sqrt) == Means(0.5 * (a + b), sqrt(Product(a, b)))
  {
  }

  lemma BetweenIs(m: Means, p: Means)
    requires Between(m, p)
    ensures m.b <= p.b <= p.a <= m.a
  {
  }

  lemma StepsWithin(m: Means, p: Means, n: nat, err: real)
    requires err > 0.0 && p.a - p.b > err && Shrunk(m, p, n) && m.a == 1.0 && m.b > 0.0
    ensures n < Steps(err)
  {
    StepsAreEnough(err, n, p.a - p.b);
  }

  /** The complementary modulus of 0 <= k < 1 is positive and at most 1. */
  lemma Complement(k: real, sqrt: real -> real)
    requires IsSqrt(sqrt) && 0.0 <= k < 1.0
    ensures 1.0 - k * k > 0.0 && 0.0 < sqrt(1.0 - k * k) <= 1.0
  {
    SquareGrows(k, 1.0);
    NotNegative(k);
    var b := sqrt(1.0 - k * k);
    assert b * b == 1.0 - k * k;
    RootNotZero(b);
    SquareOrder(b, 1.0);
  }

  lemma RootNotZero(b: real)
    ensures b == 0.0 ==> b * b == 0.0
  {
  }

  // ----- descending Landen transformations -----

  /** The parameter of the next, descending, level. */
  function Landen(m: real, sqrt: real -> real): real {
    var kp := sqrt(1.0 - m);
    if 1.0 + kp != 0.0 then (1.0 - kp) / (1.0 + kp) else 0.0
  }

  function NextParameter(m: real, sqrt: real -> real): real {
    var smu := Landen(m, sqrt);
    smu * smu
  }

  lemma LandenIsSafe(m: real, sqrt: real -> real)
    requires IsSqrt(sqrt) && 0.0 <= m < 1.0
    ensures Landen(m, sqrt) >= 0.0
  {
    var kp := sqrt(1.0 - m);
    assert kp >= 0.0 && kp * kp == 1.0 - m;
    SquareOrder(kp, 1.0);
    var d, smu := 1.0 + kp, Landen(m, sqrt);
    assert smu * d == 1.0 - kp;
    if smu < 0.0 { NegativeProduct(smu, d); }
  }

  lemma NegativeProduct(a: real, b: real)
    requires a < 0.0 && b > 0.0
    ensures a * b < 0.0
  {
    ProductIncreases(a, 0.0, b);
  }

  /** Each level at least squares the parameter. */
  lemma ParameterSquares(m: real, sqrt: real -> real)
    requires IsSqrt(sqrt) && 0.0 <= m < 1.0
    ensures 0.0 <= NextParameter(m, sqrt) <= m * m
  {
    var kp := sqrt(1.0 - m);
    assert kp >= 0.0 && kp * kp == 1.0 - m;
    SquareOrder(kp, 1.0);
    var d := 1.0 + kp;
    var smu := Landen(m, sqrt);
    LandenIsSafe(m, sqrt);
    assert smu * d == 1.0 - kp;
    SmuSmall(m, kp, smu, d);
    NotNegative(smu);
    SquareOrder(smu, m);
  }

  lemma SmuSmall(m: real, kp: real, smu: real, d: real)
    requires kp >= 0.0 && kp * kp == 1.0 - m && d == 1.0 + kp && smu * d == 1.0 - kp && smu >= 0.0
    ensures smu <= m
  {
    calc {
      smu * d * d;
      (1.0 - kp) * (1.0 + kp);
      m;
    }
    GrowsTwice(smu, d);
  }

  lemma GrowsTwice(x: real, d: real)
    requires x >= 0.0 && d >= 1.0
    ensures x <= x * d * d
  {
    if x > 0.0 && d > 1.0 {
      ProductIncreases(1.0, d, x);
      ProductPositive(d, x, x * d);
      ProductIncreases(1.0, d, x * d);
    } else if x == 0.0 {
      assert x * d * d == 0.0 * (d * d);
    }
  }

  /** An upper bound of the number of levels, for parameters m with m (1 + delta) <= 1. */
  ghost function Levels(m: real, err: real, delta: real): nat
    requires err > 0.0 && delta > 0.0
  {
    if m < err then 0
    else
      LevelsPositive(m, err, delta);
      ((1.0 / err - 1.0 / m) / delta).Floor + 1
  }

  lemma LevelsPositive(m: real, err: real, delta: real)
    requires err > 0.0 && delta > 0.0 && m >= err
    ensures m != 0.0 && (1.0 / err - 1.0 / m) / delta >= 0.0
  {
    InversesReverse(err, m);
    var d := 1.0 / err - 1.0 / m;
    if d > 0.0 { QuotientPositive(d, delta, d / delta); } else { DivideUnique(0.0, delta, 0.0); }
  }

  /** The inverse of the parameter grows by at least delta from level to level. */
  lemma LevelsDecrease(m: real, n: real, err: real, delta: real)
    requires err > 0.0 && delta > 0.0 && err <= m < 1.0 && m * (1.0 + delta) <= 1.0 && 0.0 <= n <= m * m
    ensures Levels(n, err, delta) < Levels(m, err, delta) && n < 1.0 && n * (1.0 + delta) <= 1.0
  {
    ProductIncreases(m, 1.0, m);
    SmallerStillSmall(n, m, delta);
    LevelsPositive(m, err, delta);
    if n >= err {
      LevelsPositive(n, err, delta);
      InverseGrows(m, n, delta, 1.0 / m, 1.0 / n);
      QuotientDrops(1.0 / err - 1.0 / m, 1.0 / err - 1.0 / n, delta);
    }
  }

  lemma SmallerStillSmall(n: real, m: real, delta: real)
    requires n < m && delta > 0.0 && m * (1.0 + delta) <= 1.0
    ensures n * (1.0 + delta) <= 1.0
  {
    ProductIncreases(n, m, 1.0 + delta);
  }

  lemma InverseGrows(m: real, n: real, delta: real, p: real, q: real)
    requires delta > 0.0 && 0.0 < n <= m * m && 0.0 < m < 1.0 && m * (1.0 + delta) <= 1.0
    requires p * m == 1.0 && q * n == 1.0
    ensures q >= p + delta
  {
    DivideUnique(1.0, m, p);
    DivideUnique(1.0, n, q);
    QuotientPositive(1.0, m, p);
    ProductPositive(m, m, m * m);
    InversesReverse(n, m * m);
    assert p * p * (m * m) == 1.0 by { assert p * p * (m * m) == (p * m) * (p * m); }
    DivideUnique(1.0, m * m, p * p);
    assert p >= 1.0 + delta by {
      if p < 1.0 + delta { ProductIncreases(p, 1.0 + delta, m); }
    }
    Squares(p, delta);
  }

  lemma Squares(p: real, delta: real)
    requires p >= 1.0 + delta && delta > 0.0
    ensures p * p >= p + delta
  {
    assert p * p == p + (p - 1.0) * p;
    ProductIncreases(1.0, p, p - 1.0);
  }

  lemma QuotientDrops(x: real, y: real, delta: real)
    requires delta > 0.0 && y <= x - delta
    ensures (y / delta).Floor < (x / delta).Floor
  {
    var p, q := x / delta, y / delta;
    assert p * delta == x && q * delta == y;
    assert (p - 1.0) * delta == x - delta;
    if q > p - 1.0 { ProductIncreases(p - 1.0, q, delta); }
  }

  /** delta measures how far the parameter is below 1. */
  ghost predicate Parameter(m: real, err: real, delta: real) {
    0.0 <= m < 1.0 && err > 0.0 && delta > 0.0 && m * (1.0 + delta) <= 1.0
  }

  /** Every parameter below 1 is some way below it. */
  lemma ParameterExists(m: real, err: real) returns (delta: real)
    requires 0.0 <= m < 1.0 && err > 0.0
    ensures Parameter(m, err, delta)
  {
    delta := 1.0 - m;
    assert m * (1.0 + (1.0 - m)) == 1.0 - (1.0 - m) * (1.0 - m);
    NotNegative(1.0 - m);
  }

  /** One level down. */
  lemma Descend(m: real, sqrt: real -> real, err: real, delta: real)
    requires IsSqrt(sqrt) && Parameter(m, err, delta) && m >= err
    ensures Landen(m, sqrt) >= 0.0 && Parameter(NextParameter(m, sqrt), err, delta)
    ensures 0 <= Depth(NextParameter(m, sqrt), err, delta) < Depth(m, err, delta)
  {
    ParameterSquares(m, sqrt);
    LevelsDecrease(m, NextParameter(m, sqrt), err, delta);
    LandenIsSafe(m, sqrt);
  }

  ghost function Depth(m: real, err: real, delta: real): nat {
    if Parameter(m, err, delta) then Levels(m, err, delta) else 0
  }

  /** sn (u, m): the recursion ends for every parameter below 1. */
  function Sn(u: real, m: real, sin: real -> real, cos: real -> real, sqrt: real -> real, err: real,
              ghost delta: real): real
    requires IsSqrt(sqrt) && Parameter(m, err, delta)
    decreases Depth(m, err, delta)
  {
    if m < err then SnBase(u, m, sin, cos)
    else
      Descend(m, sqrt, err, delta);
      Ascend(Landen(m, sqrt), Sn(u / (1.0 + Landen(m, sqrt)), NextParameter(m, sqrt), sin, cos, sqrt, err, delta))
  }

  /** The approximation for a parameter that is nearly zero. */
  function SnBase(u: real, m: real, sin: real -> real, cos: real -> real): real {
    sin(u) - 0.25 * m * cos(u) * (u - 0.5 * sin(2.0 * u))
  }

  /** What one level makes of the value of the next. */
  function Ascend(smu: real, x: real): real
    requires smu >= 0.0
  {
    LandenDivisor(smu, x);
    (1.0 + smu) * x / (1.0 + smu * x * x)
  }

  lemma LandenDivisor(smu: real, x: real)
    requires smu >= 0.0
    ensures 1.0 + smu * x * x > 0.0
  {
    NotNegative(x);
    NotNegativeTimes(smu, x * x, smu * (x * x));
    assert smu * x * x == smu * (x * x);
  }

  lemma NotNegativeTimes(a: real, b: real, q: real)
    requires a >= 0.0 && b >= 0.0 && q == a * b
    ensures q >= 0.0
  {
  }

  /** The function is odd, as sn is, whenever the sine is odd and the cosine even. */
  lemma {:induction false} SnIsOdd(u: real, m: real, sin: real -> real, cos: real -> real, sqrt: real -> real,
                                   err: real, delta: real)
    requires IsSqrt(sqrt) && Parameter(m, err, delta)
    requires forall x: real :: sin(-x) == -sin(x)
    requires forall x: real :: cos(-x) == cos(x)
    ensures Sn(-u, m, sin, cos, sqrt, err, delta) == -Sn(u, m, sin, cos, sqrt, err, delta)
    decreases Depth(m, err, delta)
  {
    hide IsSqrt, Parameter, Levels, Depth, Landen, NextParameter, SnBase, Ascend;
    if m < err {
      SnBaseIsOdd(u, m, sin, cos);
    } else {
      Descend(m, sqrt, err, delta);
      var smu := Landen(m, sqrt);
      var v, n := u / (1.0 + smu), NextParameter(m, sqrt);
      DivideUnique(-u, 1.0 + smu, -v);
      SnIsOdd(v, n, sin, cos, sqrt, err, delta);
      LandenIsOdd(smu, Sn(v, n, sin, cos, sqrt, err, delta));
    }
  }

  lemma LandenIsOdd(smu: real, x: real)
    requires smu >= 0.0
    ensures Ascend(smu, -x) == -Ascend(smu, x)
  {
    LandenDivisor(smu, x);
    LandenDivisor(smu, -x);
    LandenOdd(smu, x, 1.0 + smu * x * x);
  }

  lemma SnBaseIsOdd(u: real, m: real, sin: real -> real, cos: real -> real)
    requires forall x: real :: sin(-x) == -sin(x)
    requires forall x: real :: cos(-x) == cos(x)
    ensures SnBase(-u, m, sin, cos) == -SnBase(u, m, sin, cos)
  {
    assert sin(-u) == -sin(u) && cos(-u) == cos(u) && sin(-(2.0 * u)) == -sin(2.0 * u);
    assert 2.0 * -u == -(2.0 * u);
    NegateProduct(0.25 * m * cos(u), u - 0.5 * sin(2.0 * u), -u - 0.5 * sin(2.0 * -u));
  }

  lemma NegateProduct(a: real, b: real, c: real)
    requires c == -b
    ensures a * c == -(a * b)
  {
  }

  lemma LandenOdd(s: real, x: real, d: real)
    requires d == 1.0 + s * x * x && d > 0.0
    ensures 1.0 + s * -x * -x == d && (1.0 + s) * -x / d == -((1.0 + s) * x / d)
  {
    assert s * -x * -x == s * x * x;
    var q := (1.0 + s) * x / d;
    assert q * d == (1.0 + s) * x;
    assert -q * d == (1.0 + s) * -x;
    DivideUnique((1.0 + s) * -x, d, -q);
  }

  // ----- what a Landen transformation does -----

  /** The next modulus, as the tables have it: (1 + smu)^2 times the parameter is 4 smu. */
  lemma LandenIs(m: real, sqrt: real -> real)
    requires IsSqrt(sqrt) && 0.0 <= m < 1.0
    ensures var kp, smu := sqrt(1.0 - m), Landen(m, sqrt);
            && 0.0 < kp <= 1.0 && kp * kp == 1.0 - m && 0.0 <= smu < 1.0
            && (1.0 + smu) * (1.0 + kp) == 2.0 && (1.0 + smu) * (1.0 + smu) * m == 4.0 * smu
  {
    var kp, smu := sqrt(1.0 - m), Landen(m, sqrt);
    assert kp >= 0.0 && kp * kp == 1.0 - m;
    RootNotZero(kp);
    SquareOrder(kp, 1.0);
    LandenIsSafe(m, sqrt);
    LandenValues(m, kp, 1.0 + kp, smu, 1.0 + smu);
  }

  lemma LandenValues(m: real, kp: real, d: real, smu: real, e: real)
    requires kp > 0.0 && d == 1.0 + kp && e == 1.0 + smu && smu * d == 1.0 - kp && kp * kp == 1.0 - m
    ensures e * d == 2.0 && e * e * m == 4.0 * smu && smu < 1.0
  {
    assert m == smu * d * d by { assert (1.0 - kp) * d == m; }
    var p := e * d;
    assert p == 2.0;
    calc {
      e * e * m;
      e * e * (smu * d * d);
      smu * (p * p);
      4.0 * smu;
    }
    if smu >= 1.0 { if smu > 1.0 { ProductIncreases(1.0, smu, d); } }
  }

  /** One level up keeps 1, and the unit interval. */
  lemma AscendKeeps(smu: real, x: real)
    requires 0.0 <= smu <= 1.0
    ensures Ascend(smu, 1.0) == 1.0
    ensures -1.0 <= x <= 1.0 ==> -1.0 <= Ascend(smu, x) <= 1.0
  {
    DivideUnique(1.0 + smu, 1.0 + smu * 1.0 * 1.0, 1.0);
    LandenDivisor(smu, x);
    var d, y := 1.0 + smu * x * x, Ascend(smu, x);
    DivideBack((1.0 + smu) * x, d);
    if -1.0 <= x <= 1.0 {
      assert smu * x * x == smu * (x * x) == smu * (-x * -x);
      WithinOne(smu, x, d);
      WithinOne(smu, -x, d);
      assert (1.0 + smu) * -x == -((1.0 + smu) * x);
      QuotientWithin((1.0 + smu) * x, d, y);
    }
  }

  lemma QuotientWithin(n: real, d: real, y: real)
    requires d > 0.0 && y * d == n && -d <= n <= d
    ensures -1.0 <= y <= 1.0
  {
    if y > 1.0 { ProductIncreases(1.0, y, d); }
    if y < -1.0 { ProductIncreases(y, -1.0, d); }
  }

  lemma WithinOne(smu: real, x: real, d: real)
    requires 0.0 <= smu <= 1.0 && -1.0 <= x <= 1.0 && d == 1.0 + smu * (x * x)
    ensures (1.0 + smu) * x <= d
  {
    assert smu * x <= 1.0 by {
      if x > 0.0 { NotNegativeTimes(1.0 - smu, x, (1.0 - smu) * x); } else { NotNegativeTimes(smu, -x, smu * -x); }
    }
    NotNegativeTimes(1.0 - x, 1.0 - smu * x, (1.0 - x) * (1.0 - smu * x));
    assert (1.0 - x) * (1.0 - smu * x) == d - (1.0 + smu) * x;
  }

  /** The level above solves the equation of its parameter where the level below does: with
      y the value above and x the one below, both sides of (y')^2 == (1 - y^2) (1 - m y^2) come from
      those for x and the parameter smu^2 by one and the same factor. */
  lemma AscendIs(smu: real, m: real, x: real)
    requires smu >= 0.0 && (1.0 + smu) * (1.0 + smu) * m == 4.0 * smu
    ensures var y, d := Ascend(smu, x), 1.0 + smu * x * x;
            && d > 0.0 && d * d * (1.0 - y * y) == (1.0 - x * x) * (1.0 - smu * smu * (x * x))
            && d * d * (1.0 - m * (y * y)) == (1.0 - smu * x * x) * (1.0 - smu * x * x)
  {
    LandenDivisor(smu, x);
    var y, d := Ascend(smu, x), 1.0 + smu * x * x;
    assert y * d == (1.0 + smu) * x;
    AscendSquares(smu, m, x * x, y * y, d, (1.0 + smu) * (1.0 + smu)) by {
      assert y * y * (d * d) == (y * d) * (y * d);
      assert ((1.0 + smu) * x) * ((1.0 + smu) * x) == (1.0 + smu) * (1.0 + smu) * (x * x);
      assert smu * x * x == smu * (x * x);
    }
    assert smu * x * x == smu * (x * x);
  }

  lemma AscendSquares(smu: real, m: real, x: real, y: real, d: real, e: real)
    requires d == 1.0 + smu * x && e == (1.0 + smu) * (1.0 + smu) && e * m == 4.0 * smu && y * (d * d) == e * x
    ensures d * d * (1.0 - y) == (1.0 - x) * (1.0 - smu * smu * x)
    ensures d * d * (1.0 - m * y) == (1.0 - smu * x) * (1.0 - smu * x)
  {
    assert d * d == 1.0 + 2.0 * (smu * x) + (smu * x) * (smu * x);
    assert e * x == x + 2.0 * (smu * x) + smu * smu * x;
    assert (1.0 - x) * (1.0 - smu * smu * x) == 1.0 - x - smu * smu * x + (smu * x) * (smu * x);
    assert m * y * (d * d) == 4.0 * (smu * x) by {
      assert m * y * (d * d) == m * (e * x);
      assert m * (e * x) == (e * m) * x;
    }
  }

  /** The base case is the approximation of the tables, sin u - m (u - sin u cos u) cos u / 4. */
  lemma SnBaseIs(u: real, m: real, sin: real -> real, cos: real -> real)
    requires sin(2.0 * u) == 2.0 * (sin(u) * cos(u))
    ensures 4.0 * (sin(u) - SnBase(u, m, sin, cos)) == m * ((u - sin(u) * cos(u)) * cos(u))
  {
    var c, w := cos(u), u - sin(u) * cos(u);
    assert 4.0 * (0.25 * m * c * w) == m * (w * c);
  }

  // ----- sn and K agree -----

  /** The quarter period: q is that of the sine, and every level stretches it by 1 + smu. */
  ghost function Quarter(m: real, q: real, sqrt: real -> real, err: real, delta: real): real
    requires IsSqrt(sqrt) && Parameter(m, err, delta)
    decreases Depth(m, err, delta)
  {
    if m < err then q
    else
      Descend(m, sqrt, err, delta);
      (1.0 + Landen(m, sqrt)) * Quarter(NextParameter(m, sqrt), q, sqrt, err, delta)
  }

  /** The number of levels. */
  ghost function LevelCount(m: real, sqrt: real -> real, err: real, delta: real): nat
    requires IsSqrt(sqrt) && Parameter(m, err, delta)
    decreases Depth(m, err, delta)
  {
    if m < err then 0
    else
      Descend(m, sqrt, err, delta);
      1 + LevelCount(NextParameter(m, sqrt), sqrt, err, delta)
  }

  /** There sn is 1, as the sine is at q. */
  lemma {:induction false} SnAtQuarter(m: real, q: real, sin: real -> real, cos: real -> real, sqrt: real -> real,
                                       err: real, delta: real)
    requires IsSqrt(sqrt) && Parameter(m, err, delta) && sin(q) == 1.0 && cos(q) == 0.0
    ensures Sn(Quarter(m, q, sqrt, err, delta), m, sin, cos, sqrt, err, delta) == 1.0
    decreases Depth(m, err, delta)
  {
    hide *;
    Descent(m, sqrt, err, delta);
    SnUnfold(Quarter(m, q, sqrt, err, delta), m, sin, cos, sqrt, err, delta);
    QuarterUnfold(m, q, sqrt, err, delta);
    if m < err {
      SnBaseAtQuarter(q, m, sin, cos);
    } else {
      var smu, n := Landen(m, sqrt), NextParameter(m, sqrt);
      SnAtQuarter(n, q, sin, cos, sqrt, err, delta);
      AscendKeeps(smu, 1.0);
      StretchedBack(Quarter(n, q, sqrt, err, delta), 1.0 + smu, Quarter(m, q, sqrt, err, delta));
    }
  }

  lemma SnUnfold(u: real, m: real, sin: real -> real, cos: real -> real, sqrt: real -> real, err: real, delta: real)
    requires IsSqrt(sqrt) && Parameter(m, err, delta)
    ensures m < err ==> Sn(u, m, sin, cos, sqrt, err, delta) == SnBase(u, m, sin, cos)
    ensures m >= err ==>
              var smu, n := Landen(m, sqrt), NextParameter(m, sqrt);
              && 0.0 <= smu < 1.0 && Parameter(n, err, delta)
              && Sn(u, m, sin, cos, sqrt, err, delta)
                 == Ascend(smu, Sn(u / (1.0 + smu), n, sin, cos, sqrt, err, delta))
  {
    Descent(m, sqrt, err, delta);
    hide IsSqrt, Parameter, Levels, Depth, Landen, NextParameter, SnBase, Ascend;
  }

  ghost predicate Stretches(u: real, e: real, v: real) {
    u == e * v
  }

  lemma QuarterUnfold(m: real, q: real, sqrt: real -> real, err: real, delta: real)
    requires IsSqrt(sqrt) && Parameter(m, err, delta)
    ensures m < err ==> Quarter(m, q, sqrt, err, delta) == q && LevelCount(m, sqrt, err, delta) == 0
    ensures m >= err ==>
              var n := NextParameter(m, sqrt);
              && Parameter(n, err, delta)
              && Stretches(Quarter(m, q, sqrt, err, delta), 1.0 + Landen(m, sqrt), Quarter(n, q, sqrt, err, delta))
              && LevelCount(m, sqrt, err, delta) == LevelCount(n, sqrt, err, delta) + 1
  {
    Descent(m, sqrt, err, delta);
    hide IsSqrt, Parameter, Levels, Depth, Landen, NextParameter;
  }

  /** What one level down keeps. */
  lemma Descent(m: real, sqrt: real -> real, err: real, delta: real)
    requires IsSqrt(sqrt) && Parameter(m, err, delta)
    ensures m >= err ==> 0.0 <= Landen(m, sqrt) < 1.0 && Parameter(NextParameter(m, sqrt), err, delta)
    ensures m >= err ==> Depth(NextParameter(m, sqrt), err, delta) < Depth(m, err, delta)
  {
    LandenIs(m, sqrt);
    if m >= err { Descend(m, sqrt, err, delta); }
  }

  lemma StretchedBack(v: real, e: real, u: real)
    requires e > 0.0 && Stretches(u, e, v)
    ensures u / e == v
  {
    DivideUnique(u, e, v);
  }

  lemma SnBaseAtQuarter(q: real, m: real, sin: real -> real, cos: real -> real)
    requires sin(q) == 1.0 && cos(q) == 0.0
    ensures SnBase(q, m, sin, cos) == 1.0
  {
    assert 0.25 * m * cos(q) * (q - 0.5 * sin(2.0 * q)) == 0.0;
  }

  function Times(c: real, m: Means): Means {
    Means(c * m.a, c * m.b)
  }

  lemma RootTimes(c: real, x: real, y: real, sqrt: real -> real)
    requires IsSqrt(sqrt) && c > 0.0 && x >= 0.0 && y == c * c * x
    ensures y >= 0.0 && sqrt(y) == c * sqrt(x)
  {
    ProductPositive(c, c, c * c);
    NotNegativeTimes(c * c, x, y);
    var r, t := sqrt(x), sqrt(y);
    NotNegativeTimes(c, r, c * r);
    assert (c * r) * (c * r) == c * c * (r * r);
    SquareOrder(t, c * r);
  }

  lemma NextTimes(c: real, m: Means, sqrt: real -> real)
    requires IsSqrt(sqrt) && c > 0.0 && 0.0 < m.b <= m.a
    ensures NextMeans(Times(c, m), sqrt) == Times(c, NextMeans(m, sqrt))
  {
    var t := Times(c, m);
    ProductPositive(m.a, m.b, m.a * m.b);
    assert t.a * t.b == c * c * (m.a * m.b);
    assert 0.5 * (t.a + t.b) == c * (0.5 * (m.a + m.b));
    RootTimes(c, Product(m.a, m.b), Product(t.a, t.b), sqrt);
  }

  lemma {:induction false} MeansTimes(c: real, m: Means, n: nat, sqrt: real -> real)
    requires IsSqrt(sqrt) && c > 0.0 && 0.0 < m.b <= m.a
    ensures MeansAfter(Times(c, m), n, sqrt) == Times(c, MeansAfter(m, n, sqrt))
    decreases n
  {
    if n > 0 {
      MeansTimes(c, m, n - 1, sqrt);
      MeansNested(m, n - 1, sqrt);
      var q := MeansAfter(m, n - 1, sqrt);
      assert 0.0 < q.b <= q.a;
      NextTimes(c, q, sqrt);
    }
  }

  lemma {:induction false} MeansShift(m: Means, n: nat, sqrt: real -> real)
    ensures MeansAfter(m, n + 1, sqrt) == MeansAfter(NextMeans(m, sqrt), n, sqrt)
    decreases n
  {
    hide NextMeans;
    if n > 0 {
      MeansShift(m, n - 1, sqrt);
    } else {
      assert MeansAfter(m, 1, sqrt) == NextMeans(MeansAfter(m, 0, sqrt), sqrt);
    }
  }

  /** The first means for the parameter m == k^2. */
  function StartMeans(m: real, sqrt: real -> real): Means {
    Means(1.0, sqrt(1.0 - m))
  }

  lemma StartMeansAre(k: real, m: real, sqrt: real -> real)
    requires m == k * k
    ensures StartMeans(m, sqrt) == FirstMeans(k, sqrt)
  {
  }

  lemma StartMeansOrder(m: real, sqrt: real -> real)
    requires IsSqrt(sqrt) && 0.0 <= m < 1.0
    ensures 0.0 < StartMeans(m, sqrt).b <= StartMeans(m, sqrt).a
  {
    LandenIs(m, sqrt);
  }

  /** One Landen transformation is one step of the means: it leads to the first means of the next
      parameter, but for the factor 1 + smu. */
  lemma LandenIsStep(m: real, sqrt: real -> real)
    requires IsSqrt(sqrt) && 0.0 <= m < 1.0
    ensures 0.0 <= Landen(m, sqrt) < 1.0
    ensures StartMeans(NextParameter(m, sqrt), sqrt)
         == Times(1.0 + Landen(m, sqrt), NextMeans(StartMeans(m, sqrt), sqrt))
  {
    LandenIs(m, sqrt);
    var smu, kp := Landen(m, sqrt), sqrt(1.0 - m);
    hide IsSqrt, Landen, Times, Product;
    StepRoot(kp, smu, 1.0 + smu, NextParameter(m, sqrt), Product(1.0, kp), sqrt) by { ProductOne(kp); }
  }

  lemma ProductOne(b: real)
    ensures Product(1.0, b) == b
  {
  }

  lemma StepRoot(kp: real, smu: real, e: real, n: real, p: real, sqrt: real -> real)
    requires IsSqrt(sqrt) && kp > 0.0 && smu >= 0.0 && e == 1.0 + smu && e * (1.0 + kp) == 2.0
    requires n == smu * smu && p == kp
    ensures Means(1.0, sqrt(1.0 - n)) == Times(e, Means(0.5 * (1.0 + kp), sqrt(p)))
  {
    var y := 1.0 - n;
    assert y == e * e * kp by {
      assert e * kp == 2.0 - e;
      assert e * e * kp == e * (2.0 - e);
      assert e * (2.0 - e) == (1.0 + smu) * (1.0 - smu);
    }
    assert e * (0.5 * (1.0 + kp)) == 0.5 * (e * (1.0 + kp));
    RootTimes(e, kp, y, sqrt);
  }

  /** One more step of the means from m is that many steps from the next parameter, but for the factor. */
  lemma MeanAbove(m: real, n: nat, sqrt: real -> real)
    requires IsSqrt(sqrt) && 0.0 <= m < 1.0
    ensures Stretches(MeansAfter(StartMeans(NextParameter(m, sqrt), sqrt), n, sqrt).a, 1.0 + Landen(m, sqrt),
                      MeansAfter(StartMeans(m, sqrt), n + 1, sqrt).a)
  {
    hide *;
    var f := StartMeans(m, sqrt);
    LandenIsStep(m, sqrt);
    StartMeansOrder(m, sqrt);
    MeansStep(f, sqrt);
    BetweenIs(f, NextMeans(f, sqrt));
    MeansShift(f, n, sqrt);
    MeansTimes(1.0 + Landen(m, sqrt), NextMeans(f, sqrt), n, sqrt);
    TimesStretches(1.0 + Landen(m, sqrt), MeansAfter(NextMeans(f, sqrt), n, sqrt));
  }

  lemma TimesStretches(c: real, m: Means)
    ensures Stretches(Times(c, m).a, c, m.a)
  {
  }

  lemma Stretched(v: real, e: real, a: real, b: real, u: real, q: real)
    requires Stretches(u, e, v) && Stretches(b, e, a) && Stretches(q, v, b)
    ensures Stretches(q, u, a)
  {
    assert e * v * a == v * (e * a);
  }

  lemma NotStretched(q: real)
    ensures Stretches(q, q, 1.0)
  {
  }

  /** So the q of the sine is the quarter period of sn times the mean that K computes, after as many
      steps as sn has levels: sn is 1 at the K of that many steps. */
  lemma {:induction false} QuarterIsMean(m: real, q: real, sqrt: real -> real, err: real, delta: real)
    requires IsSqrt(sqrt) && Parameter(m, err, delta)
    ensures Stretches(q, Quarter(m, q, sqrt, err, delta),
                      MeansAfter(StartMeans(m, sqrt), LevelCount(m, sqrt, err, delta), sqrt).a)
    decreases Depth(m, err, delta)
  {
    hide *;
    QuarterUnfold(m, q, sqrt, err, delta);
    if m < err {
      NoMeans(m, sqrt);
      NotStretched(q);
    } else {
      Descent(m, sqrt, err, delta);
      ParameterIs(m, err, delta);
      var p := NextParameter(m, sqrt);
      var n := LevelCount(p, sqrt, err, delta);
      QuarterIsMean(p, q, sqrt, err, delta);
      MeanAbove(m, n, sqrt);
      Stretched(Quarter(p, q, sqrt, err, delta), 1.0 + Landen(m, sqrt), MeansAfter(StartMeans(m, sqrt), n + 1, sqrt).a,
                MeansAfter(StartMeans(p, sqrt), n, sqrt).a, Quarter(m, q, sqrt, err, delta), q);
    }
  }

  lemma NoMeans(m: real, sqrt: real -> real)
    ensures MeansAfter(StartMeans(m, sqrt), 0, sqrt).a == 1.0
  {
  }

  lemma ParameterIs(m: real, err: real, delta: real)
    requires Parameter(m, err, delta)
    ensures 0.0 <= m < 1.0
  {
  }

  /** The number K returns after n steps, pi / (2 a), is the quarter period of the sn with as many
      levels, pi / 2 being that of the sine. */
  lemma KIsQuarter(k: real, m: real, pi: real, a: real, r: real, sqrt: real -> real, err: real, delta: real)
    requires IsSqrt(sqrt) && m == k * k && Parameter(m, err, delta) && a > 0.0 && r == pi / (2.0 * a)
    requires a == MeansAfter(FirstMeans(k, sqrt), LevelCount(m, sqrt, err, delta), sqrt).a
    ensures r == Quarter(m, pi / 2.0, sqrt, err, delta)
  {
    StartMeansAre(k, m, sqrt);
    hide *;
    QuarterIsMean(m, pi / 2.0, sqrt, err, delta);
    HalfTurn(pi, Quarter(m, pi / 2.0, sqrt, err, delta), a, r);
  }

  lemma HalfTurn(pi: real, u: real, a: real, r: real)
    requires Stretches(pi / 2.0, u, a) && a > 0.0 && r == pi / (2.0 * a)
    ensures r == u
  {
    DivideUnique(pi, 2.0 * a, u);
  }
}
