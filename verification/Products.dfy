/** Products of polynomials, and polynomials given by their roots. */
module Products {
  import opened RealMath
  import opened PolyMath

  // ----- products -----

  function Term(a: real, b: real): real {
    a * b
  }

  /** The coefficient of x^j in the product of c and d. */
  function Conv(c: seq<real>, d: seq<real>, j: int): real
    decreases |d|
  {
    if d == [] then 0.0 else Term(At(c, j), d[0]) + Conv(c, d[1..], j - 1)
  }

  function Mul(c: seq<real>, d: seq<real>): (r: seq<real>)
    ensures |r| == if c == [] || d == [] then 0 else |c| + |d| - 1
    ensures forall j :: 0 <= j < |r| ==> r[j] == Conv(c, d, j)
  {
    if c == [] || d == [] then []
    else seq(|c| + |d| - 1, j requires 0 <= j < |c| + |d| - 1 => Conv(c, d, j))
  }

  lemma {:induction false} ConvOutside(c: seq<real>, d: seq<real>, j: int)
    ensures j < 0 || j > |c| + |d| - 2 ==> Conv(c, d, j) == 0.0
    decreases |d|
  {
    if d != [] { ConvOutside(c, d[1..], j - 1); }
  }

  lemma {:induction false} ConvTop(c: seq<real>, d: seq<real>)
    requires c != [] && d != []
    ensures Conv(c, d, |c| + |d| - 2) == Term(c[|c| - 1], d[|d| - 1])
    decreases |d|
  {
    if |d| > 1 {
      ConvTop(c, d[1..]);
    } else {
      assert Conv(c, d[1..], |c| - 2) == 0.0;
    }
  }

  lemma MulAt(c: seq<real>, d: seq<real>, j: int)
    requires c != []
    ensures At(Mul(c, d), j) == Conv(c, d, j)
  {
    ConvOutside(c, d, j);
  }

  /** A product is a sum of a multiple and a product of the rest one power up. */
  lemma MulSplits(c: seq<real>, d: seq<real>, j: int)
    requires c != [] && d != []
    ensures At(Mul(c, d), j) == At(Times(c, d[0]), j) + At([0.0] + Mul(c, d[1..]), j)
  {
    MulAt(c, d, j);
    MulAt(c, d[1..], j - 1);
    ConvOutside(c, d[1..], j - 1);
  }

  lemma EvalShift(c: seq<real>, x: real)
    ensures Eval([0.0] + c, x) == x * Eval(c, x)
  {
    assert Tail([0.0] + c) == c;
    EvalUnfold([0.0] + c, x);
  }

  /** The value of a product is the product of the values. */
  lemma {:induction false} EvalMul(c: seq<real>, d: seq<real>, x: real)
    requires c != []
    ensures Eval(Mul(c, d), x) == Eval(c, x) * Eval(d, x)
    decreases |d|
  {
    hide Eval, Mul, Times;
    if d == [] {
      EvalEmpty(x);
      assert Mul(c, d) == [];
    } else {
      EvalMul(c, d[1..], x);
      forall j: int ensures At(Mul(c, d), j) == At(Times(c, d[0]), j) + At([0.0] + Mul(c, d[1..]), j) {
        MulSplits(c, d, j);
      }
      EvalPlus(Mul(c, d), Times(c, d[0]), [0.0] + Mul(c, d[1..]), x);
      EvalTimes(c, d[0], x);
      EvalShift(Mul(c, d[1..]), x);
      EvalUnfold(d, x);
      MulValue(Eval(c, x), d[0], x, Eval(d[1..], x));
    }
  }

  lemma MulValue(e: real, a: real, x: real, f: real)
    ensures a * e + x * (e * f) == e * (a + x * f)
  {
  }

  /** The product of canonical polynomials that are not zero is canonical. */
  lemma MulCanonical(c: seq<real>, d: seq<real>)
    requires c != [] && d != [] && c[|c| - 1] != 0.0 && d[|d| - 1] != 0.0
    ensures Canonical(Mul(c, d)) && |Mul(c, d)| == |c| + |d| - 1
    ensures Mul(c, d)[|c| + |d| - 2] == c[|c| - 1] * d[|d| - 1]
  {
    ConvTop(c, d);
    ProductNonZero(c[|c| - 1], d[|d| - 1], c[|c| - 1] * d[|d| - 1]);
  }

  /** Adding one more coefficient of the second factor, from the end. */
  lemma {:induction false} ConvSnoc(c: seq<real>, d: seq<real>, e: real, j: int)
    ensures Conv(c, d + [e], j) == Conv(c, d, j) + Term(At(c, j - |d|), e)
    decreases |d|
  {
    if d == [] {
      assert [] + [e] == [e] && [e][1..] == [];
      assert Conv(c, [e], j) == Term(At(c, j), e) + Conv(c, [], j - 1);
    } else {
      assert (d + [e])[1..] == d[1..] + [e];
      ConvSnoc(c, d[1..], e, j - 1);
    }
  }

  // ----- P(-x), and P(x) P(-x) -----

  function Mirror(c: seq<real>): (r: seq<real>)
    ensures |r| == |c|
    ensures forall j :: 0 <= j < |c| ==> r[j] == if j % 2 == 1 then -c[j] else c[j]
    ensures Canonical(c) ==> Canonical(r)
  {
    seq(|c|, j requires 0 <= j < |c| => if j % 2 == 1 then -c[j] else c[j])
  }

  lemma MirrorTailAt(c: seq<real>, j: int)
    requires 0 <= j < |c| - 1
    ensures Mirror(c)[j + 1] == -Mirror(c[1..])[j]
  {
  }

  lemma MirrorTail(c: seq<real>)
    requires c != []
    ensures Mirror(c)[1..] == Times(Mirror(c[1..]), -1.0) && Mirror(c)[0] == c[0]
  {
    var a, d := Mirror(c)[1..], Mirror(c[1..]);
    hide Times;
    forall j | 0 <= j < |c| - 1 ensures a[j] == Times(d, -1.0)[j] {
      MirrorTailAt(c, j);
      TimesEntry(d, -1.0, j, -d[j]);
    }
    assert a == Times(d, -1.0);
  }

  lemma {:induction false} EvalMirror(c: seq<real>, x: real)
    ensures Eval(Mirror(c), x) == Eval(c, -x)
    decreases |c|
  {
    hide Mirror, Times;
    if c != [] {
      EvalMirror(c[1..], x);
      MirrorTail(c);
      EvalTimes(Mirror(c[1..]), -1.0, x);
      assert x * (-1.0 * Eval(c[1..], -x)) == -x * Eval(c[1..], -x);
    }
  }

  /** The product by its first factor. */
  lemma {:induction false} ConvLeft(c: seq<real>, d: seq<real>, j: int)
    requires c != []
    ensures Conv(c, d, j) == Term(c[0], At(d, j)) + Conv(c[1..], d, j - 1)
    decreases |d|
  {
    if d != [] {
      ConvLeft(c, d[1..], j - 1);
      if j == 0 {
        ConvOutside(c[1..], d, -1);
        ConvOutside(c, d[1..], -1);
      } else {
        assert At(c, j) == At(c[1..], j - 1);
        assert At(d, j) == At(d[1..], j - 1) by { if j < 0 { } }
      }
    }
  }

  lemma {:induction false} ConvNegate(c: seq<real>, d: seq<real>, j: int)
    ensures Conv(c, Times(d, -1.0), j) == -Conv(c, d, j)
    decreases |d|
  {
    if d != [] {
      TimesTail(d, -1.0);
      assert Times(d, -1.0)[1..] == Times(d[1..], -1.0);
      ConvNegate(c, d[1..], j - 1);
      assert At(c, j) * (d[0] * -1.0) == -(At(c, j) * d[0]);
    }
  }

  /** P(x) P(-x) has no odd power. */
  lemma {:induction false} MirrorProductIsEven(c: seq<real>, j: int)
    requires j % 2 == 1
    ensures Conv(c, Mirror(c), j) == 0.0
    decreases |c|
  {
    if j < 0 {
      ConvOutside(c, Mirror(c), j);
    } else if c != [] {
      var t, m := c[1..], Mirror(c[1..]);
      MirrorProductIsEven(t, j - 2);
      MirrorTail(c);
      ConvLeft(c, Mirror(c), j);
      assert Conv(t, Mirror(c), j - 1) == Term(At(t, j - 1), c[0]) + Conv(t, Times(m, -1.0), j - 2);
      ConvNegate(t, m, j - 2);
      MirrorOdd(c, t, j);
    }
  }

  lemma MirrorOdd(c: seq<real>, t: seq<real>, j: int)
    requires c != [] && t == c[1..] && j % 2 == 1 && j >= 0
    ensures Term(c[0], At(Mirror(c), j)) + Term(At(t, j - 1), c[0]) == 0.0
  {
    assert At(t, j - 1) == At(c, j);
    assert At(Mirror(c), j) == -At(c, j);
    assert c[0] * -At(c, j) + At(c, j) * c[0] == 0.0;
  }

  // ----- the derivative -----

  function Derivative(c: seq<real>): (r: seq<real>)
    ensures |r| == if c == [] then 0 else |c| - 1
    ensures forall j :: 0 <= j < |r| ==> r[j] == Term((j + 1) as real, c[j + 1])
  {
    if c == [] then [] else seq(|c| - 1, j requires 0 <= j < |c| - 1 => Term((j + 1) as real, c[j + 1]))
  }

  /** (a + x t)' == t + x t' */
  lemma DerivativeSplits(c: seq<real>, j: int)
    requires c != []
    ensures At(Derivative(c), j) == At(c[1..], j) + At([0.0] + Derivative(c[1..]), j)
  {
    var t := c[1..];
    if 0 <= j < |t| {
      assert Term((j + 1) as real, t[j]) == t[j] + Term(j as real, t[j]) by { OneMore(j as real, t[j]); }
      if j > 0 { assert ([0.0] + Derivative(t))[j] == Derivative(t)[j - 1]; }
    }
  }

  lemma OneMore(n: real, v: real)
    ensures (n + 1.0) * v == v + n * v
  {
  }

  lemma EvalCShift(c: seq<real>, z: Cx)
    ensures EvalC([0.0] + c, z) == CxMul(z, EvalC(c, z))
  {
    assert Tail([0.0] + c) == c;
    EvalCUnfold([0.0] + c, z);
  }

  lemma DerivativeStep(c: seq<real>, z: Cx)
    requires c != []
    ensures EvalC(Derivative(c), z) == CxAdd(EvalC(c[1..], z), CxMul(z, EvalC(Derivative(c[1..]), z)))
  {
    hide EvalC, CxMul, CxAdd, Derivative;
    forall j: int ensures At(Derivative(c), j) == At(c[1..], j) + At([0.0] + Derivative(c[1..]), j) {
      DerivativeSplits(c, j);
    }
    EvalCPlus(Derivative(c), c[1..], [0.0] + Derivative(c[1..]), z);
    EvalCShift(Derivative(c[1..]), z);
  }

  // ----- polynomials from their roots -----

  /** c (x - r) */
  function TimesLinear(c: seq<real>, r: real): (d: seq<real>)
    ensures |d| == |c| + 1
    ensures forall j :: 0 <= j < |d| ==> d[j] == At(c, j - 1) - Term(r, At(c, j))
  {
    seq(|c| + 1, j requires 0 <= j < |c| + 1 => At(c, j - 1) - Term(r, At(c, j)))
  }

  function QuadraticAt(c: seq<real>, t: real, u: real, j: int): real {
    At(c, j - 2) + Term(t, At(c, j - 1)) + Term(u, At(c, j))
  }

  /** c (x^2 + t x + u) */
  function TimesQuadratic(c: seq<real>, t: real, u: real): (d: seq<real>)
    ensures |d| == |c| + 2
    ensures forall j :: 0 <= j < |d| ==> d[j] == QuadraticAt(c, t, u, j)
  {
    seq(|c| + 2, j requires 0 <= j < |c| + 2 => QuadraticAt(c, t, u, j))
  }

  /** A real root, or a pair of conjugate ones. */
  datatype Root = Real(r: real) | Pair(z: Cx)

  function TimesRoot(c: seq<real>, root: Root): (d: seq<real>)
    ensures |d| == |c| + (if root.Real? then 1 else 2)
  {
    match root
    case Real(r) => TimesLinear(c, r)
    case Pair(z) => TimesQuadratic(c, -2.0 * z.re, Norm(z))
  }

  /** The value at x of the factor of a root. */
  function FactorValue(root: Root, x: real): real {
    match root
    case Real(r) => x - r
    case Pair(z) => x * x + -2.0 * z.re * x + Norm(z)
  }

  lemma TimesLinearAt(c: seq<real>, r: real, j: int)
    ensures At(TimesLinear(c, r), j) == At(c, j - 1) - Term(r, At(c, j))
  {
  }

  lemma TimesQuadraticAt(c: seq<real>, t: real, u: real, j: int)
    ensures At(TimesQuadratic(c, t, u), j) == At(c, j - 2) + Term(t, At(c, j - 1)) + Term(u, At(c, j))
  {
  }

  lemma TermFacts(a: real, r: real)
    ensures Term(a, -r) == -Term(r, a) && Term(a, 1.0) == a && Term(a, r) == Term(r, a)
  {
  }

  lemma LinearIsMul(c: seq<real>, r: real, j: int)
    requires c != []
    ensures At(TimesLinear(c, r), j) == At(Mul(c, [-r, 1.0]), j)
  {
    hide *;
    TimesLinearAt(c, r, j);
    MulAt(c, [-r, 1.0], j);
    ConvTwo(c, -r, 1.0, j);
    TermFacts(At(c, j), r);
    TermFacts(At(c, j - 1), r);
  }

  lemma ConvTwo(c: seq<real>, a: real, b: real, j: int)
    ensures Conv(c, [a, b], j) == Term(At(c, j), a) + Term(At(c, j - 1), b)
  {
    hide Term, At;
    assert [a, b][1..] == [b] && [b][1..] == [];
    assert Conv(c, [b], j - 1) == Term(At(c, j - 1), b) + Conv(c, [], j - 2);
  }

  lemma ConvThree(c: seq<real>, a: real, b: real, e: real, j: int)
    ensures Conv(c, [a, b, e], j) == Term(At(c, j), a) + Term(At(c, j - 1), b) + Term(At(c, j - 2), e)
  {
    hide Term, At;
    assert [a, b, e][1..] == [b, e];
    ConvTwo(c, b, e, j - 1);
  }

  lemma QuadraticIsMul(c: seq<real>, t: real, u: real, j: int)
    requires c != []
    ensures At(TimesQuadratic(c, t, u), j) == At(Mul(c, [u, t, 1.0]), j)
  {
    hide *;
    TimesQuadraticAt(c, t, u, j);
    MulAt(c, [u, t, 1.0], j);
    ConvThree(c, u, t, 1.0, j);
    TermFacts(At(c, j), u);
    TermFacts(At(c, j - 1), t);
    TermFacts(At(c, j - 2), t);
  }

  lemma EvalTimesLinear(c: seq<real>, r: real, x: real)
    requires c != []
    ensures Eval(TimesLinear(c, r), x) == FactorValue(Real(r), x) * Eval(c, x)
  {
    hide Eval, Mul, TimesLinear, FactorValue;
    forall j: int ensures At(TimesLinear(c, r), j) == At(Mul(c, [-r, 1.0]), j) {
      LinearIsMul(c, r, j);
    }
    EvalExt(TimesLinear(c, r), Mul(c, [-r, 1.0]), x);
    EvalMul(c, [-r, 1.0], x);
    TwoValue(-r, 1.0, x);
    LinearValue(r, x, Eval(c, x));
  }

  lemma LinearValue(r: real, x: real, e: real)
    ensures e * (-r + x * 1.0) == FactorValue(Real(r), x) * e
  {
  }

  lemma TwoValue(a: real, b: real, x: real)
    ensures Eval([a, b], x) == a + x * b
  {
    EvalUnfold([a, b], x);
    EvalUnfold([b], x);
    assert Tail([a, b]) == [b] && Tail([b]) == [];
    EvalEmpty(x);
  }

  lemma EvalTimesQuadratic(c: seq<real>, z: Cx, x: real)
    requires c != []
    ensures Eval(TimesQuadratic(c, -2.0 * z.re, Norm(z)), x) == FactorValue(Pair(z), x) * Eval(c, x)
  {
    hide Eval, Mul, TimesQuadratic, FactorValue, Norm;
    var t, u := -2.0 * z.re, Norm(z);
    forall j: int ensures At(TimesQuadratic(c, t, u), j) == At(Mul(c, [u, t, 1.0]), j) {
      QuadraticIsMul(c, t, u, j);
    }
    EvalExt(TimesQuadratic(c, t, u), Mul(c, [u, t, 1.0]), x);
    EvalMul(c, [u, t, 1.0], x);
    EvalUnfold([u, t, 1.0], x);
    assert Tail([u, t, 1.0]) == [t, 1.0];
    TwoValue(t, 1.0, x);
    QuadraticValue(z, t, u, x, Eval(c, x));
  }

  lemma QuadraticValue(z: Cx, t: real, u: real, x: real, e: real)
    requires t == -2.0 * z.re && u == Norm(z)
    ensures e * (u + x * (t + x * 1.0)) == FactorValue(Pair(z), x) * e
  {
    hide Norm;
    assert u + x * (t + x * 1.0) == x * x + t * x + u;
  }

  lemma EvalTimesRoot(c: seq<real>, root: Root, x: real)
    requires c != []
    ensures Eval(TimesRoot(c, root), x) == FactorValue(root, x) * Eval(c, x)
  {
    hide Eval, FactorValue, TimesLinear, TimesQuadratic;
    match root
    case Real(r) => EvalTimesLinear(c, r, x);
    case Pair(z) => EvalTimesQuadratic(c, z, x);
  }

  // ----- dividing a root out again -----

  /** Dividing by the factor that was just multiplied in gives the polynomial back, and no remainder. */
  lemma {:induction false} LinearUndone(c: seq<real>, r: real)
    requires c != []
    ensures DivideLinear(TimesLinear(c, r), r) == QuoRem1(c, 0.0)
  {
    hide *;
    LinearTail(c, r);
    LinearEntries(c, r);
    DivideLinearUp(TimesLinear(c, r), QuoRem1(c[1..], c[0]), r);
    MinusLinear(r, c[0], 0.0);
    assert [c[0]] + c[1..] == c;
  }

  /** Dividing by x - r: old == (x - r) q + remainder, and the remainder is the value at r, so that
      the division is exact exactly at a root. */
  lemma {:induction false} DivideLinearMeans(c: seq<real>, r: real, x: real)
    requires c != []
    ensures var d := DivideLinear(c, r);
            Eval(c, x) == (x - r) * Eval(d.q, x) + d.r0 && d.r0 == Eval(c, r)
    decreases |c|
  {
    hide Eval, MinusTimes;
    var d := DivideLinear(c, r);
    EvalUnfold(c, x);
    EvalUnfold(c, r);
    if |c| == 1 {
      assert Tail(c) == [];
      EvalEmpty(x);
      EvalEmpty(r);
      LinearMeansShort(x, r, c[0], Eval([], x), Eval([], r));
    } else {
      var e := DivideLinear(c[1..], r);
      DivideLinearMeans(c[1..], r, x);
      assert d.q == [e.r0] + e.q && d.q[1..] == e.q;
      EvalUnfold(d.q, x);
      assert d.r0 == MinusTimes(c[0], e.r0, -r);
      LinearMeansStep(x, r, c[0], e.r0, Eval(e.q, x), d.r0, Eval(c[1..], x), Eval(c[1..], r), Eval(d.q, x));
    }
  }

  lemma LinearMeansShort(x: real, r: real, a: real, e: real, f: real)
    requires e == 0.0 && f == 0.0
    ensures a + x * e == (x - r) * e + a && a + r * f == a
  {
  }

  lemma LinearMeansStep(x: real, r: real, a: real, b: real, q: real, d: real, e: real, f: real, p: real)
    requires d == MinusTimes(a, b, -r) && e == (x - r) * q + b && f == b && p == b + x * q
    ensures a + x * e == (x - r) * p + d && a + r * f == d
  {
  }

  lemma LinearEntries(c: seq<real>, r: real)
    requires c != []
    ensures TimesLinear(c, r)[0] == 0.0 - Term(r, c[0])
    ensures |c| > 1 ==> TimesLinear(c, r)[1] == c[0] - Term(r, c[1])
    ensures |c| == 1 ==> TimesLinear(c, r)[1..] == [c[0]]
  {
    assert Term(r, 0.0) == 0.0;
    hide Term;
    if |c| == 1 { assert TimesLinear(c, r)[1] == At(c, 0) - Term(r, At(c, 1)); }
  }

  lemma MinusLinear(r: real, a: real, b: real)
    ensures MinusTimes(b - Term(r, a), a, -r) == b
  {
  }

  lemma DivideLinearUp(c: seq<real>, e: QuoRem1, r: real)
    requires |c| > 1 && DivideLinear(c[1..], r) == e
    ensures DivideLinear(c, r) == QuoRem1([e.r0] + e.q, MinusTimes(c[0], e.r0, -r))
  {
    hide MinusTimes;
  }

  lemma DivideLinearOne(a: real, r: real)
    ensures DivideLinear([a], r) == QuoRem1([], a)
  {
  }

  /** The upper part of c (x - r): the division has c[0] left after it. */
  lemma {:induction false} LinearTail(c: seq<real>, r: real)
    requires c != []
    ensures DivideLinear(TimesLinear(c, r)[1..], r) == QuoRem1(c[1..], c[0])
    decreases |c|
  {
    hide *;
    var d := TimesLinear(c, r);
    LinearEntries(c, r);
    if |c| == 1 {
      DivideLinearOne(c[0], r);
      assert c[1..] == [];
    } else {
      LinearTail(c[1..], r);
      LinearShift(c, r);
      DivideLinearUp(d[1..], QuoRem1(c[1..][1..], c[1]), r);
      MinusLinear(r, c[1], c[0]);
      assert [c[1]] + c[1..][1..] == c[1..];
    }
  }

  lemma LinearShift(c: seq<real>, r: real)
    requires |c| > 1
    ensures TimesLinear(c, r)[1..][1..] == TimesLinear(c[1..], r)[1..]
  {
    var a, b := TimesLinear(c, r)[1..][1..], TimesLinear(c[1..], r)[1..];
    forall j | 0 <= j < |b| ensures a[j] == b[j] {
      assert a[j] == TimesLinear(c, r)[j + 2] && b[j] == TimesLinear(c[1..], r)[j + 1];
      assert At(c, j + 1) == At(c[1..], j) && At(c, j + 2) == At(c[1..], j + 1);
    }
  }

  lemma {:induction false} QuadraticUndone(c: seq<real>, t: real, u: real)
    requires c != []
    ensures Divide(TimesQuadratic(c, t, u), t, u) == QuoRem(c, 0.0, 0.0)
  {
    hide *;
    QuadraticTail(c, t, u);
    QuadraticFirst(c, t, u);
    DivideUp(TimesQuadratic(c, t, u), QuoRem(c[1..], c[0], Term(t, c[0])), t, u);
    MinusTerms(t, u, 0.0, c[0]);
    MinusZero(u, c[0]);
    assert [c[0]] + c[1..] == c;
  }

  lemma QuadraticFirst(c: seq<real>, t: real, u: real)
    requires c != []
    ensures TimesQuadratic(c, t, u)[0] == Term(u, c[0])
  {
    assert Term(t, 0.0) == 0.0;
    hide Term;
    assert At(c, -2) == 0.0 && At(c, -1) == 0.0 && At(c, 0) == c[0];
  }

  lemma MinusZero(u: real, a: real)
    ensures MinusTimes(Term(u, a), a, u) == 0.0
  {
  }

  /** The upper part of c (x^2 + t x + u): the division has c[0] x + t c[0] left after it. */
  lemma {:induction false} QuadraticTail(c: seq<real>, t: real, u: real)
    requires c != []
    ensures Divide(TimesQuadratic(c, t, u)[1..], t, u) == QuoRem(c[1..], c[0], Term(t, c[0]))
    decreases |c|
  {
    hide *;
    var d := TimesQuadratic(c, t, u);
    if |c| == 1 {
      QuadraticSingle(c, t, u);
      DivideTwo(Term(t, c[0]), c[0], t, u);
      assert c[1..] == [];
    } else {
      var b := TimesQuadratic(c[1..], t, u)[1..];
      QuadraticTail(c[1..], t, u);
      QuadraticShift(c, t, u);
      DivideConstant(b, c[0], t, u);
      QuadraticSecond(c, t, u);
      DivideUp(d[1..], QuoRem(c[1..][1..], c[1], Term(t, c[1]) + c[0]), t, u);
      MinusTerms(t, u, c[0], c[1]);
      assert [c[1]] + c[1..][1..] == c[1..];
    }
  }

  lemma DivideTwo(a: real, b: real, t: real, u: real)
    ensures Divide([a, b], t, u) == QuoRem([], b, a)
  {
  }

  lemma DivideUp(c: seq<real>, e: QuoRem, t: real, u: real)
    requires |c| > 2 && Divide(c[1..], t, u) == e
    ensures Divide(c, t, u) == QuoRem([e.r1] + e.q, MinusTimes(e.r0, e.r1, t), MinusTimes(c[0], e.r1, u))
  {
    hide MinusTimes;
  }

  lemma QuadraticSecond(c: seq<real>, t: real, u: real)
    requires |c| > 1
    ensures TimesQuadratic(c, t, u)[1] == Term(t, c[0]) + Term(u, c[1])
  {
    hide Term;
  }

  lemma QuadraticSingle(c: seq<real>, t: real, u: real)
    requires |c| == 1
    ensures TimesQuadratic(c, t, u)[1..] == [Term(t, c[0]), c[0]]
  {
    var d := TimesQuadratic(c, t, u);
    assert Term(u, 0.0) == 0.0 && Term(t, 0.0) == 0.0;
    hide Term;
    assert d[1] == At(c, -1) + Term(t, At(c, 0)) + Term(u, At(c, 1));
    assert d[2] == At(c, 0) + Term(t, At(c, 1)) + Term(u, At(c, 2));
  }

  lemma MinusTerms(t: real, u: real, a: real, b: real)
    ensures MinusTimes(Term(t, b) + a, b, t) == a
    ensures MinusTimes(Term(t, a) + Term(u, b), b, u) == Term(t, a)
  {
  }

  lemma QuadraticShift(c: seq<real>, t: real, u: real)
    requires |c| > 1
    ensures var b := TimesQuadratic(c[1..], t, u)[1..];
            |b| > 0 && TimesQuadratic(c, t, u)[1..][1..] == b[0 := b[0] + c[0]]
  {
    var a, b := TimesQuadratic(c, t, u)[1..][1..], TimesQuadratic(c[1..], t, u)[1..];
    forall j | 0 <= j < |b| ensures a[j] == b[0 := b[0] + c[0]][j] {
      QuadraticShiftAt(c, t, u, j);
      hide TimesQuadratic;
      assert a[j] == TimesQuadratic(c, t, u)[j + 2] && b[j] == TimesQuadratic(c[1..], t, u)[j + 1];
    }
  }

  lemma QuadraticShiftAt(c: seq<real>, t: real, u: real, j: nat)
    requires |c| > 1
    ensures At(TimesQuadratic(c, t, u), j + 2)
         == At(TimesQuadratic(c[1..], t, u), j + 1) + (if j == 0 then c[0] else 0.0)
  {
    hide *;
    TimesQuadraticAt(c, t, u, j + 2);
    TimesQuadraticAt(c[1..], t, u, j + 1);
    RestAt(c, j);
  }

  lemma RestAt(c: seq<real>, j: int)
    requires c != []
    ensures At(c, j + 1) == At(c[1..], j) || j < 0
    ensures At(c, j + 2) == At(c[1..], j + 1) || j < -1
    ensures At(c, j) == At(c[1..], j - 1) || j < 1
    ensures j == 0 ==> At(c[1..], j - 1) == 0.0 && At(c, j) == c[0]
  {
  }

  lemma DivideConstant(c: seq<real>, v: real, t: real, u: real)
    requires c != []
    ensures var d := Divide(c, t, u);
            Divide(c[0 := c[0] + v], t, u) == QuoRem(d.q, d.r1, d.r0 + v)
  {
    assert c[0 := c[0] + v][1..] == c[1..];
  }

  // ----- the order of the roots does not matter -----

  lemma RootsCommute(c: seq<real>, a: Root, b: Root)
    ensures TimesRoot(TimesRoot(c, a), b) == TimesRoot(TimesRoot(c, b), a)
  {
    hide TimesRoot;
    var p, q := TimesRoot(TimesRoot(c, a), b), TimesRoot(TimesRoot(c, b), a);
    forall j | 0 <= j < |p| ensures p[j] == q[j] {
      CommuteAt(c, a, b, j);
    }
  }

  lemma CommuteAt(c: seq<real>, a: Root, b: Root, j: int)
    ensures At(TimesRoot(TimesRoot(c, a), b), j) == At(TimesRoot(TimesRoot(c, b), a), j)
  {
    hide *;
    RootAt(c, a, j);
    RootAt(c, a, j - 1);
    RootAt(c, a, j - 2);
    RootAt(c, b, j);
    RootAt(c, b, j - 1);
    RootAt(c, b, j - 2);
    RootAt(TimesRoot(c, a), b, j);
    RootAt(TimesRoot(c, b), a, j);
    Commute(Two(a), One(a), Zero(a), Two(b), One(b), Zero(b),
            At(c, j - 4), At(c, j - 3), At(c, j - 2), At(c, j - 1), At(c, j));
  }

  // The coefficients of x^2, x and 1 in the factor of a root.

  function Two(a: Root): real {
    if a.Real? then 0.0 else 1.0
  }

  function One(a: Root): real {
    if a.Real? then 1.0 else -2.0 * a.z.re
  }

  function Zero(a: Root): real {
    if a.Real? then -a.r else Norm(a.z)
  }

  /** p x^2 + q x + r, applied to three consecutive coefficients. */
  function Combine(p: real, q: real, r: real, c2: real, c1: real, c0: real): real {
    p * c2 + q * c1 + r * c0
  }

  lemma RootAt(c: seq<real>, a: Root, j: int)
    ensures At(TimesRoot(c, a), j) == Combine(Two(a), One(a), Zero(a), At(c, j - 2), At(c, j - 1), At(c, j))
  {
    hide Norm, Combine, At, Term, TimesLinear, TimesQuadratic;
    match a
    case Real(r) =>
      TimesLinearAt(c, r, j);
      CombineLinear(r, At(c, j - 2), At(c, j - 1), At(c, j));
    case Pair(z) =>
      TimesQuadraticAt(c, -2.0 * z.re, Norm(z), j);
      CombineQuadratic(-2.0 * z.re, Norm(z), At(c, j - 2), At(c, j - 1), At(c, j));
  }

  lemma CombineLinear(r: real, c2: real, c1: real, c0: real)
    ensures Combine(0.0, 1.0, -r, c2, c1, c0) == c1 - Term(r, c0)
  {
  }

  lemma CombineQuadratic(t: real, u: real, c2: real, c1: real, c0: real)
    ensures Combine(1.0, t, u, c2, c1, c0) == c2 + Term(t, c1) + Term(u, c0)
  {
  }

  lemma Commute(p: real, q: real, r: real, u: real, v: real, w: real, c4: real, c3: real, c2: real, c1: real, c0: real)
    ensures Combine(u, v, w, Combine(p, q, r, c4, c3, c2), Combine(p, q, r, c3, c2, c1), Combine(p, q, r, c2, c1, c0))
         == Combine(p, q, r, Combine(u, v, w, c4, c3, c2), Combine(u, v, w, c3, c2, c1), Combine(u, v, w, c2, c1, c0))
  {
  }

  /** c times the factors of all the roots. */
  function Built(c: seq<real>, roots: seq<Root>): (d: seq<real>)
    ensures |d| >= |c|
    decreases |roots|
  {
    if roots == [] then c else Built(TimesRoot(c, roots[0]), roots[1..])
  }

  lemma {:induction false} BuiltLater(c: seq<real>, roots: seq<Root>, root: Root)
    ensures Built(TimesRoot(c, root), roots) == TimesRoot(Built(c, roots), root)
    decreases |roots|
  {
    hide TimesRoot;
    if roots != [] {
      RootsCommute(c, root, roots[0]);
      BuiltLater(TimesRoot(c, roots[0]), roots[1..], root);
    }
  }

  /** Any root of the list can be taken as the last. */
  lemma {:induction false} AnyRootLast(c: seq<real>, a: seq<Root>, root: Root, b: seq<Root>)
    ensures Built(c, a + [root] + b) == TimesRoot(Built(c, a + b), root)
    decreases |a|
  {
    hide TimesRoot;
    if a == [] {
      assert a + [root] + b == [root] + b && a + b == b && ([root] + b)[1..] == b;
      BuiltLater(c, b, root);
    } else {
      assert (a + [root] + b)[1..] == a[1..] + [root] + b && (a + b)[1..] == a[1..] + b;
      AnyRootLast(TimesRoot(c, a[0]), a[1..], root, b);
    }
  }

  /** The quotient by the factor of a root, and whether there is no remainder. */
  function Without(c: seq<real>, root: Root): seq<real>
    requires c != []
  {
    match root
    case Real(r) => DivideLinear(c, r).q
    case Pair(z) => Factor(c, z).q
  }

  predicate Exact(c: seq<real>, root: Root)
    requires c != []
  {
    match root
    case Real(r) => DivideLinear(c, r).r0 == 0.0
    case Pair(z) => Factor(c, z).r1 == 0.0 && Factor(c, z).r0 == 0.0
  }

  /** Of a polynomial built from its roots, any root divides out without remainder, and leaves the
      polynomial of the others. */
  lemma AnyRootDividesOut(c: seq<real>, a: seq<Root>, root: Root, b: seq<Root>)
    requires c != []
    ensures var p := Built(c, a + [root] + b);
            p != [] && Exact(p, root) && Without(p, root) == Built(c, a + b)
  {
    hide Built, Divide, DivideLinear, TimesLinear, TimesQuadratic, Norm;
    AnyRootLast(c, a, root, b);
    var d := Built(c, a + b);
    match root
    case Real(r) => LinearUndone(d, r);
    case Pair(z) => QuadraticUndone(d, -2.0 * z.re, Norm(z));
  }

  /** Divide all the roots of a list out, one after the other. */
  function WithoutAll(c: seq<real>, roots: seq<Root>): seq<real>
    decreases |roots|
  {
    if roots == [] || c == [] then c else WithoutAll(Without(c, roots[0]), roots[1..])
  }

  /** Dividing out all the roots leaves the constant. */
  lemma {:induction false} AllRootsDivideOut(c: seq<real>, roots: seq<Root>)
    requires c != []
    ensures WithoutAll(Built(c, roots), roots) == c
    decreases |roots|
  {
    hide Without, Exact, TimesRoot;
    if roots != [] {
      AnyRootDividesOut(c, [], roots[0], roots[1..]);
      assert [] + [roots[0]] + roots[1..] == roots && [] + roots[1..] == roots[1..];
      AllRootsDivideOut(c, roots[1..]);
    }
  }

  function FactorProduct(roots: seq<Root>, x: real): real
    decreases |roots|
  {
    if roots == [] then 1.0 else FactorValue(roots[0], x) * FactorProduct(roots[1..], x)
  }

  /** The value of a polynomial built from its roots is the product of the factors. */
  lemma {:induction false} EvalBuilt(c: seq<real>, roots: seq<Root>, x: real)
    requires c != []
    ensures Eval(Built(c, roots), x) == Eval(c, x) * FactorProduct(roots, x)
    decreases |roots|
  {
    hide Eval, TimesRoot, FactorValue;
    if roots != [] {
      EvalTimesRoot(c, roots[0], x);
      EvalBuilt(TimesRoot(c, roots[0]), roots[1..], x);
      Regroup(FactorValue(roots[0], x), Eval(c, x), FactorProduct(roots[1..], x));
    }
  }

  lemma Regroup(f: real, e: real, p: real)
    ensures f * e * p == e * (f * p)
  {
  }
}
