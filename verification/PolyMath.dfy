/** Polynomials as coefficient sequences, lowest power first, and what they mean:
    their value at a real and at a complex argument.  Everything the mutable
    polynomial objects do is specified with the functions of this module. */
module PolyMath {

  datatype Cx = Cx(re: real, im: real)

  function CxAdd(v: Cx, w: Cx): Cx {
    Cx(v.re + w.re, v.im + w.im)
  }

  function CxMul(v: Cx, w: Cx): Cx {
    Cx(v.re * w.re - v.im * w.im, v.re * w.im + v.im * w.re)
  }

  function CxScale(m: real, w: Cx): Cx {
    Cx(m * w.re, m * w.im)
  }

  lemma CxDistribute(z: Cx, v: Cx, w: Cx)
    ensures CxMul(z, CxAdd(v, w)) == CxAdd(CxMul(z, v), CxMul(z, w))
  {
  }

  lemma CxScaleMul(m: real, z: Cx, w: Cx)
    ensures CxMul(z, CxScale(m, w)) == CxScale(m, CxMul(z, w))
  {
  }

  lemma CxScaleAdd(m: real, v: Cx, w: Cx)
    ensures CxScale(m, CxAdd(v, w)) == CxAdd(CxScale(m, v), CxScale(m, w))
  {
  }

  /** The coefficient of x^i; powers beyond the sequence have coefficient zero. */
  function At(c: seq<real>, i: int): real {
    if 0 <= i < |c| then c[i] else 0.0
  }

  function Tail(c: seq<real>): seq<real> {
    if c == [] then [] else c[1..]
  }

  ghost function Eval(c: seq<real>, x: real): real
    decreases |c|
  {
    if c == [] then 0.0 else c[0] + x * Eval(c[1..], x)
  }

  ghost function EvalC(c: seq<real>, z: Cx): Cx
    decreases |c|
  {
    if c == [] then Cx(0.0, 0.0)
    else
      CxAdd(Cx(c[0], 0.0), CxMul(z, EvalC(c[1..], z)))
  }

  /** At least one coefficient, and the top one is not zero unless the polynomial is a constant. */
  predicate Canonical(c: seq<real>) {
    |c| > 0 && (|c| > 1 ==> c[|c| - 1] != 0.0)
  }

  predicate EvenOnly(c: seq<real>) {
    forall i :: 0 <= i < |c| && i % 2 == 1 ==> c[i] == 0.0
  }

  predicate OddOnly(c: seq<real>) {
    forall i :: 0 <= i < |c| && i % 2 == 0 ==> c[i] == 0.0
  }

  // ----- operations -----

  /** Drops zero coefficients from the top, keeping at least one coefficient. */
  function Trim(c: seq<real>): (r: seq<real>)
    ensures Canonical(r)
    ensures |r| <= if |c| == 0 then 1 else |c|
    ensures forall i: int :: At(r, i) == At(c, i)
    ensures Canonical(c) ==> r == c
    decreases |c|
  {
    if c == [] then [0.0]
    else if |c| == 1 || c[|c| - 1] != 0.0 then c
    else Trim(c[..|c| - 1])
  }

  function Max(a: nat, b: nat): nat {
    if a < b then b else a
  }

  function Plus(c: seq<real>, d: seq<real>): (r: seq<real>)
    ensures Canonical(r) && |r| <= Max(Max(|c|, |d|), 1)
    ensures forall i: int :: At(r, i) == At(c, i) + At(d, i)
  {
    Trim(seq(Max(|c|, |d|), i => At(c, i) + At(d, i)))
  }

  function Minus(c: seq<real>, d: seq<real>): (r: seq<real>)
    ensures Canonical(r) && |r| <= Max(Max(|c|, |d|), 1)
    ensures forall i: int :: At(r, i) == At(c, i) - At(d, i)
  {
    Trim(seq(Max(|c|, |d|), i => At(c, i) - At(d, i)))
  }

  function Times(c: seq<real>, m: real): (r: seq<real>)
    ensures |r| == |c|
    ensures forall i :: 0 <= i < |c| ==> r[i] == c[i] * m
    ensures m != 0.0 && Canonical(c) ==> Canonical(r)
  {
    seq(|c|, i requires 0 <= i < |c| => c[i] * m)
  }

  function Zeros(n: nat): (r: seq<real>)
    ensures |r| == n && forall i :: 0 <= i < n ==> r[i] == 0.0
  {
    seq(n, _ => 0.0)
  }

  /** Multiplication by x^n; the zero polynomial stays as it is. */
  function Raise(c: seq<real>, n: nat): (r: seq<real>)
    ensures forall i: int :: At(r, i) == At(c, i - n)
    ensures Canonical(c) ==> Canonical(r)
    ensures |r| == |c| || |r| == |c| + n
  {
    if c == [0.0] then c else Zeros(n) + c
  }

  /** The coefficients of the even powers: Evens(c)(x^2) is the even part of c(x). */
  function Evens(c: seq<real>): (r: seq<real>)
    ensures |r| == (|c| + 1) / 2
  {
    seq((|c| + 1) / 2, i requires 0 <= i < (|c| + 1) / 2 => c[2 * i])
  }

  // ----- evaluation is linear, and blind to trailing zeros -----

  lemma EvalUnfold(c: seq<real>, x: real)
    ensures Eval(c, x) == At(c, 0) + x * Eval(Tail(c), x)
  {
  }

  lemma EvalCUnfold(c: seq<real>, z: Cx)
    ensures EvalC(c, z) == CxAdd(Cx(At(c, 0), 0.0), CxMul(z, EvalC(Tail(c), z)))
  {
  }

  lemma {:induction false} EvalExt(c: seq<real>, d: seq<real>, x: real)
    requires forall i: int :: At(c, i) == At(d, i)
    ensures Eval(c, x) == Eval(d, x)
    decreases |c| + |d|
  {
    if |c| + |d| > 0 {
      forall i: int ensures At(Tail(c), i) == At(Tail(d), i) {
        assert At(c, i + 1) == At(d, i + 1);
      }
      EvalExt(Tail(c), Tail(d), x);
      EvalUnfold(c, x);
      EvalUnfold(d, x);
    }
  }

  lemma {:induction false} EvalPlus(r: seq<real>, c: seq<real>, d: seq<real>, x: real)
    requires forall i: int :: At(r, i) == At(c, i) + At(d, i)
    ensures Eval(r, x) == Eval(c, x) + Eval(d, x)
    decreases |r| + |c| + |d|
  {
    hide Eval;
    if |r| + |c| + |d| > 0 {
      forall i: int ensures At(Tail(r), i) == At(Tail(c), i) + At(Tail(d), i) {
        if i >= 0 { assert At(r, i + 1) == At(c, i + 1) + At(d, i + 1); }
      }
      EvalPlus(Tail(r), Tail(c), Tail(d), x);
      assert At(r, 0) == At(c, 0) + At(d, 0);
      EvalPlusStep(r, c, d, x);
    } else {
      EvalEmpty(x);
      assert r == c == d == [];
    }
  }

  lemma EvalEmpty(x: real)
    ensures Eval([], x) == 0.0
  {
  }

  function HornerStep(a: real, x: real, e: real): real {
    a + x * e
  }

  lemma EvalIsHorner(c: seq<real>, x: real)
    ensures Eval(c, x) == HornerStep(At(c, 0), x, Eval(Tail(c), x))
  {
    hide Eval;
    EvalUnfold(c, x);
  }

  lemma HornerSum(a: real, b: real, c: real, g: real, e: real, f: real, x: real)
    requires a == b + c && g == e + f
    ensures HornerStep(a, x, g) == HornerStep(b, x, e) + HornerStep(c, x, f)
  {
  }

  lemma EvalPlusStep(r: seq<real>, c: seq<real>, d: seq<real>, x: real)
    requires At(r, 0) == At(c, 0) + At(d, 0)
    requires Eval(Tail(r), x) == Eval(Tail(c), x) + Eval(Tail(d), x)
    ensures Eval(r, x) == Eval(c, x) + Eval(d, x)
  {
    hide *;
    EvalIsHorner(r, x);
    EvalIsHorner(c, x);
    EvalIsHorner(d, x);
    HornerSum(At(r, 0), At(c, 0), At(d, 0), Eval(Tail(r), x), Eval(Tail(c), x), Eval(Tail(d), x), x);
  }

  lemma {:induction false} EvalCPlus(r: seq<real>, c: seq<real>, d: seq<real>, z: Cx)
    requires forall i: int :: At(r, i) == At(c, i) + At(d, i)
    ensures EvalC(r, z) == CxAdd(EvalC(c, z), EvalC(d, z))
    decreases |r| + |c| + |d|
  {
    hide CxMul, CxAdd, EvalC;
    if |r| + |c| + |d| > 0 {
      forall i: int ensures At(Tail(r), i) == At(Tail(c), i) + At(Tail(d), i) {
        if i >= 0 { assert At(r, i + 1) == At(c, i + 1) + At(d, i + 1); }
      }
      EvalCPlus(Tail(r), Tail(c), Tail(d), z);
      assert At(r, 0) == At(c, 0) + At(d, 0);
      EvalCPlusStep(r, c, d, z);
    } else {
      EvalCEmpty(z);
      assert r == c == d == [];
    }
  }

  lemma EvalCEmpty(z: Cx)
    ensures CxAdd(EvalC([], z), EvalC([], z)) == EvalC([], z)
  {
  }

  lemma EvalCPlusStep(r: seq<real>, c: seq<real>, d: seq<real>, z: Cx)
    requires At(r, 0) == At(c, 0) + At(d, 0)
    requires EvalC(Tail(r), z) == CxAdd(EvalC(Tail(c), z), EvalC(Tail(d), z))
    ensures EvalC(r, z) == CxAdd(EvalC(c, z), EvalC(d, z))
  {
    hide CxMul, EvalC;
    EvalCUnfold(r, z);
    EvalCUnfold(c, z);
    EvalCUnfold(d, z);
    CxDistribute(z, EvalC(Tail(c), z), EvalC(Tail(d), z));
  }

  lemma TimesEntry(c: seq<real>, m: real, i: int, v: real)
    requires 0 <= i < |c| && v == c[i] * m
    ensures Times(c, m)[i] == v
  {
  }

  lemma TimesTailAt(c: seq<real>, m: real, i: int)
    requires 0 <= i < |c| - 1
    ensures Times(c, m)[i + 1] == Times(c[1..], m)[i]
  {
    var a, d := c[i + 1], c[1..];
    assert d[i] == a;
    TimesEntry(c, m, i + 1, a * m);
    TimesEntry(d, m, i, a * m);
  }

  lemma TimesTail(c: seq<real>, m: real)
    ensures Tail(Times(c, m)) == Times(Tail(c), m)
  {
    if c != [] {
      var a, b := Times(c, m)[1..], Times(c[1..], m);
      assert |a| == |b|;
      forall i | 0 <= i < |a| ensures a[i] == b[i] {
        TimesTailAt(c, m, i);
        assert a[i] == Times(c, m)[i + 1];
      }
      assert a == b;
    }
  }

  lemma {:induction false} EvalTimes(c: seq<real>, m: real, x: real)
    ensures Eval(Times(c, m), x) == m * Eval(c, x)
    decreases |c|
  {
    hide Eval, Times;
    if c != [] {
      EvalTimes(Tail(c), m, x);
      EvalTimesStep(c, m, x);
    } else {
      EvalEmpty(x);
      assert Times(c, m) == [];
    }
  }

  lemma EvalTimesStep(c: seq<real>, m: real, x: real)
    requires c != [] && Eval(Times(Tail(c), m), x) == m * Eval(Tail(c), x)
    ensures Eval(Times(c, m), x) == m * Eval(c, x)
  {
    hide Eval, Times;
    TimesTail(c, m);
    EvalUnfold(Times(c, m), x);
    EvalUnfold(c, x);
    var e := Eval(Tail(c), x);
    assert x * (m * e) == m * (x * e);
    assert m * (c[0] + x * e) == m * c[0] + m * (x * e);
  }

  lemma {:induction false} EvalCTimes(c: seq<real>, m: real, z: Cx)
    ensures EvalC(Times(c, m), z) == CxScale(m, EvalC(c, z))
    decreases |c|
  {
    hide EvalC, Times, CxScale;
    if c != [] {
      EvalCTimes(Tail(c), m, z);
      EvalCTimesStep(c, m, z);
    } else {
      EvalCTimesEmpty(m, z);
      assert Times(c, m) == [];
    }
  }

  lemma EvalCTimesEmpty(m: real, z: Cx)
    ensures EvalC([], z) == CxScale(m, EvalC([], z))
  {
  }

  lemma EvalCTimesStep(c: seq<real>, m: real, z: Cx)
    requires c != [] && EvalC(Times(Tail(c), m), z) == CxScale(m, EvalC(Tail(c), z))
    ensures EvalC(Times(c, m), z) == CxScale(m, EvalC(c, z))
  {
    hide EvalC, Times, CxMul;
    TimesTail(c, m);
    EvalCUnfold(Times(c, m), z);
    EvalCUnfold(c, z);
    var e := EvalC(Tail(c), z);
    CxScaleMul(m, z, e);
    CxScaleAdd(m, Cx(c[0], 0.0), CxMul(z, e));
  }

  lemma EvalMinus(c: seq<real>, d: seq<real>, x: real)
    ensures Eval(Minus(c, d), x) == Eval(c, x) - Eval(d, x)
  {
    EvalPlus(c, Minus(c, d), d, x);
  }

  lemma EvalCMinus(c: seq<real>, d: seq<real>, z: Cx)
    ensures CxAdd(EvalC(Minus(c, d), z), EvalC(d, z)) == EvalC(c, z)
  {
    EvalCPlus(c, Minus(c, d), d, z);
  }

  lemma EvalRaise(c: seq<real>, x: real)
    ensures Eval(Raise(c, 1), x) == x * Eval(c, x)
  {
    if c == [0.0] {
      assert Eval(c, x) == 0.0;
    } else {
      assert Tail(Raise(c, 1)) == c;
      EvalUnfold(Raise(c, 1), x);
    }
  }

  lemma EvalCRaise(c: seq<real>, z: Cx)
    ensures EvalC(Raise(c, 1), z) == CxMul(z, EvalC(c, z))
  {
    if c == [0.0] {
      assert EvalC(c, z) == Cx(0.0, 0.0);
    } else {
      assert Tail(Raise(c, 1)) == c;
      EvalCUnfold(Raise(c, 1), z);
    }
  }

  /** A canonical sequence is determined by its coefficients. */
  lemma CanonicalUnique(c: seq<real>, d: seq<real>)
    requires Canonical(c) && Canonical(d)
    requires forall i: int :: At(c, i) == At(d, i)
    ensures c == d
  {
    assert At(c, |c| - 1) == At(d, |c| - 1);
    assert At(c, |d| - 1) == At(d, |d| - 1);
    assert |c| == |d|;
    forall i | 0 <= i < |c| ensures c[i] == d[i] {
      assert At(c, i) == At(d, i);
    }
  }

  // ----- even and odd parts at s = jp, that is at s^2 = -p^2 -----

  /** What evalX2 computes. */
  ghost function EvenAt(c: seq<real>, y: real): real {
    Eval(Evens(c), y)
  }

  lemma EvensUnfold(c: seq<real>, y: real)
    ensures EvenAt(c, y) == At(c, 0) + y * EvenAt(Tail(Tail(c)), y)
  {
    if c != [] {
      assert Tail(Evens(c)) == Evens(Tail(Tail(c)));
    }
    EvalUnfold(Evens(c), y);
  }

  lemma {:induction false} AtImaginary(c: seq<real>, p: real)
    ensures EvalC(c, Cx(0.0, p)) == Cx(EvenAt(c, -p * p), p * EvenAt(Tail(c), -p * p))
    decreases |c|
  {
    hide EvalC, EvenAt;
    if c != [] {
      AtImaginary(Tail(c), p);
      AtImaginaryStep(c, p);
    } else {
      AtImaginaryEmpty(p);
    }
  }

  lemma AtImaginaryEmpty(p: real)
    ensures EvalC([], Cx(0.0, p)) == Cx(EvenAt([], -p * p), p * EvenAt(Tail([]), -p * p))
  {
    assert Evens([]) == [];
  }

  lemma AtImaginaryStep(c: seq<real>, p: real)
    requires c != []
    requires EvalC(Tail(c), Cx(0.0, p)) == Cx(EvenAt(Tail(c), -p * p), p * EvenAt(Tail(Tail(c)), -p * p))
    ensures EvalC(c, Cx(0.0, p)) == Cx(EvenAt(c, -p * p), p * EvenAt(Tail(c), -p * p))
  {
    hide EvalC, EvenAt;
    EvalCUnfold(c, Cx(0.0, p));
    EvensUnfold(c, -p * p);
    var e := EvenAt(Tail(Tail(c)), -p * p);
    assert p * (p * e) == -((-p * p) * e);
  }

  /** The same at a real x: the even and the odd part by their polynomials in x^2. */
  lemma {:induction false} RealParts(c: seq<real>, x: real)
    ensures Eval(c, x) == EvenAt(c, x * x) + x * EvenAt(Tail(c), x * x)
    decreases |c|
  {
    EvensUnfold(c, x * x);
    EvalUnfold(c, x);
    hide EvenAt, Eval;
    if c != [] {
      RealParts(Tail(c), x);
      var e := EvenAt(Tail(Tail(c)), x * x);
      assert x * (x * e) == x * x * e;
    } else {
      NothingAt(c, x);
    }
  }

  lemma NothingAt(c: seq<real>, x: real)
    requires c == []
    ensures Eval(c, x) == 0.0 && EvenAt(c, x * x) == 0.0 && EvenAt(Tail(c), x * x) == 0.0
  {
    assert Tail(c) == [] && Evens([]) == [];
  }

  /** An even polynomial is that of its even coefficients, in x^2. */
  lemma EvensMean(c: seq<real>, x: real)
    requires EvenOnly(c)
    ensures Eval(c, x) == Eval(Evens(c), x * x)
  {
    RealParts(c, x);
    ParityAt(c, x * x);
  }

  lemma {:induction false} EvenAtZero(c: seq<real>, y: real)
    requires OddOnly(c)
    ensures EvenAt(c, y) == 0.0
    decreases |c|
  {
    EvensUnfold(c, y);
    if |c| > 2 {
      EvenAtZero(c[2..], y);
      assert Tail(Tail(c)) == c[2..];
    } else {
      assert Tail(Tail(c)) == [];
    }
  }

  lemma ParityAt(c: seq<real>, y: real)
    ensures OddOnly(c) ==> EvenAt(c, y) == 0.0
    ensures EvenOnly(c) ==> EvenAt(Tail(c), y) == 0.0
  {
    if OddOnly(c) { EvenAtZero(c, y); }
    if EvenOnly(c) { EvenAtZero(Tail(c), y); }
  }

  // ----- division by x^2 + t x + u -----

  function MinusTimes(a: real, b: real, m: real): real {
    a - b * m
  }

  /** c == (x^2 + t x + u) q + r1 x + r0, built from the top coefficients down. */
  datatype QuoRem = QuoRem(q: seq<real>, r1: real, r0: real)

  function Divide(c: seq<real>, t: real, u: real): (d: QuoRem)
    ensures |c| >= 2 ==> |d.q| == |c| - 2
    ensures |c| < 2 ==> d.q == []
    ensures |c| > 2 ==> d.q[|c| - 3] == c[|c| - 1]
    decreases |c|
  {
    if |c| <= 2 then QuoRem([], At(c, 1), At(c, 0))
    else
      var d := Divide(c[1..], t, u);
      QuoRem([d.r1] + d.q, MinusTimes(d.r0, d.r1, t), MinusTimes(c[0], d.r1, u))
  }

  /** What a quotient and a remainder amount to. */
  ghost function Recompose(d: QuoRem, t: real, u: real, x: real): real {
    (x * x + t * x + u) * Eval(d.q, x) + d.r1 * x + d.r0
  }

  lemma {:induction false} DivideEval(c: seq<real>, t: real, u: real, x: real)
    ensures Eval(c, x) == Recompose(Divide(c, t, u), t, u, x)
    decreases |c|
  {
    hide Eval, Recompose, Divide;
    if |c| <= 2 {
      DivideEvalShort(c, t, u, x);
    } else {
      DivideEval(c[1..], t, u, x);
      DivideEvalStep(c, t, u, x);
    }
  }

  lemma DivideEvalShort(c: seq<real>, t: real, u: real, x: real)
    requires |c| <= 2
    ensures Eval(c, x) == Recompose(Divide(c, t, u), t, u, x)
  {
    EvalUnfold(c, x);
    EvalUnfold(Tail(c), x);
    assert Tail(Tail(c)) == [];
    assert Divide(c, t, u) == QuoRem([], At(c, 1), At(c, 0));
  }

  lemma DivideEvalStep(c: seq<real>, t: real, u: real, x: real)
    requires |c| > 2
    requires Eval(c[1..], x) == Recompose(Divide(c[1..], t, u), t, u, x)
    ensures Eval(c, x) == Recompose(Divide(c, t, u), t, u, x)
  {
    hide Recompose, MinusTimes;
    var d, e := Divide(c, t, u), Divide(c[1..], t, u);
    assert d.q[1..] == e.q;
    DivideStep(x, t, u, e, c[0], d);
  }

  lemma DivideStep(x: real, t: real, u: real, e: QuoRem, c: real, d: QuoRem)
    requires d.r1 == MinusTimes(e.r0, e.r1, t)
    requires d.r0 == MinusTimes(c, e.r1, u)
    requires Eval(d.q, x) == e.r1 + x * Eval(e.q, x)
    ensures c + x * Recompose(e, t, u, x) == Recompose(d, t, u, x)
  {
    hide Eval;
    var q := Eval(e.q, x);
    var s := x * x + t * x + u;
    assert x * (s * q + e.r1 * x + e.r0) == s * (x * q) + x * (e.r1 * x) + x * e.r0;
    assert s * (e.r1 + x * q) == s * e.r1 + s * (x * q);
    assert s * e.r1 == x * x * e.r1 + t * x * e.r1 + u * e.r1;
  }

  /** The value at z is the value of the remainder: the division is exact when z is a root. */
  lemma {:induction false} DivideAtRoot(c: seq<real>, z: Cx)
    ensures EvalC(c, z) == RemainderAt(Factor(c, z), z)
    decreases |c|
  {
    hide EvalC, RemainderAt, Factor;
    if |c| <= 2 {
      DivideAtRootShort(c, z);
    } else {
      DivideAtRoot(c[1..], z);
      DivideAtRootStep(c, z);
    }
  }

  /** The square of the modulus. */
  function Norm(z: Cx): real {
    z.re * z.re + z.im * z.im
  }

  /** Division by the real polynomial with roots z and its conjugate. */
  function Factor(c: seq<real>, z: Cx): QuoRem {
    Divide(c, -2.0 * z.re, Norm(z))
  }

  function RemainderAt(d: QuoRem, z: Cx): Cx {
    Cx(d.r1 * z.re + d.r0, d.r1 * z.im)
  }

  lemma DivideAtRootShort(c: seq<real>, z: Cx)
    requires |c| <= 2
    ensures EvalC(c, z) == RemainderAt(Factor(c, z), z)
  {
    EvalCUnfold(c, z);
    EvalCUnfold(Tail(c), z);
    assert Tail(Tail(c)) == [];
  }

  lemma DivideAtRootStep(c: seq<real>, z: Cx)
    requires |c| > 2
    requires EvalC(c[1..], z) == RemainderAt(Factor(c[1..], z), z)
    ensures EvalC(c, z) == RemainderAt(Factor(c, z), z)
  {
    hide CxAdd, CxMul, RemainderAt, MinusTimes, Norm;
    RootStep(z, c[0], Factor(c[1..], z), Factor(c, z));
  }

  lemma RootStep(z: Cx, c: real, e: QuoRem, d: QuoRem)
    requires d.r1 == MinusTimes(e.r0, e.r1, -2.0 * z.re)
    requires d.r0 == MinusTimes(c, e.r1, Norm(z))
    ensures CxAdd(Cx(c, 0.0), CxMul(z, RemainderAt(e, z))) == RemainderAt(d, z)
  {
    var a, b, r1, r0 := z.re, z.im, e.r1, e.r0;
    assert a * (r1 * a + r0) == r1 * (a * a) + a * r0;
    assert b * (r1 * b) == r1 * (b * b);
    assert a * (r1 * b) == r1 * (a * b) == b * (r1 * a);
    assert r1 * (-2.0 * a) * b == -2.0 * (r1 * (a * b));
    assert r1 * (-2.0 * a) * a == -2.0 * (r1 * (a * a));
  }

  // ----- division by x - r -----

  datatype QuoRem1 = QuoRem1(q: seq<real>, r0: real)

  function DivideLinear(c: seq<real>, r: real): (d: QuoRem1)
    requires |c| > 0
    ensures |d.q| == |c| - 1
    ensures |c| > 1 ==> d.q[|c| - 2] == c[|c| - 1]
    decreases |c|
  {
    if |c| == 1 then QuoRem1([], c[0])
    else
      var d := DivideLinear(c[1..], r);
      QuoRem1([d.r0] + d.q, MinusTimes(c[0], d.r0, -r))
  }
}
