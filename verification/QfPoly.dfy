/** The mutable polynomial object of the filter synthesis: a coefficient buffer that may be
    longer than the polynomial, its degree and its leading coefficient. */
module QfPoly {
  import opened PolyMath
  import opened Products

  class Poly {
    var dg: nat
    var k: real
    var cf: seq<real>

    /** The buffer is zero above the degree, and k is the leading coefficient. */
    predicate Valid()
      reads this
    {
      && dg < |cf|
      && (forall i :: dg < i < |cf| ==> cf[i] == 0.0)
      && k == cf[dg]
      && (dg > 0 ==> k != 0.0)
    }

    /** The polynomial this object stands for. */
    function Coef(): (c: seq<real>)
      requires Valid()
      reads this
      ensures Canonical(c) && |c| == dg + 1
    {
      cf[..dg + 1]
    }

    /** a x^2 + b x + c */
    constructor (a: real, b: real, c: real)
      ensures Valid()
      ensures Coef() == Trim([c, b, a])
    {
      if a == 0.0 && b == 0.0 {
        dg, k, cf := 0, c, [c];
      } else if a == 0.0 {
        dg, k, cf := 1, b, [c, b];
      } else {
        dg, k, cf := 2, a, [c, b, a];
      }
      new;
      Trim3(c, b, a);
    }

    constructor FromBuffer(buf: seq<real>, deg: nat)
      requires deg < |buf| && (forall i :: deg < i < |buf| ==> buf[i] == 0.0)
      requires deg > 0 ==> buf[deg] != 0.0
      ensures Valid() && Coef() == buf[..deg + 1]
    {
      cf := buf;
      dg := deg;
      k := buf[deg];
    }

    constructor Copy(p: Poly)
      requires p.Valid()
      ensures Valid() && Coef() == p.Coef()
    {
      dg, k, cf := p.dg, p.k, p.cf;
    }

    method Assign(p: Poly)
      requires p.Valid()
      modifies this
      ensures Valid() && Coef() == old(p.Coef())
    {
      dg, k, cf := p.dg, p.k, p.cf;
    }

    /** The index of the highest non-zero entry of a buffer, or 0. */
    static method TopIndex(buf: seq<real>) returns (i: nat)
      requires |buf| > 0
      ensures i < |buf| && (i > 0 ==> buf[i] != 0.0)
      ensures forall j :: i < j < |buf| ==> buf[j] == 0.0
    {
      i := |buf| - 1;
      while i != 0 && buf[i] == 0.0
        invariant i < |buf|
        invariant forall j :: i < j < |buf| ==> buf[j] == 0.0
      {
        i := i - 1;
      }
    }

    /** Recomputes the degree after an operation that may have cancelled the top.
        A constant is left alone, k included. */
    method FindDegree()
      requires dg < |cf|
      modifies this`dg, this`k
      ensures old(dg) == 0 ==> dg == 0 && k == old(k)
      ensures old(dg) > 0 ==> Valid() && Coef() == Trim(cf)
    {
      if dg == 0 { return; }
      dg := TopIndex(cf);
      k := cf[dg];
      TrimIs(cf, dg);
    }

    method Negated() returns (r: Poly)
      requires Valid()
      ensures fresh(r) && r.Valid() && r.Coef() == Times(Coef(), -1.0)
    {
      r := new Poly.FromBuffer(Times(cf, -1.0), dg);
    }

    method Add(p: Poly)
      requires Valid() && p.Valid()
      modifies this
      ensures Valid() && Coef() == Plus(old(Coef()), old(p.Coef()))
    {
      hide At, Plus, Trim;
      ghost var c, d := Coef(), p.Coef();
      if p.k == 0.0 {
        assert d == [0.0];
        PlusZero(c);
        return;
      }
      if dg >= p.dg {
        cf := AddSlice(cf, p.cf, p.dg + 1, false);
        SliceAdds(cf, c, d);
        if dg == p.dg { FindDegree(); }
      } else {
        cf := AddSlice(p.cf, cf, dg + 1, false);
        SliceAdds(cf, d, c);
        dg := p.dg;
      }
      k := cf[dg];
      BufferIs(cf, dg, Plus(c, d));
    }

    method Subtract(p: Poly)
      requires Valid() && p.Valid()
      modifies this
      ensures Valid() && Coef() == Minus(old(Coef()), old(p.Coef()))
    {
      hide At, Minus, Trim;
      ghost var c, d := Coef(), p.Coef();
      if p.k == 0.0 {
        assert d == [0.0];
        PlusZero(c);
        return;
      }
      if dg >= p.dg {
        cf := AddSlice(cf, p.cf, p.dg + 1, true);
        SliceSubtracts(cf, c, d);
        FindDegree();
      } else {
        cf := AddSlice(Times(p.cf, -1.0), cf, dg + 1, false);
        SliceSubtractsFrom(cf, c, d);
        dg := p.dg;
      }
      k := cf[dg];
      BufferIs(cf, dg, Minus(c, d));
    }

    /** Multiplication by a constant, in place.  The source frees its buffer and goes on
        using it when m is zero, so zero is excluded. */
    method Scale(m: real)
      requires Valid() && m != 0.0
      modifies this
      ensures Valid() && Coef() == Times(old(Coef()), m)
    {
      if m == 1.0 {
        TimesOne(Coef());
        return;
      }
      ghost var was := Coef();
      cf := Times(cf, m);
      k := k * m;
      TimesPrefix(old(cf), dg + 1, m);
    }

    /** Multiplication in place.  The zero polynomial, multiplied by one that is not a constant,
        takes the degree of the other although its leading coefficient is zero; and by the zero
        constant nothing may be multiplied, for the reason given at Scale. */
    method Multiply(p: Poly)
      requires Valid() && p.Valid() && (p.dg > 0 || p.k != 0.0)
      modifies this
      ensures Valid() <==> old(k != 0.0 || p.dg == 0)
      ensures Valid() ==> Coef() == Mul(old(Coef()), old(p.Coef()))
      ensures dg == old(dg) + old(p.dg)
    {
      ghost var c, d := Coef(), p.Coef();
      if p.dg == 0 {
        MulConstant(c, p.k);
        assert d == [p.k];
        Scale(p.k);
        return;
      }
      var buf := Convolve(cf[..dg + 1], p.cf[..p.dg + 1]);
      hide Mul;
      if k != 0.0 {
        MulCanonical(c, d);
      } else {
        ZeroTimes(k, p.k);
      }
      dg, k, cf := dg + p.dg, k * p.k, buf;
      assert cf[..dg + 1] == cf;
    }

    /** The multiplication loop: a scaled and shifted copy of c for every coefficient of d. */
    static method Convolve(c: seq<real>, d: seq<real>) returns (buf: seq<real>)
      requires c != [] && d != []
      ensures buf == Mul(c, d)
    {
      hide Conv, Mul, Term, Convolved;
      buf := Zeros(|c| + |d| - 1);
      NothingConvolved(c, d, |buf|);
      for i := 0 to |d|
        invariant |buf| == |c| + |d| - 1
        invariant Convolved(buf, c, d, i)
      {
        ghost var before := buf;
        buf := AddScaled(buf, c, i, |c|, d[i]);
        ConvolvedNext(before, buf, c, d, i);
      }
      ConvolvedAll(buf, c, d);
    }

    /** buf with m times the first n entries of src added from place i on. */
    static method AddScaled(buf: seq<real>, src: seq<real>, i: nat, n: nat, m: real) returns (r: seq<real>)
      requires i + n <= |buf| && n <= |src|
      ensures |r| == |buf|
      ensures forall j :: 0 <= j < |buf| ==> r[j] == if i <= j < i + n then buf[j] + Term(src[j - i], m) else buf[j]
    {
      r := buf;
      for q := 0 to n
        invariant |r| == |buf|
        invariant forall j :: 0 <= j < |buf| ==> r[j] == if i <= j < i + q then buf[j] + Term(src[j - i], m) else buf[j]
      {
        r := r[i + q := r[i + q] + src[q] * m];
      }
    }

    /** P(-x) */
    method Mirrored() returns (r: Poly)
      requires Valid()
      ensures fresh(r) && r.Valid() && r.Coef() == Mirror(Coef())
    {
      var buf := cf;
      for j := 0 to (dg + 1) / 2
        invariant |buf| == |cf|
        invariant forall q :: 0 <= q < |cf| ==> buf[q] == if q % 2 == 1 && q < 2 * j + 1 then -cf[q] else cf[q]
      {
        buf := buf[2 * j + 1 := -buf[2 * j + 1]];
      }
      r := new Poly.FromBuffer(buf, dg);
      assert buf[..dg + 1] == Mirror(Coef());
    }

    /** P(x) P(-x).  Clearing its odd powers, which the source does to be sure, changes nothing. */
    method HalfSquare() returns (r: Poly)
      requires Valid() && k != 0.0
      ensures fresh(r) && r.Valid() && r.Coef() == Mul(Coef(), Mirror(Coef())) && EvenOnly(r.Coef())
    {
      r := new Poly.Copy(this);
      var q := r.Mirrored();
      r.Multiply(q);
      ghost var c := r.Coef();
      hide Mul, Mirror;
      ProductIsEven(Coef());
      r.KeepEven();
      assert Sieve(c, 0) == c;
    }

    /** P + c, for a constant c. */
    method AddConstant(c: real)
      requires Valid()
      modifies this
      ensures Valid() && |Coef()| == old(|Coef()|) && Coef() == old(Coef())[0 := old(Coef())[0] + c]
    {
      cf := cf[0 := cf[0] + c];
      if dg == 0 { k := cf[0]; }
    }

    /** P(Q(x)) */
    method Compose(q: Poly) returns (r: Poly)
      requires Valid() && q.Valid() && (q.dg > 0 || q.k != 0.0)
      ensures fresh(r) && r.Valid() && Composed(r.Coef(), Coef(), q.Coef())
    {
      ghost var c, d := Coef(), q.Coef();
      r := new Poly(0.0, 0.0, cf[dg]);
      Trim3(cf[dg], 0.0, 0.0);
      var top: int, coefs := dg, cf[..dg + 1];
      assert r.Coef() == [c[top]] && (top > 0 ==> r.k != 0.0) && c == coefs && |c| == top + 1;
      hide *;
      ComposedStart(c, d);
      var i := top - 1;
      while i >= 0
        invariant -1 <= i < top && fresh(r) && r.Valid() && q.Valid() && d == q.Coef()
        invariant q.dg > 0 && top > 0 ==> r.k != 0.0
        invariant Composed(r.Coef(), c[i + 1..], d)
      {
        r.ComposeStep(q, coefs[i], c, d, i);
        i := i - 1;
      }
      assert c[0..] == c;
    }

    /** One step of the composition: multiply by Q, then add the next coefficient. */
    method ComposeStep(q: Poly, e: real, ghost c: seq<real>, ghost d: seq<real>, ghost i: nat)
      requires Valid() && q.Valid() && q != this && (q.dg > 0 || q.k != 0.0) && (q.dg > 0 ==> k != 0.0)
      requires d == q.Coef() && i < |c| && c[i] == e && Composed(Coef(), c[i + 1..], d)
      modifies this
      ensures Valid() && (q.dg > 0 ==> k != 0.0) && Composed(Coef(), c[i..], d)
    {
      hide Eval, Mul, Composed;
      ghost var before := Coef();
      Multiply(q);
      ghost var middle := Coef();
      AddConstant(e);
      ComposedNext(before, middle, Coef(), c, d, i);
    }

    /** The coefficients of k times the factors of the roots; a root that is not real is followed
        by its conjugate, which is skipped. */
    method FromRoots(rt: seq<Cx>)
      requires dg == |rt| && Paired(rt) && (dg > 0 ==> k != 0.0)
      modifies this`cf
      ensures Valid() && Coef() == Built([k], RootsOf(rt))
    {
      hide Built, RootsOf, Term;
      RootsLength([k], rt);
      BuiltTop([k], RootsOf(rt));
      if dg == 1 {
        SingleRoot(k, rt);
        cf := [Term(k, -rt[0].re), k];
      } else {
        cf := BuildRoots(k, rt);
      }
      TopOfBuffer(this, Built([k], RootsOf(rt)));
    }

    static method BuildRoots(k: real, rt: seq<Cx>) returns (buf: seq<real>)
      requires Paired(rt)
      ensures buf == Built([k], RootsOf(rt))
    {
      hide *;
      buf := [k] + Zeros(|rt|);
      ghost var acc := [k];
      var i := 0;
      assert rt[0..] == rt;
      while i < |rt|
        invariant 0 <= i <= |rt| && Paired(rt[i..]) && |buf| == |rt| + 1
        invariant buf == acc + Zeros(|rt| - i) && |acc| == i + 1
        invariant Built(acc, RootsOf(rt[i..])) == Built([k], RootsOf(rt))
      {
        RootsUnfold(rt, i, acc);
        if rt[i].im == 0.0 {
          buf := Combined(buf, 0.0, 1.0, -rt[i].re);
          CombinedLinear(acc, |rt| - i, rt[i].re);
          acc := TimesRoot(acc, Real(rt[i].re));
          i := i + 1;
        } else {
          buf := Combined(buf, 1.0, -2.0 * rt[i].re, Norm(rt[i]));
          CombinedQuadratic(acc, |rt| - i, rt[i]);
          acc := TimesRoot(acc, Pair(rt[i]));
          i := i + 2;
        }
      }
      RootsEnd(rt, i, acc);
    }

    /** The value at z and that of the derivative, by one synthetic division. */
    method ValueAndSlope(z: Cx) returns (pz: Cx, ppz: Cx)
      requires Valid()
      ensures pz == EvalC(Coef(), z) && ppz == EvalC(Derivative(Coef()), z)
    {
      hide EvalC, CxMul, CxAdd, Derivative;
      ghost var c := Coef();
      pz, ppz := Cx(cf[dg], 0.0), Cx(0.0, 0.0);
      SlopeStart(c, z);
      var i := dg - 1;
      while i >= 0
        invariant -1 <= i < dg
        invariant pz == EvalC(c[i + 1..], z) && ppz == EvalC(Derivative(c[i + 1..]), z)
      {
        SlopeNext(c, i, z);
        ppz := CxAdd(CxMul(ppz, z), pz);
        pz := CxAdd(CxMul(pz, z), Cx(cf[i], 0.0));
        i := i - 1;
      }
      assert c[0..] == c;
    }

    /** The operator with a fresh result; multiplying by zero gives the zero polynomial. */
    method Scaled(m: real) returns (r: Poly)
      requires Valid()
      ensures fresh(r) && r.Valid()
      ensures r.Coef() == if m == 0.0 then [0.0] else Times(Coef(), m)
    {
      if m == 0.0 {
        r := new Poly(0.0, 0.0, 0.0);
        assert [0.0, 0.0, 0.0][..2][..1] == [0.0];
      } else if m == 1.0 {
        r := new Poly.Copy(this);
        TimesOne(Coef());
      } else if m == -1.0 {
        r := Negated();
      } else {
        r := new Poly.Copy(this);
        r.Scale(m);
      }
    }

    /** Division by x^n.  For a polynomial that x^n does not divide the source stops at an
        assertion, unless the degree is at most n. */
    method ShiftDown(n: nat) returns (r: Poly)
      requires Valid()
      requires n < dg ==> forall i :: 0 <= i < n ==> cf[i] == 0.0
      ensures fresh(r) && r.Valid()
      ensures r.Coef() == if n > |Coef()| - 1 then [0.0] else Coef()[n..]
    {
      if n == 0 {
        r := new Poly.Copy(this);
      } else if n > dg {
        r := new Poly(0.0, 0.0, 0.0);
        Trim3(0.0, 0.0, 0.0);
      } else if dg == n {
        r := new Poly(0.0, 0.0, k);
        Trim3(k, 0.0, 0.0);
        assert Coef()[n..] == [k];
      } else {
        var buf := cf[n..] + Zeros(n);
        r := new Poly.FromBuffer(buf, dg - n);
        assert buf[..dg - n + 1] == cf[..dg + 1][n..];
      }
    }

    /** Multiplication by x^n. */
    method ShiftUp(n: nat) returns (r: Poly)
      requires Valid()
      ensures fresh(r) && r.Valid() && r.Coef() == Raise(Coef(), n)
    {
      if n == 0 {
        r := new Poly.Copy(this);
        assert Zeros(0) + Coef() == Coef();
      } else if k == 0.0 {
        r := new Poly(0.0, 0.0, 0.0);
        Trim3(0.0, 0.0, 0.0);
        assert Coef() == [0.0];
      } else {
        var buf := Zeros(n) + cf[..dg + 1];
        r := new Poly.FromBuffer(buf, dg + n);
        assert buf[..dg + n + 1] == buf;
        assert Coef() != [0.0];
      }
    }

    method OddPart() returns (r: Poly)
      requires Valid()
      ensures fresh(r) && r.Valid() && r.Coef() == Odds(Coef())
    {
      if dg == 0 {
        r := new Poly(0.0, 0.0, 0.0);
        Trim3(0.0, 0.0, 0.0);
        OddsOfConstant(Coef());
      } else {
        var buf := Sieve(cf, 1);
        var d := TopIndex(buf);
        r := new Poly.FromBuffer(buf, d);
        TrimIs(buf, d);
        SameCoefficients(r.Coef(), Odds(Coef()));
      }
    }

    method EvenPart() returns (r: Poly)
      requires Valid()
      ensures fresh(r) && r.Valid() && r.Coef() == Trim(Sieve(Coef(), 0))
    {
      if dg == 0 {
        r := new Poly.Copy(this);
        assert Sieve(Coef(), 0) == Coef();
      } else {
        var buf := Sieve(cf, 0);
        var d := TopIndex(buf);
        r := new Poly.FromBuffer(buf, d);
        TrimIs(buf, d);
        SameCoefficients(r.Coef(), Trim(Sieve(Coef(), 0)));
      }
    }

    /** Keeps the odd part, in place.  A constant is not recognised: its buffer is cleared
        but k keeps the old value. */
    method KeepOdd()
      requires Valid()
      modifies this
      ensures Valid() <==> old(dg > 0 || k == 0.0)
      ensures Valid() ==> Coef() == Odds(old(Coef()))
      ensures !Valid() ==> dg == 0 && cf == old(cf)[0 := 0.0] && k == old(k)
    {
      ghost var was := Coef();
      cf := Sieve(cf, 1);
      FindDegree();
      if old(dg) > 0 {
        SameCoefficients(Coef(), Odds(was));
      } else {
        OddsOfConstant(was);
      }
    }

    method KeepEven()
      requires Valid()
      modifies this
      ensures Valid() && Coef() == Trim(Sieve(old(Coef()), 0))
    {
      if dg == 0 {
        assert Sieve(Coef(), 0) == Coef();
        return;
      }
      ghost var was := Coef();
      cf := Sieve(cf, 0);
      FindDegree();
      SameCoefficients(Coef(), Trim(Sieve(was, 0)));
    }

    /** Q with P(x) == Q(x^2), for an even P. */
    method HalfDegree() returns (r: Poly)
      requires Valid() && EvenOnly(Coef())
      ensures fresh(r) && r.Valid() && r.Coef() == Evens(Coef())
    {
      if dg == 0 {
        r := new Poly.Copy(this);
        assert Evens(Coef()) == Coef();
      } else {
        assert Coef()[dg] != 0.0;
        var buf := Evens(cf[..dg + 1]);
        r := new Poly.FromBuffer(buf, dg / 2);
        assert buf[..dg / 2 + 1] == Evens(Coef());
      }
    }

    /** Horner's rule from the top. */
    method ValueAt(a: real) returns (v: real)
      requires Valid()
      ensures v == Eval(Coef(), a)
    {
      hide Eval;
      ghost var c := Coef();
      if dg == 0 {
        EvalTop(c, a);
        return k;
      }
      if a == 0.0 {
        EvalUnfold(c, 0.0);
        return cf[0];
      }
      v := k;
      EvalTop(c, a);
      var i := dg - 1;
      while i >= 1
        invariant 0 <= i < dg
        invariant v == Eval(c[i + 1..], a)
      {
        Horner(c, i, a);
        v := v * a + cf[i];
        i := i - 1;
      }
      Horner(c, 0, a);
      assert c[0..] == c;
      v := v * a + cf[0];
    }

    /** The value of an even polynomial where x^2 == y; y may be negative. */
    method ValueAtSquare(y: real) returns (v: real)
      requires Valid() && EvenOnly(Coef())
      ensures v == EvenAt(Coef(), y)
    {
      var q := HalfDegree();
      v := q.ValueAt(y);
    }

    /** Divides by the real factor that has z as a root: x - z, or (x - z)(x - conj z).
        The remainder is dropped.  Returns false, with a warning, for a constant, and for a
        linear polynomial when z is not real; then nothing changes. */
    method DivideBy(z: Cx) returns (ok: bool)
      requires Valid()
      modifies this
      ensures Valid()
      ensures ok == old(dg > 1 || (dg == 1 && z.im == 0.0))
      ensures !ok ==> Coef() == old(Coef())
      ensures ok && z.im != 0.0 ==> Coef() == Factor(old(Coef()), z).q
      ensures ok && z.im == 0.0 ==> Coef() == DivideLinear(old(Coef()), z.re).q
    {
      hide Norm, Divide, DivideLinear;
      if dg == 0 { return false; }
      if dg == 1 && z.im != 0.0 { return false; }
      if dg == 1 {
        ghost var c := Coef();
        assert c[1..] == [k];
        dg, cf := 0, [k];
        DivideLinearNext(c, 1, z.re);
        DivideLinearLast(c, z.re);
        assert c[0..] == c && [k][1..] == [] && [k][..1] == [k];
        return true;
      }
      if z.im == 0.0 {
        DivideByLinear(z.re);
      } else {
        DivideByQuadratic(-2.0 * z.re, Norm(z));
      }
      return true;
    }

    method DivideByQuadratic(t: real, u: real)
      requires Valid() && dg >= 2
      modifies this
      ensures Valid() && Coef() == Divide(old(Coef()), t, u).q
    {
      cf := QuotientByQuadratic(cf, dg, t, u);
      dg := dg - 2;
      assert cf[..dg + 1] == cf;
    }

    /** The division loop: the old buffer is consumed from the top, and the new one filled. */
    static method QuotientByQuadratic(cf: seq<real>, dg: nat, t: real, u: real) returns (buf: seq<real>)
      requires 2 <= dg < |cf|
      ensures buf == Divide(cf[..dg + 1], t, u).q
    {
      hide Consumed;
      ghost var c := cf[..dg + 1];
      buf := Zeros(dg - 1);
      var w := cf;
      ConsumedStart(c, w, buf, t, u);
      var i := dg;
      while i >= 2
        invariant 1 <= i <= dg && |buf| == dg - 1 && |w| == |cf|
        invariant Consumed(c, w, buf, i, t, u)
      {
        ConsumedNext(c, w, buf, i, t, u);
        buf := buf[i - 2 := w[i]];
        w := w[i - 2 := MinusTimes(w[i - 2], w[i], u)][i - 1 := MinusTimes(w[i - 1], w[i], t)];
        i := i - 1;
      }
      ConsumedAll(c, w, buf, t, u);
    }

    method DivideByLinear(r: real)
      requires Valid() && dg >= 2
      modifies this
      ensures Valid() && Coef() == DivideLinear(old(Coef()), r).q
    {
      cf := QuotientByLinear(cf, dg, r);
      dg := dg - 1;
      assert cf[..dg + 1] == cf;
    }

    static method QuotientByLinear(cf: seq<real>, dg: nat, r: real) returns (buf: seq<real>)
      requires 1 <= dg < |cf|
      ensures buf == DivideLinear(cf[..dg + 1], r).q
    {
      hide DivideLinear, MinusTimes;
      ghost var c := cf[..dg + 1];
      buf := Zeros(dg);
      var w := cf;
      DivideLinearLast(c, r);
      var i := dg;
      while i >= 1
        invariant 0 <= i <= dg
        invariant |buf| == dg && |w| == |cf|
        invariant w[i] == DivideLinear(c[i..], r).r0
        invariant forall j :: 0 <= j < i ==> w[j] == c[j]
        invariant buf[i..] == DivideLinear(c[i..], r).q
      {
        DivideLinearNext(c, i, r);
        buf := buf[i - 1 := w[i]];
        assert buf[i - 1..] == [w[i]] + buf[i..];
        w := w[i - 1 := MinusTimes(w[i - 1], w[i], -r)];
        i := i - 1;
      }
      assert c[0..] == c && buf[0..] == buf;
    }

    /** Erases the top coefficient.  Like KeepOdd it forgets k on a constant. */
    method DropTop()
      requires Valid()
      modifies this
      ensures Valid() <==> old(dg > 0 || k == 0.0)
      ensures Valid() ==> Coef() == Trim(old(Coef())[..old(dg)])
    {
      ghost var was := Coef();
      cf := cf[dg := 0.0];
      FindDegree();
      if old(dg) > 0 {
        SameCoefficients(Coef(), Trim(was[..old(dg)]));
      }
    }

    /** buf with the first n entries of src added to its own, or subtracted. */
    static method AddSlice(buf: seq<real>, src: seq<real>, n: nat, minus: bool) returns (r: seq<real>)
      requires n <= |buf| && n <= |src|
      ensures |r| == |buf|
      ensures forall i :: 0 <= i < n ==> r[i] == if minus then buf[i] - src[i] else buf[i] + src[i]
      ensures forall i :: n <= i < |buf| ==> r[i] == buf[i]
    {
      r := buf;
      for j := 0 to n
        invariant |r| == |buf|
        invariant forall i :: 0 <= i < j ==> r[i] == if minus then buf[i] - src[i] else buf[i] + src[i]
        invariant forall i :: j <= i < |buf| ==> r[i] == buf[i]
      {
        r := r[j := if minus then r[j] - src[j] else r[j] + src[j]];
      }
    }
  }

  /** A root that is not real is followed by its conjugate. */
  predicate Paired(rt: seq<Cx>)
    decreases |rt|
  {
    if rt == [] then true
    else if rt[0].im == 0.0 then Paired(rt[1..])
    else |rt| >= 2 && rt[1] == Cx(rt[0].re, -rt[0].im) && Paired(rt[2..])
  }

  function RootsOf(rt: seq<Cx>): seq<Root>
    requires Paired(rt)
    decreases |rt|
  {
    if rt == [] then []
    else if rt[0].im == 0.0 then [Real(rt[0].re)] + RootsOf(rt[1..])
    else [Pair(rt[0])] + RootsOf(rt[2..])
  }

  /** The square of the distance of x from z. */
  function Distance(z: Cx, x: real): real {
    (x - z.re) * (x - z.re) + z.im * z.im
  }

  /** The product of those from all listed roots. */
  function Distances(rt: seq<Cx>, x: real): real
    decreases |rt|
  {
    if rt == [] then 1.0 else Term(Distance(rt[0], x), Distances(rt[1..], x))
  }

  function Squared(v: real): real {
    v * v
  }

  /** Whatever way the roots are grouped, the square of the value at x is that of k times the squared
      distances of x from all of them. */
  lemma BuiltFromRoots(k: real, rt: seq<Cx>, x: real)
    requires Paired(rt)
    ensures Squared(Eval(Built([k], RootsOf(rt)), x)) == Term(Squared(k), Distances(rt, x))
  {
    hide *;
    EvalBuiltOne(k, RootsOf(rt), x);
    FactorsOfRoots(rt, x);
    SquaredTerm(k, FactorProduct(RootsOf(rt), x));
  }

  lemma EvalBuiltOne(k: real, roots: seq<Root>, x: real)
    ensures Eval(Built([k], roots), x) == Term(k, FactorProduct(roots, x))
  {
    hide Eval, Built, FactorProduct;
    EvalBuilt([k], roots, x);
    EvalOne(k, x);
  }

  lemma SquaredTerm(f: real, p: real)
    ensures Squared(Term(f, p)) == Term(Squared(f), Squared(p))
  {
  }

  lemma EvalOne(k: real, x: real)
    ensures Eval([k], x) == k
  {
    EvalUnfold([k], x);
    assert Tail([k]) == [];
    EvalEmpty(x);
    assert x * 0.0 == 0.0;
  }

  lemma {:induction false} FactorsOfRoots(rt: seq<Cx>, x: real)
    requires Paired(rt)
    ensures Squared(FactorProduct(RootsOf(rt), x)) == Distances(rt, x)
    decreases |rt|
  {
    hide FactorValue, Distance;
    if rt == [] {
    } else if rt[0].im == 0.0 {
      var f, roots := Real(rt[0].re), RootsOf(rt[1..]);
      FactorsOfRoots(rt[1..], x);
      assert RootsOf(rt) == [f] + roots && RootsOf(rt)[1..] == roots;
      RealDistance(rt[0], x);
      OneFactor(f, roots, x, Distance(rt[0], x), Distances(rt[1..], x));
    } else {
      var f, roots := Pair(rt[0]), RootsOf(rt[2..]);
      FactorsOfRoots(rt[2..], x);
      assert RootsOf(rt) == [f] + roots && RootsOf(rt)[1..] == roots;
      assert rt[1..][1..] == rt[2..] && rt[1..][0] == rt[1];
      PairDistance(rt[0], rt[1], x);
      OneFactor(f, roots, x, Squared(FactorValue(f, x)), Distances(rt[2..], x));
      TermTwice(FactorValue(f, x), Distances(rt[2..], x));
    }
  }

  lemma OneFactor(f: Root, roots: seq<Root>, x: real, d: real, e: real)
    requires Squared(FactorValue(f, x)) == d && Squared(FactorProduct(roots, x)) == e
    ensures Squared(FactorProduct([f] + roots, x)) == Term(d, e)
  {
    assert ([f] + roots)[1..] == roots;
    hide FactorValue;
    var v, p := FactorValue(f, x), FactorProduct(roots, x);
    SquaredTerm(v, p);
    assert FactorProduct([f] + roots, x) == Term(v, p);
  }

  lemma TermTwice(v: real, e: real)
    ensures Term(Squared(v), e) == Term(v, Term(v, e))
  {
  }

  lemma RealDistance(z: Cx, x: real)
    requires z.im == 0.0
    ensures Distance(z, x) == Squared(FactorValue(Real(z.re), x))
  {
  }

  lemma PairDistance(z: Cx, w: Cx, x: real)
    requires w == Cx(z.re, -z.im)
    ensures Distance(z, x) == FactorValue(Pair(z), x) == Distance(w, x)
  {
  }

  /** p times the buffer two places up, q times it one place up, and r times it, added. */
  function Combined(buf: seq<real>, p: real, q: real, r: real): (d: seq<real>)
    ensures |d| == |buf|
  {
    seq(|buf|, j requires 0 <= j < |buf| => Combine(p, q, r, At(buf, j - 2), At(buf, j - 1), At(buf, j)))
  }

  lemma CombinedAt(buf: seq<real>, p: real, q: real, r: real, j: int)
    requires 0 <= j < |buf|
    ensures Combined(buf, p, q, r)[j] == Combine(p, q, r, At(buf, j - 2), At(buf, j - 1), At(buf, j))
  {
    hide Combine, At;
  }

  lemma PaddedAt(c: seq<real>, n: nat, j: int)
    ensures j < |c| + n ==> At(c + Zeros(n), j) == At(c, j)
  {
  }

  lemma {:induction false} CombinedRoot(c: seq<real>, n: nat, a: Root, m: nat)
    requires m == (if a.Real? then 1 else 2) && m <= n
    ensures Combined(c + Zeros(n), Two(a), One(a), Zero(a)) == TimesRoot(c, a) + Zeros(n - m)
  {
    var d, e := Combined(c + Zeros(n), Two(a), One(a), Zero(a)), TimesRoot(c, a) + Zeros(n - m);
    hide Combined, Combine, Two, One, Zero;
    forall j | 0 <= j < |d| ensures d[j] == e[j] {
      RootAt(c, a, j);
      PaddedAt(c, n, j);
      PaddedAt(c, n, j - 1);
      PaddedAt(c, n, j - 2);
      PaddedAt(TimesRoot(c, a), n - m, j);
      CombinedAt(c + Zeros(n), Two(a), One(a), Zero(a), j);
      hide TimesRoot;
      assert d[j] == Combine(Two(a), One(a), Zero(a), At(c, j - 2), At(c, j - 1), At(c, j));
    }
  }

  lemma CombinedLinear(c: seq<real>, n: nat, r: real)
    requires n >= 1
    ensures Combined(c + Zeros(n), 0.0, 1.0, -r) == TimesRoot(c, Real(r)) + Zeros(n - 1)
  {
    hide Combined, TimesRoot;
    CombinedRoot(c, n, Real(r), 1);
  }

  lemma CombinedQuadratic(c: seq<real>, n: nat, z: Cx)
    requires n >= 2
    ensures Combined(c + Zeros(n), 1.0, -2.0 * z.re, Norm(z)) == TimesRoot(c, Pair(z)) + Zeros(n - 2)
  {
    hide Combined, TimesRoot, Norm;
    CombinedRoot(c, n, Pair(z), 2);
  }

  lemma RootsUnfold(rt: seq<Cx>, i: nat, acc: seq<real>)
    requires i < |rt| && Paired(rt[i..])
    ensures rt[i].im == 0.0 ==> Paired(rt[i + 1..])
    ensures rt[i].im == 0.0 ==>
              Built(acc, RootsOf(rt[i..])) == Built(TimesRoot(acc, Real(rt[i].re)), RootsOf(rt[i + 1..]))
    ensures rt[i].im != 0.0 ==> i + 2 <= |rt| && Paired(rt[i + 2..])
    ensures rt[i].im != 0.0 ==> Built(acc, RootsOf(rt[i..])) == Built(TimesRoot(acc, Pair(rt[i])), RootsOf(rt[i + 2..]))
  {
    hide TimesRoot;
    assert rt[i..][1..] == rt[i + 1..];
    if rt[i].im != 0.0 {
      assert rt[i..][2..] == rt[i + 2..];
      assert ([Pair(rt[i])] + RootsOf(rt[i + 2..]))[1..] == RootsOf(rt[i + 2..]);
    } else {
      assert ([Real(rt[i].re)] + RootsOf(rt[i + 1..]))[1..] == RootsOf(rt[i + 1..]);
    }
  }

  lemma RootsEnd(rt: seq<Cx>, i: nat, acc: seq<real>)
    requires i == |rt|
    ensures Paired(rt[i..]) && Built(acc, RootsOf(rt[i..])) == acc && acc + Zeros(0) == acc
  {
    assert rt[i..] == [];
  }

  lemma {:induction false} RootsLength(c: seq<real>, rt: seq<Cx>)
    requires Paired(rt)
    ensures |Built(c, RootsOf(rt))| == |c| + |rt|
    decreases |rt|
  {
    hide TimesRoot;
    if rt != [] {
      assert rt[0..] == rt;
      RootsUnfold(rt, 0, c);
      if rt[0].im == 0.0 {
        RootsLength(TimesRoot(c, Real(rt[0].re)), rt[1..]);
      } else {
        RootsLength(TimesRoot(c, Pair(rt[0])), rt[2..]);
      }
    }
  }

  lemma TopKept(c: seq<real>, a: Root)
    requires c != []
    ensures var d := TimesRoot(c, a);
            d[|d| - 1] == c[|c| - 1]
  {
    var d := TimesRoot(c, a);
    RootAt(c, a, |d| - 1);
  }

  lemma {:induction false} BuiltTop(c: seq<real>, roots: seq<Root>)
    requires c != []
    ensures var d := Built(c, roots);
            d != [] && d[|d| - 1] == c[|c| - 1]
    decreases |roots|
  {
    hide TimesRoot;
    if roots != [] {
      TopKept(c, roots[0]);
      BuiltTop(TimesRoot(c, roots[0]), roots[1..]);
    }
  }

  lemma SingleRoot(k: real, rt: seq<Cx>)
    requires |rt| == 1 && Paired(rt)
    ensures Built([k], RootsOf(rt)) == [Term(k, -rt[0].re), k]
  {
    assert rt[0..] == rt && rt[0].im == 0.0;
    hide *;
    RootsUnfold(rt, 0, [k]);
    RootsEnd(rt, 1, TimesRoot([k], Real(rt[0].re)));
    LinearSingle(k, rt[0].re);
  }

  lemma LinearSingle(k: real, r: real)
    ensures TimesRoot([k], Real(r)) == [Term(k, -r), k]
  {
    LinearEntries([k], r);
    TermFacts(k, r);
    hide TimesLinear, Term;
    var d := TimesRoot([k], Real(r));
    assert d == [d[0]] + d[1..];
  }

  lemma TopOfBuffer(p: Poly, c: seq<real>)
    requires p.cf == c && |c| == p.dg + 1 && c[p.dg] == p.k && (p.dg > 0 ==> p.k != 0.0)
    ensures p.Valid() && p.Coef() == c
  {
    assert c[..p.dg + 1] == c;
  }

  lemma MulConstant(c: seq<real>, m: real)
    requires c != []
    ensures Mul(c, [m]) == Times(c, m)
  {
    hide Term;
    forall j | 0 <= j < |c| ensures Mul(c, [m])[j] == Times(c, m)[j] {
      ConstantAt(c, m, j);
    }
  }

  lemma ConstantAt(c: seq<real>, m: real, j: nat)
    requires j < |c|
    ensures Conv(c, [m], j) == c[j] * m
  {
    assert [m][1..] == [];
  }

  /** The buffer holds the product of c with the first i coefficients of d. */
  ghost predicate Convolved(buf: seq<real>, c: seq<real>, d: seq<real>, i: nat) {
    i <= |d| && forall j :: 0 <= j < |buf| ==> buf[j] == Conv(c, d[..i], j)
  }

  lemma ZeroTimes(a: real, b: real)
    requires a == 0.0
    ensures a * b == 0.0
  {
  }

  lemma NothingConvolved(c: seq<real>, d: seq<real>, n: nat)
    ensures Convolved(Zeros(n), c, d, 0)
  {
    assert d[..0] == [];
  }

  lemma ConvolvedNext(before: seq<real>, buf: seq<real>, c: seq<real>, d: seq<real>, i: nat)
    requires Convolved(before, c, d, i) && i < |d| && |buf| == |before|
    requires forall j :: 0 <= j < |buf| ==>
               buf[j] == if i <= j < i + |c| then before[j] + Term(c[j - i], d[i]) else before[j]
    ensures Convolved(buf, c, d, i + 1)
  {
    assert d[..i + 1] == d[..i] + [d[i]];
    assert Term(0.0, d[i]) == 0.0;
    hide Term, Conv;
    forall j | 0 <= j < |buf| ensures buf[j] == Conv(c, d[..i + 1], j) {
      ConvSnoc(c, d[..i], d[i], j);
    }
  }

  lemma ConvolvedAll(buf: seq<real>, c: seq<real>, d: seq<real>)
    requires Convolved(buf, c, d, |d|) && c != [] && d != [] && |buf| == |c| + |d| - 1
    ensures buf == Mul(c, d)
  {
    hide Conv;
    assert d[..|d|] == d;
  }

  lemma ProductIsEven(c: seq<real>)
    ensures EvenOnly(Mul(c, Mirror(c)))
  {
    hide Conv, Mirror;
    forall j | 0 <= j < |Mul(c, Mirror(c))| && j % 2 == 1 ensures Mul(c, Mirror(c))[j] == 0.0 {
      MirrorProductIsEven(c, j);
    }
  }

  /** r(x) == c(d(x)) */
  ghost predicate Composed(r: seq<real>, c: seq<real>, d: seq<real>) {
    forall x :: Eval(r, x) == Eval(c, Eval(d, x))
  }

  lemma ComposedStart(c: seq<real>, d: seq<real>)
    requires c != []
    ensures Composed([c[|c| - 1]], c[|c| - 1..], d)
  {
    forall x ensures Eval([c[|c| - 1]], x) == Eval(c[|c| - 1..], Eval(d, x)) {
      EvalTop([c[|c| - 1]], x);
      EvalTop(c, Eval(d, x));
    }
  }

  lemma ComposedNext(r: seq<real>, m: seq<real>, s: seq<real>, c: seq<real>, d: seq<real>, i: nat)
    requires i < |c| && Composed(r, c[i + 1..], d) && r != [] && d != [] && m == Mul(r, d)
    requires |s| == |m| && s == m[0 := m[0] + c[i]]
    ensures Composed(s, c[i..], d)
  {
    hide Eval, Mul;
    forall x ensures Eval(s, x) == Eval(c[i..], Eval(d, x)) {
      EvalMul(r, d, x);
      EvalUnfold(m, x);
      EvalUnfold(s, x);
      assert Tail(s) == Tail(m);
      Horner(c, i, Eval(d, x));
    }
  }

  lemma SlopeStart(c: seq<real>, z: Cx)
    requires c != []
    ensures EvalC(c[|c| - 1..], z) == Cx(c[|c| - 1], 0.0) && EvalC(Derivative(c[|c| - 1..]), z) == Cx(0.0, 0.0)
  {
    var t := c[|c| - 1..];
    assert t[1..] == [] && Derivative(t) == [];
  }

  lemma SlopeNext(c: seq<real>, i: nat, z: Cx)
    requires i < |c|
    ensures EvalC(c[i..], z) == CxAdd(CxMul(EvalC(c[i + 1..], z), z), Cx(c[i], 0.0))
    ensures EvalC(Derivative(c[i..]), z) == CxAdd(CxMul(EvalC(Derivative(c[i + 1..]), z), z), EvalC(c[i + 1..], z))
  {
    assert c[i..][1..] == c[i + 1..] && Tail(c[i..]) == c[i + 1..];
    hide EvalC, Derivative;
    EvalCUnfold(c[i..], z);
    DerivativeStep(c[i..], z);
    CxCommute(EvalC(c[i + 1..], z), z, Cx(c[i], 0.0));
    CxCommute(EvalC(Derivative(c[i + 1..]), z), z, EvalC(c[i + 1..], z));
  }

  lemma CxCommute(v: Cx, z: Cx, w: Cx)
    ensures CxMul(v, z) == CxMul(z, v) && CxAdd(CxMul(v, z), w) == CxAdd(w, CxMul(z, v))
  {
  }

  lemma DivideLast(c: seq<real>, t: real, u: real)
    requires |c| >= 2
    ensures Divide(c[|c| - 2..], t, u) == QuoRem([], c[|c| - 1], c[|c| - 2])
  {
  }

  lemma DivideNext(c: seq<real>, i: nat, t: real, u: real)
    requires 2 <= i < |c|
    ensures var e, d := Divide(c[i - 1..], t, u), Divide(c[i - 2..], t, u);
            d == QuoRem([e.r1] + e.q, MinusTimes(e.r0, e.r1, t), MinusTimes(c[i - 2], e.r1, u))
  {
    assert c[i - 2..][1..] == c[i - 1..];
  }

  /** Where the division loop stands when index i comes next: the entries below i - 1 are
      untouched, the two above hold the running remainder, buf the quotient so far. */
  ghost predicate Consumed(c: seq<real>, w: seq<real>, buf: seq<real>, i: nat, t: real, u: real) {
    && 1 <= i < |c| <= |w| && |buf| == |c| - 2
    && w[i] == Divide(c[i - 1..], t, u).r1
    && w[i - 1] == Divide(c[i - 1..], t, u).r0
    && (forall j :: 0 <= j < i - 1 ==> w[j] == c[j])
    && buf[i - 1..] == Divide(c[i - 1..], t, u).q
  }

  lemma ConsumedStart(c: seq<real>, w: seq<real>, buf: seq<real>, t: real, u: real)
    requires 2 <= |c| <= |w| && c == w[..|c|] && |buf| == |c| - 2
    ensures Consumed(c, w, buf, |c| - 1, t, u)
  {
    DivideLast(c, t, u);
  }

  lemma ConsumedNext(c: seq<real>, w: seq<real>, buf: seq<real>, i: nat, t: real, u: real)
    requires i >= 2 && Consumed(c, w, buf, i, t, u)
    ensures Consumed(c, w[i - 2 := MinusTimes(w[i - 2], w[i], u)][i - 1 := MinusTimes(w[i - 1], w[i], t)],
                     buf[i - 2 := w[i]], i - 1, t, u)
  {
    hide Divide, MinusTimes;
    DivideNext(c, i, t, u);
    assert buf[i - 2 := w[i]][i - 2..] == [w[i]] + buf[i - 1..];
  }

  lemma ConsumedAll(c: seq<real>, w: seq<real>, buf: seq<real>, t: real, u: real)
    requires Consumed(c, w, buf, 1, t, u)
    ensures buf == Divide(c, t, u).q
  {
    assert c[0..] == c && buf[0..] == buf;
  }

  lemma DivideLinearLast(c: seq<real>, r: real)
    requires |c| >= 1
    ensures DivideLinear(c[|c| - 1..], r) == QuoRem1([], c[|c| - 1])
  {
  }

  lemma DivideLinearNext(c: seq<real>, i: nat, r: real)
    requires 1 <= i < |c|
    ensures var e, d := DivideLinear(c[i..], r), DivideLinear(c[i - 1..], r);
            d == QuoRem1([e.r0] + e.q, MinusTimes(c[i - 1], e.r0, -r))
  {
    assert c[i - 1..][1..] == c[i..];
  }

  /** The buffer with every entry of the other parity cleared. */
  function Sieve(c: seq<real>, parity: nat): (r: seq<real>)
    ensures |r| == |c|
    ensures forall i :: 0 <= i < |c| ==> r[i] == if i % 2 == parity then c[i] else 0.0
  {
    seq(|c|, i requires 0 <= i < |c| => if i % 2 == parity then c[i] else 0.0)
  }

  function Odds(c: seq<real>): seq<real> {
    Trim(Sieve(c, 1))
  }

  lemma OddsOfConstant(c: seq<real>)
    requires |c| == 1
    ensures Odds(c) == [0.0]
  {
    assert Sieve(c, 1) == [0.0];
  }

  lemma TimesOne(c: seq<real>)
    ensures Times(c, 1.0) == c
  {
  }

  lemma TimesPrefix(c: seq<real>, n: nat, m: real)
    requires n <= |c|
    ensures Times(c, m)[..n] == Times(c[..n], m)
  {
    forall i | 0 <= i < n ensures Times(c, m)[..n][i] == Times(c[..n], m)[i] {
    }
  }

  lemma Trim3(c: real, b: real, a: real)
    ensures Trim([c, b, a]) ==
            if a != 0.0 then [c, b, a] else if b != 0.0 then [c, b] else [c]
  {
    assert [c, b, a][..2] == [c, b];
    assert [c, b][..1] == [c];
  }

  lemma {:induction false} TrimIs(c: seq<real>, d: nat)
    requires d < |c| && (d > 0 ==> c[d] != 0.0)
    requires forall i :: d < i < |c| ==> c[i] == 0.0
    ensures Trim(c) == c[..d + 1]
    decreases |c|
  {
    if d == |c| - 1 {
      assert c[..d + 1] == c;
    } else {
      TrimIs(c[..|c| - 1], d);
      assert c[..|c| - 1][..d + 1] == c[..d + 1];
    }
  }

  lemma BufferIs(buf: seq<real>, d: nat, want: seq<real>)
    requires d < |buf| && (d > 0 ==> buf[d] != 0.0) && forall i :: d < i < |buf| ==> buf[i] == 0.0
    requires Canonical(want)
    requires forall i: int :: At(buf, i) == At(want, i)
    ensures buf[..d + 1] == want
  {
    forall i: int ensures At(buf[..d + 1], i) == At(want, i) {
      assert At(buf, i) == At(want, i);
    }
    CanonicalUnique(buf[..d + 1], want);
  }

  lemma EvalTop(c: seq<real>, a: real)
    requires c != []
    ensures Eval(c[|c| - 1..], a) == c[|c| - 1]
    ensures |c| == 1 ==> Eval(c, a) == c[0]
  {
    EvalUnfold(c[|c| - 1..], a);
    assert |c| == 1 ==> c[0..] == c;
  }

  lemma Horner(c: seq<real>, i: nat, a: real)
    requires i < |c|
    ensures Eval(c[i..], a) == Eval(c[i + 1..], a) * a + c[i]
  {
    assert c[i..][1..] == c[i + 1..];
  }

  lemma PlusZero(c: seq<real>)
    requires Canonical(c)
    ensures Plus(c, [0.0]) == c && Minus(c, [0.0]) == c
  {
    CanonicalUnique(Plus(c, [0.0]), c);
    CanonicalUnique(Minus(c, [0.0]), c);
  }

  /** A buffer that holds c with d added to its first entries, and zeros above. */
  lemma SliceAdds(buf: seq<real>, c: seq<real>, d: seq<real>)
    requires |d| <= |c| <= |buf|
    requires forall i :: 0 <= i < |c| ==> buf[i] == if i < |d| then c[i] + d[i] else c[i]
    requires forall i :: |c| <= i < |buf| ==> buf[i] == 0.0
    ensures forall i: int :: At(buf, i) == At(Plus(c, d), i) == At(Plus(d, c), i)
  {
  }

  lemma SliceSubtracts(buf: seq<real>, c: seq<real>, d: seq<real>)
    requires |d| <= |c| <= |buf|
    requires forall i :: 0 <= i < |c| ==> buf[i] == if i < |d| then c[i] - d[i] else c[i]
    requires forall i :: |c| <= i < |buf| ==> buf[i] == 0.0
    ensures forall i: int :: At(buf, i) == At(Minus(c, d), i)
  {
  }

  lemma SliceSubtractsFrom(buf: seq<real>, c: seq<real>, d: seq<real>)
    requires |c| <= |d| <= |buf|
    requires forall i :: 0 <= i < |d| ==> buf[i] == if i < |c| then c[i] - d[i] else -d[i]
    requires forall i :: |d| <= i < |buf| ==> buf[i] == 0.0
    ensures forall i: int :: At(buf, i) == At(Minus(c, d), i)
  {
  }

  lemma SameCoefficients(c: seq<real>, d: seq<real>)
    requires Canonical(c) && Canonical(d)
    requires forall i: int :: At(c, i) == At(d, i)
    ensures c == d
  {
    CanonicalUnique(c, d);
  }
}
