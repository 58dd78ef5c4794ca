/** From the characteristic polynomials E and F of a lossless two-port to its susceptance BN/BD. */
module Susceptances {
  import opened RealMath
  import opened PolyMath
  import opened Products
  import opened QfPoly
  import opened Extraction
  import opened Filter

  function Evn(c: seq<real>): seq<real> {
    Trim(Sieve(c, 0))
  }

  function OddForm(e: seq<real>, f: seq<real>): Susceptance {
    Susceptance(Plus(Odds(e), Odds(f)), Minus(Evn(e), Evn(f)))
  }

  function EvenForm(e: seq<real>, f: seq<real>): Susceptance {
    Susceptance(Plus(Evn(e), Evn(f)), Minus(Odds(e), Odds(f)))
  }

  /** The odd numerator is preferred; when its degree falls short of E's, the even one is taken. */
  function FromEF(e: seq<real>, f: seq<real>): Susceptance {
    var n := Plus(Odds(e), Odds(f));
    if |n| == |e| then OddForm(e, f) else EvenForm(e, f)
  }

  /** What BN and BD are, without saying how they are made: one of them is odd and one even, the odd
      one being BN if its degree reaches that of E, and at every x they add up to E(x) - F(-x) in the
      first case and to E(x) + F(-x) in the second. */
  ghost predicate Joins(b: Susceptance, e: seq<real>, f: seq<real>) {
    var first := |Plus(Odds(e), Odds(f))| == |e|;
    && Canonical(b.bn) && Canonical(b.bd) && Parity(b.bn, first) && Parity(b.bd, !first)
    && forall x: real :: Eval(b.bn, x) + Eval(b.bd, x) == Eval(e, x) + (if first then -Eval(f, -x) else Eval(f, -x))
  }

  lemma FromEFJoins(e: seq<real>, f: seq<real>)
    ensures Joins(FromEF(e, f), e, f)
  {
    var b, first := FromEF(e, f), |Plus(Odds(e), Odds(f))| == |e|;
    FromEFParity(e, f);
    hide Parity, Canonical;
    forall x: real
      ensures Eval(b.bn, x) + Eval(b.bd, x) == Eval(e, x) + (if first then -Eval(f, -x) else Eval(f, -x))
    {
      if first { OddFormAt(e, f, x); } else { EvenFormAt(e, f, x); }
    }
  }

  lemma FromEFParity(e: seq<real>, f: seq<real>)
    ensures var b, first := FromEF(e, f), |Plus(Odds(e), Odds(f))| == |e|;
            Canonical(b.bn) && Canonical(b.bd) && Parity(b.bn, first) && Parity(b.bd, !first)
  {
    hide Odds, Evn, Plus, Minus, Trim;
    SieveParity(e);
    SieveParity(f);
    ParityPlus(Odds(e), Odds(f), true);
    ParityPlus(Evn(e), Evn(f), false);
    ParityMinus(Evn(e), Evn(f), false);
    ParityMinus(Odds(e), Odds(f), true);
  }

  lemma PartsAt(c: seq<real>, i: int)
    ensures At(Odds(c), i) == if i >= 0 && i % 2 == 1 then At(c, i) else 0.0
    ensures At(Evn(c), i) == if i >= 0 && i % 2 == 0 then At(c, i) else 0.0
    ensures At(Mirror(c), i) == At(Evn(c), i) - At(Odds(c), i)
  {
    assert At(Odds(c), i) == At(Sieve(c, 1), i) && At(Evn(c), i) == At(Sieve(c, 0), i);
  }

  lemma OddFormAt(e: seq<real>, f: seq<real>, x: real)
    ensures var b := OddForm(e, f); Eval(b.bn, x) + Eval(b.bd, x) == Eval(e, x) - Eval(f, -x)
  {
    var b := OddForm(e, f);
    var r := Minus(e, Mirror(f));
    forall i: int ensures At(r, i) == At(b.bn, i) + At(b.bd, i) && At(e, i) == At(r, i) + At(Mirror(f), i) {
      PartsAt(e, i);
      PartsAt(f, i);
    }
    hide *;
    EvalPlus(r, b.bn, b.bd, x);
    EvalPlus(e, r, Mirror(f), x);
    EvalMirror(f, x);
  }

  lemma EvenFormAt(e: seq<real>, f: seq<real>, x: real)
    ensures var b := EvenForm(e, f); Eval(b.bn, x) + Eval(b.bd, x) == Eval(e, x) + Eval(f, -x)
  {
    var b := EvenForm(e, f);
    var r := Plus(e, Mirror(f));
    forall i: int ensures At(r, i) == At(b.bn, i) + At(b.bd, i) && At(r, i) == At(e, i) + At(Mirror(f), i) {
      PartsAt(e, i);
      PartsAt(f, i);
    }
    hide *;
    EvalPlus(r, b.bn, b.bd, x);
    EvalPlus(r, e, Mirror(f), x);
    EvalMirror(f, x);
  }

  lemma PlusCommutes(c: seq<real>, d: seq<real>)
    ensures Plus(c, d) == Plus(d, c)
  {
    CanonicalUnique(Plus(c, d), Plus(d, c));
  }

  /** The sum of two polynomials, added into a copy of the longer one. */
  method Sum(p: Poly, q: Poly) returns (r: Poly)
    requires p.Valid() && q.Valid()
    ensures fresh(r) && r.Valid() && r.Coef() == Plus(p.Coef(), q.Coef())
  {
    PlusCommutes(p.Coef(), q.Coef());
    if q.dg >= p.dg {
      r := new Poly.Copy(q);
      r.Add(p);
    } else {
      r := new Poly.Copy(p);
      r.Add(q);
    }
  }

  method Difference(p: Poly, q: Poly) returns (r: Poly)
    requires p.Valid() && q.Valid()
    ensures fresh(r) && r.Valid() && r.Coef() == Minus(p.Coef(), q.Coef())
  {
    if p.dg >= q.dg {
      r := new Poly.Copy(p);
      r.Subtract(q);
    } else {
      r := q.Negated();
      MinusIs(p.Coef(), q.Coef());
      r.Add(p);
    }
  }

  lemma MinusIs(c: seq<real>, d: seq<real>)
    ensures Plus(Times(d, -1.0), c) == Minus(c, d)
  {
    CanonicalUnique(Plus(Times(d, -1.0), c), Minus(c, d));
  }

  /** scptX2, and the common tail of scptX1 and scptX3. */
  method ScptX2(flt: QfFilter, e: Poly, f: Poly)
    requires flt.Valid() && e.Valid() && f.Valid() && {e, f} !! {flt.BN, flt.BD}
    modifies flt.BN, flt.BD
    ensures flt.Valid() && flt.B() == FromEF(e.Coef(), f.Coef())
    ensures Joins(flt.B(), e.Coef(), f.Coef())
  {
    hide Joins, Trim, Sieve, Odds, Evn, Plus, Minus, Canonical, Parity, Poly.Valid, Poly.Coef;
    FromEFJoins(e.Coef(), f.Coef());
    var n := PartsSum(e, f, true);
    flt.BN.Assign(n);
    if flt.BN.dg != e.dg {
      n := PartsSum(e, f, false);
      flt.BN.Assign(n);
      n := PartsDifference(e, f, true);
      flt.BD.Assign(n);
      return;
    }
    n := PartsDifference(e, f, false);
    flt.BD.Assign(n);
  }

  function PartOfParity(c: seq<real>, odd: bool): seq<real> {
    if odd then Odds(c) else Evn(c)
  }

  method Part(p: Poly, odd: bool) returns (r: Poly)
    requires p.Valid()
    ensures fresh(r) && r.Valid() && r.Coef() == PartOfParity(p.Coef(), odd)
  {
    if odd { r := p.OddPart(); } else { r := p.EvenPart(); }
  }

  method PartsSum(e: Poly, f: Poly, odd: bool) returns (r: Poly)
    requires e.Valid() && f.Valid()
    ensures fresh(r) && r.Valid()
    ensures r.Coef() == Plus(PartOfParity(e.Coef(), odd), PartOfParity(f.Coef(), odd))
  {
    var ep := Part(e, odd);
    var fp := Part(f, odd);
    r := Sum(ep, fp);
  }

  method PartsDifference(e: Poly, f: Poly, odd: bool) returns (r: Poly)
    requires e.Valid() && f.Valid()
    ensures fresh(r) && r.Valid()
    ensures r.Coef() == Minus(PartOfParity(e.Coef(), odd), PartOfParity(f.Coef(), odd))
  {
    var ep := Part(e, odd);
    var fp := Part(f, odd);
    r := Difference(ep, fp);
  }

  lemma SieveParity(c: seq<real>)
    ensures Parity(Odds(c), true) && Canonical(Odds(c))
    ensures Parity(Evn(c), false) && Canonical(Evn(c))
  {
    var o, e := Odds(c), Evn(c);
    forall i | 0 <= i < |o| && i % 2 == 0 ensures o[i] == 0.0 {
      assert At(o, i) == At(Sieve(c, 1), i);
    }
    forall i | 0 <= i < |e| && i % 2 == 1 ensures e[i] == 0.0 {
      assert At(e, i) == At(Sieve(c, 0), i);
    }
  }

  /** What pole_finite asks of the parities holds exactly when the odd one of the two polynomials
      is not zero. */
  lemma LosslessExactly(e: seq<real>, f: seq<real>)
    ensures var b, first := FromEF(e, f), |Plus(Odds(e), Odds(f))| == |e|;
            Lossless(b) <==> (if first then b.bn != [0.0] else b.bd != [0.0])
  {
    hide Odds, Evn, Plus, Minus, Trim;
    SieveParity(e);
    SieveParity(f);
    var b, first := FromEF(e, f), |Plus(Odds(e), Odds(f))| == |e|;
    ParityPlus(Odds(e), Odds(f), true);
    ParityPlus(Evn(e), Evn(f), false);
    ParityMinus(Evn(e), Evn(f), false);
    ParityMinus(Odds(e), Odds(f), true);
    var odd, even := if first then b.bn else b.bd, if first then b.bd else b.bn;
    if odd != [0.0] { ParityDegree(odd, true); }
    if even != [0.0] { ParityDegree(even, false); }
  }

  // ----- the even and odd parts at s = jp -----

  lemma EvenAtExt(c: seq<real>, d: seq<real>, y: real)
    requires forall i: nat :: At(c, 2 * i) == At(d, 2 * i)
    ensures EvenAt(c, y) == EvenAt(d, y)
  {
    forall i: int ensures At(Evens(c), i) == At(Evens(d), i) {
      EvensAt(c, i);
      EvensAt(d, i);
    }
    EvalExt(Evens(c), Evens(d), y);
  }

  lemma EvenAtPlus(r: seq<real>, c: seq<real>, d: seq<real>, y: real)
    requires forall i: nat :: At(r, 2 * i) == At(c, 2 * i) + At(d, 2 * i)
    ensures EvenAt(r, y) == EvenAt(c, y) + EvenAt(d, y)
  {
    forall i: int ensures At(Evens(r), i) == At(Evens(c), i) + At(Evens(d), i) {
      EvensAt(r, i);
      EvensAt(c, i);
      EvensAt(d, i);
    }
    EvalPlus(Evens(r), Evens(c), Evens(d), y);
  }

  lemma EvenPartAt(c: seq<real>, y: real)
    ensures EvenAt(Evn(c), y) == EvenAt(c, y)
  {
    forall i: nat ensures At(Evn(c), 2 * i) == At(c, 2 * i) {
      assert At(Evn(c), 2 * i) == At(Sieve(c, 0), 2 * i);
    }
    EvenAtExt(Evn(c), c, y);
  }

  lemma OddPartAt(c: seq<real>, y: real)
    ensures EvenAt(Tail(Odds(c)), y) == EvenAt(Tail(c), y)
  {
    forall i: nat ensures At(Tail(Odds(c)), 2 * i) == At(Tail(c), 2 * i) {
      TailAt(Odds(c), 2 * i);
      TailAt(c, 2 * i);
      assert At(Odds(c), 2 * i + 1) == At(Sieve(c, 1), 2 * i + 1);
    }
    EvenAtExt(Tail(Odds(c)), Tail(c), y);
  }

  /** The parts of sums and differences, for the whole polynomial and with an s taken out. */
  lemma PartsOfSum(c: seq<real>, d: seq<real>, y: real)
    ensures EvenAt(Plus(c, d), y) == EvenAt(c, y) + EvenAt(d, y)
    ensures EvenAt(c, y) == EvenAt(Minus(c, d), y) + EvenAt(d, y)
    ensures EvenAt(Tail(Plus(c, d)), y) == EvenAt(Tail(c), y) + EvenAt(Tail(d), y)
    ensures EvenAt(Tail(c), y) == EvenAt(Tail(Minus(c, d)), y) + EvenAt(Tail(d), y)
  {
    hide EvenAt;
    EvenAtPlus(Plus(c, d), c, d, y);
    EvenAtPlus(c, Minus(c, d), d, y);
    forall i: nat ensures At(Tail(Plus(c, d)), 2 * i) == At(Tail(c), 2 * i) + At(Tail(d), 2 * i)
                       && At(Tail(c), 2 * i) == At(Tail(Minus(c, d)), 2 * i) + At(Tail(d), 2 * i) {
      TailAt(c, 2 * i);
      TailAt(d, 2 * i);
      TailAt(Plus(c, d), 2 * i);
      TailAt(Minus(c, d), 2 * i);
    }
    EvenAtPlus(Tail(Plus(c, d)), Tail(c), Tail(d), y);
    EvenAtPlus(Tail(c), Tail(Minus(c, d)), Tail(d), y);
  }

  lemma EvensAt(c: seq<real>, i: int)
    ensures At(Evens(c), i) == if i < 0 then 0.0 else At(c, 2 * i)
  {
  }

  lemma TailAt(c: seq<real>, i: int)
    ensures i >= 0 ==> At(Tail(c), i) == At(c, i + 1)
  {
  }

  /** c(s) c(-s) at s = jp. */
  ghost function SquareAt(c: seq<real>, p: real): real {
    EvenAt(c, Pl(p)) * EvenAt(c, Pl(p)) - Pl(p) * (EvenAt(Tail(c), Pl(p)) * EvenAt(Tail(c), Pl(p)))
  }

  /** At a zero jp of transmission, where E(s)E(-s) == F(s)F(-s), both ways to form the susceptance
      give the same value to the first removed component, so it does not matter which of them the
      degree test picked. */
  lemma FormsAgreeAtPole(e: seq<real>, f: seq<real>, p: real)
    requires SquareAt(e, p) == SquareAt(f, p)
    requires BdEven(OddForm(e, f)) && Divisible(OddForm(e, f), p)
    requires !BdEven(EvenForm(e, f)) && Divisible(EvenForm(e, f), p)
    ensures ShuntPart(OddForm(e, f), p) == ShuntPart(EvenForm(e, f), p)
  {
    hide EvenAt, Pl, Plus, Minus, Odds, Evn;
    var y := Pl(p);
    EvenPartAt(e, y);
    EvenPartAt(f, y);
    OddPartAt(e, y);
    OddPartAt(f, y);
    PartsOfSum(Odds(e), Odds(f), y);
    PartsOfSum(Evn(e), Evn(f), y);
    FormsAgree(EvenAt(e, y), EvenAt(Tail(e), y), EvenAt(f, y), EvenAt(Tail(f), y), y,
               BdAt(OddForm(e, f), p), BdAt(EvenForm(e, f), p), ShuntDivisor(EvenForm(e, f), p));
    CrossDivide(BnAt(OddForm(e, f), p), BdAt(OddForm(e, f), p),
                BnAt(EvenForm(e, f), p), ShuntDivisor(EvenForm(e, f), p));
  }

  lemma FormsAgree(e: real, o: real, f: real, g: real, y: real, d: real, k: real, h: real)
    requires e * e - y * (o * o) == f * f - y * (g * g)
    requires d == e - f && k == o - g && h == y * k
    ensures (o + g) * h == (e + f) * d
  {
    assert (e + f) * d == e * e - f * f;
    assert (o + g) * k == o * o - g * g;
    assert (o + g) * h == y * ((o + g) * k);
  }
}
