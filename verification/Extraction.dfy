/** The arithmetic of pole extraction, on coefficient sequences: what removing a finite pole
    s = jp from a susceptance BN/BD leaves behind, and what the removed components are. */
module Extraction {
  import opened RealMath
  import opened PolyMath
  import opened Ladder

  datatype Susceptance = Susceptance(bn: seq<real>, bd: seq<real>)

  /** The three values of one extraction: shunt capacitor, and C and L of the trap. */
  datatype Triple = Triple(v: real, w1: real, w2: real)

  predicate BdEven(b: Susceptance) {
    |b.bd| % 2 == 1
  }

  /** Numerator and denominator are one odd and one even, as in every lossless network. */
  predicate Lossless(b: Susceptance) {
    && Canonical(b.bn) && Canonical(b.bd)
    && (|b.bn| + |b.bd|) % 2 == 1
    && (if BdEven(b) then EvenOnly(b.bd) && OddOnly(b.bn) else OddOnly(b.bd) && EvenOnly(b.bn))
  }

  /** s^2 at s = jp */
  function Pl(p: real): real {
    -p * p
  }

  function Inv(w: real): real
    requires w != 0.0
  {
    1.0 / w
  }

  /** For an odd c its value at jp divided by jp, for an even c its value at jp. */
  ghost function PartAt(c: seq<real>, odd: bool, p: real): real {
    EvenAt(if odd then Tail(c) else c, Pl(p))
  }

  ghost function BnAt(b: Susceptance, p: real): real {
    PartAt(b.bn, BdEven(b), p)
  }

  ghost function BdAt(b: Susceptance, p: real): real {
    PartAt(b.bd, !BdEven(b), p)
  }

  /** B(s)/s at s = jp: the part of the pole at infinity that moves a zero of BN to jp. */
  ghost function ShuntPart(b: Susceptance, p: real): real
    requires ShuntDivisor(b, p) != 0.0
  {
    BnAt(b, p) / ShuntDivisor(b, p)
  }

  /** BD(jp), or jp BD(jp) when BD is odd. */
  ghost function ShuntDivisor(b: Susceptance, p: real): real {
    if BdEven(b) then BdAt(b, p) else Pl(p) * BdAt(b, p)
  }

  /** No quotient of the extraction has a zero divisor. */
  ghost predicate Divisible(b: Susceptance, p: real) {
    p != 0.0 && BdAt(b, p) != 0.0 && ShuntDivisor(b, p) != 0.0
  }

  /** BN - v s BD */
  function ShiftedNumerator(b: Susceptance, v: real): seq<real> {
    Minus(b.bn, Times(Raise(b.bd, 1), v))
  }

  function Jp(p: real): Cx {
    Cx(0.0, p)
  }

  /** BN' = (BN - v s BD) / (s^2 + p^2) */
  ghost function NextNumerator(b: Susceptance, p: real): seq<real>
    requires Divisible(b, p)
  {
    Factor(ShiftedNumerator(b, ShuntPart(b, p)), Jp(p)).q
  }

  /** s BN'(s) / BD(s) at s = jp */
  ghost function TrapPart(b: Susceptance, p: real): real
    requires Divisible(b, p)
  {
    var n := PartAt(NextNumerator(b, p), BdEven(b), p);
    if BdEven(b) then Pl(p) * n / BdAt(b, p) else n / BdAt(b, p)
  }

  /** BD - s BN' / w */
  function ShiftedDenominator(bd: seq<real>, bn': seq<real>, w: real): seq<real>
    requires w != 0.0
  {
    Minus(bd, Times(Raise(bn', 1), Inv(w)))
  }

  /** The pole at jp can be removed: the divisors and both removed values are not zero, and the
      shifted numerator does not vanish altogether. */
  ghost predicate Extractable(b: Susceptance, p: real) {
    && Lossless(b)
    && Divisible(b, p)
    && ShuntPart(b, p) != 0.0
    && ShiftedNumerator(b, ShuntPart(b, p)) != [0.0]
    && TrapPart(b, p) != 0.0
  }

  ghost function NextDenominator(b: Susceptance, p: real): seq<real>
    requires Extractable(b, p)
  {
    var d := ShiftedDenominator(b.bd, NextNumerator(b, p), TrapPart(b, p));
    if |d| == 1 then d else Factor(d, Jp(p)).q
  }

  ghost function Next(b: Susceptance, p: real): Susceptance
    requires Extractable(b, p)
  {
    Susceptance(NextNumerator(b, p), NextDenominator(b, p))
  }

  // ----- parity under the operations -----

  predicate Parity(c: seq<real>, odd: bool) {
    if odd then OddOnly(c) else EvenOnly(c)
  }

  lemma ParityRaise(c: seq<real>, odd: bool)
    requires Parity(c, odd)
    ensures Parity(Raise(c, 1), !odd)
  {
    var r := Raise(c, 1);
    forall i | 0 <= i < |r| && (i % 2 == 1) != !odd ensures r[i] == 0.0 {
      assert At(r, i) == At(c, i - 1);
    }
  }

  lemma ParityTimes(c: seq<real>, m: real, odd: bool)
    requires Parity(c, odd)
    ensures Parity(Times(c, m), odd)
  {
  }

  lemma ParityMinus(c: seq<real>, d: seq<real>, odd: bool)
    requires Parity(c, odd) && Parity(d, odd)
    ensures Parity(Minus(c, d), odd)
  {
    var r := Minus(c, d);
    forall i | 0 <= i < |r| && (i % 2 == 1) != odd ensures r[i] == 0.0 {
      assert At(r, i) == At(c, i) - At(d, i);
    }
  }

  lemma ParityPlus(c: seq<real>, d: seq<real>, odd: bool)
    requires Parity(c, odd) && Parity(d, odd)
    ensures Parity(Plus(c, d), odd)
  {
    var r := Plus(c, d);
    forall i | 0 <= i < |r| && (i % 2 == 1) != odd ensures r[i] == 0.0 {
      assert At(r, i) == At(c, i) + At(d, i);
    }
  }

  lemma {:induction false} ParityQuotient(c: seq<real>, p: real, odd: bool)
    requires Parity(c, odd)
    ensures var d := Factor(c, Jp(p));
            Parity(d.q, odd) && (if odd then d.r0 == 0.0 else d.r1 == 0.0)
    decreases |c|
  {
    hide Norm;
    if |c| > 2 {
      ParityTail(c, odd);
      ParityQuotient(c[1..], p, !odd);
      var d, e := Factor(c, Jp(p)), Factor(c[1..], Jp(p));
      assert d.q == [e.r1] + e.q;
      assert odd ==> e.r1 == 0.0;
    }
  }

  lemma ParityTail(c: seq<real>, odd: bool)
    requires |c| > 0 && Parity(c, odd)
    ensures Parity(c[1..], !odd)
  {
  }

  /** A canonical polynomial of one parity has a degree of that parity, unless it is zero. */
  lemma ParityDegree(c: seq<real>, odd: bool)
    requires Canonical(c) && Parity(c, odd) && c != [0.0]
    ensures (|c| % 2 == 0) == odd
  {
    if |c| == 1 { assert c == [c[0]]; }
    assert c[|c| - 1] != 0.0;
  }

  // ----- the shifted polynomials vanish at the pole -----

  lemma PartMeans(c: seq<real>, odd: bool, p: real)
    requires Parity(c, odd)
    ensures EvalC(c, Jp(p)) == if odd then Cx(0.0, p * PartAt(c, odd, p)) else Cx(PartAt(c, odd, p), 0.0)
  {
    hide EvalC, EvenAt;
    AtImaginary(c, p);
    ParityAt(c, Pl(p));
  }

  lemma MulJp(p: real, w: Cx)
    ensures CxMul(Jp(p), w) == Cx(-(p * w.im), p * w.re)
  {
  }

  lemma PartRaise(c: seq<real>, odd: bool, p: real)
    requires Parity(c, odd)
    ensures EvalC(Raise(c, 1), Jp(p))
         == if odd then Cx(Pl(p) * PartAt(c, odd, p), 0.0) else Cx(0.0, p * PartAt(c, odd, p))
  {
    hide EvalC, PartAt, CxMul, Raise;
    PartMeans(c, odd, p);
    EvalCRaise(c, Jp(p));
    MulJp(p, EvalC(c, Jp(p)));
    var a := PartAt(c, odd, p);
    SquareOut(p, a);
  }

  lemma SquareOut(p: real, a: real)
    ensures -(p * (p * a)) == Pl(p) * a
    ensures p * 0.0 == 0.0
  {
  }

  lemma ShiftedVanishes(c: seq<real>, d: seq<real>, m: real, z: Cx)
    requires EvalC(c, z) == CxScale(m, EvalC(Raise(d, 1), z))
    ensures EvalC(Minus(c, Times(Raise(d, 1), m)), z) == Cx(0.0, 0.0)
  {
    hide EvalC, CxScale, Times, Minus, Raise;
    EvalCTimes(Raise(d, 1), m, z);
    EvalCMinus(c, Times(Raise(d, 1), m), z);
  }

  lemma NumeratorVanishes(b: Susceptance, p: real)
    requires Lossless(b) && Divisible(b, p)
    ensures EvalC(ShiftedNumerator(b, ShuntPart(b, p)), Jp(p)) == Cx(0.0, 0.0)
  {
    hide EvalC, PartAt, Raise, Times, Minus;
    var v := ShuntPart(b, p);
    PartMeans(b.bn, BdEven(b), p);
    PartRaise(b.bd, !BdEven(b), p);
    Quotient(BnAt(b, p), ShuntDivisor(b, p), v);
    Commute(v, p, BdAt(b, p));
    ShiftedVanishes(b.bn, b.bd, v, Jp(p));
  }

  lemma Commute(v: real, p: real, d: real)
    ensures v * (p * d) == p * (v * d)
  {
  }

  lemma Quotient(n: real, d: real, v: real)
    requires d != 0.0 && v == n / d
    ensures v * d == n && v * 0.0 == 0.0
  {
  }

  lemma DenominatorVanishes(b: Susceptance, p: real, w: real, bn': seq<real>)
    requires Lossless(b) && p != 0.0 && w != 0.0
    requires Parity(bn', BdEven(b))
    requires w * BdAt(b, p) == if BdEven(b) then Pl(p) * PartAt(bn', true, p) else PartAt(bn', false, p)
    ensures EvalC(ShiftedDenominator(b.bd, bn', w), Jp(p)) == Cx(0.0, 0.0)
  {
    hide EvalC, PartAt, Raise, Times, Minus, Inv;
    PartMeans(b.bd, !BdEven(b), p);
    PartRaise(bn', BdEven(b), p);
    Reciprocal(w, BdAt(b, p), p);
    ShiftedVanishes(b.bd, bn', Inv(w), Jp(p));
  }

  lemma Reciprocal(w: real, d: real, p: real)
    requires w != 0.0
    ensures Inv(w) * (w * d) == d
    ensures Inv(w) * (p * (w * d)) == p * d
    ensures Inv(w) * 0.0 == 0.0
  {
    InverseOf(w);
    hide Inv;
    Cancel(Inv(w), w, d);
    assert Inv(w) * (p * (w * d)) == p * (Inv(w) * (w * d));
  }

  lemma InverseOf(w: real)
    requires w != 0.0
    ensures Inv(w) * w == 1.0
  {
  }

  /** A canonical polynomial that vanishes at jp is zero or has degree at least two, and the
      division by s^2 + p^2 then leaves nothing. */
  lemma ExactDivision(c: seq<real>, odd: bool, p: real)
    requires Canonical(c) && Parity(c, odd) && p != 0.0
    requires EvalC(c, Jp(p)) == Cx(0.0, 0.0)
    ensures var d := Factor(c, Jp(p)); d.r1 == 0.0 && d.r0 == 0.0 && Parity(d.q, odd)
    ensures c == [0.0] || |c| > 2
    ensures |c| > 2 ==> Canonical(Factor(c, Jp(p)).q) && Factor(c, Jp(p)).q != [0.0]
  {
    hide EvalC, Norm;
    var d := Factor(c, Jp(p));
    DivideAtRoot(c, Jp(p));
    ParityQuotient(c, p, odd);
    NoFactor(d.r1, p);
    if |c| <= 2 {
      assert d.r1 == At(c, 1) && d.r0 == At(c, 0);
      if |c| == 1 { assert c == [c[0]]; }
    }
  }

  lemma NoFactor(r: real, p: real)
    requires p != 0.0 && r * p == 0.0
    ensures r == 0.0 && r * 0.0 == 0.0
  {
  }

  lemma QuotientEval(c: seq<real>, p: real, x: real)
    requires Factor(c, Jp(p)).r1 == 0.0 && Factor(c, Jp(p)).r0 == 0.0
    ensures Eval(c, x) == (x * x + p * p) * Eval(Factor(c, Jp(p)).q, x)
  {
    hide Eval, Divide;
    DivideEval(c, -2.0 * 0.0, Norm(Jp(p)), x);
    assert Norm(Jp(p)) == p * p;
  }

  // ----- the extraction is exact -----

  /** With f for s^2 + p^2, at every x: BN == v x BD + f BN' and BD == f BD' + x BN' / w. */
  ghost predicate SplitsAt(b: Susceptance, b': Susceptance, p: real, v: real, w: real, x: real)
    requires w != 0.0
  {
    && Eval(b.bn, x) == v * (x * Eval(b.bd, x)) + (x * x + p * p) * Eval(b'.bn, x)
    && Eval(b.bd, x) == (x * x + p * p) * Eval(b'.bd, x) + Inv(w) * (x * Eval(b'.bn, x))
  }

  lemma ShiftedEval(c: seq<real>, d: seq<real>, m: real, x: real)
    ensures Eval(Minus(c, Times(Raise(d, 1), m)), x) == Eval(c, x) - m * (x * Eval(d, x))
  {
    hide Eval, Minus, Times, Raise;
    EvalRaise(d, x);
    EvalTimes(Raise(d, 1), m, x);
    EvalMinus(c, Times(Raise(d, 1), m), x);
  }

  lemma ShiftedParity(c: seq<real>, d: seq<real>, m: real, odd: bool)
    requires Parity(c, odd) && Parity(d, !odd)
    ensures Parity(Minus(c, Times(Raise(d, 1), m)), odd)
  {
    hide Minus, Times, Raise, Parity;
    ParityRaise(d, !odd);
    ParityTimes(Raise(d, 1), m, odd);
    ParityMinus(c, Times(Raise(d, 1), m), odd);
  }

  lemma NumeratorDivides(b: Susceptance, p: real)
    requires Lossless(b) && Divisible(b, p)
    ensures var c := ShiftedNumerator(b, ShuntPart(b, p));
            var d := Factor(c, Jp(p));
            && Canonical(c) && d.r1 == 0.0 && d.r0 == 0.0 && Parity(d.q, BdEven(b))
            && (c == [0.0] || |c| > 2)
            && (|c| > 2 ==> Canonical(d.q) && d.q != [0.0])
  {
    hide EvalC, BdAt, Times, Raise, Divide, ShuntPart;
    var v := ShuntPart(b, p);
    NumeratorVanishes(b, p);
    ShiftedParity(b.bn, b.bd, v, BdEven(b));
    ExactDivision(ShiftedNumerator(b, v), BdEven(b), p);
  }

  lemma DenominatorDivides(b: Susceptance, p: real)
    requires Extractable(b, p)
    ensures var c := ShiftedDenominator(b.bd, NextNumerator(b, p), TrapPart(b, p));
            var d := Factor(c, Jp(p));
            && Canonical(c) && d.r1 == 0.0 && d.r0 == 0.0 && Parity(d.q, !BdEven(b))
            && (c == [0.0] || |c| > 2)
            && (|c| > 2 ==> Canonical(d.q) && d.q != [0.0])
  {
    hide EvalC, Times, Raise, Divide, ShuntPart, PartAt, NextNumerator;
    NumeratorDivides(b, p);
    TrapQuotient(b, p);
    var bn', w := NextNumerator(b, p), TrapPart(b, p);
    assert bn' == Factor(ShiftedNumerator(b, ShuntPart(b, p)), Jp(p)).q by { NextIs(b, p); }
    DenominatorVanishes(b, p, w, bn');
    ShiftedParity(b.bd, bn', Inv(w), !BdEven(b));
    ExactDivision(ShiftedDenominator(b.bd, bn', w), !BdEven(b), p);
  }

  lemma NextIs(b: Susceptance, p: real)
    requires Divisible(b, p)
    ensures NextNumerator(b, p) == Factor(ShiftedNumerator(b, ShuntPart(b, p)), Jp(p)).q
  {
  }

  lemma TrapQuotient(b: Susceptance, p: real)
    requires Divisible(b, p)
    ensures var bn' := NextNumerator(b, p);
            TrapPart(b, p) * BdAt(b, p) == if BdEven(b) then Pl(p) * PartAt(bn', true, p) else PartAt(bn', false, p)
  {
    hide PartAt, NextNumerator;
  }

  lemma NumeratorSplits(b: Susceptance, p: real, x: real)
    requires Lossless(b) && Divisible(b, p)
    ensures Eval(b.bn, x) == ShuntPart(b, p) * (x * Eval(b.bd, x)) + (x * x + p * p) * Eval(NextNumerator(b, p), x)
  {
    hide Eval, EvenAt, Times, Raise, Divide, ShuntPart, Minus, Norm;
    var v := ShuntPart(b, p);
    NumeratorDivides(b, p);
    ShiftedEval(b.bn, b.bd, v, x);
    QuotientEval(ShiftedNumerator(b, v), p, x);
  }

  lemma DenominatorSplits(b: Susceptance, p: real, x: real)
    requires Extractable(b, p)
    ensures Eval(b.bd, x) == (x * x + p * p) * Eval(NextDenominator(b, p), x)
                           + Inv(TrapPart(b, p)) * (x * Eval(NextNumerator(b, p), x))
  {
    hide Eval, BdAt, Times, Raise, Divide, ShuntPart, Minus, NextNumerator, PartAt, Norm;
    var w, bn' := TrapPart(b, p), NextNumerator(b, p);
    DenominatorDivides(b, p);
    ShiftedEval(b.bd, bn', Inv(w), x);
    var d := ShiftedDenominator(b.bd, bn', w);
    QuotientEval(d, p, x);
    if |d| == 1 { ZeroEval(x, p); }
  }

  lemma ExtractionSplits(b: Susceptance, p: real, x: real)
    requires Extractable(b, p)
    ensures SplitsAt(b, Next(b, p), p, ShuntPart(b, p), TrapPart(b, p), x)
  {
    hide Eval, BdAt, ShuntPart, TrapPart, NextNumerator, NextDenominator, Inv, ShuntDivisor, ShiftedNumerator, Lossless;
    NumeratorSplits(b, p, x);
    DenominatorSplits(b, p, x);
  }

  lemma ZeroEval(x: real, p: real)
    ensures Eval([0.0], x) == 0.0 && (x * x + p * p) * 0.0 == 0.0
  {
    EvalUnfold([0.0], x);
  }

  /** The remainder of the network is of the same kind, and two degrees smaller. */
  lemma NextIsLossless(b: Susceptance, p: real, n: nat)
    requires Extractable(b, p)
    requires |b.bd| < n && |b.bn| <= n && n >= 4
    ensures BdEven(b) || Next(b, p).bd != [0.0] ==>
              Lossless(Next(b, p)) && BdEven(Next(b, p)) == BdEven(b)
    ensures |Next(b, p).bn| <= n - 2 && |Next(b, p).bd| <= n - 3
  {
    hide Divisible, ShuntPart, TrapPart, NextNumerator, NextDenominator, ShiftedNumerator;
    NumeratorSize(b, p);
    DenominatorSize(b, p);
    if BdEven(b) || NextDenominator(b, p) != [0.0] {
      LosslessPair(NextNumerator(b, p), NextDenominator(b, p), BdEven(b));
    }
  }

  lemma LosslessPair(bn: seq<real>, bd: seq<real>, odd: bool)
    requires Canonical(bn) && Canonical(bd) && Parity(bn, odd) && Parity(bd, !odd) && bn != [0.0]
    requires odd || bd != [0.0]
    ensures Lossless(Susceptance(bn, bd)) && BdEven(Susceptance(bn, bd)) == odd
  {
    ParityDegree(bn, odd);
    if bd != [0.0] { ParityDegree(bd, !odd); }
  }

  lemma NumeratorSize(b: Susceptance, p: real)
    requires Extractable(b, p)
    ensures var c := NextNumerator(b, p);
            Canonical(c) && c != [0.0] && Parity(c, BdEven(b)) && |c| + 2 <= Max(|b.bn|, |b.bd| + 1)
  {
    hide BdAt, Divide, ShuntPart, Norm, TrapPart;
    NumeratorDivides(b, p);
  }

  lemma DenominatorSize(b: Susceptance, p: real)
    requires Extractable(b, p)
    ensures var c := NextDenominator(b, p);
            && Canonical(c) && Parity(c, !BdEven(b))
            && (c == [0.0] || |c| + 2 <= Max(|b.bd|, |NextNumerator(b, p)| + 1))
  {
    hide BdAt, Divide, ShuntPart, Norm, NextNumerator;
    DenominatorDivides(b, p);
    assert Parity([0.0], true) ==> true;
  }

  // ----- the removed components -----

  /** The values returned for a removed pole, for the frequency scale ws. */
  ghost function Removed(b: Susceptance, p: real, ws: real): Triple
    requires Extractable(b, p)
  {
    SquareNonZero(TrapPart(b, p), p);
    Triple(ShuntPart(b, p) * ws, TrapPart(b, p) * ws, -ws / (TrapPart(b, p) * Pl(p)))
  }

  lemma SquareNonZero(w: real, p: real)
    requires w != 0.0 && p != 0.0
    ensures w * Pl(p) != 0.0
  {
    ProductNonZero(-p, p, Pl(p));
    ProductNonZero(w, Pl(p), w * Pl(p));
  }

  /** Shunt capacitor and series trap; or, dual, series inductor and shunt trap. */
  function Cell(t: Triple, dual: bool): seq<Cmp> {
    if dual then [Ind(t.v, false, false), Slc(t.w2, t.w1, true, true)]
    else [Cap(t.v, true, true), Plc(t.w1, t.w2, false, false)]
  }

  ghost function ValueOf(b: Susceptance, x: real): Ratio {
    Ratio(Eval(b.bn, x), Eval(b.bd, x))
  }

  /** In the dual network the ratio is an impedance. */
  function Oriented(r: Ratio, dual: bool): Ratio {
    if dual then Flip(r) else r
  }

  /** The removed cell in front of what is left has the susceptance there was before. */
  lemma CellRestores(b: Susceptance, p: real, ws: real, s: real, dual: bool)
    requires Extractable(b, p)
    ensures Scale(p * p, Input(Cell(Removed(b, p, ws), dual), s, Oriented(ValueOf(Next(b, p), ws * s), dual)))
         == Oriented(ValueOf(b, ws * s), dual)
  {
    hide ShuntDivisor, BdAt, Pl, Inv, ShuntPart, TrapPart;
    hide Eval, NextNumerator, NextDenominator, Before, Scale, SplitsAt;
    hide ShiftedNumerator, Lossless, ValueOf, Oriented;
    var v, w := ShuntPart(b, p), TrapPart(b, p);
    SquareNonZero(w, p);
    ExtractionSplits(b, p, ws * s);
    CellAlgebra(b, Next(b, p), p, v, w, ws, s, dual);
    var c := Cell(Removed(b, p, ws), dual);
    InputTwo(c[0], c[1], s, Oriented(ValueOf(Next(b, p), ws * s), dual));
    assert c == [c[0], c[1]];
    var y, r := Oriented(ValueOf(Next(b, p), ws * s), dual), Oriented(ValueOf(b, ws * s), dual);
    assert Removed(b, p, ws) == Triple(v * ws, w * ws, -ws / (w * Pl(p)));
    assert c == Cell(Triple(v * ws, w * ws, -ws / (w * Pl(p))), dual);
    assert Input(c, s, y) == Before(c[0], s, Before(c[1], s, y));
    assert Scale(p * p, Before(c[0], s, Before(c[1], s, y))) == r;
  }

  lemma CellAlgebra(b: Susceptance, b': Susceptance, p: real, v: real, w: real, ws: real, s: real, dual: bool)
    requires p != 0.0 && w != 0.0 && w * Pl(p) != 0.0
    requires SplitsAt(b, b', p, v, w, ws * s)
    ensures (var c := Cell(Triple(v * ws, w * ws, -ws / (w * Pl(p))), dual);
             Scale(p * p, Before(c[0], s, Before(c[1], s, Oriented(ValueOf(b', ws * s), dual)))))
         == Oriented(ValueOf(b, ws * s), dual)
  {
    hide Eval, Before, Pl, Inv, Scale, Behind;
    var t := Triple(v * ws, w * ws, -ws / (w * Pl(p)));
    var y, r := ValueOf(b', ws * s), ValueOf(b, ws * s);
    CellBefore(t, s, y, dual);
    CellValues(p, v, w, ws, s, ws * s, t, y, r);
  }

  /** The input ratio of a cell in front of y, in the orientation of the direct network. */
  function Behind(t: Triple, s: real, y: Ratio): Ratio {
    var f, g := s * t.w2 * (s * t.w1) + 1.0, s * t.w2;
    Ratio(y.num * f + (y.den * f + y.num * g) * (s * t.v), y.den * f + y.num * g)
  }

  lemma CellBefore(t: Triple, s: real, y: Ratio, dual: bool)
    ensures var c := Cell(t, dual);
            Before(c[0], s, Before(c[1], s, Oriented(y, dual))) == Oriented(Behind(t, s, y), dual)
  {
    hide Before;
    if dual {
      assert s * t.w1 * (s * t.w2) == s * t.w2 * (s * t.w1);
      BeforeSlc(t.w2, t.w1, s, Flip(y));
      BeforeInd(t.v, s, Before(Slc(t.w2, t.w1, true, true), s, Flip(y)));
    } else {
      BeforePlc(t.w1, t.w2, s, y);
      BeforeCap(t.v, s, Before(Plc(t.w1, t.w2, false, false), s, y));
    }
  }

  lemma CellValues(p: real, v: real, w: real, ws: real, s: real, x: real, t: Triple, y: Ratio, r: Ratio)
    requires p != 0.0 && w != 0.0 && w * Pl(p) != 0.0
    requires x == ws * s && t == Triple(v * ws, w * ws, -ws / (w * Pl(p)))
    requires r.num == v * (x * r.den) + (x * x + p * p) * y.num
    requires r.den == (x * x + p * p) * y.den + Inv(w) * (x * y.num)
    ensures Scale(p * p, Behind(t, s, y)) == r
    ensures Scale(p * p, Flip(Behind(t, s, y))) == Flip(r)
  {
    hide Pl, Inv;
    TrapValues(t.w1, t.w2, p, w, ws, s, x);
    CellDenominator(p, Inv(w), s, x, t, y, r.den);
    CellNumerator(p, v, ws, s, x, t, y, r.num, r.den);
  }

  lemma CellDenominator(p: real, m: real, s: real, x: real, t: Triple, y: Ratio, d: real)
    requires p * p * (s * t.w2) == m * x
    requires p * p * (s * t.w2 * (s * t.w1) + 1.0) == x * x + p * p
    requires d == (x * x + p * p) * y.den + m * (x * y.num)
    ensures p * p * Behind(t, s, y).den == d
  {
    var f, g := s * t.w2 * (s * t.w1) + 1.0, s * t.w2;
    TrapDenominator(p * p, f, g, y, x * x + p * p, m, x, d);
  }

  lemma CellNumerator(p: real, v: real, ws: real, s: real, x: real, t: Triple, y: Ratio, n: real, d: real)
    requires p * p * (s * t.w2 * (s * t.w1) + 1.0) == x * x + p * p
    requires p * p * Behind(t, s, y).den == d && x == ws * s && t.v == v * ws
    requires n == v * (x * d) + (x * x + p * p) * y.num
    ensures p * p * Behind(t, s, y).num == n
  {
    var f, e := s * t.w2 * (s * t.w1) + 1.0, Behind(t, s, y).den;
    assert Behind(t, s, y).num == y.num * f + e * (s * t.v);
    var u := s * t.v;
    assert u == v * x;
    assert p * p * (y.num * f) == (x * x + p * p) * y.num;
    assert p * p * (e * u) == d * u == v * (x * d);
  }

  lemma TrapDenominator(q: real, f: real, g: real, y: Ratio, h: real, m: real, x: real, d: real)
    requires q * f == h && q * g == m * x && d == h * y.den + m * (x * y.num)
    ensures q * (y.den * f + y.num * g) == d
  {
    assert q * (y.den * f) == (q * f) * y.den;
    assert q * (y.num * g) == (q * g) * y.num;
    assert m * (x * y.num) == m * x * y.num;
  }

  lemma TrapValues(w1: real, w2: real, p: real, w: real, ws: real, s: real, x: real)
    requires p != 0.0 && w != 0.0 && w * Pl(p) != 0.0
    requires x == ws * s && w1 == w * ws && w2 == -ws / (w * Pl(p))
    ensures p * p * (s * w2) == Inv(w) * x
    ensures p * p * (s * w2 * (s * w1) + 1.0) == x * x + p * p
  {
    hide Pl, Inv;
    DivideBack(-ws, w * Pl(p));
    SquareIs(p);
    assert w * Pl(p) == -(w * (p * p)) by { Negate(w, Pl(p), p * p); }
    Negate(w2, w * Pl(p), w * (p * p));
    assert w2 * (w * (p * p)) == ws;
    InverseOf(w);
    TrapValues2(w1, w2, p * p, Inv(w), w, ws, s, x);
  }

  lemma SquareIs(p: real)
    ensures Pl(p) == -(p * p)
  {
  }

  lemma TrapValues2(w1: real, w2: real, q: real, m: real, w: real, ws: real, s: real, x: real)
    requires m * w == 1.0 && w1 == w * ws && w2 * (w * q) == ws && x == ws * s
    ensures q * (s * w2) == m * x
    ensures q * (s * w2 * (s * w1) + 1.0) == x * x + q
  {
    assert m * ws == q * w2 by {
      assert m * (w2 * (w * q)) == (m * w) * (w2 * q);
    }
    assert q * (s * w2) == s * (q * w2);
    assert m * x == s * (m * ws);
    assert q * (s * w2 * (s * w1)) == s * s * ws * (w2 * (w * q));
    assert s * s * ws * ws == x * x;
  }
}
