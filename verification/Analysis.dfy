/** The way back: the susceptance of a ladder with finite poles, built cell by cell.  Pole
    extraction undoes this construction exactly. */
module Analysis {
  import opened RealMath
  import opened PolyMath
  import opened Ladder
  import opened Extraction
  import opened Continued
  import opened Synthesis

  /** One cell: the pole jp, the shunt value v and the trap value w. */
  datatype Stage = Stage(p: real, v: real, w: real)

  /** (s^2 + p^2) c(s) */
  function TimesFactor(c: seq<real>, p: real): (r: seq<real>)
    ensures Canonical(r)
  {
    if c == [0.0] then c else Plus(Raise(c, 2), Times(c, p * p))
  }

  /** The denominator and numerator in front of a cell, given those behind it. */
  function BehindStage(st: Stage, b: Susceptance): Susceptance
    requires st.w != 0.0
  {
    var bd := Plus(Times(Raise(b.bn, 1), Inv(st.w)), TimesFactor(b.bd, st.p));
    Susceptance(Plus(Times(Raise(bd, 1), st.v), TimesFactor(b.bn, st.p)), bd)
  }

  // ----- division undoes multiplication, coefficient by coefficient -----

  /** c_(i-2) + c_i u: the coefficient of x^i in (x^2 + u) c(x). */
  function FactorAt(c: seq<real>, u: real, i: int): real {
    At(c, i - 2) + At(c, i) * u
  }

  ghost predicate Recomposes(e: seq<real>, c: seq<real>, u: real, r1: real, r0: real) {
    && |e| == |c| + 2
    && forall i: int :: At(e, i) == FactorAt(c, u, i) + (if i == 1 then r1 else if i == 0 then r0 else 0.0)
  }

  lemma {:induction false} DivideUndoes(e: seq<real>, c: seq<real>, u: real, r1: real, r0: real)
    requires Recomposes(e, c, u, r1, r0)
    ensures Divide(e, 0.0, u) == QuoRem(c, r1, r0)
    decreases |c|
  {
    hide Divide, Recomposes;
    if c == [] {
      DivideUndoesShort(e, u, r1, r0);
    } else {
      RecomposesTail(e, c, u, r1, r0);
      DivideUndoes(e[1..], c[1..], u, c[0], r1);
      DivideUnfold(e, c, u, r1, r0);
    }
  }

  lemma DivideUndoesShort(e: seq<real>, u: real, r1: real, r0: real)
    requires Recomposes(e, [], u, r1, r0)
    ensures Divide(e, 0.0, u) == QuoRem([], r1, r0)
  {
    assert At(e, 0) == At([], -2) + At([], 0) * u + r0;
    assert At(e, 1) == At([], -1) + At([], 1) * u + r1;
    assert 0.0 * u == 0.0;
  }

  lemma FactorAtTail(c: seq<real>, u: real, i: int)
    requires c != []
    ensures i >= 0 ==> FactorAt(c, u, i + 1) == FactorAt(c[1..], u, i) + (if i == 1 then c[0] else 0.0)
    ensures i < 0 ==> FactorAt(c[1..], u, i) == 0.0
    ensures FactorAt(c, u, 0) == c[0] * u
  {
    assert 0.0 * u == 0.0;
    assert i >= 0 ==> At(c[1..], i) == At(c, i + 1);
    assert i >= 2 ==> At(c[1..], i - 2) == At(c, i - 1);
  }

  lemma RecomposesTail(e: seq<real>, c: seq<real>, u: real, r1: real, r0: real)
    requires Recomposes(e, c, u, r1, r0) && c != []
    ensures |e| > 2 && Recomposes(e[1..], c[1..], u, c[0], r1)
    ensures e[0] == c[0] * u + r0
  {
    hide FactorAt;
    FactorAtTail(c, u, 0);
    assert e[0] == At(e, 0) == FactorAt(c, u, 0) + r0;
    forall i: int
      ensures At(e[1..], i) == FactorAt(c[1..], u, i) + (if i == 1 then c[0] else if i == 0 then r1 else 0.0)
    {
      FactorAtTail(c, u, i);
      if i >= 0 { assert At(e, i + 1) == FactorAt(c, u, i + 1) + (if i == 0 then r1 else 0.0); }
    }
  }

  lemma DivideUnfold(e: seq<real>, c: seq<real>, u: real, r1: real, r0: real)
    requires |e| > 2 && c != [] && e[0] == c[0] * u + r0
    requires Divide(e[1..], 0.0, u) == QuoRem(c[1..], c[0], r1)
    ensures Divide(e, 0.0, u) == QuoRem(c, r1, r0)
  {
    assert [c[0]] + c[1..] == c;
    assert c[0] * 0.0 == 0.0;
  }

  /** The quotient of a product by the factor is the other factor, and nothing remains. */
  lemma FactorUndoes(c: seq<real>, p: real)
    requires Canonical(c) && c != [0.0]
    ensures |TimesFactor(c, p)| == |c| + 2
    ensures Factor(TimesFactor(c, p), Jp(p)) == QuoRem(c, 0.0, 0.0)
  {
    hide Divide, TimesFactor, Factor, Recomposes;
    FactorRecomposes(c, p);
    DivideUndoes(TimesFactor(c, p), c, p * p, 0.0, 0.0);
    FactorIs(TimesFactor(c, p), p);
  }

  lemma FactorRecomposes(c: seq<real>, p: real)
    requires Canonical(c) && c != [0.0]
    ensures |TimesFactor(c, p)| == |c| + 2
    ensures Recomposes(TimesFactor(c, p), c, p * p, 0.0, 0.0)
  {
    hide Raise, Times, Plus;
    var e, u := TimesFactor(c, p), p * p;
    forall i: int ensures At(e, i) == At(c, i - 2) + At(c, i) * u {
      assert At(e, i) == At(Raise(c, 2), i) + At(Times(c, p * p), i);
      TimesAt(c, p * p, i);
    }
    assert Lead(c) != 0.0 by { if |c| == 1 { assert c == [c[0]]; } }
    ZeroAbsorbs(u);
    assert At(e, |c| + 1) == Lead(c) + At(c, |c| + 1) * u;
  }

  lemma FactorIs(e: seq<real>, p: real)
    ensures Factor(e, Jp(p)) == Divide(e, 0.0, p * p)
  {
    hide Divide;
    assert Norm(Jp(p)) == p * p;
  }

  lemma TimesAt(c: seq<real>, m: real, i: int)
    ensures At(Times(c, m), i) == At(c, i) * m
  {
    assert 0.0 * m == 0.0;
  }

  // ----- parity and values at the pole -----

  lemma FactorParity(c: seq<real>, odd: bool, p: real)
    requires Parity(c, odd)
    ensures Parity(TimesFactor(c, p), odd)
  {
    hide Raise, Times;
    if c != [0.0] {
      var e := TimesFactor(c, p);
      forall i | 0 <= i < |e| && (i % 2 == 1) != odd ensures e[i] == 0.0 {
        TimesAt(c, p * p, i);
        assert At(e, i) == At(Raise(c, 2), i) + At(Times(c, p * p), i);
        assert At(c, i) == 0.0 && At(c, i - 2) == 0.0;
        ZeroAbsorbs(p * p);
      }
    }
  }

  lemma ZeroAbsorbs(x: real)
    ensures 0.0 * x == 0.0
  {
  }

  lemma FactorVanishes(c: seq<real>, p: real)
    requires Canonical(c)
    ensures EvalC(TimesFactor(c, p), Jp(p)) == Cx(0.0, 0.0)
  {
    hide EvalC, Factor, Divide, TimesFactor;
    if c == [0.0] {
      ZeroVanishes(p);
    } else {
      FactorUndoes(c, p);
      DivideAtRoot(TimesFactor(c, p), Jp(p));
      assert 0.0 * p == 0.0;
    }
  }

  lemma ZeroVanishes(p: real)
    ensures TimesFactor([0.0], p) == [0.0] && EvalC([0.0], Jp(p)) == Cx(0.0, 0.0)
  {
    EvalCUnfold([0.0], Jp(p));
  }

  /** What a sum of m s c and a multiple of the factor is at the pole. */
  lemma SumAtPole(c: seq<real>, odd: bool, m: real, d: seq<real>, p: real)
    requires Parity(c, odd) && Parity(d, !odd) && Canonical(d)
    ensures var e := Plus(Times(Raise(c, 1), m), TimesFactor(d, p));
            && Canonical(e) && Parity(e, !odd)
            && EvalC(e, Jp(p)) == CxScale(m, EvalC(Raise(c, 1), Jp(p)))
  {
    hide EvalC, Raise, Times, TimesFactor, CxScale, Parity;
    var a, f := Times(Raise(c, 1), m), TimesFactor(d, p);
    ParityRaise(c, odd);
    ParityTimes(Raise(c, 1), m, !odd);
    FactorParity(d, !odd, p);
    ParityPlus(a, f, !odd);
    EvalCTimes(Raise(c, 1), m, Jp(p));
    FactorVanishes(d, p);
    EvalCPlus(Plus(a, f), a, f, Jp(p));
  }

  /** From the complex value to the part that the extraction divides by. */
  lemma PartOf(e: seq<real>, c: seq<real>, odd: bool, m: real, p: real)
    requires p != 0.0 && Parity(c, odd) && Parity(e, !odd)
    requires EvalC(e, Jp(p)) == CxScale(m, EvalC(Raise(c, 1), Jp(p)))
    ensures PartAt(e, !odd, p) == if odd then m * (Pl(p) * PartAt(c, odd, p)) else m * PartAt(c, odd, p)
  {
    hide EvalC, PartAt, Raise, Pl;
    PartMeans(e, !odd, p);
    PartRaise(c, odd, p);
    if !odd {
      CancelLeft(p, PartAt(e, true, p), m, PartAt(c, false, p));
    }
  }

  lemma CancelLeft(p: real, a: real, m: real, b: real)
    requires p != 0.0 && p * a == m * (p * b)
    ensures a == m * b
  {
    assert p * a == p * (m * b);
  }

  // ----- extraction undoes one stage -----

  /** The network behind the stage does not vanish at the stage's pole. */
  ghost predicate Fits(st: Stage, b: Susceptance) {
    && st.p != 0.0 && st.v != 0.0 && st.w != 0.0
    && Lossless(b) && b.bn != [0.0]
    && BnAt(b, st.p) != 0.0
  }

  lemma StageShape(st: Stage, b: Susceptance)
    requires Fits(st, b)
    ensures var f := BehindStage(st, b);
            && Canonical(f.bn) && Canonical(f.bd)
            && Parity(f.bd, !BdEven(b)) && Parity(f.bn, BdEven(b))
            && PartAt(f.bd, !BdEven(b), st.p)
               == (if BdEven(b) then Inv(st.w) * (Pl(st.p) * BnAt(b, st.p)) else Inv(st.w) * BnAt(b, st.p))
            && PartAt(f.bn, BdEven(b), st.p)
               == (if BdEven(b) then st.v * PartAt(f.bd, false, st.p) else st.v * (Pl(st.p) * PartAt(f.bd, true, st.p)))
  {
    hide EvalC, PartAt, Raise, Times, TimesFactor, CxScale, Pl, Inv, Parity, Plus;
    var odd := BdEven(b);
    assert Parity(b.bn, odd) && Parity(b.bd, !odd) by { LosslessParity(b); }
    SumAtPole(b.bn, odd, Inv(st.w), b.bd, st.p);
    var f := BehindStage(st, b);
    PartOf(f.bd, b.bn, odd, Inv(st.w), st.p);
    SumAtPole(f.bd, !odd, st.v, b.bn, st.p);
    PartOf(f.bn, f.bd, !odd, st.v, st.p);
  }

  lemma LosslessParity(b: Susceptance)
    requires Lossless(b)
    ensures Parity(b.bn, BdEven(b)) && Parity(b.bd, !BdEven(b))
  {
  }

  /** The pieces in front of the stage do not vanish at the pole. */
  lemma StageValues(st: Stage, b: Susceptance)
    requires Fits(st, b)
    ensures var f := BehindStage(st, b);
            && PartAt(f.bd, !BdEven(b), st.p) != 0.0
            && Pl(st.p) * PartAt(f.bd, !BdEven(b), st.p) != 0.0
            && PartAt(f.bn, BdEven(b), st.p) != 0.0
            && PartAt(f.bd, !BdEven(b), st.p) * st.w
               == (if BdEven(b) then Pl(st.p) * BnAt(b, st.p) else BnAt(b, st.p))
  {
    hide PartAt, Pl, Inv, BehindStage;
    StageShape(st, b);
    var f, n, d := BehindStage(st, b), BnAt(b, st.p), PartAt(BehindStage(st, b).bd, !BdEven(b), st.p);
    PlNonZero(st.p);
    InverseFacts(st.w);
    ProductNonZero(Pl(st.p), n, Pl(st.p) * n);
    if BdEven(b) {
      ProductNonZero(Inv(st.w), Pl(st.p) * n, d);
      Undone(Inv(st.w), st.w, Pl(st.p) * n, d);
    } else {
      ProductNonZero(Inv(st.w), n, d);
      Undone(Inv(st.w), st.w, n, d);
    }
    ProductNonZero(Pl(st.p), d, Pl(st.p) * d);
    if BdEven(b) {
      ProductNonZero(st.v, d, PartAt(f.bn, BdEven(b), st.p));
    } else {
      ProductNonZero(st.v, Pl(st.p) * d, PartAt(f.bn, BdEven(b), st.p));
    }
  }

  lemma PlNonZero(p: real)
    requires p != 0.0
    ensures Pl(p) != 0.0
  {
    ProductNonZero(-p, p, Pl(p));
  }

  lemma InverseFacts(w: real)
    requires w != 0.0
    ensures Inv(w) != 0.0 && Inv(w) * w == 1.0
  {
  }

  lemma Undone(m: real, w: real, x: real, d: real)
    requires m * w == 1.0 && d == m * x
    ensures d * w == x
  {
    assert d * w == (m * w) * x;
  }

  lemma StageIsLossless(st: Stage, b: Susceptance)
    requires Fits(st, b)
    ensures Lossless(BehindStage(st, b)) && BdEven(BehindStage(st, b)) == BdEven(b)
  {
    hide BehindStage, EvalC, EvenAt, Inv, Pl;
    StageShape(st, b);
    StageValues(st, b);
    var f := BehindStage(st, b);
    NotZeroAt(f.bn, BdEven(b), st.p);
    NotZeroAt(f.bd, !BdEven(b), st.p);
    LosslessPair(f.bn, f.bd, BdEven(b));
  }

  lemma NotZeroAt(c: seq<real>, odd: bool, p: real)
    requires PartAt(c, odd, p) != 0.0
    ensures c != [0.0]
  {
    ZeroPart(odd, p);
  }

  lemma ZeroPart(odd: bool, p: real)
    ensures PartAt([0.0], odd, p) == 0.0
  {
    ParityAt([0.0], Pl(p));
  }

  /** Main result: removing the pole gives back the two values and the network behind them. */
  lemma ExtractionUndoes(st: Stage, b: Susceptance)
    requires Fits(st, b)
    ensures var f := BehindStage(st, b);
            && Extractable(f, st.p) && Next(f, st.p) == b
            && ShuntPart(f, st.p) == st.v && TrapPart(f, st.p) == st.w
  {
    hide PartAt, Pl, Inv, BehindStage, ShuntPart;
    hide TrapPart, Lossless, Fits, ShiftedNumerator, ShiftedDenominator, Factor;
    FitsNonZero(st, b);
    var f := BehindStage(st, b);
    StageIsLossless(st, b);
    StageShape(st, b);
    StageValues(st, b);
    assert Divisible(f, st.p);
    ShuntUndone(st, b, f);
    NumeratorUndone(st, b);
    TrapUndone(st, b, f);
    DenominatorUndone(st, b);
  }

  lemma ShuntUndone(st: Stage, b: Susceptance, f: Susceptance)
    requires Divisible(f, st.p) && BdEven(f) == BdEven(b)
    requires PartAt(f.bn, BdEven(b), st.p)
          == (if BdEven(b) then st.v * PartAt(f.bd, false, st.p) else st.v * (Pl(st.p) * PartAt(f.bd, true, st.p)))
    ensures ShuntPart(f, st.p) == st.v
  {
    hide PartAt, Pl;
    DivideUnique(BnAt(f, st.p), ShuntDivisor(f, st.p), st.v);
  }

  lemma NumeratorUndone(st: Stage, b: Susceptance)
    requires Fits(st, b)
    ensures var f := BehindStage(st, b);
            && ShiftedNumerator(f, st.v) == TimesFactor(b.bn, st.p) != [0.0]
            && Factor(ShiftedNumerator(f, st.v), Jp(st.p)).q == b.bn
  {
    hide Times, Raise, Divide, TimesFactor;
    var f := BehindStage(st, b);
    PlusMinus(TimesFactor(b.bn, st.p), Times(Raise(f.bd, 1), st.v));
    FactorUndoes(b.bn, st.p);
  }

  lemma TrapUndone(st: Stage, b: Susceptance, f: Susceptance)
    requires Divisible(f, st.p) && BdEven(f) == BdEven(b) && NextNumerator(f, st.p) == b.bn
    requires PartAt(f.bd, !BdEven(b), st.p) * st.w == (if BdEven(b) then Pl(st.p) * BnAt(b, st.p) else BnAt(b, st.p))
    ensures TrapPart(f, st.p) == st.w
  {
    hide PartAt, Pl, NextNumerator;
    var n := BnAt(b, st.p);
    if BdEven(b) {
      DivideUnique(Pl(st.p) * n, BdAt(f, st.p), st.w);
    } else {
      DivideUnique(n, BdAt(f, st.p), st.w);
    }
  }

  lemma DenominatorUndone(st: Stage, b: Susceptance)
    requires Fits(st, b)
    ensures var d := ShiftedDenominator(BehindStage(st, b).bd, b.bn, st.w);
            (if |d| == 1 then d else Factor(d, Jp(st.p)).q) == b.bd
  {
    hide Times, Raise, Divide, TimesFactor, Inv;
    var f := BehindStage(st, b);
    PlusMinus(TimesFactor(b.bd, st.p), Times(Raise(b.bn, 1), Inv(st.w)));
    if b.bd == [0.0] {
      ZeroVanishes(st.p);
    } else {
      FactorUndoes(b.bd, st.p);
    }
  }

  // ----- and a whole ladder -----

  function Poles(sts: seq<Stage>): (ps: seq<real>)
    ensures |ps| == |sts|
  {
    seq(|sts|, i requires 0 <= i < |sts| => sts[i].p)
  }

  /** The susceptance of the stages in front of r. */
  ghost function Build(sts: seq<Stage>, r: Susceptance): Susceptance
    decreases |sts|
  {
    if sts == [] then r
    else
      var b := Build(sts[1..], r);
      if sts[0].w == 0.0 then b else BehindStage(sts[0], b)
  }

  ghost predicate AllFit(sts: seq<Stage>, r: Susceptance)
    decreases |sts|
  {
    sts != [] ==> Fits(sts[0], Build(sts[1..], r)) && AllFit(sts[1..], r)
  }

  function StageCells(sts: seq<Stage>, ws: real, dual: bool): seq<Cmp>
    requires forall i :: 0 <= i < |sts| ==> sts[i].w * Pl(sts[i].p) != 0.0
    decreases |sts|
  {
    if sts == [] then [] else Cell(StageValue(sts[0], ws), dual) + StageCells(sts[1..], ws, dual)
  }

  /** The shunt element v, and a trap of capacitor w that resonates at p; both at scale ws. */
  function StageValue(st: Stage, ws: real): Triple
    requires st.w * Pl(st.p) != 0.0
  {
    Triple(st.v * ws, st.w * ws, -ws / (st.w * Pl(st.p)))
  }

  /** Main result: synthesis undoes analysis.  Whatever cells a ladder was built from, removing
      its poles in their order gives those cells back, and the network they stood in front of. */
  lemma {:induction false} SynthesisUndoesAnalysis(sts: seq<Stage>, r: Susceptance, ws: real, dual: bool)
    requires AllFit(sts, r)
    requires forall i :: 0 <= i < |sts| ==> sts[i].w * Pl(sts[i].p) != 0.0
    ensures Regular(Build(sts, r), Poles(sts))
    ensures Remainder(Build(sts, r), Poles(sts)) == r
    ensures Cells(Build(sts, r), Poles(sts), ws, dual) == StageCells(sts, ws, dual)
    decreases |sts|
  {
    hide Fits, BehindStage, Extractable, Next, Pl, ShuntPart, TrapPart, StageValue, Removed, Cell;
    if sts != [] {
      var b := Build(sts[1..], r);
      SynthesisUndoesAnalysis(sts[1..], r, ws, dual);
      ExtractionUndoes(sts[0], b);
      assert sts[0].w != 0.0 by { FitsNonZero(sts[0], b); }
      assert Poles(sts)[1..] == Poles(sts[1..]);
      RemovedIs(Build(sts, r), sts[0], ws);
    }
  }

  lemma FitsNonZero(st: Stage, b: Susceptance)
    requires Fits(st, b)
    ensures st.w != 0.0 && st.p != 0.0 && st.v != 0.0
  {
  }

  lemma RemovedIs(f: Susceptance, st: Stage, ws: real)
    requires Extractable(f, st.p) && ShuntPart(f, st.p) == st.v && TrapPart(f, st.p) == st.w
    requires st.w * Pl(st.p) != 0.0
    ensures Removed(f, st.p, ws) == StageValue(st, ws)
  {
    hide ShuntPart, TrapPart, Pl, ShuntDivisor, BdAt, NextNumerator, ShiftedNumerator;
  }
}
