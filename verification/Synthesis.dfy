/** A run of pole extractions, pole after pole, and the ladder it emits. */
module Synthesis {
  import opened RealMath
  import opened PolyMath
  import opened Ladder
  import opened Extraction

  /** Every pole of the list can be removed when its turn comes. */
  ghost predicate Regular(b: Susceptance, ps: seq<real>)
    decreases |ps|
  {
    ps != [] ==> Extractable(b, ps[0]) && Regular(Next(b, ps[0]), ps[1..])
  }

  /** What is left after the whole list. */
  ghost function Remainder(b: Susceptance, ps: seq<real>): Susceptance
    requires Regular(b, ps)
    decreases |ps|
  {
    if ps == [] then b else Remainder(Next(b, ps[0]), ps[1..])
  }

  /** The components removed on the way. */
  ghost function Cells(b: Susceptance, ps: seq<real>, ws: real, dual: bool): seq<Cmp>
    requires Regular(b, ps)
    decreases |ps|
  {
    if ps == [] then []
    else Cell(Removed(b, ps[0], ws), dual) + Cells(Next(b, ps[0]), ps[1..], ws, dual)
  }

  ghost predicate Negative(b: Susceptance, p: real)
    requires Extractable(b, p)
  {
    ShuntPart(b, p) < 0.0 || TrapPart(b, p) < 0.0
  }

  /** That is, exactly if one of the three components is; the two of the trap always have the same sign. */
  lemma NegativeIsComponent(b: Susceptance, p: real, ws: real)
    requires Extractable(b, p) && ws > 0.0
    ensures var t := Removed(b, p, ws);
            && (Negative(b, p) <==> t.v < 0.0 || t.w1 < 0.0 || t.w2 < 0.0)
            && (t.w1 < 0.0 <==> t.w2 < 0.0) && t.v != 0.0 && t.w1 != 0.0 && t.w2 != 0.0
  {
    hide ShuntPart, TrapPart, Extractable, Divisible, ShuntDivisor, Pl, Removed;
    ExtractableParts(b, p);
    SquareNonZero(TrapPart(b, p), p);
    RemovedParts(b, p, ws);
    TripleSigns(ShuntPart(b, p), TrapPart(b, p), p, ws, Removed(b, p, ws));
  }

  lemma RemovedParts(b: Susceptance, p: real, ws: real)
    requires Extractable(b, p) && Divisible(b, p) && ShuntDivisor(b, p) != 0.0 && TrapPart(b, p) * Pl(p) != 0.0
    ensures Removed(b, p, ws)
         == Triple(ShuntPart(b, p) * ws, TrapPart(b, p) * ws, -ws / (TrapPart(b, p) * Pl(p)))
  {
    hide ShuntPart, TrapPart, Extractable, Divisible, ShuntDivisor, Pl;
  }

  lemma ExtractableParts(b: Susceptance, p: real)
    requires Extractable(b, p)
    ensures Divisible(b, p) && ShuntDivisor(b, p) != 0.0
    ensures p != 0.0 && ShuntPart(b, p) != 0.0 && TrapPart(b, p) != 0.0
  {
    hide ShuntPart, TrapPart;
  }

  lemma TripleSigns(v: real, w: real, p: real, ws: real, t: Triple)
    requires v != 0.0 && w != 0.0 && p != 0.0 && ws > 0.0 && w * Pl(p) != 0.0
    requires t == Triple(v * ws, w * ws, -ws / (w * Pl(p)))
    ensures t.v != 0.0 && t.w1 != 0.0 && t.w2 != 0.0
    ensures (t.v < 0.0 <==> v < 0.0) && (t.w1 < 0.0 <==> w < 0.0) && (t.w2 < 0.0 <==> w < 0.0)
  {
    ScaledSign(v, ws, t.v);
    ScaledSign(w, ws, t.w1);
    TrapSign(w, p, ws, w * Pl(p), t.w2);
  }

  lemma ScaledSign(v: real, ws: real, q: real)
    requires ws > 0.0 && q == v * ws && v != 0.0
    ensures q != 0.0 && (q < 0.0 <==> v < 0.0)
  {
    if v < 0.0 { ProductIncreases(v, 0.0, ws); } else { ProductPositive(v, ws, q); }
  }

  lemma TrapSign(w: real, p: real, ws: real, d: real, q: real)
    requires ws > 0.0 && p != 0.0 && w != 0.0 && d == w * Pl(p) && d != 0.0 && q == -ws / d
    ensures q != 0.0 && (q < 0.0 <==> w < 0.0)
  {
    assert q * d == -ws;
    if p > 0.0 { ProductPositive(p, p, p * p); } else { ProductPositive(-p, -p, p * p); }
    assert Pl(p) == -(p * p);
    ScaledSign(w, p * p, w * (p * p));
    assert d == -(w * (p * p));
    if q > 0.0 && d > 0.0 { ProductPositive(q, d, q * d); }
    if q < 0.0 && d < 0.0 { ProductPositive(-q, -d, q * d); }
  }

  /** Some removed value is negative. */
  ghost predicate AnyNegative(b: Susceptance, ps: seq<real>)
    requires Regular(b, ps)
    decreases |ps|
  {
    ps != [] && (Negative(b, ps[0]) || AnyNegative(Next(b, ps[0]), ps[1..]))
  }

  /** Every pole can be removed in its turn, until an optimising synthesis meets a negative value. */
  ghost predicate Proceeds(b: Susceptance, ps: seq<real>, optc: bool)
    decreases |ps|
  {
    ps != [] ==>
      && Extractable(b, ps[0])
      && ((optc && Negative(b, ps[0])) || Proceeds(Next(b, ps[0]), ps[1..], optc))
  }

  /** An optimising synthesis gives up at the first negative value. */
  ghost predicate GivesUp(b: Susceptance, ps: seq<real>, optc: bool)
    requires Proceeds(b, ps, optc)
    decreases |ps|
  {
    optc && ps != [] && (Negative(b, ps[0]) || GivesUp(Next(b, ps[0]), ps[1..], optc))
  }

  /** If it does not give up, all poles can be removed. */
  lemma {:induction false} ProceedsToEnd(b: Susceptance, ps: seq<real>, optc: bool)
    requires Proceeds(b, ps, optc) && !GivesUp(b, ps, optc)
    ensures Regular(b, ps)
    decreases |ps|
  {
    hide Extractable, Next, Negative;
    if ps != [] { ProceedsToEnd(Next(b, ps[0]), ps[1..], optc); }
  }

  /** How many poles are removed before it gives up: those before the first negative value. */
  ghost function Removals(b: Susceptance, ps: seq<real>, optc: bool): (k: nat)
    requires Proceeds(b, ps, optc)
    ensures k <= |ps|
    decreases |ps|
  {
    if ps == [] || (optc && Negative(b, ps[0])) then 0 else 1 + Removals(Next(b, ps[0]), ps[1..], optc)
  }

  /** The components emitted until it gives up. */
  ghost function Emitted(b: Susceptance, ps: seq<real>, ws: real, dual: bool, optc: bool): seq<Cmp>
    requires Proceeds(b, ps, optc)
    decreases |ps|
  {
    if ps == [] || (optc && Negative(b, ps[0])) then []
    else Cell(Removed(b, ps[0], ws), dual) + Emitted(Next(b, ps[0]), ps[1..], ws, dual, optc)
  }

  /** They are the cells of the poles that were removed, of which none has a negative value while
      optimising; it gives up exactly if some pole is not removed, and the first of these is the one
      with a negative value. */
  lemma {:induction false} EmittedIs(b: Susceptance, ps: seq<real>, ws: real, dual: bool, optc: bool)
    requires Proceeds(b, ps, optc)
    ensures var qs := ps[..Removals(b, ps, optc)];
            && Regular(b, qs) && !(optc && AnyNegative(b, qs))
            && Emitted(b, ps, ws, dual, optc) == Cells(b, qs, ws, dual)
    ensures GivesUp(b, ps, optc) <==> Removals(b, ps, optc) < |ps|
    ensures var k := Removals(b, ps, optc);
            k < |ps| ==> var r := Remainder(b, ps[..k]); optc && Extractable(r, ps[k]) && Negative(r, ps[k])
    decreases |ps|
  {
    hide Extractable, Next, Negative, Removed, Cell;
    var k := Removals(b, ps, optc);
    if k == 0 {
      assert ps[..0] == [];
    } else {
      EmittedIs(Next(b, ps[0]), ps[1..], ws, dual, optc);
      assert ps[..k][0] == ps[0] && ps[..k][1..] == ps[1..][..k - 1];
    }
  }

  /** If all poles can be removed, it gives up exactly for a negative value while optimising. */
  lemma {:induction false} GivesUpExactly(b: Susceptance, ps: seq<real>, optc: bool)
    requires Regular(b, ps)
    ensures Proceeds(b, ps, optc) && (GivesUp(b, ps, optc) <==> optc && AnyNegative(b, ps))
    decreases |ps|
  {
    hide Extractable, Next, Negative;
    if ps != [] { GivesUpExactly(Next(b, ps[0]), ps[1..], optc); }
  }

  function SquareProduct(ps: seq<real>): real
    decreases |ps|
  {
    if ps == [] then 1.0 else SquareProduct(ps[1..]) * (ps[0] * ps[0])
  }

  lemma ScaleTwice(a: real, b: real, ab: real, r: Ratio)
    requires ab == b * a
    ensures Scale(a, Scale(b, r)) == Scale(ab, r)
  {
  }

  /** The emitted cells in front of the remainder have the susceptance of the start, whatever
      poles were removed and in whatever order. */
  lemma {:induction false} CellsRestore(b: Susceptance, ps: seq<real>, ws: real, s: real, dual: bool)
    requires Regular(b, ps)
    ensures Scale(SquareProduct(ps),
                  Input(Cells(b, ps, ws, dual), s, Oriented(ValueOf(Remainder(b, ps), ws * s), dual)))
         == Oriented(ValueOf(b, ws * s), dual)
    decreases |ps|
  {
    hide Extractable, Removed, Next, Cell, Oriented, ValueOf, Before;
    if ps == [] {
      var y := Oriented(ValueOf(b, ws * s), dual);
      assert Scale(1.0, y) == y;
    } else {
      hide Scale;
      var p, b', rest := ps[0], Next(b, ps[0]), ps[1..];
      CellsRestore(b', rest, ws, s, dual);
      CellRestores(b, p, ws, s, dual);
      var c, cs := Cell(Removed(b, p, ws), dual), Cells(b', rest, ws, dual);
      var y := Oriented(ValueOf(Remainder(b', rest), ws * s), dual);
      var m := SquareProduct(rest);
      InputAppend(c, cs, s, y);
      InputScale(c, s, m, Input(cs, s, y));
      ScaleTwice(p * p, m, SquareProduct(ps), Input(c, s, Input(cs, s, y)));
    }
  }

  /** So what a synthesis emits before it gives up has the susceptance of the start only in front of
      the network that it did not synthesise. */
  lemma GivenUpMeans(b: Susceptance, ps: seq<real>, ws: real, s: real, dual: bool, optc: bool)
    requires Proceeds(b, ps, optc)
    ensures var qs := ps[..Removals(b, ps, optc)];
            && Regular(b, qs)
            && Scale(SquareProduct(qs),
                     Input(Emitted(b, ps, ws, dual, optc), s, Oriented(ValueOf(Remainder(b, qs), ws * s), dual)))
            == Oriented(ValueOf(b, ws * s), dual)
  {
    hide *;
    EmittedIs(b, ps, ws, dual, optc);
    CellsRestore(b, ps[..Removals(b, ps, optc)], ws, s, dual);
  }

  /** Each pole takes two degrees. */
  lemma {:induction false} RemainderSize(b: Susceptance, ps: seq<real>, n: nat)
    requires Regular(b, ps) && Lossless(b)
    requires |b.bd| < n && |b.bn| <= n && n >= 2 * |ps| + 2
    requires BdEven(b) || Remainder(b, ps).bd != [0.0]
    ensures var r := Remainder(b, ps);
            Lossless(r) && BdEven(r) == BdEven(b) && |r.bn| <= n - 2 * |ps| && |r.bd| < n - 2 * |ps|
    decreases |ps|
  {
    hide Extractable, Lossless, BdEven;
    if ps != [] {
      var b' := Next(b, ps[0]);
      if !(BdEven(b) || b'.bd != [0.0]) {
        ZeroStaysZero(b', ps[1..]);
      }
      NextIsLossless(b, ps[0], n);
      RemainderSize(b', ps[1..], n - 2);
    }
  }

  /** Once the denominator is zero there is nothing more to extract. */
  lemma ZeroStaysZero(b: Susceptance, ps: seq<real>)
    requires Regular(b, ps) && b.bd == [0.0]
    ensures Remainder(b, ps).bd == [0.0]
  {
    if ps != [] {
      ParityAt([0.0], Pl(ps[0]));
      assert false;
    }
  }

  // ----- whole ladders: the cells, the final element or elements, and the end mark -----

  /** What is left of an odd-order filter, a1 s / d0, is one more shunt capacitor. */
  predicate EndsOdd(r: Susceptance) {
    |r.bn| == 2 && r.bn[0] == 0.0 && |r.bd| == 1 && r.bd[0] != 0.0
  }

  /** What is left of an even-order filter, (a0 + a2 s^2) / (d1 s), is a capacitor and, unless a0 is
      zero, an inductor. */
  predicate TopEven(r: Susceptance) {
    |r.bn| == 3 && r.bn[1] == 0.0 && |r.bd| == 2 && r.bd[0] == 0.0 && r.bd[1] != 0.0
  }

  predicate EndsEven(r: Susceptance) {
    TopEven(r) && r.bn[0] != 0.0
  }

  function Shunt(v: real, dual: bool): Cmp {
    if dual then Ind(v, false, false) else Cap(v, true, true)
  }

  ghost function OddTail(r: Susceptance, ws: real, dual: bool): seq<Cmp>
    requires EndsOdd(r)
  {
    [Shunt(OddCap(r, ws), dual)]
  }

  function OddCap(r: Susceptance, ws: real): real
    requires EndsOdd(r)
  {
    ws * r.bn[1] / r.bd[0]
  }

  function EvenCap(r: Susceptance, ws: real): real
    requires TopEven(r)
  {
    r.bn[2] / r.bd[1] * ws
  }

  function EvenInd(r: Susceptance, ws: real): real
    requires EndsEven(r)
  {
    r.bd[1] * ws / r.bn[0]
  }

  ghost function EvenTail(r: Susceptance, ws: real, dual: bool): seq<Cmp>
    requires EndsEven(r)
  {
    [Shunt(EvenCap(r, ws), dual), Shunt(EvenInd(r, ws), !dual)]
  }

  /** The far end is open for odd orders, shorted for even ones; the dual network the other way round. */
  function FarEnd(odd: bool, dual: bool): Ratio {
    Oriented(if odd then Ratio(0.0, 1.0) else Ratio(1.0, 0.0), dual)
  }

  lemma EvalTwo(c: seq<real>, x: real)
    ensures |c| == 1 ==> Eval(c, x) == c[0]
    ensures |c| == 2 ==> Eval(c, x) == c[0] + x * c[1]
    ensures |c| == 3 ==> Eval(c, x) == c[0] + x * (c[1] + x * c[2])
  {
    EvalUnfold(c, x);
    EvalUnfold(Tail(c), x);
    EvalUnfold(Tail(Tail(c)), x);
  }

  lemma OnlyCap(v: real, s: real)
    ensures Before(Cap(v, true, true), s, Ratio(0.0, 1.0)) == Ratio(s * v, 1.0)
  {
  }

  lemma OnlyInd(v: real, s: real)
    ensures Before(Ind(v, false, false), s, Ratio(1.0, 0.0)) == Ratio(1.0, s * v)
  {
  }

  lemma OddTailMeans(r: Susceptance, ws: real, dual: bool, s: real)
    requires EndsOdd(r)
    ensures Scale(r.bd[0], Input(OddTail(r, ws, dual), s, FarEnd(true, dual))) == Oriented(ValueOf(r, ws * s), dual)
  {
    hide Eval, Before;
    var l, v := OddTail(r, ws, dual), OddCap(r, ws);
    assert l[1..] == [];
    assert Input(l, s, FarEnd(true, dual)) == Before(l[0], s, FarEnd(true, dual));
    EvalTwo(r.bn, ws * s);
    EvalTwo(r.bd, ws * s);
    OnlyCap(v, s);
    OnlyInd(v, s);
    assert Before(l[0], s, FarEnd(true, dual)) == Oriented(Ratio(s * v, 1.0), dual);
    OddValue(ws, r.bn[1], r.bd[0], s);
  }

  lemma OddValue(ws: real, a: real, d: real, s: real)
    requires d != 0.0
    ensures d * (s * (ws * a / d)) == ws * s * a
  {
    var v := ws * a / d;
    assert v * d == ws * a;
    assert d * (s * v) == s * (v * d);
  }

  lemma EvenTailMeans(r: Susceptance, ws: real, dual: bool, s: real)
    requires EndsEven(r)
    ensures Scale(r.bn[0], Input(EvenTail(r, ws, dual), s, FarEnd(false, dual))) == Oriented(ValueOf(r, ws * s), dual)
  {
    hide Eval, Before;
    hide EvenCap, EvenInd;
    var v, u := EvenCap(r, ws), EvenInd(r, ws);
    EvenBefore(v, u, s, dual);
    InputTwo(Shunt(v, dual), Shunt(u, !dual), s, FarEnd(false, dual));
    EvenScaled(r, ws, s, v, u);
  }

  lemma EvenBefore(v: real, u: real, s: real, dual: bool)
    ensures Before(Shunt(v, dual), s, Before(Shunt(u, !dual), s, FarEnd(false, dual)))
         == Oriented(Ratio(1.0 + s * u * (s * v), s * u), dual)
  {
    hide Before;
    OnlyInd(u, s);
    OnlyCap(u, s);
    BeforeCap(v, s, Ratio(1.0, s * u));
    BeforeInd(v, s, Ratio(s * u, 1.0));
  }

  lemma EvenScaled(r: Susceptance, ws: real, s: real, v: real, u: real)
    requires EndsEven(r) && v == EvenCap(r, ws) && u == EvenInd(r, ws)
    ensures Scale(r.bn[0], Ratio(1.0 + s * u * (s * v), s * u)) == ValueOf(r, ws * s)
  {
    hide Eval;
    EvalTwo(r.bn, ws * s);
    EvalTwo(r.bd, ws * s);
    EvenValues(r.bn[0], r.bd[1], r.bn[2], v, u, ws, s);
  }

  lemma EvenValues(e: real, d: real, a: real, v: real, u: real, ws: real, s: real)
    requires e != 0.0 && d != 0.0 && v == a / d * ws && u == d * ws / e
    ensures e * (s * u) == ws * s * d
    ensures e * (1.0 + s * u * (s * v)) == e + ws * s * (ws * s * a)
  {
    assert u * e == d * ws;
    assert e * (s * u) == s * (u * e);
    var q := a / d;
    assert q * d == a;
    assert e * (s * u * (s * v)) == (e * (s * u)) * (s * v);
    assert (ws * s * d) * (s * (q * ws)) == ws * s * (ws * s * (q * d));
  }

  /** The degrees of an odd-order filter with m finite poles. */
  predicate OddSized(b: Susceptance, m: nat) {
    Lossless(b) && BdEven(b) && |b.bn| <= 2 * m + 2 && |b.bd| <= 2 * m + 1
  }

  predicate EvenSized(b: Susceptance, m: nat) {
    Lossless(b) && !BdEven(b) && |b.bn| <= 2 * m + 3 && |b.bd| <= 2 * m + 2
  }

  /** An odd-order synthesis: every pole can be removed in its turn, and the final quotient
      BN(1) / BD(1) is no division by zero. */
  ghost predicate OddRun(b: Susceptance, ps: seq<real>) {
    Regular(b, ps) && OddSized(b, |ps|) && Eval(Remainder(b, ps).bd, 1.0) != 0.0
  }

  /** An even-order synthesis up to its last capacitor: likewise, with the assertion about the
      degrees that guards the removal of the pole at infinity. */
  ghost predicate EvenTop(b: Susceptance, ps: seq<real>) {
    && Regular(b, ps) && EvenSized(b, |ps|)
    && var r := Remainder(b, ps);
       r.bd != [0.0] && |r.bn| == |r.bd| + 1
  }

  /** And to the end: the constant that is left is not zero. */
  ghost predicate EvenRun(b: Susceptance, ps: seq<real>) {
    EvenTop(b, ps) && Remainder(b, ps).bn[0] != 0.0
  }

  /** The degrees leave no other form for what remains of an odd-order filter, and for that form
      the values at 1 are its coefficients. */
  lemma OddEnd(b: Susceptance, ps: seq<real>)
    requires OddRun(b, ps)
    ensures EndsOdd(Remainder(b, ps))
  {
    hide Extractable, Next, Regular, Remainder;
    var r := Remainder(b, ps);
    EvalTwo([0.0], 1.0);
    assert r.bd != [0.0];
    RemainderSize(b, ps, 2 * |ps| + 2);
    assert |r.bd| == 1 && r.bd == [r.bd[0]];
  }

  lemma EvenEnd(b: Susceptance, ps: seq<real>)
    requires EvenTop(b, ps)
    ensures TopEven(Remainder(b, ps)) && (EvenRun(b, ps) <==> EndsEven(Remainder(b, ps)))
  {
    hide Extractable, Next, Regular, Remainder;
    RemainderSize(b, ps, 2 * |ps| + 3);
  }

  /** Main result: the whole ladder, loaded as above, has the susceptance B(ws s) the synthesis
      started from; the dual ladder has it as impedance.  No sign or size assumption on s or on
      the components is needed. */
  lemma LadderMeans(b: Susceptance, ps: seq<real>, ws: real, dual: bool, tail: seq<Cmp>, f: real, k: real,
                    load: Ratio, s: real)
    requires Regular(b, ps) && k == Factored(f, ps)
    requires Scale(f, Input(tail, s, load)) == Oriented(ValueOf(Remainder(b, ps), ws * s), dual)
    ensures Scale(k, Input(Cells(b, ps, ws, dual) + tail + [End], s, load))
         == Oriented(ValueOf(b, ws * s), dual)
  {
    hide Scale, ValueOf, Remainder, SquareProduct, Input, Cells, Regular, Oriented;
    var c, m := Cells(b, ps, ws, dual), SquareProduct(ps);
    CellsRestore(b, ps, ws, s, dual);
    InputAppend(c + tail, [End], s, load);
    EndIsNothing(s, load);
    InputAppend(c, tail, s, load);
    InputScale(c, s, f, Input(tail, s, load));
    var y := Input(tail, s, load);
    assert Input(c + tail + [End], s, load) == Input(c, s, y);
    assert Scale(m, Input(c, s, Scale(f, y))) == Oriented(ValueOf(b, ws * s), dual);
    ScaleTwice(m, f, k, Input(c, s, y));
  }

  lemma EndIsNothing(s: real, y: Ratio)
    ensures Input([End], s, y) == y
  {
    assert [End][1..] == [];
  }

  /** The components of an odd-order ladder. */
  ghost function OddParts(b: Susceptance, ps: seq<real>, ws: real, dual: bool): seq<Cmp>
    requires OddRun(b, ps)
  {
    OddEnd(b, ps);
    Cells(b, ps, ws, dual) + OddTail(Remainder(b, ps), ws, dual)
  }

  ghost function EvenParts(b: Susceptance, ps: seq<real>, ws: real, dual: bool): seq<Cmp>
    requires EvenRun(b, ps)
  {
    EvenEnd(b, ps);
    Cells(b, ps, ws, dual) + EvenTail(Remainder(b, ps), ws, dual)
  }

  /** The capacitor that takes the pole at infinity. */
  ghost function LastCap(b: Susceptance, ps: seq<real>, ws: real): real
    requires EvenTop(b, ps)
  {
    EvenEnd(b, ps);
    EvenCap(Remainder(b, ps), ws)
  }

  ghost function OddLadder(b: Susceptance, ps: seq<real>, ws: real, dual: bool): seq<Cmp>
    requires OddRun(b, ps)
  {
    OddParts(b, ps, ws, dual) + [End]
  }

  ghost function EvenLadder(b: Susceptance, ps: seq<real>, ws: real, dual: bool): seq<Cmp>
    requires EvenRun(b, ps)
  {
    EvenParts(b, ps, ws, dual) + [End]
  }

  /** The factor f of a tail, and that of the cells in front of it. */
  function Factored(f: real, ps: seq<real>): real {
    f * SquareProduct(ps)
  }

  /** The common factor between the ladder's ratio and BN : BD. */
  ghost function OddFactor(b: Susceptance, ps: seq<real>): real
    requires OddRun(b, ps)
  {
    OddEnd(b, ps);
    Factored(Remainder(b, ps).bd[0], ps)
  }

  ghost function EvenFactor(b: Susceptance, ps: seq<real>): real
    requires EvenRun(b, ps)
  {
    Factored(Remainder(b, ps).bn[0], ps)
  }

  lemma FactoredNonZero(f: real, ps: seq<real>)
    requires f != 0.0 && SquareProduct(ps) != 0.0
    ensures Factored(f, ps) != 0.0
  {
    hide SquareProduct;
    ProductNonZero(f, SquareProduct(ps), Factored(f, ps));
  }

  lemma OddFactorIs(b: Susceptance, ps: seq<real>)
    requires OddRun(b, ps)
    ensures Regular(b, ps) && EndsOdd(Remainder(b, ps))
    ensures |Remainder(b, ps).bd| == 1 && Remainder(b, ps).bd[0] != 0.0
    ensures OddFactor(b, ps) == Factored(Remainder(b, ps).bd[0], ps)
  {
    OddEnd(b, ps);
    hide Regular, Remainder, OddSized, Eval, Factored;
  }

  lemma OddLadderIs(b: Susceptance, ps: seq<real>, ws: real, dual: bool)
    requires OddRun(b, ps) && Regular(b, ps) && EndsOdd(Remainder(b, ps))
    ensures OddLadder(b, ps, ws, dual) == Cells(b, ps, ws, dual) + OddTail(Remainder(b, ps), ws, dual) + [End]
    ensures OddParts(b, ps, ws, dual) == Cells(b, ps, ws, dual) + OddTail(Remainder(b, ps), ws, dual)
  {
    hide OddRun, Regular, Remainder, EndsOdd, OddTail, Cells;
  }

  lemma EvenFactorIs(b: Susceptance, ps: seq<real>)
    requires EvenRun(b, ps)
    ensures Regular(b, ps) && EndsEven(Remainder(b, ps))
    ensures |Remainder(b, ps).bn| == 3 && Remainder(b, ps).bn[0] != 0.0
    ensures EvenFactor(b, ps) == Factored(Remainder(b, ps).bn[0], ps)
  {
    EvenEnd(b, ps);
    hide Regular, Remainder, EvenSized, Factored;
  }

  lemma EvenLadderIs(b: Susceptance, ps: seq<real>, ws: real, dual: bool)
    requires EvenRun(b, ps) && Regular(b, ps) && EndsEven(Remainder(b, ps))
    ensures EvenLadder(b, ps, ws, dual) == Cells(b, ps, ws, dual) + EvenTail(Remainder(b, ps), ws, dual) + [End]
    ensures EvenParts(b, ps, ws, dual) == Cells(b, ps, ws, dual) + EvenTail(Remainder(b, ps), ws, dual)
    ensures LastCap(b, ps, ws) == EvenCap(Remainder(b, ps), ws)
  {
    hide EvenRun, Regular, Remainder, EndsEven, EvenTail, Cells;
  }

  /** The factor is never zero, so nothing is lost by it. */
  lemma FactorsAreNonZero(b: Susceptance, ps: seq<real>)
    requires Regular(b, ps)
    ensures OddRun(b, ps) ==> OddFactor(b, ps) != 0.0
    ensures EvenRun(b, ps) ==> EvenFactor(b, ps) != 0.0
  {
    hide *;
    PolesAreNonZero(b, ps);
    SquareProductNonZero(ps);
    if OddRun(b, ps) {
      OddFactorIs(b, ps);
      FactoredNonZero(Remainder(b, ps).bd[0], ps);
    }
    if EvenRun(b, ps) {
      EvenFactorIs(b, ps);
      FactoredNonZero(Remainder(b, ps).bn[0], ps);
    }
  }

  lemma {:induction false} PolesAreNonZero(b: Susceptance, ps: seq<real>)
    requires Regular(b, ps)
    ensures forall i :: 0 <= i < |ps| ==> ps[i] != 0.0
    decreases |ps|
  {
    hide Next, ShuntPart, TrapPart, ShuntDivisor, BdAt;
    if ps != [] {
      PolesAreNonZero(Next(b, ps[0]), ps[1..]);
      forall i | 0 <= i < |ps| ensures ps[i] != 0.0 {
        if i > 0 { assert ps[i] == ps[1..][i - 1]; }
      }
    }
  }

  lemma {:induction false} SquareProductNonZero(ps: seq<real>)
    requires forall i :: 0 <= i < |ps| ==> ps[i] != 0.0
    ensures SquareProduct(ps) != 0.0
    decreases |ps|
  {
    if ps != [] {
      SquareProductNonZero(ps[1..]);
      var q := ps[0] * ps[0];
      ProductNonZero(ps[0], ps[0], q);
      ProductNonZero(SquareProduct(ps[1..]), q, SquareProduct(ps));
    }
  }

  lemma OddLadderMeans(b: Susceptance, ps: seq<real>, ws: real, dual: bool, s: real)
    requires OddRun(b, ps)
    ensures Scale(OddFactor(b, ps), Input(OddLadder(b, ps, ws, dual), s, FarEnd(true, dual)))
         == Oriented(ValueOf(b, ws * s), dual)
  {
    hide *;
    OddFactorIs(b, ps);
    OddLadderIs(b, ps, ws, dual);
    var r := Remainder(b, ps);
    OddTailMeans(r, ws, dual, s);
    LadderMeans(b, ps, ws, dual, OddTail(r, ws, dual), r.bd[0], OddFactor(b, ps), FarEnd(true, dual), s);
  }

  lemma EvenLadderMeans(b: Susceptance, ps: seq<real>, ws: real, dual: bool, s: real)
    requires EvenRun(b, ps)
    ensures Scale(EvenFactor(b, ps), Input(EvenLadder(b, ps, ws, dual), s, FarEnd(false, dual)))
         == Oriented(ValueOf(b, ws * s), dual)
  {
    hide *;
    EvenFactorIs(b, ps);
    EvenLadderIs(b, ps, ws, dual);
    var r := Remainder(b, ps);
    EvenTailMeans(r, ws, dual, s);
    LadderMeans(b, ps, ws, dual, EvenTail(r, ws, dual), r.bn[0], EvenFactor(b, ps), FarEnd(false, dual), s);
  }
}
