/** Synthesis of the filters with finite attenuation poles: elliptic filters of odd and even
    order, and inverse Chebyshev filters. */
module Cauer {
  import opened RealMath
  import opened PolyMath
  import opened QfPoly
  import opened Ladder
  import opened Extraction
  import opened Continued
  import opened Synthesis
  import opened Filter
  import opened PoleOrder

  /** Every pole number has an entry in the table of zeros, and the entry is not zero. */
  predicate OddPolesFit(zr: seq<real>, pole: seq<nat>) {
    forall k :: 0 <= k < |pole| ==> 2 * pole[k] + 2 < |zr| && zr[2 * pole[k] + 2] != 0.0
  }

  predicate EvenPolesFit(zr: seq<real>, pole: seq<nat>, typeB: bool, sqrt: real -> real) {
    forall k :: 0 <= k < |pole| ==> 2 * pole[k] + 4 < |zr| && EvenPole(zr, pole[k], typeB, sqrt) != 0.0
  }

  /** The attenuation poles in the order in which an odd-order elliptic filter removes them. */
  function OddPoles(zr: seq<real>, pole: seq<nat>): (ps: seq<real>)
    requires OddPolesFit(zr, pole)
    ensures |ps| == |pole|
  {
    seq(|pole|, k requires 0 <= k < |pole| => 1.0 / zr[2 * pole[k] + 2])
  }

  /** For even orders a type b filter has its own poles, any other the mean of two neighbours;
      pl is that value as a function of the pole number. */
  function EvenPole(zr: seq<real>, n: nat, typeB: bool, sqrt: real -> real): real
    requires 2 * n + 4 < |zr|
  {
    if typeB then zr[2 * n + 3] else sqrt(zr[2 * n + 2] * zr[2 * n + 4])
  }

  function EvenPoles(zr: seq<real>, pole: seq<nat>, typeB: bool, sqrt: real -> real): (ps: seq<real>)
    requires EvenPolesFit(zr, pole, typeB, sqrt)
    ensures |ps| == |pole|
  {
    seq(|pole|, k requires 0 <= k < |pole| => 1.0 / EvenPole(zr, pole[k], typeB, sqrt))
  }

  /** A pole is the inverse of its entry in the table of zeros, or, for even orders, of the geometric
      mean of two entries. */
  lemma PolesAre(zr: seq<real>, pole: seq<nat>, typeB: bool, sqrt: real -> real, k: nat)
    requires k < |pole|
    ensures OddPolesFit(zr, pole) ==> OddPoles(zr, pole)[k] * zr[2 * pole[k] + 2] == 1.0
    ensures EvenPolesFit(zr, pole, typeB, sqrt) && typeB ==>
              EvenPoles(zr, pole, typeB, sqrt)[k] * zr[2 * pole[k] + 3] == 1.0
    ensures EvenPolesFit(zr, pole, typeB, sqrt) && !typeB && IsSqrt(sqrt)
            && zr[2 * pole[k] + 2] * zr[2 * pole[k] + 4] >= 0.0 ==>
              var p := EvenPoles(zr, pole, typeB, sqrt)[k];
              p * p * (zr[2 * pole[k] + 2] * zr[2 * pole[k] + 4]) == 1.0
  {
    if OddPolesFit(zr, pole) { DivideBack(1.0, zr[2 * pole[k] + 2]); }
    if EvenPolesFit(zr, pole, typeB, sqrt) {
      var e := EvenPole(zr, pole[k], typeB, sqrt);
      var p := EvenPoles(zr, pole, typeB, sqrt)[k];
      assert p == 1.0 / e;
      DivideBack(1.0, e);
      SquareBack(p, e, e * e);
    }
  }

  lemma SquareBack(p: real, e: real, q: real)
    requires p * e == 1.0 && q == e * e
    ensures p * p * q == 1.0
  {
    assert p * p * (e * e) == (p * e) * (p * e);
  }

  class QfCauer {
    const filter: QfFilter
    const BNc: Poly
    const BDc: Poly
    const ws: real
    const dual: bool
    const optc: bool
    const zr: seq<real>
    var pole: seq<nat>

    predicate Valid()
      reads this, filter, filter.BN, filter.BD, BNc, BDc
    {
      && filter.Valid() && BNc.Valid() && BDc.Valid()
      && {BNc, BDc} !! {filter.BN, filter.BD}
    }

    /** The susceptance computed once and kept for every order of removal that is tried. */
    function Kept(): Susceptance
      requires BNc.Valid() && BDc.Valid()
      reads this, BNc, BDc
    {
      Susceptance(BNc.Coef(), BDc.Coef())
    }

    constructor (f: QfFilter, bn: Poly, bd: Poly, w: real, d: bool, opt: bool, z: seq<real>, p: seq<nat>)
      requires f.Valid() && bn.Valid() && bd.Valid() && {bn, bd} !! {f.BN, f.BD}
      ensures Valid() && filter == f && BNc == bn && BDc == bd && pole == p && zr == z
    {
      filter, BNc, BDc, ws, dual, optc, zr, pole := f, bn, bd, w, d, opt, z, p;
    }

    method StartOver()
      requires Valid()
      modifies filter`lcmp, filter.BN, filter.BD
      ensures Valid() && Kept() == old(Kept()) && filter.B() == Kept() && filter.lcmp == []
    {
      filter.BN.Assign(BNc);
      filter.BD.Assign(BDc);
      filter.lcmp := [];
    }

    /** One round of a synthesis loop: removes the pole jp, appends its two components, and,
        when cleaning, clears the coefficients of the wrong parity.  Tells whether to give up. */
    method RemovePole(p: real, scale: real, opt: bool, odd: bool, clean: bool,
                      ghost rest: seq<real>, ghost b: Susceptance, ghost ps: seq<real>) returns (stop: bool)
      requires Valid() && rest != [] && rest[0] == p && odd == BdEven(filter.B())
      requires Under(filter.B(), rest, b, ps, filter.lcmp, scale, dual, opt)
      modifies filter`lcmp, filter.BN, filter.BD
      ensures Valid() && Kept() == old(Kept())
      ensures stop ==> opt && Proceeds(b, ps, opt) && GivesUp(b, ps, opt)
      ensures stop ==> filter.lcmp == Emitted(b, ps, scale, dual, opt)
      ensures !stop ==> Under(filter.B(), rest[1..], b, ps, filter.lcmp, scale, dual, opt)
      ensures !stop && odd ==> BdEven(filter.B())
      ensures !stop && !odd ==> !BdEven(filter.B()) || filter.B().bd == [0.0]
    {
      hide Under, Proceeds, GivesUp, Emitted, Extractable, Extraction.Next, Removed, ShuntPart, TrapPart;
      hide Odds, Sieve, Trim, Canonical, Poly.Valid, Poly.Coef;
      ghost var cur := filter.B();
      UnderNext(cur, rest, b, ps, filter.lcmp, scale, dual, opt);
      var neg, trp := filter.PoleFinite(p, scale);
      if neg && opt { return true; }
      filter.lcmp := filter.lcmp + Cell(trp, dual);
      StepParity(cur, p);
      if clean { ClearOtherParity(odd); }
      return false;
    }

    /** Meant against round-off; on a network of the right parity it changes nothing. */
    method ClearOtherParity(odd: bool)
      requires Valid()
      requires RightParity(filter.B(), odd)
      modifies filter.BN, filter.BD
      ensures Valid() && Kept() == old(Kept()) && filter.B() == old(filter.B())
    {
      hide Trim, Sieve, Odds, Canonical;
      if odd {
        filter.BN.KeepOdd();
        filter.BD.KeepEven();
      } else {
        filter.BN.KeepEven();
        filter.BD.KeepOdd();
      }
    }

    /** Odd orders.  The synthesis is given up only when it optimises and a removed value is
        negative, and then leaves the cells before that; otherwise the list is the ladder whose
        meaning OddLadderMeans states. */
    method SynthOdd() returns (ok: bool)
      requires Valid()
      requires OddPolesFit(zr, pole)
      requires OddPlan(Kept(), OddPoles(zr, pole), optc)
      modifies filter`lcmp, filter.BN, filter.BD
      ensures Valid() && Kept() == old(Kept())
      ensures ok == !GivesUp(Kept(), OddPoles(zr, pole), optc)
      ensures ok ==> filter.lcmp == OddLadder(Kept(), OddPoles(zr, pole), ws, dual)
      ensures !ok ==> filter.lcmp == Emitted(Kept(), OddPoles(zr, pole), ws, dual, optc)
    {
      hide Under, Regular, Remainder, Proceeds, GivesUp, Emitted, OddPoles, OddLadder, OddRun, EndsOdd, BdEven;
      hide Poly.Coef, Poly.Valid, QfFilter.Valid, QfFilter.B, QfCauer.Kept;
      ghost var b, ps := Kept(), OddPoles(zr, pole);
      StartOver();
      UnderStart(b, ps, ws, dual, optc);
      for k := 0 to |pole|
        invariant Valid() && Kept() == b && BdEven(filter.B())
        invariant Under(filter.B(), ps[k..], b, ps, filter.lcmp, ws, dual, optc)
      {
        OddPoleIs(zr, pole, k);
        var pl := zr[2 * pole[k] + 2];
        var stop := RemovePole(1.0 / pl, ws, optc, true, true, ps[k..], b, ps);
        if stop { return false; }
        assert ps[k..][1..] == ps[k + 1..];
      }
      UnderEnd(filter.B(), b, ps, filter.lcmp, ws, dual, optc);
      OddRunStart(b, ps);
      EmitLast(ws, b, ps, ws);
      ok := true;
    }

    /** The last component of an odd-order ladder and the end mark. */
    method EmitLast(scale: real, ghost b: Susceptance, ghost ps: seq<real>, ghost w: real)
      requires Valid() && scale == w
      requires OddRun(b, ps) && Regular(b, ps) && Remainder(b, ps) == filter.B() && EndsOdd(filter.B())
      requires filter.lcmp == Cells(b, ps, w, dual)
      modifies filter`lcmp
      ensures Valid() && Kept() == old(Kept())
      ensures filter.lcmp == OddLadder(b, ps, w, dual)
    {
      hide Regular, Remainder, Cells, Eval, OddRun, OddLadder;
      OddLadderIs(b, ps, w, dual);
      OddValues(filter.B());
      var n := filter.BN.ValueAt(1.0);
      var d := filter.BD.ValueAt(1.0);
      var last := scale * n / d;
      assert last == OddCap(filter.B(), w);
      filter.lcmp := filter.lcmp + [if dual then Ind(last, false, false) else Cap(last, true, true)];
      filter.lcmp := filter.lcmp + [End];
    }

    /** Even orders: after the finite poles one pole at infinity is removed, and what is left is
        a single inductor, or capacitor in the dual form. */
    method SynthEven(typeB: bool, sqrt: real -> real) returns (ok: bool)
      requires Valid()
      requires EvenPolesFit(zr, pole, typeB, sqrt)
      requires EvenPlan(Kept(), EvenPoles(zr, pole, typeB, sqrt), ws, optc)
      modifies filter`lcmp, filter.BN, filter.BD
      ensures Valid() && Kept() == old(Kept())
      ensures ok == !EvenGivesUp(Kept(), EvenPoles(zr, pole, typeB, sqrt), ws, optc)
      ensures ok ==> filter.lcmp == EvenLadder(Kept(), EvenPoles(zr, pole, typeB, sqrt), ws, dual)
      ensures !ok ==> filter.lcmp == Emitted(Kept(), EvenPoles(zr, pole, typeB, sqrt), ws, dual, optc)
    {
      hide Under, Regular, Remainder, Proceeds, GivesUp, EvenPoles, EvenPole, EvenLadder, EvenTop, EvenRun, TopEven;
      hide Emitted, LastCap, BdEven, Poly.Coef, Poly.Valid, QfFilter.Valid, QfFilter.B, QfCauer.Kept;
      ghost var b, ps := Kept(), EvenPoles(zr, pole, typeB, sqrt);
      StartOver();
      UnderStart(b, ps, ws, dual, optc);
      for k := 0 to |pole|
        invariant Valid() && Kept() == b
        invariant !BdEven(filter.B()) || filter.B().bd == [0.0]
        invariant Under(filter.B(), ps[k..], b, ps, filter.lcmp, ws, dual, optc)
      {
        EvenPoleIs(zr, pole, typeB, sqrt, k);
        UnderEven(filter.B(), ps[k..], b, ps, filter.lcmp, ws, dual, optc);
        var pl := EvenPole(zr, pole[k], typeB, sqrt);
        var stop := RemovePole(1.0 / pl, ws, optc, false, true, ps[k..], b, ps);
        if stop { return false; }
        assert ps[k..][1..] == ps[k + 1..];
      }
      UnderEnd(filter.B(), b, ps, filter.lcmp, ws, dual, optc);
      EvenEnd(b, ps);
      ok := EmitLastTwo(b, ps);
    }

    method EmitLastTwo(ghost b: Susceptance, ghost ps: seq<real>) returns (ok: bool)
      requires Valid()
      requires EvenTop(b, ps) && Regular(b, ps) && Remainder(b, ps) == filter.B() && TopEven(filter.B())
      requires (optc && LastCap(b, ps, ws) < 0.0) || EvenRun(b, ps)
      requires filter.lcmp == Cells(b, ps, ws, dual)
      modifies filter`lcmp, filter.BN
      ensures Valid() && Kept() == old(Kept())
      ensures ok == !(optc && LastCap(b, ps, ws) < 0.0)
      ensures ok ==> filter.lcmp == EvenLadder(b, ps, ws, dual)
      ensures !ok ==> filter.lcmp == Cells(b, ps, ws, dual)
    {
      hide Regular, Remainder, Cells, Eval, InfinityValue;
      hide AfterInfinity, EvenCap, EvenInd, EvenTop, EvenRun, EvenLadder, LastCap;
      ghost var r := filter.B();
      LastCapIs(b, ps, ws);
      EvenRest(r, ws);
      var v, neg := QfFilter.PoleAtInfinity(filter.BN, filter.BD, ws);
      if neg && optc { return false; }
      EvenRunStart(b, ps);
      EvenLadderIs(b, ps, ws, dual);
      filter.lcmp := filter.lcmp + [if dual then Ind(v, false, false) else Cap(v, true, true)];
      var n := filter.BN.ValueAt(1.0);
      var d := filter.BD.ValueAt(1.0);
      var last := d * ws / n;
      assert last == EvenInd(r, ws) by { EvenIndIs(r, ws); }
      EvenTailIs(r, ws, dual, v, last);
      filter.lcmp := filter.lcmp + [if dual then Cap(last, true, true) else Ind(last, false, false)];
      filter.lcmp := filter.lcmp + [End];
      ok := true;
    }

    /** Inverse Chebyshev filters: the poles are taken from both ends of the list towards its
        middle, nothing is optimised or cleaned, and the frequency scale is one. */
    method SynthInverse(ord: nat, zeros: seq<real>) returns (ok: bool)
      requires Valid() && |zeros| == ord / 2
      requires OddRun(filter.B(), InversePoles(zeros))
      requires filter.lcmp == []
      modifies filter`lcmp, filter.BN, filter.BD
      ensures Valid() && ok
      ensures filter.lcmp == OddLadder(old(filter.B()), InversePoles(zeros), 1.0, dual)
    {
      hide Under, Regular, Remainder, Proceeds, GivesUp, OddLadder, OddRun, EndsOdd, InversePoles, Standard, BdEven;
      hide Poly.Coef, Poly.Valid, QfFilter.Valid, QfFilter.B, QfCauer.Kept;
      ghost var b, ps := filter.B(), InversePoles(zeros);
      OddRunStart(b, ps);
      GivesUpExactly(b, ps, false);
      UnderStart(b, ps, 1.0, dual, false);
      var m := ord / 2;
      var l, k := m - 1, m;
      while k > 0
        invariant 0 <= k <= m && Valid() && BdEven(filter.B())
        invariant k > 0 ==> l == m - 1 - Standard(m, m - k)
        invariant Under(filter.B(), ps[m - k..], b, ps, filter.lcmp, 1.0, dual, false)
      {
        InversePoleIs(zeros, m - k);
        var stop := RemovePole(zeros[l], 1.0, false, true, false, ps[m - k..], b, ps);
        assert ps[m - k..][1..] == ps[m - (k - 1)..];
        if k > 1 { InverseNext(ord, m - k, l); }
        l := m - 1 - l;
        if l > ord / 4 { l := l - 1; }
        k := k - 1;
      }
      UnderEnd(filter.B(), b, ps, filter.lcmp, 1.0, dual, false);
      EmitLast(1.0, b, ps, 1.0);
      ok := true;
    }
  }

  function InversePoles(zeros: seq<real>): (ps: seq<real>)
    ensures |ps| == |zeros|
  {
    seq(|zeros|, k requires 0 <= k < |zeros| => zeros[InverseOrder(|zeros|)[k]])
  }

  /** What an odd-order synthesis needs: if it does not give up, a run to the end. */
  ghost predicate OddPlan(b: Susceptance, ps: seq<real>, optc: bool) {
    BdEven(b) && Proceeds(b, ps, optc) && (!GivesUp(b, ps, optc) ==> OddRun(b, ps))
  }

  /** An even-order synthesis that optimises also gives up for a negative last capacitor. */
  ghost predicate EvenGivesUp(b: Susceptance, ps: seq<real>, ws: real, optc: bool)
    requires EvenPlan(b, ps, ws, optc)
  {
    GivesUp(b, ps, optc) || (optc && LastCap(b, ps, ws) < 0.0)
  }

  ghost predicate EvenPlan(b: Susceptance, ps: seq<real>, ws: real, optc: bool) {
    && !BdEven(b) && Proceeds(b, ps, optc)
    && (!GivesUp(b, ps, optc) ==> EvenTop(b, ps) && ((optc && LastCap(b, ps, ws) < 0.0) || EvenRun(b, ps)))
  }

  /** Where a synthesis stands: cur is left, the poles of rest are still to be removed, l has been
      emitted; and it gives up later exactly if the whole of it does. */
  ghost predicate Under(cur: Susceptance, rest: seq<real>, b: Susceptance, ps: seq<real>, l: seq<Cmp>,
                        ws: real, dual: bool, optc: bool)
  {
    && Proceeds(b, ps, optc) && Proceeds(cur, rest, optc)
    && GivesUp(cur, rest, optc) == GivesUp(b, ps, optc)
    && l + Emitted(cur, rest, ws, dual, optc) == Emitted(b, ps, ws, dual, optc)
    && (!GivesUp(b, ps, optc) ==> Regular(b, ps) && Regular(cur, rest) && Remainder(cur, rest) == Remainder(b, ps))
  }

  lemma OddRunStart(b: Susceptance, ps: seq<real>)
    requires OddRun(b, ps)
    ensures Regular(b, ps) && BdEven(b) && EndsOdd(Remainder(b, ps))
  {
    OddEnd(b, ps);
    hide Regular, Remainder, Eval;
  }

  lemma EvenRunStart(b: Susceptance, ps: seq<real>)
    requires EvenRun(b, ps)
    ensures Regular(b, ps) && !BdEven(b) && EndsEven(Remainder(b, ps))
  {
    EvenEnd(b, ps);
    hide Regular, Remainder;
  }

  lemma LastCapIs(b: Susceptance, ps: seq<real>, ws: real)
    requires EvenTop(b, ps)
    ensures Regular(b, ps) && TopEven(Remainder(b, ps)) && LastCap(b, ps, ws) == EvenCap(Remainder(b, ps), ws)
  {
    EvenEnd(b, ps);
    hide Regular, Remainder, EvenSized, EvenCap;
  }

  lemma UnderStart(b: Susceptance, ps: seq<real>, ws: real, dual: bool, optc: bool)
    requires Proceeds(b, ps, optc)
    ensures Under(b, ps[0..], b, ps, [], ws, dual, optc)
  {
    hide Proceeds, GivesUp, Regular, Remainder, Emitted;
    assert ps[0..] == ps;
    if !GivesUp(b, ps, optc) { ProceedsToEnd(b, ps, optc); }
  }

  lemma ProceedsNext(b: Susceptance, ps: seq<real>, ws: real, dual: bool, optc: bool)
    requires Proceeds(b, ps, optc) && ps != []
    ensures Extractable(b, ps[0])
    ensures optc && Negative(b, ps[0]) ==> GivesUp(b, ps, optc) && Emitted(b, ps, ws, dual, optc) == []
    ensures !(optc && Negative(b, ps[0])) ==>
              Proceeds(Extraction.Next(b, ps[0]), ps[1..], optc)
              && GivesUp(b, ps, optc) == GivesUp(Extraction.Next(b, ps[0]), ps[1..], optc)
              && Emitted(b, ps, ws, dual, optc)
                 == Cell(Removed(b, ps[0], ws), dual) + Emitted(Extraction.Next(b, ps[0]), ps[1..], ws, dual, optc)
  {
    hide Extractable, Extraction.Next, Negative, Removed, Cell;
  }

  lemma RegularNext(b: Susceptance, ps: seq<real>)
    requires Regular(b, ps) && ps != []
    ensures Extractable(b, ps[0]) && Regular(Extraction.Next(b, ps[0]), ps[1..])
    ensures Remainder(b, ps) == Remainder(Extraction.Next(b, ps[0]), ps[1..])
  {
    hide Extractable, Extraction.Next;
  }

  lemma UnderNext(cur: Susceptance, rest: seq<real>, b: Susceptance, ps: seq<real>, l: seq<Cmp>,
                  ws: real, dual: bool, optc: bool)
    requires Under(cur, rest, b, ps, l, ws, dual, optc) && rest != []
    ensures Extractable(cur, rest[0])
    ensures optc && Negative(cur, rest[0]) ==>
              Proceeds(b, ps, optc) && GivesUp(b, ps, optc) && l == Emitted(b, ps, ws, dual, optc)
    ensures !(optc && Negative(cur, rest[0])) ==>
              Under(Extraction.Next(cur, rest[0]), rest[1..], b, ps, l + Cell(Removed(cur, rest[0], ws), dual), ws,
                    dual, optc)
    ensures BdEven(Extraction.Next(cur, rest[0])) == BdEven(cur) || Extraction.Next(cur, rest[0]).bd == [0.0]
  {
    ProceedsNext(cur, rest, ws, dual, optc);
    hide Proceeds, GivesUp, Extractable, Extraction.Next, Removed, Regular, Remainder, Emitted, Cell, Negative, BdEven;
    if !GivesUp(b, ps, optc) { RegularNext(cur, rest); }
    if optc && Negative(cur, rest[0]) {
      assert l + [] == l;
    } else {
      Associate(l, Cell(Removed(cur, rest[0], ws), dual),
                Emitted(Extraction.Next(cur, rest[0]), rest[1..], ws, dual, optc));
    }
    NextParity(cur, rest[0]);
  }

  lemma Associate<T>(a: seq<T>, b: seq<T>, c: seq<T>)
    ensures a + (b + c) == (a + b) + c
  {
  }

  lemma NextParity(b: Susceptance, p: real)
    requires Extractable(b, p)
    ensures BdEven(Extraction.Next(b, p)) == BdEven(b) || Extraction.Next(b, p).bd == [0.0]
  {
    hide Extractable;
    NextIsLossless(b, p, |b.bn| + |b.bd| + 4);
  }

  /** Clearing the coefficients of the wrong parity changes nothing, and never meets the constant
      that KeepOdd would corrupt. */
  predicate RightParity(b: Susceptance, odd: bool) {
    if odd then |b.bn| > 1 && Odds(b.bn) == b.bn && Trim(Sieve(b.bd, 0)) == b.bd
    else Trim(Sieve(b.bn, 0)) == b.bn && Odds(b.bd) == b.bd && (|b.bd| > 1 || b.bd == [0.0])
  }

  /** In exact arithmetic the source's clearing of the wrong parity changes nothing. */
  lemma StepParity(b: Susceptance, p: real)
    requires Extractable(b, p)
    ensures RightParity(Extraction.Next(b, p), BdEven(b))
    ensures BdEven(b) ==> BdEven(Extraction.Next(b, p))
  {
    hide Extractable, Trim, NextNumerator, NextDenominator;
    NumeratorSize(b, p);
    DenominatorSize(b, p);
    NextParity(b, p);
    var b' := Extraction.Next(b, p);
    SieveKeeps(b'.bn, BdEven(b));
    SieveKeeps(b'.bd, !BdEven(b));
    ParityDegree(b'.bn, BdEven(b));
    if |b'.bd| == 1 && !BdEven(b) { assert b'.bd == [b'.bd[0]]; }
  }

  lemma SieveKeeps(c: seq<real>, odd: bool)
    requires Parity(c, odd) && Canonical(c)
    ensures Trim(Sieve(c, if odd then 1 else 0)) == c
  {
    assert Sieve(c, if odd then 1 else 0) == c;
  }

  lemma UnderEven(cur: Susceptance, rest: seq<real>, b: Susceptance, ps: seq<real>, l: seq<Cmp>,
                  ws: real, dual: bool, optc: bool)
    requires !BdEven(cur) || cur.bd == [0.0]
    requires Under(cur, rest, b, ps, l, ws, dual, optc) && rest != []
    ensures !BdEven(cur)
  {
    hide Extractable;
    if cur.bd == [0.0] { NoPoleLeft(cur, rest[0]); }
  }

  lemma NoPoleLeft(b: Susceptance, p: real)
    requires b.bd == [0.0]
    ensures !Extractable(b, p)
  {
    ParityAt([0.0], Pl(p));
  }

  lemma OddPoleIs(zr: seq<real>, pole: seq<nat>, k: nat)
    requires k < |pole|
    requires OddPolesFit(zr, pole)
    ensures OddPoles(zr, pole)[k..][0] == 1.0 / zr[2 * pole[k] + 2]
  {
  }

  lemma InverseNext(ord: nat, j: nat, l: nat)
    requires j + 1 < ord / 2 && l == ord / 2 - 1 - Standard(ord / 2, j)
    ensures var l' := ord / 2 - 1 - l;
            (if l' > ord / 4 then l' - 1 else l') == ord / 2 - 1 - Standard(ord / 2, j + 1)
  {
  }

  lemma InversePoleIs(zeros: seq<real>, k: nat)
    requires k < |zeros|
    ensures InversePoles(zeros)[k..][0] == zeros[|zeros| - 1 - Standard(|zeros|, k)]
  {
    assert InverseOrder(|zeros|)[k] == |zeros| - 1 - Standard(|zeros|, k);
  }

  lemma EvenPoleIs(zr: seq<real>, pole: seq<nat>, typeB: bool, sqrt: real -> real, k: nat)
    requires k < |pole|
    requires EvenPolesFit(zr, pole, typeB, sqrt)
    ensures EvenPoles(zr, pole, typeB, sqrt)[k..][0] == 1.0 / EvenPole(zr, pole[k], typeB, sqrt)
  {
  }

  lemma OddValues(r: Susceptance)
    requires EndsOdd(r)
    ensures Eval(r.bn, 1.0) == r.bn[1] && Eval(r.bd, 1.0) == r.bd[0]
  {
    EvalTwo(r.bn, 1.0);
    EvalTwo(r.bd, 1.0);
  }

  /** The pole at infinity leaves the constant term over d1 s. */
  lemma EvenRest(r: Susceptance, ws: real)
    requires TopEven(r) && Canonical(r.bn) && Canonical(r.bd)
    ensures InfinityValue(r.bn, r.bd) * ws == EvenCap(r, ws)
    ensures AfterInfinity(r.bn, r.bd) == [r.bn[0]]
    ensures Eval([r.bn[0]], 1.0) == r.bn[0] && Eval(r.bd, 1.0) == r.bd[1]
  {
    EvalTwo([r.bn[0]], 1.0);
    EvalTwo(r.bd, 1.0);
    EvenRestLeaves(r.bn, r.bd, r.bn[2] / r.bd[1]);
  }

  lemma EvenTailIs(r: Susceptance, ws: real, dual: bool, v: real, last: real)
    requires EndsEven(r) && v == EvenCap(r, ws) && last == EvenInd(r, ws)
    ensures EvenTail(r, ws, dual) == [Shunt(v, dual), Shunt(last, !dual)]
  {
    hide EvenCap, EvenInd;
  }

  lemma EvenIndIs(r: Susceptance, ws: real)
    requires EndsEven(r)
    ensures EvenInd(r, ws) == r.bd[1] * ws / r.bn[0]
  {
  }

  lemma EvenRestLeaves(n: seq<real>, d: seq<real>, v: real)
    requires |n| == 3 && n[1] == 0.0 && |d| == 2 && d[0] == 0.0 && v * d[1] == n[2]
    ensures Minus(n, ScaledBy(Raise(d, 1), v)) == [n[0]]
  {
    var up := ScaledBy(Raise(d, 1), v);
    assert Raise(d, 1) == [0.0, 0.0, d[1]];
    ThirdOnly(d[1], v);
    var c := Minus(n, up);
    forall i: int ensures At(c, i) == At([n[0]], i) {
      assert At(c, i) == At(n, i) - At(up, i);
    }
    CanonicalUnique(c, [n[0]]);
  }

  lemma ThirdOnly(d: real, v: real)
    ensures forall i: int :: At(ScaledBy([0.0, 0.0, d], v), i) == if i == 2 then v * d else 0.0
  {
    assert 0.0 * v == 0.0;
  }

  /** Nothing is left to do for an empty rest. */
  lemma NoRest(b: Susceptance, rest: seq<real>, ws: real, dual: bool, optc: bool)
    requires rest == []
    ensures Proceeds(b, rest, optc) && !GivesUp(b, rest, optc) && Emitted(b, rest, ws, dual, optc) == []
    ensures Regular(b, rest) && Remainder(b, rest) == b
  {
  }

  lemma WholeEmitted(b: Susceptance, ps: seq<real>, ws: real, dual: bool, optc: bool)
    requires Proceeds(b, ps, optc) && !GivesUp(b, ps, optc) && Regular(b, ps)
    ensures Emitted(b, ps, ws, dual, optc) == Cells(b, ps, ws, dual)
  {
    hide *;
    EmittedIs(b, ps, ws, dual, optc);
    assert ps[..|ps|] == ps;
  }

  lemma UnderIs(cur: Susceptance, rest: seq<real>, b: Susceptance, ps: seq<real>, l: seq<Cmp>,
                ws: real, dual: bool, optc: bool)
    requires Under(cur, rest, b, ps, l, ws, dual, optc) && Proceeds(cur, rest, optc) && !GivesUp(cur, rest, optc)
    requires Regular(cur, rest) && Remainder(cur, rest) == cur && Emitted(cur, rest, ws, dual, optc) == []
    ensures Proceeds(b, ps, optc) && !GivesUp(b, ps, optc) && l == Emitted(b, ps, ws, dual, optc)
    ensures Regular(b, ps) && Remainder(b, ps) == cur
  {
    hide Proceeds, GivesUp, Regular, Remainder, Emitted;
    assert l + [] == l;
  }

  lemma UnderEnd(cur: Susceptance, b: Susceptance, ps: seq<real>, l: seq<Cmp>, ws: real, dual: bool, optc: bool)
    requires Under(cur, ps[|ps|..], b, ps, l, ws, dual, optc)
    ensures Proceeds(b, ps, optc) && !GivesUp(b, ps, optc) && l == Emitted(b, ps, ws, dual, optc)
    ensures Regular(b, ps) && Remainder(b, ps) == cur && Cells(b, ps, ws, dual) == l
  {
    hide *;
    var rest := ps[|ps|..];
    NoRest(cur, rest, ws, dual, optc);
    UnderIs(cur, rest, b, ps, l, ws, dual, optc);
    WholeEmitted(b, ps, ws, dual, optc);
  }
}
