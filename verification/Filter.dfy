/** The filter object: the susceptance BN/BD it consumes, and the component list it fills. */
module Filter {
  import opened PolyMath
  import opened QfPoly
  import opened Ladder
  import opened Extraction
  import opened Continued

  class QfFilter {
    const BN: Poly
    const BD: Poly
    var lcmp: seq<Cmp>

    predicate Valid()
      reads this, BN, BD
    {
      BN != BD && BN.Valid() && BD.Valid()
    }

    function B(): Susceptance
      requires Valid()
      reads this, BN, BD
    {
      Susceptance(BN.Coef(), BD.Coef())
    }

    constructor (bn: Poly, bd: Poly)
      requires bn != bd && bn.Valid() && bd.Valid()
      ensures Valid() && BN == bn && BD == bd && lcmp == []
    {
      BN, BD, lcmp := bn, bd, [];
    }

    /** Removes the finite pole jp: BN/BD becomes what is left, and the result tells the three
        component values and whether a negative one was produced. */
    method PoleFinite(p: real, ws: real) returns (neg: bool, t: Triple)
      requires Valid() && Extractable(B(), p)
      modifies BN, BD
      ensures Valid()
      ensures B() == old(Next(B(), p))
      ensures t == old(Removed(B(), p, ws))
      ensures neg == old(ShuntPart(B(), p) < 0.0 || TrapPart(B(), p) < 0.0)
    {
      hide ShuntPart, TrapPart, ShuntDivisor, BdAt, NextNumerator, NextDenominator, Removed, Pl;
      assert Pl(p) == -p * p by { PlIs(p); }
      ghost var b := B();
      var pl := -p * p;
      var v := ShuntValue(p, pl);
      TakeMultiple(BN, BD, v);
      NumeratorStep(b, p, BN.Coef());
      var ok := BN.DivideBy(Cx(0.0, p));
      var w := TrapValue(p, pl, b);
      neg := v < 0.0 || w < 0.0;
      RemovedValues(b, p, ws, pl, v, w);
      t := Triple(v * ws, w * ws, -ws / (w * pl));
      var m := 1.0 / w;
      TakeMultiple(BD, BN, m);
      DenominatorStep(b, p, m, BD.Coef());
      if BD.dg == 0 { return; }
      ok := BD.DivideBy(Cx(0.0, p));
    }

    /** dst := dst - m s src */
    static method TakeMultiple(dst: Poly, src: Poly, m: real)
      requires dst != src && dst.Valid() && src.Valid() && m != 0.0
      modifies dst
      ensures dst.Valid() && dst.Coef() == Minus(old(dst.Coef()), Times(Raise(src.Coef(), 1), m))
    {
      var shifted := src.ShiftUp(1);
      shifted.Scale(m);
      dst.Subtract(shifted);
    }

    /** The value of B(s)/s at the pole; whichever of BN and BD is odd is halved in degree by
        taking an s out, or multiplied by s. */
    method ShuntValue(p: real, pl: real) returns (v: real)
      requires Valid() && Lossless(B()) && Divisible(B(), p) && pl == Pl(p)
      ensures v == ShuntPart(B(), p)
    {
      hide EvenAt, Pl, Divisible, ShuntPart, Canonical;
      var n, d;
      if BD.dg % 2 == 0 {
        n := OddOverS(BN, pl);
        d := BD.ValueAtSquare(pl);
      } else {
        n := BN.ValueAtSquare(pl);
        d := OddTimesS(BD, pl);
      }
      v := ShuntRatio(B(), p, n, d);
    }

    method TrapValue(p: real, pl: real, ghost b: Susceptance) returns (w: real)
      requires Valid() && Extractable(b, p) && pl == Pl(p)
      requires BN.Coef() == NextNumerator(b, p) && BD.Coef() == b.bd
      ensures w == TrapPart(b, p)
    {
      hide EvenAt, ShuntPart, ShuntDivisor, BdAt, NextNumerator, ShiftedNumerator, TrapPart, Pl;
      NumeratorSize(b, p);
      var n, d;
      if BD.dg % 2 == 0 {
        n := OddTimesS(BN, pl);
        d := BD.ValueAtSquare(pl);
      } else {
        n := BN.ValueAtSquare(pl);
        d := OddOverS(BD, pl);
      }
      w := TrapRatio(b, p, n, d);
    }

    static method OddOverS(c: Poly, y: real) returns (v: real)
      requires c.Valid() && OddOnly(c.Coef()) && c.dg % 2 == 1
      ensures v == EvenAt(Tail(c.Coef()), y)
    {
      OddStartsAtZero(c.Coef());
      var h := c.ShiftDown(1);
      v := h.ValueAtSquare(y);
    }

    static method OddTimesS(c: Poly, y: real) returns (v: real)
      requires c.Valid() && OddOnly(c.Coef())
      ensures v == y * EvenAt(Tail(c.Coef()), y)
    {
      hide EvenAt;
      RaisedOdd(c.Coef(), y);
      var h := c.ShiftUp(1);
      v := h.ValueAtSquare(y);
    }

    /** Removes the pole at infinity of num/den, in place: both pole_inf_c and pole_inf_l,
        which differ only in which of BN and BD is the numerator.  Only of a constant over a zero
        denominator the top coefficient is erased that it gets its degree from. */
    static method PoleAtInfinity(num: Poly, den: Poly, ws: real) returns (v: real, neg: bool)
      requires num != den && num.Valid() && den.Valid()
      requires den.k != 0.0 ==> num.dg == den.dg + 1
      modifies num
      ensures v == InfinityValue(old(num.Coef()), den.Coef()) * ws && neg == (v < 0.0)
      ensures num.Valid() <==> den.k != 0.0 || old(num.dg > 0 || num.k == 0.0)
      ensures num.Valid() ==> num.Coef() == AfterInfinity(old(num.Coef()), den.Coef())
    {
      hide Trim, Times, Raise, Minus;
      ghost var n, d := num.Coef(), den.Coef();
      if den.k == 0.0 {
        v := num.k;
      } else {
        v := num.k / den.k;
      }
      assert v == InfinityValue(n, d);
      var dg := num.dg;
      var up := den.ShiftUp(1);
      var term := up.Scaled(v);
      num.Subtract(term);
      assert num.Coef() == Reduced(n, d);
      if den.k == 0.0 { NothingReduced(n, d); }
      if num.dg == dg { num.DropTop(); }
      v := v * ws;
      neg := v < 0.0;
    }

    /** All-pole ladders: one element for every order, by removing poles at infinity from BN/BD
        and BD/BN in turn.  When B is a continued fraction of that length its terms come out. */
    method SynthLadder(ord: nat, dual: bool, scale: real, ghost gs: seq<real>, ghost c: real) returns (ok: bool)
      requires Valid() && scale != 0.0 && NonZero(gs) && c != 0.0
      requires ord == |gs| && B() == Fraction(gs, c)
      modifies this`lcmp, BN, BD
      ensures ok && Valid()
      ensures lcmp == old(lcmp) + Elements(gs, scale, dual, true) + [End]
    {
      hide Fraction, InfinityValue, AfterInfinity, Elements, Canonical;
      var n := ord;
      var val, neg;
      ghost var k := 0;
      assert gs[0..] == gs;
      while n != 0
        invariant n == |gs| - k && Valid()
        invariant B() == Fraction(gs[k..], c)
        invariant lcmp + Elements(gs[k..], scale, dual, true) == old(lcmp) + Elements(gs, scale, dual, true)
      {
        Peel(gs, k, c);
        val, neg := PoleAtInfinity(BN, BD, 1.0);
        val := val / scale;
        ElementsNext(gs, k, scale, dual, true, lcmp);
        lcmp := lcmp + [if dual then Ind(val, false, false) else Cap(val, true, true)];
        n := n - 1;
        k := k + 1;
        if n == 0 { break; }
        Peel(gs, k, c);
        val, neg := PoleAtInfinity(BD, BN, 1.0);
        val := val / scale;
        ElementsNext(gs, k, scale, dual, false, lcmp);
        lcmp := lcmp + [if dual then Cap(val, true, true) else Ind(val, false, false)];
        n := n - 1;
        k := k + 1;
      }
      assert k == |gs| && gs[k..] == [];
      NoElements(scale, dual);
      lcmp := lcmp + [End];
      ok := true;
    }
  }

  /** A zero denominator takes nothing away. */
  lemma NothingReduced(n: seq<real>, d: seq<real>)
    requires Canonical(n) && d == [0.0]
    ensures Reduced(n, d) == n
  {
    var up := ScaledBy(Raise(d, 1), InfinityValue(n, d));
    var c := Minus(n, up);
    forall i: int ensures At(c, i) == At(n, i) {
      assert At(c, i) == At(n, i) - At(up, i);
    }
    CanonicalUnique(c, n);
  }

  /** One round of the ladder loop, on the specification side. */
  lemma Peel(gs: seq<real>, k: nat, c: real)
    requires k < |gs| && NonZero(gs) && c != 0.0
    ensures var f, t := Fraction(gs[k..], c), Fraction(gs[k + 1..], c);
            && |f.bn| == |f.bd| + 1 && Lead(f.bd) != 0.0 && f.bd == t.bn
            && InfinityValue(f.bn, f.bd) == gs[k]
            && AfterInfinity(f.bn, f.bd) == t.bd
            && |f.bn| > 0 && |f.bd| > 0
  {
    assert gs[k..][1..] == gs[k + 1..];
    FractionPeel(gs[k..], c);
  }

  lemma NoElements(scale: real, dual: bool)
    requires scale != 0.0
    ensures Elements([], scale, dual, true) == [] && Elements([], scale, dual, false) == []
  {
  }

  lemma ElementsNext(gs: seq<real>, k: nat, scale: real, dual: bool, first: bool, l: seq<Cmp>)
    requires k < |gs| && scale != 0.0
    ensures l + Elements(gs[k..], scale, dual, first)
         == l + [Element(gs[k] / scale, dual, first)] + Elements(gs[k + 1..], scale, dual, !first)
  {
    assert gs[k..][1..] == gs[k + 1..];
  }

  lemma OddStartsAtZero(c: seq<real>)
    requires OddOnly(c) && |c| % 2 == 0 && |c| > 0
    ensures c[0] == 0.0 && EvenOnly(c[1..]) && Tail(c) == c[1..]
  {
  }

  /** s c(s) for an odd c, at s^2 == y. */
  lemma RaisedOdd(c: seq<real>, y: real)
    requires OddOnly(c) && Canonical(c)
    ensures EvenOnly(Raise(c, 1))
    ensures EvenAt(Raise(c, 1), y) == y * EvenAt(Tail(c), y)
  {
    ParityRaise(c, true);
    if c == [0.0] {
      ParityAt([0.0], y);
      assert Tail(c) == [];
      EvensUnfold([], y);
    } else {
      EvensUnfold(Raise(c, 1), y);
      assert Tail(Raise(c, 1)) == c;
    }
  }

  /** The two quotients, in terms of the half-degree polynomials the methods evaluate. */
  method ShuntRatio(ghost b: Susceptance, ghost p: real, n: real, d: real) returns (v: real)
    requires Divisible(b, p)
    requires n == if BdEven(b) then EvenAt(Tail(b.bn), Pl(p)) else EvenAt(b.bn, Pl(p))
    requires d == if BdEven(b) then EvenAt(b.bd, Pl(p)) else Pl(p) * EvenAt(Tail(b.bd), Pl(p))
    ensures v == ShuntPart(b, p)
  {
    hide EvenAt, Pl;
    v := n / d;
  }

  method TrapRatio(ghost b: Susceptance, ghost p: real, n: real, d: real) returns (w: real)
    requires Divisible(b, p)
    requires n == if BdEven(b) then Pl(p) * EvenAt(Tail(NextNumerator(b, p)), Pl(p))
                  else EvenAt(NextNumerator(b, p), Pl(p))
    requires d == if BdEven(b) then EvenAt(b.bd, Pl(p)) else EvenAt(Tail(b.bd), Pl(p))
    ensures w == TrapPart(b, p)
  {
    hide EvenAt, Pl, NextNumerator;
    w := n / d;
  }

  lemma NumeratorStep(b: Susceptance, p: real, c: seq<real>)
    requires Extractable(b, p)
    requires c == Minus(b.bn, Times(Raise(b.bd, 1), ShuntPart(b, p)))
    ensures |c| > 2 && Factor(c, Cx(0.0, p)).q == NextNumerator(b, p)
    ensures p != 0.0
  {
    hide Times, Raise, Divide, BdAt, ShuntDivisor, ShuntPart;
    NumeratorDivides(b, p);
  }

  lemma DenominatorStep(b: Susceptance, p: real, m: real, c: seq<real>)
    requires Extractable(b, p) && m == 1.0 / TrapPart(b, p)
    requires c == Minus(b.bd, Times(Raise(NextNumerator(b, p), 1), m))
    ensures |c| == 1 ==> c == NextDenominator(b, p)
    ensures |c| != 1 ==> |c| > 2 && Factor(c, Cx(0.0, p)).q == NextDenominator(b, p)
  {
    hide Times, Raise, Divide, BdAt, ShuntDivisor, ShuntPart, TrapPart, NextNumerator;
    DenominatorDivides(b, p);
  }

  lemma RemovedValues(b: Susceptance, p: real, ws: real, pl: real, v: real, w: real)
    requires Extractable(b, p) && pl == Pl(p) && v == ShuntPart(b, p) && w == TrapPart(b, p)
    ensures v != 0.0 && w != 0.0 && w * pl != 0.0 && 1.0 / w != 0.0
    ensures Removed(b, p, ws) == Triple(v * ws, w * ws, -ws / (w * pl))
  {
    hide ShuntPart, TrapPart, Pl, ShuntDivisor, BdAt, NextNumerator, ShiftedNumerator;
    SquareNonZero(w, p);
    InverseNonZero(w);
  }

  lemma PlIs(p: real)
    ensures Pl(p) == -p * p
  {
  }

  lemma InverseNonZero(w: real)
    requires w != 0.0
    ensures 1.0 / w != 0.0
  {
  }
}
