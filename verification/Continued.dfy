/** Poles at infinity: a susceptance built as a continued fraction
    g1 s + 1 / (g2 s + 1 / (g3 s + ...)), and what taking one term off it leaves. */
module Continued {
  import opened PolyMath
  import opened Ladder
  import opened Extraction

  function Lead(c: seq<real>): real
    requires |c| > 0
  {
    c[|c| - 1]
  }

  /** Multiplication with the source's convention that zero gives the constant zero. */
  function ScaledBy(c: seq<real>, m: real): seq<real> {
    if m == 0.0 then [0.0] else Times(c, m)
  }

  /** num(s) / (s den(s)) at infinity; a zero denominator is treated like one. */
  function InfinityValue(num: seq<real>, den: seq<real>): real
    requires |num| > 0 && |den| > 0
  {
    if Lead(den) == 0.0 then Lead(num) else Lead(num) / Lead(den)
  }

  function Reduced(num: seq<real>, den: seq<real>): seq<real>
    requires |num| > 0 && |den| > 0
  {
    Minus(num, ScaledBy(Raise(den, 1), InfinityValue(num, den)))
  }

  /** The numerator after the pole is gone; a top term that survived is erased as round-off. */
  function AfterInfinity(num: seq<real>, den: seq<real>): seq<real>
    requires |num| > 0 && |den| > 0
  {
    var c := Reduced(num, den);
    if |c| == |num| then Trim(c[..|c| - 1]) else c
  }

  /** The continued fraction with terms gs, over a common constant factor c. */
  function Fraction(gs: seq<real>, c: real): Susceptance
    decreases |gs|
  {
    if gs == [] then Susceptance([c], [0.0])
    else
      var t := Fraction(gs[1..], c);
      Susceptance(Plus(Times(Raise(t.bn, 1), gs[0]), t.bd), t.bn)
  }

  predicate NonZero(gs: seq<real>) {
    forall i :: 0 <= i < |gs| ==> gs[i] != 0.0
  }

  lemma {:induction false} FractionShape(gs: seq<real>, c: real)
    requires NonZero(gs) && c != 0.0
    ensures var f := Fraction(gs, c);
            && Canonical(f.bn) && Canonical(f.bd)
            && |f.bn| == |gs| + 1 && Lead(f.bn) != 0.0
            && |f.bd| == (if gs == [] then 1 else |gs|)
    decreases |gs|
  {
    if gs != [] {
      FractionShape(gs[1..], c);
      RaisedSum(Fraction(gs[1..], c).bn, gs[0], Fraction(gs[1..], c).bd);
    }
  }

  /** g s n + d has the degree of s n, and g times its leading coefficient. */
  lemma RaisedSum(n: seq<real>, g: real, d: seq<real>)
    requires Canonical(n) && Canonical(d) && |d| <= |n| && Lead(n) != 0.0 && g != 0.0
    ensures var r := Plus(Times(Raise(n, 1), g), d);
            |r| == |n| + 1 && Lead(r) == Lead(n) * g != 0.0
  {
    hide Times, Raise, Plus;
    assert n != [0.0];
    var a := Times(Raise(n, 1), g);
    assert |Raise(n, 1)| == |n| + 1 by { RaiseGrows(n); }
    assert At(Raise(n, 1), |n|) == At(n, |n| - 1);
    ProductIsNot(Lead(n), g);
    var r := Plus(a, d);
    assert At(r, |n|) == At(a, |n|) + At(d, |n|) == Lead(n) * g;
  }

  lemma RaiseGrows(n: seq<real>)
    requires n != [0.0]
    ensures |Raise(n, 1)| == |n| + 1
  {
  }

  lemma ProductIsNot(a: real, b: real)
    requires a != 0.0 && b != 0.0
    ensures a * b != 0.0
  {
  }

  /** Taking the pole at infinity off a continued fraction yields its first term exactly and
      leaves the rest; the erasing of a surviving top term never happens. */
  lemma FractionPeel(gs: seq<real>, c: real)
    requires NonZero(gs) && c != 0.0 && gs != []
    ensures var f, t := Fraction(gs, c), Fraction(gs[1..], c);
            && |f.bn| == |f.bd| + 1 && Lead(f.bd) != 0.0
            && InfinityValue(f.bn, f.bd) == gs[0]
            && |Reduced(f.bn, f.bd)| < |f.bn|
            && AfterInfinity(f.bn, f.bd) == t.bd
  {
    FractionShape(gs[1..], c);
    FractionShape(gs, c);
    PeelTerm(Fraction(gs[1..], c).bn, gs[0], Fraction(gs[1..], c).bd);
  }

  lemma PeelTerm(n: seq<real>, g: real, d: seq<real>)
    requires Canonical(n) && Canonical(d) && |d| <= |n| && Lead(n) != 0.0 && g != 0.0
    ensures var r := Plus(Times(Raise(n, 1), g), d);
            && |r| == |n| + 1 && InfinityValue(r, n) == g
            && |Reduced(r, n)| < |r| && AfterInfinity(r, n) == d
  {
    hide Times, Raise, Plus, Minus;
    RaisedSum(n, g, d);
    Ratio1(Lead(n), g);
    var a := Times(Raise(n, 1), g);
    assert InfinityValue(Plus(a, d), n) == g;
    PlusMinus(d, a);
  }

  lemma Ratio1(a: real, g: real)
    requires a != 0.0
    ensures a * g / a == g
  {
  }

  lemma PlusMinus(d: seq<real>, a: seq<real>)
    requires Canonical(d)
    ensures Minus(Plus(a, d), a) == d
  {
    CanonicalUnique(Minus(Plus(a, d), a), d);
  }

  // ----- the ladder -----

  /** One element per term, shunt and series in turn. */
  function Elements(gs: seq<real>, scale: real, dual: bool, first: bool): seq<Cmp>
    requires scale != 0.0
    decreases |gs|
  {
    if gs == [] then []
    else [Element(gs[0] / scale, dual, first)] + Elements(gs[1..], scale, dual, !first)
  }

  function Element(v: real, dual: bool, first: bool): Cmp {
    if first != dual then Cap(v, true, true) else Ind(v, false, false)
  }

  /** The ladder's last element is loaded with an open or a short circuit, whichever keeps it. */
  function Load(n: nat, c: real, flip: bool): Ratio {
    Oriented(Ratio(c, 0.0), if n % 2 == 0 then flip else !flip)
  }

  /** The ladder has the continued fraction as input admittance, or as input impedance when it
      is the dual one, at s over the scale. */
  lemma {:induction false} ElementsMean(gs: seq<real>, c: real, scale: real, dual: bool, first: bool, s: real)
    requires NonZero(gs) && c != 0.0 && scale != 0.0
    ensures Input(Elements(gs, scale, dual, first), s, Load(|gs|, c, dual == first))
         == Oriented(ValueOf(Fraction(gs, c), s / scale), dual == first)
    decreases |gs|
  {
    hide Eval, Before, Fraction;
    if gs == [] {
      EmptyFraction(c, s / scale);
    } else {
      ElementsMean(gs[1..], c, scale, dual, !first, s);
      ElementStep(gs, c, scale, dual, first, s);
    }
  }

  lemma EmptyFraction(c: real, x: real)
    ensures ValueOf(Fraction([], c), x) == Ratio(c, 0.0)
  {
    EvalUnfold([c], x);
    EvalUnfold([0.0], x);
    assert Tail([c]) == Tail([0.0]) == [];
  }

  lemma ElementStep(gs: seq<real>, c: real, scale: real, dual: bool, first: bool, s: real)
    requires NonZero(gs) && c != 0.0 && scale != 0.0 && gs != []
    requires Input(Elements(gs[1..], scale, dual, !first), s, Load(|gs| - 1, c, dual == !first))
          == Oriented(ValueOf(Fraction(gs[1..], c), s / scale), dual == !first)
    ensures Input(Elements(gs, scale, dual, first), s, Load(|gs|, c, dual == first))
         == Oriented(ValueOf(Fraction(gs, c), s / scale), dual == first)
  {
    hide Eval, Before, Fraction;
    var x, t := s / scale, Fraction(gs[1..], c);
    var y := ValueOf(t, x);
    var e := Element(gs[0] / scale, dual, first);
    var list := Elements(gs, scale, dual, first);
    assert list[0] == e && list[1..] == Elements(gs[1..], scale, dual, !first);
    assert Load(|gs| - 1, c, dual == !first) == Load(|gs|, c, dual == first);
    FractionValue(gs, c, x);
    ScaleMoves(s, gs[0], scale);
    BeforeCap(gs[0] / scale, s, Flip(y));
    BeforeInd(gs[0] / scale, s, y);
    assert y.num * (s * (gs[0] / scale)) == y.num * (x * gs[0]);
  }

  lemma ScaleMoves(s: real, g: real, scale: real)
    requires scale != 0.0
    ensures s * (g / scale) == (s / scale) * g
  {
  }

  lemma FractionValue(gs: seq<real>, c: real, x: real)
    requires gs != []
    ensures var f, t := Fraction(gs, c), Fraction(gs[1..], c);
            f.bd == t.bn && Eval(f.bn, x) == Eval(t.bd, x) + Eval(t.bn, x) * (x * gs[0])
  {
    hide Eval, Times, Raise, Plus;
    var t := Fraction(gs[1..], c);
    assert Fraction(gs, c) == Susceptance(Plus(Times(Raise(t.bn, 1), gs[0]), t.bd), t.bn);
    hide Fraction;
    TermValue(t.bn, t.bd, gs[0], x);
  }

  lemma TermValue(n: seq<real>, d: seq<real>, g: real, x: real)
    ensures Eval(Plus(Times(Raise(n, 1), g), d), x) == Eval(d, x) + Eval(n, x) * (x * g)
  {
    hide Eval, Times, Raise, Plus;
    EvalRaise(n, x);
    EvalTimes(Raise(n, 1), g, x);
    EvalPlus(Plus(Times(Raise(n, 1), g), d), Times(Raise(n, 1), g), d, x);
    assert g * (x * Eval(n, x)) == Eval(n, x) * (x * g);
  }
}
