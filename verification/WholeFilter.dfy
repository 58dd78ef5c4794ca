/** Synthesis and denormalisation together: from a susceptance to the components of a real
    filter and back to the susceptance. */
module WholeFilter {
  import opened RealMath
  import opened Ladder
  import opened Continued
  import opened Extraction
  import opened Synthesis
  import opened Transform
  import opened TransformedLadder
  import opened LadderEnds

  /** A synthesis of odd or of even order. */
  ghost predicate Run(b: Susceptance, ps: seq<real>, odd: bool) {
    if odd then OddRun(b, ps) else EvenRun(b, ps)
  }

  /** The components it emits, without the end mark. */
  ghost function Parts(b: Susceptance, ps: seq<real>, ws: real, odd: bool, dual: bool): seq<Cmp>
    requires Run(b, ps, odd)
  {
    if odd then OddParts(b, ps, ws, dual) else EvenParts(b, ps, ws, dual)
  }

  // ----- the components of a synthesised ladder -----

  /** Capacitors and Slc are tied to ground, inductors and Plc are in series. */
  predicate Flagged(l: seq<Cmp>) {
    forall i :: 0 <= i < |l| ==>
      && (l[i].Cap? || l[i].Slc? || l[i].Ind? || l[i].Plc?)
      && l[i].shnt == l[i].gnd && l[i].gnd == (l[i].Cap? || l[i].Slc?)
  }

  lemma FlaggedAppend(l: seq<Cmp>, m: seq<Cmp>)
    requires Flagged(l) && Flagged(m)
    ensures Flagged(l + m) && (HasSlc(l + m) <==> HasSlc(l) || HasSlc(m))
  {
    if HasSlc(l) {
      var i :| 0 <= i < |l| && l[i].Slc?;
      assert (l + m)[i].Slc?;
    }
    if HasSlc(m) {
      var i :| 0 <= i < |m| && m[i].Slc?;
      assert (l + m)[|l| + i].Slc?;
    }
  }

  lemma CellFlagged(t: Triple, dual: bool)
    ensures Flagged(Cell(t, dual)) && (HasSlc(Cell(t, dual)) <==> dual)
  {
    assert Cell(t, dual)[1].Slc? == dual;
  }

  lemma {:induction false} CellsFlagged(b: Susceptance, ps: seq<real>, ws: real, dual: bool)
    requires Regular(b, ps)
    ensures Flagged(Cells(b, ps, ws, dual)) && (HasSlc(Cells(b, ps, ws, dual)) <==> dual && ps != [])
    decreases |ps|
  {
    hide Extractable, Next, Removed, Cell, Flagged;
    if ps == [] {
      assert Cells(b, ps, ws, dual) == [];
      NothingFlagged();
    } else {
      CellsFlagged(Next(b, ps[0]), ps[1..], ws, dual);
      CellFlagged(Removed(b, ps[0], ws), dual);
      FlaggedAppend(Cell(Removed(b, ps[0], ws), dual), Cells(Next(b, ps[0]), ps[1..], ws, dual));
    }
  }

  lemma NothingFlagged()
    ensures Flagged([]) && !HasSlc([])
  {
  }

  lemma TailsFlagged(r: Susceptance, ws: real, dual: bool)
    ensures EndsOdd(r) ==> Flagged(OddTail(r, ws, dual)) && !HasSlc(OddTail(r, ws, dual))
    ensures EndsOdd(r) ==> EndsWell(OddTail(r, ws, dual), dual)
    ensures EndsEven(r) ==> Flagged(EvenTail(r, ws, dual)) && !HasSlc(EvenTail(r, ws, dual))
    ensures EndsEven(r) ==> EndsWell(EvenTail(r, ws, dual), !dual)
  {
    hide EndsOdd, EndsEven, OddCap, EvenCap, EvenInd;
  }

  lemma EndsWellAppend(l: seq<Cmp>, m: seq<Cmp>, short: bool)
    requires EndsWell(m, short)
    ensures EndsWell(l + m, short)
  {
  }

  /** An Slc is emitted exactly by a dual synthesis with a finite pole; and wherever the far end is
      tied to ground, the last component is in series. */
  lemma PartsShape(b: Susceptance, ps: seq<real>, ws: real, odd: bool, dual: bool)
    requires Run(b, ps, odd)
    ensures Flagged(Parts(b, ps, ws, odd, dual)) && EndsWell(Parts(b, ps, ws, odd, dual), odd == dual)
    ensures HasSlc(Parts(b, ps, ws, odd, dual)) <==> dual && ps != []
  {
    PartsAre(b, ps, ws, odd, dual);
    hide *;
    CellsFlagged(b, ps, ws, dual);
    TailsFlagged(Remainder(b, ps), ws, dual);
    if odd {
      FlaggedAppend(Cells(b, ps, ws, dual), OddTail(Remainder(b, ps), ws, dual));
      if dual { EndsWellAppend(Cells(b, ps, ws, dual), OddTail(Remainder(b, ps), ws, dual), true); }
    } else {
      FlaggedAppend(Cells(b, ps, ws, dual), EvenTail(Remainder(b, ps), ws, dual));
      if !dual { EndsWellAppend(Cells(b, ps, ws, dual), EvenTail(Remainder(b, ps), ws, dual), true); }
    }
    if odd != dual { OpenEndsWell(Parts(b, ps, ws, odd, dual)); }
  }

  lemma OpenEndsWell(l: seq<Cmp>)
    ensures EndsWell(l, false)
  {
  }

  lemma PartsAre(b: Susceptance, ps: seq<real>, ws: real, odd: bool, dual: bool)
    requires Run(b, ps, odd)
    ensures Regular(b, ps)
    ensures odd ==> EndsOdd(Remainder(b, ps))
    ensures odd ==> Parts(b, ps, ws, odd, dual) == Cells(b, ps, ws, dual) + OddTail(Remainder(b, ps), ws, dual)
    ensures !odd ==> EndsEven(Remainder(b, ps))
    ensures !odd ==> Parts(b, ps, ws, odd, dual) == Cells(b, ps, ws, dual) + EvenTail(Remainder(b, ps), ws, dual)
  {
    hide OddRun, EvenRun, OddParts, EvenParts, Regular, Remainder, Cells, EndsOdd, EndsEven, OddTail, EvenTail;
    if odd {
      OddFactorIs(b, ps);
      OddLadderIs(b, ps, ws, dual);
    } else {
      EvenFactorIs(b, ps);
      EvenLadderIs(b, ps, ws, dual);
    }
  }

  lemma FlaggedIsPrototype(l: seq<Cmp>)
    requires Flagged(l) && AllPositive(l)
    ensures AllPrototype(l) && (forall i :: 0 <= i < |l| && l[i].Slc? ==> l[i].gnd)
  {
  }

  // ----- what the synthesised ladder shows -----

  /** The ratio v stands for the number y. */
  ghost predicate Is(v: Ratio, y: real) {
    v.den != 0.0 && v.num == y * v.den
  }

  /** The ratio v stands for r times the number y. */
  ghost predicate IsTimes(v: Ratio, r: real, y: real) {
    v.den != 0.0 && v.num == r * y * v.den
  }

  /** Open, or tied to ground. */
  function Far(short: bool): Ratio {
    if short then Ratio(1.0, 0.0) else Ratio(0.0, 1.0)
  }

  lemma FarIs(odd: bool, dual: bool)
    ensures FarEnd(odd, dual) == Far(odd == dual)
  {
  }

  lemma ScaledReads(k: real, y: Ratio, v: Ratio, t: real)
    requires k != 0.0 && Scale(k, y) == v && Reads(y, t)
    ensures Is(v, t)
  {
    assert k * (t * y.den) == t * (k * y.den);
    ProductNonZero(k, y.den, v.den);
  }

  lemma OpenReads()
    ensures Reads(Far(false), 0.0)
  {
  }

  /** The last component, in series, in front of ground. */
  lemma GroundReads(c: Cmp, s: real)
    requires Prototype(c) && !c.End? && !c.gnd && s > 0.0
    ensures Positive(c) && Reads(Before(c, s, Far(true)), Mho(Ohms(c, s)))
  {
    assert Positive(c);
    hide Impedance, Positive;
    OhmsRatio(c, s);
    var z := Impedance(c, s);
    assert Before(c, s, Far(true)) == Ratio(z.den, z.num);
    FlipReads(z.num, z.den, Ohms(c, s));
  }

  lemma FlipReads(n: real, d: real, z: real)
    requires n > 0.0 && d > 0.0 && z > 0.0 && n == z * d
    ensures d == Mho(z) * n
  {
    var y := 1.0 / z;
    assert y * z == 1.0;
    assert y * (z * d) == y * z * d;
  }

  lemma InputLast(m: seq<Cmp>, c: Cmp, s: real, y: Ratio)
    ensures Input(m + [c], s, y) == Input(m, s, Before(c, s, y))
  {
    hide Before;
    InputAppend(m, [c], s, y);
    assert [c][1..] == [] && Input([], s, y) == y;
  }

  lemma SeenReads(l: seq<Cmp>, s: real, short: bool)
    requires AllPrototype(l) && EndsWell(l, short) && s > 0.0
    ensures AllPositive(l) && (short ==> l != [])
    ensures Reads(Input(l, s, Far(short)), Seen(l, s, short))
  {
    assert AllPositive(l);
    hide Input, Siemens, Reads, Far, Before, Ohms, Mho, AllPrototype, Prototype, AllPositive;
    if short {
      LastIs(l);
      var m, c := l[..|l| - 1], l[|l| - 1];
      GroundReads(c, s);
      InputIsSiemens(m, s, Before(c, s, Far(true)), Mho(Ohms(c, s)));
      InputLast(m, c, s, Far(true));
    } else {
      OpenReads();
      InputIsSiemens(l, s, Far(false), 0.0);
    }
  }

  lemma LadderShows(l: seq<Cmp>, p: real, k: real, v: Ratio, short: bool)
    requires AllPrototype(l) && EndsWell(l, short) && p > 0.0 && k != 0.0
    requires Scale(k, Input(l + [End], p, Far(short))) == v
    ensures AllPositive(l) && (short ==> l != [])
    ensures Is(v, Seen(l, p, short))
  {
    hide *;
    SeenReads(l, p, short);
    InputAppend(l, [End], p, Far(short));
    EndIsNothing(p, Far(short));
    ScaledReads(k, Input(l, p, Far(short)), v, Seen(l, p, short));
  }

  ghost function Common(b: Susceptance, ps: seq<real>, odd: bool): real
    requires Run(b, ps, odd)
  {
    if odd then OddFactor(b, ps) else EvenFactor(b, ps)
  }

  lemma OddMeans(b: Susceptance, ps: seq<real>, ws: real, dual: bool, p: real, v: Ratio)
    requires Run(b, ps, true) && v == Oriented(ValueOf(b, ws * p), dual)
    ensures Common(b, ps, true) != 0.0
    ensures Scale(Common(b, ps, true), Input(Parts(b, ps, ws, true, dual) + [End], p, Far(true == dual))) == v
  {
    RunIs(b, ps, ws, true, dual);
    hide OddRun, EvenRun, OddFactor, OddLadder, OddParts, Scale, Input, ValueOf, Oriented, Far, FarEnd;
    FarIs(true, dual);
    FactorsAreNonZero(b, ps);
    OddLadderMeans(b, ps, ws, dual, p);
  }

  lemma EvenMeans(b: Susceptance, ps: seq<real>, ws: real, dual: bool, p: real, v: Ratio)
    requires Run(b, ps, false) && v == Oriented(ValueOf(b, ws * p), dual)
    ensures Common(b, ps, false) != 0.0
    ensures Scale(Common(b, ps, false), Input(Parts(b, ps, ws, false, dual) + [End], p, Far(false == dual))) == v
  {
    RunIs(b, ps, ws, false, dual);
    hide OddRun, EvenRun, EvenFactor, EvenLadder, EvenParts, Scale, Input, ValueOf, Oriented, Far, FarEnd;
    FarIs(false, dual);
    FactorsAreNonZero(b, ps);
    EvenLadderMeans(b, ps, ws, dual, p);
  }

  /** A synthesised ladder of positive components shows the susceptance it was made from, or, dual,
      shows it as an impedance. */
  lemma PartsShow(b: Susceptance, ps: seq<real>, ws: real, odd: bool, dual: bool, p: real, v: Ratio)
    requires Run(b, ps, odd) && AllPrototype(Parts(b, ps, ws, odd, dual))
    requires p > 0.0 && v == Oriented(ValueOf(b, ws * p), dual)
    ensures AllPositive(Parts(b, ps, ws, odd, dual)) && (odd == dual ==> Parts(b, ps, ws, odd, dual) != [])
    ensures Is(v, Seen(Parts(b, ps, ws, odd, dual), p, odd == dual))
  {
    hide *;
    if odd { OddMeans(b, ps, ws, dual, p, v); } else { EvenMeans(b, ps, ws, dual, p, v); }
    PartsShape(b, ps, ws, odd, dual);
    LadderShows(Parts(b, ps, ws, odd, dual), p, Common(b, ps, odd), v, odd == dual);
  }

  lemma RunIs(b: Susceptance, ps: seq<real>, ws: real, odd: bool, dual: bool)
    requires Run(b, ps, odd)
    ensures Regular(b, ps)
    ensures odd ==> OddRun(b, ps) && OddLadder(b, ps, ws, dual) == Parts(b, ps, ws, odd, dual) + [End]
    ensures !odd ==> EvenRun(b, ps) && EvenLadder(b, ps, ws, dual) == Parts(b, ps, ws, odd, dual) + [End]
  {
    hide OddParts, EvenParts, Regular;
  }

  // ----- the whole way -----

  /** Compile and run: the filter synthesised from a susceptance BN / BD by removing its poles in
      any order, of odd or even order, direct or dual, and then transformed to any of the four
      forms.  When its components are positive, it shows 1 / r1 of the susceptance (dual: of the
      impedance) at the mapped frequency if and only if it is not a dual filter with finite poles
      transformed for a band. */
  lemma FilterExact(b: Susceptance, ps: seq<real>, ws: real, odd: bool, dual: bool, form: Form, t: Spec,
                    sqrt: real -> real, s: real, p: real, v: Ratio)
    requires Run(b, ps, odd) && AllPositive(Parts(b, ps, ws, odd, dual))
    requires IsSqrt(sqrt) && Suits(form, t) && s > 0.0 && p == Mapped(form, t, s)
    requires v == Oriented(ValueOf(b, ws * p), dual)
    ensures AllPositive(DenormalAll(Parts(b, ps, ws, odd, dual), form, t, sqrt))
    ensures odd == dual ==> DenormalAll(Parts(b, ps, ws, odd, dual), form, t, sqrt) != []
    ensures IsTimes(v, t.r1, Seen(DenormalAll(Parts(b, ps, ws, odd, dual), form, t, sqrt), s, odd == dual))
       <==> !(dual && ps != [] && Banded(form))
  {
    hide *;
    var l, short := Parts(b, ps, ws, odd, dual), odd == dual;
    PartsShape(b, ps, ws, odd, dual);
    FlaggedIsPrototype(l);
    SeenExact(l, form, t, sqrt, s, p, short);
    PartsShow(b, ps, ws, odd, dual, p, v);
    LossyIs(l, form, short);
    ScalesMeans(t.r1, Seen(DenormalAll(l, form, t, sqrt), s, short), Seen(l, p, short), v);
  }

  /** Every Slc that is tied to ground takes current. */
  lemma LossyIs(l: seq<Cmp>, form: Form, short: bool)
    requires forall i :: 0 <= i < |l| && l[i].Slc? ==> l[i].gnd
    ensures Lossy(l, form, short) <==> Banded(form) && HasSlc(l)
  {
    EverySlcMatters(l, 0.0);
  }

  lemma ScalesMeans(r: real, t: real, u: real, v: Ratio)
    requires Is(v, u)
    ensures IsTimes(v, r, t) <==> Scales(r, t, u)
  {
    if v.num == r * t * v.den { DivideUnique(v.num, v.den, r * t); }
    DivideUnique(v.num, v.den, u);
  }

  // ----- filters without finite poles -----

  lemma ElementShape(v: real, dual: bool, first: bool)
    requires v > 0.0
    ensures var l := [Element(v, dual, first)];
            Flagged(l) && AllPositive(l) && !HasSlc(l) && EndsWell(l, first == dual)
  {
  }

  lemma MoreShape(l: seq<Cmp>, m: seq<Cmp>)
    requires Flagged(l) && AllPositive(l) && !HasSlc(l) && Flagged(m) && AllPositive(m) && !HasSlc(m)
    ensures Flagged(l + m) && AllPositive(l + m) && !HasSlc(l + m)
  {
    FlaggedAppend(l, m);
  }

  lemma {:induction false} ElementsShape(gs: seq<real>, scale: real, dual: bool, first: bool)
    requires scale > 0.0 && forall i :: 0 <= i < |gs| ==> gs[i] > 0.0
    ensures var l := Elements(gs, scale, dual, first);
            && Flagged(l) && AllPositive(l) && !HasSlc(l) && |l| == |gs|
            && (gs != [] ==> EndsWell(l, ((|gs| % 2 == 1) == first) == dual))
    decreases |gs|
  {
    hide Flagged, AllPositive, HasSlc, EndsWell, Element;
    if gs == [] {
      NothingFlagged();
      assert AllPositive([]) by { NothingPositive(); }
    } else {
      var rest := Elements(gs[1..], scale, dual, !first);
      ElementsShape(gs[1..], scale, dual, !first);
      QuotientPositive(gs[0], scale, gs[0] / scale);
      ElementShape(gs[0] / scale, dual, first);
      MoreShape([Element(gs[0] / scale, dual, first)], rest);
      if |gs| == 1 {
        assert [Element(gs[0] / scale, dual, first)] + rest == [Element(gs[0] / scale, dual, first)];
      } else {
        EndsWellAppend([Element(gs[0] / scale, dual, first)], rest, ((|gs[1..]| % 2 == 1) == !first) == dual);
        EndParity(|gs|, first);
      }
    }
  }

  lemma NothingPositive()
    ensures AllPositive([])
  {
  }

  lemma EndParity(n: nat, first: bool)
    requires n > 1
    ensures (((n - 1) % 2 == 1) == !first) == ((n % 2 == 1) == first)
  {
  }

  lemma LoadIs(n: nat, c: real, dual: bool)
    ensures Load(n, c, dual) == Scale(c, Far((n % 2 == 1) == dual))
  {
  }

  /** Even orders end in ground and odd ones do not; dual ones the other way round. */
  predicate Grounded(n: nat, dual: bool) {
    (n % 2 == 1) == dual
  }

  lemma ElementsScaled(gs: seq<real>, c: real, scale: real, dual: bool, p: real, v: Ratio)
    requires NonZero(gs) && c != 0.0 && scale != 0.0
    requires v == Oriented(ValueOf(Fraction(gs, c), p / scale), dual)
    ensures Scale(c, Input(Elements(gs, scale, dual, true), p, Far(Grounded(|gs|, dual)))) == v
  {
    ElementsMean(gs, c, scale, dual, true, p);
    LoadIs(|gs|, c, dual);
    InputScale(Elements(gs, scale, dual, true), p, c, Far(Grounded(|gs|, dual)));
    hide Elements, Input, Fraction, ValueOf, Scale, Far, Load, Oriented;
  }

  lemma ElementsShow(gs: seq<real>, c: real, scale: real, dual: bool, p: real, v: Ratio)
    requires gs != [] && (forall i :: 0 <= i < |gs| ==> gs[i] > 0.0) && c != 0.0 && scale > 0.0 && p > 0.0
    requires v == Oriented(ValueOf(Fraction(gs, c), p / scale), dual)
    ensures ElementsFit(Elements(gs, scale, dual, true), Grounded(|gs|, dual))
    ensures Is(v, Seen(Elements(gs, scale, dual, true), p, Grounded(|gs|, dual)))
  {
    assert NonZero(gs);
    ElementsShape(gs, scale, dual, true);
    ElementsScaled(gs, c, scale, dual, p, v);
    var l, short := Elements(gs, scale, dual, true), Grounded(|gs|, dual);
    hide *;
    ElementsFitIs(l, short);
    SeenReads(l, p, short);
    ScaledReads(c, Input(l, p, Far(short)), v, Seen(l, p, short));
  }

  ghost predicate ElementsFit(l: seq<Cmp>, short: bool) {
    AllPrototype(l) && AllPositive(l) && EndsWell(l, short) && !HasSlc(l) && l != []
  }

  lemma ElementsFitIs(l: seq<Cmp>, short: bool)
    requires Flagged(l) && AllPositive(l) && EndsWell(l, short) && !HasSlc(l) && l != []
    ensures ElementsFit(l, short) && AllPrototype(l)
  {
    FlaggedIsPrototype(l);
  }

  /** Filters that are a continued fraction of positive terms g1 .. gn, of any order, direct or dual:
      in all four forms they show 1 / r1 of it at the mapped frequency over the scale. */
  lemma AllPoleFilterMeans(gs: seq<real>, c: real, scale: real, dual: bool, form: Form, t: Spec, sqrt: real -> real,
                           s: real, p: real, v: Ratio)
    requires gs != [] && (forall i :: 0 <= i < |gs| ==> gs[i] > 0.0) && c != 0.0 && scale > 0.0
    requires IsSqrt(sqrt) && Suits(form, t) && s > 0.0 && p == Mapped(form, t, s)
    requires v == Oriented(ValueOf(Fraction(gs, c), p / scale), dual)
    ensures AllPositive(DenormalAll(Elements(gs, scale, dual, true), form, t, sqrt))
    ensures DenormalAll(Elements(gs, scale, dual, true), form, t, sqrt) != []
    ensures IsTimes(v, t.r1, Seen(DenormalAll(Elements(gs, scale, dual, true), form, t, sqrt), s, Grounded(|gs|, dual)))
  {
    MappedIs(form, t, s, p);
    hide *;
    ElementsShow(gs, c, scale, dual, p, v);
    FitTransform(Elements(gs, scale, dual, true), form, t, sqrt, s, p, Grounded(|gs|, dual), v);
  }

  lemma FitTransform(l: seq<Cmp>, form: Form, t: Spec, sqrt: real -> real, s: real, p: real, short: bool, v: Ratio)
    requires ElementsFit(l, short) && IsSqrt(sqrt) && Suits(form, t) && s > 0.0 && p > 0.0 && p == Mapped(form, t, s)
    requires Is(v, Seen(l, p, short))
    ensures AllPositive(DenormalAll(l, form, t, sqrt)) && DenormalAll(l, form, t, sqrt) != []
    ensures IsTimes(v, t.r1, Seen(DenormalAll(l, form, t, sqrt), s, short))
  {
    assert AllPrototype(l) && EndsWell(l, short) && !HasSlc(l) && l != [];
    assert forall i :: 0 <= i < |l| ==> !l[i].Slc?;
    hide *;
    SeenExact(l, form, t, sqrt, s, p, short);
    LossyIs(l, form, short);
    DenormalNotEmpty(l, form, t, sqrt);
    ScalesMeans(t.r1, Seen(DenormalAll(l, form, t, sqrt), s, short), Seen(l, p, short), v);
  }

  lemma DenormalNotEmpty(l: seq<Cmp>, form: Form, t: Spec, sqrt: real -> real)
    requires AllPrototype(l) && l != []
    ensures DenormalAll(l, form, t, sqrt) != []
  {
    DenormalShaped(l[0], form, t, sqrt);
    hide Denormal;
  }
}
