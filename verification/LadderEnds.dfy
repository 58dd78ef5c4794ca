/** Ladders whose far end is tied to ground instead of open or loaded, before and after
    denormalisation. */
module LadderEnds {
  import opened RealMath
  import opened Ladder
  import opened Transform
  import opened TransformedLadder

  /** The admittance of an impedance. */
  ghost function Mho(z: real): (y: real)
    requires z > 0.0
    ensures y > 0.0
  {
    QuotientPositive(1.0, z, 1.0 / z);
    1.0 / z
  }

  /** The input admittance of a ladder whose far end is tied to ground: the last component, which
      is in series, is the load of the others. */
  ghost function Shorted(l: seq<Cmp>, s: real): real
    requires l != [] && AllPositive(l) && s > 0.0
  {
    Siemens(l[..|l| - 1], s, Mho(Ohms(l[|l| - 1], s)), 0.0)
  }

  /** The input admittance with either far end. */
  ghost function Seen(l: seq<Cmp>, s: real, short: bool): real
    requires AllPositive(l) && s > 0.0 && (short ==> l != [])
  {
    if short then Shorted(l, s) else Siemens(l, s, 0.0, 0.0)
  }

  /** A far end can be tied to ground behind a component in series. */
  predicate EndsWell(l: seq<Cmp>, short: bool) {
    short ==> l != [] && !l[|l| - 1].End? && !l[|l| - 1].gnd
  }

  // ----- the transformed components of the last one, as a load -----

  /** Only the admittance behind a transformed ladder matters. */
  lemma {:induction false} DenormalAllBefore(m: seq<Cmp>, rest: seq<Cmp>, form: Form, t: Spec, sqrt: real -> real,
                                             s: real, p: real, y: real)
    requires AllPrototype(m) && IsSqrt(sqrt) && Suits(form, t) && s > 0.0 && p == Mapped(form, t, s) && p > 0.0
    requires AllPositive(rest) && y >= 0.0
    ensures AllPositive(DenormalAll(m, form, t, sqrt)) && AllPositive(DenormalAll(m, form, t, sqrt) + rest)
    ensures Siemens(DenormalAll(m, form, t, sqrt) + rest, s, y, 0.0)
         == Siemens(DenormalAll(m, form, t, sqrt), s, Siemens(rest, s, y, 0.0), 0.0)
    decreases |m|
  {
    hide Mapped, Denormal, Ohms, Behind, Becomes, Shaped, Siemens, IsSqrt, Suits;
    if m == [] {
      assert DenormalAll(m, form, t, sqrt) + rest == rest && DenormalAll(m, form, t, sqrt) == [];
      NoLadder(s, Siemens(rest, s, y, 0.0));
    } else {
      var d, ds := Denormal(m[0], form, t, sqrt), DenormalAll(m[1..], form, t, sqrt);
      DenormalAllBefore(m[1..], rest, form, t, sqrt, s, p, y);
      DenormalMeans(m[0], form, t, sqrt, s, p);
      BecomesScaled(d, s, t.r1, Ohms(Survivor(m[0], form), p));
      ShapedSiemens(d, ds + rest, s, y, m[0].shnt, m[0].gnd);
      ShapedSiemens(d, ds, s, Siemens(rest, s, y, 0.0), m[0].shnt, m[0].gnd);
      assert d + ds + rest == d + (ds + rest);
    }
  }

  lemma NoLadder(s: real, y: real)
    requires s > 0.0 && y >= 0.0
    ensures Siemens([], s, y, 0.0) == y
  {
  }

  lemma SeriesLoad(c: Cmp, s: real, y: real)
    requires Positive(c) && !c.shnt && !c.gnd && s > 0.0 && y >= 0.0
    ensures Siemens([c], s, y, 0.0) == Behind(Ohms(c, s), y)
  {
    hide Ohms, Behind;
    assert [c][1..] == [];
  }

  /** Two components in series to ground. */
  lemma SeriesToGround(z: real, w: real)
    requires z > 0.0 && w > 0.0
    ensures Behind(z, Mho(w)) == Mho(z + w)
  {
    var y := 1.0 / w;
    QuotientPositive(1.0, w, y);
    BehindSign(z, y);
    var b := y / (1.0 + z * y);
    assert b * (z + w) == 1.0 by {
      assert (1.0 + z * y) * w == w + z * (y * w);
      assert b * (1.0 + z * y) == y;
      assert b * ((1.0 + z * y) * w) == y * w;
    }
    DivideUnique(1.0, z + w, b);
  }

  /** The transformed last component, tied to ground, is one load for what is in front of it. */
  lemma ShortedTail(a: seq<Cmp>, m: seq<Cmp>, d: seq<Cmp>, form: Form, t: Spec, sqrt: real -> real, s: real, p: real)
    requires AllPrototype(m) && IsSqrt(sqrt) && Suits(form, t) && s > 0.0 && p == Mapped(form, t, s) && p > 0.0
    requires a == DenormalAll(m, form, t, sqrt) && Shaped(d, false, false) && AllPositive(d)
    ensures AllPositive(a) && AllPositive(a + d) && TotalOhms(d, s) > 0.0
    ensures Shorted(a + d, s) == Siemens(a, s, Mho(TotalOhms(d, s)), 0.0)
  {
    hide Mapped, Denormal, DenormalAll, Ohms, Mho, Behind, Siemens, IsSqrt, Suits, AllPrototype;
    DenormalAllBefore(m, d, form, t, sqrt, s, p, 0.0);
    TwoOhms(d, s);
    var n := |a + d| - 1;
    if |d| == 1 {
      assert (a + d)[..n] == a && (a + d)[n] == d[0];
    } else {
      assert (a + d)[..n] == a + [d[0]] && (a + d)[n] == d[1];
      DenormalAllBefore(m, [d[0]], form, t, sqrt, s, p, Mho(Ohms(d[1], s)));
      SeriesLoad(d[0], s, Mho(Ohms(d[1], s)));
      SeriesToGround(Ohms(d[0], s), Ohms(d[1], s));
    }
  }

  lemma TwoOhms(d: seq<Cmp>, s: real)
    requires AllPositive(d) && 1 <= |d| <= 2 && s > 0.0
    ensures TotalOhms(d, s) == if |d| == 1 then Ohms(d[0], s) else Ohms(d[0], s) + Ohms(d[1], s)
    ensures TotalOhms(d, s) > 0.0
  {
    hide Ohms;
    assert d[1..] == if |d| == 1 then [] else [d[1]];
    assert |d| == 2 ==> d[1..][1..] == [];
    assert |d| == 2 ==> TotalOhms(d[1..], s) == Ohms(d[1], s) + TotalOhms(d[1..][1..], s);
  }

  lemma InverseScales(r: real, z: real, w: real)
    requires r > 0.0 && z > 0.0 && Scales(r, z, w)
    ensures w > 0.0 && r * Mho(w) == Mho(z)
  {
    ProductPositive(r, z, w);
    var i := 1.0 / w;
    assert r * i * z == i * (r * z);
    DivideUnique(1.0, z, r * i);
  }

  lemma ShortedStep(m: seq<Cmp>, c: Cmp, form: Form, t: Spec, sqrt: real -> real, s: real, p: real)
    requires AllPrototype(m) && Prototype(c) && !c.End? && !c.shnt && !c.gnd
    requires IsSqrt(sqrt) && Suits(form, t) && t.r1 > 0.0 && s > 0.0 && p == Mapped(form, t, s) && p > 0.0
    ensures Positive(Survivor(c, form)) && AllPositive(Survivors(m, form))
    ensures AllPositive(DenormalAll(m, form, t, sqrt) + Denormal(c, form, t, sqrt)) && Denormal(c, form, t, sqrt) != []
    ensures Scales(t.r1, Shorted(DenormalAll(m, form, t, sqrt) + Denormal(c, form, t, sqrt), s),
                   Siemens(Survivors(m, form), p, Mho(Ohms(Survivor(c, form), p)), 0.0))
  {
    hide *;
    var a, d, z := DenormalAll(m, form, t, sqrt), Denormal(c, form, t, sqrt), Survivor(c, form);
    DenormalMeans(c, form, t, sqrt, s, p);
    BecomesScaled(d, s, t.r1, Ohms(z, p));
    ShapedSome(d, false, false);
    ShortedTail(a, m, d, form, t, sqrt, s, p);
    InverseScales(t.r1, Ohms(z, p), TotalOhms(d, s));
    TransformMeans(m, form, t, sqrt, s, p, Mho(TotalOhms(d, s)), Mho(Ohms(z, p)));
  }

  /** Denormalisation preserves meaning in front of a far end that is tied to ground. */
  lemma ShortedMeans(l: seq<Cmp>, form: Form, t: Spec, sqrt: real -> real, s: real, p: real)
    requires AllPrototype(l) && EndsWell(l, true)
    requires IsSqrt(sqrt) && Suits(form, t) && s > 0.0 && p == Mapped(form, t, s)
    ensures p > 0.0 && AllPositive(Survivors(l, form)) && AllPositive(DenormalAll(l, form, t, sqrt))
    ensures Survivors(l, form) != [] && DenormalAll(l, form, t, sqrt) != []
    ensures Scales(t.r1, Shorted(DenormalAll(l, form, t, sqrt), s), Shorted(Survivors(l, form), p))
  {
    LastIs(l);
    var m, c := l[..|l| - 1], l[|l| - 1];
    MappedIs(form, t, s, p);
    assert t.r1 > 0.0;
    SurvivorsPrototype(l, form);
    hide *;
    LastSurvivor(l, form);
    DenormalAllAppend(m, [c], form, t, sqrt);
    DenormalAllOne(c, form, t, sqrt);
    ShortedStep(m, c, form, t, sqrt, s, p);
    ShortedIs(Survivors(l, form), p);
  }

  lemma LastIs(l: seq<Cmp>)
    requires AllPrototype(l) && EndsWell(l, true)
    ensures l != [] && l == l[..|l| - 1] + [l[|l| - 1]]
    ensures var c := l[|l| - 1]; Prototype(c) && !c.End? && !c.shnt && !c.gnd
    ensures AllPrototype(l[..|l| - 1])
  {
  }

  lemma ShapedSome(d: seq<Cmp>, shnt: bool, gnd: bool)
    requires Shaped(d, shnt, gnd)
    ensures d != []
  {
  }

  lemma ShortedIs(l: seq<Cmp>, s: real)
    requires l != [] && AllPositive(l) && s > 0.0
    ensures AllPositive(l[..|l| - 1]) && Positive(l[|l| - 1])
    ensures Shorted(l, s) == Siemens(l[..|l| - 1], s, Mho(Ohms(l[|l| - 1], s)), 0.0)
  {
    hide Ohms, Siemens, Mho;
  }

  lemma LastSurvivor(l: seq<Cmp>, form: Form)
    requires l != []
    ensures Survivors(l, form) != [] && Survivors(l, form)[..|l| - 1] == Survivors(l[..|l| - 1], form)
    ensures |Survivors(l, form)| == |l| && Survivors(l, form)[|l| - 1] == Survivor(l[|l| - 1], form)
  {
    hide Survivor;
    var n := |l| - 1;
    assert |Survivors(l, form)| == |l|;
    forall i | 0 <= i < n ensures Survivors(l, form)[i] == Survivors(l[..n], form)[i] {
      assert l[..n][i] == l[i];
    }
    assert Survivors(l, form)[..n] == Survivors(l[..n], form);
  }

  // ----- exactness, with either far end -----

  /** The transformation for a band splits an Slc that takes current. */
  ghost predicate Lossy(l: seq<Cmp>, form: Form, short: bool) {
    Banded(form) && if short then HasSlc(l) else SlcMatters(l, 0.0)
  }

  lemma MhoOrder(z: real, w: real)
    requires 0.0 < z <= w
    ensures Mho(w) <= Mho(z) && (Mho(w) < Mho(z) <==> z < w)
  {
    InversesReverse(z, w);
  }

  lemma SlcLast(l: seq<Cmp>)
    requires l != []
    ensures HasSlc(l) <==> HasSlc(l[..|l| - 1]) || l[|l| - 1].Slc?
  {
    var n := |l| - 1;
    if HasSlc(l) && !l[n].Slc? {
      var i :| 0 <= i < |l| && l[i].Slc?;
      assert l[..n][i].Slc?;
    }
    if HasSlc(l[..n]) {
      var i :| 0 <= i < n && l[..n][i].Slc?;
      assert l[i].Slc?;
    }
  }

  /** In front of ground, what survives shows at least as much, and as much only if nothing is lost. */
  lemma ShortedAdmit(l: seq<Cmp>, form: Form, p: real)
    requires AllPrototype(l) && EndsWell(l, true) && p > 0.0
    ensures AllPositive(l) && AllPositive(Survivors(l, form)) && Survivors(l, form) != []
    ensures Shorted(l, p) <= Shorted(Survivors(l, form), p)
    ensures Shorted(l, p) < Shorted(Survivors(l, form), p) <==> Lossy(l, form, true)
  {
    LastIs(l);
    var m, c := l[..|l| - 1], l[|l| - 1];
    SurvivorsPrototype(l, form);
    assert Positive(c);
    assert Lossy(l, form, true) <==> Banded(form) && HasSlc(l);
    hide *;
    LastSurvivor(l, form);
    SlcLast(l);
    SurvivorOhms(c, form, p);
    MhoOrder(Ohms(Survivor(c, form), p), Ohms(c, p));
    EverySlcMatters(m, Mho(Ohms(c, p)));
    SurvivorsAdmit(m, form, p, Mho(Ohms(c, p)), Mho(Ohms(Survivor(c, form), p)));
    ShortedIs(l, p);
    ShortedIs(Survivors(l, form), p);
  }

  /** A transformed ladder shows 1 / r1 of the admittance of its prototype at the mapped frequency
      exactly when no Slc that takes current is split, whether its far end is open or tied to ground. */
  lemma SeenExact(l: seq<Cmp>, form: Form, t: Spec, sqrt: real -> real, s: real, p: real, short: bool)
    requires AllPrototype(l) && EndsWell(l, short)
    requires IsSqrt(sqrt) && Suits(form, t) && s > 0.0 && p == Mapped(form, t, s)
    ensures p > 0.0 && AllPositive(l) && AllPositive(DenormalAll(l, form, t, sqrt))
    ensures short ==> l != [] && DenormalAll(l, form, t, sqrt) != []
    ensures Scales(t.r1, Seen(DenormalAll(l, form, t, sqrt), s, short), Seen(l, p, short)) <==> !Lossy(l, form, short)
  {
    MappedIs(form, t, s, p);
    assert t.r1 * 0.0 == 0.0;
    SurvivorsPrototype(l, form);
    hide Mapped, AllPrototype, DenormalAll, Siemens, Shorted;
    hide Scales, IsSqrt, Survivors, HasSlc, SlcMatters, AllPositive;
    if short {
      ShortedMeans(l, form, t, sqrt, s, p);
      ShortedAdmit(l, form, p);
      ScalesExactly(t.r1, Shorted(DenormalAll(l, form, t, sqrt), s), Shorted(Survivors(l, form), p), Shorted(l, p));
    } else {
      TransformExact(l, form, t, sqrt, s, 0.0);
    }
  }
}
