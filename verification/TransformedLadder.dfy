/** Whole transformed ladders: the list a transformation builds, and what it means. */
module TransformedLadder {
  import opened RealMath
  import opened Ladder
  import opened Transform

  /** The components a synthesis emits: positive, none of them already split, and each either
      tied to ground or in series. */
  ghost predicate Prototype(c: Cmp) {
    Positive(c) && !c.Pslc? && c.shnt == c.gnd
  }

  ghost predicate AllPrototype(l: seq<Cmp>) {
    forall i :: 0 <= i < |l| ==> Prototype(l[i])
  }

  /** What the transformed component stands for: a Slc transformed for a band loses its capacitor
      (band-pass) or its inductor (band-stop); everything else stands for itself. */
  function Survivor(c: Cmp, form: Form): Cmp {
    match c
    case Slc(vc, vl, s, g) =>
      if form.BandPass? then Ind(vl, s, g)
      else if form.BandStop? then Cap(vc, s, g)
      else c
    case _ => c
  }

  function Survivors(l: seq<Cmp>, form: Form): (r: seq<Cmp>)
    ensures |r| == |l| && forall i :: 0 <= i < |l| ==> r[i] == Survivor(l[i], form)
    decreases |l|
  {
    if l == [] then [] else [Survivor(l[0], form)] + Survivors(l[1..], form)
  }

  lemma SurvivorsPrototype(l: seq<Cmp>, form: Form)
    requires AllPrototype(l)
    ensures AllPositive(l) && AllPrototype(Survivors(l, form)) && AllPositive(Survivors(l, form))
  {
  }

  // ----- one component -----

  lemma InverseShare(p: real, q: real, v: real)
    requires p * q == 1.0 && v > 0.0
    ensures q / v * (p * v) == 1.0 && q / v * v == q
  {
    assert q / v * (p * v) == q / v * v * p;
  }

  /** The flags of a transformed component: one component with the flags of the original, or two,
      of which the first carries shnt and the second gnd. */
  ghost predicate Shaped(l: seq<Cmp>, shnt: bool, gnd: bool) {
    || (|l| == 1 && !l[0].End? && l[0].shnt == shnt && l[0].gnd == gnd)
    || (|l| == 2 && !l[0].End? && !l[1].End? && l[0].shnt == shnt && !l[0].gnd && !l[1].shnt && l[1].gnd == gnd)
  }

  lemma DenormalShaped(c: Cmp, form: Form, t: Spec, sqrt: real -> real)
    requires Prototype(c)
    ensures Shaped(Denormal(c, form, t, sqrt), c.shnt, c.gnd)
  {
    hide Over, Farads, Henrys, Root, Half, Lower, Upper;
  }

  /** x, y and q are s / fc, fc / s and 1 / p. */
  ghost predicate Mapping(form: Form, t: Spec, s: real, x: real, y: real, p: real, q: real) {
    && GoodSpec(t) && Scaled(t, s, x, y) && MapsTo(form, x, y, Over(t.fc, t.bw), p, q)
  }

  lemma IndMeans(v: real, sh: bool, g: bool, form: Form, t: Spec, sqrt: real -> real,
                 s: real, x: real, y: real, p: real, q: real)
    requires v > 0.0 && Mapping(form, t, s, x, y, p, q)
    ensures Becomes(Denormal(Ind(v, sh, g), form, t, sqrt), s, t.r1, Ohms(Ind(v, sh, g), p))
  {
    hide Over, Becomes, Denormal;
    OhmsInd(v, sh, g, p, p * v);
    IndBecomes(form, v, sh, g, t, sqrt, s, x, y, p, q, p * v);
  }

  lemma CapMeans(v: real, sh: bool, g: bool, form: Form, t: Spec, sqrt: real -> real,
                 s: real, x: real, y: real, p: real, q: real)
    requires v > 0.0 && Mapping(form, t, s, x, y, p, q)
    ensures Becomes(Denormal(Cap(v, sh, g), form, t, sqrt), s, t.r1, Ohms(Cap(v, sh, g), p))
  {
    var k, _ := SlcShares(v, v, p, q);
    hide Over, Becomes, Denormal;
    OhmsCap(v, sh, g, p, k);
    hide Ohms, Scaled, MapsTo;
    CapBecomes(form, v, sh, g, t, sqrt, s, x, y, p, q, k);
  }

  lemma ResMeans(v: real, sh: bool, g: bool, form: Form, t: Spec, sqrt: real -> real, s: real, p: real)
    requires v > 0.0 && GoodSpec(t) && s > 0.0 && p > 0.0
    ensures Becomes(Denormal(Res(v, sh, g), form, t, sqrt), s, t.r1, Ohms(Res(v, sh, g), p))
  {
    hide Over, Becomes, Denormal;
    DivideUnique(v, 1.0, v);
    ResBecomes(form, v, sh, g, t, sqrt, s);
  }

  lemma SlcMeans(vc: real, vl: real, sh: bool, g: bool, form: Form, t: Spec, sqrt: real -> real,
                 s: real, x: real, y: real, p: real, q: real)
    requires vc > 0.0 && vl > 0.0 && IsSqrt(sqrt) && Mapping(form, t, s, x, y, p, q)
    ensures Becomes(Denormal(Slc(vc, vl, sh, g), form, t, sqrt), s, t.r1,
                    Ohms(Survivor(Slc(vc, vl, sh, g), form), p))
  {
    var k, l := SlcShares(vc, vl, p, q);
    hide Over, Becomes, Denormal;
    OhmsInd(vl, sh, g, p, l);
    OhmsCap(vc, sh, g, p, k);
    OhmsSlc(vc, vl, sh, g, p, l, k);
    hide Ohms, Scaled, MapsTo;
    if Banded(form) {
      SlcSplits(form, vc, vl, sh, g, t, sqrt, s, x, y, p, q, k, l);
    } else {
      SlcBecomes(form, vc, vl, sh, g, t, sqrt, s, x, y, p, q, k, l);
    }
  }

  lemma SlcShares(vc: real, vl: real, p: real, q: real) returns (k: real, l: real)
    requires vc > 0.0 && p * q == 1.0
    ensures l == p * vl && k * vc == q && k * (p * vc) == 1.0
  {
    InverseShare(p, q, vc);
    k, l := q / vc, p * vl;
  }

  lemma PlcMeans(vc: real, vl: real, sh: bool, g: bool, form: Form, t: Spec, sqrt: real -> real,
                 s: real, x: real, y: real, p: real, q: real)
    requires vc > 0.0 && vl > 0.0 && IsSqrt(sqrt) && Mapping(form, t, s, x, y, p, q)
    ensures Becomes(Denormal(Plc(vc, vl, sh, g), form, t, sqrt), s, t.r1, Ohms(Plc(vc, vl, sh, g), p))
  {
    var k, l, z := PlcAsSum(vc, vl, p, q);
    hide Over, Becomes, Denormal;
    OhmsPlc(vc, vl, sh, g, p, l, z);
    hide Ohms, Scaled, MapsTo;
    if Banded(form) {
      PlcSplits(form, vc, vl, sh, g, t, sqrt, s, x, y, p, q, k, l, z);
    } else {
      PlcBecomes(form, vc, vl, sh, g, t, sqrt, s, x, y, p, q, k, l, z);
    }
  }

  lemma PlcAsSum(vc: real, vl: real, p: real, q: real) returns (k: real, l: real, z: real)
    requires vc > 0.0 && vl > 0.0 && p > 0.0 && q > 0.0 && p * q == 1.0
    ensures k == p * vc && l * vl == q && l * (p * vl) == 1.0 && z * (p * vc + l) == 1.0 && z * (k + l) == 1.0
  {
    InverseShare(p, q, vl);
    ProductPositive(p, vc, p * vc);
    QuotientPositive(q, vl, q / vl);
    k, l := p * vc, q / vl;
    z := 1.0 / (k + l);
  }

  /** A transformed component has r1 times the impedance of what survives of it. */
  lemma DenormalMeans(c: Cmp, form: Form, t: Spec, sqrt: real -> real, s: real, p: real)
    requires IsSqrt(sqrt) && Suits(form, t) && s > 0.0 && Prototype(c) && p == Mapped(form, t, s) && p > 0.0
    ensures Positive(Survivor(c, form))
    ensures Shaped(Denormal(c, form, t, sqrt), c.shnt, c.gnd)
    ensures Becomes(Denormal(c, form, t, sqrt), s, t.r1, Ohms(Survivor(c, form), p))
  {
    MappedIs(form, t, s, p);
    DenormalShaped(c, form, t, sqrt);
    var x, y, q := Over(s, t.fc), Over(t.fc, s), Over(1.0, p);
    hide Over, Becomes, Mapped, Ohms, Denormal, Shaped;
    match c
    case Ind(v, sh, g) => IndMeans(v, sh, g, form, t, sqrt, s, x, y, p, q);
    case Cap(v, sh, g) => CapMeans(v, sh, g, form, t, sqrt, s, x, y, p, q);
    case Res(v, sh, g) => ResMeans(v, sh, g, form, t, sqrt, s, p);
    case Slc(vc, vl, sh, g) => SlcMeans(vc, vl, sh, g, form, t, sqrt, s, x, y, p, q);
    case Plc(vc, vl, sh, g) => PlcMeans(vc, vl, sh, g, form, t, sqrt, s, x, y, p, q);
  }

  // ----- whole ladders -----

  /** A component between its flags: a branch to ground, or an impedance in series. */
  ghost function Inserted(gnd: bool, z: real, t: real): (r: real)
    requires z > 0.0 && t >= 0.0
    ensures r >= 0.0 && (t > 0.0 ==> r > 0.0)
  {
    QuotientPositive(1.0, z, 1.0 / z);
    if gnd then t + 1.0 / z else Behind(z, t)
  }

  lemma BehindTwice(z: real, w: real, t: real)
    requires z > 0.0 && w > 0.0 && t >= 0.0
    ensures Behind(z, Behind(w, t)) == Behind(z + w, t)
  {
    BehindSign(w, t);
    BehindSign(z, Behind(w, t));
    BehindSign(z + w, t);
    var d := 1.0 + w * t;
    var e := t / d;
    assert (1.0 + z * e) * d == 1.0 + (z + w) * t by {
      assert z * e * d == z * (e * d);
    }
    BehindQuotient(t, d, e, z, 1.0 + (z + w) * t);
  }

  lemma BehindQuotient(t: real, d: real, e: real, z: real, k: real)
    requires e * d == t && (1.0 + z * e) * d == k && k > 0.0 && 1.0 + z * e > 0.0
    ensures e / (1.0 + z * e) == t / k
  {
    var v := t / k;
    calc {
      v * (1.0 + z * e) * d;
      v * ((1.0 + z * e) * d);
      t;
    }
    assert d != 0.0;
    DivideUnique(t, d, v * (1.0 + z * e));
    DivideUnique(t, d, e);
    DivideUnique(e, 1.0 + z * e, v);
  }

  /** In front of a transformed component, the ladder shows its impedance inserted at its flags. */
  lemma ShapedSiemens(l: seq<Cmp>, rest: seq<Cmp>, s: real, y: real, shnt: bool, gnd: bool)
    requires Shaped(l, shnt, gnd) && shnt == gnd && AllPositive(l) && AllPositive(rest) && s > 0.0 && y >= 0.0
    ensures AllPositive(l + rest) && TotalOhms(l, s) > 0.0
    ensures Siemens(l + rest, s, y, 0.0) == Inserted(gnd, TotalOhms(l, s), Siemens(rest, s, y, 0.0))
  {
    hide Ohms, Behind;
    if |l| == 1 {
      assert l[1..] == [] && (l + rest)[1..] == rest;
    } else {
      assert l[1..][1..] == [] && (l + rest)[1..][1..] == rest && (l + rest)[1..][0] == l[1];
      assert TotalOhms(l, s) == Ohms(l[0], s) + TotalOhms(l[1..], s);
      assert TotalOhms(l[1..], s) == Ohms(l[1], s);
      if !gnd { BehindTwice(Ohms(l[0], s), Ohms(l[1], s), Siemens(rest, s, y, 0.0)); }
    }
  }

  /** The list a transformation builds from the components of a prototype. */
  function DenormalAll(l: seq<Cmp>, form: Form, t: Spec, sqrt: real -> real): seq<Cmp>
    decreases |l|
  {
    if l == [] then [] else Denormal(l[0], form, t, sqrt) + DenormalAll(l[1..], form, t, sqrt)
  }

  /** u is r times t. */
  ghost predicate Scales(r: real, t: real, u: real) {
    r * t == u
  }

  lemma InsertedScale(gnd: bool, z: real, w: real, r: real, t: real, u: real)
    requires z > 0.0 && r > 0.0 && t >= 0.0 && Scales(r, z, w) && Scales(r, t, u)
    ensures w > 0.0 && u >= 0.0
    ensures Scales(r, Inserted(gnd, w, t), Inserted(gnd, z, u))
  {
    ProductPositive(r, z, w);
    if t > 0.0 { ProductPositive(r, t, u); }
    if gnd {
      ScaleBranch(r, z, w, t, u, 1.0 / w, 1.0 / z);
    } else {
      BehindSign(w, t);
      BehindSign(z, u);
      ScaleBehind(z, w, r, t, u, 1.0 + z * u, 1.0 + w * t);
    }
  }

  lemma ScaleBranch(r: real, z: real, w: real, t: real, u: real, i: real, j: real)
    requires z > 0.0 && w == r * z && u == r * t && i * w == 1.0 && j * z == 1.0
    ensures r * (t + i) == u + j
  {
    assert r * i * z == i * (r * z);
    DivideUnique(1.0, z, r * i);
    DivideUnique(1.0, z, j);
  }

  lemma ScaleBehind(z: real, w: real, r: real, t: real, u: real, d: real, e: real)
    requires u == r * t && w == r * z && d == 1.0 + z * u && e == 1.0 + w * t && d > 0.0
    ensures d == e && r * (t / e) == u / d
  {
    assert z * (r * t) == r * z * t;
    assert r * (t / e) * d == r * t;
    DivideUnique(u, d, r * (t / e));
  }

  /** Denormalisation preserves meaning: at s the transformed ladder shows 1 / r1 of the
      admittance that what survives of the prototype shows at the mapped frequency. */
  lemma {:induction false} TransformMeans(l: seq<Cmp>, form: Form, t: Spec, sqrt: real -> real, s: real, p: real,
                                          load: real, y: real)
    requires AllPrototype(l) && IsSqrt(sqrt) && Suits(form, t) && s > 0.0 && p == Mapped(form, t, s)
    requires y >= 0.0 && load >= 0.0 && t.r1 * load == y
    ensures p > 0.0 && AllPositive(Survivors(l, form)) && AllPositive(DenormalAll(l, form, t, sqrt))
    ensures Scales(t.r1, Siemens(DenormalAll(l, form, t, sqrt), s, load, 0.0), Siemens(Survivors(l, form), p, y, 0.0))
    decreases |l|
  {
    MappedIs(form, t, s, p);
    SurvivorsPrototype(l, form);
    hide Mapped, Over, Denormal, Ohms, Survivor, Becomes, Shaped, MapsTo, Scaled;
    if l == [] {
      assert DenormalAll(l, form, t, sqrt) == [] && Survivors(l, form) == [];
    } else {
      hide Scales, Siemens;
      TransformMeans(l[1..], form, t, sqrt, s, p, load, y);
      DenormalMeans(l[0], form, t, sqrt, s, p);
      SurvivorFlags(l[0], form);
      var d, rest := Denormal(l[0], form, t, sqrt), DenormalAll(l[1..], form, t, sqrt);
      assert Survivors(l, form)[1..] == Survivors(l[1..], form);
      TransformStep(d, rest, Survivors(l, form), t.r1, s, p, load, y, l[0].gnd);
    }
  }

  lemma SurvivorFlags(c: Cmp, form: Form)
    requires !c.End?
    ensures !Survivor(c, form).End? && Survivor(c, form).shnt == c.shnt && Survivor(c, form).gnd == c.gnd
  {
  }

  lemma TransformStep(d: seq<Cmp>, rest: seq<Cmp>, l: seq<Cmp>, r: real, s: real, p: real, load: real, y: real,
                      gnd: bool)
    requires r > 0.0 && s > 0.0 && p > 0.0 && y >= 0.0 && load >= 0.0
    requires l != [] && AllPositive(l) && AllPositive(rest) && l[0].shnt == l[0].gnd == gnd
    requires Shaped(d, gnd, gnd) && Becomes(d, s, r, Ohms(l[0], p))
    requires Scales(r, Siemens(rest, s, load, 0.0), Siemens(l[1..], p, y, 0.0))
    ensures AllPositive(d + rest)
    ensures Scales(r, Siemens(d + rest, s, load, 0.0), Siemens(l, p, y, 0.0))
  {
    hide *;
    RestPositive(l);
    BecomesScaled(d, s, r, Ohms(l[0], p));
    ShapedSiemens(d, rest, s, load, gnd, gnd);
    InsertedScale(gnd, Ohms(l[0], p), TotalOhms(d, s), r, Siemens(rest, s, load, 0.0), Siemens(l[1..], p, y, 0.0));
    PrototypeSiemens(l, p, y);
  }

  lemma RestPositive(l: seq<Cmp>)
    requires l != [] && AllPositive(l)
    ensures Positive(l[0]) && AllPositive(l[1..])
  {
  }

  lemma BecomesScaled(d: seq<Cmp>, s: real, r: real, z: real)
    requires Becomes(d, s, r, z)
    ensures s > 0.0 && AllPositive(d) && Scales(r, z, TotalOhms(d, s))
  {
    hide Positive, TotalOhms;
  }

  /** A ladder of prototype components, one component at a time. */
  lemma PrototypeSiemens(l: seq<Cmp>, p: real, y: real)
    requires l != [] && AllPositive(l) && l[0].shnt == l[0].gnd && p > 0.0 && y >= 0.0
    ensures Siemens(l, p, y, 0.0) == Inserted(l[0].gnd, Ohms(l[0], p), Siemens(l[1..], p, y, 0.0))
  {
    hide Ohms, Behind;
  }

  // ----- what a split Slc loses -----

  predicate HasSlc(l: seq<Cmp>) {
    exists i :: 0 <= i < |l| && l[i].Slc?
  }

  /** The ladder takes current: it has a load, or a branch to ground. */
  predicate Conducts(l: seq<Cmp>, y: real)
    decreases |l|
  {
    if l == [] then y > 0.0 else (!l[0].End? && l[0].gnd) || Conducts(l[1..], y)
  }

  /** Some Slc takes current: it is tied to ground, or what is behind it takes some. */
  predicate SlcMatters(l: seq<Cmp>, y: real)
    decreases |l|
  {
    l != [] && ((l[0].Slc? && (l[0].gnd || Conducts(l[1..], y))) || SlcMatters(l[1..], y))
  }

  lemma {:induction false} LoadConducts(l: seq<Cmp>, y: real)
    requires y > 0.0
    ensures Conducts(l, y)
    decreases |l|
  {
    if l != [] { LoadConducts(l[1..], y); }
  }

  /** In front of a load, or if all of them are tied to ground, every Slc matters. */
  lemma {:induction false} EverySlcMatters(l: seq<Cmp>, y: real)
    requires y > 0.0 || forall i :: 0 <= i < |l| && l[i].Slc? ==> l[i].gnd
    ensures SlcMatters(l, y) <==> HasSlc(l)
    decreases |l|
  {
    if l != [] {
      EverySlcMatters(l[1..], y);
      SlcSomewhere(l);
      if y > 0.0 { LoadConducts(l[1..], y); }
    }
  }

  lemma InsertedSign(gnd: bool, z: real, t: real)
    requires z > 0.0 && t >= 0.0
    ensures Inserted(gnd, z, t) > 0.0 <==> gnd || t > 0.0
  {
    QuotientPositive(1.0, z, 1.0 / z);
    if t == 0.0 { BehindNothing(z); }
  }

  lemma BehindNothing(z: real)
    requires z > 0.0
    ensures Behind(z, 0.0) == 0.0
  {
    assert z * 0.0 == 0.0;
  }

  /** A ladder admits something exactly when it takes current. */
  lemma {:induction false} ConductsIs(l: seq<Cmp>, p: real, y: real)
    requires AllPrototype(l) && p > 0.0 && y >= 0.0
    ensures AllPositive(l) && (Siemens(l, p, y, 0.0) > 0.0 <==> Conducts(l, y))
    decreases |l|
  {
    hide Ohms, Inserted;
    if l != [] {
      ConductsIs(l[1..], p, y);
      PrototypeSiemens(l, p, y);
      InsertedSign(l[0].gnd, Ohms(l[0], p), Siemens(l[1..], p, y, 0.0));
    }
  }

  lemma SurvivorOhms(c: Cmp, form: Form, p: real)
    requires Prototype(c) && p > 0.0
    ensures Positive(Survivor(c, form))
    ensures Ohms(Survivor(c, form), p) <= Ohms(c, p)
    ensures c.Slc? && Banded(form) ==> Ohms(Survivor(c, form), p) < Ohms(c, p)
    ensures !c.Slc? || !Banded(form) ==> Survivor(c, form) == c
  {
    if c.Slc? {
      QuotientPositive(1.0, p, 1.0 / p);
      var k, l := SlcShares(c.vC, c.vL, p, 1.0 / p);
      hide Ohms;
      OhmsInd(c.vL, c.shnt, c.gnd, p, l);
      OhmsCap(c.vC, c.shnt, c.gnd, p, k);
      OhmsSlc(c.vC, c.vL, c.shnt, c.gnd, p, l, k);
    }
  }

  /** More admittance behind and less impedance in between show more admittance in front. */
  lemma InsertedOrder(gnd: bool, z: real, w: real, t: real, u: real)
    requires 0.0 < w <= z && 0.0 <= t <= u
    ensures Inserted(gnd, z, t) <= Inserted(gnd, w, u)
    ensures Inserted(gnd, z, t) < Inserted(gnd, w, u) <==> t < u || (w < z && (gnd || t > 0.0))
  {
    if gnd {
      if w < z { InversesReverse(w, z); }
    } else {
      BehindOrder(z, w, t, u);
      if t == u == 0.0 {
        BehindNothing(z);
        BehindNothing(w);
      }
    }
  }

  lemma BehindOrder(z: real, w: real, t: real, u: real)
    requires 0.0 < w <= z && 0.0 <= t <= u
    ensures Behind(z, t) <= Behind(w, u)
    ensures t < u || (w < z && t > 0.0) ==> Behind(z, t) < Behind(w, u)
  {
    BehindSign(z, t);
    BehindSign(w, u);
    CrossOrder(z, w, t, u, 1.0 + z * t, 1.0 + w * u);
    QuotientOrder(t, 1.0 + z * t, u, 1.0 + w * u);
  }

  lemma CrossOrder(z: real, w: real, t: real, u: real, d: real, e: real)
    requires 0.0 < w <= z && 0.0 <= t <= u && d == 1.0 + z * t && e == 1.0 + w * u
    ensures t * e <= u * d
    ensures t < u || (w < z && t > 0.0) ==> t * e < u * d
  {
    var p := t * u;
    assert t * e == t + w * p by { assert t * (w * u) == w * (t * u); }
    assert u * d == u + z * p by { assert u * (z * t) == z * (t * u); }
    if t > 0.0 {
      ProductPositive(t, u, p);
      if w < z { ProductIncreases(w, z, p); }
    } else {
      assert p == 0.0 * u;
    }
  }

  lemma QuotientOrder(a: real, d: real, b: real, e: real)
    requires d > 0.0 && e > 0.0
    ensures a * e <= b * d ==> a / d <= b / e
    ensures a * e < b * d ==> a / d < b / e
  {
    var x, y := a / d, b / e;
    if y < x {
      ProductPositive(d, e, d * e);
      ProductIncreases(y, x, d * e);
      assert x * (d * e) == x * d * e && y * (d * e) == y * e * d;
    }
    if x == y { assert a * e == b * d by { assert x * d * e == y * e * d; } }
  }

  /** What survives of a prototype, with a load that is not smaller, shows at least its admittance,
      and strictly more if and only if the load is greater or an Slc that takes current is split. */
  lemma {:induction false} SurvivorsAdmit(l: seq<Cmp>, form: Form, p: real, y: real, u: real)
    requires AllPrototype(l) && p > 0.0 && 0.0 <= y <= u
    ensures AllPositive(l) && AllPositive(Survivors(l, form))
    ensures Siemens(l, p, y, 0.0) <= Siemens(Survivors(l, form), p, u, 0.0)
    ensures Siemens(l, p, y, 0.0) < Siemens(Survivors(l, form), p, u, 0.0)
       <==> y < u || (Banded(form) && SlcMatters(l, y))
    decreases |l|
  {
    SurvivorsPrototype(l, form);
    if l == [] {
      assert Survivors(l, form) == [];
    } else {
      var m := Survivors(l, form);
      SurvivorsAdmit(l[1..], form, p, y, u);
      SurvivorOhms(l[0], form, p);
      assert m[1..] == Survivors(l[1..], form) && m[0] == Survivor(l[0], form);
      SurvivorFlags(l[0], form);
      ConductsIs(l[1..], p, y);
      assert SlcMatters(l, y) <==> (l[0].Slc? && (l[0].gnd || Conducts(l[1..], y))) || SlcMatters(l[1..], y);
      hide Ohms, Inserted, Survivor, Survivors, SlcMatters, Conducts;
      PrototypeSiemens(l, p, y);
      PrototypeSiemens(m, p, u);
      hide Siemens;
      InsertedOrder(l[0].gnd, Ohms(l[0], p), Ohms(m[0], p), Siemens(l[1..], p, y, 0.0), Siemens(m[1..], p, u, 0.0));
    }
  }

  lemma SlcSomewhere(l: seq<Cmp>)
    requires l != []
    ensures HasSlc(l) <==> l[0].Slc? || HasSlc(l[1..])
  {
    if HasSlc(l) && !l[0].Slc? {
      var i :| 0 <= i < |l| && l[i].Slc?;
      assert l[1..][i - 1].Slc?;
    }
    if HasSlc(l[1..]) {
      var i :| 0 <= i < |l[1..]| && l[1..][i].Slc?;
      assert l[i + 1].Slc?;
    }
  }

  /** A transformed ladder shows, at s, exactly 1 / r1 of the admittance of its prototype at the
      mapped frequency if and only if it is a low-pass or high-pass ladder, or has no Slc that takes
      current: none at all, when there is a load. */
  lemma TransformExact(l: seq<Cmp>, form: Form, t: Spec, sqrt: real -> real, s: real, load: real)
    requires AllPrototype(l) && IsSqrt(sqrt) && Suits(form, t) && s > 0.0 && load >= 0.0
    ensures Mapped(form, t, s) > 0.0 && AllPositive(l)
    ensures AllPositive(DenormalAll(l, form, t, sqrt)) && t.r1 * load >= 0.0
    ensures Scales(t.r1, Siemens(DenormalAll(l, form, t, sqrt), s, load, 0.0),
                   Siemens(l, Mapped(form, t, s), t.r1 * load, 0.0))
       <==> !Banded(form) || !SlcMatters(l, load)
    ensures load > 0.0 ==> (SlcMatters(l, load) <==> HasSlc(l))
  {
    var p, y := Mapped(form, t, s), t.r1 * load;
    LoadScale(t.r1, load, y);
    TransformMeans(l, form, t, sqrt, s, p, load, y);
    SurvivorsPrototype(l, form);
    hide *;
    if load > 0.0 { EverySlcMatters(l, load); }
    SameMatters(l, load, y);
    SurvivorsAdmit(l, form, p, y, y);
    ScalesExactly(t.r1, Siemens(DenormalAll(l, form, t, sqrt), s, load, 0.0),
                  Siemens(Survivors(l, form), p, y, 0.0), Siemens(l, p, y, 0.0));
  }

  lemma LoadScale(r: real, load: real, y: real)
    requires r > 0.0 && load >= 0.0 && y == r * load
    ensures y >= 0.0 && (y > 0.0 <==> load > 0.0)
  {
    if load > 0.0 { ProductPositive(r, load, y); }
  }

  lemma {:induction false} SameMatters(l: seq<Cmp>, y: real, u: real)
    requires y > 0.0 <==> u > 0.0
    ensures (Conducts(l, y) <==> Conducts(l, u)) && (SlcMatters(l, y) <==> SlcMatters(l, u))
    decreases |l|
  {
    if l != [] { SameMatters(l[1..], y, u); }
  }

  lemma ScalesExactly(r: real, t: real, u: real, v: real)
    requires Scales(r, t, u)
    ensures Scales(r, t, v) <==> u == v
  {
  }

  // ----- the object that builds the list -----

  lemma {:induction false} DenormalAllAppend(l: seq<Cmp>, m: seq<Cmp>, form: Form, t: Spec, sqrt: real -> real)
    ensures DenormalAll(l + m, form, t, sqrt) == DenormalAll(l, form, t, sqrt) + DenormalAll(m, form, t, sqrt)
    decreases |l|
  {
    hide Denormal;
    if l == [] {
      assert l + m == m;
    } else {
      assert (l + m)[0] == l[0] && (l + m)[1..] == l[1..] + m;
      DenormalAllAppend(l[1..], m, form, t, sqrt);
    }
  }

  lemma DenormalEnd(form: Form, t: Spec, sqrt: real -> real)
    ensures DenormalAll([End], form, t, sqrt) == []
  {
    assert [End][1..] == [];
  }

  function Abs(x: real): real {
    if x < 0.0 then -x else x
  }

  /** What the filter user specifies; fs is the edge of the stop band. */
  datatype Request = Request(r1: real, fc: real, fs: real, bw: real)

  /** A band-stop transformation replaces the bandwidth by |fs/fc - fc/fs| fc first. */
  function Effective(form: Form, q: Request): Spec {
    if form.BandStop? then Spec(q.r1, q.fc, Abs(Over(q.fs, q.fc) - Over(q.fc, q.fs)) * q.fc)
    else Spec(q.r1, q.fc, q.bw)
  }

  /** The validator of both band transformations. */
  predicate BandValid(q: Request) {
    q.fc - q.bw / 2.0 > 0.0 && Abs(q.fc - q.fs) > q.bw / 2.0
  }

  /** What a transformation takes from a request: its termination, its centre and its bandwidth, but
      for a band-stop the bandwidth at whose edges, seen from the centre, the stop band ends:
      bw fs == |fs^2 - fc^2|. */
  ghost predicate Specifies(form: Form, q: Request, t: Spec) {
    && t.r1 == q.r1 && t.fc == q.fc
    && (!form.BandStop? ==> t.bw == q.bw)
    && (form.BandStop? && q.fc > 0.0 && q.fs > 0.0 ==> t.bw * q.fs == Abs(q.fs * q.fs - q.fc * q.fc))
  }

  lemma EffectiveSpecifies(form: Form, q: Request)
    ensures Specifies(form, q, Effective(form, q))
  {
    if form.BandStop? && q.fc > 0.0 && q.fs > 0.0 {
      OverIs(q.fs, q.fc);
      OverIs(q.fc, q.fs);
      hide Over;
      EdgeBandwidth(Over(q.fs, q.fc), Over(q.fc, q.fs), q.fs, q.fc);
    }
  }

  lemma EdgeBandwidth(x: real, y: real, fs: real, fc: real)
    requires fs > 0.0 && fc > 0.0 && x * fc == fs && y * fs == fc
    ensures Abs(x - y) * fc * fs == Abs(fs * fs - fc * fc)
  {
    var d := x - y;
    assert d * fc * fs == fs * fs - fc * fc by {
      assert x * fc * fs == fs * fs;
      assert y * fs * fc == fc * fc;
    }
    ProductPositive(fc, fs, fc * fs);
    AbsOfProduct(d, fc * fs, d * (fc * fs));
    assert d * (fc * fs) == d * fc * fs && Abs(d) * (fc * fs) == Abs(d) * fc * fs;
  }

  lemma AbsOfProduct(d: real, f: real, p: real)
    requires f > 0.0 && p == d * f
    ensures Abs(d) * f == Abs(p)
  {
    if d < 0.0 {
      ProductIncreases(d, 0.0, f);
    } else if d > 0.0 {
      ProductPositive(d, f, p);
    }
  }

  /** The frequency of the prototype, as a ratio: s : fc, fc : s, s^2 + fc^2 : bw s, or bw s :
      s^2 + fc^2.  On the imaginary axis s^2 is -f^2, so a band form takes to the edge 1 of the
      prototype the frequencies f with |f^2 - fc^2| == bw f, which Specifies says of fs. */
  lemma MappedMeans(form: Form, t: Spec, s: real)
    requires Suits(form, t) && s > 0.0
    ensures var p := Mapped(form, t, s);
            match form
            case LowPass => p * t.fc == s
            case HighPass => p * s == t.fc
            case BandPass => p * (t.bw * s) == s * s + t.fc * t.fc
            case BandStop => p * (s * s + t.fc * t.fc) == t.bw * s
  {
    OverIs(s, t.fc);
    OverIs(t.fc, s);
    var x, y, a := Over(s, t.fc), Over(t.fc, s), Over(t.fc, t.bw);
    if Banded(form) {
      OverIs(t.fc, t.bw);
      hide Over;
      var m := Spread(a, x, y);
      SpreadMeans(a, x, y, s, t.fc, t.bw, m);
      if form.BandStop? {
        OverIs(1.0, m);
        InverseMeans(Over(1.0, m), m, t.bw * s, s * s + t.fc * t.fc);
      }
    }
  }

  lemma SpreadMeans(a: real, x: real, y: real, s: real, fc: real, bw: real, m: real)
    requires m == Spread(a, x, y) && a * bw == fc && x * fc == s && y * s == fc
    requires a > 0.0 && x > 0.0 && y > 0.0
    ensures m * (bw * s) == s * s + fc * fc && m > 0.0
  {
    ProductPositive(a, x + y, m);
    calc {
      m * (bw * s);
      (a * bw) * s * (x + y);
      fc * s * x + fc * s * y;
      s * (x * fc) + fc * (y * s);
      s * s + fc * fc;
    }
  }

  lemma InverseMeans(p: real, m: real, u: real, v: real)
    requires p * m == 1.0 && m * u == v
    ensures p * v == u
  {
    assert p * (m * u) == (p * m) * u;
  }

  /** The requests for which no formula of a component divides by zero: those of positive bandwidth
      for a band-pass, those of positive stop-band edge for a band-stop, whose own bandwidth is
      replaced, and all of them for a low-pass or a high-pass.  (Over stands for a quotient by zero
      with zero.)  The selectivity that is computed for an elliptic prototype has divisors of its
      own. */
  lemma EffectiveIsGood(form: Form, q: Request)
    requires q.r1 > 0.0 && q.fc > 0.0 && q.fs >= 0.0 && q.bw >= 0.0
    requires Banded(form) ==> BandValid(q)
    ensures Suits(form, Effective(form, q)) <==>
            (form.BandPass? ==> q.bw > 0.0) && (form.BandStop? ==> q.fs > 0.0)
  {
    if form.BandStop? && q.fs > 0.0 {
      OverIs(q.fs, q.fc);
      OverIs(q.fc, q.fs);
      hide Over;
      var x, y := Over(q.fs, q.fc), Over(q.fc, q.fs);
      EqualRatios(x, y, q.fs, q.fc);
      ProductPositive(Abs(x - y), q.fc, Abs(x - y) * q.fc);
    } else if form.BandStop? {
      assert Over(q.fs, q.fc) == 0.0;
    }
  }

  /** The validator of the band forms does accept a stop-band edge of zero, and a bandwidth of zero. */
  lemma ValidatorAcceptsZero()
    ensures BandValid(Request(50.0, 10.0, 0.0, 2.0))
         && !Suits(BandStop, Effective(BandStop, Request(50.0, 10.0, 0.0, 2.0)))
    ensures BandValid(Request(50.0, 10.0, 20.0, 0.0))
         && !Suits(BandPass, Effective(BandPass, Request(50.0, 10.0, 20.0, 0.0)))
  {
    EffectiveIsGood(BandStop, Request(50.0, 10.0, 0.0, 2.0));
  }

  lemma EqualRatios(x: real, y: real, a: real, b: real)
    requires a > 0.0 && b > 0.0 && x * b == a && y * a == b
    ensures x == y ==> a == b
  {
    if x == y {
      calc {
        a * a;
        x * b * a;
        y * a * b;
        b * b;
      }
      SquareUnique(a, b);
    }
  }

  lemma SquareUnique(a: real, b: real)
    requires a > 0.0 && b > 0.0 && a * a == b * b
    ensures a == b
  {
    if a < b {
      ProductIncreases(a, b, a);
      ProductIncreases(a, b, b);
    }
    if b < a {
      ProductIncreases(b, a, a);
      ProductIncreases(b, a, b);
    }
  }

  class QfTform {
    var request: Request
    var lcmp: seq<Cmp>
    const form: Form

    function Spec(): Spec
      reads this
    {
      Effective(form, request)
    }

    /** Append the transform of one component. */
    method Dnrm(c: Cmp, t: Spec, sqrt: real -> real)
      requires t == Spec()
      modifies this`lcmp
      ensures lcmp == old(lcmp) + Denormal(c, form, t, sqrt)
    {
      lcmp := lcmp + Denormal(c, form, t, sqrt);
    }

    /** Transform the list that a synthesis has left, whether it worked or not.  Its own end mark, if
        it got that far, is dropped, and every list but the empty one gets an end mark here: so what
        a failed synthesis has emitted becomes a filter, too. */
    constructor (form: Form, request: Request, proto: seq<Cmp>, sqrt: real -> real)
      ensures this.form == form && this.request == request
      ensures Specifies(form, request, Spec())
      ensures proto == [] ==> lcmp == []
      ensures proto != [] ==> lcmp == DenormalAll(proto, form, Spec(), sqrt) + [End]
      ensures forall l :: proto == l + [End] ==> lcmp == DenormalAll(l, form, Spec(), sqrt) + [End]
    {
      this.form, this.request, lcmp := form, request, [];
      new;
      ghost var t := Spec();
      EffectiveSpecifies(form, request);
      hide Denormal, Effective, Specifies;
      if proto != [] {
        var i := 0;
        while i < |proto|
          invariant 0 <= i <= |proto|
          invariant this.form == form && this.request == request
          invariant lcmp == DenormalAll(proto[..i], form, t, sqrt)
        {
          Dnrm(proto[i], Effective(form, request), sqrt);
          DenormalAllAppend(proto[..i], [proto[i]], form, t, sqrt);
          DenormalAllOne(proto[i], form, t, sqrt);
          assert proto[..i] + [proto[i]] == proto[..i + 1];
          i := i + 1;
        }
        assert proto[..i] == proto;
        lcmp := lcmp + [End];
        forall l | proto == l + [End] ensures lcmp == DenormalAll(l, form, t, sqrt) + [End] {
          DenormalAllAppend(l, [End], form, t, sqrt);
          DenormalEnd(form, t, sqrt);
        }
      }
    }
  }

  lemma DenormalAllOne(c: Cmp, form: Form, t: Spec, sqrt: real -> real)
    ensures DenormalAll([c], form, t, sqrt) == Denormal(c, form, t, sqrt)
  {
    hide Denormal;
    assert [c][1..] == [];
  }

  // ----- the two readings of a ladder agree -----

  /** A ratio and the number it stands for. */
  ghost predicate Reads(y: Ratio, t: real) {
    y.den > 0.0 && y.num == t * y.den
  }

  lemma OhmsRatio(c: Cmp, s: real)
    requires Positive(c) && s > 0.0
    ensures var z := Impedance(c, s);
            z.num > 0.0 && z.den > 0.0 && z.num == Ohms(c, s) * z.den
  {
    ImpedancePositive(c, s);
    hide Impedance;
    DivideBack(Impedance(c, s).num, Impedance(c, s).den);
  }

  lemma BeforeIsInserted(c: Cmp, s: real, y: Ratio, t: real)
    requires Prototype(c) && s > 0.0 && t >= 0.0 && Reads(y, t)
    ensures Reads(Before(c, s, y), Inserted(c.gnd, Ohms(c, s), t))
  {
    assert Positive(c) && !c.End?;
    hide *;
    OhmsRatio(c, s);
    BeforeRatio(c, s, y);
    InsertedRatio(c.gnd, Impedance(c, s), Ohms(c, s), y, t);
  }

  function Past(gnd: bool, o: Ratio, y: Ratio): Ratio {
    if gnd then Ratio(y.num * o.num + y.den * o.den, y.den * o.num)
    else Ratio(y.num * o.den, y.den * o.den + y.num * o.num)
  }

  lemma BeforeRatio(c: Cmp, s: real, y: Ratio)
    requires !c.End?
    ensures Before(c, s, y) == Past(c.gnd, Impedance(c, s), y)
  {
    hide Impedance;
  }

  lemma InsertedRatio(gnd: bool, o: Ratio, z: real, y: Ratio, t: real)
    requires o.num > 0.0 && o.den > 0.0 && z > 0.0 && o.num == z * o.den && t >= 0.0 && Reads(y, t)
    ensures Reads(Past(gnd, o, y), Inserted(gnd, z, t))
  {
    InsertedParts(gnd, o.num, o.den, z, y.num, y.den, t);
  }

  lemma InsertedParts(gnd: bool, n: real, d: real, z: real, u: real, v: real, t: real)
    requires n > 0.0 && d > 0.0 && v > 0.0 && z > 0.0 && n == z * d && u == t * v && t >= 0.0
    ensures gnd ==> v * n > 0.0 && u * n + v * d == Inserted(gnd, z, t) * (v * n)
    ensures !gnd ==> v * d + u * n > 0.0 && u * d == Inserted(gnd, z, t) * (v * d + u * n)
  {
    if gnd {
      ProductPositive(v, n, v * n);
      var i := 1.0 / z;
      calc {
        (t + i) * (v * n);
        t * v * n + i * v * n;
        u * n + i * v * (z * d);
        u * n + (i * z) * (v * d);
      }
    } else {
      BehindSign(z, t);
      BehindRatio(n, d, z, u, v, t, 1.0 + z * t, t / (1.0 + z * t));
    }
  }

  lemma BehindRatio(n: real, d: real, z: real, u: real, v: real, t: real, k: real, b: real)
    requires d > 0.0 && v > 0.0 && n == z * d && u == t * v && k == 1.0 + z * t && k > 0.0 && b * k == t
    ensures v * d + u * n > 0.0 && u * d == b * (v * d + u * n)
  {
    assert v * d + u * n == v * d * k by {
      calc {
        t * v * (z * d);
        v * d * (z * t);
      }
    }
    ProductPositive(v, d, v * d);
    ProductPositive(v * d, k, v * d * k);
    calc {
      b * (v * d * k);
      b * k * (v * d);
      t * v * d;
    }
  }

  /** The ratio a list shows and the admittance it shows are the same. */
  lemma {:induction false} InputIsSiemens(l: seq<Cmp>, s: real, y: Ratio, t: real)
    requires AllPrototype(l) && s > 0.0 && t >= 0.0 && Reads(y, t)
    ensures AllPositive(l) && Reads(Input(l, s, y), Siemens(l, s, t, 0.0))
    decreases |l|
  {
    hide Before, Ohms, Inserted, Reads;
    if l != [] {
      InputIsSiemens(l[1..], s, y, t);
      BeforeIsInserted(l[0], s, Input(l[1..], s, y), Siemens(l[1..], s, t, 0.0));
      PrototypeSiemens(l, s, t);
    }
  }
}
