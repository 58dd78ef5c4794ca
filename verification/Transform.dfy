/** Denormalisation: a prototype ladder becomes a low-pass, high-pass, band-pass or band-stop
    ladder for real terminations and frequencies.  What a ladder means is here its input
    admittance as a number, for positive components and a positive real frequency variable. */
module Transform {
  import opened RealMath
  import opened Ladder

  /** The fields of the filter specification that denormalisation reads. */
  datatype Spec = Spec(r1: real, fc: real, bw: real)

  datatype Form = LowPass | HighPass | BandPass | BandStop

  predicate Banded(form: Form) {
    form.BandPass? || form.BandStop?
  }

  predicate GoodSpec(t: Spec) {
    t.r1 > 0.0 && t.fc > 0.0
  }

  /** Only the band forms read the bandwidth. */
  predicate Suits(form: Form, t: Spec) {
    GoodSpec(t) && (Banded(form) ==> t.bw > 0.0)
  }

  // ----- what a ladder of positive components means -----

  predicate Positive(c: Cmp) {
    match c
    case Ind(v, _, _) => v > 0.0
    case Cap(v, _, _) => v > 0.0
    case Res(v, _, _) => v > 0.0
    case Slc(vc, vl, _, _) => vc > 0.0 && vl > 0.0
    case Plc(vc, vl, _, _) => vc > 0.0 && vl > 0.0
    case Pslc(vc, vl, vc2, vl2, _, _) => vc > 0.0 && vl > 0.0 && vc2 > 0.0 && vl2 > 0.0
    case End => false
  }

  predicate AllPositive(l: seq<Cmp>) {
    forall i :: 0 <= i < |l| ==> Positive(l[i])
  }

  lemma ImpedancePositive(c: Cmp, s: real)
    requires Positive(c) && s > 0.0
    ensures Impedance(c, s).num > 0.0 && Impedance(c, s).den > 0.0
  {
    hide Tank;
    match c
    case Ind(v, _, _) => ProductPositive(s, v, s * v);
    case Cap(v, _, _) => ProductPositive(s, v, s * v);
    case Res(v, _, _) =>
    case Slc(vc, vl, _, _) => TankPositive(vc, vl, s);
    case Plc(vc, vl, _, _) => TankPositive(vc, vl, s);
    case Pslc(vc, vl, vc2, vl2, _, _) =>
      TankPositive(vc, vl, s);
      TankPositive(vc2, vl2, s);
      PslcPositive(s * vc, s * vc2, Tank(vl, vc, s), Tank(vl2, vc2, s));
  }

  lemma TankPositive(vc: real, vl: real, s: real)
    requires vc > 0.0 && vl > 0.0 && s > 0.0
    ensures s * vc > 0.0 && s * vl > 0.0 && Tank(vl, vc, s) > 1.0
  {
    ProductPositive(s, vc, s * vc);
    ProductPositive(s, vl, s * vl);
    ProductPositive(s * vl, s * vc, s * vl * (s * vc));
  }

  lemma PslcPositive(a: real, b: real, d: real, e: real)
    requires a > 0.0 && b > 0.0 && d > 0.0 && e > 0.0
    ensures d * e > 0.0 && a * e + b * d > 0.0
  {
    ProductPositive(a, e, a * e);
    ProductPositive(b, d, b * d);
  }

  /** The impedance of one component, in ohms. */
  ghost function Ohms(c: Cmp, s: real): (z: real)
    requires Positive(c) && s > 0.0
    ensures z > 0.0
  {
    ImpedancePositive(c, s);
    QuotientPositive(Impedance(c, s).num, Impedance(c, s).den, Impedance(c, s).num / Impedance(c, s).den);
    Impedance(c, s).num / Impedance(c, s).den
  }

  /** Admittance t behind impedance z. */
  ghost function Behind(z: real, t: real): (r: real)
    requires z >= 0.0 && t >= 0.0
    ensures r >= 0.0 && (t > 0.0 ==> r > 0.0)
  {
    BehindSign(z, t);
    t / (1.0 + z * t)
  }

  lemma BehindSign(z: real, t: real)
    requires z >= 0.0 && t >= 0.0
    ensures 1.0 + z * t > 0.0 && t / (1.0 + z * t) >= 0.0
    ensures t > 0.0 ==> t / (1.0 + z * t) > 0.0
  {
    if t > 0.0 {
      if z > 0.0 { ProductPositive(z, t, z * t); }
      QuotientPositive(t, 1.0 + z * t, t / (1.0 + z * t));
    }
  }

  /** The input admittance of a ladder with load admittance y.  A component tied to ground is a
      branch to ground; one that is shunt but not tied is the upper part of such a branch, and
      its impedance adds to that of the next component; any other is in series. */
  ghost function Siemens(l: seq<Cmp>, s: real, y: real, branch: real): (r: real)
    requires AllPositive(l) && s > 0.0 && y >= 0.0 && branch >= 0.0
    ensures r >= 0.0 && (y > 0.0 ==> r > 0.0)
    decreases |l|
  {
    if l == [] then y
    else
      var z := Ohms(l[0], s);
      if l[0].gnd then
        QuotientPositive(1.0, branch + z, 1.0 / (branch + z));
        Siemens(l[1..], s, y, 0.0) + 1.0 / (branch + z)
      else if l[0].shnt then Siemens(l[1..], s, y, branch + z)
      else Behind(z, Siemens(l[1..], s, y, 0.0))
  }

  // ----- the transformation, component by component -----

  /** A quotient of positive numbers. */
  function Over(n: real, d: real): real {
    if d > 0.0 then n / d else 0.0
  }

  /** 4 a^2 C L, or 4 a^2 / (C L) */
  function Discriminant(form: Form, vC: real, vL: real, a: real): real {
    if form.BandPass? then 4.0 * a * a * vC * vL else Over(4.0 * a * a, vC * vL)
  }

  /** n / (d r1 fc) */
  function Farads(n: real, d: real, t: Spec): real {
    Over(n, d * t.r1 * t.fc)
  }

  /** n r1 / (d fc) */
  function Henrys(n: real, d: real, t: Spec): real {
    Over(n * t.r1, d * t.fc)
  }

  /** A value of the prototype widened by a == fc / bw. */
  function Wide(a: real, v: real): real {
    a * v
  }

  /** a (x + y) */
  function Spread(a: real, x: real, y: real): real {
    a * (x + y)
  }

  function Denormal(c: Cmp, form: Form, t: Spec, sqrt: real -> real): seq<Cmp> {
    var a := Over(t.fc, t.bw);
    match form
    case LowPass =>
      (match c
       case Ind(v, s, g) => [Ind(Henrys(v, 1.0, t), s, g)]
       case Cap(v, s, g) => [Cap(Farads(v, 1.0, t), s, g)]
       case Res(v, s, g) => [Res(v * t.r1, s, g)]
       case Slc(vc, vl, s, g) => [Slc(Farads(vc, 1.0, t), Henrys(vl, 1.0, t), s, g)]
       case Plc(vc, vl, s, g) => [Plc(Farads(vc, 1.0, t), Henrys(vl, 1.0, t), s, g)]
       case _ => [])
    case HighPass =>
      (match c
       case Ind(v, s, g) => [Cap(Farads(1.0, v, t), s, g)]
       case Cap(v, s, g) => [Ind(Henrys(1.0, v, t), s, g)]
       case Res(v, s, g) => [Res(v * t.r1, s, g)]
       case Slc(vc, vl, s, g) => [Slc(Farads(1.0, vl, t), Henrys(1.0, vc, t), s, g)]
       case Plc(vc, vl, s, g) => [Plc(Farads(1.0, vl, t), Henrys(1.0, vc, t), s, g)]
       case _ => [])
    case BandPass =>
      (match c
       case Ind(v, s, g) => [Slc(Farads(1.0, Wide(a, v), t), Henrys(Wide(a, v), 1.0, t), s, g)]
       case Cap(v, s, g) => [Plc(Farads(Wide(a, v), 1.0, t), Henrys(1.0, Wide(a, v), t), s, g)]
       case Res(v, s, g) => [Res(v * t.r1, s, g)]
       case Slc(vc, vl, s, g) => SplitSlc(form, vc, vl, s, g, a, t, sqrt)
       case Plc(vc, vl, s, g) => SplitPlc(form, vc, vl, s, g, a, t, sqrt)
       case _ => [])
    case BandStop =>
      (match c
       case Ind(v, s, g) => [Plc(Farads(a, v, t), Henrys(v, a, t), s, g)]
       case Cap(v, s, g) => [Slc(Farads(v, a, t), Henrys(a, v, t), s, g)]
       case Res(v, s, g) => [Res(v * t.r1, s, g)]
       case Slc(vc, vl, s, g) => SplitSlc(form, vc, vl, s, g, a, t, sqrt)
       case Plc(vc, vl, s, g) => SplitPlc(form, vc, vl, s, g, a, t, sqrt)
       case _ => [])
  }

  function Root(form: Form, vc: real, vl: real, a: real, sqrt: real -> real): real {
    sqrt(Discriminant(form, vc, vl, a) + 1.0)
  }

  /** The two parts (b - 1) h and (b + 1) h: h is 1 / (2 a u b) for a band-pass and v / (2 a b)
      for a band-stop. */
  function Half(form: Form, u: real, v: real, a: real, b: real): real {
    if form.BandPass? then Over(1.0, a * u * 2.0 * b) else Over(v, a * 2.0 * b)
  }

  function Lower(b: real, h: real): real {
    (b - 1.0) * h
  }

  function Upper(b: real, h: real): real {
    (b + 1.0) * h
  }

  /** Two parallel LC, the first of them not tied to ground, each capacitor the inverse of the
      other's inductor. */
  function SplitPlc(form: Form, vc: real, vl: real, s: bool, g: bool, a: real, t: Spec, sqrt: real -> real): seq<Cmp> {
    var b := Root(form, vc, vl, a, sqrt);
    var h := Half(form, vc, vl, a, b);
    PlcPair(Lower(b, h), Upper(b, h), s, g, t)
  }

  function PlcPair(nL1: real, nL2: real, s: bool, g: bool, t: Spec): seq<Cmp> {
    [Plc(Farads(Over(1.0, nL2), 1.0, t), Henrys(nL1, 1.0, t), s, false),
     Plc(Farads(Over(1.0, nL1), 1.0, t), Henrys(nL2, 1.0, t), false, g)]
  }

  /** Two series LC in parallel, each capacitor the inverse of its own inductor. */
  function SplitSlc(form: Form, vc: real, vl: real, s: bool, g: bool, a: real, t: Spec, sqrt: real -> real): seq<Cmp> {
    var b := Root(form, vc, vl, a, sqrt);
    var h := Half(form, vl, vc, a, b);
    [SlcPair(Lower(b, h), Upper(b, h), s, g, t)]
  }

  function SlcPair(nC1: real, nC2: real, s: bool, g: bool, t: Spec): Cmp {
    Pslc(Farads(nC1, 1.0, t), Henrys(Over(1.0, nC1), 1.0, t),
         Farads(nC2, 1.0, t), Henrys(Over(1.0, nC2), 1.0, t), s, g)
  }

  /** The frequency of the prototype that the transformed ladder shows at s. */
  function Mapped(form: Form, t: Spec, s: real): real {
    var x, y, a := Over(s, t.fc), Over(t.fc, s), Over(t.fc, t.bw);
    match form
    case LowPass => x
    case HighPass => y
    case BandPass => Spread(a, x, y)
    case BandStop => Over(1.0, Spread(a, x, y))
  }

  // ----- impedances by reactance -----

  lemma OverIs(n: real, d: real)
    requires n > 0.0 && d > 0.0
    ensures Over(n, d) * d == n && Over(n, d) > 0.0
  {
    QuotientPositive(n, d, n / d);
  }

  lemma OverInverse(x: real, y: real)
    requires x > 0.0 && x * y == 1.0
    ensures Over(1.0, x) == y
  {
    DivideUnique(1.0, x, y);
  }

  lemma OhmsInd(v: real, sh: bool, g: bool, s: real, z: real)
    requires v > 0.0 && s > 0.0 && z == s * v
    ensures Ohms(Ind(v, sh, g), s) == z
  {
  }

  lemma OhmsCap(v: real, sh: bool, g: bool, s: real, k: real)
    requires v > 0.0 && s > 0.0 && k * (s * v) == 1.0
    ensures Ohms(Cap(v, sh, g), s) == k
  {
    ImpedancePositive(Cap(v, sh, g), s);
    DivideUnique(1.0, s * v, k);
  }

  /** l is the reactance of the inductor, k that of the capacitor. */
  lemma OhmsSlc(vc: real, vl: real, sh: bool, g: bool, s: real, l: real, k: real)
    requires vc > 0.0 && vl > 0.0 && s > 0.0 && l == s * vl && k * (s * vc) == 1.0
    ensures Ohms(Slc(vc, vl, sh, g), s) == l + k
  {
    ImpedancePositive(Slc(vc, vl, sh, g), s);
    SlcSum(s * vl, s * vc, k, Tank(vl, vc, s));
    DivideUnique(Tank(vl, vc, s), s * vc, l + k);
  }

  lemma SlcSum(l: real, c: real, k: real, t: real)
    requires k * c == 1.0 && t == l * c + 1.0
    ensures t == (l + k) * c
  {
  }

  /** k is the susceptance of the inductor, and z the inverse of that of both. */
  lemma OhmsPlc(vc: real, vl: real, sh: bool, g: bool, s: real, k: real, z: real)
    requires vc > 0.0 && vl > 0.0 && s > 0.0 && k * (s * vl) == 1.0 && z * (s * vc + k) == 1.0
    ensures Ohms(Plc(vc, vl, sh, g), s) == z
  {
    ImpedancePositive(Plc(vc, vl, sh, g), s);
    PlcQuotient(s * vl, s * vc, k, Tank(vl, vc, s), z);
    DivideUnique(s * vl, Tank(vl, vc, s), z);
  }

  lemma PlcQuotient(l: real, c: real, k: real, t: real, z: real)
    requires k * l == 1.0 && t == l * c + 1.0 && z * (c + k) == 1.0
    ensures l == z * t
  {
    assert t == l * (c + k);
    assert z * t == l * (z * (c + k));
  }

  lemma UniqueFactor(m: real, a: real, b: real)
    requires m * a == 1.0 && m * b == 1.0
    ensures a == b
  {
    assert a * (m * b) == b * (m * a);
  }

  // ----- the transformed elements, with x == s / fc and y == fc / s -----

  ghost predicate Scaled(t: Spec, s: real, x: real, y: real) {
    && GoodSpec(t) && s > 0.0 && x > 0.0 && y > 0.0
    && x * t.fc == s && x * y == 1.0
  }

  lemma Frequencies(t: Spec, s: real)
    requires GoodSpec(t) && s > 0.0
    ensures Scaled(t, s, Over(s, t.fc), Over(t.fc, s))
  {
    OverIs(s, t.fc);
    OverIs(t.fc, s);
    hide Over;
    Inverses(Over(s, t.fc), Over(t.fc, s), t.fc, s);
  }

  lemma Inverses(x: real, y: real, f: real, s: real)
    requires x * f == s && y * s == f && f > 0.0
    ensures x * y == 1.0
  {
    calc {
      x * y * f;
      y * (x * f);
      y * s;
      f;
    }
    DivideUnique(f, f, x * y);
    DivideUnique(f, f, 1.0);
  }

  lemma FaradsIs(n: real, d: real, t: Spec)
    requires GoodSpec(t) && n > 0.0 && d > 0.0
    ensures Farads(n, d, t) > 0.0 && Farads(n, d, t) * (d * t.r1 * t.fc) == n
  {
    ProductPositive(d, t.r1, d * t.r1);
    ProductPositive(d * t.r1, t.fc, d * t.r1 * t.fc);
    OverIs(n, d * t.r1 * t.fc);
  }

  lemma HenrysIs(n: real, d: real, t: Spec)
    requires GoodSpec(t) && n > 0.0 && d > 0.0
    ensures Henrys(n, d, t) > 0.0 && Henrys(n, d, t) * (d * t.fc) == n * t.r1
  {
    ProductPositive(d, t.fc, d * t.fc);
    ProductPositive(n, t.r1, n * t.r1);
    OverIs(n * t.r1, d * t.fc);
  }

  /** The reactance of an inductor of n r1 / (d fc) is r1 times that of n / d at x. */
  lemma InductorAt(t: Spec, s: real, x: real, y: real, n: real, d: real, z: real)
    requires Scaled(t, s, x, y) && n > 0.0 && d > 0.0 && z * d == x * n
    ensures Henrys(n, d, t) > 0.0 && s * Henrys(n, d, t) == t.r1 * z
  {
    HenrysIs(n, d, t);
    hide Henrys;
    InductorProduct(t.r1, t.fc, x, n, d, z, Henrys(n, d, t));
  }

  lemma InductorProduct(r: real, f: real, x: real, n: real, d: real, z: real, w: real)
    requires z * d == x * n && w * (d * f) == n * r && d > 0.0
    ensures x * f * w == r * z
  {
    calc {
      x * f * w * d;
      x * (w * (d * f));
      x * (n * r);
      x * n * r;
      z * d * r;
      r * z * d;
    }
    DivideUnique(r * z * d, d, x * f * w);
    DivideUnique(r * z * d, d, r * z);
  }

  lemma CapacitorAt(t: Spec, s: real, x: real, y: real, n: real, d: real, z: real)
    requires Scaled(t, s, x, y) && n > 0.0 && d > 0.0 && z * n == y * d
    ensures Farads(n, d, t) > 0.0 && t.r1 * z * (s * Farads(n, d, t)) == 1.0
  {
    FaradsIs(n, d, t);
    hide Farads;
    CapacitorProduct(t.r1, t.fc, x, y, n, d, z, Farads(n, d, t));
  }

  lemma CapacitorProduct(r: real, f: real, x: real, y: real, n: real, d: real, z: real, w: real)
    requires z * n == y * d && w * (d * r * f) == n && n > 0.0 && x * y == 1.0
    ensures r * z * (x * f * w) == 1.0
  {
    calc {
      r * z * (x * f * w) * n;
      z * n * (r * x * f * w);
      y * d * (r * x * f * w);
      x * y * (w * (d * r * f));
      n;
    }
    DivideUnique(n, n, r * z * (x * f * w));
    DivideUnique(n, n, 1.0);
  }

  /** The impedance of a list of components in series. */
  ghost function TotalOhms(l: seq<Cmp>, s: real): real
    requires AllPositive(l) && s > 0.0
    decreases |l|
  {
    if l == [] then 0.0 else Ohms(l[0], s) + TotalOhms(l[1..], s)
  }

  lemma OneOhms(c: Cmp, s: real)
    requires Positive(c) && s > 0.0
    ensures AllPositive([c]) && TotalOhms([c], s) == Ohms(c, s)
  {
    assert [c][1..] == [];
  }

  /** l has r times the impedance z. */
  ghost predicate Becomes(l: seq<Cmp>, s: real, r: real, z: real) {
    s > 0.0 && AllPositive(l) && TotalOhms(l, s) == r * z
  }

  lemma NewInd(t: Spec, s: real, x: real, y: real, n: real, d: real, sh: bool, g: bool, z: real)
    requires Scaled(t, s, x, y) && n > 0.0 && d > 0.0 && z * d == x * n
    ensures Becomes([Ind(Henrys(n, d, t), sh, g)], s, t.r1, z)
  {
    InductorAt(t, s, x, y, n, d, z);
    hide Henrys;
    OhmsInd(Henrys(n, d, t), sh, g, s, t.r1 * z);
    OneOhms(Ind(Henrys(n, d, t), sh, g), s);
  }

  lemma NewCap(t: Spec, s: real, x: real, y: real, n: real, d: real, sh: bool, g: bool, z: real)
    requires Scaled(t, s, x, y) && n > 0.0 && d > 0.0 && z * n == y * d
    ensures Becomes([Cap(Farads(n, d, t), sh, g)], s, t.r1, z)
  {
    CapacitorAt(t, s, x, y, n, d, z);
    hide Farads;
    OhmsCap(Farads(n, d, t), sh, g, s, t.r1 * z);
    OneOhms(Cap(Farads(n, d, t), sh, g), s);
  }

  /** k and l are the reactances of the capacitor and the inductor before scaling. */
  lemma NewSlc(t: Spec, s: real, x: real, y: real, nc: real, dc: real, nl: real, dl: real,
               sh: bool, g: bool, k: real, l: real)
    requires Scaled(t, s, x, y) && nc > 0.0 && dc > 0.0 && nl > 0.0 && dl > 0.0
    requires k * nc == y * dc && l * dl == x * nl
    ensures Becomes([Slc(Farads(nc, dc, t), Henrys(nl, dl, t), sh, g)], s, t.r1, l + k)
  {
    CapacitorAt(t, s, x, y, nc, dc, k);
    InductorAt(t, s, x, y, nl, dl, l);
    hide Farads, Henrys;
    OhmsSlc(Farads(nc, dc, t), Henrys(nl, dl, t), sh, g, s, t.r1 * l, t.r1 * k);
    assert t.r1 * (l + k) == t.r1 * l + t.r1 * k;
    OneOhms(Slc(Farads(nc, dc, t), Henrys(nl, dl, t), sh, g), s);
  }

  /** k and l are the susceptances of the capacitor and the inductor before scaling. */
  lemma NewPlc(t: Spec, s: real, x: real, y: real, nc: real, dc: real, nl: real, dl: real,
               sh: bool, g: bool, k: real, l: real, z: real)
    requires Scaled(t, s, x, y) && nc > 0.0 && dc > 0.0 && nl > 0.0 && dl > 0.0
    requires k * dc == x * nc && l * nl == y * dl && z * (k + l) == 1.0
    ensures Becomes([Plc(Farads(nc, dc, t), Henrys(nl, dl, t), sh, g)], s, t.r1, z)
  {
    assert x * y == 1.0 && t.r1 > 0.0 && s > 0.0;
    hide *;
    var e, f := Quotient(y * dc, nc), Quotient(x * nl, dl);
    CapacitorAt(t, s, x, y, nc, dc, e);
    InductorAt(t, s, x, y, nl, dl, f);
    Reciprocal(k, e, nc, dc, x, y);
    Reciprocal(f, l, nl, dl, x, y);
    PlcFrom(Farads(nc, dc, t), Henrys(nl, dl, t), sh, g, s, t.r1, e, f, k, l, z);
  }

  function Quotient(n: real, d: real): (q: real)
    requires d > 0.0
    ensures q * d == n
  {
    n / d
  }

  lemma PlcFrom(wc: real, wl: real, sh: bool, g: bool, s: real, r1: real, e: real, f: real, k: real, l: real, z: real)
    requires wc > 0.0 && wl > 0.0 && s > 0.0 && r1 > 0.0
    requires r1 * e * (s * wc) == 1.0 && s * wl == r1 * f
    requires k * e == 1.0 && f * l == 1.0 && z * (k + l) == 1.0
    ensures Becomes([Plc(wc, wl, sh, g)], s, r1, z)
  {
    var r := 1.0 / r1;
    Susceptances(r1, r, s * wc, s * wl, e, f, k, l, z);
    hide Ohms;
    OhmsPlc(wc, wl, sh, g, s, r * l, r1 * z);
    OneOhms(Plc(wc, wl, sh, g), s);
  }

  lemma Reciprocal(u: real, m: real, n: real, d: real, x: real, y: real)
    requires u * d == x * n && m * n == y * d && x * y == 1.0 && n > 0.0 && d > 0.0
    ensures u * m == 1.0
  {
    calc {
      u * m * n * d;
      (u * d) * (m * n);
      (x * n) * (m * n);
      (x * n) * (y * d);
      x * y * n * d;
      n * d;
    }
    DivideUnique(n * d, d, u * m * n);
    DivideUnique(n * d, d, n);
    DivideUnique(n, n, u * m);
    DivideUnique(n, n, 1.0);
  }

  lemma Susceptances(r1: real, r: real, b: real, w: real, e: real, f: real, k: real, l: real, z: real)
    requires r * r1 == 1.0 && k * e == 1.0 && f * l == 1.0 && z * (k + l) == 1.0
    requires r1 * e * b == 1.0 && w == r1 * f
    ensures r * l * w == 1.0 && r1 * z * (b + r * l) == 1.0
  {
    assert r * l * (r1 * f) == (r * r1) * (f * l);
    assert r1 * e * (r * k) == (r * r1) * (k * e);
    UniqueFactor(r1 * e, b, r * k);
    assert r1 * z * (r * k + r * l) == (r * r1) * (z * (k + l));
  }

  // ----- what a component becomes, and its impedance -----

  /** p is the frequency of the prototype for s, q its inverse; a is fc / bw. */
  ghost predicate MapsTo(form: Form, x: real, y: real, a: real, p: real, q: real) {
    && p > 0.0 && q > 0.0 && p * q == 1.0 && (Banded(form) ==> a > 0.0)
    && match form
       case LowPass => p == x && q == y
       case HighPass => p == y && q == x
       case BandPass => p == Spread(a, x, y)
       case BandStop => q == Spread(a, x, y)
  }

  lemma MappedIs(form: Form, t: Spec, s: real, p: real)
    requires Suits(form, t) && s > 0.0 && p == Mapped(form, t, s)
    ensures Scaled(t, s, Over(s, t.fc), Over(t.fc, s))
    ensures MapsTo(form, Over(s, t.fc), Over(t.fc, s), Over(t.fc, t.bw), p, Over(1.0, p))
  {
    Frequencies(t, s);
    if Banded(form) { OverIs(t.fc, t.bw); }
    MapsFrom(form, Over(s, t.fc), Over(t.fc, s), Over(t.fc, t.bw), p);
  }

  lemma MapsFrom(form: Form, x: real, y: real, a: real, p: real)
    requires x > 0.0 && y > 0.0 && x * y == 1.0 && (Banded(form) ==> a > 0.0)
    requires form.LowPass? ==> p == x
    requires form.HighPass? ==> p == y
    requires form.BandPass? ==> p == Spread(a, x, y)
    requires form.BandStop? ==> p == Over(1.0, Spread(a, x, y))
    ensures MapsTo(form, x, y, a, p, Over(1.0, p))
  {
    hide Over;
    match form
    case LowPass => OverInverse(x, y);
    case HighPass => OverInverse(y, x);
    case BandPass => OverSpread(a, x, y);
    case BandStop => OverSpread(a, x, y);
  }

  lemma OverSpread(a: real, x: real, y: real)
    requires a > 0.0 && x > 0.0 && y > 0.0
    ensures var m := Spread(a, x, y);
            m > 0.0 && Over(1.0, m) > 0.0 && Over(1.0, m) * m == 1.0 && Over(1.0, Over(1.0, m)) == m
  {
    ProductPositive(a, x + y, Spread(a, x, y));
    hide Spread;
    OverIs(1.0, Spread(a, x, y));
    OverInverse(Over(1.0, Spread(a, x, y)), Spread(a, x, y));
  }

  lemma IndBecomes(form: Form, v: real, sh: bool, g: bool, t: Spec, sqrt: real -> real, s: real,
                   x: real, y: real, p: real, q: real, z: real)
    requires v > 0.0 && Scaled(t, s, x, y) && MapsTo(form, x, y, Over(t.fc, t.bw), p, q) && z == p * v
    ensures Becomes(Denormal(Ind(v, sh, g), form, t, sqrt), s, t.r1, z)
  {
    hide Over, Farads, Henrys, Becomes;
    match form
    case LowPass => NewInd(t, s, x, y, v, 1.0, sh, g, z);
    case HighPass => NewCap(t, s, x, y, 1.0, v, sh, g, z);
    case BandPass => IndToSlc(v, sh, g, t, s, x, y, Over(t.fc, t.bw), p, z);
    case BandStop => IndToPlc(v, sh, g, t, s, x, y, Over(t.fc, t.bw), p, q, z);
  }

  lemma IndToSlc(v: real, sh: bool, g: bool, t: Spec, s: real, x: real, y: real, a: real, p: real, z: real)
    requires v > 0.0 && Scaled(t, s, x, y) && a > 0.0 && p == Spread(a, x, y) && z == p * v
    ensures Becomes([Slc(Farads(1.0, Wide(a, v), t), Henrys(Wide(a, v), 1.0, t), sh, g)], s, t.r1, z)
  {
    ProductPositive(a, v, Wide(a, v));
    assert z == x * Wide(a, v) + y * Wide(a, v);
    hide Wide, Becomes;
    NewSlc(t, s, x, y, 1.0, Wide(a, v), Wide(a, v), 1.0, sh, g, y * Wide(a, v), x * Wide(a, v));
  }

  lemma IndToPlc(v: real, sh: bool, g: bool, t: Spec, s: real, x: real, y: real, a: real, p: real, q: real, z: real)
    requires v > 0.0 && Scaled(t, s, x, y) && a > 0.0 && q == Spread(a, x, y) && p * q == 1.0 && z == p * v
    ensures Becomes([Plc(Farads(a, v, t), Henrys(v, a, t), sh, g)], s, t.r1, z)
  {
    StopShares(v, x, y, a, q);
    var k, l := x * a / v, y * a / v;
    assert z * (k + l) == 1.0 by {
      assert p * v * (k + l) == p * ((k + l) * v);
    }
    hide Becomes;
    NewPlc(t, s, x, y, a, v, v, a, sh, g, k, l, z);
  }

  lemma StopShares(v: real, x: real, y: real, a: real, q: real)
    requires v > 0.0 && q == Spread(a, x, y)
    ensures x * a / v * v == x * a && y * a / v * v == y * a && (x * a / v + y * a / v) * v == q
  {
  }

  lemma CapBecomes(form: Form, v: real, sh: bool, g: bool, t: Spec, sqrt: real -> real, s: real,
                   x: real, y: real, p: real, q: real, z: real)
    requires v > 0.0 && Scaled(t, s, x, y) && MapsTo(form, x, y, Over(t.fc, t.bw), p, q) && z * v == q
    ensures Becomes(Denormal(Cap(v, sh, g), form, t, sqrt), s, t.r1, z)
  {
    hide Over, Farads, Henrys, Becomes;
    match form
    case LowPass => NewCap(t, s, x, y, v, 1.0, sh, g, z);
    case HighPass => NewInd(t, s, x, y, 1.0, v, sh, g, z);
    case BandPass => CapToPlc(v, sh, g, t, s, x, y, Over(t.fc, t.bw), p, q, z);
    case BandStop => CapToSlc(v, sh, g, t, s, x, y, Over(t.fc, t.bw), q, z);
  }

  lemma CapToPlc(v: real, sh: bool, g: bool, t: Spec, s: real, x: real, y: real, a: real, p: real, q: real, z: real)
    requires v > 0.0 && Scaled(t, s, x, y) && a > 0.0 && p == Spread(a, x, y) && p * q == 1.0 && z * v == q
    ensures Becomes([Plc(Farads(Wide(a, v), 1.0, t), Henrys(1.0, Wide(a, v), t), sh, g)], s, t.r1, z)
  {
    ProductPositive(a, v, Wide(a, v));
    assert z * (x * Wide(a, v) + y * Wide(a, v)) == 1.0 by {
      assert z * (x * (a * v) + y * (a * v)) == (z * v) * (a * (x + y));
      assert (z * v) * p == 1.0;
    }
    hide Wide, Becomes;
    NewPlc(t, s, x, y, Wide(a, v), 1.0, 1.0, Wide(a, v), sh, g, x * Wide(a, v), y * Wide(a, v), z);
  }

  lemma CapToSlc(v: real, sh: bool, g: bool, t: Spec, s: real, x: real, y: real, a: real, q: real, z: real)
    requires v > 0.0 && Scaled(t, s, x, y) && a > 0.0 && q == Spread(a, x, y) && z * v == q
    ensures Becomes([Slc(Farads(v, a, t), Henrys(a, v, t), sh, g)], s, t.r1, z)
  {
    StopShares(v, x, y, a, q);
    var k, l := y * a / v, x * a / v;
    assert l + k == z by {
      DivideUnique(q, v, l + k);
      DivideUnique(q, v, z);
    }
    hide Becomes;
    NewSlc(t, s, x, y, v, a, a, v, sh, g, k, l);
  }

  lemma ResBecomes(form: Form, v: real, sh: bool, g: bool, t: Spec, sqrt: real -> real, s: real)
    requires v > 0.0 && GoodSpec(t) && s > 0.0
    ensures Becomes(Denormal(Res(v, sh, g), form, t, sqrt), s, t.r1, v)
  {
    ProductPositive(v, t.r1, v * t.r1);
    OneOhms(Res(v * t.r1, sh, g), s);
  }

  lemma SlcBecomes(form: Form, vc: real, vl: real, sh: bool, g: bool, t: Spec, sqrt: real -> real, s: real,
                   x: real, y: real, p: real, q: real, k: real, l: real)
    requires vc > 0.0 && vl > 0.0 && !Banded(form)
    requires Scaled(t, s, x, y) && MapsTo(form, x, y, Over(t.fc, t.bw), p, q) && k * vc == q && l == p * vl
    ensures Becomes(Denormal(Slc(vc, vl, sh, g), form, t, sqrt), s, t.r1, l + k)
  {
    hide Over, Farads, Henrys, Becomes;
    if form.LowPass? {
      NewSlc(t, s, x, y, vc, 1.0, vl, 1.0, sh, g, k, l);
    } else {
      NewSlc(t, s, x, y, 1.0, vl, 1.0, vc, sh, g, l, k);
    }
  }

  lemma PlcBecomes(form: Form, vc: real, vl: real, sh: bool, g: bool, t: Spec, sqrt: real -> real, s: real,
                   x: real, y: real, p: real, q: real, k: real, l: real, z: real)
    requires vc > 0.0 && vl > 0.0 && !Banded(form)
    requires Scaled(t, s, x, y) && MapsTo(form, x, y, Over(t.fc, t.bw), p, q)
    requires l * vl == q && k == p * vc && z * (k + l) == 1.0
    ensures Becomes(Denormal(Plc(vc, vl, sh, g), form, t, sqrt), s, t.r1, z)
  {
    hide Over, Farads, Henrys, Becomes;
    if form.LowPass? {
      NewPlc(t, s, x, y, vc, 1.0, vl, 1.0, sh, g, k, l, z);
    } else {
      NewPlc(t, s, x, y, 1.0, vl, 1.0, vc, sh, g, l, k, z);
    }
  }

  // ----- the split of one LC into two -----

  /** u and w are a vC and a vL for a band-pass Plc, a / vL and a / vC for a band-stop one; for a
      Slc the two values change places. */
  ghost predicate Weights(form: Form, vc: real, vl: real, a: real, u: real, w: real) {
    if form.BandPass? then u == a * vc && w == a * vl else u * vl == a && w * vc == a
  }

  /** b, h, and the two halves of a split. */
  ghost predicate Halves(n1: real, n2: real, u: real, w: real) {
    && n1 > 0.0 && n2 > 0.0
    && (n1 + n2) * u == 1.0
    && (n1 + n2) * (n1 * n2) == w * ((n2 - n1) * (n2 - n1))
  }

  lemma RootIs(form: Form, vc: real, vl: real, a: real, sqrt: real -> real, u: real, w: real)
    requires IsSqrt(sqrt) && Banded(form)
    requires vc > 0.0 && vl > 0.0 && a > 0.0 && u > 0.0 && w > 0.0 && Weights(form, vc, vl, a, u, w)
    ensures var b := Root(form, vc, vl, a, sqrt);
            b > 1.0 && b * b == 4.0 * (u * w) + 1.0
  {
    var d := Discriminant(form, vc, vl, a);
    assert d == 4.0 * (u * w) by { DiscriminantIs(form, vc, vl, a, u, w); }
    ProductPositive(u, w, u * w);
    var b := sqrt(d + 1.0);
    assert b * b == d + 1.0;
    if b <= 1.0 { SquareAtMostOne(b); }
  }

  lemma SquareAtMostOne(b: real)
    requires 0.0 <= b <= 1.0
    ensures b * b <= 1.0
  {
    if b == 0.0 {
      assert b * b == 0.0 * b;
    } else if b == 1.0 {
      assert b * b == 1.0 * b;
    } else {
      ProductIncreases(b, 1.0, b);
    }
  }

  lemma DiscriminantIs(form: Form, vc: real, vl: real, a: real, u: real, w: real)
    requires Banded(form)
    requires vc > 0.0 && vl > 0.0 && a > 0.0 && Weights(form, vc, vl, a, u, w)
    ensures Discriminant(form, vc, vl, a) == 4.0 * (u * w)
  {
    if form.BandPass? {
      assert a * vc * (a * vl) * 4.0 == 4.0 * a * a * vc * vl;
    } else {
      ProductPositive(vc, vl, vc * vl);
      StopDiscriminant(vc, vl, a, u, w);
      DivideUnique(4.0 * a * a, vc * vl, 4.0 * (u * w));
    }
  }

  lemma StopDiscriminant(vc: real, vl: real, a: real, u: real, w: real)
    requires u * vl == a && w * vc == a
    ensures 4.0 * a * a == 4.0 * (u * w) * (vc * vl)
  {
    calc {
      4.0 * (u * w) * (vc * vl);
      4.0 * ((u * vl) * (w * vc));
      4.0 * (a * (w * vc));
      4.0 * a * a;
    }
  }

  lemma HalfIs(form: Form, vc: real, vl: real, a: real, u: real, w: real, b: real)
    requires Banded(form)
    requires vc > 0.0 && vl > 0.0 && a > 0.0 && b > 1.0 && Weights(form, vc, vl, a, u, w)
    ensures var h := Half(form, vc, vl, a, b);
            h > 0.0 && 2.0 * b * h * u == 1.0
  {
    var h := Half(form, vc, vl, a, b);
    if form.BandPass? {
      ProductPositive(a, vc, a * vc);
      ProductPositive(a * vc, b, a * vc * b);
      OverIs(1.0, a * vc * 2.0 * b);
      assert 2.0 * b * h * (a * vc) == h * (a * vc * 2.0 * b);
    } else {
      ProductPositive(a, b, a * b);
      OverIs(vl, a * 2.0 * b);
      HalfStop(vl, a, b, h, u);
    }
  }

  lemma HalfStop(vl: real, a: real, b: real, h: real, u: real)
    requires vl > 0.0 && u * vl == a && h * (a * 2.0 * b) == vl
    ensures 2.0 * b * h * u == 1.0
  {
    calc {
      2.0 * b * h * u * vl;
      2.0 * b * h * (u * vl);
      h * (a * 2.0 * b);
      vl;
    }
    DivideUnique(vl, vl, 2.0 * b * h * u);
    DivideUnique(vl, vl, 1.0);
  }

  lemma HalvesAre(b: real, h: real, u: real, w: real)
    requires b > 1.0 && h > 0.0 && b * b == 4.0 * (u * w) + 1.0 && 2.0 * b * h * u == 1.0
    ensures Halves(Lower(b, h), Upper(b, h), u, w)
  {
    var n1, n2 := Lower(b, h), Upper(b, h);
    ProductPositive(b - 1.0, h, n1);
    ProductPositive(b + 1.0, h, n2);
    HalvesSum(b, h);
    calc {
      (n1 + n2) * (n1 * n2);
      2.0 * b * h * ((b * b - 1.0) * (h * h));
      2.0 * b * h * (4.0 * (u * w) * (h * h));
      2.0 * b * h * u * (4.0 * w * (h * h));
      4.0 * w * (h * h);
      w * ((2.0 * h) * (2.0 * h));
    }
  }

  lemma HalvesSum(b: real, h: real)
    ensures Lower(b, h) + Upper(b, h) == 2.0 * b * h
    ensures Upper(b, h) - Lower(b, h) == 2.0 * h
    ensures Lower(b, h) * Upper(b, h) == (b * b - 1.0) * (h * h)
  {
  }

  /** The two Plc of a split add up to the inverse of m u + e, the susceptance of the original,
      where m is x + y and e the inverse of m w. */
  lemma PairSplit(n1: real, n2: real, g1: real, g2: real, u: real, w: real, x: real, y: real, e: real,
                  z1: real, z2: real)
    requires Halves(n1, n2, u, w) && x > 0.0 && y > 0.0 && x * y == 1.0 && e * ((x + y) * w) == 1.0
    requires g1 * n1 == 1.0 && g2 * n2 == 1.0
    requires z1 * (x * g2 + y * g1) == 1.0 && z2 * (x * g1 + y * g2) == 1.0
    ensures (z1 + z2) * ((x + y) * u + e) == 1.0
  {
    var a, b, m := x * n1 + y * n2, x * n2 + y * n1, x + y;
    var sum, p, d := n1 + n2, n1 * n2, (n2 - n1) * (n2 - n1);
    WeightedPositive(n1, n2, x, y);
    WeightedPositive(n2, n1, x, y);
    FromParts(n1, n2, g1, g2, x, y, z1);
    FromParts(n2, n1, g2, g1, x, y, z2);
    CrossProducts(n1, n2, x, y, a, b, m, sum, p, d);
    PairOf(a, b, sum, p, d, m, u, w, e, z1, z2);
  }

  lemma WeightedPositive(n1: real, n2: real, x: real, y: real)
    requires n1 > 0.0 && n2 > 0.0 && x > 0.0 && y > 0.0
    ensures x * n1 + y * n2 > 0.0
  {
    ProductPositive(x, n1, x * n1);
    ProductPositive(y, n2, y * n2);
  }

  lemma PairOf(a: real, b: real, s: real, p: real, d: real, m: real, u: real, w: real, e: real, z1: real, z2: real)
    requires a > 0.0 && b > 0.0 && z1 * a == p && z2 * b == p
    requires a + b == m * s && a * b == m * m * p + d
    requires s * u == 1.0 && s * p == w * d && e * (m * w) == 1.0
    ensures (z1 + z2) * (m * u + e) == 1.0
  {
    ProductPositive(a, b, a * b);
    Balance(s, p, d, m, u, w, e);
    SplitQuotient(z1, z2, a, b, p, m * s, m * u + e);
  }

  lemma FromParts(n1: real, n2: real, g1: real, g2: real, x: real, y: real, z: real)
    requires g1 * n1 == 1.0 && g2 * n2 == 1.0 && z * (x * g2 + y * g1) == 1.0
    ensures z * (x * n1 + y * n2) == n1 * n2
  {
    calc {
      n1 * n2;
      z * (x * g2 + y * g1) * (n1 * n2);
      z * (x * n1 * (g2 * n2) + y * n2 * (g1 * n1));
      z * (x * n1 * 1.0 + y * n2 * (g1 * n1));
      z * (x * n1 + y * n2);
    }
  }

  lemma CrossProducts(n1: real, n2: real, x: real, y: real, a: real, b: real, m: real, s: real, p: real, d: real)
    requires x * y == 1.0 && a == x * n1 + y * n2 && b == x * n2 + y * n1
    requires m == x + y && s == n1 + n2 && p == n1 * n2 && d == (n2 - n1) * (n2 - n1)
    ensures a + b == m * s && a * b == m * m * p + d
  {
    assert m * s == (x + y) * (n1 + n2);
    assert m * m * p == (x + y) * (x + y) * (n1 * n2);
    calc {
      (x * n1 + y * n2) * (x * n2 + y * n1);
      (x * x + y * y) * (n1 * n2) + x * y * (n1 * n1 + n2 * n2);
      (x * x + 2.0 * (x * y) + y * y) * (n1 * n2) - 2.0 * (x * y) * (n1 * n2) + x * y * (n1 * n1 + n2 * n2);
      (x + y) * (x + y) * (n1 * n2) + x * y * ((n2 - n1) * (n2 - n1));
    }
  }

  lemma Balance(s: real, p: real, d: real, m: real, u: real, w: real, e: real)
    requires s * u == 1.0 && s * p == w * d && e * (m * w) == 1.0
    ensures (m * u + e) * (p * (m * s)) == m * m * p + d
  {
    calc {
      (m * u + e) * (p * (m * s));
      m * m * p * (s * u) + e * m * (s * p);
      m * m * p + e * m * (s * p);
      m * m * p + e * m * (w * d);
      m * m * p + e * (m * w) * d;
      m * m * p + d;
    }
  }

  lemma SplitQuotient(z1: real, z2: real, a: real, b: real, p: real, ms: real, k: real)
    requires z1 * a == p && z2 * b == p && a + b == ms && k * (p * ms) == a * b && a * b > 0.0
    ensures (z1 + z2) * k == 1.0
  {
    calc {
      (z1 + z2) * k * (a * b);
      k * ((z1 * a) * b + (z2 * b) * a);
      k * (p * b + (z2 * b) * a);
      k * (p * b + p * a);
      k * (p * (a + b));
      a * b;
    }
    DivideUnique(a * b, a * b, (z1 + z2) * k);
    DivideUnique(a * b, a * b, 1.0);
  }

  lemma JoinOhms(c: Cmp, d: Cmp, s: real, r: real, z1: real, z2: real)
    requires Becomes([c], s, r, z1) && Becomes([d], s, r, z2)
    ensures Becomes([c, d], s, r, z1 + z2)
  {
    assert [c][0] == c && [d][0] == d && [c, d][1..] == [d] && [c, d][0] == c;
    OneOhms(c, s);
    OneOhms(d, s);
    assert TotalOhms([c, d], s) == Ohms(c, s) + TotalOhms([d], s);
    assert r * (z1 + z2) == r * z1 + r * z2;
  }

  lemma PlcPairOhms(n1: real, n2: real, sh: bool, g: bool, t: Spec, s: real, x: real, y: real,
                    u: real, w: real, e: real, m: real, z: real)
    requires Scaled(t, s, x, y) && Halves(n1, n2, u, w)
    requires e * ((x + y) * w) == 1.0 && m == (x + y) * u + e && z * m == 1.0
    ensures Becomes(PlcPair(n1, n2, sh, g, t), s, t.r1, z)
  {
    assert n1 > 0.0 && n2 > 0.0 && x > 0.0 && y > 0.0 && x * y == 1.0;
    hide *;
    OverIs(1.0, n1);
    OverIs(1.0, n2);
    var g1, g2 := Over(1.0, n1), Over(1.0, n2);
    WeightedPositive(g2, g1, x, y);
    WeightedPositive(g1, g2, x, y);
    var z1, z2 := 1.0 / (x * g2 + y * g1), 1.0 / (x * g1 + y * g2);
    PairSplit(n1, n2, g1, g2, u, w, x, y, e, z1, z2);
    PairTotal((x + y) * u + e, m, z, z1 + z2);
    HalfOhms(n1, g1, g2, t, s, x, y, z1, sh, false);
    HalfOhms(n2, g2, g1, t, s, x, y, z2, false, g);
    JoinOhms(Plc(Farads(g2, 1.0, t), Henrys(n1, 1.0, t), sh, false),
             Plc(Farads(g1, 1.0, t), Henrys(n2, 1.0, t), false, g), s, t.r1, z1, z2);
    assert PlcPair(n1, n2, sh, g, t) == [Plc(Farads(g2, 1.0, t), Henrys(n1, 1.0, t), sh, false),
                                         Plc(Farads(g1, 1.0, t), Henrys(n2, 1.0, t), false, g)] by {
      PairIs(n1, n2, sh, g, t);
    }
  }

  lemma PairIs(n1: real, n2: real, sh: bool, g: bool, t: Spec)
    ensures PlcPair(n1, n2, sh, g, t) == [Plc(Farads(Over(1.0, n2), 1.0, t), Henrys(n1, 1.0, t), sh, false),
                                          Plc(Farads(Over(1.0, n1), 1.0, t), Henrys(n2, 1.0, t), false, g)]
  {
    hide Over, Farads, Henrys;
  }

  lemma PairTotal(k: real, m: real, z: real, v: real)
    requires k == m && z * m == 1.0 && v * k == 1.0
    ensures v == z
  {
    UniqueFactor(m, z, v);
  }

  lemma HalfOhms(n: real, g: real, h: real, t: Spec, s: real, x: real, y: real, z: real, sh: bool, gnd: bool)
    requires Scaled(t, s, x, y) && n > 0.0 && h > 0.0 && g * n == 1.0 && z * (x * h + y * g) == 1.0
    ensures Becomes([Plc(Farads(h, 1.0, t), Henrys(n, 1.0, t), sh, gnd)], s, t.r1, z)
  {
    hide *;
    assert y * g * n == y * (g * n);
    NewPlc(t, s, x, y, h, 1.0, n, 1.0, sh, gnd, x * h, y * g, z);
  }

  lemma WeightsExist(form: Form, vc: real, vl: real, a: real) returns (u: real, w: real)
    requires Banded(form) && vc > 0.0 && vl > 0.0 && a > 0.0
    ensures u > 0.0 && w > 0.0 && Weights(form, vc, vl, a, u, w)
  {
    if form.BandPass? {
      ProductPositive(a, vc, a * vc);
      ProductPositive(a, vl, a * vl);
      u, w := a * vc, a * vl;
    } else {
      QuotientPositive(a, vl, a / vl);
      QuotientPositive(a, vc, a / vc);
      u, w := a / vl, a / vc;
    }
  }

  /** The partial fractions of a transformed Plc: two Plc in series with its impedance. */
  lemma PlcSplits(form: Form, vc: real, vl: real, sh: bool, g: bool, t: Spec, sqrt: real -> real, s: real,
                  x: real, y: real, p: real, q: real, k: real, l: real, z: real)
    requires IsSqrt(sqrt) && vc > 0.0 && vl > 0.0 && Banded(form)
    requires Scaled(t, s, x, y) && MapsTo(form, x, y, Over(t.fc, t.bw), p, q)
    requires l * vl == q && k == p * vc && z * (k + l) == 1.0
    ensures Becomes(Denormal(Plc(vc, vl, sh, g), form, t, sqrt), s, t.r1, z)
  {
    var a := Over(t.fc, t.bw);
    hide Over, Becomes;
    var u, w := WeightsExist(form, vc, vl, a);
    RootIs(form, vc, vl, a, sqrt, u, w);
    var b := Root(form, vc, vl, a, sqrt);
    HalfIs(form, vc, vl, a, u, w, b);
    var h := Half(form, vc, vl, a, b);
    HalvesAre(b, h, u, w);
    hide Halves, Root, Half, Lower, Upper;
    var e := PlcShares(form, vc, vl, x, y, a, p, q, k, l, u, w);
    PlcPairOhms(Lower(b, h), Upper(b, h), sh, g, t, s, x, y, u, w, e, k + l, z);
  }

  lemma PlcShares(form: Form, vc: real, vl: real, x: real, y: real, a: real, p: real, q: real,
                  k: real, l: real, u: real, w: real) returns (e: real)
    requires Banded(form) && MapsTo(form, x, y, a, p, q) && Weights(form, vc, vl, a, u, w)
    requires l * vl == q && k == p * vc && vl > 0.0
    ensures e * ((x + y) * w) == 1.0 && (x + y) * u + e == k + l
  {
    hide Spread;
    if form.BandPass? {
      e := l;
      PassShares(vc, vl, x, y, a, p, q, k, l, u, w);
    } else {
      e := k;
      StopShare(vl, x, y, a, q, l, u);
      StopRest(vc, x, y, a, p, q, k, w);
    }
  }

  lemma PassShares(vc: real, vl: real, x: real, y: real, a: real, p: real, q: real,
                   k: real, l: real, u: real, w: real)
    requires p == Spread(a, x, y) && p * q == 1.0 && l * vl == q && k == p * vc && u == a * vc && w == a * vl
    ensures l * ((x + y) * w) == 1.0 && (x + y) * u == k
  {
    calc {
      l * ((x + y) * (a * vl));
      (l * vl) * (a * (x + y));
      q * p;
    }
    calc {
      (x + y) * (a * vc);
      a * (x + y) * vc;
    }
  }

  lemma StopRest(vc: real, x: real, y: real, a: real, p: real, q: real, k: real, w: real)
    requires q == Spread(a, x, y) && p * q == 1.0 && k == p * vc && w * vc == a
    ensures k * ((x + y) * w) == 1.0
  {
    calc {
      p * vc * ((x + y) * w);
      p * ((x + y) * (w * vc));
      p * q;
    }
  }

  lemma StopShare(v: real, x: real, y: real, a: real, q: real, l: real, u: real)
    requires q == Spread(a, x, y) && u * v == a && l * v == q && v > 0.0
    ensures (x + y) * u == l
  {
    calc {
      (x + y) * u * v;
      (x + y) * (u * v);
      q;
    }
    DivideUnique(q, v, (x + y) * u);
    DivideUnique(q, v, l);
  }

  /** e and f are the admittances of the two branches. */
  lemma OhmsPslc(vc: real, vl: real, vc2: real, vl2: real, sh: bool, g: bool, s: real, e: real, f: real, z: real)
    requires vc > 0.0 && vl > 0.0 && vc2 > 0.0 && vl2 > 0.0 && s > 0.0
    requires Branch(vl, vc, s, e) && Branch(vl2, vc2, s, f) && z * (e + f) == 1.0
    ensures Ohms(Pslc(vc, vl, vc2, vl2, sh, g), s) == z
  {
    hide Tank;
    ImpedancePositive(Pslc(vc, vl, vc2, vl2, sh, g), s);
    var m, n := Tank(vl, vc, s), Tank(vl2, vc2, s);
    calc {
      z * (s * vc * n + s * vc2 * m);
      z * (e * m * n + f * n * m);
      m * n * (z * (e + f));
      m * n;
    }
    DivideUnique(m * n, s * vc * n + s * vc2 * m, z);
  }

  /** e is the admittance of a series LC branch. */
  ghost predicate Branch(vl: real, vc: real, s: real, e: real) {
    e * Tank(vl, vc, s) == s * vc
  }

  /** A branch whose capacitor and inductor have inverse values n and 1 / n has r1 (x + y) / n ohms. */
  lemma BranchAdmittance(n: real, t: Spec, s: real, x: real, y: real, e: real, m: real)
    requires Scaled(t, s, x, y) && n > 0.0 && e * m == n && m == t.r1 * (x + y)
    ensures Farads(n, 1.0, t) > 0.0 && Henrys(Over(1.0, n), 1.0, t) > 0.0
    ensures Branch(Henrys(Over(1.0, n), 1.0, t), Farads(n, 1.0, t), s, e)
  {
    OverIs(1.0, n);
    var i := Over(1.0, n);
    hide *;
    var a, b := BranchShares(x, y, i, n, m, t.r1);
    CapacitorAt(t, s, x, y, n, 1.0, a);
    InductorAt(t, s, x, y, i, 1.0, b);
    BranchFrom(Henrys(i, 1.0, t), Farads(n, 1.0, t), s, t.r1, a, b, i, n, m, e);
  }

  lemma BranchShares(x: real, y: real, i: real, n: real, m: real, r: real) returns (a: real, b: real)
    requires i * n == 1.0 && m == r * (x + y)
    ensures a * n == y * 1.0 && b * 1.0 == x * i && m * i == r * (a + b)
  {
    a, b := y * i, x * i;
    assert y * i * n == y * (i * n);
    assert r * (x + y) * i == r * (y * i + x * i);
  }

  lemma BranchFrom(w: real, f: real, s: real, r: real, a: real, b: real, i: real, n: real, m: real, e: real)
    requires i * n == 1.0 && s * w == r * b && r * a * (s * f) == 1.0 && e * m == n && m * i == r * (a + b)
    ensures Branch(w, f, s, e)
  {
    TankIs(w, f, s);
    hide Tank;
    calc {
      Tank(w, f, s);
      r * b * (s * f) + r * a * (s * f);
      r * (a + b) * (s * f);
      m * i * (s * f);
    }
    calc {
      e * (m * i * (s * f));
      e * m * i * (s * f);
      n * i * (s * f);
      s * f;
    }
  }

  lemma TankIs(vl: real, vc: real, s: real)
    ensures Tank(vl, vc, s) == s * vl * (s * vc) + 1.0
  {
  }

  lemma SlcPairOhms(n1: real, n2: real, sh: bool, g: bool, t: Spec, s: real, x: real, y: real, u: real, z: real)
    requires Scaled(t, s, x, y) && n1 > 0.0 && n2 > 0.0 && (n1 + n2) * u == 1.0 && z == (x + y) * u
    ensures Becomes([SlcPair(n1, n2, sh, g, t)], s, t.r1, z)
  {
    assert t.r1 > 0.0 && x > 0.0 && y > 0.0;
    hide *;
    var m := t.r1 * (x + y);
    ProductPositive(t.r1, x + y, m);
    var e, f := n1 / m, n2 / m;
    BranchAdmittance(n1, t, s, x, y, e, m);
    BranchAdmittance(n2, t, s, x, y, f, m);
    var k := t.r1 * z;
    BranchSum(t.r1, x + y, m, n1, n2, u, z, e, f, k);
    PslcBecomes(Farads(n1, 1.0, t), Henrys(Over(1.0, n1), 1.0, t), Farads(n2, 1.0, t), Henrys(Over(1.0, n2), 1.0, t),
                sh, g, s, e, f, t.r1, z, k);
  }

  lemma PslcBecomes(vc: real, vl: real, vc2: real, vl2: real, sh: bool, g: bool, s: real,
                    e: real, f: real, r: real, z: real, k: real)
    requires vc > 0.0 && vl > 0.0 && vc2 > 0.0 && vl2 > 0.0 && s > 0.0
    requires Branch(vl, vc, s, e) && Branch(vl2, vc2, s, f) && k == r * z && k * (e + f) == 1.0
    ensures Becomes([Pslc(vc, vl, vc2, vl2, sh, g)], s, r, z)
  {
    hide Tank;
    OhmsPslc(vc, vl, vc2, vl2, sh, g, s, e, f, k);
    OneOhms(Pslc(vc, vl, vc2, vl2, sh, g), s);
  }

  lemma BranchSum(r: real, x: real, m: real, n1: real, n2: real, u: real, z: real,
                  e: real, f: real, k: real)
    requires e * m == n1 && f * m == n2 && m == r * x && (n1 + n2) * u == 1.0 && z == x * u && k == r * z
    ensures k * (e + f) == 1.0
  {
    calc {
      r * z * (e + f);
      u * (e * (r * x) + f * (r * x));
      u * (e * m + f * m);
    }
  }

  lemma DiscriminantSymmetric(form: Form, vc: real, vl: real, a: real)
    ensures Discriminant(form, vc, vl, a) == Discriminant(form, vl, vc, a)
  {
    assert vc * vl == vl * vc;
  }

  /** A split Slc keeps one element only: the impedance is that of the prototype's inductor for a
      band-pass, of its capacitor for a band-stop. */
  lemma SlcSplits(form: Form, vc: real, vl: real, sh: bool, g: bool, t: Spec, sqrt: real -> real, s: real,
                  x: real, y: real, p: real, q: real, k: real, l: real)
    requires IsSqrt(sqrt) && vc > 0.0 && vl > 0.0 && Banded(form)
    requires Scaled(t, s, x, y) && MapsTo(form, x, y, Over(t.fc, t.bw), p, q) && k * vc == q && l == p * vl
    ensures Becomes(Denormal(Slc(vc, vl, sh, g), form, t, sqrt), s, t.r1, if form.BandPass? then l else k)
  {
    var a := Over(t.fc, t.bw);
    hide Over, Becomes;
    var u, w := WeightsExist(form, vl, vc, a);
    DiscriminantSymmetric(form, vc, vl, a);
    RootIs(form, vl, vc, a, sqrt, u, w);
    var b := Root(form, vc, vl, a, sqrt);
    HalfIs(form, vl, vc, a, u, w, b);
    var h := Half(form, vl, vc, a, b);
    HalvesAre(b, h, u, w);
    hide Root, Half, Lower, Upper, SlcPair;
    if form.BandPass? {
      SlcPairOhms(Lower(b, h), Upper(b, h), sh, g, t, s, x, y, u, l);
    } else {
      StopShare(vc, x, y, a, q, k, u);
      SlcPairOhms(Lower(b, h), Upper(b, h), sh, g, t, s, x, y, u, k);
    }
  }
}
