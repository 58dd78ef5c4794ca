/** Filter components, the ladder they form, and what a ladder means: the admittance it
    shows at its input for a real frequency variable s. */
module Ladder {

  datatype Cmp =
    | Ind(val: real, shnt: bool, gnd: bool)
    | Cap(val: real, shnt: bool, gnd: bool)
    | Res(val: real, shnt: bool, gnd: bool)
    | Slc(vC: real, vL: real, shnt: bool, gnd: bool)
    | Plc(vC: real, vL: real, shnt: bool, gnd: bool)
    | Pslc(vC: real, vL: real, vC2: real, vL2: real, shnt: bool, gnd: bool)
    | End

  /** A ratio num : den, so that open (0 : 1) and short (1 : 0) circuits need no special case. */
  datatype Ratio = Ratio(num: real, den: real)

  function Scale(m: real, r: Ratio): Ratio {
    Ratio(m * r.num, m * r.den)
  }

  function Flip(r: Ratio): Ratio {
    Ratio(r.den, r.num)
  }

  /** s^2 LC + 1 */
  function Tank(vl: real, vc: real, s: real): real {
    s * vl * (s * vc) + 1.0
  }

  /** The impedance of one component at s. */
  function Impedance(c: Cmp, s: real): Ratio {
    match c
    case Ind(l, _, _) => Ratio(s * l, 1.0)
    case Cap(v, _, _) => Ratio(1.0, s * v)
    case Res(r, _, _) => Ratio(r, 1.0)
    case Slc(vc, vl, _, _) => Ratio(Tank(vl, vc, s), s * vc)
    case Plc(vc, vl, _, _) => Ratio(s * vl, Tank(vl, vc, s))
    case Pslc(vc, vl, vc2, vl2, _, _) =>
      Ratio(Tank(vl, vc, s) * Tank(vl2, vc2, s), s * vc * Tank(vl2, vc2, s) + s * vc2 * Tank(vl, vc, s))
    case End => Ratio(0.0, 1.0)
  }

  /** The input admittance in front of one component, given the admittance behind it: a
      component tied to ground adds its admittance, any other adds its impedance. */
  function Before(c: Cmp, s: real, y: Ratio): Ratio {
    var z := Impedance(c, s);
    if c.End? then y
    else if c.gnd then Ratio(y.num * z.num + y.den * z.den, y.den * z.num)
    else Ratio(y.num * z.den, y.den * z.den + y.num * z.num)
  }

  /** The input admittance of a whole list, whose last component is loaded with y. */
  function Input(l: seq<Cmp>, s: real, y: Ratio): Ratio
    decreases |l|
  {
    if l == [] then y else Before(l[0], s, Input(l[1..], s, y))
  }

  lemma {:induction false} InputAppend(l: seq<Cmp>, c: seq<Cmp>, s: real, y: Ratio)
    ensures Input(l + c, s, y) == Input(l, s, Input(c, s, y))
    decreases |l|
  {
    hide Before;
    if l == [] {
      assert [] + c == c;
    } else {
      assert (l + c)[1..] == l[1..] + c;
      InputAppend(l[1..], c, s, y);
    }
  }

  lemma BeforeScale(c: Cmp, s: real, m: real, y: Ratio)
    ensures Before(c, s, Scale(m, y)) == Scale(m, Before(c, s, y))
  {
    hide Impedance;
    var z := Impedance(c, s);
    assert (m * y.num) * z.num + (m * y.den) * z.den == m * (y.num * z.num + y.den * z.den);
    assert (m * y.den) * z.den + (m * y.num) * z.num == m * (y.den * z.den + y.num * z.num);
  }

  lemma {:induction false} InputScale(l: seq<Cmp>, s: real, m: real, y: Ratio)
    ensures Input(l, s, Scale(m, y)) == Scale(m, Input(l, s, y))
    decreases |l|
  {
    hide Before, Scale;
    if l != [] {
      InputScale(l[1..], s, m, y);
      BeforeScale(l[0], s, m, Input(l[1..], s, y));
    }
  }

  // ----- the components a synthesis emits, with the flags it gives them -----

  lemma BeforeCap(v: real, s: real, y: Ratio)
    ensures Before(Cap(v, true, true), s, y) == Ratio(y.num + y.den * (s * v), y.den)
  {
  }

  lemma BeforeInd(v: real, s: real, y: Ratio)
    ensures Before(Ind(v, false, false), s, y) == Ratio(y.num, y.den + y.num * (s * v))
  {
  }

  lemma BeforePlc(vc: real, vl: real, s: real, y: Ratio)
    ensures Before(Plc(vc, vl, false, false), s, y)
         == Ratio(y.num * (s * vl * (s * vc) + 1.0), y.den * (s * vl * (s * vc) + 1.0) + y.num * (s * vl))
  {
  }

  lemma BeforeSlc(vc: real, vl: real, s: real, y: Ratio)
    ensures Before(Slc(vc, vl, true, true), s, y)
         == Ratio(y.num * (s * vl * (s * vc) + 1.0) + y.den * (s * vc), y.den * (s * vl * (s * vc) + 1.0))
  {
  }

  lemma InputTwo(c: Cmp, d: Cmp, s: real, y: Ratio)
    ensures Input([c, d], s, y) == Before(c, s, Before(d, s, y))
  {
    hide Before;
    assert [c, d][1..] == [d] && [d][1..] == [];
    assert Input([d], s, y) == Before(d, s, Input([], s, y));
  }
}
