/** Rounding a list of shares to whole numbers, and by how much the total can go wrong. */
module Rounding {

  /** Round to nearest, a tie to the even neighbour. */
  function Rint(x: real): int {
    var f := x.Floor;
    var d := x - f as real;
    if d < 0.5 then f
    else if d > 0.5 then f + 1
    else if f % 2 == 0 then f else f + 1
  }

  lemma RintIsNear(x: real)
    ensures x - 0.5 <= Rint(x) as real <= x + 0.5
  {
  }

  /** A tie goes to an even number. */
  lemma RintOfTie(x: real)
    requires Rint(x) as real - x == 0.5 || x - Rint(x) as real == 0.5
    ensures Rint(x) % 2 == 0
  {
    assert x.Floor as real <= x < x.Floor as real + 1.0;
  }

  lemma RintIsMonotone(x: real, y: real)
    requires x <= y
    ensures Rint(x) <= Rint(y)
  {
    RintIsNear(x);
    RintIsNear(y);
    if x.Floor == y.Floor {
    } else {
      assert x.Floor + 1 <= y.Floor;
    }
  }

  function Sum(s: seq<real>): real {
    if s == [] then 0.0 else Sum(s[..|s| - 1]) + s[|s| - 1]
  }

  function Total(s: seq<int>): int {
    if s == [] then 0 else Total(s[..|s| - 1]) + s[|s| - 1]
  }

  function Rounded(s: seq<real>): (r: seq<int>)
    ensures |r| == |s| && forall i :: 0 <= i < |s| ==> r[i] == Rint(s[i])
  {
    seq(|s|, i requires 0 <= i < |s| => Rint(s[i]))
  }

  /** The shares that rounding raises. */
  ghost function Raised(s: seq<real>): set<int> {
    set i | 0 <= i < |s| && s[i] < Rint(s[i]) as real
  }

  ghost function Lowered(s: seq<real>): set<int> {
    set i | 0 <= i < |s| && Rint(s[i]) as real < s[i]
  }

  /** Adding one more share. */
  lemma LastShare(s: seq<real>, t: seq<real>, n: int)
    requires s != [] && n == |s| - 1 && t == s[..n]
    ensures Rounded(s)[..n] == Rounded(t) && Rounded(s)[n] == Rint(s[n])
    ensures |Raised(s)| == |Raised(t)| + (if s[n] < Rint(s[n]) as real then 1 else 0)
    ensures |Lowered(s)| == |Lowered(t)| + (if Rint(s[n]) as real < s[n] then 1 else 0)
  {
    hide Rint;
    assert Raised(s) == Raised(t) + (if s[n] < Rint(s[n]) as real then {n} else {});
    assert Lowered(s) == Lowered(t) + (if Rint(s[n]) as real < s[n] then {n} else {});
    assert n !in Raised(t) && n !in Lowered(t);
  }

  /** The total of the rounded shares is off by at most half a unit for each share that rounding
      moved in that direction. */
  lemma {:induction false} RoundingError(s: seq<real>)
    ensures Total(Rounded(s)) as real - Sum(s) <= |Raised(s)| as real / 2.0
    ensures Sum(s) - Total(Rounded(s)) as real <= |Lowered(s)| as real / 2.0
    ensures |Raised(s)| <= |s| && |Lowered(s)| <= |s|
    decreases |s|
  {
    hide Rint, Raised, Lowered, Rounded;
    if s == [] {
      NoShares(s);
    } else {
      var n := |s| - 1;
      var t := s[..n];
      RoundingError(t);
      LastShare(s, t, n);
      RintIsNear(s[n]);
      assert Total(Rounded(s)) == Total(Rounded(t)) + Rint(s[n]);
    }
  }

  lemma NoShares(s: seq<real>)
    requires s == []
    ensures Raised(s) == {} && Lowered(s) == {}
  {
  }

  /** For shares that add up to a whole number, the correction that the rounded total needs is at
      most half the number of shares; and if it is downwards, twice as many shares were raised. */
  lemma CorrectionIsSmall(s: seq<real>, n: int)
    requires Sum(s) == n as real
    ensures var k := n - Total(Rounded(s));
            2 * k <= |s| && -2 * k <= |Raised(s)| <= |s|
  {
    hide *;
    RoundingError(s);
  }
}
