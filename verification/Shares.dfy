/** The proposal of the load balancer and its repair: every slave gets a share of the population
    in proportion to its speed, rounded, and the fastest slaves absorb the rounding error. */
module Shares {
  import opened RealMath
  import opened Rounding
  import opened ShellSort

  // ----- proportional shares -----

  /** The speed of a slave whose average is t. */
  function Weight(t: real): real {
    if t > 0.0 then 1.0 / t else 0.0
  }

  function Weights(avgs: seq<real>): (w: seq<real>)
    ensures |w| == |avgs| && forall i :: 0 <= i < |avgs| ==> w[i] == Weight(avgs[i])
  {
    seq(|avgs|, i requires 0 <= i < |avgs| => Weight(avgs[i]))
  }

  function Portion(c: real, w: real): real {
    c * w
  }

  function Scaled(c: real, s: seq<real>): (r: seq<real>)
    ensures |r| == |s| && forall i :: 0 <= i < |s| ==> r[i] == Portion(c, s[i])
  {
    seq(|s|, i requires 0 <= i < |s| => Portion(c, s[i]))
  }

  /** A quotient that is only taken of a positive divisor. */
  function PerUnit(np: int, total: real): real {
    if total > 0.0 then np as real / total else 0.0
  }

  function ShareList(avgs: seq<real>, np: int): (r: seq<real>)
    ensures |r| == |avgs|
  {
    var w := Weights(avgs);
    Scaled(PerUnit(np, Sum(w)), w)
  }

  ghost predicate AllAbove(s: seq<real>, b: real) {
    forall i :: 0 <= i < |s| ==> s[i] > b
  }

  lemma WeightPositive(t: real)
    requires t > 0.0
    ensures Weight(t) > 0.0
  {
    QuotientPositive(1.0, t, 1.0 / t);
  }

  lemma {:induction false} SumPositive(s: seq<real>)
    requires AllAbove(s, 0.0) && s != []
    ensures Sum(s) > 0.0
    decreases |s|
  {
    if |s| > 1 { SumPositive(s[..|s| - 1]); }
  }

  lemma {:induction false} SumScaled(c: real, s: seq<real>)
    ensures Sum(Scaled(c, s)) == Portion(c, Sum(s))
    decreases |s|
  {
    if s != [] {
      var n := |s| - 1;
      SumScaled(c, s[..n]);
      ScaledPrefix(c, s, n);
      assert c * (Sum(s[..n]) + s[n]) == c * Sum(s[..n]) + c * s[n];
    }
  }

  lemma ScaledPrefix(c: real, s: seq<real>, n: nat)
    requires n <= |s|
    ensures Scaled(c, s)[..n] == Scaled(c, s[..n])
  {
    hide Portion;
  }

  /** The shares add up to the population. */
  lemma SharesTotal(avgs: seq<real>, np: int)
    requires avgs != [] && AllAbove(avgs, 0.0)
    ensures Sum(Weights(avgs)) > 0.0
    ensures Sum(ShareList(avgs, np)) == np as real
  {
    var w := Weights(avgs);
    forall i | 0 <= i < |w| ensures w[i] > 0.0 {
      WeightPositive(avgs[i]);
    }
    SumPositive(w);
    hide Weights;
    SumScaled(PerUnit(np, Sum(w)), w);
    DivideBack(np as real, Sum(w));
  }

  lemma WeightOrder(t: real, u: real)
    requires 0.0 < t <= u
    ensures Weight(u) <= Weight(t)
  {
    InversesReverse(t, u);
  }

  lemma ShareIs(avgs: seq<real>, np: int, i: int)
    requires 0 <= i < |avgs|
    ensures ShareList(avgs, np)[i] == Portion(PerUnit(np, Sum(Weights(avgs))), Weight(avgs[i]))
  {
    hide Portion, Weight, PerUnit, Sum;
  }

  /** The speed relative to a time tmin, the way the program writes it. */
  function Relative(t: real, tmin: real): real {
    if t > 0.0 && tmin > 0.0 then 1.0 / (t / tmin) else 0.0
  }

  function Relatives(avgs: seq<real>, tmin: real): (w: seq<real>)
    ensures |w| == |avgs| && forall i :: 0 <= i < |avgs| ==> w[i] == Relative(avgs[i], tmin)
  {
    seq(|avgs|, i requires 0 <= i < |avgs| => Relative(avgs[i], tmin))
  }

  lemma RelativeIs(t: real, tmin: real)
    requires t > 0.0 && tmin > 0.0
    ensures Relative(t, tmin) == Portion(tmin, Weight(t))
  {
    var q, w := t / tmin, 1.0 / t;
    QuotientPositive(t, tmin, q);
    assert q * tmin == t && w * t == 1.0;
    assert tmin * w * q == w * (q * tmin);
    DivideUnique(1.0, q, tmin * w);
  }

  lemma RelativesAreScaled(avgs: seq<real>, tmin: real)
    requires AllAbove(avgs, 0.0) && tmin > 0.0
    ensures Relatives(avgs, tmin) == Scaled(tmin, Weights(avgs))
  {
    forall j | 0 <= j < |avgs| ensures Relatives(avgs, tmin)[j] == Scaled(tmin, Weights(avgs))[j] {
      RelativeIs(avgs[j], tmin);
    }
  }

  lemma PortionCancels(np: int, total: real, t: real, w: real)
    requires total > 0.0 && t > 0.0
    ensures Portion(t, total) > 0.0
    ensures Portion(PerUnit(np, Portion(t, total)), Portion(t, w)) == Portion(PerUnit(np, total), w)
  {
    var d, r := t * total, np as real / total;
    ProductPositive(t, total, d);
    var u := np as real / d;
    assert u * d == np as real && r * total == np as real;
    assert u * t * total == r * total by { assert u * t * total == u * d; }
    DivideUnique(np as real, total, u * t);
    assert u * (t * w) == u * t * w;
  }

  /** The time that the program measures speeds by cancels out: the shares do not depend on it. */
  lemma ShareIsRelative(avgs: seq<real>, tmin: real, np: int, i: int)
    requires AllAbove(avgs, 0.0) && tmin > 0.0 && 0 <= i < |avgs|
    ensures Sum(Relatives(avgs, tmin)) > 0.0
    ensures ShareList(avgs, np)[i] == Portion(PerUnit(np, Sum(Relatives(avgs, tmin))), Relative(avgs[i], tmin))
  {
    assert avgs[i] > 0.0 && avgs != [];
    hide *;
    var w := Weights(avgs);
    RelativesAreScaled(avgs, tmin);
    RelativeIs(avgs[i], tmin);
    SharesTotal(avgs, np);
    ShareIs(avgs, np, i);
    SumScaled(tmin, w);
    PortionCancels(np, Sum(w), tmin, w[i]);
    PortionIs(tmin, Sum(w), tmin * Sum(w));
  }

  lemma PortionIs(c: real, w: real, x: real)
    requires x == c * w
    ensures x == Portion(c, w)
  {
  }

  lemma PortionOrder(c: real, v: real, w: real)
    requires c > 0.0 && 0.0 < v <= w
    ensures 0.0 < Portion(c, v) <= Portion(c, w)
  {
    ProductPositive(c, v, c * v);
    if v < w { ProductIncreases(v, w, c); }
  }

  lemma PerUnitPositive(np: int, total: real)
    requires np >= 1 && total > 0.0
    ensures PerUnit(np, total) > 0.0
  {
    QuotientPositive(np as real, total, np as real / total);
  }

  /** A slave that is not slower gets a share that is not smaller; every share is positive. */
  lemma ShareOrder(avgs: seq<real>, np: int, i: int, j: int)
    requires AllAbove(avgs, 0.0) && np >= 1
    requires 0 <= i < |avgs| && 0 <= j < |avgs| && avgs[i] <= avgs[j]
    ensures 0.0 < ShareList(avgs, np)[j] <= ShareList(avgs, np)[i]
  {
    assert avgs[i] > 0.0 && avgs[j] > 0.0 && avgs != [];
    hide *;
    SharesTotal(avgs, np);
    WeightOrder(avgs[i], avgs[j]);
    WeightPositive(avgs[j]);
    PerUnitPositive(np, Sum(Weights(avgs)));
    PortionOrder(PerUnit(np, Sum(Weights(avgs))), Weight(avgs[j]), Weight(avgs[i]));
    ShareIs(avgs, np, i);
    ShareIs(avgs, np, j);
  }

  /** Every slave needs the same time for its share. */
  lemma SharesTakeEqualTime(avgs: seq<real>, np: int, i: int, j: int)
    requires AllAbove(avgs, 0.0) && 0 <= i < |avgs| && 0 <= j < |avgs|
    ensures ShareList(avgs, np)[i] * avgs[i] == ShareList(avgs, np)[j] * avgs[j]
  {
    assert avgs[i] > 0.0 && avgs[j] > 0.0;
    hide *;
    ShareIs(avgs, np, i);
    ShareIs(avgs, np, j);
    TimeOfPortion(PerUnit(np, Sum(Weights(avgs))), avgs[i]);
    TimeOfPortion(PerUnit(np, Sum(Weights(avgs))), avgs[j]);
  }

  lemma TimeOfPortion(c: real, t: real)
    requires t > 0.0
    ensures Portion(c, Weight(t)) * t == c
  {
    var w := 1.0 / t;
    assert w * t == 1.0;
    assert c * w * t == c * (w * t);
  }

  // ----- the fastest slaves -----

  /** The records that are sorted: what happens to be in the master's entry, and the slaves'. */
  function Records(stale: Record, avgs: seq<real>): (r: seq<Record>)
    ensures |r| == |avgs| + 1 && r[0] == stale
  {
    [stale] + seq(|avgs|, i requires 0 <= i < |avgs| => Slot(avgs, i))
  }

  /** The record of slave i + 1. */
  function Slot(avgs: seq<real>, i: int): Record
    requires 0 <= i < |avgs|
  {
    Record(i + 1, avgs[i])
  }

  predicate IsSlave(i: int, n: int) {
    1 <= i <= n
  }

  /** All records but the one at p. */
  function Others(recs: seq<Record>, p: int): (r: seq<Record>)
    requires 0 <= p < |recs|
    ensures |r| == |recs| - 1
    ensures forall i :: 0 <= i < |recs| && i != p ==> r[if i < p then i else i - 1] == recs[i]
  {
    recs[..p] + recs[p + 1..]
  }

  /** The records in order of time; p is where the master's entry ends up, and the others are those
      of the slaves.  The master's entry may name a slave too. */
  ghost predicate Ranked(recs: seq<Record>, stale: Record, avgs: seq<real>, p: int) {
    && |recs| == |avgs| + 1 && 0 <= p < |recs| && recs[p] == stale && Sorted(recs)
    && Apart(recs, p)
    && (forall i :: 0 <= i < |recs| && i != p ==>
        IsSlave(recs[i].index, |avgs|) && recs[i].time == avgs[recs[i].index - 1])
    && (forall i :: 0 <= i < |avgs| ==> Slot(avgs, i) in Others(recs, p))
  }

  /** The records other than the one at p are of different processes. */
  ghost predicate Apart(recs: seq<Record>, p: int) {
    forall i, j :: 0 <= i < j < |recs| && i != p && j != p ==> recs[i].index != recs[j].index
  }

  lemma RecordAt(stale: Record, avgs: seq<real>, j: int)
    requires 0 <= j <= |avgs|
    ensures Records(stale, avgs)[j] == if j == 0 then stale else Slot(avgs, j - 1)
  {
  }

  lemma SlotsDistinct(avgs: seq<real>, stale: Record)
    ensures Distinct(Records(stale, avgs)[1..])
  {
    var r := Records(stale, avgs);
    forall i, j | 0 <= i < j < |r[1..]| ensures r[1..][i].index != r[1..][j].index {
      RecordAt(stale, avgs, i + 1);
      RecordAt(stale, avgs, j + 1);
    }
  }

  lemma OthersMultiset(recs: seq<Record>, p: int)
    requires 0 <= p < |recs|
    ensures multiset(recs) == multiset(Others(recs, p)) + multiset{recs[p]}
  {
    assert recs == recs[..p] + [recs[p]] + recs[p + 1..];
  }

  lemma OthersPermuted(recs: seq<Record>, r: seq<Record>, p: int)
    requires multiset(recs) == multiset(r) && r != [] && 0 <= p < |recs| && recs[p] == r[0]
    ensures multiset(Others(recs, p)) == multiset(r[1..])
  {
    OthersMultiset(recs, p);
    OthersMultiset(r, 0);
    assert r[..0] + r[1..] == r[1..];
    SameRest(multiset(Others(recs, p)), multiset(Others(r, 0)), r[0]);
  }

  lemma SameRest<T>(a: multiset<T>, b: multiset<T>, x: T)
    requires a + multiset{x} == b + multiset{x}
    ensures a == b
  {
    assert a == (a + multiset{x}) - multiset{x};
    assert b == (b + multiset{x}) - multiset{x};
  }

  lemma SortedIsRanked(recs: seq<Record>, stale: Record, avgs: seq<real>, p: int)
    requires Sorted(recs) && multiset(recs) == multiset(Records(stale, avgs))
    requires 0 <= p < |recs| && recs[p] == stale
    ensures Ranked(recs, stale, avgs, p)
  {
    var r := Records(stale, avgs);
    assert |r| == |avgs| + 1 && r[0] == stale;
    hide Sorted, Distinct, Records, Apart;
    SamePermutedLength(r, recs);
    OthersPermuted(recs, r, p);
    SlotsDistinct(avgs, stale);
    PermutedIsDistinct(r[1..], Others(recs, p));
    ApartFrom(recs, p);
    OthersAreSlots(recs, stale, avgs, p);
  }

  /** The table of times, sorted. */
  function Table(stale: Record, avgs: seq<real>): seq<Record> {
    ShellSorted(Records(stale, avgs))
  }

  function PlaceOf(s: seq<Record>, x: Record): (p: nat)
    ensures x in s ==> p < |s| && s[p] == x
  {
    if s == [] || s[0] == x then 0 else PlaceOf(s[1..], x) + 1
  }

  /** Where the sort puts the master's leftover record. */
  function Place(stale: Record, avgs: seq<real>): nat {
    PlaceOf(Table(stale, avgs), stale)
  }

  lemma TableIsRanked(stale: Record, avgs: seq<real>)
    ensures Ranked(Table(stale, avgs), stale, avgs, Place(stale, avgs))
  {
    var r := Records(stale, avgs);
    assert r[0] == stale;
    hide ShellSorted, Records, PlaceOf, Sorted;
    ShellSortedSorts(r);
    PermutedMember(r, Table(stale, avgs), stale);
    SortedIsRanked(Table(stale, avgs), stale, avgs, Place(stale, avgs));
  }

  lemma OthersAreSlots(recs: seq<Record>, stale: Record, avgs: seq<real>, p: int)
    requires 0 <= p < |recs| && multiset(Others(recs, p)) == multiset(Records(stale, avgs)[1..])
    ensures forall i :: 0 <= i < |recs| && i != p ==>
              IsSlave(recs[i].index, |avgs|) && recs[i].time == avgs[recs[i].index - 1]
    ensures forall i :: 0 <= i < |avgs| ==> Slot(avgs, i) in Others(recs, p)
  {
    var rest, slots := Others(recs, p), Records(stale, avgs)[1..];
    hide Records;
    forall i | 0 <= i < |recs| && i != p
      ensures IsSlave(recs[i].index, |avgs|) && recs[i].time == avgs[recs[i].index - 1]
    {
      assert rest[if i < p then i else i - 1] == recs[i];
      PermutedMember(rest, slots, recs[i]);
      var j :| 0 <= j < |slots| && slots[j] == recs[i];
      RecordAt(stale, avgs, j + 1);
    }
    forall i | 0 <= i < |avgs| ensures Slot(avgs, i) in rest {
      RecordAt(stale, avgs, i + 1);
      assert slots[i] == Slot(avgs, i);
      PermutedMember(slots, rest, slots[i]);
    }
  }

  lemma SamePermutedLength(a: seq<Record>, b: seq<Record>)
    requires multiset(a) == multiset(b)
    ensures |a| == |b|
  {
    assert |a| == |multiset(a)| && |b| == |multiset(b)|;
  }

  lemma ApartFrom(recs: seq<Record>, p: int)
    requires 0 <= p < |recs| && Distinct(Others(recs, p))
    ensures Apart(recs, p)
  {
    var rest := Others(recs, p);
    forall i, j | 0 <= i < j < |recs| && i != p && j != p ensures recs[i].index != recs[j].index {
      var g, h := if i < p then i else i - 1, if j < p then j else j - 1;
      assert rest[g] == recs[i] && rest[h] == recs[j] && g < h;
    }
  }

  /** The slaves of the first q records. */
  ghost function Leaders(recs: seq<Record>, q: nat): set<int>
    requires q <= |recs|
  {
    if q == 0 then {} else Leaders(recs, q - 1) + {recs[q - 1].index - 1}
  }

  lemma {:induction false} LeadersAre(recs: seq<Record>, q: nat)
    requires q <= |recs|
    ensures |Leaders(recs, q)| <= q
    ensures forall j :: 0 <= j < q ==> recs[j].index - 1 in Leaders(recs, q)
  {
    if q > 0 { LeadersAre(recs, q - 1); }
  }

  lemma SubsetSize<T>(a: set<T>, b: set<T>)
    requires a <= b
    ensures |a| <= |b|
  {
    assert b == a + (b - a);
  }

  /** If more than q shares were raised, the slave at rank q was given at least one vector. */
  lemma FastHaveWork(recs: seq<Record>, stale: Record, avgs: seq<real>, np: int, p: int, q: int)
    requires Ranked(recs, stale, avgs, p) && 0 <= q < |recs| && q != p
    requires AllAbove(avgs, 0.0) && np >= 1
    requires q < |Raised(ShareList(avgs, np))|
    ensures 1 <= Rint(ShareList(avgs, np)[recs[q].index - 1])
  {
    var x, r := ShareList(avgs, np), recs[q].index - 1;
    RaisedAreShares(x);
    hide *;
    if Rint(x[r]) < 1 {
      LeadersAre(recs, q);
      forall u | u in Raised(x) ensures u in Leaders(recs, q) {
        RaisedIsFaster(avgs, np, r, u);
        FasterIsBefore(recs, stale, avgs, p, q, u);
      }
      SubsetSize(Raised(x), Leaders(recs, q));
    }
  }

  lemma RaisedAreShares(x: seq<real>)
    ensures forall u :: u in Raised(x) ==> 0 <= u < |x|
  {
  }

  lemma FasterIsBefore(recs: seq<Record>, stale: Record, avgs: seq<real>, p: int, q: int, u: int)
    requires Ranked(recs, stale, avgs, p) && 0 <= q < |recs| && q != p
    requires 0 <= u < |avgs| && avgs[u] < avgs[recs[q].index - 1]
    ensures u in Leaders(recs, q)
  {
    LeadersAre(recs, q);
    var j := PositionOf(recs, stale, avgs, p, u);
    TimeOrder(recs, j, q);
  }

  lemma TimeOrder(recs: seq<Record>, i: int, j: int)
    requires Sorted(recs) && 0 <= i < |recs| && 0 <= j < |recs|
    ensures recs[i].time < recs[j].time ==> i < j
  {
  }

  lemma PositionOf(recs: seq<Record>, stale: Record, avgs: seq<real>, p: int, u: int) returns (j: int)
    requires Ranked(recs, stale, avgs, p) && 0 <= u < |avgs|
    ensures 0 <= j < |recs| && j != p && recs[j] == Record(u + 1, avgs[u])
  {
    assert Slot(avgs, u) in Others(recs, p);
    j := OtherAt(recs, p, Slot(avgs, u));
  }

  lemma OtherAt(recs: seq<Record>, p: int, x: Record) returns (j: int)
    requires 0 <= p < |recs| && x in Others(recs, p)
    ensures 0 <= j < |recs| && j != p && recs[j] == x
  {
    var rest := Others(recs, p);
    var h :| 0 <= h < |rest| && rest[h] == x;
    j := if h < p then h else h + 1;
    assert rest[if j < p then j else j - 1] == recs[j];
  }

  lemma RaisedIsFaster(avgs: seq<real>, np: int, r: int, u: int)
    requires AllAbove(avgs, 0.0) && np >= 1
    requires 0 <= r < |avgs| && u in Raised(ShareList(avgs, np)) && Rint(ShareList(avgs, np)[r]) < 1
    ensures avgs[u] < avgs[r]
  {
    var x := ShareList(avgs, np);
    ShareOrder(avgs, np, u, u);
    assert 1 <= Rint(x[u]);
    if avgs[r] <= avgs[u] {
      ShareOrder(avgs, np, r, u);
      RintIsMonotone(x[u], x[r]);
    }
  }

  ghost function Faster(avgs: seq<real>, t: real): set<int> {
    set i | 0 <= i < |avgs| && avgs[i] < t
  }

  ghost function NotSlower(avgs: seq<real>, t: real): set<int> {
    set i | 0 <= i < |avgs| && avgs[i] <= t
  }

  lemma {:induction false} LeadersCount(recs: seq<Record>, q: nat)
    requires q <= |recs| && forall i, j :: 0 <= i < j < q ==> recs[i].index != recs[j].index
    ensures |Leaders(recs, q)| == q
    decreases q
  {
    if q > 0 {
      LeadersCount(recs, q - 1);
      if recs[q - 1].index - 1 in Leaders(recs, q - 1) {
        var j := LeaderAt(recs, q - 1, recs[q - 1].index - 1);
        assert false;
      }
    }
  }

  lemma {:induction false} LeaderAt(recs: seq<Record>, q: nat, u: int) returns (j: int)
    requires q <= |recs| && u in Leaders(recs, q)
    ensures 0 <= j < q && recs[j].index - 1 == u
    decreases q
  {
    if recs[q - 1].index - 1 == u { j := q - 1; } else { j := LeaderAt(recs, q - 1, u); }
  }

  /** Where the master's leftover record ends up: after every slave with a smaller time, before
      every slave with a greater one. */
  lemma MasterRank(recs: seq<Record>, stale: Record, avgs: seq<real>, p: int)
    requires Ranked(recs, stale, avgs, p)
    ensures |Faster(avgs, stale.time)| <= p <= |NotSlower(avgs, stale.time)|
    ensures stale.time !in avgs ==> p == |Faster(avgs, stale.time)|
  {
    assert 0 <= p < |recs|;
    LeadersCount(recs, p);
    FasterLead(recs, stale, avgs, p);
    LeadersAreNotSlower(recs, stale, avgs, p);
    hide Ranked, Leaders;
    SubsetSize(Faster(avgs, stale.time), Leaders(recs, p));
    SubsetSize(Leaders(recs, p), NotSlower(avgs, stale.time));
    if stale.time !in avgs {
      assert Faster(avgs, stale.time) == NotSlower(avgs, stale.time);
    }
  }

  lemma FasterLead(recs: seq<Record>, stale: Record, avgs: seq<real>, p: int)
    requires Ranked(recs, stale, avgs, p)
    ensures Faster(avgs, stale.time) <= Leaders(recs, p)
  {
    LeadersAre(recs, p);
    forall u | u in Faster(avgs, stale.time) ensures u in Leaders(recs, p) {
      var j := PositionOf(recs, stale, avgs, p, u);
      TimeOrder(recs, j, p);
    }
  }

  lemma LeaderIsNotSlower(recs: seq<Record>, stale: Record, avgs: seq<real>, p: int, j: int)
    requires Ranked(recs, stale, avgs, p) && 0 <= j < p
    ensures recs[j].index - 1 in NotSlower(avgs, stale.time)
  {
    assert recs[j].time <= recs[p].time;
    assert IsSlave(recs[j].index, |avgs|);
  }

  lemma LeadersAreNotSlower(recs: seq<Record>, stale: Record, avgs: seq<real>, p: int)
    requires Ranked(recs, stale, avgs, p)
    ensures Leaders(recs, p) <= NotSlower(avgs, stale.time)
  {
    forall u | u in Leaders(recs, p) ensures u in NotSlower(avgs, stale.time) {
      var j := LeaderAt(recs, p, u);
      LeaderIsNotSlower(recs, stale, avgs, p, j);
    }
  }

  // ----- the repair -----

  /** One more or one less vector for process i; nobody goes below zero. */
  function Adjust(c: seq<int>, i: int, up: bool): (r: seq<int>)
    requires 0 <= i < |c|
    ensures |r| == |c|
  {
    if up then c[i := c[i] + 1] else if c[i] != 0 then c[i := c[i] - 1] else c
  }

  ghost predicate InRange(recs: seq<Record>, n: int) {
    forall i :: 0 <= i < |recs| ==> 0 <= recs[i].index < n
  }

  /** The processes of the records 1 .. q, in turn. */
  function Repaired(c: seq<int>, recs: seq<Record>, q: nat, up: bool): (r: seq<int>)
    requires q < |recs| && InRange(recs, |c|)
    ensures |r| == |c|
    decreases q
  {
    if q == 0 then c else Adjust(Repaired(c, recs, q - 1, up), recs[q].index, up)
  }

  function SlaveTotal(c: seq<int>, n: nat): int
    requires n < |c|
  {
    Total(c[1..n + 1])
  }

  lemma {:induction false} TotalUpdate(s: seq<int>, i: int, v: int)
    requires 0 <= i < |s|
    ensures Total(s[i := v]) == Total(s) - s[i] + v
    decreases |s|
  {
    var n := |s| - 1;
    if i == n {
      assert s[i := v][..n] == s[..n];
    } else {
      TotalUpdate(s[..n], i, v);
      assert s[i := v][..n] == s[..n][i := v];
    }
  }

  lemma AdjustTotal(c: seq<int>, n: nat, i: int, up: bool)
    requires n < |c| && 0 <= i < |c|
    ensures !IsSlave(i, n) ==> SlaveTotal(Adjust(c, i, up), n) == SlaveTotal(c, n)
    ensures IsSlave(i, n) && up ==> SlaveTotal(Adjust(c, i, up), n) == SlaveTotal(c, n) + 1
    ensures IsSlave(i, n) && !up ==> SlaveTotal(Adjust(c, i, up), n) == SlaveTotal(c, n) - (if c[i] != 0 then 1 else 0)
  {
    var d := Adjust(c, i, up);
    if IsSlave(i, n) {
      TotalUpdate(c[1..n + 1], i - 1, d[i]);
      assert d[1..n + 1] == c[1..n + 1][i - 1 := d[i]];
    } else {
      assert d[1..n + 1] == c[1..n + 1];
    }
  }

  /** How many of the records 1 .. q change the count of a slave. */
  function Effective(c: seq<int>, recs: seq<Record>, q: nat, up: bool, n: nat): int
    requires q < |recs| && InRange(recs, |c|)
    decreases q
  {
    if q == 0 then 0
    else
      var i := recs[q].index;
      Effective(c, recs, q - 1, up, n)
      + (if IsSlave(i, n) && (up || Repaired(c, recs, q - 1, up)[i] != 0) then 1 else 0)
  }

  lemma {:induction false} RepairedTotal(c: seq<int>, recs: seq<Record>, q: nat, up: bool, n: nat)
    requires q < |recs| && InRange(recs, |c|) && n < |c|
    ensures SlaveTotal(Repaired(c, recs, q, up), n)
         == SlaveTotal(c, n) + (if up then Effective(c, recs, q, up, n) else -Effective(c, recs, q, up, n))
    ensures 0 <= Effective(c, recs, q, up, n) <= q
    decreases q
  {
    hide SlaveTotal, Adjust, IsSlave;
    if q > 0 {
      RepairedTotal(c, recs, q - 1, up, n);
      AdjustTotal(Repaired(c, recs, q - 1, up), n, recs[q].index, up);
    }
  }

  /** How often process i is adjusted by the records 1 .. q. */
  function Times(recs: seq<Record>, q: nat, i: int): nat
    requires q < |recs|
    decreases q
  {
    if q == 0 then 0 else Times(recs, q - 1, i) + (if recs[q].index == i then 1 else 0)
  }

  /** What r rows become after t adjustments: nobody goes below zero. */
  function Shifted(r: int, t: nat, up: bool): int {
    if up then r + t else if r >= t then r - t else 0
  }

  /** What a process ends up with. */
  lemma {:induction false} RepairedAt(c: seq<int>, recs: seq<Record>, q: nat, up: bool, i: int)
    requires q < |recs| && InRange(recs, |c|) && 0 <= i < |c| && c[i] >= 0
    ensures Repaired(c, recs, q, up)[i] == Shifted(c[i], Times(recs, q, i), up)
    decreases q
  {
    if q > 0 { RepairedAt(c, recs, q - 1, up, i); }
  }

  /** Every process has as many rows as the records 1 .. q take from it. */
  ghost predicate Enough(c: seq<int>, recs: seq<Record>, q: nat)
    requires q < |recs| && InRange(recs, |c|)
  {
    forall j :: 1 <= j <= q ==> c[recs[j].index] >= Times(recs, q, recs[j].index)
  }

  ghost predicate AllSlaves(recs: seq<Record>, q: nat, n: nat)
    requires q < |recs|
  {
    forall j :: 1 <= j <= q ==> IsSlave(recs[j].index, n)
  }

  lemma EnoughNext(c: seq<int>, recs: seq<Record>, q: nat)
    requires 0 < q < |recs| && InRange(recs, |c|)
    ensures Enough(c, recs, q) <==>
            Enough(c, recs, q - 1) && c[recs[q].index] > Times(recs, q - 1, recs[q].index)
  {
    assert forall i :: Times(recs, q, i) == Times(recs, q - 1, i) + (if recs[q].index == i then 1 else 0);
    hide Times;
    if Enough(c, recs, q) {
      forall j | 1 <= j <= q - 1 ensures c[recs[j].index] >= Times(recs, q - 1, recs[j].index) {
        assert c[recs[j].index] >= Times(recs, q, recs[j].index);
      }
      assert c[recs[q].index] >= Times(recs, q, recs[q].index);
    }
  }

  /** All adjustments are effective exactly if they are all of slaves, and nobody runs out of rows. */
  lemma {:induction false} EffectiveAll(c: seq<int>, recs: seq<Record>, q: nat, up: bool, n: nat)
    requires q < |recs| && InRange(recs, |c|) && n < |c| && forall i :: 1 <= i <= n ==> c[i] >= 0
    ensures Effective(c, recs, q, up, n) == q <==> AllSlaves(recs, q, n) && (up || Enough(c, recs, q))
    decreases q
  {
    hide Enough, Shifted, SlaveTotal;
    if q == 0 {
      NoneNeeded(c, recs);
    } else {
      var i := recs[q].index;
      EffectiveAll(c, recs, q - 1, up, n);
      RepairedTotal(c, recs, q - 1, up, n);
      EnoughNext(c, recs, q);
      SlavesNext(recs, q, n);
      hide Repaired, AllSlaves, Times;
      if IsSlave(i, n) {
        RepairedAt(c, recs, q - 1, up, i);
        ShiftedPositive(c[i], Times(recs, q - 1, i));
      }
    }
  }

  lemma NoneNeeded(c: seq<int>, recs: seq<Record>)
    requires recs != [] && InRange(recs, |c|)
    ensures Enough(c, recs, 0)
  {
  }

  lemma SlavesNext(recs: seq<Record>, q: nat, n: nat)
    requires 0 < q < |recs|
    ensures AllSlaves(recs, q, n) <==> AllSlaves(recs, q - 1, n) && IsSlave(recs[q].index, n)
  {
  }

  lemma ShiftedPositive(r: int, t: nat)
    requires r >= 0
    ensures Shifted(r, t, false) != 0 <==> r > t
  {
  }

  lemma {:induction false} RepairedNonNegative(c: seq<int>, recs: seq<Record>, q: nat, up: bool, i: int)
    requires q < |recs| && InRange(recs, |c|) && 0 <= i < |c| && c[i] >= 0
    ensures Repaired(c, recs, q, up)[i] >= 0
    decreases q
  {
    if q > 0 { RepairedNonNegative(c, recs, q - 1, up, i); }
  }

  /** The correction that the rounded shares need. */
  function Correction(avgs: seq<real>, np: int): int {
    np - Total(Rounded(ShareList(avgs, np)))
  }

  function Magnitude(k: int): nat {
    if k < 0 then -k else k
  }

  /** c holds the rounded shares of the slaves 1 .. n. */
  ghost predicate Proposed(c: seq<int>, avgs: seq<real>, np: int) {
    && |avgs| < |c|
    && c[1..|avgs| + 1] == Rounded(ShareList(avgs, np))
  }

  /** The repair never leaves the table of records. */
  lemma CorrectionFits(avgs: seq<real>, np: int)
    requires avgs != [] && AllAbove(avgs, 0.0)
    ensures Magnitude(Correction(avgs, np)) <= |avgs|
    ensures Correction(avgs, np) < 0 ==>
              2 * Magnitude(Correction(avgs, np)) <= |Raised(ShareList(avgs, np))|
  {
    hide *;
    SharesTotal(avgs, np);
    CorrectionIsSmall(ShareList(avgs, np), np);
    CorrectionOf(avgs, np);
  }

  lemma CorrectionOf(avgs: seq<real>, np: int)
    ensures Correction(avgs, np) == np - Total(Rounded(ShareList(avgs, np)))
    ensures Magnitude(Correction(avgs, np)) == Correction(avgs, np)
         || Magnitude(Correction(avgs, np)) == -Correction(avgs, np)
    ensures Correction(avgs, np) < 0 ==> Magnitude(Correction(avgs, np)) == -Correction(avgs, np)
  {
    hide Rounded, ShareList, Total;
  }

  lemma ProposedTotal(c: seq<int>, avgs: seq<real>, np: int)
    requires Proposed(c, avgs, np)
    ensures |avgs| < |c| && SlaveTotal(c, |avgs|) == np - Correction(avgs, np)
  {
    hide ShareList, Rounded, Total;
  }

  /** The rows slave i is given: its share, rounded, and one more or less for each time it is among
      the records 1 .. |k|. */
  ghost function Granted(recs: seq<Record>, avgs: seq<real>, np: int, i: int): int
    requires 1 <= i <= |avgs|
  {
    var k := Correction(avgs, np);
    Shifted(Rint(ShareList(avgs, np)[i - 1]), if Magnitude(k) < |recs| then Times(recs, Magnitude(k), i) else 0, k > 0)
  }

  /** The repair restores the total: the master's record is not among the ones that are adjusted, or
      it names a slave and that slave does not run out of rows. */
  ghost predicate Restores(recs: seq<Record>, stale: Record, avgs: seq<real>, np: int, p: int) {
    var k := Correction(avgs, np);
    || !(1 <= p <= Magnitude(k))
    || (IsSlave(stale.index, |avgs|) && Magnitude(k) < |recs|
        && (k > 0 || Rint(ShareList(avgs, np)[stale.index - 1]) >= Times(recs, Magnitude(k), stale.index)))
  }

  lemma {:induction false} TimesBound(recs: seq<Record>, q: nat, i: int, p: int)
    requires q < |recs| && Apart(recs, p) && 0 <= p < |recs|
    ensures Times(recs, q, i) <= 1 + (if 1 <= p <= q && recs[p].index == i then 1 else 0)
    ensures (forall j :: 1 <= j <= q && j != p ==> recs[j].index != i) ==>
              Times(recs, q, i) == if 1 <= p <= q && recs[p].index == i then 1 else 0
    decreases q
  {
    if q > 0 {
      TimesBound(recs, q - 1, i, p);
    }
  }

  /** Only the slave that the master's record names can run out of rows. */
  lemma EnoughExactly(c: seq<int>, recs: seq<Record>, stale: Record, avgs: seq<real>, q: nat, p: int)
    requires Ranked(recs, stale, avgs, p) && q < |recs| && InRange(recs, |c|)
    requires forall j :: 1 <= j <= q && j != p ==> c[recs[j].index] >= 1
    ensures Enough(c, recs, q) <==> 1 <= p <= q ==> c[stale.index] >= Times(recs, q, stale.index)
  {
    assert recs[p] == stale && Apart(recs, p);
    hide Ranked, Apart;
    forall i: int ensures Times(recs, q, i) <= 1 + (if 1 <= p <= q && stale.index == i then 1 else 0) {
      TimesBound(recs, q, i, p);
    }
    hide Times;
    if 1 <= p <= q && c[stale.index] >= Times(recs, q, stale.index) {
      forall j | 1 <= j <= q ensures c[recs[j].index] >= Times(recs, q, recs[j].index) {
      }
    }
  }

  /** After the repair the counts add up to the population if and only if it restores the total. */
  lemma RepairWorks(c: seq<int>, recs: seq<Record>, stale: Record, avgs: seq<real>, np: int, p: int)
    requires avgs != [] && AllAbove(avgs, 0.0) && np >= 1
    requires Ranked(recs, stale, avgs, p) && InRange(recs, |c|) && Proposed(c, avgs, np)
    ensures var k := Correction(avgs, np);
            |avgs| < |c| && Magnitude(k) < |recs|
            && (SlaveTotal(Repaired(c, recs, Magnitude(k), k > 0), |avgs|) == np
                <==> Restores(recs, stale, avgs, np, p))
    ensures var k := Correction(avgs, np);
            forall i :: 1 <= i <= |avgs| ==>
              Repaired(c, recs, Magnitude(k), k > 0)[i] == Granted(recs, avgs, np, i)
  {
    hide *;
    var k := Correction(avgs, np);
    var q, n, up := Magnitude(k), |avgs|, k > 0;
    CorrectionFits(avgs, np);
    CorrectionOf(avgs, np);
    RankedSlaves(recs, stale, avgs, p);
    ProposedTotal(c, avgs, np);
    forall i | 1 <= i <= n ensures c[i] >= 0 && c[i] == Rint(ShareList(avgs, np)[i - 1]) {
      ProposedAt(c, avgs, np, i);
      ShareRounds(avgs, np, i);
    }
    if !up {
      forall i | 1 <= i <= q && i != p ensures c[recs[i].index] >= 1 {
        FastHaveWork(recs, stale, avgs, np, p, i);
        ProposedAt(c, avgs, np, recs[i].index);
      }
      EnoughExactly(c, recs, stale, avgs, q, p);
    }
    RepairedTotal(c, recs, q, up, n);
    EffectiveAll(c, recs, q, up, n);
    SlavesExactly(recs, stale, avgs, p, q);
    RestoresIs(recs, stale, avgs, np, p, k, q);
    forall i | 1 <= i <= n ensures Repaired(c, recs, q, up)[i] == Granted(recs, avgs, np, i) {
      RepairedAt(c, recs, q, up, i);
      GrantedIs(recs, avgs, np, i, k, q);
    }
  }

  lemma ShareRounds(avgs: seq<real>, np: int, i: int)
    requires AllAbove(avgs, 0.0) && np >= 1 && 1 <= i <= |avgs|
    ensures Rint(ShareList(avgs, np)[i - 1]) >= 0
  {
    ShareOrder(avgs, np, i - 1, i - 1);
    RintIsNear(ShareList(avgs, np)[i - 1]);
  }

  lemma SlavesExactly(recs: seq<Record>, stale: Record, avgs: seq<real>, p: int, q: nat)
    requires Ranked(recs, stale, avgs, p) && q < |recs|
    ensures AllSlaves(recs, q, |avgs|) <==> !(1 <= p <= q) || IsSlave(stale.index, |avgs|)
  {
  }

  lemma RestoresIs(recs: seq<Record>, stale: Record, avgs: seq<real>, np: int, p: int, k: int, q: nat)
    requires k == Correction(avgs, np) && q == Magnitude(k) && q < |recs|
    ensures Restores(recs, stale, avgs, np, p) <==>
            !(1 <= p <= q) || (IsSlave(stale.index, |avgs|)
              && (k > 0 || Rint(ShareList(avgs, np)[stale.index - 1]) >= Times(recs, q, stale.index)))
    ensures IsSlave(stale.index, |avgs|) <==> 1 <= stale.index <= |avgs|
  {
    hide ShareList, Rint, Correction, Times;
  }

  lemma GrantedIs(recs: seq<Record>, avgs: seq<real>, np: int, i: int, k: int, q: nat)
    requires 1 <= i <= |avgs| && k == Correction(avgs, np) && q == Magnitude(k) && q < |recs|
    ensures Granted(recs, avgs, np, i) == Shifted(Rint(ShareList(avgs, np)[i - 1]), Times(recs, q, i), k > 0)
  {
    hide ShareList, Rint, Correction, Times, Shifted;
  }

  lemma RankedSlaves(recs: seq<Record>, stale: Record, avgs: seq<real>, p: int)
    requires Ranked(recs, stale, avgs, p)
    ensures |recs| == |avgs| + 1 && 0 <= p < |recs| && Apart(recs, p) && recs[p] == stale
    ensures forall i :: 0 <= i < |recs| && i != p ==> 1 <= recs[i].index <= |avgs|
  {
  }

  lemma ProposedAt(c: seq<int>, avgs: seq<real>, np: int, i: int)
    requires Proposed(c, avgs, np) && 1 <= i <= |avgs|
    ensures i < |c| && c[i] == Rint(ShareList(avgs, np)[i - 1])
  {
    hide ShareList, Rint;
    assert c[i] == c[1..|avgs| + 1][i - 1];
  }
}
