/** The trial vectors of differential evolution: random picks, the ten strategies, and the two
    ways of crossing a target vector with the mutant. */
module Mutation {
  import opened IntMath

  type Vec = seq<real>

  /** The random numbers a run consumes; a run that needs more than there are stops. */
  class Tape {
    const values: seq<real>
    var pos: nat

    ghost predicate Valid()
      reads this
    {
      pos <= |values| && Unit(values)
    }

    constructor (values: seq<real>)
      requires Unit(values)
      ensures Valid() && this.values == values && pos == 0
    {
      this.values, pos := values, 0;
    }

    method Draw() returns (ok: bool, r: real)
      requires Valid()
      modifies this
      ensures Valid() && ok == (old(pos) < |values|)
      ensures ok ==> pos == old(pos) + 1 && r == values[old(pos)] && 0.0 < r < 1.0
      ensures !ok ==> pos == old(pos)
    {
      ok, r := pos < |values|, 0.0;
      if ok {
        r := values[pos];
        pos := pos + 1;
      }
    }

    /** A random index below n. */
    method Index(n: int) returns (ok: bool, r: int)
      requires Valid() && n >= 1
      modifies this
      ensures Valid() && ok == (old(pos) < |values|)
      ensures ok ==> pos == old(pos) + 1 && 0 <= r < n && r == IndexOf(values[old(pos)], n)
      ensures !ok ==> pos == old(pos)
    {
      var x;
      r := 0;
      ok, x := Draw();
      if ok {
        IndexBelow(x, n);
        r := IndexOf(x, n);
      }
    }

    /** A random member that is not one of those taken.  Only the end of the tape stops the search. */
    method Pick(np: int, taken: set<int>) returns (ok: bool, r: int)
      requires Valid() && np >= 1
      modifies this
      ensures Valid() && ok == (AfterPick(values, old(pos), np, taken) <= |values|)
      ensures ok ==> pos == AfterPick(values, old(pos), np, taken) && pos > 0 && r == IndexOf(values[pos - 1], np)
      ensures ok ==> 0 <= r < np && r !in taken
      ensures !ok ==> pos == |values|
    {
      hide IndexOf;
      ok, r := Index(np);
      while ok && r in taken
        invariant Valid() && (ok ==> 0 <= r < np && pos > 0 && r == IndexOf(values[pos - 1], np))
        invariant ok && r in taken ==> AfterPick(values, old(pos), np, taken) == AfterPick(values, pos, np, taken)
        invariant ok && r !in taken ==> AfterPick(values, old(pos), np, taken) == pos
        invariant !ok ==> pos == |values| && AfterPick(values, old(pos), np, taken) > |values|
        decreases |values| - pos, ok
      {
        ok, r := Index(np);
      }
    }
  }

  ghost predicate Unit(values: seq<real>) {
    forall k :: 0 <= k < |values| ==> 0.0 < values[k] < 1.0
  }

  /** The index that a random number stands for. */
  function IndexOf(x: real, n: int): int {
    (x * n as real).Floor
  }

  lemma IndexBelow(x: real, n: int)
    requires 0.0 < x < 1.0 && n >= 1
    ensures 0 <= IndexOf(x, n) < n
  {
    assert x * n as real >= 0.0;
    assert x * n as real < n as real;
  }

  /** The index tells in which of n equal parts of the unit interval the number lies. */
  lemma IndexIs(x: real, n: int)
    ensures IndexOf(x, n) as real <= x * n as real < IndexOf(x, n) as real + 1.0
  {
  }

  // ----- the random numbers used: positions on the tape, past its end when it is too short -----

  /** The position after the first number, from a position on, that stands for a member not taken. */
  function AfterPick(values: seq<real>, from: nat, np: int, taken: set<int>): nat
    decreases |values| - from
  {
    if from >= |values| then |values| + 1
    else if IndexOf(values[from], np) !in taken then from + 1
    else AfterPick(values, from + 1, np, taken)
  }

  /** The position after n picks, each of which takes one more member. */
  function AfterPicks(values: seq<real>, from: nat, np: int, taken: set<int>, n: nat): nat
    decreases n
  {
    if n == 0 then from
    else
      var e := AfterPick(values, from, np, taken);
      if 0 < e <= |values| then AfterPicks(values, e, np, taken + {IndexOf(values[e - 1], np)}, n - 1) else |values| + 1
  }

  /** The position after an exponential crossover that may change left more coordinates. */
  function AfterArc(values: seq<real>, from: nat, left: int, cr: real): nat
    decreases |values| - from
  {
    if from >= |values| then |values| + 1
    else if values[from] < cr && left > 1 then AfterArc(values, from + 1, left - 1, cr)
    else from + 1
  }

  function AfterCross(values: seq<real>, from: nat, d: nat, strategy: int, cr: real): nat {
    if from >= |values| then |values| + 1
    else if Exponential(strategy) then AfterArc(values, from + 1, d, cr)
    else from + 1 + d
  }

  /** The position after the trial vector of member i. */
  function AfterTrial(values: seq<real>, from: nat, i: int, np: int, d: nat, strategy: int, cr: real): nat {
    var e := AfterPicks(values, from, np, {i}, 5);
    if e > |values| then e else AfterCross(values, e, d, strategy, cr)
  }

  ghost predicate SamePicks(values: seq<real>, from: nat, taken: set<int>, n: nat, from': nat, taken': set<int>,
                            n': nat, np: int)
  {
    AfterPicks(values, from, np, taken, n) == AfterPicks(values, from', np, taken', n')
  }

  lemma PickNext(values: seq<real>, from: nat, np: int, taken: set<int>, n: nat, e: nat)
    requires n > 0 && e == AfterPick(values, from, np, taken)
    ensures e > |values| ==> AfterPicks(values, from, np, taken, n) > |values|
    ensures 0 < e <= |values| ==> SamePicks(values, from, taken, n, e, taken + {IndexOf(values[e - 1], np)}, n - 1, np)
  {
    hide IndexOf;
  }

  // ----- picks -----

  datatype Picks = Picks(r1: int, r2: int, r3: int, r4: int, r5: int)

  /** Five members, all different, and different from the target. */
  predicate Different(p: Picks, i: int, np: int) {
    && 0 <= p.r1 < np && 0 <= p.r2 < np && 0 <= p.r3 < np && 0 <= p.r4 < np && 0 <= p.r5 < np
    && p.r1 != i
    && p.r2 != i && p.r2 != p.r1
    && p.r3 != i && p.r3 != p.r1 && p.r3 != p.r2
    && p.r4 != i && p.r4 != p.r1 && p.r4 != p.r2 && p.r4 != p.r3
    && p.r5 != i && p.r5 != p.r1 && p.r5 != p.r2 && p.r5 != p.r3 && p.r5 != p.r4
  }

  /** The numbers from .. to - 1 pick r: it is what the last of them stands for, and what the others
      stand for is taken. */
  ghost predicate PicksOne(values: seq<real>, from: nat, np: int, taken: set<int>, r: int, to: nat) {
    0 < to <= |values| && to == AfterPick(values, from, np, taken) && r == IndexOf(values[to - 1], np)
  }

  /** It is the first number from there on that stands for a member not taken. */
  lemma {:induction false} PickIsFirst(values: seq<real>, from: nat, np: int, taken: set<int>)
    ensures var e := AfterPick(values, from, np, taken);
            && (forall k :: from <= k < |values| && k + 1 < e ==> IndexOf(values[k], np) in taken)
            && (e <= |values| ==> from < e && IndexOf(values[e - 1], np) !in taken)
    decreases |values| - from
  {
    hide IndexOf;
    if from < |values| && IndexOf(values[from], np) in taken { PickIsFirst(values, from + 1, np, taken); }
  }

  /** The numbers from .. to - 1 pick the five of p one after the other. */
  ghost predicate Picked(values: seq<real>, from: nat, np: int, i: int, p: Picks, to: nat) {
    exists a: nat, b: nat, c: nat, d: nat ::
      && PicksOne(values, from, np, {i}, p.r1, a) && PicksOne(values, a, np, {i, p.r1}, p.r2, b)
      && PicksOne(values, b, np, {i, p.r1, p.r2}, p.r3, c) && PicksOne(values, c, np, {i, p.r1, p.r2, p.r3}, p.r4, d)
      && PicksOne(values, d, np, {i, p.r1, p.r2, p.r3, p.r4}, p.r5, to)
  }

  method PickFive(tape: Tape, i: int, np: int) returns (ok: bool, p: Picks)
    requires tape.Valid() && np >= 1
    modifies tape
    ensures tape.Valid() && ok == (AfterPicks(tape.values, old(tape.pos), np, {i}, 5) <= |tape.values|)
    ensures ok ==> tape.pos == AfterPicks(tape.values, old(tape.pos), np, {i}, 5) && Different(p, i, np)
    ensures ok ==> Picked(tape.values, old(tape.pos), np, i, p, tape.pos)
    ensures !ok ==> tape.pos == |tape.values|
  {
    hide AfterPick, IndexOf, PicksOne;
    var r1, r2, r3, r4, r5 := 0, 0, 0, 0, 0;
    p := Picks(0, 0, 0, 0, 0);
    ok, r1 := PickOne(tape, np, {i}, 4);
    if ok {
      assert {i} + {r1} == {i, r1};
      ok, r2 := PickOne(tape, np, {i, r1}, 3);
    }
    if ok {
      assert {i, r1} + {r2} == {i, r1, r2};
      ok, r3 := PickOne(tape, np, {i, r1, r2}, 2);
    }
    if ok {
      assert {i, r1, r2} + {r3} == {i, r1, r2, r3};
      ok, r4 := PickOne(tape, np, {i, r1, r2, r3}, 1);
    }
    if ok {
      assert {i, r1, r2, r3} + {r4} == {i, r1, r2, r3, r4};
      ok, r5 := PickOne(tape, np, {i, r1, r2, r3, r4}, 0);
    }
    if ok { p := Picks(r1, r2, r3, r4, r5); }
  }

  /** A pick that n more are to follow. */
  method PickOne(tape: Tape, np: int, taken: set<int>, ghost n: nat) returns (ok: bool, r: int)
    requires tape.Valid() && np >= 1
    modifies tape
    ensures tape.Valid()
    ensures ok ==> 0 <= r < np && r !in taken && PicksOne(tape.values, old(tape.pos), np, taken, r, tape.pos)
    ensures ok ==> SamePicks(tape.values, old(tape.pos), taken, n + 1, tape.pos, taken + {r}, n, np)
    ensures !ok ==> AfterPicks(tape.values, old(tape.pos), np, taken, n + 1) > |tape.values| == tape.pos
  {
    ghost var from := tape.pos;
    ok, r := tape.Pick(np, taken);
    PickNext(tape.values, from, np, taken, n + 1, AfterPick(tape.values, from, np, taken));
  }

  // ----- the strategies -----

  /** One coordinate of the mutant: self is the target's, b the best member's, x1 .. x5 those of
      the picks.  Any strategy that is not listed, 0 among them, is the last one. */
  function Coordinate(strategy: int, f: real, self: real, b: real, x1: real, x2: real, x3: real, x4: real,
                      x5: real): real
  {
    if strategy == 1 || strategy == 6 then b + f * (x2 - x3)
    else if strategy == 2 || strategy == 7 then x1 + f * (x2 - x3)
    else if strategy == 3 || strategy == 8 then self + f * (b - self) + f * (x1 - x2)
    else if strategy == 4 || strategy == 9 then b + (x1 + x2 - x3 - x4) * f
    else x5 + (x1 + x2 - x3 - x4) * f
  }

  predicate Exponential(strategy: int) {
    1 <= strategy <= 5
  }

  ghost predicate Population(pop: seq<Vec>, np: int, d: int) {
    0 <= np <= |pop| && forall i :: 0 <= i < np ==> |pop[i]| == d
  }

  /** The setting of one mutation: the old population and the best member of the last iteration. */
  datatype Setting = Setting(pop: seq<Vec>, bestit: Vec, np: int, d: int, strategy: int, f: real, cr: real)

  ghost predicate Ready(s: Setting) {
    s.d >= 1 && s.np >= 1 && Population(s.pop, s.np, s.d) && |s.bestit| == s.d
  }

  /** The mutant's coordinate n, with self in the place of the target's own value. */
  function MutantFrom(s: Setting, p: Picks, self: real, n: int): real
    requires 0 <= n < |s.bestit|
    requires 0 <= p.r1 < |s.pop| && 0 <= p.r2 < |s.pop| && 0 <= p.r3 < |s.pop|
    requires 0 <= p.r4 < |s.pop| && 0 <= p.r5 < |s.pop|
    requires n < |s.pop[p.r1]| && n < |s.pop[p.r2]| && n < |s.pop[p.r3]| && n < |s.pop[p.r4]| && n < |s.pop[p.r5]|
  {
    Coordinate(s.strategy, s.f, self, s.bestit[n], s.pop[p.r1][n], s.pop[p.r2][n], s.pop[p.r3][n], s.pop[p.r4][n],
               s.pop[p.r5][n])
  }

  /** The mutant over the old population only. */
  function Mutant(s: Setting, p: Picks, i: int, n: int): real
    requires Ready(s) && Different(p, i, s.np) && 0 <= i < s.np && 0 <= n < s.d
  {
    MutantFrom(s, p, s.pop[i][n], n)
  }

  // ----- what a mutant is -----

  /** The strategies, two by two: the one with exponential and the one with binomial crossover. */
  predicate OfKind(strategy: int, n: int) {
    strategy == n || strategy == n + 5
  }

  /** The strategies 5 and 10, and all that are not listed. */
  predicate IsLast(strategy: int) {
    !(1 <= strategy <= 4) && !(6 <= strategy <= 9)
  }

  /** Where the members whose difference is taken cancel, the mutant is the base of its strategy: the
      best member, one of those picked, or the target moved F of the way to the best. */
  lemma MutantBase(s: Setting, p: Picks, i: int, n: int)
    requires Ready(s) && Different(p, i, s.np) && 0 <= i < s.np && 0 <= n < s.d
    ensures var m, x := Mutant(s, p, i, n), (r: int) requires 0 <= r < s.np => s.pop[r][n];
            && (OfKind(s.strategy, 1) && x(p.r2) == x(p.r3) ==> m == s.bestit[n])
            && (OfKind(s.strategy, 2) && x(p.r2) == x(p.r3) ==> m == x(p.r1))
            && (OfKind(s.strategy, 3) && x(p.r1) == x(p.r2) ==> m - x(i) == s.f * (s.bestit[n] - x(i)))
            && (OfKind(s.strategy, 4) && x(p.r1) + x(p.r2) == x(p.r3) + x(p.r4) ==> m == s.bestit[n])
            && (IsLast(s.strategy) && x(p.r1) + x(p.r2) == x(p.r3) + x(p.r4) ==> m == x(p.r5))
  {
    var x1, x2, x3, x4 := s.pop[p.r1][n], s.pop[p.r2][n], s.pop[p.r3][n], s.pop[p.r4][n];
    CoordinateBase(s.strategy, s.f, s.pop[i][n], s.bestit[n], x1, x2, x3, x4, s.pop[p.r5][n]) by { hide *; }
    hide Coordinate, OfKind, IsLast;
  }

  lemma CoordinateBase(strategy: int, f: real, self: real, b: real, x1: real, x2: real, x3: real, x4: real, x5: real)
    ensures var m := Coordinate(strategy, f, self, b, x1, x2, x3, x4, x5);
            && (OfKind(strategy, 1) && x2 == x3 ==> m == b)
            && (OfKind(strategy, 2) && x2 == x3 ==> m == x1)
            && (OfKind(strategy, 3) && x1 == x2 ==> m - self == f * (b - self))
            && (OfKind(strategy, 4) && x1 + x2 == x3 + x4 ==> m == b)
            && (IsLast(strategy) && x1 + x2 == x3 + x4 ==> m == x5)
  {
    NoDifference(f, x2 - x3);
    NoDifference(f, x1 - x2);
    NoDifference(f, x1 + x2 - x3 - x4);
  }

  lemma NoDifference(f: real, d: real)
    ensures d == 0.0 ==> f * d == 0.0 && d * f == 0.0
  {
  }

  /** s' is s with coordinate n of member r moved by v. */
  ghost predicate Moves(s: Setting, s': Setting, r: int, n: int, v: real) {
    && Ready(s) && Ready(s') && 0 <= r < s.np && 0 <= n < s.d && |s'.pop| == |s.pop|
    && s' == s.(pop := s'.pop)
    && (forall q :: 0 <= q < s.np && q != r ==> s'.pop[q] == s.pop[q])
    && s'.pop[r][n] == s.pop[r][n] + v
  }

  lemma MovingFirst(s: Setting, s': Setting, p: Picks, i: int, n: int, v: real)
    requires Moves(s, s', p.r1, n, v) && Different(p, i, s.np) && 0 <= i < s.np
    ensures var m, m' := Mutant(s, p, i, n), Mutant(s', p, i, n);
            && (OfKind(s.strategy, 1) ==> m' == m) && (OfKind(s.strategy, 2) ==> m' == m + v)
            && (!OfKind(s.strategy, 1) && !OfKind(s.strategy, 2) ==> m' == m + s.f * v)
  {
  }

  lemma MovingSecond(s: Setting, s': Setting, p: Picks, i: int, n: int, v: real)
    requires Moves(s, s', p.r2, n, v) && Different(p, i, s.np) && 0 <= i < s.np
    ensures Mutant(s', p, i, n) == Mutant(s, p, i, n) + (if OfKind(s.strategy, 3) then -(s.f * v) else s.f * v)
  {
  }

  lemma MovingThird(s: Setting, s': Setting, p: Picks, i: int, n: int, v: real)
    requires Moves(s, s', p.r3, n, v) && Different(p, i, s.np) && 0 <= i < s.np
    ensures Mutant(s', p, i, n) == Mutant(s, p, i, n) - (if OfKind(s.strategy, 3) then 0.0 else s.f * v)
  {
  }

  lemma MovingFourth(s: Setting, s': Setting, p: Picks, i: int, n: int, v: real)
    requires Moves(s, s', p.r4, n, v) && Different(p, i, s.np) && 0 <= i < s.np
    ensures Mutant(s', p, i, n)
         == Mutant(s, p, i, n) - (if OfKind(s.strategy, 4) || IsLast(s.strategy) then s.f * v else 0.0)
  {
  }

  lemma MovingFifth(s: Setting, s': Setting, p: Picks, i: int, n: int, v: real)
    requires Moves(s, s', p.r5, n, v) && Different(p, i, s.np) && 0 <= i < s.np
    ensures Mutant(s', p, i, n) == Mutant(s, p, i, n) + (if IsLast(s.strategy) then v else 0.0)
  {
  }

  lemma MovingTarget(s: Setting, s': Setting, p: Picks, i: int, n: int, v: real)
    requires Moves(s, s', i, n, v) && Different(p, i, s.np)
    ensures Mutant(s', p, i, n) == Mutant(s, p, i, n) + (if OfKind(s.strategy, 3) then v - s.f * v else 0.0)
  {
  }

  lemma MovingBest(s: Setting, best: Vec, p: Picks, i: int, n: int, v: real)
    requires Ready(s) && Different(p, i, s.np) && 0 <= i < s.np && 0 <= n < s.d
    requires |best| == s.d && best[n] == s.bestit[n] + v
    ensures var m, m' := Mutant(s, p, i, n), Mutant(s.(bestit := best), p, i, n);
            && (OfKind(s.strategy, 1) || OfKind(s.strategy, 4) ==> m' == m + v)
            && (OfKind(s.strategy, 3) ==> m' == m + s.f * v)
            && (OfKind(s.strategy, 2) || IsLast(s.strategy) ==> m' == m)
  {
  }

  /** Moving all members and the best by the same moves the mutant by that: no place is preferred. */
  lemma MovingAll(s: Setting, s': Setting, p: Picks, i: int, n: int, v: real)
    requires Ready(s) && Ready(s') && Different(p, i, s.np) && 0 <= i < s.np && 0 <= n < s.d
    requires s' == s.(pop := s'.pop, bestit := s'.bestit) && s'.bestit[n] == s.bestit[n] + v
    requires forall q :: 0 <= q < s.np ==> s'.pop[q][n] == s.pop[q][n] + v
    ensures Mutant(s', p, i, n) == Mutant(s, p, i, n) + v
  {
  }

  // ----- cyclic coordinates -----

  /** Coordinate k places after n, cyclically. */
  function Cyclic(n: int, k: int, d: int): int {
    if n + k < d then n + k else n + k - d
  }

  /** How many places j comes after n, cyclically. */
  function Offset(j: int, n: int, d: int): int {
    if j >= n then j - n else j - n + d
  }

  lemma CyclicNext(n: int, k: int, d: int)
    requires 0 <= n < d && 0 <= k < d
    ensures 0 <= Cyclic(n, k, d) < d && (Cyclic(n, k, d) + 1) % d == Cyclic(n, k + 1, d)
    ensures Offset(Cyclic(n, k, d), n, d) == k
  {
    var m := Cyclic(n, k, d) + 1;
    if m == d {
      assert m % d == 0;
    } else {
      assert m % d == m;
    }
  }

  lemma OffsetUnique(j: int, n: int, k: int, d: int)
    requires 0 <= n < d && 0 <= j < d && 0 <= k < d && Offset(j, n, d) == k
    ensures j == Cyclic(n, k, d)
  {
  }

  /** The random numbers from .. to - 1 of the tape are below cr. */
  ghost predicate Below(values: seq<real>, from: nat, to: int, cr: real) {
    to <= |values| && forall k :: from <= k < to ==> values[k] < cr
  }

  // ----- trial vectors -----

  /** row is the target with the coordinates of the set changed replaced by the mutant's. */
  ghost predicate Crossed(row: Vec, s: Setting, p: Picks, i: int, changed: set<int>)
    requires Ready(s) && Different(p, i, s.np) && 0 <= i < s.np
  {
    && |row| == s.d
    && forall j :: 0 <= j < s.d ==> row[j] == if j in changed then Mutant(s, p, i, j) else s.pop[i][j]
  }

  /** The first len coordinates from n on. */
  ghost function Arc(n: int, len: int, d: int): set<int> {
    set j | 0 <= j < d && Offset(j, n, d) < len
  }

  lemma ArcNext(n: int, len: int, d: int)
    requires 0 <= n < d && 0 <= len < d
    ensures Arc(n, len + 1, d) == Arc(n, len, d) + {Cyclic(n, len, d)}
    ensures Cyclic(n, len, d) !in Arc(n, len, d)
  {
    CyclicNext(n, len, d);
    forall j | j in Arc(n, len + 1, d) ensures j in Arc(n, len, d) + {Cyclic(n, len, d)} {
      if Offset(j, n, d) == len { OffsetUnique(j, n, len, d); }
    }
  }

  lemma {:induction false} ArcSize(n: int, len: int, d: int)
    requires 0 <= n < d && 0 <= len <= d
    ensures |Arc(n, len, d)| == len
    decreases len
  {
    if len == 0 {
      assert Arc(n, 0, d) == {};
    } else {
      ArcSize(n, len - 1, d);
      ArcNext(n, len - 1, d);
    }
  }

  /** Replacing one more coordinate, which still holds the target's value, by the mutant's: it
      makes no difference that the strategies 3 and 8 read it from the row they write. */
  lemma CrossedNext(row: Vec, s: Setting, p: Picks, i: int, changed: set<int>, n: int)
    requires Ready(s) && Different(p, i, s.np) && 0 <= i < s.np && 0 <= n < s.d
    requires Crossed(row, s, p, i, changed) && n !in changed
    ensures Crossed(row[n := MutantFrom(s, p, row[n], n)], s, p, i, changed + {n})
  {
    assert row[n] == s.pop[i][n];
  }

  /** Exponential crossover: from a random coordinate on, cyclically, as long as the random numbers
      stay below CR, but at least one coordinate and each at most once. */
  method CrossExponential(tape: Tape, s: Setting, p: Picks, i: int)
    returns (ok: bool, row: Vec, ghost n0: int, ghost len: int)
    requires tape.Valid() && Ready(s) && Different(p, i, s.np) && 0 <= i < s.np && Exponential(s.strategy)
    modifies tape
    ensures tape.Valid() && ok == (AfterCross(tape.values, old(tape.pos), s.d, s.strategy, s.cr) <= |tape.values|)
    ensures ok ==> tape.pos == AfterCross(tape.values, old(tape.pos), s.d, s.strategy, s.cr)
    ensures !ok ==> tape.pos == |tape.values|
    ensures ok ==> n0 == IndexOf(tape.values[old(tape.pos)], s.d)
    ensures ok ==> 0 <= n0 < s.d && 1 <= len <= s.d && Crossed(row, s, p, i, Arc(n0, len, s.d))
    ensures ok ==> tape.pos == old(tape.pos) + 1 + len
    ensures ok ==> Below(tape.values, old(tape.pos) + 1, tape.pos - 1, s.cr)
    ensures ok ==> len == s.d || tape.values[tape.pos - 1] >= s.cr
  {
    row, n0, len := s.pop[i], 0, 0;
    var n;
    ok, n := tape.Index(s.d);
    if !ok { return; }
    n0 := n;
    var L := 0;
    var again := true;
    assert Arc(n0, 0, s.d) == {};
    hide MutantFrom, Crossed, Arc, Cyclic, Offset, IndexOf;
    StartCrossed(row, s, p, i);
    while again
      invariant tape.Valid() && tape.pos == old(tape.pos) + 1 + L && 0 <= L <= s.d
      invariant again ==> L < s.d && n == Cyclic(n0, L, s.d) && Below(tape.values, old(tape.pos) + 1, tape.pos, s.cr)
      invariant !again ==> 1 <= L && Below(tape.values, old(tape.pos) + 1, tape.pos - 1, s.cr)
      invariant !again ==> L == s.d || tape.values[tape.pos - 1] >= s.cr
      invariant Crossed(row, s, p, i, Arc(n0, L, s.d))
      invariant again ==>
          AfterArc(tape.values, old(tape.pos) + 1, s.d, s.cr) == AfterArc(tape.values, tape.pos, s.d - L, s.cr)
      invariant !again ==> AfterArc(tape.values, old(tape.pos) + 1, s.d, s.cr) == tape.pos
      decreases s.d - L, again
    {
      ArcNext(n0, L, s.d);
      CyclicNext(n0, L, s.d);
      CrossedNext(row, s, p, i, Arc(n0, L, s.d), n);
      CrossedLength(row, s, p, i, Arc(n0, L, s.d));
      row := row[n := MutantFrom(s, p, row[n], n)];
      n := (n + 1) % s.d;
      L := L + 1;
      var more, x := tape.Draw();
      if !more { return false, row, n0, L; }
      again := x < s.cr && L < s.d;
    }
    len := L;
  }

  lemma StartCrossed(row: Vec, s: Setting, p: Picks, i: int)
    requires Ready(s) && Different(p, i, s.np) && 0 <= i < s.np && row == s.pop[i]
    ensures Crossed(row, s, p, i, {})
  {
  }

  lemma CrossedLength(row: Vec, s: Setting, p: Picks, i: int, changed: set<int>)
    requires Ready(s) && Different(p, i, s.np) && 0 <= i < s.np && Crossed(row, s, p, i, changed)
    ensures |row| == s.d
  {
  }

  predicate Hit(values: seq<real>, at: int, cr: real) {
    0 <= at < |values| && values[at] < cr
  }

  /** The coordinates that binomial crossover changes within its first len trials, the random
      number of trial k being the one at start + k. */
  ghost function Chosen(values: seq<real>, start: int, n: int, len: int, d: int, cr: real): set<int> {
    set j |
      && 0 <= j < d && Offset(j, n, d) < len
      && (Offset(j, n, d) == d - 1 || Hit(values, start + Offset(j, n, d), cr))
  }

  /** The trial k, which is about coordinate (n + k) mod d, changes it if its number is below CR, and
      the last trial always does. */
  lemma ChosenIs(values: seq<real>, start: nat, n: int, d: int, cr: real, k: int)
    requires 0 <= n < d && 0 <= k < d && start + d <= |values|
    ensures (n + k) % d in Chosen(values, start, n, d, d, cr) <==> k == d - 1 || values[start + k] < cr
  {
    CyclicNext(n, k, d);
    CyclicIs(n, k, d);
  }

  lemma CyclicIs(n: int, k: int, d: int)
    requires 0 <= n < d && 0 <= k < d
    ensures Cyclic(n, k, d) == (n + k) % d
  {
    if n + k < d {
      RemainderUnique(n + k, 0, n + k, d);
    } else {
      RemainderUnique(n + k, 1, n + k - d, d);
    }
  }

  lemma ChosenNext(values: seq<real>, start: int, n: int, len: int, d: int, cr: real)
    requires 0 <= n < d && 0 <= len < d
    ensures Chosen(values, start, n, len + 1, d, cr) == Chosen(values, start, n, len, d, cr)
         + (if len == d - 1 || Hit(values, start + len, cr) then {Cyclic(n, len, d)} else {})
    ensures Cyclic(n, len, d) !in Chosen(values, start, n, len, d, cr)
  {
    CyclicNext(n, len, d);
    hide Hit;
    forall j | j in Chosen(values, start, n, len + 1, d, cr) && j !in Chosen(values, start, n, len, d, cr)
      ensures j == Cyclic(n, len, d)
    {
      OffsetUnique(j, n, len, d);
    }
  }

  lemma NothingChosen(values: seq<real>, start: int, n: int, d: int, cr: real)
    requires 0 <= n < d
    ensures Chosen(values, start, n, 0, d, cr) == {}
  {
    hide Hit;
  }

  /** The last trial always changes its coordinate. */
  lemma SomethingChosen(values: seq<real>, start: int, n: int, d: int, cr: real)
    requires 0 <= n < d
    ensures Cyclic(n, d - 1, d) in Chosen(values, start, n, d, d, cr)
    ensures forall j :: j in Chosen(values, start, n, d, d, cr) ==> 0 <= j < d
  {
    CyclicNext(n, d - 1, d);
    hide Hit;
  }

  /** Binomial crossover: one trial for each coordinate, cyclically from a random one, and at least
      the last one succeeds. */
  method CrossBinomial(tape: Tape, s: Setting, p: Picks, i: int) returns (ok: bool, row: Vec, ghost n0: int)
    requires tape.Valid() && Ready(s) && Different(p, i, s.np) && 0 <= i < s.np
    modifies tape
    ensures tape.Valid() && ok == (old(tape.pos) + 1 + s.d <= |tape.values|)
    ensures ok ==> 0 <= n0 < s.d && tape.pos == old(tape.pos) + 1 + s.d
    ensures ok ==> n0 == IndexOf(tape.values[old(tape.pos)], s.d)
    ensures !ok ==> tape.pos == |tape.values|
    ensures ok ==> Crossed(row, s, p, i, Chosen(tape.values, old(tape.pos) + 1, n0, s.d, s.d, s.cr))
  {
    row, n0 := s.pop[i], 0;
    var n;
    ghost var start := tape.pos + 1;
    ok, n := tape.Index(s.d);
    if !ok { return; }
    n0 := n;
    hide MutantFrom, Crossed, Chosen, Cyclic, Offset, IndexOf;
    StartCrossed(row, s, p, i);
    NothingChosen(tape.values, start, n0, s.d, s.cr);
    CyclicFirst(n0, s.d);
    for L := 0 to s.d
      invariant tape.Valid() && tape.pos == start + L
      invariant n == Cyclic(n0, L, s.d)
      invariant Crossed(row, s, p, i, Chosen(tape.values, start, n0, L, s.d, s.cr))
    {
      ChosenNext(tape.values, start, n0, L, s.d, s.cr);
      CyclicNext(n0, L, s.d);
      ghost var changed := Chosen(tape.values, start, n0, L, s.d, s.cr);
      CrossedNext(row, s, p, i, changed, n);
      CrossedLength(row, s, p, i, changed);
      var more, x := tape.Draw();
      if !more { return false, row, n0; }
      if x < s.cr || L == s.d - 1 {
        row := row[n := MutantFrom(s, p, row[n], n)];
      } else {
        assert changed + {} == changed;
      }
      n := (n + 1) % s.d;
    }
  }

  lemma CyclicFirst(n: int, d: int)
    requires 0 <= n < d
    ensures Cyclic(n, 0, d) == n
  {
  }

  /** What a trial vector is: the target with some of its coordinates, at least one, replaced by
      those of a mutant made from five other members of the old population. */
  datatype Plan = Plan(picks: Picks, changed: set<int>)

  ghost predicate IsTrial(row: Vec, s: Setting, i: int, plan: Plan) {
    && Ready(s) && 0 <= i < s.np && Different(plan.picks, i, s.np)
    && plan.changed != {} && (forall j :: j in plan.changed ==> 0 <= j < s.d)
    && (Exponential(s.strategy) ==>
        exists n, len :: 0 <= n < s.d && 1 <= len <= s.d && plan.changed == Arc(n, len, s.d))
    && Crossed(row, s, plan.picks, i, plan.changed)
  }

  /** The coordinates that the numbers from .. to - 1 choose: the first says where to begin, and the
      strategies 1 to 5 go on from there while the others try every coordinate. */
  ghost function ChangedBy(values: seq<real>, from: nat, to: nat, s: Setting): set<int>
    requires from < |values|
  {
    var n := IndexOf(values[from], s.d);
    if 1 <= s.strategy <= 5 then Arc(n, to - from - 1, s.d) else Chosen(values, from + 1, n, s.d, s.d, s.cr)
  }

  /** The plan of a trial vector is what the numbers from .. to - 1 say: first the picks, then the
      coordinates. */
  ghost predicate Planned(values: seq<real>, from: nat, s: Setting, i: int, plan: Plan, to: nat) {
    exists e: nat ::
      e < |values| && Picked(values, from, s.np, i, plan.picks, e) && plan.changed == ChangedBy(values, e, to, s)
  }

  /** The plans of the first members are what the numbers from .. to - 1 say, one after the other. */
  ghost predicate AllPlanned(values: seq<real>, from: nat, s: Setting, plans: seq<Plan>, to: nat)
    decreases |plans|
  {
    if plans == [] then from == to
    else
      var i := |plans| - 1;
      exists e: nat :: AllPlanned(values, from, s, plans[..i], e) && Planned(values, e, s, i, plans[i], to)
  }

  lemma AllPlannedNext(values: seq<real>, from: nat, s: Setting, plans: seq<Plan>, e: nat, plan: Plan, to: nat)
    requires AllPlanned(values, from, s, plans, e) && Planned(values, e, s, |plans|, plan, to)
    ensures AllPlanned(values, from, s, plans + [plan], to)
  {
    hide Planned;
    assert (plans + [plan])[..|plans|] == plans;
  }

  /** The trial vector of one member. */
  method Trial(tape: Tape, s: Setting, i: int) returns (ok: bool, row: Vec, ghost plan: Plan)
    requires tape.Valid() && Ready(s) && 0 <= i < s.np
    modifies tape
    ensures tape.Valid()
    ensures ok == (AfterTrial(tape.values, old(tape.pos), i, s.np, s.d, s.strategy, s.cr) <= |tape.values|)
    ensures ok ==> tape.pos == AfterTrial(tape.values, old(tape.pos), i, s.np, s.d, s.strategy, s.cr)
    ensures ok ==> IsTrial(row, s, i, plan) && Planned(tape.values, old(tape.pos), s, i, plan, tape.pos)
    ensures !ok ==> tape.pos == |tape.values|
  {
    hide AfterPicks, AfterArc, IndexOf, Picked, Arc, Chosen;
    var p;
    row, plan := s.pop[i], Plan(Picks(0, 0, 0, 0, 0), {});
    ok, p := PickFive(tape, i, s.np);
    if !ok { return; }
    ghost var e := tape.pos;
    ghost var n0: int, len: int, start := 0, 0, tape.pos + 1;
    if Exponential(s.strategy) {
      ok, row, n0, len := CrossExponential(tape, s, p, i);
      plan := Plan(p, Arc(n0, len, s.d));
      if ok { ExponentialIsTrial(row, s, i, p, n0, len); }
    } else {
      ok, row, n0 := CrossBinomial(tape, s, p, i);
      plan := Plan(p, Chosen(tape.values, start, n0, s.d, s.d, s.cr));
      if ok { SomethingChosen(tape.values, start, n0, s.d, s.cr); }
    }
  }

  lemma ExponentialIsTrial(row: Vec, s: Setting, i: int, p: Picks, n: int, len: int)
    requires Ready(s) && 0 <= i < s.np && Different(p, i, s.np) && Exponential(s.strategy)
    requires 0 <= n < s.d && 1 <= len <= s.d && Crossed(row, s, p, i, Arc(n, len, s.d))
    ensures IsTrial(row, s, i, Plan(p, Arc(n, len, s.d)))
  {
    ArcSize(n, len, s.d);
    hide Crossed, Ready;
    assert |Arc(n, len, s.d)| == len;
  }
}
