/** The random number generator: two multiplicative congruential generators, combined through a
    shuffle table, with every product computed by Schrage's method in 32 bits. */
module RndUni {
  import opened IntMath

  const IM1 := 2147483563
  const IM2 := 2147483399
  const IA1 := 40014
  const IA2 := 40692
  const IQ1 := 53668
  const IQ2 := 52774
  const IR1 := 12211
  const IR2 := 3791
  const NTAB := 32
  const IMM1 := IM1 - 1
  const NDIV := 1 + IMM1 / NTAB
  const RNMX := 1.0 - 0.00000012
  const INT_MAX := 2147483647

  /** A signed 32-bit integer: an operation whose result does not fit does not verify. */
  newtype int32 = x: int | -0x8000_0000 <= x <= 0x7fff_ffff

  // ----- Schrage's method -----

  /** One step x -> a x mod m of the first generator, without ever leaving 32 bits. */
  method Step1(x: int32) returns (r: int32)
    requires 0 <= x
    ensures r as int == IA1 * (x as int) % IM1
  {
    var k := x / 53668;
    r := 40014 * (x - k * 53668) - k * 12211;
    SchrageIs(x as int, k as int, r as int, IA1, IQ1, IR1, IM1);
    if r < 0 { r := r + 2147483563; }
  }

  /** The same for the second generator. */
  method Step2(x: int32) returns (r: int32)
    requires 0 <= x
    ensures r as int == IA2 * (x as int) % IM2
  {
    var k := x / 52774;
    r := 40692 * (x - k * 52774) - k * 3791;
    SchrageIs(x as int, k as int, r as int, IA2, IQ2, IR2, IM2);
    if r < 0 { r := r + 2147483399; }
  }

  /** a x and the 32-bit expression differ by a multiple of m == a q + r. */
  lemma SchrageIs(x: int, k: int, v: int, a: int, q: int, r: int, m: int)
    requires a > 0 && q > 0 && m == a * q + r && v == a * (x - k * q) - k * r
    requires -m < v < m
    ensures (if v < 0 then v + m else v) == a * x % m
  {
    assert a * x == v + k * m;
    if v < 0 {
      assert a * x == (k - 1) * m + (v + m);
      RemainderUnique(a * x, k - 1, v + m, m);
    } else {
      RemainderUnique(a * x, k, v, m);
    }
  }

  // ----- the step is a bijection of 1 .. m - 1 -----

  function Lcg(a: int, x: int, m: int): int
    requires m > 0
  {
    a * x % m
  }

  /** If a b == 1 modulo m, multiplying by b undoes multiplying by a; so a step never meets
      zero, never meets the same value twice, and meets every value. */
  lemma StepInverts(a: int, b: int, c: int, m: int, x: int)
    requires a * b == 1 + c * m && 1 < m && 0 <= x < m
    ensures 0 <= Lcg(a, x, m) < m && Lcg(b, Lcg(a, x, m), m) == x
    ensures x != 0 <==> Lcg(a, x, m) != 0
  {
    var y, q := a * x % m, a * x / m;
    assert a * x == q * m + y;
    calc {
      b * y;
      b * (a * x - q * m);
      a * b * x - b * q * m;
      (1 + c * m) * x - b * q * m;
      x + (c * x - b * q) * m;
    }
    RemainderUnique(b * y, c * x - b * q, x, m);
    RemainderUnique(0, 0, 0, m);
    if x == 0 { assert a * x == 0; }
    if y == 0 { assert b * y == 0; }
  }

  const IB1 := 2082061899
  const IB2 := 1481316021

  lemma Generator1Bijective(x: int)
    requires 1 <= x < IM1
    ensures 1 <= Lcg(IA1, x, IM1) < IM1 && Lcg(IB1, Lcg(IA1, x, IM1), IM1) == x
    ensures 1 <= Lcg(IB1, x, IM1) < IM1 && Lcg(IA1, Lcg(IB1, x, IM1), IM1) == x
  {
    StepInverts(IA1, IB1, 38795, IM1, x);
    StepInverts(IB1, IA1, 38795, IM1, x);
  }

  lemma Generator2Bijective(x: int)
    requires 1 <= x < IM2
    ensures 1 <= Lcg(IA2, x, IM2) < IM2 && Lcg(IB2, Lcg(IA2, x, IM2), IM2) == x
    ensures 1 <= Lcg(IB2, x, IM2) < IM2 && Lcg(IA2, Lcg(IB2, x, IM2), IM2) == x
  {
    StepInverts(IA2, IB2, 28069, IM2, x);
    StepInverts(IB2, IA2, 28069, IM2, x);
  }

  // ----- what one call does -----

  datatype State = State(idum: int, idum2: int, iy: int, iv: seq<int>)

  /** x after n steps. */
  function Nth(a: int, x: int, m: int, n: nat): int
    requires m > 0
  {
    if n == 0 then x else Lcg(a, Nth(a, x, m, n - 1), m)
  }

  function StartOf(idum: int): int {
    if -idum < 1 then 1 else -idum
  }

  /** Forty steps of the first generator, the last 32 of which fill the table from its end. */
  function Seeded(idum: int): State {
    var start := StartOf(idum);
    State(Nth(IA1, start, IM1, 40), start, Nth(IA1, start, IM1, 40),
          seq(NTAB, j requires 0 <= j < NTAB => Nth(IA1, start, IM1, 40 - j)))
  }

  /** What every call, even the first with any seed, finds and leaves. */
  predicate Sane(s: State) {
    && |s.iv| == NTAB && -INT_MAX <= s.idum < IM1 && 0 <= s.idum2 <= INT_MAX && 0 <= s.iy <= IMM1
    && forall j :: 0 <= j < NTAB ==> 0 <= s.iv[j] < IM1
  }

  function Drawn(s: State): State
    requires |s.iv| == NTAB && 0 <= s.iy <= IMM1
  {
    var i1, i2, j := Lcg(IA1, s.idum, IM1), Lcg(IA2, s.idum2, IM2), s.iy / NDIV;
    var y := s.iv[j] - i2;
    State(i1, i2, if y < 1 then y + IMM1 else y, s.iv[j := i1])
  }

  function Next(s: State): State
    requires Sane(s)
  {
    SeededIsSane(s.idum);
    Drawn(if s.idum <= 0 then Seeded(s.idum) else s)
  }

  function Output(s: State): real {
    var temp := 1.0 / (IM1 as real) * (s.iy as real);
    if temp > RNMX then RNMX else temp
  }

  lemma {:induction false} NthInRange(a: int, x: int, m: int, n: nat)
    requires m > 0 && n > 0
    ensures 0 <= Nth(a, x, m, n) < m
  {
  }

  lemma SeededIsSane(idum: int)
    ensures var s := Seeded(idum);
            |s.iv| == NTAB && 0 <= s.idum < IM1 && 0 <= s.iy <= IMM1
            && forall j :: 0 <= j < NTAB ==> 0 <= s.iv[j] < IM1
  {
    var start := StartOf(idum);
    NthInRange(IA1, start, IM1, 40);
    forall j | 0 <= j < NTAB ensures 0 <= Seeded(idum).iv[j] < IM1 {
      NthInRange(IA1, start, IM1, 40 - j);
    }
  }

  lemma LcgInRange(a: int, x: int, m: int)
    requires m > 0
    ensures 0 <= Lcg(a, x, m) < m
  {
  }

  lemma TableIndex(y: int)
    requires 0 <= y <= IMM1
    ensures 0 <= y / NDIV < NTAB
  {
  }

  lemma DrawnIsSane(s: State)
    requires |s.iv| == NTAB && 0 <= s.iy <= IMM1 && forall j :: 0 <= j < NTAB ==> 0 <= s.iv[j] < IM1
    ensures Sane(Drawn(s)) && 1 <= Drawn(s).iy <= IMM1
  {
    LcgInRange(IA1, s.idum, IM1);
    LcgInRange(IA2, s.idum2, IM2);
    TableIndex(s.iy);
    hide Lcg;
    assert 0 <= s.iv[s.iy / NDIV] < IM1;
  }

  /** For every seed: the table index is in range, and the next state is as sane as the last,
      with an iy between 1 and IM1 - 1 whatever the seed was. */
  lemma NextIsSane(s: State)
    requires Sane(s)
    ensures Sane(Next(s)) && 1 <= Next(s).iy <= IMM1
  {
    SeededIsSane(s.idum);
    hide Drawn, Seeded;
    DrawnIsSane(if s.idum <= 0 then Seeded(s.idum) else s);
  }

  lemma NextIs(s: State)
    requires Sane(s)
    ensures s.idum <= 0 ==> Sane(Seeded(s.idum)) && 0 <= Seeded(s.idum).idum && Next(s) == Drawn(Seeded(s.idum))
    ensures s.idum > 0 ==> Next(s) == Drawn(s)
  {
    SeededIsSane(s.idum);
    assert s.idum <= 0 ==> 0 <= Seeded(s.idum).idum2 <= INT_MAX;
    hide Seeded, Drawn;
  }

  /** The result lies strictly between 0 and 1, and picks a valid index of any population. */
  lemma OutputPicks(s: State, np: int)
    requires 1 <= s.iy <= IMM1 && 1 <= np
    ensures 0.0 < Output(s) < 1.0
    ensures 0 <= (Output(s) * np as real).Floor < np
  {
    var r := Output(s);
    assert 0.0 < r < 1.0;
    assert r * np as real >= 0.0;
    assert r * np as real < 1.0 * np as real by { Below(r, np as real); }
  }

  lemma Below(r: real, n: real)
    requires r < 1.0 && n > 0.0
    ensures r * n < n
  {
  }

  // ----- what a call does with the table -----

  /** y lies in the part j of the NTAB parts of the range of iy. */
  ghost predicate InPart(y: int, j: int) {
    j * NDIV <= y < (j + 1) * NDIV
  }

  /** Entry j of the table is replaced by the next number of the first generator, and what it held is,
      but for a turn of IM1 - 1, the sum of the new iy and of the next number of the second one. */
  ghost predicate Shuffles(s: State, t: State, j: int) {
    && 0 <= j < |s.iv| == |t.iv| == NTAB && t.iv[j] == t.idum
    && (forall i :: 0 <= i < NTAB && i != j ==> t.iv[i] == s.iv[i])
    && 1 <= t.iy < IM1 && (t.iy + t.idum2 - s.iv[j] == 0 || t.iy + t.idum2 - s.iv[j] == IM1 - 1)
    && t.idum == Lcg(IA1, s.idum, IM1) && t.idum2 == Lcg(IA2, s.idum2, IM2)
  }

  /** The state that a call works on: a seed is replaced first. */
  function Ready(s: State): State {
    if s.idum <= 0 then Seeded(s.idum) else s
  }

  /** Every call uses and replaces the one entry of the table in whose part iy lies. */
  lemma NextShuffles(s: State, j: int)
    requires Sane(s) && InPart(Ready(s).iy, j)
    ensures Shuffles(Ready(s), Next(s), j)
  {
    SeededIsSane(s.idum);
    var r := Ready(s);
    PartIs(r.iy, j);
    LcgInRange(IA2, r.idum2, IM2);
    assert 0 <= r.iv[j] < IM1;
  }

  lemma PartIs(y: int, j: int)
    requires InPart(y, j)
    ensures j == y / NDIV
    ensures 0 <= y <= IMM1 ==> 0 <= j < NTAB
  {
    RemainderUnique(y, j, y - j * NDIV, NDIV);
    if 0 <= y <= IMM1 { TableIndex(y); }
  }

  /** There is such an entry, and it is the only one. */
  lemma PartExists(y: int) returns (j: int)
    requires 0 <= y <= IMM1
    ensures 0 <= j < NTAB && InPart(y, j) && forall i :: InPart(y, i) ==> i == j
  {
    j := y / NDIV;
    forall i | InPart(y, i) ensures i == j {
      PartIs(y, i);
    }
  }

  /** Seeding: eight numbers of the first generator are dropped, and the table is filled with the next
      32 from its end.  The newest of them is also where that generator and iy stand; the second
      generator stands at the seed. */
  lemma SeededIs(idum: int)
    ensures var s := Seeded(idum);
            && s.iy == s.idum == s.iv[0] && s.idum2 == (if idum < 0 then -idum else 1)
            && s.iv[NTAB - 1] == Pow(IA1, 9) * s.idum2 % IM1
            && forall j :: 0 <= j < NTAB - 1 ==> s.iv[j] == Lcg(IA1, s.iv[j + 1], IM1)
  {
    NthClosed(IA1, StartOf(idum), IM1, 9);
    hide Lcg;
    forall j | 0 <= j < NTAB - 1 ensures Seeded(idum).iv[j] == Lcg(IA1, Seeded(idum).iv[j + 1], IM1) {
      assert Seeded(idum).iv[j] == Nth(IA1, StartOf(idum), IM1, 40 - j);
      assert Seeded(idum).iv[j + 1] == Nth(IA1, StartOf(idum), IM1, 39 - j);
    }
  }

  /** The number r that a call returns is iy / IM1, but at most RNMX. */
  ghost predicate Reads(r: real, s: State) {
    if r < RNMX then r * IM1 as real == s.iy as real else r == RNMX && r * IM1 as real <= s.iy as real
  }

  lemma OutputReads(s: State)
    ensures Reads(Output(s), s)
  {
    var temp := 1.0 / (IM1 as real) * (s.iy as real);
    assert temp * IM1 as real == s.iy as real;
  }

  /** The table entry that the last call used, from what the call left: iy and idum2 add up to it,
      but for a turn of IM1 - 1. */
  function UsedBy(t: State): int {
    (t.iy + t.idum2 - 1) % IMM1 + 1
  }

  lemma UsedIs(t: State, u: int)
    requires 1 <= u <= IMM1 && (t.iy + t.idum2 - u == 0 || t.iy + t.idum2 - u == IM1 - 1)
    ensures UsedBy(t) == u
  {
  }

  /** The table entries that the first n + 1 calls used. */
  function UsedUp(seed: int, n: nat): seq<int>
    requires 1 <= seed <= INT_MAX
  {
    (if n == 0 then [] else UsedUp(seed, n - 1)) + [UsedBy(Run(seed, n))]
  }

  /** The numbers a .. b - 1 of the first generator. */
  function Numbers(seed: int, a: nat, b: nat): seq<int>
    requires a <= b
  {
    seq(b - a, i requires 0 <= i < b - a => Nth(IA1, seed, IM1, a + i))
  }

  /** Nothing is lost and nothing used twice: what the calls have used, together with the table, is,
      in some order, what the first generator has made since number 9. */
  lemma {:induction false} TableConserves(seed: int, n: nat)
    requires 1 <= seed <= INT_MAX && seed != IM1 && seed != IM2
    ensures multiset(UsedUp(seed, n)) + multiset(Run(seed, n).iv) == multiset(Numbers(seed, 9, 42 + n))
    decreases n
  {
    hide *;
    NumbersNext(seed, 41 + n);
    RunNth(seed, n);
    var t, nums := Run(seed, n), Numbers(seed, 9, 41 + n);
    if n == 0 {
      FirstConserves(seed);
      FirstUsed(seed);
      SeededNumbers(seed);
      OneNumberMore(UsedUp(seed, 0), t.iv, multiset(Seeded(-seed).iv), nums, t.idum);
    } else {
      TableConserves(seed, n - 1);
      NextConserves(seed, n);
      LaterUsed(seed, n);
      OneNumberMore(UsedUp(seed, n), t.iv, multiset(UsedUp(seed, n - 1)) + multiset(Run(seed, n - 1).iv), nums, t.idum);
    }
  }

  lemma OneNumberMore(used: seq<int>, table: seq<int>, before: multiset<int>, nums: seq<int>, x: int)
    requires multiset(used) + multiset(table) == before + multiset{x} && before == multiset(nums)
    ensures multiset(used) + multiset(table) == multiset(nums + [x])
  {
  }

  lemma FirstUsed(seed: int)
    requires 1 <= seed <= INT_MAX
    ensures UsedUp(seed, 0) == [] + [UsedBy(Run(seed, 0))]
  {
  }

  lemma LaterUsed(seed: int, n: nat)
    requires 1 <= seed <= INT_MAX && n > 0
    ensures UsedUp(seed, n) == UsedUp(seed, n - 1) + [UsedBy(Run(seed, n))]
  {
  }

  lemma FirstConserves(seed: int)
    requires 1 <= seed <= INT_MAX && seed != IM1 && seed != IM2
    ensures var t := Run(seed, 0);
            multiset([] + [UsedBy(t)]) + multiset(t.iv) == multiset(Seeded(-seed).iv) + multiset{t.idum}
  {
    var first := State(-seed, 123456789, 0, seq(NTAB, _ => 0));
    NextIsSane(first);
    SeededIsSane(-seed);
    GoodTable(seed);
    assert Ready(first) == Seeded(-seed) && Run(seed, 0) == Next(first);
    hide Next, Seeded, Run;
    TurnConserves(first, Seeded(-seed), Next(first), []);
  }

  lemma NextConserves(seed: int, n: nat)
    requires 1 <= seed <= INT_MAX && seed != IM1 && seed != IM2 && n > 0
    ensures var s, t := Run(seed, n - 1), Run(seed, n);
            multiset(UsedUp(seed, n - 1) + [UsedBy(t)]) + multiset(t.iv)
            == multiset(UsedUp(seed, n - 1)) + multiset(s.iv) + multiset{t.idum}
  {
    RunIsGood(seed, n - 1);
    hide Next, Seeded, UsedUp, UsedBy, Lcg;
    TurnConserves(Run(seed, n - 1), Run(seed, n - 1), Run(seed, n), UsedUp(seed, n - 1));
  }

  lemma SeededNumbers(seed: int)
    requires 1 <= seed
    ensures multiset(Seeded(-seed).iv) == multiset(Numbers(seed, 9, 41))
  {
    Backwards(Seeded(-seed).iv, Numbers(seed, 9, 41));
  }

  lemma {:induction false} Backwards(a: seq<int>, b: seq<int>)
    requires |a| == |b| && forall i :: 0 <= i < |a| ==> a[i] == b[|b| - 1 - i]
    ensures multiset(a) == multiset(b)
    decreases |a|
  {
    if a == [] {
      assert b == [];
    } else {
      var n := |a| - 1;
      Backwards(a[1..], b[..n]);
      assert a == [a[0]] + a[1..] && b == b[..n] + [b[n]];
    }
  }

  lemma GoodTable(seed: int)
    requires 1 <= seed <= INT_MAX && seed != IM1 && seed != IM2
    ensures var s := Seeded(-seed); forall j :: 0 <= j < NTAB ==> 1 <= s.iv[j] < IM1
  {
    var s := Seeded(-seed);
    forall j | 0 <= j < NTAB ensures 1 <= s.iv[j] < IM1 {
      NthAlive(seed, 40 - j);
    }
  }

  lemma NumbersNext(seed: int, b: nat)
    requires b >= 9
    ensures Numbers(seed, 9, b + 1) == Numbers(seed, 9, b) + [Nth(IA1, seed, IM1, b)]
  {
    hide Nth;
  }

  /** One call moves one number from the table to those used, and a new one into the table. */
  lemma TurnConserves(c: State, s: State, t: State, used: seq<int>)
    requires Sane(c) && s == Ready(c) && t == Next(c) && |s.iv| == NTAB && 0 <= s.iy <= IMM1
    requires forall j :: 0 <= j < NTAB ==> 1 <= s.iv[j] < IM1
    ensures multiset(used + [UsedBy(t)]) + multiset(t.iv) == multiset(used) + multiset(s.iv) + multiset{t.idum}
  {
    var j := PartExists(s.iy);
    NextShuffles(c, j);
    UsedIs(t, s.iv[j]);
    assert t.iv == s.iv[j := t.idum];
    hide *;
    Replaced(s.iv, j, t.idum);
  }

  lemma Replaced(a: seq<int>, j: int, x: int)
    requires 0 <= j < |a|
    ensures multiset(a[j := x]) + multiset{a[j]} == multiset(a) + multiset{x}
  {
  }

  // ----- all calls -----

  /** The state after the first call with this seed and n more. */
  function Run(seed: int, n: nat): State
    requires 1 <= seed <= INT_MAX
    ensures Sane(Run(seed, n))
  {
    var first := State(-seed, 123456789, 0, seq(NTAB, _ => 0));
    NextIsSane(first);
    if n == 0 then Next(first)
    else
      NextIsSane(Run(seed, n - 1));
      Next(Run(seed, n - 1))
  }

  /** Both generators alive, and the table full of values of the first. */
  predicate Good(s: State) {
    && Sane(s) && 1 <= s.idum && 1 <= s.idum2 < IM2 && 1 <= s.iy
    && forall j :: 0 <= j < NTAB ==> 1 <= s.iv[j]
  }

  lemma DrawnIsGood(s: State)
    requires Sane(s) && 1 <= s.idum && 1 <= s.idum2 && s.idum2 != IM2
    requires forall j :: 0 <= j < NTAB ==> 1 <= s.iv[j]
    ensures Good(Drawn(s))
  {
    Generator1Bijective(s.idum);
    Alive(IA2, IB2, 28069, IM2, s.idum2);
    assert 0 <= s.iy / NDIV < NTAB;
  }

  /** A start below 2 m is lost only if it is 0 or m. */
  lemma Alive(a: int, b: int, c: int, m: int, x: int)
    requires a * b == 1 + c * m && 1 < m && 0 <= x < 2 * m
    ensures 0 <= Lcg(a, x, m) < m
    ensures Lcg(a, x, m) == 0 <==> x == 0 || x == m
  {
    if x < m {
      StepInverts(a, b, c, m, x);
    } else {
      Reduces(a, x, m);
      StepInverts(a, b, c, m, x - m);
    }
  }

  lemma Reduces(a: int, x: int, m: int)
    requires m > 0
    ensures Lcg(a, x, m) == Lcg(a, x - m, m)
  {
    var n := a * (x - m);
    assert a * x == (n / m + a) * m + n % m;
    RemainderUnique(a * x, n / m + a, n % m, m);
  }

  lemma {:induction false} NthAlive(x: int, n: nat)
    requires 1 <= x <= INT_MAX && n > 0
    ensures 0 <= Nth(IA1, x, IM1, n) < IM1
    ensures Nth(IA1, x, IM1, n) == 0 <==> x == IM1
  {
    if n == 1 {
      assert Nth(IA1, x, IM1, 1) == Lcg(IA1, Nth(IA1, x, IM1, 0), IM1);
      Alive(IA1, IB1, 38795, IM1, x);
    } else {
      NthAlive(x, n - 1);
      Alive(IA1, IB1, 38795, IM1, Nth(IA1, x, IM1, n - 1));
    }
  }

  /** The first call starts both generators if and only if the seed is neither modulus. */
  lemma FirstCall(seed: int)
    requires 1 <= seed <= INT_MAX
    ensures Good(Run(seed, 0)) <==> seed != IM1 && seed != IM2
    ensures Run(seed, 0).idum == 0 <==> seed == IM1
    ensures Run(seed, 0).idum2 == 0 <==> seed == IM2
  {
    var s := Seeded(-seed);
    SeededIsSane(-seed);
    assert Run(seed, 0) == Drawn(s);
    NthAlive(seed, 40);
    Alive(IA1, IB1, 38795, IM1, s.idum);
    Alive(IA2, IB2, 28069, IM2, s.idum2);
    if seed != IM1 && seed != IM2 {
      forall j | 0 <= j < NTAB ensures 1 <= s.iv[j] {
        NthAlive(seed, 40 - j);
      }
      DrawnIsGood(s);
    }
  }

  /** Over every number of calls: the generator stays good, and so never seeds itself again, if
      and only if the seed is neither modulus. */
  lemma {:induction false} RunIsGood(seed: int, n: nat)
    requires 1 <= seed <= INT_MAX
    ensures seed != IM1 && seed != IM2 ==> Good(Run(seed, n))
    ensures seed == IM2 ==> Run(seed, n).idum2 == 0 && Run(seed, n).idum > 0
    decreases n
  {
    if n == 0 {
      FirstCall(seed);
    } else {
      RunIsGood(seed, n - 1);
      var s := Run(seed, n - 1);
      if seed != IM1 && seed != IM2 {
        DrawnIsGood(s);
      } else if seed == IM2 {
        Generator1Bijective(s.idum);
        Alive(IA2, IB2, 28069, IM2, 0);
      }
    }
  }

  /** The generator is good after every call exactly for the seeds that are neither modulus;
      only seed > 0 is checked. */
  lemma GoodForever(seed: int)
    requires 1 <= seed <= INT_MAX
    ensures (forall n: nat :: Good(Run(seed, n))) <==> seed != IM1 && seed != IM2
  {
    FirstCall(seed);
    forall n: nat | seed != IM1 && seed != IM2 ensures Good(Run(seed, n)) {
      RunIsGood(seed, n);
    }
  }

  /** With the seed IM1 the second call finds zero and seeds again, so that from there on the
      generator repeats what it does for the seed 1. */
  lemma {:induction false} SeedLost(n: nat)
    ensures Run(IM1, n + 1) == Run(1, n)
    decreases n
  {
    FirstCall(IM1);
    if n == 0 {
      assert Run(IM1, 1) == Next(Run(IM1, 0));
    } else {
      SeedLost(n - 1);
    }
  }

  function Pow(a: int, n: nat): int {
    if n == 0 then 1 else a * Pow(a, n - 1)
  }

  lemma {:induction false} NthClosed(a: int, x: int, m: int, n: nat)
    requires m > 0 && n > 0
    ensures Nth(a, x, m, n) == Pow(a, n) * x % m
    decreases n
  {
    if n == 1 {
      assert Pow(a, 1) == a * Pow(a, 0);
      assert Nth(a, x, m, 1) == Lcg(a, Nth(a, x, m, 0), m);
    } else {
      NthClosed(a, x, m, n - 1);
      var p := Pow(a, n - 1) * x;
      StepMod(a, p, m);
      assert Pow(a, n) * x == a * p;
    }
  }

  lemma StepMod(a: int, p: int, m: int)
    requires m > 0
    ensures a * (p % m) % m == a * p % m
  {
    var n := a * (p % m);
    assert a * p == a * (p / m * m + p % m);
    assert a * p == (n / m + a * (p / m)) * m + n % m;
    RemainderUnique(a * p, n / m + a * (p / m), n % m, m);
  }

  /** Closed forms: after n more calls the two generators have made 41 + n and 1 + n steps. */
  lemma {:induction false} RunClosed(seed: int, n: nat)
    requires 1 <= seed <= INT_MAX && seed != IM1 && seed != IM2
    ensures Run(seed, n).idum == Pow(IA1, 41 + n) * seed % IM1
    ensures Run(seed, n).idum2 == Pow(IA2, 1 + n) * seed % IM2
  {
    RunNth(seed, n);
    NthClosed(IA1, seed, IM1, 41 + n);
    NthClosed(IA2, seed, IM2, 1 + n);
  }

  lemma {:induction false} RunNth(seed: int, n: nat)
    requires 1 <= seed <= INT_MAX && seed != IM1 && seed != IM2
    ensures Run(seed, n).idum == Nth(IA1, seed, IM1, 41 + n)
    ensures Run(seed, n).idum2 == Nth(IA2, seed, IM2, 1 + n)
    decreases n
  {
    if n == 0 {
      assert Run(seed, 0) == Drawn(Seeded(-seed));
      assert Nth(IA2, seed, IM2, 1) == Lcg(IA2, Nth(IA2, seed, IM2, 0), IM2);
    } else {
      RunNth(seed, n - 1);
      RunIsGood(seed, n - 1);
    }
  }

  // ----- the generator itself -----

  class RndUni {
    var idum: int32
    var idum2: int32
    var iy: int32
    const iv: array<int32>

    ghost predicate Shaped()
      reads this
    {
      iv.Length == NTAB
    }

    ghost function Abstract(): State
      reads this, iv
      requires Shaped()
    {
      State(idum as int, idum2 as int, iy as int,
            seq(NTAB, j requires 0 <= j < NTAB reads this, iv requires Shaped() => iv[j] as int))
    }

    /** The static variables of the function, and the seed the caller starts from. */
    constructor (seed: int32)
      requires 1 <= seed
      ensures Shaped() && fresh(iv) && Sane(Abstract())
      ensures Abstract() == State(-(seed as int), 123456789, 0, seq(NTAB, _ => 0))
    {
      idum, idum2, iy := -seed, 123456789, 0;
      iv := new int32[32](_ => 0);
    }

    /** Forty steps from the seed, of which the last 32 fill the table. */
    method Seed()
      requires Shaped() && Sane(Abstract()) && idum <= 0
      modifies this`idum, this`idum2, this`iy, iv
      ensures Shaped() && Abstract() == Seeded(old(idum) as int)
    {
      if -idum < 1 { idum := 1; } else { idum := -idum; }
      idum2 := idum;
      ghost var start := idum as int;
      var j := 39;
      while j >= 0
        invariant -1 <= j <= 39 && 0 <= idum
        invariant Shaped() && idum2 as int == start
        invariant idum as int == Nth(IA1, start, IM1, 39 - j)
        invariant forall i :: 0 <= i < 32 && j < i ==> iv[i] as int == Nth(IA1, start, IM1, 40 - i)
      {
        idum := Step1(idum);
        if j < 32 { iv[j] := idum; }
        j := j - 1;
      }
      iy := iv[0];
      assert Abstract().iv == Seeded(-start).iv;
    }

    /** One random number. */
    method Draw() returns (r: real)
      requires Shaped() && Sane(Abstract())
      modifies this`idum, this`idum2, this`iy, iv
      ensures Shaped() && Abstract() == Next(old(Abstract())) && Sane(Abstract())
      ensures r == Output(Abstract()) && 0.0 < r < 1.0
      ensures Reads(r, Abstract())
      ensures forall j :: InPart(Ready(old(Abstract())).iy, j) ==> Shuffles(Ready(old(Abstract())), Abstract(), j)
    {
      ghost var s := Abstract();
      NextIsSane(s);
      NextIs(s);
      OutputReads(Next(s));
      forall j | InPart(Ready(s).iy, j) ensures Shuffles(Ready(s), Next(s), j) {
        NextShuffles(s, j);
      }
      assert s.idum == idum as int;
      hide *;
      if idum <= 0 { Seed(); }
      Turn();
      r := Result();
    }

    /** The number that iy stands for. */
    method Result() returns (r: real)
      requires Shaped() && 1 <= Abstract().iy <= IMM1
      ensures r == Output(Abstract()) && 0.0 < r < 1.0
    {
      OutputPicks(Abstract(), 1);
      r := 1.0 / (IM1 as real) * (iy as real);
      if r > RNMX { r := RNMX; }
    }

    /** Both generators step, and the table entry that iy selects is used and replaced. */
    method Turn()
      requires Shaped() && Sane(Abstract()) && 0 <= idum
      modifies this`idum, this`idum2, this`iy, iv
      ensures Shaped() && Abstract() == Drawn(old(Abstract()))
    {
      ghost var s := Abstract();
      var j := iy / 67108862;
      assert s.iv[j as int] == iv[j] as int;
      idum := Step1(idum);
      idum2 := Step2(idum2);
      iy := iv[j] - idum2;
      iv[j] := idum;
      if iy < 1 { iy := iy + 2147483562; }
      assert Abstract().iv == Drawn(s).iv;
    }
  }
}
