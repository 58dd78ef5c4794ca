/** The synthesis of an elliptic filter that optimises the order of its poles. */
module CauerSearch {
  import opened PoleOrder
  import opened OrderSearch
  import opened Ladder
  import opened Extraction
  import opened Synthesis
  import opened Cauer

  /** What all orders have in common: the susceptance, the zeros, and the kind of filter. */
  datatype Job = Job(b: Susceptance, zr: seq<real>, ws: real, dual: bool, odd: bool, typeB: bool, sqrt: real -> real)

  predicate PolesFit(j: Job, q: seq<nat>) {
    if j.odd then OddPolesFit(j.zr, q) else EvenPolesFit(j.zr, q, j.typeB, j.sqrt)
  }

  function PolesOf(j: Job, q: seq<nat>): seq<real>
    requires PolesFit(j, q)
  {
    if j.odd then OddPoles(j.zr, q) else EvenPoles(j.zr, q, j.typeB, j.sqrt)
  }

  /** The poles can be removed in the order q, until a negative value stops it. */
  ghost predicate Planned(j: Job, q: seq<nat>) {
    && PolesFit(j, q)
    && if j.odd then OddPlan(j.b, PolesOf(j, q), true) else EvenPlan(j.b, PolesOf(j, q), j.ws, true)
  }

  /** The order q gives a ladder without negative components. */
  ghost predicate Works(j: Job, q: seq<nat>) {
    && Planned(j, q)
    && if j.odd then !GivesUp(j.b, PolesOf(j, q), true) else !EvenGivesUp(j.b, PolesOf(j, q), j.ws, true)
  }

  ghost function LadderOf(j: Job, q: seq<nat>): seq<Cmp>
    requires Works(j, q)
  {
    if j.odd then OddLadder(j.b, PolesOf(j, q), j.ws, j.dual) else EvenLadder(j.b, PolesOf(j, q), j.ws, j.dual)
  }

  /** What is emitted for the order q until a negative value stops it. */
  ghost function EmittedOf(j: Job, q: seq<nat>): seq<Cmp>
    requires Planned(j, q)
  {
    Emitted(j.b, PolesOf(j, q), j.ws, j.dual, true)
  }

  ghost function WorthOf(j: Job, worth: seq<Cmp> -> real, q: seq<nat>): real {
    if Works(j, q) then worth(LadderOf(j, q)) else worth([])
  }

  ghost function AllWork(j: Job): seq<nat> -> bool {
    q => Works(j, q)
  }

  ghost function AllWorth(j: Job, worth: seq<Cmp> -> real): seq<nat> -> real {
    q => WorthOf(j, worth, q)
  }

  ghost function JobOf(c: QfCauer, odd: bool, typeB: bool, sqrt: real -> real): Job
    requires c.Valid()
    reads c, c.filter, c.filter.BN, c.filter.BD, c.BNc, c.BDc
  {
    Job(c.Kept(), c.zr, c.ws, c.dual, odd, typeB, sqrt)
  }

  /** One synthesis, with the order that is set. */
  method SynthOnce(c: QfCauer, odd: bool, typeB: bool, sqrt: real -> real, ghost j: Job) returns (ok: bool)
    requires c.Valid() && c.optc && j == JobOf(c, odd, typeB, sqrt) && Planned(j, c.pole)
    modifies c.filter`lcmp, c.filter.BN, c.filter.BD
    ensures c.Valid() && j == JobOf(c, odd, typeB, sqrt)
    ensures ok == Works(j, c.pole) && c.filter.lcmp == if ok then LadderOf(j, c.pole) else EmittedOf(j, c.pole)
  {
    hide Emitted, OddPlan, EvenPlan, GivesUp, EvenGivesUp, OddLadder, EvenLadder, OddPoles, EvenPoles, OddPolesFit;
    hide EvenPolesFit;
    if odd {
      ok := c.SynthOdd();
    } else {
      ok := c.SynthEven(typeB, sqrt);
    }
  }

  /** Where the search stands before it asks for the order after q == all[i]: lcmp is the ladder of
      q, if its synthesis worked. */
  ghost predicate Standing(s: Stand, j: Job, worth: seq<Cmp> -> real, huge: real, all: seq<seq<nat>>, m: nat,
                           q: seq<nat>, lcmp: seq<Cmp>)
  {
    && Underway(s.i, s.ok, s.b, s.kept, s.least, all, AllWork(j), AllWorth(j, worth), huge)
    && s.i < |all| && q == all[s.i] && Permutation(q, m)
    && (s.ok ==> Works(j, q) && lcmp == LadderOf(j, q))
    && (s.kept.Some? ==> Permutation(s.kept.value, m))
  }

  datatype Stand = Stand(i: nat, ok: bool, b: nat, kept: Option<seq<nat>>, least: real)

  /** The search has ended early with the ladder of an order that is worth nothing. */
  ghost predicate FoundZero(j: Job, worth: seq<Cmp> -> real, all: seq<seq<nat>>, m: nat, lcmp: seq<Cmp>) {
    && all != [] && (forall k: Option<seq<nat>> :: Outcome(true, k, all, AllWork(j), AllWorth(j, worth)))
    && exists q :: Permutation(q, m) && Works(j, q) && lcmp == LadderOf(j, q) && worth(lcmp) == 0.0
  }

  ghost predicate Bounded(worth: seq<Cmp> -> real, huge: real) {
    forall l :: worth(l) < huge
  }

  /** After the ladder of the last order has been scored, and the synthesis of the order p tried. */
  function AfterScore(s: Stand, score: real, p: seq<nat>, ok: bool): Stand {
    if score < s.least then Stand(s.i + 1, ok, s.i, Some(p), score) else Stand(s.i + 1, ok, s.b, s.kept, s.least)
  }

  /** One round of the search: p is the next order, and the ladder at hand is that of the last one. */
  method Round(c: QfCauer, p: seq<nat>, odd: bool, typeB: bool, sqrt: real -> real, worth: seq<Cmp> -> real, huge: real,
               s: Stand, ghost j: Job, ghost all: seq<seq<nat>>, ghost m: nat, ghost q: seq<nat>)
    returns (done: bool, t: Stand)
    requires c.Valid() && c.optc && j == JobOf(c, odd, typeB, sqrt) && Bounded(worth, huge)
    requires Standing(s, j, worth, huge, all, m, q, c.filter.lcmp) && Planned(j, p) && Follows(s, all, m, p)
    modifies c`pole, c.filter`lcmp, c.filter.BN, c.filter.BD
    ensures c.Valid() && j == JobOf(c, odd, typeB, sqrt)
    ensures done ==> FoundZero(j, worth, all, m, c.filter.lcmp)
    ensures !done ==> t.i == s.i + 1 && Standing(t, j, worth, huge, all, m, p, c.filter.lcmp)
  {
    hide *;
    ghost var was := c.filter.lcmp;
    SetOrder(c, p, odd, typeB, sqrt, j);
    done, t := false, s.(i := s.i + 1);
    if s.ok {
      var score := worth(c.filter.lcmp);
      if score == 0.0 {
        RoundZero(s, j, worth, huge, all, m, q, was, p);
        return true, t;
      }
      var ok := SynthOnce(c, odd, typeB, sqrt, j);
      t := AfterScore(s, score, p, ok);
      RoundScored(s, j, worth, huge, all, m, q, was, p, c.filter.lcmp);
      AfterScoreIs(s, score, p, ok);
    } else {
      RoundFailed(s, j, worth, huge, all, m, q, was, p, c.filter.lcmp);
    }
  }

  ghost predicate Follows(s: Stand, all: seq<seq<nat>>, m: nat, p: seq<nat>) {
    s.i + 1 < |all| && p == all[s.i + 1] && Permutation(p, m)
  }

  lemma FollowsFrom(s: Stand, all: seq<seq<nat>>, m: nat, p: seq<nat>)
    requires s.i + 1 < |all| && p == all[s.i + 1] && Permutation(p, m)
    ensures Follows(s, all, m, p)
  {
  }

  lemma AfterScoreIs(s: Stand, score: real, p: seq<nat>, ok: bool)
    ensures AfterScore(s, score, p, ok).i == s.i + 1
  {
  }

  lemma RoundZero(s: Stand, j: Job, worth: seq<Cmp> -> real, huge: real, all: seq<seq<nat>>, m: nat, q: seq<nat>,
                  lcmp: seq<Cmp>, p: seq<nat>)
    requires Standing(s, j, worth, huge, all, m, q, lcmp) && Follows(s, all, m, p) && Bounded(worth, huge)
    requires s.ok && worth(lcmp) == 0.0
    ensures FoundZero(j, worth, all, m, lcmp)
  {
    WorksIs(j, worth, q);
    hide Underway, Outcome, Works, LadderOf, AllWork, AllWorth, Permutation;
    UnderwayNext(s.i, s.ok, s.b, s.kept, s.least, all, AllWork(j), AllWorth(j, worth), huge);
  }

  lemma RoundScored(s: Stand, j: Job, worth: seq<Cmp> -> real, huge: real, all: seq<seq<nat>>, m: nat, q: seq<nat>,
                    lcmp: seq<Cmp>, p: seq<nat>, next: seq<Cmp>)
    requires Standing(s, j, worth, huge, all, m, q, lcmp) && Follows(s, all, m, p) && Bounded(worth, huge)
    requires s.ok && worth(lcmp) != 0.0 && (Works(j, p) ==> next == LadderOf(j, p))
    ensures Standing(AfterScore(s, worth(lcmp), p, Works(j, p)), j, worth, huge, all, m, p, next)
  {
    WorksIs(j, worth, q);
    WorksIs(j, worth, p);
    hide Underway, Outcome, Works, LadderOf, AllWork, AllWorth, Permutation;
    UnderwayNext(s.i, s.ok, s.b, s.kept, s.least, all, AllWork(j), AllWorth(j, worth), huge);
  }

  lemma RoundFailed(s: Stand, j: Job, worth: seq<Cmp> -> real, huge: real, all: seq<seq<nat>>, m: nat, q: seq<nat>,
                    lcmp: seq<Cmp>, p: seq<nat>, next: seq<Cmp>)
    requires Standing(s, j, worth, huge, all, m, q, lcmp) && Follows(s, all, m, p) && Bounded(worth, huge) && !s.ok
    ensures Standing(s.(i := s.i + 1), j, worth, huge, all, m, p, next)
  {
    WorksIs(j, worth, q);
    hide Underway, Outcome, Works, LadderOf, AllWork, AllWorth, Permutation;
    UnderwayNext(s.i, s.ok, s.b, s.kept, s.least, all, AllWork(j), AllWorth(j, worth), huge);
  }

  lemma StandingFrom(s: Stand, j: Job, worth: seq<Cmp> -> real, huge: real, all: seq<seq<nat>>, m: nat, q: seq<nat>,
                     lcmp: seq<Cmp>)
    requires Underway(s.i, s.ok, s.b, s.kept, s.least, all, AllWork(j), AllWorth(j, worth), huge)
    requires s.i < |all| && q == all[s.i] && Permutation(q, m) && (s.ok ==> Works(j, q) && lcmp == LadderOf(j, q))
    requires s.kept.Some? ==> Permutation(s.kept.value, m)
    ensures Standing(s, j, worth, huge, all, m, q, lcmp)
  {
  }

  lemma StandingStarts(j: Job, worth: seq<Cmp> -> real, huge: real, all: seq<seq<nat>>, m: nat, q: seq<nat>,
                       lcmp: seq<Cmp>, ok: bool)
    requires all != [] && q == all[0] && Permutation(q, m) && ok == Works(j, q) && (ok ==> lcmp == LadderOf(j, q))
    ensures Standing(Stand(0, ok, 0, None, huge), j, worth, huge, all, m, q, lcmp)
  {
    WorksIs(j, worth, q);
    hide *;
    UnderwayStart(all, AllWork(j), AllWorth(j, worth), huge);
    StandingFrom(Stand(0, ok, 0, None, huge), j, worth, huge, all, m, q, lcmp);
  }

  lemma StandingEnds(s: Stand, j: Job, worth: seq<Cmp> -> real, huge: real, all: seq<seq<nat>>, m: nat, q: seq<nat>,
                     lcmp: seq<Cmp>)
    requires Standing(s, j, worth, huge, all, m, q, lcmp) && s.i == |all| - 1
    ensures Outcome(false, s.kept, all, AllWork(j), AllWorth(j, worth))
    ensures s.kept.Some? ==> Permutation(s.kept.value, m)
  {
    hide Underway, Outcome, AllWork, AllWorth, Permutation, Works, LadderOf;
    UnderwayEnd(s.i, s.ok, s.b, s.kept, s.least, all, AllWork(j), AllWorth(j, worth), huge);
  }

  lemma FoundZeroIs(j: Job, worth: seq<Cmp> -> real, all: seq<seq<nat>>, m: nat, lcmp: seq<Cmp>,
                    kept: Option<seq<nat>>)
    requires FoundZero(j, worth, all, m, lcmp)
    ensures all != [] && Outcome(true, kept, all, AllWork(j), AllWorth(j, worth))
    ensures exists q :: Permutation(q, m) && Works(j, q) && lcmp == LadderOf(j, q) && worth(lcmp) == 0.0
  {
    hide Outcome, Works, LadderOf, Permutation, AllWork, AllWorth;
  }

  /** The order q follows the first of the best of the orders that were scored, and ok tells whether
      its ladder can be made: not so exactly if it is the first order whose synthesis fails. */
  ghost predicate AfterBest(j: Job, worth: seq<Cmp> -> real, all: seq<seq<nat>>, q: seq<nat>, ok: bool)
    requires all != []
  {
    var c := Scored(all, 0, AllWork(j));
    exists k: nat :: FirstLeast(all, c, AllWorth(j, worth), k) && k + 1 < |all| && q == all[k + 1]
                     && (ok <==> k + 1 < c || AllWork(j)(all[c]))
  }

  lemma AfterBestFrom(j: Job, worth: seq<Cmp> -> real, all: seq<seq<nat>>, q: seq<nat>)
    requires all != [] && Outcome(false, Some(q), all, AllWork(j), AllWorth(j, worth))
    ensures AfterBest(j, worth, all, q, Works(j, q))
  {
    hide Scored, Works, AllWork, AllWorth;
    WorksIs(j, worth, q);
    var c, value := Scored(all, 0, AllWork(j)), AllWorth(j, worth);
    var k: nat :| FirstLeast(all, c, value, k) && q == all[k + 1];
    KeptIsLeast(Some(q), all, AllWork(j), value, c, k);
  }

  /** The whole search: all orders are tried, the ladders that are scored are those of the orders
      before, and the final synthesis is that of the kept order.  Where it fails, the list holds what
      it has emitted until then.  Without a kept order the source goes on with an empty list of
      poles; here it gives up. */
  method SynthBest(c: QfCauer, m: nat, odd: bool, typeB: bool, sqrt: real -> real, worth: seq<Cmp> -> real,
                   huge: real, ghost j: Job)
    returns (ok: bool, early: bool, kept: Option<seq<nat>>)
    requires c.Valid() && c.optc && j == JobOf(c, odd, typeB, sqrt) && m > 0
    requires (forall q: seq<nat> :: Permutation(q, m) ==> Planned(j, q)) && Bounded(worth, huge)
    modifies c`pole, c.filter`lcmp, c.filter.BN, c.filter.BD
    ensures Orbit(Identity(m), m) != [] && Outcome(early, kept, Orbit(Identity(m), m), AllWork(j), AllWorth(j, worth))
    ensures early ==> ok && exists q :: Permutation(q, m) && Works(j, q) && c.filter.lcmp == LadderOf(j, q)
                                        && worth(c.filter.lcmp) == 0.0
    ensures !early && kept.Some? ==> Permutation(kept.value, m) && ok == Works(j, kept.value)
    ensures !early && kept.Some? ==> AfterBest(j, worth, Orbit(Identity(m), m), kept.value, ok)
    ensures !early && kept.Some? ==>
              c.filter.lcmp == if ok then LadderOf(j, kept.value) else EmittedOf(j, kept.value)
  {
    hide *;
    ghost var all := Orbit(Identity(m), m);
    var pm := new PoleOptimiser();
    pm.PoleIdxInit(m);
    OrbitFirst(pm.pole, m);
    SetOrder(c, pm.pole, odd, typeB, sqrt, j);
    ok := SynthOnce(c, odd, typeB, sqrt, j);
    StandingStarts(j, worth, huge, all, m, pm.pole, c.filter.lcmp, ok);
    var s := Stand(0, ok, 0, None, huge);
    while true
      invariant fresh(pm) && pm.Held(m - 1, m) && Permutation(pm.pole, m)
      invariant c.Valid() && j == JobOf(c, odd, typeB, sqrt)
      invariant s.i < |all| && all[s.i..] == Orbit(pm.pole, m)
      invariant Standing(s, j, worth, huge, all, m, pm.pole, c.filter.lcmp)
      decreases Power(m, m) - Number(pm.pole, m)
    {
      ghost var q := pm.pole;
      var more := NextOrder(pm, m);
      if !more {
        StandingEnds(s, j, worth, huge, all, m, q, c.filter.lcmp);
        break;
      }
      OrbitSecond(all, s.i, q, pm.pole, m);
      FollowsFrom(s, all, m, pm.pole);
      var done, t := Round(c, pm.pole, odd, typeB, sqrt, worth, huge, s, j, all, m, q);
      if done {
        FoundZeroIs(j, worth, all, m, c.filter.lcmp, None);
        return true, true, None;
      }
      s := t;
    }
    if s.kept.None? { return false, false, None; }
    SetOrder(c, s.kept.value, odd, typeB, sqrt, j);
    ok := SynthOnce(c, odd, typeB, sqrt, j);
    AfterBestFrom(j, worth, all, s.kept.value);
    return ok, false, s.kept;
  }

  method SetOrder(c: QfCauer, q: seq<nat>, odd: bool, typeB: bool, sqrt: real -> real, ghost j: Job)
    requires c.Valid() && j == JobOf(c, odd, typeB, sqrt)
    modifies c`pole
    ensures c.Valid() && j == JobOf(c, odd, typeB, sqrt) && c.pole == q
  {
    c.pole := q;
  }

  method NextOrder(pm: PoleOptimiser, m: nat) returns (more: bool)
    requires m > 0 && pm.Held(m - 1, m) && Permutation(pm.pole, m)
    modifies pm
    ensures more ==> pm.Held(m - 1, m) && Permutation(pm.pole, m)
    ensures more ==> Orbit(old(pm.pole), m) == [old(pm.pole)] + Orbit(pm.pole, m)
    ensures more ==> Number(old(pm.pole), m) < Number(pm.pole, m) < Power(m, m)
    ensures !more ==> Orbit(old(pm.pole), m) == [old(pm.pole)]
  {
    hide Orbit, PoleOrder.Next, Number, Injective, Marks;
    ghost var q := pm.pole;
    assert pm.pole[..m] == q;
    OrbitStep(q, m);
    more := pm.PoleIdxNext(m - 1, m, true);
    assert more ==> pm.pole[..m] == pm.pole;
  }

  lemma WorksIs(j: Job, worth: seq<Cmp> -> real, q: seq<nat>)
    ensures AllWork(j)(q) == Works(j, q)
    ensures Works(j, q) ==> AllWorth(j, worth)(q) == worth(LadderOf(j, q))
    ensures !Works(j, q) ==> AllWorth(j, worth)(q) == worth([])
  {
    hide Works, LadderOf;
  }
}
