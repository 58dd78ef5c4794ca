/** The evolution loop: mutation, evaluation and selection over two population arrays that are
    one and the same from the second generation on. */
module Evolution {
  import opened RealMath
  import opened Rounding
  import opened Mutation

  // ----- selection over two separate buffers: what the loop is meant to do -----

  /** A generation: the members, their costs, and the best vector so far. */
  datatype Generation = Generation(pop: seq<Vec>, cost: seq<real>, best: Vec)

  /** Every member after selection: its trial vector if that does not cost more. */
  function Selected(pop: seq<Vec>, cost: seq<real>, trials: seq<Vec>, tcost: seq<real>): (r: seq<Vec>)
    requires |pop| == |cost| == |trials| == |tcost|
    ensures |r| == |pop| && forall i :: 0 <= i < |pop| ==> r[i] == if tcost[i] <= cost[i] then trials[i] else pop[i]
  {
    seq(|pop|, i requires 0 <= i < |pop| => if tcost[i] <= cost[i] then trials[i] else pop[i])
  }

  function Lower(cost: seq<real>, tcost: seq<real>): (r: seq<real>)
    requires |cost| == |tcost|
    ensures |r| == |cost| && forall i :: 0 <= i < |cost| ==> r[i] == if tcost[i] <= cost[i] then tcost[i] else cost[i]
  {
    seq(|cost|, i requires 0 <= i < |cost| => if tcost[i] <= cost[i] then tcost[i] else cost[i])
  }

  /** The best vector after the first k trials: a trial replaces it only if it costs less. */
  ghost function BestOf(best: Vec, trials: seq<Vec>, k: nat, evaluate: Vec -> real): Vec
    requires k <= |trials|
    decreases k
  {
    if k == 0 then best
    else
      var b := BestOf(best, trials, k - 1, evaluate);
      if evaluate(trials[k - 1]) < evaluate(b) then trials[k - 1] else b
  }

  function Costs(rows: seq<Vec>, evaluate: Vec -> real): (r: seq<real>)
    ensures |r| == |rows| && forall i :: 0 <= i < |rows| ==> r[i] == evaluate(rows[i])
  {
    seq(|rows|, i requires 0 <= i < |rows| => evaluate(rows[i]))
  }

  /** The parameters of a run. */
  datatype Control = Control(np: int, d: int, strategy: int, f: real, cr: real)

  function SettingOf(g: Generation, k: Control): Setting {
    Setting(g.pop, g.best, k.np, k.d, k.strategy, k.f, k.cr)
  }

  /** Every cost is that of its member, and the best vector has the least of them. */
  ghost predicate Sound(g: Generation, k: Control, evaluate: Vec -> real) {
    && |g.pop| == k.np && g.cost == Costs(g.pop, evaluate)
    && k.np >= 1 && k.d >= 1 && Population(g.pop, k.np, k.d) && |g.best| == k.d
    && (forall i :: 0 <= i < k.np ==> evaluate(g.best) <= g.cost[i])
    && (exists i :: 0 <= i < k.np && g.cost[i] == evaluate(g.best))
  }

  /** One generation: every member has a trial vector made from the old generation alone, and
      selection is made between the two. */
  ghost predicate Step(g: Generation, h: Generation, k: Control, evaluate: Vec -> real, trials: seq<Vec>,
                       plans: seq<Plan>)
  {
    && |g.pop| == |g.cost| == |trials| == |plans| == k.np
    && (forall i :: 0 <= i < k.np ==> IsTrial(trials[i], SettingOf(g, k), i, plans[i]))
    && h.pop == Selected(g.pop, g.cost, trials, Costs(trials, evaluate))
    && h.cost == Lower(g.cost, Costs(trials, evaluate))
    && h.best == BestOf(g.best, trials, k.np, evaluate)
  }

  lemma {:induction false} BestIsLeast(best: Vec, trials: seq<Vec>, k: nat, evaluate: Vec -> real)
    requires k <= |trials|
    ensures var b := BestOf(best, trials, k, evaluate);
            evaluate(b) <= evaluate(best)
            && (forall i :: 0 <= i < k ==> evaluate(b) <= evaluate(trials[i]))
            && (b == best || exists i :: 0 <= i < k && b == trials[i])
    decreases k
  {
    if k > 0 { BestIsLeast(best, trials, k - 1, evaluate); }
  }

  /** The best changes only to a trial that costs less than it did, and then to the first of the
      trials with the least cost. */
  lemma {:induction false} BestIsFirst(best: Vec, trials: seq<Vec>, k: nat, evaluate: Vec -> real)
    requires k <= |trials|
    ensures var b := BestOf(best, trials, k, evaluate);
            if exists i :: 0 <= i < k && evaluate(trials[i]) < evaluate(best) then
              exists i :: 0 <= i < k && b == trials[i] && evaluate(b) < evaluate(best)
                          && forall j :: 0 <= j < i ==> evaluate(b) < evaluate(trials[j])
            else b == best
    decreases k
  {
    if k > 0 {
      BestIsFirst(best, trials, k - 1, evaluate);
      BestIsLeast(best, trials, k - 1, evaluate);
      var b, t := BestOf(best, trials, k - 1, evaluate), trials[k - 1];
      if evaluate(t) < evaluate(b) {
        assert evaluate(t) < evaluate(best);
      } else if evaluate(t) < evaluate(best) {
        assert evaluate(b) < evaluate(best);
      }
    }
  }

  /** What selection does to each member and to the best: a trial vector takes the place of its member
      if it costs no more, equal costs included, and that of the best only if it costs less. */
  lemma StepSelects(g: Generation, h: Generation, k: Control, evaluate: Vec -> real, trials: seq<Vec>, plans: seq<Plan>)
    requires Sound(g, k, evaluate) && Step(g, h, k, evaluate, trials, plans)
    ensures |h.pop| == |h.cost| == |g.pop| == |trials| == k.np
    ensures forall i :: 0 <= i < k.np ==>
              h.pop[i] == if evaluate(trials[i]) <= evaluate(g.pop[i]) then trials[i] else g.pop[i]
    ensures if exists i :: 0 <= i < k.np && evaluate(trials[i]) < evaluate(g.best) then
              exists i :: 0 <= i < k.np && h.best == trials[i] && evaluate(h.best) < evaluate(g.best)
                          && forall j :: 0 <= j < i ==> evaluate(h.best) < evaluate(trials[j])
            else h.best == g.best
  {
    BestIsFirst(g.best, trials, k.np, evaluate);
    hide IsTrial, BestOf;
  }

  lemma TrialsHaveLength(trials: seq<Vec>, plans: seq<Plan>, s: Setting, n: nat)
    requires n <= |trials| && n <= |plans| && forall i :: 0 <= i < n ==> IsTrial(trials[i], s, i, plans[i])
    ensures forall i :: 0 <= i < n ==> |trials[i]| == s.d
  {
    forall i | 0 <= i < n ensures |trials[i]| == s.d {
      assert IsTrial(trials[i], s, i, plans[i]);
      CrossedLength(trials[i], s, plans[i].picks, i, plans[i].changed);
    }
  }

  lemma SelectionKeepsCosts(pop: seq<Vec>, trials: seq<Vec>, evaluate: Vec -> real)
    requires |pop| == |trials|
    ensures var c, t := Costs(pop, evaluate), Costs(trials, evaluate);
            Lower(c, t) == Costs(Selected(pop, c, trials, t), evaluate)
  {
  }

  lemma SelectionKeepsLength(pop: seq<Vec>, cost: seq<real>, trials: seq<Vec>, tcost: seq<real>, d: int)
    requires |pop| == |cost| == |trials| == |tcost|
    requires forall i :: 0 <= i < |pop| ==> |pop[i]| == d
    requires forall i :: 0 <= i < |trials| ==> |trials[i]| == d
    ensures forall i :: 0 <= i < |pop| ==> |Selected(pop, cost, trials, tcost)[i]| == d
  {
  }

  /** The best of the new generation has the least cost of all, and one member has it. */
  lemma BestOfGeneration(pop: seq<Vec>, trials: seq<Vec>, best: Vec, evaluate: Vec -> real, n: nat)
    requires |pop| == |trials| == n
    requires forall i :: 0 <= i < n ==> evaluate(best) <= evaluate(pop[i])
    requires exists i :: 0 <= i < n && evaluate(pop[i]) == evaluate(best)
    ensures var b, l := BestOf(best, trials, n, evaluate), Lower(Costs(pop, evaluate), Costs(trials, evaluate));
            evaluate(b) <= evaluate(best)
            && (forall i :: 0 <= i < n ==> evaluate(b) <= l[i])
            && (exists i :: 0 <= i < n && l[i] == evaluate(b))
  {
    BestIsLeast(best, trials, n, evaluate);
    var b, l := BestOf(best, trials, n, evaluate), Lower(Costs(pop, evaluate), Costs(trials, evaluate));
    hide BestOf;
    var i :| 0 <= i < n && (if b == best then evaluate(pop[i]) == evaluate(best) else b == trials[i]);
    assert l[i] == evaluate(b);
  }

  /** Every generation is sound after a sound one, no member and not the best costs more than
      before. */
  lemma StepIsSound(g: Generation, h: Generation, k: Control, evaluate: Vec -> real, trials: seq<Vec>, plans: seq<Plan>)
    requires Sound(g, k, evaluate) && Step(g, h, k, evaluate, trials, plans)
    ensures Sound(h, k, evaluate)
    ensures forall i :: 0 <= i < k.np ==> h.cost[i] <= g.cost[i]
    ensures evaluate(h.best) <= evaluate(g.best)
  {
    TrialsHaveLength(trials, plans, SettingOf(g, k), k.np);
    BestIsLeast(g.best, trials, k.np, evaluate);
    SoundMembers(g, k, evaluate);
    hide IsTrial, BestOf, Sound;
    SelectionKeepsCosts(g.pop, trials, evaluate);
    SelectionKeepsLength(g.pop, g.cost, trials, Costs(trials, evaluate), k.d);
    BestOfGeneration(g.pop, trials, g.best, evaluate, k.np);
    SoundFrom(h, k, evaluate);
  }

  lemma SoundMembers(g: Generation, k: Control, evaluate: Vec -> real)
    requires Sound(g, k, evaluate)
    ensures |g.pop| == |g.cost| == k.np >= 1 && k.d >= 1 && g.cost == Costs(g.pop, evaluate) && |g.best| == k.d
    ensures forall i :: 0 <= i < k.np ==> |g.pop[i]| == k.d && evaluate(g.best) <= evaluate(g.pop[i])
    ensures exists i :: 0 <= i < k.np && evaluate(g.pop[i]) == evaluate(g.best)
  {
    var i :| 0 <= i < k.np && g.cost[i] == evaluate(g.best);
    assert evaluate(g.pop[i]) == evaluate(g.best);
  }

  lemma SoundFrom(g: Generation, k: Control, evaluate: Vec -> real)
    requires |g.pop| == |g.cost| == k.np >= 1 && k.d >= 1 && g.cost == Costs(g.pop, evaluate) && |g.best| == k.d
    requires forall i :: 0 <= i < k.np ==> |g.pop[i]| == k.d && evaluate(g.best) <= g.cost[i]
    requires exists i :: 0 <= i < k.np && g.cost[i] == evaluate(g.best)
    ensures Sound(g, k, evaluate)
  {
  }

  // ----- runs -----

  ghost predicate Steps(history: seq<Generation>, k: Control, evaluate: Vec -> real) {
    forall g :: 0 < g < |history| ==> Follows(history[g - 1], history[g], k, evaluate)
  }

  ghost predicate Follows(g: Generation, h: Generation, k: Control, evaluate: Vec -> real) {
    exists trials, plans :: Step(g, h, k, evaluate, trials, plans)
  }

  /** Over a whole run: every generation is sound, and costs never rise from any generation to any
      later one. */
  lemma {:induction false} CostsNeverRise(history: seq<Generation>, k: Control, evaluate: Vec -> real, a: nat, b: nat)
    requires a <= b < |history| && Steps(history, k, evaluate) && Sound(history[0], k, evaluate)
    ensures Sound(history[a], k, evaluate) && Sound(history[b], k, evaluate)
    ensures forall i :: 0 <= i < k.np ==> history[b].cost[i] <= history[a].cost[i]
    ensures evaluate(history[b].best) <= evaluate(history[a].best)
    decreases b
  {
    hide Step, Sound;
    if b > 0 {
      CostsNeverRise(history, k, evaluate, if a < b then a else b - 1, b - 1);
      assert Follows(history[b - 1], history[b], k, evaluate);
      var trials, plans :| Step(history[b - 1], history[b], k, evaluate, trials, plans);
      StepIsSound(history[b - 1], history[b], k, evaluate, trials, plans);
      SoundLengths(history[b - 1], k, evaluate);
      SoundLengths(history[b], k, evaluate);
      SoundLengths(history[a], k, evaluate);
    } else {
      SoundLengths(history[0], k, evaluate);
    }
  }

  lemma SoundLengths(g: Generation, k: Control, evaluate: Vec -> real)
    requires Sound(g, k, evaluate)
    ensures |g.cost| == |g.pop| == k.np
  {
  }

  // ----- the stopping criterion -----

  function Square(x: real): real {
    x * x
  }

  function SquaresOf(s: seq<real>, mean: real): real {
    if s == [] then 0.0 else SquaresOf(s[..|s| - 1], mean) + Square(s[|s| - 1] - mean)
  }

  function Variance(s: seq<real>): real
    requires |s| >= 2
  {
    SquaresOf(s, Sum(s) / |s| as real) / (|s| - 1) as real
  }

  lemma {:induction false} SquaresAreNotNegative(s: seq<real>, mean: real)
    ensures SquaresOf(s, mean) >= 0.0
    ensures SquaresOf(s, mean) == 0.0 <==> forall i :: 0 <= i < |s| ==> s[i] == mean
    decreases |s|
  {
    if s != [] {
      var n := |s| - 1;
      SquaresAreNotNegative(s[..n], mean);
      SquareSign(s[n] - mean);
      assert forall i :: 0 <= i < n ==> s[..n][i] == s[i];
    }
  }

  lemma SquareSign(x: real)
    ensures x * x >= 0.0 && (x * x == 0.0 <==> x == 0.0)
  {
    if x != 0.0 { ProductNonZero(x, x, x * x); }
  }

  lemma VarianceStart(s: seq<real>)
    ensures Sum(s[..0]) == 0.0 && forall m :: SquaresOf(s[..0], m) == 0.0
  {
  }

  lemma VarianceNext(s: seq<real>, j: nat, mean: real)
    requires j < |s|
    ensures Sum(s[..j + 1]) == Sum(s[..j]) + s[j]
    ensures SquaresOf(s[..j + 1], mean) == SquaresOf(s[..j], mean) + Square(s[j] - mean)
  {
    assert s[..j + 1][..j] == s[..j];
  }

  lemma {:induction false} SumEqual(s: seq<real>, v: real)
    requires forall i :: 0 <= i < |s| ==> s[i] == v
    ensures Sum(s) == |s| as real * v
    decreases |s|
  {
    if s != [] {
      SumEqual(s[..|s| - 1], v);
      assert (|s| - 1) as real * v + v == |s| as real * v;
    }
  }

  /** The variance is never negative, and it is zero exactly when all costs are equal. */
  lemma VarianceMeans(s: seq<real>)
    requires |s| >= 2
    ensures Variance(s) >= 0.0
    ensures Variance(s) == 0.0 <==> forall i :: 0 <= i < |s| ==> s[i] == s[0]
  {
    var mean, m := Sum(s) / |s| as real, (|s| - 1) as real;
    SquaresAreNotNegative(s, mean);
    if forall i :: 0 <= i < |s| ==> s[i] == s[0] {
      SumEqual(s, s[0]);
      DivideUnique(Sum(s), |s| as real, s[0]);
    }
    assert Variance(s) * m == SquaresOf(s, mean);
    if SquaresOf(s, mean) > 0.0 {
      QuotientPositive(SquaresOf(s, mean), m, Variance(s));
    } else {
      DivideUnique(0.0, m, 0.0);
    }
  }

  /** The square of the distance of v from x. */
  function Gap(v: real, x: real): real {
    (v - x) * (v - x)
  }

  function SquaredGaps(s: seq<real>, v: real): real {
    if s == [] then 0.0 else SquaredGaps(s[..|s| - 1], v) + Gap(v, s[|s| - 1])
  }

  /** The squares of the distances of all numbers of t from all numbers of s. */
  function AllSquaredGaps(t: seq<real>, s: seq<real>): real {
    if t == [] then 0.0 else AllSquaredGaps(t[..|t| - 1], s) + SquaredGaps(s, t[|t| - 1])
  }

  function SquaredSum(s: seq<real>): real {
    if s == [] then 0.0 else SquaredSum(s[..|s| - 1]) + Square(s[|s| - 1])
  }

  /** n v^2 - 2 v r + q */
  function Expanded(n: real, v: real, r: real, q: real): real {
    n * (v * v) - 2.0 * (v * r) + q
  }

  /** n q - 2 r s + m p */
  function Crossed(n: real, q: real, r: real, s: real, m: real, p: real): real {
    n * q - 2.0 * (r * s) + m * p
  }

  lemma {:induction false} GapsExpand(s: seq<real>, v: real, n: real)
    requires n == |s| as real
    ensures SquaredGaps(s, v) == Expanded(n, v, Sum(s), SquaredSum(s))
    ensures SquaresOf(s, v) == SquaredGaps(s, v)
    decreases |s|
  {
    hide Gap, Square, Expanded;
    if s == [] {
      NothingExpanded(v);
    } else {
      var t, x := s[..|s| - 1], s[|s| - 1];
      GapsExpand(t, v, n - 1.0);
      ExpandStep(n, v, x, Sum(t), SquaredSum(t));
    }
  }

  lemma NothingExpanded(v: real)
    ensures Expanded(0.0, v, 0.0, 0.0) == 0.0
  {
  }

  lemma ExpandStep(n: real, v: real, x: real, r: real, q: real)
    ensures Expanded(n - 1.0, v, r, q) + Gap(v, x) == Expanded(n, v, r + x, q + Square(x))
    ensures Square(x - v) == Gap(v, x)
  {
  }

  lemma {:induction false} AllGapsExpand(t: seq<real>, s: seq<real>, m: real, n: real)
    requires m == |t| as real && n == |s| as real
    ensures AllSquaredGaps(t, s) == Crossed(n, SquaredSum(t), Sum(t), Sum(s), m, SquaredSum(s))
    decreases |t|
  {
    hide Square, Expanded, Crossed, SquaredGaps;
    if t == [] {
      NothingCrossed(n, Sum(s), SquaredSum(s));
    } else {
      var r, v := t[..|t| - 1], t[|t| - 1];
      AllGapsExpand(r, s, m - 1.0, n);
      GapsExpand(s, v, n);
      CrossStep(m, n, v, SquaredSum(r), Sum(r), Sum(s), SquaredSum(s));
    }
  }

  lemma NothingCrossed(n: real, s: real, p: real)
    ensures Crossed(n, 0.0, 0.0, s, 0.0, p) == 0.0
  {
  }

  lemma CrossStep(m: real, n: real, v: real, q: real, r: real, s: real, p: real)
    ensures Crossed(n, q, r, s, m - 1.0, p) + Expanded(n, v, s, p) == Crossed(n, q + Square(v), r + v, s, m, p)
  {
  }

  /** 2 n (n - 1) v */
  function TimesPairs(n: real, v: real): real {
    2.0 * n * (n - 1.0) * v
  }

  lemma VarianceTimes(s: seq<real>, n: real) returns (mean: real)
    requires |s| >= 2 && n == |s| as real
    ensures Portioned(mean, n, Sum(s)) && Portioned(Variance(s), n - 1.0, SquaresOf(s, mean))
  {
    hide SquaresOf, Sum;
    mean := Sum(s) / n;
    DivideBack(Sum(s), n);
    DivideBack(SquaresOf(s, mean), n - 1.0);
  }

  ghost predicate Portioned(v: real, n: real, whole: real) {
    v * n == whole
  }

  /** Without a mean: 2 n (n - 1) times the variance is the sum of the squared distances of all pairs. */
  lemma VarianceOfPairs(s: seq<real>, n: real)
    requires |s| >= 2 && n == |s| as real
    ensures TimesPairs(n, Variance(s)) == AllSquaredGaps(s, s)
  {
    hide *;
    var mean := VarianceTimes(s, n);
    GapsExpand(s, mean, n);
    AllGapsExpand(s, s, n, n);
    PairsExpand(n, mean, Sum(s), SquaredSum(s), Variance(s));
  }

  lemma PairsExpand(n: real, mean: real, r: real, q: real, v: real)
    requires Portioned(mean, n, r) && Portioned(v, n - 1.0, Expanded(n, mean, r, q))
    ensures TimesPairs(n, v) == Crossed(n, q, r, r, n, q)
  {
    assert n * (n * (mean * mean)) == r * r by { assert n * (n * (mean * mean)) == (mean * n) * (mean * n); }
    assert n * (mean * r) == r * r by { assert n * (mean * r) == (mean * n) * r; }
    var e := Expanded(n, mean, r, q);
    calc {
      2.0 * n * (n - 1.0) * v;
      2.0 * n * (v * (n - 1.0));
      2.0 * (n * e);
      2.0 * (n * (n * (mean * mean)) - 2.0 * (n * (mean * r)) + n * q);
      2.0 * (n * q - r * r);
    }
  }

  // ----- the random numbers a run uses -----

  /** The position on the tape after the trial vectors of the members from i on. */
  function AfterTrials(values: seq<real>, from: nat, i: nat, k: Control): nat
    requires k.d >= 0
    decreases k.np - i
  {
    if i >= k.np then from
    else
      var e := AfterTrial(values, from, i, k.np, k.d, k.strategy, k.cr);
      if e > |values| then e else AfterTrials(values, e, i + 1, k)
  }

  /** The position after n generations. */
  function AfterGenerations(values: seq<real>, from: nat, k: Control, n: nat): nat
    requires k.d >= 0
    decreases n
  {
    if n == 0 then from
    else
      var e := AfterGenerations(values, from, k, n - 1);
      if e > |values| then e else AfterTrials(values, e, 0, k)
  }

  /** Every coordinate of the row is its random number, from the unit interval spread over -10 .. 10. */
  ghost predicate SpreadBy(row: Vec, values: seq<real>, from: nat) {
    from + |row| <= |values| && forall j :: 0 <= j < |row| ==> row[j] == -10.0 + 20.0 * values[from + j]
  }

  /** Row after row. */
  ghost predicate AllSpreadBy(rows: seq<Vec>, d: nat, values: seq<real>, from: nat) {
    forall i :: 0 <= i < |rows| ==> |rows[i]| == d && SpreadBy(rows[i], values, from + i * d)
  }

  // ----- the program -----

  class Optimiser {
    const k: Control
    const c: array<Vec>
    const d: array<Vec>
    const tmp: array<Vec>
    const cost: array<real>
    const trialCost: array<real>
    var pold: array<Vec>
    var pnew: array<Vec>
    var best: Vec
    var bestit: Vec
    var cmin: real
    var nfeval: nat

    /** The two population arrays are separate during the first generation, and both names stand
        for the second one afterwards. */
    ghost predicate Valid()
      reads this
    {
      && c != d && tmp != c && tmp != d && cost != trialCost
      && k.np >= 2 && k.d >= 1
      && k.np <= c.Length && k.np <= d.Length && k.np <= tmp.Length && k.np <= cost.Length && k.np <= trialCost.Length
      && ((pold == c && pnew == d) || (pold == d && pnew == d))
    }

    ghost function Now(): Generation
      reads this, pold, cost
      requires Valid()
    {
      Generation(pold[..k.np], cost[..k.np], best)
    }

    ghost predicate Consistent(evaluate: Vec -> real)
      reads this, pold, cost
    {
      Valid() && Sound(Now(), k, evaluate) && cmin == evaluate(best) && bestit == best
    }

    constructor (k: Control)
      requires k.np >= 2 && k.d >= 1
      ensures this.k == k && Valid() && pold == c && fresh(c)
      ensures fresh(d) && fresh(tmp) && fresh(cost) && fresh(trialCost)
      ensures nfeval == 0
    {
      this.k := k;
      var first, second := new Vec[k.np](_ => []), new Vec[k.np](_ => []);
      c, d, pold, pnew := first, second, first, second;
      tmp := new Vec[k.np](_ => []);
      cost := new real[k.np];
      trialCost := new real[k.np];
      best, bestit, cmin, nfeval := [], [], 0.0, 0;
    }

    /** Make a trial vector for every member. */
    method Mutate(tape: Tape) returns (ok: bool, ghost plans: seq<Plan>)
      requires Valid() && tape.Valid() && Ready(SettingOf(Now(), k)) && bestit == best
      modifies tape, tmp
      ensures tape.Valid() && ok == (AfterTrials(tape.values, old(tape.pos), 0, k) <= |tape.values|)
      ensures ok ==> tape.pos == AfterTrials(tape.values, old(tape.pos), 0, k)
      ensures !ok ==> tape.pos == |tape.values|
      ensures ok ==> |plans| == k.np && forall i :: 0 <= i < k.np ==> IsTrial(tmp[i], SettingOf(Now(), k), i, plans[i])
      ensures ok ==> AllPlanned(tape.values, old(tape.pos), SettingOf(Now(), k), plans, tape.pos)
    {
      hide IsTrial, Ready, AfterTrial, Planned;
      plans := [];
      var s := Setting(pold[..k.np], bestit, k.np, k.d, k.strategy, k.f, k.cr);
      assert s == SettingOf(Now(), k);
      for i := 0 to k.np
        invariant tape.Valid() && |plans| == i
        invariant AfterTrials(tape.values, old(tape.pos), 0, k) == AfterTrials(tape.values, tape.pos, i, k)
        invariant s == SettingOf(Now(), k)
        invariant forall j :: 0 <= j < i ==> IsTrial(tmp[j], s, j, plans[j])
        invariant AllPlanned(tape.values, old(tape.pos), s, plans, tape.pos)
      {
        ghost var from := tape.pos;
        var row;
        ghost var plan;
        ok, row, plan := Trial(tape, s, i);
        if !ok { return; }
        tmp[i] := row;
        AllPlannedNext(tape.values, old(tape.pos), s, plans, from, plan, tape.pos);
        plans := plans + [plan];
      }
      ok := true;
    }

    /** Evaluate every trial vector. */
    method EvaluateTrials(evaluate: Vec -> real)
      requires Valid()
      modifies trialCost, `nfeval
      ensures forall i :: 0 <= i < k.np ==> trialCost[i] == evaluate(tmp[i])
      ensures nfeval == old(nfeval) + k.np
    {
      for i := 0 to k.np
        invariant forall j :: 0 <= j < i ==> trialCost[j] == evaluate(tmp[j])
        invariant nfeval == old(nfeval) + i
      {
        nfeval := nfeval + 1;
        trialCost[i] := evaluate(tmp[i]);
      }
    }

    /** Select between one member and its trial vector. */
    method SelectOne(i: nat)
      requires Valid() && i < k.np
      modifies cost, pnew, `best, `cmin
      ensures Valid() && pnew == old(pnew) && pold == old(pold)
      ensures pnew[..k.np] == old(pnew[..k.np][i := if trialCost[i] <= cost[i] then tmp[i] else pold[i]])
      ensures forall j :: i < j < k.np ==> pold[j] == old(pold[j])
      ensures cost[..k.np] == old(cost[..k.np][i := if trialCost[i] <= cost[i] then trialCost[i] else cost[i]])
      ensures if trialCost[i] <= old(cost[i]) && trialCost[i] < old(cmin) then best == tmp[i] && cmin == trialCost[i]
              else best == old(best) && cmin == old(cmin)
    {
      if trialCost[i] <= cost[i] {
        cost[i] := trialCost[i];
        pnew[i] := tmp[i];
        if trialCost[i] < cmin {
          cmin := trialCost[i];
          best := tmp[i];
        }
      } else {
        pnew[i] := pold[i];
      }
    }

    /** The selection loop. */
    method SelectAll(evaluate: Vec -> real, ghost g: Generation, ghost trials: seq<Vec>)
      requires Valid() && |g.pop| == k.np
      requires Halfway(0, pnew[..k.np], pold[..k.np], cost[..k.np], best, g, trials, evaluate)
      requires trials == tmp[..k.np] && cmin == evaluate(best)
      requires forall i :: 0 <= i < k.np ==> trialCost[i] == evaluate(tmp[i])
      requires |g.cost| == k.np && forall j :: 0 <= j < k.np ==> evaluate(g.best) <= g.cost[j]
      modifies cost, pnew, `best, `cmin
      ensures Valid() && pnew == old(pnew) && pold == old(pold) && cmin == evaluate(best)
      ensures Halfway(k.np, pnew[..k.np], pold[..k.np], cost[..k.np], best, g, trials, evaluate)
    {
      hide Halfway;
      ghost var np := k.np;
      for i := 0 to k.np
        invariant Valid() && pnew == old(pnew) && pold == old(pold)
        invariant Halfway(i, pnew[..np], pold[..np], cost[..np], best, g, trials, evaluate) && cmin == evaluate(best)
      {
        ghost var news, olds, costs, b := pnew[..np], pold[..np], cost[..np], best;
        SelectOne(i);
        HalfwayNext(i, news, olds, costs, b, pnew[..np], pold[..np], cost[..np], best, g, trials, evaluate);
      }
    }

    /** Select between members and trial vectors, whether the two population arrays are the same or
        not: the old generation's name stands for the selected members afterwards. */
    method Select(evaluate: Vec -> real, ghost g: Generation, ghost trials: seq<Vec>, ghost plans: seq<Plan>)
      requires Consistent(evaluate) && g == Now() && trials == tmp[..k.np] && |plans| == k.np
      requires forall i :: 0 <= i < k.np ==> trialCost[i] == evaluate(tmp[i])
      requires forall i :: 0 <= i < k.np ==> IsTrial(tmp[i], SettingOf(g, k), i, plans[i])
      modifies this, cost, pnew
      ensures Valid() && nfeval == old(nfeval)
      ensures Step(g, Now(), k, evaluate, trials, plans) && cmin == evaluate(best) && bestit == best
    {
      SoundMembers(g, k, evaluate);
      BestBelowCosts(g, k, evaluate);
      HalfwayStart(pnew[..k.np], pold[..k.np], g, trials, evaluate);
      hide Halfway, Sound, BestOf, IsTrial, Step, Selected, Lower, Costs, SettingOf;
      SelectAll(evaluate, g, trials);
      ghost var news := pnew[..k.np];
      HalfwayEnd(news, pold[..k.np], cost[..k.np], best, g, trials, evaluate);
      bestit := best;
      pold := pnew;
      StepFrom(g, Now(), k, evaluate, trials, plans);
    }

    /** Selection leads to a sound generation again. */
    method Settle(evaluate: Vec -> real, ghost g: Generation, ghost trials: seq<Vec>, ghost plans: seq<Plan>)
      requires Consistent(evaluate) && g == Now() && trials == tmp[..k.np] && |plans| == k.np
      requires forall i :: 0 <= i < k.np ==> trialCost[i] == evaluate(tmp[i])
      requires forall i :: 0 <= i < k.np ==> IsTrial(tmp[i], SettingOf(g, k), i, plans[i])
      modifies this, cost, pnew
      ensures Consistent(evaluate) && Step(g, Now(), k, evaluate, trials, plans) && nfeval == old(nfeval)
    {
      hide Step, Sound, IsTrial, SettingOf;
      Select(evaluate, g, trials, plans);
      StepIsSound(g, Now(), k, evaluate, trials, plans);
    }

    /** Make the trial vectors, and evaluate them. */
    method Propose(tape: Tape, evaluate: Vec -> real) returns (ok: bool, ghost plans: seq<Plan>)
      requires Valid() && tape.Valid() && Ready(SettingOf(Now(), k)) && bestit == best
      modifies tape, tmp, trialCost, `nfeval
      ensures tape.Valid() && ok == (AfterTrials(tape.values, old(tape.pos), 0, k) <= |tape.values|)
      ensures ok ==> tape.pos == AfterTrials(tape.values, old(tape.pos), 0, k)
      ensures !ok ==> tape.pos == |tape.values|
      ensures Valid() && Now() == old(Now())
      ensures ok ==> |plans| == k.np && forall i :: 0 <= i < k.np ==> IsTrial(tmp[i], SettingOf(Now(), k), i, plans[i])
      ensures ok ==> AllPlanned(tape.values, old(tape.pos), SettingOf(Now(), k), plans, tape.pos)
      ensures ok ==> nfeval == old(nfeval) + k.np && forall i :: 0 <= i < k.np ==> trialCost[i] == evaluate(tmp[i])
    {
      hide IsTrial, Ready, SettingOf, AfterTrials, AllPlanned;
      ok, plans := Mutate(tape);
      if !ok { return; }
      EvaluateTrials(evaluate);
    }

    /** One generation of the program is one step of the two-buffer machine. */
    method NextGeneration(tape: Tape, evaluate: Vec -> real)
      returns (ok: bool, ghost trials: seq<Vec>, ghost plans: seq<Plan>)
      requires Consistent(evaluate) && tape.Valid()
      modifies this, c, d, tmp, cost, trialCost, tape
      ensures tape.Valid() && ok == (AfterTrials(tape.values, old(tape.pos), 0, k) <= |tape.values|)
      ensures ok ==> tape.pos == AfterTrials(tape.values, old(tape.pos), 0, k)
      ensures !ok ==> tape.pos == |tape.values|
      ensures ok ==> Consistent(evaluate) && Step(old(Now()), Now(), k, evaluate, trials, plans)
      ensures ok ==> AllPlanned(tape.values, old(tape.pos), SettingOf(old(Now()), k), plans, tape.pos)
      ensures ok ==> nfeval == old(nfeval) + k.np
    {
      ghost var g := Now();
      trials := [];
      SoundIsReady(g, k, evaluate);
      hide AllPlanned, Step, Sound, IsTrial, Ready, SettingOf, AfterTrials;
      ok, plans := Propose(tape, evaluate);
      if !ok { return; }
      trials := tmp[..k.np];
      Settle(evaluate, g, trials, plans);
    }

    /** A random member, every coordinate between the initial bounds -10 and 10. */
    method RandomMember(tape: Tape) returns (ok: bool, row: Vec)
      requires Valid() && tape.Valid()
      modifies tape
      ensures tape.Valid() && ok == (old(tape.pos) + k.d <= |tape.values|)
      ensures ok ==> tape.pos == old(tape.pos) + k.d
      ensures ok ==> |row| == k.d && forall j :: 0 <= j < k.d ==> -10.0 < row[j] < 10.0
      ensures ok ==> SpreadBy(row, tape.values, old(tape.pos))
      ensures !ok ==> tape.pos == |tape.values|
    {
      row := [];
      for j := 0 to k.d
        invariant tape.Valid() && tape.pos == old(tape.pos) + j
        invariant |row| == j && forall q :: 0 <= q < j ==> -10.0 < row[q] < 10.0
        invariant SpreadBy(row, tape.values, old(tape.pos))
      {
        var x;
        ok, x := tape.Draw();
        if !ok { return; }
        row := row + [-10.0 + x * 20.0];
      }
      ok := true;
    }

    /** The first generation: random members and their costs. */
    method Spread(tape: Tape, evaluate: Vec -> real) returns (ok: bool)
      requires Valid() && pold == c && tape.Valid()
      modifies tape, c, cost, `nfeval
      ensures tape.Valid() && Valid() && pold == c
      ensures ok == (old(tape.pos) + k.np * k.d <= |tape.values|)
      ensures tape.pos == if ok then old(tape.pos) + k.np * k.d else |tape.values|
      ensures ok ==> forall i :: 0 <= i < k.np ==>
                |c[i]| == k.d && cost[i] == evaluate(c[i]) && forall j :: 0 <= j < k.d ==> -10.0 < c[i][j] < 10.0
      ensures ok ==> nfeval == old(nfeval) + k.np
      ensures ok ==> AllSpreadBy(c[..k.np], k.d, tape.values, old(tape.pos))
    {
      hide SpreadBy;
      for i := 0 to k.np
        invariant tape.Valid() && Valid() && pold == c && nfeval == old(nfeval)
        invariant tape.pos == old(tape.pos) + i * k.d
        invariant AllSpreadBy(c[..i], k.d, tape.values, old(tape.pos))
        invariant forall q :: 0 <= q < i ==> |c[q]| == k.d && forall j :: 0 <= j < k.d ==> -10.0 < c[q][j] < 10.0
      {
        NextRow(i, k.np, k.d);
        var row;
        ok, row := RandomMember(tape);
        if !ok { return; }
        ghost var before := c[..i];
        c[i] := row;
        assert c[..i + 1] == before + [row];
      }
      ghost var rows := c[..];
      for i := 0 to k.np
        invariant c[..] == rows && tape.pos == old(tape.pos) + k.np * k.d
        invariant tape.Valid() && Valid() && pold == c && nfeval == old(nfeval) + i
        invariant forall q :: 0 <= q < i ==> cost[q] == evaluate(c[q])
      {
        nfeval := nfeval + 1;
        cost[i] := evaluate(c[i]);
      }
      ok := true;
    }

    /** The index of the first of the lowest costs. */
    method Lowest() returns (imin: nat, low: real)
      requires Valid()
      ensures imin < k.np && low == cost[imin]
      ensures forall i :: 0 <= i < k.np ==> cost[imin] <= cost[i]
      ensures forall i :: 0 <= i < imin ==> cost[imin] < cost[i]
    {
      imin, low := 0, cost[0];
      for i := 1 to k.np
        invariant imin < i && low == cost[imin]
        invariant forall j :: 0 <= j < i ==> cost[imin] <= cost[j]
        invariant forall j :: 0 <= j < imin ==> cost[imin] < cost[j]
      {
        if cost[i] < low { imin, low := i, cost[i]; }
      }
    }

    method Start(tape: Tape, evaluate: Vec -> real) returns (ok: bool)
      requires Valid() && pold == c && tape.Valid()
      modifies this, tape, c, cost
      ensures tape.Valid() && ok == (old(tape.pos) + k.np * k.d <= |tape.values|)
      ensures tape.pos == if ok then old(tape.pos) + k.np * k.d else |tape.values|
      ensures ok ==> Consistent(evaluate) && nfeval == old(nfeval) + k.np
      ensures ok ==> AllSpreadBy(Now().pop, k.d, tape.values, old(tape.pos))
    {
      hide AllSpreadBy;
      ok := Spread(tape, evaluate);
      if !ok { return; }
      var imin, low := Lowest();
      cmin, best, bestit := low, c[imin], c[imin];
      assert Now().cost[imin] == evaluate(best);
      assert Now().cost == Costs(Now().pop, evaluate);
    }

    method CostMean() returns (mean: real)
      requires Valid()
      ensures mean == Sum(cost[..k.np]) / k.np as real
    {
      ghost var s := cost[..k.np];
      hide Sum;
      VarianceStart(s);
      mean := 0.0;
      for j := 0 to k.np
        invariant mean == Sum(s[..j])
      {
        VarianceNext(s, j, 0.0);
        mean := mean + cost[j];
      }
      assert s[..k.np] == s;
      mean := mean / k.np as real;
    }

    /** The variance of the costs, as the program computes it. */
    method CostVariance() returns (cvar: real)
      requires Valid()
      ensures cvar == Variance(cost[..k.np])
    {
      ghost var s := cost[..k.np];
      var mean := CostMean();
      hide Sum, SquaresOf, Square;
      VarianceStart(s);
      cvar := 0.0;
      for j := 0 to k.np
        invariant cvar == SquaresOf(s[..j], mean)
      {
        VarianceNext(s, j, mean);
        cvar := cvar + Square(cost[j] - mean);
      }
      assert s[..k.np] == s;
      cvar := cvar / (k.np - 1) as real;
    }

    /** One more generation, and the variance of its costs. */
    method Advance(tape: Tape, evaluate: Vec -> real, ghost history: seq<Generation>, ghost cvarmin: real)
      returns (ok: bool, cvar: real, ghost longer: seq<Generation>)
      requires Consistent(evaluate) && tape.Valid() && IsRun(history, Now(), k, evaluate, cvarmin)
      requires |history| == 1 || Varied(Now(), cvarmin)
      modifies this, c, d, tmp, cost, trialCost, tape
      ensures tape.Valid() && ok == (AfterTrials(tape.values, old(tape.pos), 0, k) <= |tape.values|)
      ensures ok ==> tape.pos == AfterTrials(tape.values, old(tape.pos), 0, k)
      ensures !ok ==> tape.pos == |tape.values| && longer == history
      ensures ok ==> Consistent(evaluate) && IsRun(longer, Now(), k, evaluate, cvarmin) && |longer| == |history| + 1
      ensures ok ==> (cvar > cvarmin <==> Varied(Now(), cvarmin)) && nfeval == old(nfeval) + k.np
    {
      hide Sound, Step, IsRun, Variance, AfterTrials;
      longer, cvar := history, 0.0;
      ghost var g := Now();
      ghost var trials, plans;
      ok, trials, plans := NextGeneration(tape, evaluate);
      if !ok { return; }
      RunNext(history, g, Now(), k, evaluate, cvarmin, trials, plans);
      longer := history + [Now()];
      cvar := CostVariance();
    }

    /** A whole uninterrupted run.  It is a run of the two-buffer machine from a sound generation,
        and it stops at the first generation whose costs vary by no more than cvarmin.  Without
        interruption it fails only when the random numbers end within a generation it needs. */
    method Run(tape: Tape, evaluate: Vec -> real, genmax: nat, cvarmin: real, ceiling: real)
      returns (ok: bool, gen: nat, ghost history: seq<Generation>)
      requires Valid() && pold == c && tape.Valid() && nfeval == 0 && ceiling > cvarmin
      modifies this, c, d, tmp, cost, trialCost, tape
      ensures ok ==> Consistent(evaluate) && |history| == gen + 1 && IsRun(history, Now(), k, evaluate, cvarmin)
      ensures ok ==> gen <= genmax && nfeval == k.np * (gen + 1)
      ensures ok ==> gen == genmax || (gen > 0 && !Varied(Now(), cvarmin))
      ensures ok ==> tape.pos == AfterGenerations(tape.values, FirstEnd(old(tape.pos), k), k, gen)
      ensures !ok ==> Starved(history, tape.values, FirstEnd(old(tape.pos), k), k, evaluate, genmax, cvarmin)
    {
      hide Sound, IsRun, Varied, AfterTrials;
      ghost var from := FirstEnd(tape.pos, k);
      gen, history := 0, [];
      ok := Start(tape, evaluate);
      if !ok { return; }
      history := [Now()];
      RunStarts(Now(), k, evaluate, cvarmin);
      var cvar := ceiling;
      while gen + 1 <= genmax && cvar > cvarmin
        invariant Consistent(evaluate) && tape.Valid()
        invariant |history| == gen + 1 && gen <= genmax && IsRun(history, Now(), k, evaluate, cvarmin)
        invariant nfeval == k.np * (gen + 1) && tape.pos == AfterGenerations(tape.values, from, k, gen)
        invariant cvar > cvarmin <==> gen == 0 || Varied(Now(), cvarmin)
        decreases genmax - gen
      {
        NextMultiple(k.np, gen + 1);
        LastOf(history, Now(), k, evaluate, cvarmin);
        ok, cvar, history := Advance(tape, evaluate, history, cvarmin);
        if !ok { return; }
        gen := gen + 1;
      }
    }
  }

  /** The position after the np d random numbers of the first generation. */
  function FirstEnd(from: nat, k: Control): nat
    requires k.np >= 0 && k.d >= 0
  {
    from + k.np * k.d
  }

  /** The random numbers end before the first generation, or before the one that would come next. */
  ghost predicate Starved(history: seq<Generation>, values: seq<real>, from: nat, k: Control, evaluate: Vec -> real,
                          genmax: nat, cvarmin: real)
    requires k.d >= 0
  {
    if history == [] then from > |values|
    else
      var last := history[|history| - 1];
      && IsRun(history, last, k, evaluate, cvarmin) && |history| <= genmax
      && (|history| == 1 || Varied(last, cvarmin))
      && AfterGenerations(values, from, k, |history|) > |values|
  }

  lemma LastOf(history: seq<Generation>, now: Generation, k: Control, evaluate: Vec -> real, cvarmin: real)
    requires IsRun(history, now, k, evaluate, cvarmin)
    ensures history != [] && history[|history| - 1] == now
  {
    hide Sound, Steps, Varied;
  }

  /** Row i + 1 still fits when all rows do. */
  lemma NextRow(i: nat, np: nat, d: nat)
    requires i < np
    ensures i * d + d == (i + 1) * d <= np * d
  {
    assert (np - i - 1) * d >= 0;
    assert np * d == (i + 1) * d + (np - i - 1) * d;
  }

  /** A history of the two-buffer machine that begins with a sound generation, ends with now, and
      went on only from generations that still varied. */
  ghost predicate IsRun(history: seq<Generation>, now: Generation, k: Control, evaluate: Vec -> real, cvarmin: real) {
    && history != [] && history[|history| - 1] == now
    && Sound(history[0], k, evaluate) && Steps(history, k, evaluate)
    && (forall g :: 0 < g < |history| - 1 ==> Varied(history[g], cvarmin))
  }

  lemma RunStarts(g: Generation, k: Control, evaluate: Vec -> real, cvarmin: real)
    requires Sound(g, k, evaluate)
    ensures IsRun([g], g, k, evaluate, cvarmin)
  {
    hide Sound;
  }

  lemma RunNext(history: seq<Generation>, g: Generation, h: Generation, k: Control, evaluate: Vec -> real,
                cvarmin: real,
                trials: seq<Vec>, plans: seq<Plan>)
    requires IsRun(history, g, k, evaluate, cvarmin) && Step(g, h, k, evaluate, trials, plans)
    requires |history| == 1 || Varied(g, cvarmin)
    ensures IsRun(history + [h], h, k, evaluate, cvarmin)
  {
    hide Step, Sound, Steps, Varied;
    StepsNext(history, h, k, evaluate, trials, plans);
  }

  /** The costs of a generation still vary by more than the limit. */
  ghost predicate Varied(g: Generation, cvarmin: real) {
    |g.cost| >= 2 && Variance(g.cost) > cvarmin
  }

  lemma NextMultiple(n: int, m: int)
    ensures n * m + n == n * (m + 1)
  {
  }

  lemma StepsNext(history: seq<Generation>, g: Generation, k: Control, evaluate: Vec -> real, trials: seq<Vec>,
                  plans: seq<Plan>)
    requires history != [] && Steps(history, k, evaluate) && Step(history[|history| - 1], g, k, evaluate, trials, plans)
    ensures Steps(history + [g], k, evaluate)
  {
    hide Step;
    assert Follows(history[|history| - 1], g, k, evaluate);
    var all := history + [g];
    forall i | 0 < i < |all| ensures Follows(all[i - 1], all[i], k, evaluate) {
      if i < |history| { assert Follows(history[i - 1], history[i], k, evaluate); }
    }
  }

  /** The state of the selection loop before its iteration i: the new array holds what has been
      selected, the old one still holds the members that have not been looked at. */
  ghost predicate Halfway(i: nat, news: seq<Vec>, olds: seq<Vec>, cost: seq<real>, best: Vec, g: Generation,
                          trials: seq<Vec>, evaluate: Vec -> real) {
    var n := |g.pop|;
    && |news| == |olds| == |cost| == |g.cost| == |trials| == n && i <= n
    && (forall j :: 0 <= j < i ==> news[j] == Selected(g.pop, g.cost, trials, Costs(trials, evaluate))[j])
    && (forall j :: i <= j < n ==> olds[j] == g.pop[j])
    && (forall j :: 0 <= j < n ==> cost[j] == if j < i then Lower(g.cost, Costs(trials, evaluate))[j] else g.cost[j])
    && best == BestOf(g.best, trials, i, evaluate)
  }

  lemma HalfwayStart(news: seq<Vec>, olds: seq<Vec>, g: Generation, trials: seq<Vec>, evaluate: Vec -> real)
    requires |news| == |olds| == |g.cost| == |trials| == |g.pop| && olds == g.pop
    ensures Halfway(0, news, olds, g.cost, g.best, g, trials, evaluate)
  {
  }

  lemma HalfwayNext(i: nat, news: seq<Vec>, olds: seq<Vec>, cost: seq<real>, best: Vec,
                    news': seq<Vec>, olds': seq<Vec>, cost': seq<real>, best': Vec,
                    g: Generation, trials: seq<Vec>, evaluate: Vec -> real)
    requires Halfway(i, news, olds, cost, best, g, trials, evaluate) && i < |g.pop|
    requires forall j :: 0 <= j < |g.pop| ==> evaluate(g.best) <= g.cost[j]
    requires |olds'| == |olds| && forall j :: i < j < |olds| ==> olds'[j] == olds[j]
    requires news' == news[i := if evaluate(trials[i]) <= cost[i] then trials[i] else olds[i]]
    requires cost' == cost[i := if evaluate(trials[i]) <= cost[i] then evaluate(trials[i]) else cost[i]]
    requires best' == if evaluate(trials[i]) <= cost[i] && evaluate(trials[i]) < evaluate(best) then trials[i] else best
    ensures Halfway(i + 1, news', olds', cost', best', g, trials, evaluate)
  {
    BestIsLeast(g.best, trials, i, evaluate);
  }

  lemma HalfwayEnd(news: seq<Vec>, olds: seq<Vec>, cost: seq<real>, best: Vec, g: Generation, trials: seq<Vec>,
                   evaluate: Vec -> real)
    requires Halfway(|g.pop|, news, olds, cost, best, g, trials, evaluate)
    ensures |g.cost| == |trials| == |g.pop|
    ensures news == Selected(g.pop, g.cost, trials, Costs(trials, evaluate))
    ensures cost == Lower(g.cost, Costs(trials, evaluate))
    ensures best == BestOf(g.best, trials, |g.pop|, evaluate)
  {
  }

  lemma SoundIsReady(g: Generation, k: Control, evaluate: Vec -> real)
    requires Sound(g, k, evaluate)
    ensures Ready(SettingOf(g, k)) && |g.pop| == |g.cost| == k.np
  {
  }

  lemma StepFrom(g: Generation, h: Generation, k: Control, evaluate: Vec -> real, trials: seq<Vec>, plans: seq<Plan>)
    requires |g.pop| == |g.cost| == |trials| == |plans| == k.np
    requires forall i :: 0 <= i < k.np ==> IsTrial(trials[i], SettingOf(g, k), i, plans[i])
    requires h.pop == Selected(g.pop, g.cost, trials, Costs(trials, evaluate))
    requires h.cost == Lower(g.cost, Costs(trials, evaluate))
    requires h.best == BestOf(g.best, trials, k.np, evaluate)
    ensures Step(g, h, k, evaluate, trials, plans)
  {
  }

  lemma BestBelowCosts(g: Generation, k: Control, evaluate: Vec -> real)
    requires Sound(g, k, evaluate)
    ensures forall i :: 0 <= i < k.np ==> evaluate(g.best) <= g.cost[i]
  {
  }
}
