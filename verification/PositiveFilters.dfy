/** Which filters the whole-way results speak of: every one that is built from positive cells,
    with any number of finite poles, of either order and orientation. */
module PositiveFilters {
  import opened RealMath
  import opened PolyMath
  import opened Ladder
  import opened Extraction
  import opened Synthesis
  import opened Analysis
  import opened Transform
  import opened WholeFilter

  // ----- the degrees of what is built -----

  lemma SumSize(c: seq<real>, m: real, d: seq<real>, n: nat)
    requires |c| < n && |d| <= n
    ensures |Plus(Times(Raise(c, 1), m), d)| <= n
  {
    hide Plus, Times, Raise;
    assert |Times(Raise(c, 1), m)| <= n;
  }

  lemma FactorSize(c: seq<real>, p: real)
    ensures |TimesFactor(c, p)| <= |c| + 2
  {
  }

  lemma StageSize(st: Stage, b: Susceptance, n: nat)
    requires st.w != 0.0 && |b.bn| <= n && |b.bd| < n
    ensures |BehindStage(st, b).bn| <= n + 2 && |BehindStage(st, b).bd| < n + 2
  {
    hide Plus, Times, Raise, TimesFactor, Inv;
    FactorSize(b.bd, st.p);
    FactorSize(b.bn, st.p);
    SumSize(b.bn, Inv(st.w), TimesFactor(b.bd, st.p), n + 1);
    SumSize(BehindStage(st, b).bd, st.v, TimesFactor(b.bn, st.p), n + 2);
  }

  /** Each cell takes two degrees, and the parities stay. */
  lemma {:induction false} BuildShape(sts: seq<Stage>, r: Susceptance, n: nat)
    requires AllFit(sts, r) && Lossless(r) && |r.bn| <= n && |r.bd| < n
    ensures Lossless(Build(sts, r)) && BdEven(Build(sts, r)) == BdEven(r)
    ensures |Build(sts, r).bn| <= n + 2 * |sts| && |Build(sts, r).bd| < n + 2 * |sts|
    decreases |sts|
  {
    hide Lossless, BdEven, BehindStage, Fits;
    if sts != [] {
      var b := Build(sts[1..], r);
      BuildShape(sts[1..], r, n);
      FitsNonZero(sts[0], b);
      StageIsLossless(sts[0], b);
      StageSize(sts[0], b, n + 2 * |sts[1..]|);
    }
  }

  // ----- the signs of what is removed -----

  /** A cell of positive values, and the network that is left behind all cells. */
  predicate PositiveStage(st: Stage) {
    st.p != 0.0 && st.v > 0.0 && st.w > 0.0
  }

  predicate PositiveEnd(r: Susceptance, odd: bool, ws: real) {
    if odd then EndsOdd(r) && OddCap(r, ws) > 0.0
    else EndsEven(r) && EvenCap(r, ws) > 0.0 && EvenInd(r, ws) > 0.0
  }

  lemma NonZeroSquare(p: real, s: real)
    requires p != 0.0 && s == p * p
    ensures s > 0.0
  {
    if p < 0.0 { ProductPositive(-p, -p, s); } else { ProductPositive(p, p, s); }
  }

  lemma TrapDivisor(w: real, p: real, s: real)
    requires s == p * p
    ensures w * Pl(p) == -(w * s)
  {
  }

  /** w times the square of jp is negative, and so is the divisor of the trap's inductor. */
  lemma TrapPositive(p: real, w: real, ws: real, m: real)
    requires p != 0.0 && w > 0.0 && ws > 0.0 && m == w * Pl(p)
    ensures m < 0.0 && -ws / m > 0.0
  {
    var s := p * p;
    NonZeroSquare(p, s);
    ProductPositive(w, s, w * s);
    TrapDivisor(w, p, s);
    QuotientPositive(ws, -m, ws / -m);
    DivideUnique(-ws, m, ws / -m);
  }

  predicate PositiveTriple(t: Triple) {
    t.v > 0.0 && t.w1 > 0.0 && t.w2 > 0.0
  }

  lemma StagePositive(st: Stage, ws: real)
    requires PositiveStage(st) && ws > 0.0
    ensures st.w * Pl(st.p) != 0.0 && PositiveTriple(StageValue(st, ws))
  {
    hide Pl;
    TrapPositive(st.p, st.w, ws, st.w * Pl(st.p));
    ProductPositive(st.v, ws, st.v * ws);
    ProductPositive(st.w, ws, st.w * ws);
  }

  lemma CellPositive(t: Triple, dual: bool)
    requires PositiveTriple(t)
    ensures AllPositive(Cell(t, dual))
  {
  }

  lemma BothPositive(a: seq<Cmp>, b: seq<Cmp>)
    requires AllPositive(a) && AllPositive(b)
    ensures AllPositive(a + b)
  {
  }

  lemma {:induction false} CellsPositive(sts: seq<Stage>, ws: real, dual: bool)
    requires (forall i :: 0 <= i < |sts| ==> PositiveStage(sts[i])) && ws > 0.0
    ensures forall i :: 0 <= i < |sts| ==> sts[i].w * Pl(sts[i].p) != 0.0
    ensures AllPositive(StageCells(sts, ws, dual))
    decreases |sts|
  {
    forall i | 0 <= i < |sts| ensures sts[i].w * Pl(sts[i].p) != 0.0 {
      StagePositive(sts[i], ws);
    }
    if sts != [] {
      StagePositive(sts[0], ws);
      hide PositiveStage, StageValue, Cell, AllPositive, Pl;
      CellsPositive(sts[1..], ws, dual);
      CellPositive(StageValue(sts[0], ws), dual);
      BothPositive(Cell(StageValue(sts[0], ws), dual), StageCells(sts[1..], ws, dual));
    }
  }

  lemma TailPositive(r: Susceptance, odd: bool, ws: real, dual: bool)
    requires PositiveEnd(r, odd, ws)
    ensures odd ==> AllPositive(OddTail(r, ws, dual))
    ensures !odd ==> AllPositive(EvenTail(r, ws, dual))
  {
    hide EndsOdd, EndsEven, OddCap, EvenCap, EvenInd;
  }

  // ----- the whole run -----

  lemma RunFits(b: Susceptance, ps: seq<real>, r: Susceptance, odd: bool)
    requires Regular(b, ps) && Remainder(b, ps) == r && Lossless(b) && BdEven(b) == odd
    requires if odd then EndsOdd(r) else EndsEven(r)
    requires |b.bn| <= (if odd then 2 else 3) + 2 * |ps| && |b.bd| < (if odd then 2 else 3) + 2 * |ps|
    ensures Run(b, ps, odd)
  {
    hide Lossless, BdEven, Regular, Remainder, Eval;
    EvalTwo(r.bd, 1.0);
  }

  lemma EndShape(r: Susceptance, odd: bool)
    requires if odd then EndsOdd(r) else EndsEven(r)
    ensures BdEven(r) == odd && |r.bn| <= (if odd then 2 else 3) && |r.bd| < (if odd then 2 else 3)
  {
  }

  /** Every network of positive cells in front of a positive end, that can be taken apart again at
      all, is synthesised without a division by zero and with positive components only, in the
      direct and in the dual form. */
  lemma EveryPositiveFilter(sts: seq<Stage>, r: Susceptance, odd: bool, ws: real, dual: bool, b: Susceptance)
    requires AllFit(sts, r) && Lossless(r) && PositiveEnd(r, odd, ws) && b == Build(sts, r)
    requires (forall i :: 0 <= i < |sts| ==> PositiveStage(sts[i])) && ws > 0.0
    ensures Run(b, Poles(sts), odd) && AllPositive(Parts(b, Poles(sts), ws, odd, dual))
  {
    assert if odd then EndsOdd(r) else EndsEven(r);
    assert |Poles(sts)| == |sts|;
    hide *;
    EndShape(r, odd);
    BuildShape(sts, r, if odd then 2 else 3);
    CellsPositive(sts, ws, dual);
    SynthesisUndoesAnalysis(sts, r, ws, dual);
    RunFits(b, Poles(sts), r, odd);
    PartsAre(b, Poles(sts), ws, odd, dual);
    TailPositive(r, odd, ws, dual);
    if odd {
      BothPositive(StageCells(sts, ws, dual), OddTail(r, ws, dual));
    } else {
      BothPositive(StageCells(sts, ws, dual), EvenTail(r, ws, dual));
    }
  }

  // ----- filters of third order always fit -----

  lemma EvenAtOne(g: real, y: real)
    ensures EvenAt([g], y) == g
  {
    assert Evens([g]) == [g];
    EvalUnfold([g], y);
    assert Tail([g]) == [];
    EvalEmpty(y);
  }

  lemma OneStageFits(st: Stage, g: real)
    requires PositiveStage(st) && g > 0.0
    ensures AllFit([st], Susceptance([0.0, g], [1.0])) && Poles([st]) == [st.p]
    ensures Lossless(Susceptance([0.0, g], [1.0]))
  {
    var b := Susceptance([0.0, g], [1.0]);
    assert Tail([0.0, g]) == [g];
    EvenAtOne(g, Pl(st.p));
    assert [st][1..] == [];
    assert AllFit([], b) && Build([], b) == b;
  }

  lemma LastCapacitor(g: real, ws: real)
    requires g > 0.0 && ws > 0.0
    ensures PositiveEnd(Susceptance([0.0, g], [1.0]), true, ws)
  {
    ProductPositive(ws, g, ws * g);
  }

  /** For any pole and any positive values, one cell in front of a capacitor is such a filter. */
  lemma ThirdOrder(p: real, v: real, w: real, g: real, ws: real, dual: bool, b: Susceptance)
    requires p != 0.0 && v > 0.0 && w > 0.0 && g > 0.0 && ws > 0.0
    requires b == Build([Stage(p, v, w)], Susceptance([0.0, g], [1.0]))
    ensures Run(b, [p], true) && AllPositive(Parts(b, [p], ws, true, dual))
  {
    var st, r := Stage(p, v, w), Susceptance([0.0, g], [1.0]);
    OneStageFits(st, g);
    LastCapacitor(g, ws);
    EveryPositiveFilter([st], r, true, ws, dual, b);
  }
}
