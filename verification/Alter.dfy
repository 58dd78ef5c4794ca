/** The sweep counter: one simulation for every combination of the swept values. */
module Alter {

  const MAX_SIMULATIONS := 65536
  const SWEEPLINES := 20

  datatype Outcome =
    | Combinations(steps: seq<seq<int>>)
    | TooManyVariables
    | TooManySimulations

  /** The number of combinations. */
  function Product(sweep: seq<int>): int {
    if sweep == [] then 1 else Product(sweep[..|sweep| - 1]) * sweep[|sweep| - 1]
  }

  /** One digit for each swept variable, each between 1 and the number of its values. */
  ghost predicate Combination(order: seq<int>, sweep: seq<int>) {
    |order| == |sweep| && forall j :: 0 <= j < |sweep| ==> 1 <= order[j] <= sweep[j]
  }

  /** The number that the digits write down, the last digit being the least. */
  function Value(order: seq<int>, sweep: seq<int>): int
    requires |order| == |sweep|
  {
    if order == [] then 0
    else
      var n := |order| - 1;
      Value(order[..n], sweep[..n]) * sweep[n] + (order[n] - 1)
  }

  lemma {:induction false} ValueInRange(order: seq<int>, sweep: seq<int>)
    requires Combination(order, sweep)
    ensures 0 <= Value(order, sweep) < Product(sweep)
    decreases |order|
  {
    if order != [] {
      var n := |order| - 1;
      ValueInRange(order[..n], sweep[..n]);
      DigitInRange(Value(order[..n], sweep[..n]), Product(sweep[..n]), order[n] - 1, sweep[n]);
    }
  }

  lemma DigitInRange(v: int, p: int, d: int, s: int)
    requires 0 <= v < p && 0 <= d < s
    ensures 0 <= v * s + d < p * s
  {
    assert (v + 1) * s <= p * s;
  }

  /** a comes before b in the order of a dictionary. */
  ghost predicate Precedes(a: seq<int>, b: seq<int>) {
    |a| == |b| && exists j :: 0 <= j < |a| && a[j] < b[j] && a[..j] == b[..j]
  }

  /** The numbers are in the order of a dictionary, and different for different combinations. */
  lemma {:induction false} ValueOrder(a: seq<int>, b: seq<int>, sweep: seq<int>)
    requires Combination(a, sweep) && Combination(b, sweep)
    ensures Value(a, sweep) == Value(b, sweep) <==> a == b
    ensures Value(a, sweep) < Value(b, sweep) <==> Precedes(a, b)
    decreases |a|
  {
    if a == [] {
      assert b == [];
    } else {
      var n := |a| - 1;
      var x, y := Value(a[..n], sweep[..n]), Value(b[..n], sweep[..n]);
      ValueOrder(a[..n], b[..n], sweep[..n]);
      assert 1 <= a[n] <= sweep[n] && 1 <= b[n] <= sweep[n];
      assert a == a[..n] + [a[n]] && b == b[..n] + [b[n]];
      ValueLast(a, sweep, n);
      ValueLast(b, sweep, n);
      hide *;
      DigitsOrder(x, y, a[n] - 1, b[n] - 1, sweep[n]);
      PrecedesLast(a, b, n);
    }
  }

  lemma ValueLast(order: seq<int>, sweep: seq<int>, n: int)
    requires |order| == |sweep| == n + 1 && n >= 0
    ensures Value(order, sweep) == Value(order[..n], sweep[..n]) * sweep[n] + (order[n] - 1)
  {
  }

  lemma DigitsOrder(x: int, y: int, d: int, e: int, s: int)
    requires 0 <= d < s && 0 <= e < s
    ensures x * s + d == y * s + e <==> x == y && d == e
    ensures x * s + d < y * s + e <==> x < y || (x == y && d < e)
  {
    if x < y {
      Multiply(x + 1, y, s);
    } else if y < x {
      Multiply(y + 1, x, s);
    }
  }

  lemma Multiply(x: int, y: int, s: int)
    requires x <= y && s >= 0
    ensures x * s <= y * s
  {
  }

  lemma PrecedesLast(a: seq<int>, b: seq<int>, n: int)
    requires |a| == |b| == n + 1 && n >= 0
    ensures Precedes(a, b) <==> Precedes(a[..n], b[..n]) || (a[..n] == b[..n] && a[n] < b[n])
  {
    if Precedes(a, b) {
      var j :| 0 <= j < |a| && a[j] < b[j] && a[..j] == b[..j];
      if j < n {
        assert a[..n][..j] == a[..j] && b[..n][..j] == b[..j];
        assert a[..n][j] < b[..n][j];
      }
    }
    if Precedes(a[..n], b[..n]) {
      var j :| 0 <= j < n && a[..n][j] < b[..n][j] && a[..n][..j] == b[..n][..j];
      assert a[..n][..j] == a[..j] && b[..n][..j] == b[..j];
      assert a[j] < b[j];
    }
    if a[..n] == b[..n] && a[n] < b[n] { assert a[..n] == b[..n] && a[n] < b[n]; }
  }

  // ----- the counter -----

  /** p followed by the digits from j on. */
  function Continue(p: int, order: seq<int>, sweep: seq<int>, j: nat): int
    requires j <= |order| == |sweep|
    decreases |order| - j
  {
    if j == |order| then p else Continue(p * sweep[j] + (order[j] - 1), order, sweep, j + 1)
  }

  lemma {:induction false} ContinueValue(order: seq<int>, sweep: seq<int>, j: nat)
    requires j <= |order| == |sweep|
    ensures Continue(Value(order[..j], sweep[..j]), order, sweep, j) == Value(order, sweep)
    decreases |order| - j
  {
    if j == |order| {
      assert order[..j] == order && sweep[..j] == sweep;
    } else {
      assert order[..j + 1][..j] == order[..j] && sweep[..j + 1][..j] == sweep[..j];
      ContinueValue(order, sweep, j + 1);
    }
  }

  /** Only the digits from j on matter. */
  lemma {:induction false} ContinueSame(p: int, a: seq<int>, b: seq<int>, sweep: seq<int>, j: nat)
    requires j <= |a| == |b| == |sweep| && a[j..] == b[j..]
    ensures Continue(p, a, sweep, j) == Continue(p, b, sweep, j)
    decreases |a| - j
  {
    if j < |a| {
      assert a[j] == a[j..][0] && b[j] == b[j..][0];
      assert a[j + 1..] == a[j..][1..] && b[j + 1..] == b[j..][1..];
      ContinueSame(p * sweep[j] + (a[j] - 1), a, b, sweep, j + 1);
    }
  }

  /** The digits of a number of at least one full turn write at least the product. */
  lemma {:induction false} ContinueAtLeast(p: int, order: seq<int>, sweep: seq<int>, j: nat)
    requires Combination(order, sweep) && j <= |order| && p >= Product(sweep[..j])
    ensures Continue(p, order, sweep, j) >= Product(sweep)
    decreases |order| - j
  {
    if j == |order| {
      assert sweep[..j] == sweep;
    } else {
      assert sweep[..j + 1][..j] == sweep[..j];
      Multiply(Product(sweep[..j]), p, sweep[j]);
      ContinueAtLeast(p * sweep[j] + (order[j] - 1), order, sweep, j + 1);
    }
  }

  /** One digit of the counter, from the last: with a carry it goes up by one, or back to 1. */
  lemma CountDigit(prefix: int, digit: int, s: int, add: int)
    requires 0 <= add <= 1
    ensures digit != s ==> prefix * s + (digit - 1) + add == (prefix + 0) * s + (digit + add - 1)
    ensures digit == s && add == 1 ==> prefix * s + (digit - 1) + add == (prefix + 1) * s + (1 - 1)
  {
  }

  /** The state of the counter while the digits below j are still to be done: the number that is
      being made is one more than the number before. */
  ghost predicate Counting(was: seq<int>, order: seq<int>, sweep: seq<int>, j: int, add: int) {
    && 0 <= j <= |sweep| && 0 <= add <= 1
    && Combination(was, sweep) && Combination(order, sweep) && order[..j] == was[..j]
    && Continue(Value(was[..j], sweep[..j]) + add, order, sweep, j) == Value(was, sweep) + 1
  }

  lemma CountStart(was: seq<int>, sweep: seq<int>)
    requires Combination(was, sweep)
    ensures Counting(was, was, sweep, |sweep|, 1)
  {
    assert was[..|sweep|] == was && sweep[..|sweep|] == sweep;
  }

  lemma CountNext(was: seq<int>, order: seq<int>, next: seq<int>, sweep: seq<int>, j: int, add: int, carry: int)
    requires Counting(was, order, sweep, j + 1, add) && 0 <= j < |sweep|
    requires if order[j] != sweep[j] then next == order[j := order[j] + add] && carry == 0
             else next == (if add == 1 then order[j := 1] else order) && carry == add
    ensures Counting(was, next, sweep, j, carry)
  {
    var p := Value(was[..j], sweep[..j]);
    assert was[..j + 1][..j] == was[..j] && sweep[..j + 1][..j] == sweep[..j];
    assert order[j] == order[..j + 1][j] == was[j];
    CountDigit(p, order[j], sweep[j], add);
    assert next[..j] == order[..j] == order[..j + 1][..j] == was[..j];
    assert next[j + 1..] == order[j + 1..];
    ContinueSame(Value(was[..j + 1], sweep[..j + 1]) + add, next, order, sweep, j + 1);
  }

  /** At the end there is no carry, unless the counter was at its last number. */
  lemma CountEnd(was: seq<int>, order: seq<int>, sweep: seq<int>, add: int)
    requires Counting(was, order, sweep, 0, add) && Value(was, sweep) + 1 < Product(sweep)
    ensures Combination(order, sweep) && Value(order, sweep) == Value(was, sweep) + 1
  {
    assert was[..0] == [] && sweep[..0] == [] && order[..0] == [];
    ContinueValue(order, sweep, 0);
    if add == 1 { ContinueAtLeast(1, order, sweep, 0); }
  }

  lemma {:induction false} AllOnes(order: seq<int>, sweep: seq<int>)
    requires |order| == |sweep| && forall j :: 0 <= j < |order| ==> order[j] == 1
    ensures Value(order, sweep) == 0
    decreases |order|
  {
    if order != [] { AllOnes(order[..|order| - 1], sweep[..|order| - 1]); }
  }

  lemma {:induction false} ProductPositive(sweep: seq<int>)
    requires forall j :: 0 <= j < |sweep| ==> sweep[j] >= 0
    ensures Product(sweep) >= 0
    ensures Product(sweep) > 0 <==> forall j :: 0 <= j < |sweep| ==> sweep[j] > 0
    decreases |sweep|
  {
    if sweep != [] {
      var n := |sweep| - 1;
      ProductPositive(sweep[..n]);
      assert forall j :: 0 <= j < n ==> sweep[..n][j] == sweep[j];
      SignOfProduct(Product(sweep[..n]), sweep[n]);
    }
  }

  lemma SignOfProduct(a: int, b: int)
    requires a >= 0 && b >= 0
    ensures a * b >= 0 && (a * b > 0 <==> a > 0 && b > 0)
  {
  }

  class Sweeper {
    const sweep: array<int>
    const order: array<int>

    constructor (numbers: seq<int>)
      ensures fresh(sweep) && fresh(order) && sweep[..] == numbers && order.Length == |numbers|
      ensures forall j :: 0 <= j < order.Length ==> order[j] == 1
    {
      sweep := new int[|numbers|](i requires 0 <= i < |numbers| => numbers[i]);
      order := new int[|numbers|](_ => 1);
    }

    /** The number of simulations. */
    method Times() returns (times: int)
      ensures times == Product(sweep[..])
    {
      times := 1;
      for i := 0 to sweep.Length
        invariant times == Product(sweep[..i])
      {
        assert sweep[..i + 1][..i] == sweep[..i];
        times := times * sweep[i];
      }
      assert sweep[..sweep.Length] == sweep[..];
    }

    /** Advance the counter, but on the first step only look at it. */
    method Count(first: bool)
      requires sweep != order && Combination(order[..], sweep[..])
      requires !first ==> Value(order[..], sweep[..]) + 1 < Product(sweep[..])
      requires first ==> forall j :: 0 <= j < order.Length ==> order[j] == 1
      modifies order
      ensures Combination(order[..], sweep[..])
      ensures Value(order[..], sweep[..]) == old(Value(order[..], sweep[..])) + (if first then 0 else 1)
    {
      ghost var was, sw := order[..], sweep[..];
      var add := 1;
      var jj := sweep.Length;
      CountStart(was, sw);
      hide Counting, Combination;
      while jj > 0
        invariant 0 <= jj <= sweep.Length == order.Length && sweep[..] == sw
        invariant first ==> order[..] == was
        invariant !first ==> Counting(was, order[..], sw, jj, add)
      {
        jj := jj - 1;
        ghost var cells, carry := order[..], add;
        assert cells[jj] == order[jj] && sw[jj] == sweep[jj];
        DigitPositive(was, sw, jj);
        if sweep[jj] != 0 {
          if order[jj] != sweep[jj] {
            if !first { order[jj] := order[jj] + add; }
            add := 0;
          } else {
            if add == 1 { order[jj] := 1; }
          }
        }
        if first {
          assert order[..] == cells;
        } else {
          CountNext(was, cells, order[..], sw, jj, carry, add);
        }
      }
      if !first { CountEnd(was, order[..], sw, add); }
    }

    /** Steps 3 and 4: count the simulations, refuse too many, and write one set of digits for each. */
    method Create() returns (r: Outcome)
      requires sweep != order && sweep.Length == order.Length
      requires forall j :: 0 <= j < sweep.Length ==> sweep[j] >= 0 && order[j] == 1
      modifies order
      ensures r.TooManyVariables? <==> sweep.Length > SWEEPLINES
      ensures r.TooManySimulations? <==> sweep.Length <= SWEEPLINES && Product(sweep[..]) > MAX_SIMULATIONS
      ensures r.Combinations? ==> |r.steps| == Product(sweep[..]) && Numbered(r.steps, sweep[..])
    {
      ghost var sw := sweep[..];
      var times := Times();
      var kk := sweep.Length;
      if times > MAX_SIMULATIONS || kk > SWEEPLINES {
        if kk > SWEEPLINES { return TooManyVariables; } else { return TooManySimulations; }
      }
      ProductPositive(sw);
      AllOnes(order[..], sw);
      hide Value, Product;
      var steps: seq<seq<int>> := [];
      var index := 1;
      while index <= times
        invariant 1 <= index <= times + 1 && |steps| == index - 1 && sweep[..] == sw
        invariant index == 1 ==> forall j :: 0 <= j < order.Length ==> order[j] == 1
        invariant Value(order[..], sw) == if index == 1 then 0 else index - 2
        invariant times > 0 ==> Combination(order[..], sw)
        invariant Numbered(steps, sw)
      {
        Count(index == 1);
        steps := steps + [order[..]];
        index := index + 1;
      }
      r := Combinations(steps);
    }
  }

  lemma DigitPositive(order: seq<int>, sweep: seq<int>, j: int)
    requires Combination(order, sweep) && 0 <= j < |sweep|
    ensures sweep[j] >= 1
  {
  }

  /** Step t writes the number t. */
  ghost predicate Numbered(steps: seq<seq<int>>, sweep: seq<int>) {
    forall t :: 0 <= t < |steps| ==> Combination(steps[t], sweep) && Value(steps[t], sweep) == t
  }

  /** The steps go through every combination exactly once, in the order of a dictionary. */
  lemma EveryCombinationOnce(steps: seq<seq<int>>, sweep: seq<int>)
    requires Numbered(steps, sweep) && |steps| == Product(sweep)
    ensures forall t, u :: 0 <= t < u < |steps| ==> Precedes(steps[t], steps[u])
    ensures forall a :: a in steps <==> Combination(a, sweep)
  {
    forall t, u | 0 <= t < u < |steps| ensures Precedes(steps[t], steps[u]) {
      ValueOrder(steps[t], steps[u], sweep);
    }
    forall a | Combination(a, sweep) ensures a in steps {
      ValueInRange(a, sweep);
      ValueOrder(a, steps[Value(a, sweep)], sweep);
    }
  }
}
