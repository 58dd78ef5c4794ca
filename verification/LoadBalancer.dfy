/** The load balancer of the parallel optimiser: it measures every slave, proposes how many rows
    of the next population each is to evaluate, and lays the rows out. */
module LoadBalancer {
  import opened RealMath
  import opened Rounding
  import opened ShellSort
  import opened Shares
  import opened Layout

  /** Costs above this mark a simulation that was not run. */
  const OUT_OF_BOUND := 100000000000000000000000000000000000000000000000000.0

  // ----- one slave's measurement -----

  /** How many of the rows from .. from + len - 1 were out of bound. */
  function OutOfBound(cost: seq<real>, from: nat, len: nat): (r: nat)
    requires from + len <= |cost|
    ensures r <= len
  {
    if len == 0 then 0
    else OutOfBound(cost, from, len - 1) + (if cost[from + len - 1] > OUT_OF_BOUND then 1 else 0)
  }

  /** The elapsed time, but at least 1. */
  function Elapsed(start: real, end: real): (r: real)
    ensures r >= 1.0
  {
    if end - start < 1.0 then 1.0 else end - start
  }

  /** The average time of a simulation: measured if at least one was in bound, else remembered. */
  function AverageOf(elapsed: real, rows: nat, out: nat, history: real): real {
    if rows > out then elapsed / (rows - out) as real else history
  }

  /** What is remembered: the first measurement, then the mean of what was remembered and the new one. */
  function HistoryOf(elapsed: real, rows: nat, out: nat, history: real): real {
    if rows > out then
      var avg := elapsed / (rows - out) as real;
      if history < 1.0 then avg else (history + avg) / 2.0
    else history
  }

  /** An average is positive exactly if something was measured, now or before; and once it is, it
      stays so. */
  lemma MeasuredIsPositive(elapsed: real, rows: nat, out: nat, history: real)
    requires elapsed >= 1.0 && history >= 0.0
    ensures AverageOf(elapsed, rows, out, history) > 0.0 <==> rows > out || history > 0.0
    ensures HistoryOf(elapsed, rows, out, history) > 0.0 <==> rows > out || history > 0.0
    ensures HistoryOf(elapsed, rows, out, history) >= 0.0
  {
    if rows > out {
      QuotientPositive(elapsed, (rows - out) as real, elapsed / (rows - out) as real);
    }
  }

  /** The measurements a call starts from. */
  datatype Run = Run(sc: seq<int>, start: real, end: seq<real>, cost: seq<real>, history: seq<real>)

  ghost predicate Measurable(m: Run, n: nat) {
    && n < |m.sc| && n < |m.end| && n < |m.history|
    && (forall i :: 0 <= i <= n ==> m.sc[i] >= 0)
    && (forall i :: 1 <= i <= n ==> m.history[i] >= 0.0)
    && Start(m.sc, n + 1) <= |m.cost|
  }

  lemma BlockFits(m: Run, n: nat, i: nat)
    requires Measurable(m, n) && i <= n
    ensures 0 <= Start(m.sc, i) && 0 <= Units(m.sc[i]) && Start(m.sc, i) + Units(m.sc[i]) <= |m.cost|
  {
    BlockWithin(m.sc, n, i);
  }

  ghost function OutOf(m: Run, n: nat, i: nat): nat
    requires Measurable(m, n) && i <= n
  {
    BlockFits(m, n, i);
    OutOfBound(m.cost, Start(m.sc, i), Units(m.sc[i]))
  }

  ghost function Average(m: Run, n: nat, i: nat): real
    requires Measurable(m, n) && 1 <= i <= n
  {
    AverageOf(Elapsed(m.start, m.end[i]), Units(m.sc[i]), OutOf(m, n, i), m.history[i])
  }

  ghost function Remembered(m: Run, n: nat, i: nat): real
    requires Measurable(m, n) && 1 <= i <= n
  {
    HistoryOf(Elapsed(m.start, m.end[i]), Units(m.sc[i]), OutOf(m, n, i), m.history[i])
  }

  /** Every slave ran a simulation in bound, in this run or in an earlier one. */
  ghost predicate AllMeasured(m: Run, n: nat)
    requires Measurable(m, n)
  {
    forall i :: 1 <= i <= n ==> Units(m.sc[i]) > OutOf(m, n, i) || m.history[i] > 0.0
  }

  ghost function Averages(m: Run, n: nat): (r: seq<real>)
    requires Measurable(m, n)
    ensures |r| == n && forall i :: 0 <= i < n ==> r[i] == Average(m, n, i + 1)
  {
    seq(n, i requires 0 <= i < n => Average(m, n, i + 1))
  }

  // ----- what a measurement means, counted in rows that were in bound -----

  /** The rows from .. from + len - 1 that were in bound. */
  ghost function InBound(cost: seq<real>, from: nat, len: nat): set<nat>
    requires from + len <= |cost|
  {
    set q: nat | from <= q < from + len && cost[q] <= OUT_OF_BOUND
  }

  lemma {:induction false} InBoundCount(cost: seq<real>, from: nat, len: nat)
    requires from + len <= |cost|
    ensures |InBound(cost, from, len)| + OutOfBound(cost, from, len) == len
    decreases len
  {
    if len == 0 {
      assert InBound(cost, from, 0) == {};
    } else {
      var q := from + len - 1;
      InBoundCount(cost, from, len - 1);
      assert InBound(cost, from, len) == InBound(cost, from, len - 1) + (if cost[q] <= OUT_OF_BOUND then {q} else {});
      assert q !in InBound(cost, from, len - 1);
    }
  }

  /** How many rows of slave i were in bound. */
  ghost function RowsInBound(m: Run, n: nat, i: nat): nat
    requires Measurable(m, n) && 1 <= i <= n
  {
    BlockFits(m, n, i);
    |InBound(m.cost, Start(m.sc, i), Units(m.sc[i]))|
  }

  /** The time for c simulations of this average time. */
  function Spent(avg: real, c: nat): real {
    avg * c as real
  }

  ghost predicate GreaterOf(t: real, a: real, b: real) {
    t >= a && t >= b && (t == a || t == b)
  }

  /** avg and next are the average of slave i and what is remembered of it: the average times the
      rows in bound is the time it took, or 1 if that is more, and what is remembered is the first
      average, and then the mean of what was remembered and the new average; a slave without a row
      in bound has the average that is remembered, and that does not change. */
  ghost predicate Measures(m: Run, n: nat, i: nat, avg: real, next: real)
    requires Measurable(m, n) && 1 <= i <= n
  {
    var c, h := RowsInBound(m, n, i), m.history[i];
    && (c > 0 ==> GreaterOf(Spent(avg, c), m.end[i] - m.start, 1.0))
    && (c > 0 && h < 1.0 ==> next == avg)
    && (c > 0 && h >= 1.0 ==> 2.0 * next == h + avg)
    && (c == 0 ==> avg == h && next == h)
  }

  /** avgs and history hold that of every slave. */
  ghost predicate AllMeasure(m: Run, n: nat, avgs: seq<real>, history: seq<real>) {
    && Measurable(m, n) && n == |avgs| && n < |history|
    && forall i :: 1 <= i <= n ==> Measures(m, n, i, avgs[i - 1], history[i])
  }

  lemma AllMeasureFrom(m: Run, n: nat, history: seq<real>)
    requires Measurable(m, n) && n < |history| && forall i :: 1 <= i <= n ==> history[i] == Remembered(m, n, i)
    ensures AllMeasure(m, n, Averages(m, n), history)
  {
    hide Measures, Average, Remembered, Measurable;
    forall i | 1 <= i <= n ensures Measures(m, n, i, Averages(m, n)[i - 1], history[i]) {
      AverageMeans(m, n, i);
    }
  }

  lemma AverageMeans(m: Run, n: nat, i: nat)
    requires Measurable(m, n) && 1 <= i <= n
    ensures Measures(m, n, i, Average(m, n, i), Remembered(m, n, i))
  {
    RowsAre(m, n, i);
    hide Measurable, RowsInBound, OutOf, AverageOf, HistoryOf, Elapsed, Units, GreaterOf, Spent;
    AverageOfMeans(m.start, m.end[i], Units(m.sc[i]), OutOf(m, n, i), RowsInBound(m, n, i), m.history[i]);
  }

  lemma RowsAre(m: Run, n: nat, i: nat)
    requires Measurable(m, n) && 1 <= i <= n
    ensures 0 <= Units(m.sc[i]) == RowsInBound(m, n, i) + OutOf(m, n, i)
  {
    BlockFits(m, n, i);
    InBoundCount(m.cost, Start(m.sc, i), Units(m.sc[i]));
  }

  lemma AverageOfMeans(start: real, end: real, rows: nat, out: nat, c: nat, history: real)
    requires rows == c + out
    ensures var avg, next := AverageOf(Elapsed(start, end), rows, out, history),
                             HistoryOf(Elapsed(start, end), rows, out, history);
            && (c > 0 ==> GreaterOf(Spent(avg, c), end - start, 1.0))
            && (c > 0 && history < 1.0 ==> next == avg)
            && (c > 0 && history >= 1.0 ==> 2.0 * next == history + avg)
            && (c == 0 ==> avg == history && next == history)
  {
    if c > 0 { DivideBack(Elapsed(start, end), c as real); }
  }

  lemma AveragesArePositive(m: Run, n: nat)
    requires Measurable(m, n) && AllMeasured(m, n)
    ensures AllAbove(Averages(m, n), 0.0)
    ensures forall i :: 1 <= i <= n ==> Remembered(m, n, i) > 0.0
  {
    forall i | 1 <= i <= n ensures Average(m, n, i) > 0.0 && Remembered(m, n, i) > 0.0 {
      MeasuredIsPositive(Elapsed(m.start, m.end[i]), Units(m.sc[i]), OutOf(m, n, i), m.history[i]);
    }
  }

  /** The least of a list of numbers and a ceiling. */
  ghost predicate LeastOf(t: real, s: seq<real>, ceiling: real) {
    && t <= ceiling && (forall i :: 0 <= i < |s| ==> t <= s[i])
    && (t == ceiling || t in s)
  }

  lemma LeastStart(ceiling: real)
    ensures LeastOf(ceiling, [], ceiling)
  {
  }

  lemma LeastNext(t: real, s: seq<real>, i: nat, ceiling: real)
    requires i < |s| && LeastOf(t, s[..i], ceiling)
    ensures LeastOf(if s[i] < t then s[i] else t, s[..i + 1], ceiling)
  {
    var u, r := if s[i] < t then s[i] else t, s[..i + 1];
    assert r[i] == s[i] && s[..i] == r[..i];
    forall j | 0 <= j < |r| ensures u <= r[j] {
      if j < i { assert r[j] == s[..i][j]; }
    }
  }

  class LoadBalancer {
    /** The average time of each slave, for when all its simulations are out of bound. */
    const history: array<real>

    constructor (size: nat)
      ensures fresh(history) && history.Length == size
      ensures forall i :: 0 <= i < size ==> history[i] == 0.0
    {
      history := new real[size](_ => 0.0);
    }

    ghost function Snapshot(sendcount: array<int>, start: real, end: array<real>, cost: array<real>): Run
      reads sendcount, end, cost, history
    {
      Run(sendcount[..], start, end[..], cost[..], history[..])
    }

    /** What is remembered of every slave is brought up to date, and positive. */
    ghost predicate Remembers(m: Run, n: nat)
      reads history
    {
      && Measurable(m, n) && n < history.Length
      && forall i :: 1 <= i <= n ==> history[i] == Remembered(m, n, i) && history[i] > 0.0
    }

    lemma RemembersFrom(m: Run, n: nat)
      requires Measurable(m, n) && AllMeasured(m, n) && n < history.Length
      requires forall i :: 1 <= i <= n ==> history[i] == Remembered(m, n, i)
      ensures Remembers(m, n)
    {
      AveragesArePositive(m, n);
      hide Measurable, AllMeasured, Remembered, Averages;
    }

    /** How many simulations of slave i were out of bound. */
    method CountOut(sendcount: array<int>, cost: array<real>, i: nat, ghost m: Run, ghost n: nat) returns (out: nat)
      requires Measurable(m, n) && i <= n && m.sc == sendcount[..] && m.cost == cost[..]
      ensures out == OutOf(m, n, i)
    {
      BlockFits(m, n, i);
      var k := 0;
      for j := 0 to i
        invariant k == Start(m.sc, j)
      {
        k := k + sendcount[j] / MAXDIM;
      }
      out := 0;
      for j := 0 to sendcount[i] / MAXDIM
        invariant out == OutOfBound(m.cost, k, j)
      {
        if cost[j + k] > OUT_OF_BOUND { out := out + 1; }
      }
    }

    /** Measure one slave and update what is remembered of it. */
    method MeasureOne(sendcount: array<int>, start: real, end: array<real>, cost: array<real>, i: nat,
                      ghost m: Run, ghost n: nat) returns (avg: real)
      requires Measurable(m, n) && 1 <= i <= n
      requires m.sc == sendcount[..] && m.start == start && m.end == end[..] && m.cost == cost[..]
      requires history != end && history != cost
      requires n < history.Length && history[i] == m.history[i]
      modifies history
      ensures avg == Average(m, n, i) && history[i] == Remembered(m, n, i)
      ensures forall j :: 0 <= j < history.Length && j != i ==> history[j] == old(history[j])
    {
      var out := CountOut(sendcount, cost, i, m, n);
      BlockFits(m, n, i);
      var dif := end[i] - start;
      if dif < 1.0 { dif := 1.0; }
      assert dif == Elapsed(m.start, m.end[i]);
      var rows := sendcount[i] / MAXDIM;
      if rows > out {
        avg := dif / (rows - out) as real;
        if history[i] < 1.0 {
          history[i] := avg;
        } else {
          history[i] := (history[i] + avg) / 2.0;
        }
      } else {
        avg := history[i];
      }
    }

    /** Measure all slaves; the entry of the master is left as it is. */
    method Measure(sendcount: array<int>, start: real, end: array<real>, cost: array<real>, ntasks: nat,
                   times: array<Record>, ceiling: real, ghost m: Run) returns (tMin: real)
      requires 1 <= ntasks && Measurable(m, ntasks - 1) && AllMeasured(m, ntasks - 1) && ceiling > 0.0
      requires m == Snapshot(sendcount, start, end, cost) && times.Length == ntasks
      requires history != end && history != cost && times != end as object && times != cost as object
      modifies history, times
      ensures tMin > 0.0 && LeastOf(tMin, Averages(m, ntasks - 1), ceiling)
      ensures times[0] == old(times[0])
      ensures forall i :: 1 <= i < ntasks ==> times[i] == Record(i, Average(m, ntasks - 1, i))
      ensures ntasks <= history.Length
      ensures forall i :: 1 <= i < ntasks ==> history[i] == Remembered(m, ntasks - 1, i)
      ensures AllMeasure(m, ntasks - 1, Averages(m, ntasks - 1), history[..])
    {
      hide LeastOf, AllMeasure, Average, Remembered, AllMeasured, AllAbove, Averages;
      ghost var n := ntasks - 1;
      ghost var avgs := Averages(m, n);
      AveragesArePositive(m, n);
      LeastStart(ceiling);
      assert avgs[..0] == [];
      tMin := ceiling;
      var i := 1;
      while i < ntasks
        invariant 1 <= i <= ntasks && tMin > 0.0 && times[0] == old(times[0])
        invariant LeastOf(tMin, avgs[..i - 1], ceiling)
        invariant forall j :: 1 <= j < i ==> times[j] == Record(j, Average(m, n, j))
        invariant forall j :: 1 <= j < i ==> history[j] == Remembered(m, n, j)
        invariant forall j :: i <= j < history.Length ==> history[j] == m.history[j]
      {
        var avg := MeasureOne(sendcount, start, end, cost, i, m, n);
        AboveAt(avgs, i - 1);
        assert avg == avgs[i - 1];
        times[i] := Record(i, avg);
        LeastNext(tMin, avgs, i - 1, ceiling);
        if avg < tMin { tMin := avg; }
        i := i + 1;
      }
      assert avgs[..i - 1] == avgs;
      AllMeasureFrom(m, n, history[..]);
    }

    /** Give every slave its rounded share, and say how far the total is from the population. */
    method Propose(sendcount: array<int>, times: array<Record>, ntasks: nat, np: int, tMin: real, ghost avgs: seq<real>)
      returns (k: int)
      requires 2 <= ntasks == times.Length && ntasks <= sendcount.Length && |avgs| == ntasks - 1
      requires AllAbove(avgs, 0.0) && tMin > 0.0 && Timed(times[..], avgs)
      modifies sendcount
      ensures sendcount[0] == 0 && Proposed(sendcount[..], avgs, np)
      ensures k == Correction(avgs, np)
    {
      hide *;
      var total := TotalWeight(times, ntasks, tMin, avgs);
      AboveAt(avgs, 0);
      ShareIsRelative(avgs, tMin, np, 0);
      ghost var r := Rounded(ShareList(avgs, np));
      var j := 0;
      TotalNone(r);
      sendcount[0] := 0;
      var i := 1;
      while i < ntasks
        invariant 1 <= i <= ntasks && sendcount[0] == 0
        invariant forall p :: 1 <= p < i ==> sendcount[p] == r[p - 1]
        invariant j == Total(r[..i - 1])
      {
        TimedAt(times[..], avgs, i);
        AboveAt(avgs, i - 1);
        sendcount[i] := ShareOf(times[i].time, tMin, np, total, avgs, i - 1);
        j := j + sendcount[i];
        TotalNext(r, i - 1);
        i := i + 1;
      }
      assert r[..i - 1] == r;
      ProposedFrom(sendcount[..], avgs, np, r);
      k := np - j;
    }

    method TotalWeight(times: array<Record>, ntasks: nat, tMin: real, ghost avgs: seq<real>) returns (total: real)
      requires 2 <= ntasks == times.Length && |avgs| == ntasks - 1
      requires AllAbove(avgs, 0.0) && tMin > 0.0 && Timed(times[..], avgs)
      ensures total == Sum(Relatives(avgs, tMin))
    {
      hide Sum;
      ghost var w := Relatives(avgs, tMin);
      total := 0.0;
      SumNone(w);
      var i := 1;
      while i < ntasks
        invariant 1 <= i <= ntasks && total == Sum(w[..i - 1])
      {
        TimedAt(times[..], avgs, i);
        QuotientPositive(times[i].time, tMin, times[i].time / tMin);
        total := total + 1.0 / (times[i].time / tMin);
        SumNext(w, i - 1);
        i := i + 1;
      }
      assert w[..i - 1] == w;
    }

    /** The share of slave i + 1, rounded. */
    method ShareOf(time: real, tMin: real, np: int, total: real, ghost avgs: seq<real>, ghost i: nat) returns (c: int)
      requires i < |avgs| && avgs[i] == time && time > 0.0 && tMin > 0.0
      requires AllAbove(avgs, 0.0) && total == Sum(Relatives(avgs, tMin)) && total > 0.0
      ensures c == Rint(ShareList(avgs, np)[i])
    {
      QuotientPositive(time, tMin, time / tMin);
      var rate, speed := np as real / total, 1.0 / (time / tMin);
      assert rate == PerUnit(np, total) && speed == Relative(time, tMin) && AllAbove(avgs, 0.0);
      hide *;
      ShareIsRelative(avgs, tMin, np, i);
      var x := rate * speed;
      PortionIs(rate, speed, x);
      c := Rint(x);
    }

    /** Add one row to, or take one from, each of the fastest. */
    method Repair(sendcount: array<int>, times: array<Record>, k: int)
      requires Magnitude(k) < times.Length && InRange(times[..], sendcount.Length)
      modifies sendcount
      ensures sendcount[..] == Repaired(old(sendcount[..]), times[..], Magnitude(k), k > 0)
    {
      ghost var c, recs := sendcount[..], times[..];
      var i, r := 1, k;
      if r > 0 {
        while r != 0
          invariant 1 <= i == k - r + 1 && 0 <= r
          invariant sendcount[..] == Repaired(c, recs, i - 1, true)
        {
          var p := times[i].index;
          assert p == recs[i].index;
          ghost var d := sendcount[..];
          sendcount[p] := sendcount[p] + 1;
          assert sendcount[..] == Adjust(d, p, true);
          i := i + 1;
          r := r - 1;
        }
      } else {
        while r != 0
          invariant 1 <= i == r - k + 1 && r <= 0
          invariant sendcount[..] == Repaired(c, recs, i - 1, false)
        {
          var p := times[i].index;
          assert p == recs[i].index;
          ghost var d := sendcount[..];
          if sendcount[p] != 0 {
            sendcount[p] := sendcount[p] - 1;
          }
          assert sendcount[..] == Adjust(d, p, false);
          i := i + 1;
          r := r + 1;
        }
      }
    }

    /** The total of the slaves' counts. */
    method CountAll(sendcount: array<int>, ntasks: nat) returns (j: int)
      requires 2 <= ntasks <= sendcount.Length
      ensures j == SlaveTotal(sendcount[..], ntasks - 1)
    {
      j := 0;
      var i := 1;
      while i < ntasks
        invariant 1 <= i <= ntasks && j == Total(sendcount[..][1..i])
      {
        TotalFrom(sendcount[..], i);
        j := j + sendcount[i];
        i := i + 1;
      }
    }

    /** From counts of rows to counts of doubles. */
    method Widen(sendcount: array<int>, ntasks: nat)
      requires ntasks <= sendcount.Length
      modifies sendcount
      ensures forall i :: 0 <= i < ntasks ==> sendcount[i] == MAXDIM * old(sendcount[i])
    {
      for p := 0 to ntasks
        invariant forall q :: 0 <= q < p ==> sendcount[q] == MAXDIM * old(sendcount[q])
        invariant forall q :: p <= q < sendcount.Length ==> sendcount[q] == old(sendcount[q])
      {
        sendcount[p] := sendcount[p] * MAXDIM;
      }
    }

    /** Where each block begins. */
    method Displace(sendcount: array<int>, displs: array<int>, ntasks: nat, ghost c: seq<int>)
      requires 2 <= ntasks <= sendcount.Length == |c| && ntasks <= displs.Length && sendcount != displs
      requires c[0] == 0 && forall i :: 0 <= i < ntasks ==> sendcount[i] == MAXDIM * c[i]
      modifies displs
      ensures forall i :: 0 <= i < ntasks ==> displs[i] == MAXDIM * Start(sendcount[..], i)
      ensures Start(sendcount[..], ntasks) == Total(c[1..ntasks])
    {
      ghost var sc := sendcount[..];
      StartFirst(c, sc);
      hide Start, Total;
      displs[0] := 0;
      displs[1] := 0;
      var i := 2;
      while i < ntasks
        invariant 2 <= i <= ntasks && Start(sc, i - 1) == Total(c[1..i - 1])
        invariant forall q :: 0 <= q < i ==> displs[q] == MAXDIM * Start(sc, q)
      {
        StartNext(c, sc, i - 1);
        displs[i] := sendcount[i - 1] + displs[i - 1];
        i := i + 1;
      }
      StartNext(c, sc, ntasks - 1);
    }

    /** The final check, and the layout of the rows. */
    method LayOut(sendcount: array<int>, displs: array<int>, ntasks: nat, np: int) returns (ok: bool)
      requires 2 <= ntasks <= sendcount.Length && ntasks <= displs.Length && sendcount != displs
      requires forall i :: 0 <= i < ntasks ==> sendcount[i] >= 0
      requires SlaveTotal(sendcount[..], ntasks - 1) == np ==> sendcount[0] == 0
      modifies sendcount, displs
      ensures ok <==> SlaveTotal(old(sendcount[..]), ntasks - 1) == np
      ensures ok ==> Laid(sendcount[..], displs[..], ntasks - 1, np)
      ensures ok ==> forall i :: 0 <= i < ntasks ==> sendcount[i] == MAXDIM * old(sendcount[i])
    {
      ghost var c := sendcount[..];
      var j := CountAll(sendcount, ntasks);
      if np - j != 0 { return false; }
      Widen(sendcount, ntasks);
      Displace(sendcount, displs, ntasks, c);
      ok := true;
    }

    /** Sort the slaves by speed and let the fastest absorb the rounding error. */
    method Correct(sendcount: array<int>, times: array<Record>, np: int, k: int, stale: Record, ghost avgs: seq<real>)
      requires avgs != [] && AllAbove(avgs, 0.0) && np >= 1 && k == Correction(avgs, np)
      requires times[..] == Records(stale, avgs)
      requires 0 <= stale.index < sendcount.Length && Proposed(sendcount[..], avgs, np) && sendcount[0] == 0
      modifies sendcount, times
      ensures times[..] == Table(stale, avgs) && |avgs| < sendcount.Length
      ensures SlaveTotal(sendcount[..], |avgs|) == np
         <==> Restores(Table(stale, avgs), stale, avgs, np, Place(stale, avgs))
      ensures Restores(Table(stale, avgs), stale, avgs, np, Place(stale, avgs)) ==> sendcount[0] == 0
      ensures forall i :: 0 <= i <= |avgs| ==> sendcount[i] >= 0
      ensures forall i :: 1 <= i <= |avgs| ==> sendcount[i] == Granted(Table(stale, avgs), avgs, np, i)
    {
      ghost var c, recs, p := sendcount[..], Table(stale, avgs), Place(stale, avgs);
      hide *;
      Sort(times);
      TableIs(stale, avgs);
      TableIsRanked(stale, avgs);
      assert c[0] == 0;
      RankedInRange(recs, stale, avgs, p, |c|);
      RepairWorks(c, recs, stale, avgs, np, p);
      ProposedNonNegative(c, avgs, np);
      Repair(sendcount, times, k);
      if Restores(recs, stale, avgs, np, p) { RepairedUntouched(c, recs, stale, avgs, np, p); }
      forall i | 0 <= i <= |avgs| ensures sendcount[i] >= 0 {
        RepairedNonNegative(c, recs, Magnitude(k), k > 0, i);
        assert sendcount[i] == sendcount[..][i];
      }
      assert sendcount[0] == sendcount[..][0];
      forall i | 1 <= i <= |avgs| ensures sendcount[i] == Granted(recs, avgs, np, i) {
        assert sendcount[i] == sendcount[..][i];
      }
    }

    /** From the averages to the layout. */
    method Decide(sendcount: array<int>, displs: array<int>, times: array<Record>, ntasks: nat, np: int, stale: Record,
                  tMin: real, ghost avgs: seq<real>)
      returns (ok: bool)
      requires 2 <= ntasks == times.Length && ntasks <= sendcount.Length && ntasks <= displs.Length
      requires sendcount != displs && |avgs| == ntasks - 1 && avgs != []
      requires AllAbove(avgs, 0.0) && tMin > 0.0 && np >= 1
      requires Timed(times[..], avgs) && times[..] == Records(stale, avgs)
      requires 0 <= stale.index < sendcount.Length
      modifies times, sendcount, displs
      ensures ok <==> Succeeds(stale, avgs, np)
      ensures ok ==> Laid(sendcount[..], displs[..], ntasks - 1, np)
      ensures ok ==> Counts(sendcount[..], stale, avgs, np)
    {
      hide *;
      var k := Propose(sendcount, times, ntasks, np, tMin, avgs);
      if k != 0 {
        Correct(sendcount, times, np, k, stale, avgs);
      } else {
        ProposedTotal(sendcount[..], avgs, np);
        ProposedNonNegative(sendcount[..], avgs, np);
        forall i | 1 <= i < ntasks ensures sendcount[i] == Granted(Table(stale, avgs), avgs, np, i) {
          ProposedAt(sendcount[..], avgs, np, i);
          ShareRounds(avgs, np, i);
          NothingGranted(Table(stale, avgs), avgs, np, i);
        }
      }
      ok := LayOut(sendcount, displs, ntasks, np);
      if ok { CountsFrom(sendcount, stale, avgs, np); }
      SucceedsIs(stale, avgs, np);
    }

    /** The whole balancer.  stale is what the master's entry of the table of times holds, which
        nobody sets. */
    method Balance(sendcount: array<int>, displs: array<int>, start: real, end: array<real>, cost: array<real>,
                   ntasks: nat, np: int, stale: Record, ceiling: real, ghost m: Run)
      returns (ok: bool)
      requires 2 <= ntasks <= sendcount.Length && ntasks <= displs.Length && np >= 1 && ceiling > 0.0
      requires m == Snapshot(sendcount, start, end, cost)
      requires Measurable(m, ntasks - 1) && AllMeasured(m, ntasks - 1)
      requires 0 <= stale.index < sendcount.Length
      requires sendcount != displs && history != end && history != cost
      modifies history, sendcount, displs
      ensures ok <==> Succeeds(stale, Averages(m, ntasks - 1), np)
      ensures ok ==> Laid(sendcount[..], displs[..], ntasks - 1, np)
      ensures ok ==> Counts(sendcount[..], stale, Averages(m, ntasks - 1), np)
      ensures Remembers(m, ntasks - 1)
      ensures AllMeasure(m, ntasks - 1, Averages(m, ntasks - 1), history[..])
    {
      hide *;
      var times := new Record[ntasks](_ => stale);
      ghost var avgs := Averages(m, ntasks - 1);
      AveragesArePositive(m, ntasks - 1);
      var t := Measure(sendcount, start, end, cost, ntasks, times, ceiling, m);
      RemembersFrom(m, ntasks - 1);
      TimesAreRecords(times[..], stale, m, ntasks - 1);
      ok := Decide(sendcount, displs, times, ntasks, np, stale, t, avgs);
    }
  }

  /** The balancer succeeds if and only if no correction is needed, or the sort does not put the
      master's leftover record on one of the places 1 .. |k|, or the record names a slave and that
      slave has as many rows as are taken from it. */
  ghost predicate Succeeds(stale: Record, avgs: seq<real>, np: int) {
    Correction(avgs, np) == 0 || Restores(Table(stale, avgs), stale, avgs, np, Place(stale, avgs))
  }

  lemma SucceedsIs(stale: Record, avgs: seq<real>, np: int)
    ensures Succeeds(stale, avgs, np) <==>
            Correction(avgs, np) == 0 || Restores(Table(stale, avgs), stale, avgs, np, Place(stale, avgs))
  {
    hide Correction, Restores, Table, Place;
  }

  lemma TableIs(stale: Record, avgs: seq<real>)
    ensures Table(stale, avgs) == ShellSorted(Records(stale, avgs))
  {
    hide ShellSorted, Records;
  }

  /** The counts, in doubles, that the slaves are granted. */
  ghost predicate Counts(sc: seq<int>, stale: Record, avgs: seq<real>, np: int) {
    |avgs| < |sc| && forall i :: 1 <= i <= |avgs| ==> sc[i] == MAXDIM * Granted(Table(stale, avgs), avgs, np, i)
  }

  lemma CountsFrom(sendcount: array<int>, stale: Record, avgs: seq<real>, np: int)
    requires |avgs| < sendcount.Length
    requires forall i :: 1 <= i <= |avgs| ==> sendcount[i] == MAXDIM * Granted(Table(stale, avgs), avgs, np, i)
    ensures Counts(sendcount[..], stale, avgs, np)
  {
    hide Granted, Table;
  }

  /** What this means without running the sort.  When the leftover record names no slave and no
      average equals its time, the balancer succeeds if and only if it needs no correction, or that
      time is below all averages, or above more of them than are adjusted.  With equal averages, this
      holds outside the gap between the two counts.  A record that names a slave never harms when
      rows are added, nor when that slave has two rows to give; it does when the slave has none. */
  lemma DecidedBefore(stale: Record, avgs: seq<real>, np: int)
    requires avgs != [] && AllAbove(avgs, 0.0)
    ensures var c, f, g := Correction(avgs, np), |Faster(avgs, stale.time)|, |NotSlower(avgs, stale.time)|;
            var k, slave, ok := Magnitude(c), IsSlave(stale.index, |avgs|), Succeeds(stale, avgs, np);
            && (k == 0 || g == 0 || k < f ==> ok)
            && (!slave && 1 <= f && g <= k ==> !ok)
            && (!slave && stale.time !in avgs ==> (ok <==> f == 0 || k < f))
            && (slave && c > 0 ==> ok)
            && (slave && Rint(ShareList(avgs, np)[stale.index - 1]) >= 2 ==> ok)
            && (slave && c < 0 && Rint(ShareList(avgs, np)[stale.index - 1]) < 1 && 1 <= f && g <= k ==> !ok)
  {
    var recs, p := Table(stale, avgs), Place(stale, avgs);
    FasterAmong(avgs, stale.time);
    CorrectionFits(avgs, np);
    TableIsRanked(stale, avgs);
    RankedSlaves(recs, stale, avgs, p);
    MasterRank(recs, stale, avgs, p);
    RestoresIs(recs, stale, avgs, np, p, Correction(avgs, np), Magnitude(Correction(avgs, np)));
    TimesBound(recs, Magnitude(Correction(avgs, np)), stale.index, p);
    TimesAtLeast(recs, Magnitude(Correction(avgs, np)), p);
    hide Ranked, Faster, NotSlower, Correction, Restores, ShareList, Rint, Times, Apart, Table, Place;
  }

  lemma {:induction false} TimesAtLeast(recs: seq<Record>, q: nat, p: int)
    requires q < |recs| && 0 <= p < |recs|
    ensures 1 <= p <= q ==> Times(recs, q, recs[p].index) >= 1
    decreases q
  {
    if q > 0 { TimesAtLeast(recs, q - 1, p); }
  }

  lemma FasterAmong(avgs: seq<real>, t: real)
    ensures |Faster(avgs, t)| <= |NotSlower(avgs, t)|
  {
    SubsetSize(Faster(avgs, t), NotSlower(avgs, t));
  }

  /** The balancer can fail: two slaves with averages 3 and 11, seven vectors, and a leftover
      time of 5.  The shares 5.5 and 1.5 round to 6 and 2, and the vector too many is taken from
      the master instead of from the fast slave. */
  lemma LeftoverFails()
    ensures !Succeeds(Record(0, 5.0), [3.0, 11.0], 7)
  {
    var avgs, stale := [3.0, 11.0], Record(0, 5.0);
    ExampleShares(avgs);
    assert Faster(avgs, stale.time) == {0} && stale.time !in avgs;
    assert !IsSlave(stale.index, |avgs|) && AllAbove(avgs, 0.0);
    hide *;
    DecidedBefore(stale, avgs, 7);
  }

  lemma ExampleShares(avgs: seq<real>)
    requires avgs == [3.0, 11.0]
    ensures Correction(avgs, 7) == -1 && Magnitude(Correction(avgs, 7)) == 1
  {
    var w := Weights(avgs);
    assert w == [1.0 / 3.0, 1.0 / 11.0];
    TwoSum(1.0 / 3.0, 1.0 / 11.0);
    DivideUnique(7.0, 14.0 / 33.0, 16.5);
    var x := ShareList(avgs, 7);
    assert x == [5.5, 1.5];
    var r := Rounded(x);
    assert r == [6, 2];
    TwoTotal(6, 2);
  }

  lemma TwoSum(a: real, b: real)
    ensures Sum([a, b]) == a + b
  {
    var s := [a, b];
    assert s[..1] == [a] && [a][..0] == [] && |s| - 1 == 1;
    assert Sum([a]) == Sum([a][..0]) + a;
  }

  lemma TwoTotal(a: int, b: int)
    ensures Total([a, b]) == a + b
  {
    var s := [a, b];
    assert s[..1] == [a] && [a][..0] == [] && |s| - 1 == 1;
    assert Total([a]) == Total([a][..0]) + a;
  }

  lemma NothingGranted(recs: seq<Record>, avgs: seq<real>, np: int, i: int)
    requires 1 <= i <= |avgs| && Correction(avgs, np) == 0 && Rint(ShareList(avgs, np)[i - 1]) >= 0
    ensures Granted(recs, avgs, np, i) == Rint(ShareList(avgs, np)[i - 1])
  {
    hide ShareList, Rint, Correction;
  }

  ghost predicate Timed(times: seq<Record>, avgs: seq<real>) {
    |times| == |avgs| + 1 && forall i :: 1 <= i < |times| ==> times[i] == Record(i, avgs[i - 1])
  }

  lemma TimedAt(times: seq<Record>, avgs: seq<real>, i: int)
    requires Timed(times, avgs) && 1 <= i < |times|
    ensures times[i] == Record(i, avgs[i - 1])
  {
  }

  lemma TimesAreRecords(times: seq<Record>, stale: Record, m: Run, n: nat)
    requires Measurable(m, n) && |times| == n + 1 && times[0] == stale
    requires forall i :: 1 <= i <= n ==> times[i] == Record(i, Average(m, n, i))
    ensures Timed(times, Averages(m, n)) && times == Records(stale, Averages(m, n))
  {
    var r := Records(stale, Averages(m, n));
    forall i | 0 <= i <= n ensures times[i] == r[i] {
      RecordAt(stale, Averages(m, n), i);
    }
  }

  lemma AboveAt(s: seq<real>, i: int)
    requires AllAbove(s, 0.0) && 0 <= i < |s|
    ensures s[i] > 0.0
  {
  }

  lemma ProposedFrom(c: seq<int>, avgs: seq<real>, np: int, r: seq<int>)
    requires |avgs| < |c| && r == Rounded(ShareList(avgs, np))
    requires forall p :: 1 <= p <= |avgs| ==> c[p] == r[p - 1]
    ensures Proposed(c, avgs, np) && Correction(avgs, np) == np - Total(r)
  {
    hide Rounded, ShareList, Total;
    assert c[1..|avgs| + 1] == r;
  }

  lemma TotalNone(s: seq<int>)
    ensures Total(s[..0]) == 0
  {
  }

  lemma TotalNext(s: seq<int>, i: nat)
    requires i < |s|
    ensures Total(s[..i + 1]) == Total(s[..i]) + s[i]
  {
    assert s[..i + 1][..i] == s[..i];
  }

  lemma TotalFrom(s: seq<int>, i: nat)
    requires 1 <= i < |s|
    ensures Total(s[1..i + 1]) == Total(s[1..i]) + s[i]
  {
    assert s[1..i + 1][..i - 1] == s[1..i];
  }

  lemma SumNext(s: seq<real>, i: nat)
    requires i < |s|
    ensures Sum(s[..i + 1]) == Sum(s[..i]) + s[i]
  {
    assert s[..i + 1][..i] == s[..i];
  }

  lemma SumNone(s: seq<real>)
    ensures Sum(s[..0]) == 0.0
  {
  }

  lemma StartFirst(c: seq<int>, sc: seq<int>)
    requires 1 <= |c| == |sc| && c[0] == 0 && sc[0] == 0
    ensures Start(sc, 0) == 0 && Start(sc, 1) == 0 == Total(c[1..1])
  {
    assert Start(sc, 1) == Start(sc, 0) + Units(sc[0]);
  }

  /** The start of the block after process i, when sc holds MAXDIM doubles for each row of c. */
  lemma StartNext(c: seq<int>, sc: seq<int>, i: nat)
    requires 1 <= i < |c| == |sc| && sc[i] == MAXDIM * c[i]
    requires Start(sc, i) == Total(c[1..i])
    ensures Start(sc, i + 1) == Total(c[1..i + 1]) == Start(sc, i) + c[i]
  {
    assert c[1..i + 1][..i - 1] == c[1..i];
  }

  lemma RankedInRange(recs: seq<Record>, stale: Record, avgs: seq<real>, p: int, size: nat)
    requires Ranked(recs, stale, avgs, p) && 0 <= stale.index < size && |avgs| < size
    ensures InRange(recs, size)
  {
    RankedSlaves(recs, stale, avgs, p);
  }

  lemma ProposedNonNegative(c: seq<int>, avgs: seq<real>, np: int)
    requires Proposed(c, avgs, np) && AllAbove(avgs, 0.0) && np >= 1 && c[0] == 0
    ensures |avgs| < |c| && forall i :: 0 <= i <= |avgs| ==> c[i] >= 0
  {
    forall i | 1 <= i <= |avgs| ensures c[i] >= 0 {
      ProposedAt(c, avgs, np, i);
      ShareOrder(avgs, np, i - 1, i - 1);
      RintIsNear(ShareList(avgs, np)[i - 1]);
    }
  }

  /** The master's count is not adjusted when the total is restored. */
  lemma RepairedUntouched(c: seq<int>, recs: seq<Record>, stale: Record, avgs: seq<real>, np: int, p: int)
    requires Ranked(recs, stale, avgs, p) && Restores(recs, stale, avgs, np, p)
    requires Magnitude(Correction(avgs, np)) < |recs| && InRange(recs, |c|) && |c| > 0 && c[0] == 0
    ensures Repaired(c, recs, Magnitude(Correction(avgs, np)), Correction(avgs, np) > 0)[0] == 0
  {
    var q, up := Magnitude(Correction(avgs, np)), Correction(avgs, np) > 0;
    RankedSlaves(recs, stale, avgs, p);
    RestoresIs(recs, stale, avgs, np, p, Correction(avgs, np), q);
    RepairedAt(c, recs, q, up, 0);
    TimesBound(recs, q, 0, p);
    hide Ranked, Restores, Correction, Times, Repaired, ShareList, Rint;
    assert forall j :: 1 <= j <= q && j != p ==> recs[j].index != 0;
  }
}
