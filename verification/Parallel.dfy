/** One generation of the parallel optimiser, as its third method does it: the load balancer lays
    the rows out, and the slaves evaluate them. */
module Parallel {
  import opened Layout
  import opened Shares
  import opened ShellSort
  import LoadBalancer
  import Gather

  /** What the balancer asks of its inputs, apart from the clock. */
  ghost predicate Prepared(m: LoadBalancer.Run, n: nat) {
    LoadBalancer.Measurable(m, n) && LoadBalancer.AllMeasured(m, n)
  }

  /** The slots 0 .. np - 1 hold the costs of their rows, and the others what they held. */
  ghost predicate Evaluated(cost: seq<real>, was: seq<real>, flat: seq<real>, np: int, d: nat,
                            evaluate: seq<real> -> real)
  {
    && |cost| == |was| && 0 <= np <= |cost| && d <= MAXDIM && MAXDIM * np <= |flat|
    && (forall q :: 0 <= q < np ==> cost[q] == evaluate(Gather.RowAt(flat, q, d)))
    && (forall q :: np <= q < |cost| ==> cost[q] == was[q])
  }

  /** Balance and evaluate.  If the balancer does not give up, every row has its cost in its slot,
      whatever the order of arrival; and the next generation finds what the balancer asks for. */
  method EvaluateBalanced(lb: LoadBalancer.LoadBalancer, master: Gather.Master, sendcount: array<int>,
                          displs: array<int>, start: real, end: array<real>, flat: seq<real>, ntasks: nat, np: int,
                          d: nat, stale: Record, ceiling: real, evaluate: seq<real> -> real,
                          ghost m: LoadBalancer.Run)
    returns (ok: bool)
    requires 2 <= ntasks <= sendcount.Length && ntasks <= displs.Length && np >= 1 && ceiling > 0.0
    requires m == lb.Snapshot(sendcount, start, end, master.cost) && Prepared(m, ntasks - 1)
    requires 0 <= stale.index < sendcount.Length && sendcount != displs
    requires lb.history != end && lb.history != master.cost && end != master.cost
    requires d <= MAXDIM && MAXDIM * np <= |flat| && np <= master.cost.Length
    modifies lb.history, sendcount, displs, master.cost
    ensures ok <==> LoadBalancer.Succeeds(stale, LoadBalancer.Averages(m, ntasks - 1), np)
    ensures ok ==> Laid(sendcount[..], displs[..], ntasks - 1, np)
    ensures ok ==> LoadBalancer.Counts(sendcount[..], stale, LoadBalancer.Averages(m, ntasks - 1), np)
    ensures ok ==> Evaluated(master.cost[..], old(master.cost[..]), flat, np, d, evaluate)
    ensures ok ==> PreparedNext(lb, sendcount, end, master.cost, ntasks - 1)
  {
    hide *;
    MeasuredSizes(m, ntasks - 1);
    SnapshotIs(lb, sendcount, start, end, master.cost);
    ok := lb.Balance(sendcount, displs, start, end, master.cost, ntasks, np, stale, ceiling, m);
    if !ok { return; }
    Evaluate(master, sendcount, displs, flat, ntasks, np, d, evaluate);
    AlwaysPrepared(lb, sendcount, displs, end, master.cost, ntasks - 1, np, m);
  }

  /** Whenever the next generation is timed, the balancer can work. */
  ghost predicate PreparedNext(lb: LoadBalancer.LoadBalancer, sendcount: array<int>, end: array<real>,
                               cost: array<real>, n: nat)
    reads lb.history, sendcount, end, cost
  {
    forall t: real :: Prepared(lb.Snapshot(sendcount, t, end, cost), n)
  }

  lemma AlwaysPrepared(lb: LoadBalancer.LoadBalancer, sendcount: array<int>, displs: array<int>, end: array<real>,
                       cost: array<real>, n: nat, np: int, m: LoadBalancer.Run)
    requires Laid(sendcount[..], displs[..], n, np) && np <= cost.Length && n < end.Length && lb.Remembers(m, n)
    ensures PreparedNext(lb, sendcount, end, cost, n)
  {
    hide Laid, Prepared;
    forall t: real ensures Prepared(lb.Snapshot(sendcount, t, end, cost), n) {
      NextIsPrepared(lb, sendcount, displs, t, end, cost, n, np);
    }
  }

  method Evaluate(master: Gather.Master, sendcount: array<int>, displs: array<int>, flat: seq<real>, ntasks: nat,
                  np: int, d: nat, evaluate: seq<real> -> real)
    requires 2 <= ntasks && Laid(sendcount[..], displs[..], ntasks - 1, np) && 0 <= np
    requires d <= MAXDIM && MAXDIM * np <= |flat| && np <= master.cost.Length
    modifies master.cost
    ensures Evaluated(master.cost[..], old(master.cost[..]), flat, np, d, evaluate)
  {
    hide Laid;
    ghost var slots := master.Exchange(flat, sendcount, displs, ntasks, np, d, evaluate);
  }

  lemma MeasuredSizes(m: LoadBalancer.Run, n: nat)
    requires Prepared(m, n)
    ensures LoadBalancer.Measurable(m, n) && LoadBalancer.AllMeasured(m, n) && n < |m.end| && n < |m.history|
  {
  }

  lemma SnapshotIs(lb: LoadBalancer.LoadBalancer, sendcount: array<int>, t: real, end: array<real>, cost: array<real>)
    ensures lb.Snapshot(sendcount, t, end, cost)
         == LoadBalancer.Run(sendcount[..], t, end[..], cost[..], lb.history[..])
  {
  }

  lemma NextIsPrepared(lb: LoadBalancer.LoadBalancer, sendcount: array<int>, displs: array<int>, t: real,
                       end: array<real>, cost: array<real>, n: nat, np: int)
    requires Laid(sendcount[..], displs[..], n, np) && np <= cost.Length && n < end.Length && n < lb.history.Length
    requires forall i :: 1 <= i <= n ==> lb.history[i] > 0.0
    ensures Prepared(lb.Snapshot(sendcount, t, end, cost), n)
  {
    SnapshotIs(lb, sendcount, t, end, cost);
    hide *;
    assert forall i :: 1 <= i <= n ==> lb.history[..][i] == lb.history[i];
    LaidIsPrepared(lb.Snapshot(sendcount, t, end, cost), displs[..], n, np);
  }

  /** A layout, with a positive average remembered of every slave, is all the balancer needs. */
  lemma LaidIsPrepared(m: LoadBalancer.Run, displs: seq<int>, n: nat, np: int)
    requires Laid(m.sc, displs, n, np) && np <= |m.cost| && n < |m.end| && n < |m.history|
    requires forall i :: 1 <= i <= n ==> m.history[i] > 0.0
    ensures Prepared(m, n)
  {
    hide Start;
  }
}
