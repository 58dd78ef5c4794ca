/** How the master has the population evaluated by its slaves: the replies arrive in any order,
    and every row still gets its own cost. */
module Gather {
  import opened Layout

  // ----- the memory that is scattered -----

  /** Row q of a population stored row after row, MAXDIM places each, of which d are used. */
  function RowAt(flat: seq<real>, q: int, d: nat): seq<real>
    requires 0 <= q && d <= MAXDIM && MAXDIM * q + MAXDIM <= |flat|
  {
    flat[MAXDIM * q..MAXDIM * q + d]
  }

  /** The rows are stored in flat: coordinate j of row q at place MAXDIM q + j. */
  ghost predicate Stores(flat: seq<real>, rows: seq<seq<real>>, d: nat) {
    && d <= MAXDIM && MAXDIM * |rows| <= |flat|
    && forall q :: 0 <= q < |rows| ==>
         |rows[q]| == d && forall j :: 0 <= j < d ==> flat[MAXDIM * q + j] == rows[q][j]
  }

  lemma StoredRow(flat: seq<real>, rows: seq<seq<real>>, d: nat, q: int)
    requires Stores(flat, rows, d) && 0 <= q < |rows|
    ensures MAXDIM * q + MAXDIM <= |flat| && RowAt(flat, q, d) == rows[q]
  {
  }

  /** What a slave is sent: len doubles from the place where its block begins. */
  function Scattered(flat: seq<real>, displ: int, len: int): seq<real>
    requires 0 <= displ && 0 <= len && displ + len <= |flat|
  {
    flat[displ..displ + len]
  }

  /** Row r of the block of a slave is row j + r of the population. */
  lemma BlockRow(flat: seq<real>, j: int, rows: int, r: int, d: nat)
    requires 0 <= j && 0 <= r < rows && d <= MAXDIM && MAXDIM * (j + rows) <= |flat|
    ensures |Scattered(flat, MAXDIM * j, MAXDIM * rows)| == MAXDIM * rows
    ensures RowAt(Scattered(flat, MAXDIM * j, MAXDIM * rows), r, d) == RowAt(flat, j + r, d)
  {
  }

  /** The costs of the rows j .. j + rows - 1, in order. */
  ghost predicate Reply(reply: seq<real>, flat: seq<real>, j: int, rows: int, d: nat, evaluate: seq<real> -> real)
    requires 0 <= j && 0 <= rows && d <= MAXDIM && MAXDIM * (j + rows) <= |flat|
  {
    |reply| == rows && forall r :: 0 <= r < rows ==> reply[r] == evaluate(RowAt(flat, j + r, d))
  }

  /** A slave: evaluate every row of the block it was sent. */
  method Slave(block: seq<real>, count: int, d: nat, evaluate: seq<real> -> real) returns (reply: seq<real>)
    requires 0 <= count && d <= MAXDIM && |block| == MAXDIM * (count / MAXDIM)
    ensures |reply| == count / MAXDIM
    ensures forall r :: 0 <= r < |reply| ==> reply[r] == evaluate(RowAt(block, r, d))
  {
    reply := [];
    for i := 0 to count / MAXDIM
      invariant |reply| == i
      invariant forall r :: 0 <= r < i ==> reply[r] == evaluate(RowAt(block, r, d))
    {
      reply := reply + [evaluate(RowAt(block, i, d))];
    }
  }

  // ----- the log of what was written -----

  /** Every slot that was written belongs to a slave whose reply is no longer pending, none was
      written twice, and a slave that is no longer pending has all its slots written. */
  ghost predicate Logged(slots: seq<int>, from: seq<int>, sc: seq<int>, n: nat, pending: set<int>) {
    && n < |sc| && |slots| == |from|
    && (forall a :: 0 <= a < |from| ==> 1 <= from[a] <= n && from[a] !in pending && Owns(sc, from[a], slots[a]))
    && (forall a, b :: 0 <= a < b < |slots| ==> slots[a] != slots[b])
    && (forall s, q :: 1 <= s <= n && s !in pending && Owns(sc, s, q) ==> q in slots)
  }

  function Block(j: int, rows: nat): (r: seq<int>)
    ensures |r| == rows && forall k :: 0 <= k < rows ==> r[k] == j + k
  {
    seq(rows, k requires 0 <= k < rows => j + k)
  }

  lemma BlockMember(j: int, rows: nat, q: int)
    ensures q in Block(j, rows) <==> j <= q < j + rows
  {
    if j <= q < j + rows { assert Block(j, rows)[q - j] == q; }
  }

  function Same(s: int, rows: nat): (r: seq<int>)
    ensures |r| == rows && forall k :: 0 <= k < rows ==> r[k] == s
  {
    seq(rows, _ => s)
  }

  lemma LogBlock(slots: seq<int>, from: seq<int>, sc: seq<int>, n: nat, pending: set<int>, s: int)
    requires Logged(slots, from, sc, n, pending) && s in pending && 1 <= s <= n
    requires (forall k :: 0 <= k <= n ==> sc[k] >= 0)
    ensures 0 <= Units(sc[s])
    ensures Logged(slots + Block(Start(sc, s), Units(sc[s])), from + Same(s, Units(sc[s])), sc, n, pending - {s})
  {
    var j, rows := Start(sc, s), Units(sc[s]);
    var t, f := slots + Block(j, rows), from + Same(s, rows);
    forall a, b | 0 <= a < b < |t| ensures t[a] != t[b] {
      if a < |slots| <= b && t[a] == t[b] {
        OwnerIsUnique(sc, n, t[a], from[a], s);
      }
    }
    forall r, q | 1 <= r <= n && r !in pending - {s} && Owns(sc, r, q) ensures q in t {
      BlockMember(j, rows, q);
    }
  }

  lemma MasterOwnsNothing(sc: seq<int>, q: int)
    requires |sc| > 0 && sc[0] == 0
    ensures !Owns(sc, 0, q)
  {
    assert Start(sc, 1) == Start(sc, 0) + Units(sc[0]);
  }

  /** When nothing is pending, every row was written exactly once. */
  lemma LogComplete(slots: seq<int>, from: seq<int>, sc: seq<int>, displs: seq<int>, n: nat, np: int)
    requires Logged(slots, from, sc, n, {}) && Laid(sc, displs, n, np)
    ensures forall q :: q in slots <==> 0 <= q < np
    ensures forall a, b :: 0 <= a < b < |slots| ==> slots[a] != slots[b]
  {
    forall q | 0 <= q < np ensures q in slots {
      var s := OwnerExists(sc, n, q);
      MasterOwnsNothing(sc, q);
      assert 1 <= s <= n && s !in {} && Owns(sc, s, q);
    }
    forall q | q in slots ensures 0 <= q < np {
      var a :| 0 <= a < |slots| && slots[a] == q;
      BlockWithin(sc, n, from[a]);
    }
  }

  /** What the slots hold: the cost of their row where they were written, else what they held before. */
  ghost predicate Filled(cost: seq<real>, was: seq<real>, slots: seq<int>, flat: seq<real>, np: int, d: nat,
                         evaluate: seq<real> -> real)
    requires 0 <= np && d <= MAXDIM && MAXDIM * np <= |flat| && np <= |was| == |cost|
  {
    && (forall q :: q in slots ==> 0 <= q < np && cost[q] == evaluate(RowAt(flat, q, d)))
    && (forall q :: 0 <= q < |cost| && q !in slots ==> cost[q] == was[q])
  }

  lemma FilledBlock(cost: seq<real>, next: seq<real>, was: seq<real>, slots: seq<int>, flat: seq<real>, np: int, d: nat,
                    evaluate: seq<real> -> real, j: int, reply: seq<real>)
    requires 0 <= np && d <= MAXDIM && MAXDIM * np <= |flat| && np <= |was| == |cost| == |next|
    requires Filled(cost, was, slots, flat, np, d, evaluate)
    requires 0 <= j && j + |reply| <= np && Reply(reply, flat, j, |reply|, d, evaluate)
    requires forall q :: 0 <= q < |cost| ==> next[q] == if j <= q < j + |reply| then reply[q - j] else cost[q]
    ensures Filled(next, was, slots + Block(j, |reply|), flat, np, d, evaluate)
  {
    var t := slots + Block(j, |reply|);
    forall q | q in t ensures 0 <= q < np && next[q] == evaluate(RowAt(flat, q, d)) {
      if j <= q < j + |reply| {
        assert reply[q - j] == evaluate(RowAt(flat, j + (q - j), d));
      } else {
        assert q in slots;
      }
    }
    forall q | 0 <= q < |next| && q !in t ensures next[q] == was[q] {
      BlockMember(j, |reply|, q);
    }
  }

  class Master {
    var cost: array<real>

    constructor (size: nat)
      ensures fresh(cost) && cost.Length == size
    {
      cost := new real[size];
    }

    /** Store the reply of one slave from slot j on. */
    method Store(j: int, reply: seq<real>)
      requires 0 <= j && j + |reply| <= cost.Length
      modifies cost
      ensures forall q :: 0 <= q < cost.Length ==>
                cost[q] == if j <= q < j + |reply| then reply[q - j] else old(cost[q])
    {
      for k := 0 to |reply|
        invariant forall q :: 0 <= q < cost.Length ==>
                    cost[q] == if j <= q < j + k then reply[q - j] else old(cost[q])
      {
        cost[j + k] := reply[k];
      }
    }

    /** The row where the block of a slave begins. */
    method FirstRow(sendcount: array<int>, source: nat) returns (j: int)
      requires source <= sendcount.Length
      ensures j == Start(sendcount[..], source)
    {
      j := 0;
      for k := 0 to source
        invariant j == Start(sendcount[..], k)
      {
        j := j + sendcount[k] / MAXDIM;
      }
    }

    /** Scatter the population and let every slave answer; the replies wait in the network. */
    method Scatter(flat: seq<real>, sendcount: array<int>, displs: array<int>, ntasks: nat, ghost np: int, d: nat,
                   evaluate: seq<real> -> real)
      returns (mailbox: map<int, seq<real>>)
      requires 2 <= ntasks <= sendcount.Length && ntasks <= displs.Length
      requires Laid(sendcount[..], displs[..], ntasks - 1, np)
      requires d <= MAXDIM && 0 <= np && MAXDIM * np <= |flat|
      ensures Mailed(mailbox, sendcount[..], ntasks - 1, ntasks - 1, flat, np, d, evaluate)
      ensures forall s :: 1 <= s < ntasks ==> s in mailbox
    {
      hide *;
      ghost var sc, n := sendcount[..], ntasks - 1;
      mailbox := map[];
      NothingPosted(sc, displs[..], n, flat, np, d, evaluate);
      for s := 1 to ntasks
        invariant Posted(mailbox, s) && Mailed(mailbox, sc, n, s - 1, flat, np, d, evaluate)
      {
        LaidAt(sc, displs[..], n, np, s);
        var block := Scattered(flat, displs[s], sendcount[s]);
        ScatteredSize(flat, displs[s], sendcount[s]);
        var reply := Slave(block, sendcount[s], d, evaluate);
        ReplyIs(reply, block, flat, sc, displs[..], n, np, s, d, evaluate);
        PostNext(mailbox, sc, n, flat, np, d, evaluate, s, reply);
        mailbox := mailbox[s := reply];
      }
      AllPosted(mailbox, ntasks);
    }

    /** Put the reply of one slave where the blocks before it end. */
    method Receive(source: int, reply: seq<real>, sendcount: array<int>, flat: seq<real>, ghost np: int, ghost d: nat,
                   ghost evaluate: seq<real> -> real, ghost was: seq<real>, ghost slots: seq<int>)
      requires 0 <= source < sendcount.Length && d <= MAXDIM && 0 <= np <= cost.Length && MAXDIM * np <= |flat|
      requires |was| == cost.Length && Filled(cost[..], was, slots, flat, np, d, evaluate)
      requires 0 <= Start(sendcount[..], source) && Start(sendcount[..], source) + |reply| <= np
      requires Reply(reply, flat, Start(sendcount[..], source), |reply|, d, evaluate)
      modifies cost
      ensures Filled(cost[..], was, slots + Block(Start(sendcount[..], source), |reply|), flat, np, d, evaluate)
    {
      hide *;
      ghost var cells := cost[..];
      var j := FirstRow(sendcount, source);
      Store(j, reply);
      FilledBlock(cells, cost[..], was, slots, flat, np, d, evaluate, j, reply);
    }

    /** Gather the replies in whatever order they arrive. */
    method Gather(mailbox: map<int, seq<real>>, flat: seq<real>, sendcount: array<int>, displs: array<int>, ntasks: nat,
                  ghost np: int, ghost d: nat, ghost evaluate: seq<real> -> real)
      returns (ghost slots: seq<int>)
      requires 2 <= ntasks <= sendcount.Length && Laid(sendcount[..], displs[..], ntasks - 1, np)
      requires d <= MAXDIM && 0 <= np && MAXDIM * np <= |flat| && np <= cost.Length
      requires Mailed(mailbox, sendcount[..], ntasks - 1, ntasks - 1, flat, np, d, evaluate)
      requires forall s :: 1 <= s < ntasks ==> s in mailbox
      modifies cost
      ensures Filled(cost[..], old(cost[..]), slots, flat, np, d, evaluate)
      ensures forall q :: q in slots <==> 0 <= q < np
      ensures forall a, b :: 0 <= a < b < |slots| ==> slots[a] != slots[b]
    {
      hide *;
      ghost var sc, n, was := sendcount[..], ntasks - 1, cost[..];
      ghost var from: seq<int> := [];
      slots := [];
      var network := mailbox;
      StartLog(sc, n, network.Keys, was, flat, np, d, evaluate);
      for i := 1 to ntasks
        invariant Mailed(network, sc, n, ntasks - i, flat, np, d, evaluate)
        invariant Logged(slots, from, sc, n, network.Keys)
        invariant Filled(cost[..], was, slots, flat, np, d, evaluate)
      {
        Waiting(network, sc, n, ntasks - i, flat, np, d, evaluate);
        var source :| source in network;
        var reply := network[source];
        MailFrom(network, sc, n, ntasks - i, flat, np, d, evaluate, source, displs[..]);
        Receive(source, reply, sendcount, flat, np, d, evaluate, was, slots);
        LogReceived(slots, from, sc, n, network, source);
        slots, from := slots + Block(Start(sc, source), Units(sc[source])), from + Same(source, Units(sc[source]));
        network := network - {source};
      }
      Waiting(network, sc, n, 0, flat, np, d, evaluate);
      LogComplete(slots, from, sc, displs[..], n, np);
    }

    /** Send one row to each slave, as far as there are rows; the replies wait in the network. */
    method SendRound(rows: seq<seq<real>>, m: int, np: int, base: int, evaluate: seq<real> -> real)
      returns (network: map<int, real>, sent: nat)
      requires 1 <= m && 0 <= base <= np == |rows|
      ensures sent == RoundSize(m, np, base)
      ensures InRound(network, sent, sent, base, rows, evaluate)
      ensures forall s :: s in network <==> 1 <= s <= sent
    {
      network, sent := map[], 0;
      for j := 0 to m
        invariant sent == RoundSize(j, np, base)
        invariant InRound(network, sent, sent, base, rows, evaluate)
        invariant forall s :: s in network <==> 1 <= s <= sent
      {
        if j + base <= np - 1 {
          assert j + 1 !in network;
          network := network[j + 1 := evaluate(rows[j + base])];
          sent := sent + 1;
        }
      }
    }

    /** Take the replies of a round as they come; the slot follows from the sender. */
    method ReceiveRound(mailbox: map<int, real>, rows: seq<seq<real>>, m: int, np: int, base: int,
                        evaluate: seq<real> -> real, ghost slots: seq<int>)
      returns (ghost log: seq<int>)
      requires 1 <= m && 0 <= base <= np == |rows| && np <= cost.Length
      requires InRound(mailbox, RoundSize(m, np, base), RoundSize(m, np, base), base, rows, evaluate)
      requires RoundLog(slots, mailbox, RoundSize(m, np, base), base)
      requires Costed(slots, cost[..], rows, evaluate)
      modifies cost
      ensures RoundLog(log, map[], RoundSize(m, np, base), base)
      ensures Costed(log, cost[..], rows, evaluate) && cost[np..] == old(cost[np..])
    {
      hide InRound, RoundLog, Costed, RoundSize;
      ghost var size := RoundSize(m, np, base);
      var network := mailbox;
      log := slots;
      RoundSizes(m, np, base, 0);
      for j := 0 to m
        invariant InRound(network, size - RoundSize(j, np, base), size, base, rows, evaluate)
        invariant RoundLog(log, network, size, base)
        invariant Costed(log, cost[..], rows, evaluate) && cost[np..] == old(cost[np..])
      {
        RoundSizes(m, np, base, j);
        if j + base <= np - 1 {
          NoneLeft(network, size - RoundSize(j, np, base), size, base, rows, evaluate);
          var source :| source in network;
          TakeOne(network, size - RoundSize(j, np, base), size, base, rows, evaluate, source);
          RoundLogNext(log, network, size, base, source);
          CostedNext(log, cost[..], rows, evaluate, source + base - 1);
          Write(source + base - 1, network[source], np);
          network := network - {source};
          log := log + [base + source - 1];
        }
      }
      NoneLeft(network, 0, size, base, rows, evaluate);
    }

    /** Write one slot below np. */
    method Write(q: int, v: real, ghost np: int)
      requires 0 <= q < np <= cost.Length
      modifies cost
      ensures cost[..] == old(cost[..])[q := v] && cost[np..] == old(cost[np..])
    {
      cost[q] := v;
    }

    /** Method 1: rounds of at most m rows; every row is evaluated and its slot written once. */
    method Batched(rows: seq<seq<real>>, m: int, np: int, evaluate: seq<real> -> real)
      returns (nfeval: nat, ghost slots: seq<int>)
      requires 1 <= m && np == |rows| && np <= cost.Length
      modifies cost
      ensures nfeval == np
      ensures forall q :: 0 <= q < np ==> cost[q] == evaluate(rows[q])
      ensures forall q :: np <= q < cost.Length ==> cost[q] == old(cost[q])
      ensures Covered(slots, np)
    {
      hide InRound, RoundLog, Covered, Costed, RoundSize;
      nfeval, slots := 0, [];
      var base := 0;
      NoneCovered();
      NoneCosted(cost[..], rows, evaluate);
      for i := 0 to np / m + 1
        invariant base == m * i && nfeval == Min(base, np)
        invariant Covered(slots, Min(base, np))
        invariant Costed(slots, cost[..], rows, evaluate) && cost[np..] == old(cost[np..])
      {
        RoundStarts(m, np, i, base);
        var network, sent := SendRound(rows, m, np, base, evaluate);
        nfeval := nfeval + sent;
        OpenRound(slots, network, sent, base);
        slots := ReceiveRound(network, rows, m, np, base, evaluate, slots);
        CloseRound(slots, sent, base);
        base := base + m;
      }
      RoundsEnd(m, np);
      AllCosted(slots, cost[..], rows, evaluate);
      SameFrom(cost[..], old(cost[..]), np);
      assert forall q :: 0 <= q < np ==> cost[..][q] == cost[q];
      assert forall q :: np <= q < cost.Length ==> cost[..][q] == cost[q] && old(cost[..])[q] == old(cost[q]);
    }

    /** Methods 2 and 3: for every order of arrival each row is evaluated and its slot written
        exactly once. */
    method Exchange(flat: seq<real>, sendcount: array<int>, displs: array<int>, ntasks: nat, ghost np: int, d: nat,
                    evaluate: seq<real> -> real)
      returns (ghost slots: seq<int>)
      requires 2 <= ntasks && Laid(sendcount[..], displs[..], ntasks - 1, np)
      requires d <= MAXDIM && 0 <= np && MAXDIM * np <= |flat| && np <= cost.Length
      modifies cost
      ensures forall q :: 0 <= q < np ==> cost[q] == evaluate(RowAt(flat, q, d))
      ensures forall q :: np <= q < cost.Length ==> cost[q] == old(cost[q])
      ensures forall q :: q in slots <==> 0 <= q < np
      ensures forall a, b :: 0 <= a < b < |slots| ==> slots[a] != slots[b]
    {
      assert ntasks <= sendcount.Length && ntasks <= displs.Length;
      hide Laid, Mailed;
      var mailbox := Scatter(flat, sendcount, displs, ntasks, np, d, evaluate);
      slots := Gather(mailbox, flat, sendcount, displs, ntasks, np, d, evaluate);
      assert forall q :: 0 <= q < np ==> q in slots && cost[..][q] == cost[q];
      assert forall q :: np <= q < cost.Length ==>
          q !in slots && cost[..][q] == cost[q] && old(cost[..])[q] == old(cost[q]);
    }
  }

  // ----- method 1: one row to each slave, round after round -----

  function Min(a: int, b: int): int {
    if a < b then a else b
  }

  /** The rows of a round that begins with row base. */
  function RoundSize(m: int, np: int, base: int): int {
    if base >= np then 0 else Min(m, np - base)
  }

  /** The replies that are still on their way in a round: count of them, from slaves 1 .. size. */
  ghost predicate InRound(network: map<int, real>, count: int, size: int, base: int, rows: seq<seq<real>>,
                          evaluate: seq<real> -> real) {
    && |network| == count && 0 <= base && base + size <= |rows|
    && forall s :: s in network ==> 1 <= s <= size && network[s] == evaluate(rows[base + s - 1])
  }

  lemma NoneLeft(network: map<int, real>, count: int, size: int, base: int, rows: seq<seq<real>>,
                 evaluate: seq<real> -> real)
    requires InRound(network, count, size, base, rows, evaluate)
    ensures count > 0 ==> exists s :: s in network
    ensures count == 0 ==> network == map[]
  {
    assert |network.Keys| == |network|;
    if count > 0 {
      var s := AnyOf(network.Keys);
      assert s in network;
    }
  }

  /** How many replies the first j of a round are, and whether one more is expected. */
  lemma RoundSizes(m: int, np: int, base: int, j: int)
    requires 0 <= j <= m && 0 <= base <= np
    ensures 0 <= RoundSize(j, np, base) <= RoundSize(m, np, base) && base + RoundSize(m, np, base) <= np
    ensures RoundSize(0, np, base) == 0
    ensures j < m && j + base <= np - 1 ==>
              RoundSize(j + 1, np, base) == RoundSize(j, np, base) + 1 <= RoundSize(m, np, base)
    ensures j < m && j + base > np - 1 ==> RoundSize(j + 1, np, base) == RoundSize(j, np, base)
  {
  }

  /** Every slot written holds the cost of its row. */
  ghost predicate Costed(slots: seq<int>, cost: seq<real>, rows: seq<seq<real>>, evaluate: seq<real> -> real) {
    |rows| <= |cost| && forall q :: q in slots ==> 0 <= q < |rows| && cost[q] == evaluate(rows[q])
  }

  lemma NoneCosted(cost: seq<real>, rows: seq<seq<real>>, evaluate: seq<real> -> real)
    requires |rows| <= |cost|
    ensures Costed([], cost, rows, evaluate)
  {
  }

  lemma CostedNext(slots: seq<int>, cost: seq<real>, rows: seq<seq<real>>, evaluate: seq<real> -> real, q: int)
    requires Costed(slots, cost, rows, evaluate) && 0 <= q < |rows|
    ensures |rows| <= |cost| && Costed(slots + [q], cost[q := evaluate(rows[q])], rows, evaluate)
  {
  }

  lemma AllCosted(slots: seq<int>, cost: seq<real>, rows: seq<seq<real>>, evaluate: seq<real> -> real)
    requires Covered(slots, |rows|) && Costed(slots, cost, rows, evaluate)
    ensures |rows| <= |cost| && forall q :: 0 <= q < |rows| ==> cost[q] == evaluate(rows[q])
  {
  }

  lemma SameFrom(c: seq<real>, d: seq<real>, n: int)
    requires |c| == |d| && 0 <= n <= |c| && c[n..] == d[n..]
    ensures forall q :: n <= q < |c| ==> c[q] == d[q]
  {
    forall q | n <= q < |c| ensures c[q] == d[q] {
      assert c[q] == c[n..][q - n] && d[q] == d[n..][q - n];
    }
  }

  lemma TakeOne(network: map<int, real>, count: int, size: int, base: int, rows: seq<seq<real>>,
                evaluate: seq<real> -> real, s: int)
    requires InRound(network, count, size, base, rows, evaluate) && s in network
    ensures 0 <= base && 1 <= s <= size && base + size <= |rows| && network[s] == evaluate(rows[base + s - 1])
    ensures InRound(network - {s}, count - 1, size, base, rows, evaluate)
  {
    var rest := network - {s};
    assert network == rest[s := network[s]];
    assert |network| == |rest| + 1;
  }

  /** The slots written so far: all of the rounds before base, and of this round those whose reply
      is no longer on its way; none twice. */
  ghost predicate RoundLog(slots: seq<int>, network: map<int, real>, size: int, base: int) {
    && (forall a :: 0 <= a < |slots| ==> 0 <= slots[a] < base + size && slots[a] - base + 1 !in network)
    && (forall a, b :: 0 <= a < b < |slots| ==> slots[a] != slots[b])
    && (forall q :: 0 <= q < base + size && q - base + 1 !in network ==> q in slots)
  }

  lemma RoundLogNext(slots: seq<int>, network: map<int, real>, size: int, base: int, s: int)
    requires RoundLog(slots, network, size, base) && s in network && 1 <= s <= size && 0 <= base
    ensures RoundLog(slots + [base + s - 1], network - {s}, size, base)
  {
    var t := slots + [base + s - 1];
    assert t[|slots|] == base + s - 1;
    forall q | 0 <= q < base + size && q - base + 1 !in network - {s} ensures q in t {
      if q - base + 1 != s { assert q in slots; }
    }
  }

  /** The slots 0 .. top - 1, each once. */
  ghost predicate Covered(slots: seq<int>, top: int) {
    && (forall q :: q in slots <==> 0 <= q < top)
    && (forall a, b :: 0 <= a < b < |slots| ==> slots[a] != slots[b])
  }

  lemma NoneCovered()
    ensures Covered([], 0)
  {
  }

  lemma OpenRound(slots: seq<int>, network: map<int, real>, size: int, base: int)
    requires Covered(slots, base) && 0 <= size && 0 <= base
    requires forall s :: s in network <==> 1 <= s <= size
    ensures RoundLog(slots, network, size, base)
  {
    forall a | 0 <= a < |slots| ensures 0 <= slots[a] < base {
      assert slots[a] in slots;
    }
  }

  lemma CloseRound(slots: seq<int>, size: int, base: int)
    requires RoundLog(slots, map[], size, base)
    ensures Covered(slots, base + size)
  {
    var none: map<int, real> := map[];
    forall q | q in slots ensures 0 <= q < base + size {
      var a :| 0 <= a < |slots| && slots[a] == q;
    }
    forall q | 0 <= q < base + size ensures q in slots {
      assert q - base + 1 !in none;
    }
  }

  lemma RoundStarts(m: int, np: int, i: int, base: int)
    requires 1 <= m && 0 <= np && 0 <= i < np / m + 1 && base == m * i
    ensures 0 <= base <= np && base + RoundSize(m, np, base) == Min(base + m, np) && base + m == m * (i + 1)
  {
    var t := np / m;
    assert np == m * t + np % m;
    assert m * i <= m * t by { TimesOrder(m, i, t); }
  }

  lemma TimesOrder(m: int, i: int, t: int)
    requires 1 <= m && i <= t
    ensures m * i <= m * t
  {
  }

  lemma RoundsEnd(m: int, np: int)
    requires 1 <= m && 0 <= np
    ensures m * (np / m + 1) >= np
  {
    assert np == m * (np / m) + np % m;
  }

  lemma LogReceived(slots: seq<int>, from: seq<int>, sc: seq<int>, n: nat, network: map<int, seq<real>>, s: int)
    requires Logged(slots, from, sc, n, network.Keys) && s in network && 1 <= s <= n
    requires n < |sc| && (forall k :: 0 <= k <= n ==> sc[k] >= 0)
    ensures 0 <= Units(sc[s])
    ensures Logged(slots + Block(Start(sc, s), Units(sc[s])), from + Same(s, Units(sc[s])), sc, n, (network - {s}).Keys)
  {
    LogBlock(slots, from, sc, n, network.Keys, s);
    hide Logged;
    assert (network - {s}).Keys == network.Keys - {s};
  }

  /** The network holds the replies of count slaves, each of them the costs of its block. */
  ghost predicate Mailed(mailbox: map<int, seq<real>>, sc: seq<int>, n: nat, count: int, flat: seq<real>, np: int,
                         d: nat, evaluate: seq<real> -> real) {
    && |mailbox| == count && n < |sc| && d <= MAXDIM && 0 <= np && MAXDIM * np <= |flat|
    && (forall s :: s in mailbox ==>
        && 1 <= s <= n
        && 0 <= Start(sc, s) && 0 <= Units(sc[s]) && Start(sc, s) + Units(sc[s]) <= np
        && Reply(mailbox[s], flat, Start(sc, s), Units(sc[s]), d, evaluate))
  }

  lemma ReplyIs(reply: seq<real>, block: seq<real>, flat: seq<real>, sc: seq<int>, displs: seq<int>, n: nat, np: int,
                s: int, d: nat, evaluate: seq<real> -> real)
    requires Laid(sc, displs, n, np) && 1 <= s <= n && d <= MAXDIM && MAXDIM * np <= |flat|
    requires 0 <= Start(sc, s) && 0 <= Units(sc[s]) && Start(sc, s) + Units(sc[s]) <= np
    requires block == Scattered(flat, displs[s], sc[s])
    requires |block| == MAXDIM * Units(sc[s]) && |reply| == Units(sc[s])
    requires forall r :: 0 <= r < |reply| ==> reply[r] == evaluate(RowAt(block, r, d))
    ensures Reply(reply, flat, Start(sc, s), Units(sc[s]), d, evaluate)
  {
    var j, rows := Start(sc, s), Units(sc[s]);
    assert sc[s] == MAXDIM * rows && displs[s] == MAXDIM * j;
    hide *;
    forall r | 0 <= r < rows ensures reply[r] == evaluate(RowAt(flat, j + r, d)) {
      BlockRow(flat, j, rows, r, d);
    }
    ReplyFrom(reply, flat, j, rows, d, evaluate);
  }

  lemma ReplyFrom(reply: seq<real>, flat: seq<real>, j: int, rows: int, d: nat, evaluate: seq<real> -> real)
    requires 0 <= j && 0 <= rows && d <= MAXDIM && MAXDIM * (j + rows) <= |flat| && |reply| == rows
    requires forall r :: 0 <= r < rows ==> reply[r] == evaluate(RowAt(flat, j + r, d))
    ensures Reply(reply, flat, j, rows, d, evaluate)
  {
  }

  lemma StartLog(sc: seq<int>, n: nat, pending: set<int>, was: seq<real>, flat: seq<real>, np: int, d: nat,
                 evaluate: seq<real> -> real)
    requires n < |sc| && forall s :: 1 <= s <= n ==> s in pending
    requires d <= MAXDIM && 0 <= np && MAXDIM * np <= |flat| && np <= |was|
    ensures Logged([], [], sc, n, pending) && Filled(was, was, [], flat, np, d, evaluate)
  {
  }

  /** As long as replies are expected, one is there; when none is expected, none is left. */
  lemma Waiting(mailbox: map<int, seq<real>>, sc: seq<int>, n: nat, count: int, flat: seq<real>, np: int,
                d: nat, evaluate: seq<real> -> real)
    requires Mailed(mailbox, sc, n, count, flat, np, d, evaluate)
    ensures count > 0 ==> exists s :: s in mailbox
    ensures count == 0 ==> mailbox.Keys == {}
  {
    assert |mailbox.Keys| == |mailbox|;
    if count > 0 {
      var s := AnyOf(mailbox.Keys);
      assert s in mailbox;
    }
  }

  lemma AnyOf<T>(s: set<T>) returns (x: T)
    requires |s| > 0
    ensures x in s
  {
    assert s != {};
    x :| x in s;
  }

  /** The replies of the slaves before s are there. */
  ghost predicate Posted(mailbox: map<int, seq<real>>, s: int) {
    forall r :: r in mailbox <==> 1 <= r < s
  }

  lemma AllPosted(mailbox: map<int, seq<real>>, s: int)
    requires Posted(mailbox, s)
    ensures forall r :: 1 <= r < s ==> r in mailbox
  {
  }

  lemma NothingPosted(sc: seq<int>, displs: seq<int>, n: nat, flat: seq<real>, np: int, d: nat,
                      evaluate: seq<real> -> real)
    requires Laid(sc, displs, n, np) && d <= MAXDIM && 0 <= np && MAXDIM * np <= |flat|
    ensures Posted(map[], 1) && Mailed(map[], sc, n, 0, flat, np, d, evaluate)
  {
  }

  lemma PostNext(mailbox: map<int, seq<real>>, sc: seq<int>, n: nat, flat: seq<real>, np: int, d: nat,
                 evaluate: seq<real> -> real, s: int, reply: seq<real>)
    requires Posted(mailbox, s) && Mailed(mailbox, sc, n, s - 1, flat, np, d, evaluate) && 1 <= s <= n
    requires 0 <= Start(sc, s) && 0 <= Units(sc[s]) && Start(sc, s) + Units(sc[s]) <= np
    requires Reply(reply, flat, Start(sc, s), Units(sc[s]), d, evaluate)
    ensures Posted(mailbox[s := reply], s + 1) && Mailed(mailbox[s := reply], sc, n, s, flat, np, d, evaluate)
  {
    hide Reply, Start, Units;
    assert s !in mailbox;
  }

  lemma LaidAt(sc: seq<int>, displs: seq<int>, n: nat, np: int, s: int)
    requires Laid(sc, displs, n, np) && 1 <= s <= n
    ensures n < |sc| && n < |displs|
    ensures displs[s] == MAXDIM * Start(sc, s) && sc[s] == MAXDIM * Units(sc[s]) && Units(sc[s]) == sc[s] / MAXDIM
    ensures 0 <= Start(sc, s) && 0 <= Units(sc[s]) && Start(sc, s) + Units(sc[s]) <= np
  {
    BlockWithin(sc, n, s);
  }

  lemma ScatteredSize(flat: seq<real>, displ: int, len: int)
    requires 0 <= displ && 0 <= len && displ + len <= |flat|
    ensures |Scattered(flat, displ, len)| == len
  {
  }

  lemma MailFrom(mailbox: map<int, seq<real>>, sc: seq<int>, n: nat, count: int, flat: seq<real>, np: int,
                 d: nat, evaluate: seq<real> -> real, source: int, displs: seq<int>)
    requires Mailed(mailbox, sc, n, count, flat, np, d, evaluate) && source in mailbox && Laid(sc, displs, n, np)
    ensures Mailed(mailbox - {source}, sc, n, count - 1, flat, np, d, evaluate)
    ensures 1 <= source <= n < |sc| && forall k :: 0 <= k <= n ==> sc[k] >= 0
    ensures var j, rows := Start(sc, source), Units(sc[source]);
            0 <= j && 0 <= rows && j + rows <= np && |mailbox[source]| == rows
            && Reply(mailbox[source], flat, j, rows, d, evaluate)
  {
    var rest := mailbox - {source};
    assert mailbox == rest[source := mailbox[source]];
    assert |mailbox| == |rest| + 1;
  }
}
