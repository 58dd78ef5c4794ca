/** The Shell sort of the load balancer: records of a process index and its average time, in
    order of time. */
module ShellSort {
  import opened IntMath

  datatype Record = Record(index: int, time: real)

  ghost predicate Sorted(s: seq<Record>) {
    forall i, j :: 0 <= i < j < |s| ==> s[i].time <= s[j].time
  }

  lemma SwapKeeps(s: seq<Record>, i: nat, j: nat)
    requires i < |s| && j < |s|
    ensures multiset(s[i := s[j]][j := s[i]]) == multiset(s)
  {
  }

  /** With v at j, s is a rearrangement of t. */
  ghost predicate Holds(s: seq<Record>, j: int, v: Record, t: seq<Record>) {
    0 <= j < |s| && multiset(s[j := v]) == multiset(t)
  }

  /** Moving entry k to j moves the place that v is meant for from j to k. */
  lemma ShiftKeeps(s: seq<Record>, j: nat, k: nat, v: Record, t: seq<Record>)
    requires k < j && Holds(s, j, v, t)
    ensures Holds(s[j := s[k]], k, v, t)
  {
    var u := s[j := v];
    SwapKeeps(u, j, k);
    assert s[j := s[k]][k := v] == u[j := u[k]][k := u[j]];
  }

  /** The first n entries are in order, leaving out entry j, and v belongs there or before. */
  ghost predicate Around(s: seq<Record>, n: int, j: int, v: Record) {
    && 0 <= j < n <= |s|
    && (forall p, q :: 0 <= p < q < n && p != j && q != j ==> s[p].time <= s[q].time)
    && (forall q :: j < q < n ==> v.time <= s[q].time)
  }

  lemma AroundStart(s: seq<Record>, i: int)
    requires 0 <= i < |s| && Sorted(s[..i])
    ensures Around(s, i + 1, i, s[i])
  {
    forall p, q | 0 <= p < q < i ensures s[p].time <= s[q].time {
      assert s[..i][p] == s[p] && s[..i][q] == s[q];
    }
  }

  lemma AroundStep(s: seq<Record>, n: int, j: int, v: Record)
    requires Around(s, n, j, v) && j >= 1 && v.time < s[j - 1].time
    ensures Around(s[j := s[j - 1]], n, j - 1, v)
  {
  }

  lemma Placed(s: seq<Record>, n: int, j: int, v: Record)
    requires Around(s, n, j, v) && (j == 0 || s[j - 1].time <= v.time)
    ensures Sorted(s[j := v][..n])
  {
    var t := s[j := v][..n];
    forall p, q | 0 <= p < q < |t| ensures t[p].time <= t[q].time {
      if q == j && p < j - 1 { assert s[p].time <= s[j - 1].time; }
    }
  }

  // ----- the sort as a function of the records -----

  /** Every later record that is whole gaps before place j moves up, and v goes where that ends. */
  function Slid(s: seq<Record>, j: int, gap: int, v: Record): (r: seq<Record>)
    requires 0 <= j < |s| && 1 <= gap
    ensures |r| == |s|
    decreases j
  {
    if j >= gap && v.time < s[j - gap].time then Slid(s[j := s[j - gap]], j - gap, gap, v) else s[j := v]
  }

  /** One pass with a fixed gap, from entry i on. */
  function Passed(s: seq<Record>, i: int, gap: int): (r: seq<Record>)
    requires 0 <= i && 1 <= gap
    ensures |r| == |s|
    decreases |s| - i
  {
    if i >= |s| then s else Passed(Slid(s, i, gap, s[i]), i + 1, gap)
  }

  /** Passes with this gap, half of it, and so on down to 1. */
  function Sweeps(s: seq<Record>, gap: int): (r: seq<Record>)
    requires 0 <= gap
    ensures |r| == |s|
    decreases gap
  {
    if gap == 0 then s else Sweeps(Passed(s, gap, gap), gap / 2)
  }

  /** The first gap: a power of two above a quarter of the length. */
  function FirstGap(gap: int, n: int): (g: int)
    requires 1 <= gap
    ensures 1 <= g
    decreases n - gap
  {
    if gap <= n / 4 then FirstGap(2 * gap, n) else gap
  }

  /** That is, a power of two of which the half is at most that quarter. */
  lemma {:induction false} FirstGapIs(gap: int, n: int) returns (k: nat)
    requires 1 <= gap
    ensures var g := FirstGap(gap, n);
            g == gap * TwoTo(k) && g > n / 4 && (k > 0 ==> gap * TwoTo(k - 1) <= n / 4)
    decreases n - gap
  {
    if gap <= n / 4 {
      k := FirstGapIs(2 * gap, n);
      assert 2 * gap * TwoTo(k) == gap * TwoTo(k + 1);
      assert k > 0 ==> 2 * gap * TwoTo(k - 1) == gap * TwoTo(k);
      k := k + 1;
    } else {
      k := 0;
    }
  }

  function TwoTo(k: nat): int {
    if k == 0 then 1 else 2 * TwoTo(k - 1)
  }

  function ShellSorted(s: seq<Record>): (r: seq<Record>)
    ensures |r| == |s|
  {
    Sweeps(s, FirstGap(1, |s|))
  }

  lemma {:induction false} SlidKeeps(s: seq<Record>, j: int, gap: int, v: Record, t: seq<Record>)
    requires Holds(s, j, v, t) && 1 <= gap
    ensures multiset(Slid(s, j, gap, v)) == multiset(t)
    decreases j
  {
    assert 0 <= j < |s|;
    if j >= gap && v.time < s[j - gap].time {
      hide Holds;
      ShiftKeeps(s, j, j - gap, v, t);
      SlidKeeps(s[j := s[j - gap]], j - gap, gap, v, t);
    }
  }

  /** The places of the chain that ends at i. */
  predicate OnChain(q: int, i: int, gap: int)
    requires 1 <= gap
  {
    q <= i && (i - q) % gap == 0
  }

  /** r is s with v inserted at place j of the chain that ends at i: the records it passes are later
      than v and move up by one, the one it stops at is not later, and nothing else is touched. */
  ghost predicate InsertedAt(r: seq<Record>, s: seq<Record>, i: int, gap: int, v: Record, j: int) {
    && 1 <= gap && 0 <= j && i < |s| == |r| && OnChain(j, i, gap) && r[j] == v
    && (j >= gap ==> s[j - gap].time <= v.time)
    && (forall q :: j < q <= i && OnChain(q, i, gap) ==> q >= gap && r[q] == s[q - gap] && v.time < s[q - gap].time)
    && (forall q :: 0 <= q < |s| && (q < j || !OnChain(q, i, gap)) ==> r[q] == s[q])
  }

  lemma OneGap(d: int, gap: int)
    requires 1 <= gap
    ensures (d - gap) % gap == d % gap && 0 % gap == 0
    ensures 0 < d && d % gap == 0 ==> d >= gap
  {
    var q, r := d / gap, d % gap;
    assert d - gap == (q - 1) * gap + r;
    RemainderUnique(d - gap, q - 1, r, gap);
    RemainderUnique(0, 0, 0, gap);
    if 0 < d < gap { RemainderUnique(d, 0, d, gap); }
  }

  lemma ChainNext(i: int, gap: int)
    requires 1 <= gap
    ensures OnChain(i, i, gap)
    ensures forall q :: OnChain(q, i, gap) <==> q == i || OnChain(q, i - gap, gap)
  {
    OneGap(0, gap);
    forall q ensures OnChain(q, i, gap) <==> q == i || OnChain(q, i - gap, gap) {
      OneGap(i - q, gap);
      assert i - gap - q == i - q - gap;
    }
  }

  /** Sliding inserts it: after all records of the chain that are not later, equal ones included. */
  lemma {:induction false} SlidInserts(s: seq<Record>, i: int, gap: int, v: Record) returns (j: int)
    requires 0 <= i < |s| && 1 <= gap
    ensures InsertedAt(Slid(s, i, gap, v), s, i, gap, v, j)
    decreases i
  {
    ChainNext(i, gap);
    hide OnChain;
    if i >= gap && v.time < s[i - gap].time {
      j := SlidInserts(s[i := s[i - gap]], i - gap, gap, v);
      ChainWithin(i - gap, gap);
    } else {
      j := i;
      ChainWithin(i, gap);
    }
  }

  lemma ChainWithin(i: int, gap: int)
    requires 1 <= gap
    ensures forall q :: OnChain(q, i, gap) ==> q <= i
  {
  }

  lemma {:induction false} SlidSorts(s: seq<Record>, i: int, j: int, v: Record)
    requires Around(s, i + 1, j, v)
    ensures 0 <= j < |s| && Sorted(Slid(s, j, 1, v)[..i + 1])
    decreases j
  {
    assert 0 <= j <= i < |s|;
    if j >= 1 && v.time < s[j - 1].time {
      AroundStep(s, i + 1, j, v);
      hide Around, Sorted;
      SlidSorts(s[j := s[j - 1]], i, j - 1, v);
    } else {
      hide Around, Sorted;
      Placed(s, i + 1, j, v);
    }
  }

  /** Inserting one entry keeps the records, and with gap 1 the order. */
  lemma Inserted(s: seq<Record>, i: int, gap: int)
    requires 0 <= i < |s| && 1 <= gap
    ensures multiset(Slid(s, i, gap, s[i])) == multiset(s)
    ensures gap == 1 && Sorted(s[..i]) ==> Sorted(Slid(s, i, gap, s[i])[..i + 1])
  {
    assert s[i := s[i]] == s;
    SlidKeeps(s, i, gap, s[i], s);
    if gap == 1 && Sorted(s[..i]) {
      AroundStart(s, i);
      SlidSorts(s, i, i, s[i]);
    }
  }

  lemma {:induction false} PassedSorts(s: seq<Record>, i: int, gap: int)
    requires 0 <= i && 1 <= gap
    ensures multiset(Passed(s, i, gap)) == multiset(s)
    ensures gap == 1 && (i >= |s| ==> Sorted(s)) && (i < |s| ==> Sorted(s[..i])) ==> Sorted(Passed(s, i, gap))
    decreases |s| - i
  {
    hide Slid, Sorted;
    if i < |s| {
      var t := Slid(s, i, gap, s[i]);
      Inserted(s, i, gap);
      assert i + 1 == |s| ==> t[..i + 1] == t;
      PassedSorts(t, i + 1, gap);
    }
  }

  lemma FirstIsSorted(s: seq<Record>)
    ensures |s| <= 1 ==> Sorted(s)
    ensures |s| > 1 ==> Sorted(s[..1])
  {
  }

  lemma {:induction false} SweepsSort(s: seq<Record>, gap: int)
    requires 0 <= gap
    ensures multiset(Sweeps(s, gap)) == multiset(s)
    ensures gap >= 1 ==> Sorted(Sweeps(s, gap))
    decreases gap
  {
    hide Passed, Sorted;
    if gap > 0 {
      PassedSorts(s, gap, gap);
      FirstIsSorted(s);
      SweepsSort(Passed(s, gap, gap), gap / 2);
    }
  }

  /** The Shell sort sorts and permutes. */
  lemma ShellSortedSorts(s: seq<Record>)
    ensures Sorted(ShellSorted(s)) && multiset(ShellSorted(s)) == multiset(s)
  {
    SweepsSort(s, FirstGap(1, |s|));
  }

  // ----- the sort in place -----

  /** Insert entry i into its place among the entries a whole number of gaps before it. */
  method Insert(a: array<Record>, i: int, gap: int)
    requires 1 <= gap <= i < a.Length
    modifies a
    ensures a[..] == Slid(old(a[..]), i, gap, old(a[i]))
  {
    var value, j := a[i], i;
    ghost var was, s := a[..], a[..];
    while j >= gap && value.time < a[j - gap].time
      invariant 0 <= j <= i && s == a[..]
      invariant Slid(s, j, gap, value) == Slid(was, i, gap, value)
    {
      a[j] := a[j - gap];
      s := s[j := s[j - gap]];
      j := j - gap;
    }
    a[j] := value;
    assert a[..] == s[j := value];
  }

  /** One pass with a fixed gap. */
  method Pass(a: array<Record>, gap: int)
    requires 1 <= gap
    modifies a
    ensures a[..] == Passed(old(a[..]), gap, gap)
  {
    hide Slid;
    var i := gap;
    while i <= a.Length - 1
      invariant gap <= i
      invariant Passed(a[..], i, gap) == Passed(old(a[..]), gap, gap)
    {
      ghost var s := a[..];
      Insert(a, i, gap);
      assert a[..] == Slid(s, i, gap, s[i]);
      i := i + 1;
    }
  }

  /** The whole sort. */
  method Sort(a: array<Record>)
    modifies a
    ensures a[..] == ShellSorted(old(a[..]))
  {
    hide Passed;
    var gap := 1;
    while gap <= a.Length / 4
      invariant 1 <= gap && FirstGap(gap, a.Length) == FirstGap(1, a.Length)
      decreases a.Length - gap
    {
      gap := 2 * gap;
    }
    while gap > 0
      invariant 0 <= gap
      invariant Sweeps(a[..], gap) == ShellSorted(old(a[..]))
      decreases gap
    {
      Pass(a, gap);
      gap := gap / 2;
    }
  }

  // ----- sorting records whose indices are distinct -----

  ghost predicate Distinct(s: seq<Record>) {
    forall i, j :: 0 <= i < j < |s| ==> s[i].index != s[j].index
  }

  lemma {:induction false} OnceEach(s: seq<Record>, x: Record)
    requires Distinct(s)
    ensures multiset(s)[x] <= 1
    decreases |s|
  {
    if s != [] {
      var t, last := s[..|s| - 1], s[|s| - 1];
      assert s == t + [last];
      OnceEach(t, x);
      forall i | 0 <= i < |t| ensures t[i] != last {
        assert s[i].index != s[|s| - 1].index;
      }
      assert last !in multiset(t);
    }
  }

  lemma TwiceThere(s: seq<Record>, i: nat, j: nat)
    requires i < j < |s| && s[i] == s[j]
    ensures multiset(s)[s[i]] >= 2
  {
    var t := s[..j];
    assert s == t + s[j..] && t[i] == s[i] && s[j..][0] == s[j];
    assert s[i] in t && s[i] in s[j..];
    assert multiset(s) == multiset(t) + multiset(s[j..]);
  }

  lemma PermutedMember(s: seq<Record>, t: seq<Record>, x: Record)
    requires multiset(s) == multiset(t)
    ensures x in s <==> x in t
  {
    assert x in s <==> x in multiset(s);
    assert x in t <==> x in multiset(t);
  }

  /** A permutation of records with distinct indices has distinct indices. */
  lemma PermutedIsDistinct(s: seq<Record>, t: seq<Record>)
    requires Distinct(s) && multiset(s) == multiset(t)
    ensures |t| == |s| && Distinct(t)
  {
    assert |s| == |multiset(s)| == |multiset(t)| == |t|;
    forall i, j | 0 <= i < j < |t| ensures t[i].index != t[j].index {
      if t[i].index == t[j].index {
        PermutedMember(s, t, t[i]);
        PermutedMember(s, t, t[j]);
        SameIndex(s, t[i], t[j]);
        OnceEach(s, t[i]);
        TwiceThere(t, i, j);
        assert false;
      }
    }
  }

  lemma SameIndex(s: seq<Record>, x: Record, y: Record)
    requires Distinct(s) && x in s && y in s && x.index == y.index
    ensures x == y
  {
  }
}
