/** The order in which attenuation poles are removed: the two fixed zig-zag orders, and the
    enumeration of all orders that the optimiser walks through. */
module PoleOrder {

  /** Distinct numbers below n. */
  predicate Injective(s: seq<nat>, n: nat) {
    && (forall i :: 0 <= i < |s| ==> s[i] < n)
    && (forall i, j :: 0 <= i < j < |s| ==> s[i] != s[j])
  }

  predicate Permutation(s: seq<nat>, n: nat) {
    |s| == n && Injective(s, n)
  }

  // ----- counting -----

  function Range(n: nat): (r: set<nat>)
    ensures forall i: nat :: i in r <==> i < n
    ensures |r| == n
  {
    if n == 0 then {} else Range(n - 1) + {n - 1}
  }

  function Members(s: seq<nat>): (r: set<nat>)
    ensures forall x: nat :: x in r <==> x in s
  {
    set x | x in s
  }

  lemma {:induction false} MemberCount(s: seq<nat>, n: nat)
    requires Injective(s, n)
    ensures |Members(s)| == |s| && Members(s) <= Range(n)
  {
    if s != [] {
      var i := |s| - 1;
      MemberCount(s[..i], n);
      assert Members(s) == Members(s[..i]) + {s[i]};
    }
  }

  lemma SubsetCount(a: set<nat>, b: set<nat>)
    requires a <= b
    ensures |a| <= |b| && (|a| == |b| ==> a == b)
  {
    assert b == a + (b - a);
  }

  /** A number below n is missing exactly while fewer than n are used. */
  lemma Missing(s: seq<nat>, n: nat)
    requires Injective(s, n)
    ensures |s| <= n
    ensures |s| < n ==> exists i: nat :: i < n && i !in s
    ensures |s| == n ==> forall i: nat :: i < n ==> i in s
  {
    MemberCount(s, n);
    SubsetCount(Members(s), Range(n));
    if |s| < n && forall i: nat :: i < n ==> i in s {
      assert Range(n) <= Members(s);
      SubsetCount(Range(n), Members(s));
    }
  }

  // ----- lexicographic order -----

  function Init(s: seq<nat>): seq<nat>
    requires s != []
  {
    s[..|s| - 1]
  }

  function Last(s: seq<nat>): nat
    requires s != []
  {
    s[|s| - 1]
  }

  /** Lexicographic order on sequences of one length. */
  predicate Less(a: seq<nat>, b: seq<nat>)
    requires |a| == |b|
    decreases |a|
  {
    a != [] && (Less(Init(a), Init(b)) || (Init(a) == Init(b) && Last(a) < Last(b)))
  }

  lemma {:induction false} LessTransitive(a: seq<nat>, b: seq<nat>, c: seq<nat>)
    requires |a| == |b| == |c| && Less(a, b) && Less(b, c)
    ensures Less(a, c)
    decreases |a|
  {
    if Less(Init(a), Init(b)) && Less(Init(b), Init(c)) {
      LessTransitive(Init(a), Init(b), Init(c));
    }
  }

  lemma {:induction false} LessIrreflexive(a: seq<nat>)
    ensures !Less(a, a)
    decreases |a|
  {
    if a != [] { LessIrreflexive(Init(a)); }
  }

  lemma InitInjective(s: seq<nat>, n: nat)
    requires s != [] && Injective(s, n)
    ensures Injective(Init(s), n) && Last(s) !in Init(s) && s == Init(s) + [Last(s)]
  {
  }

  // ----- the successor -----

  datatype Option<T> = None | Some(value: T)

  /** The least number from lo on that is below n and not used. */
  function Unused(used: seq<nat>, lo: nat, n: nat): (r: Option<nat>)
    ensures r.Some? ==> lo <= r.value < n && r.value !in used
    ensures r.Some? ==> forall i: nat :: lo <= i < r.value ==> i in used
    ensures r.None? ==> forall i: nat :: lo <= i < n ==> i in used
    decreases n - lo
  {
    if lo >= n then None
    else if lo !in used then Some(lo)
    else Unused(used, lo + 1, n)
  }

  function First(used: seq<nat>, n: nat): (r: nat)
    requires Injective(used, n) && |used| < n
    ensures r < n && r !in used && forall i: nat :: i < r ==> i in used
  {
    Missing(used, n);
    Unused(used, 0, n).value
  }

  /** What pole_idx_next does to the first entries: the last one moves to the next free number,
      or else everything before it moves on and it starts again at the least free number. */
  function Next(q: seq<nat>, n: nat): (r: Option<seq<nat>>)
    requires Injective(q, n) && |q| <= n
    ensures r.Some? ==> |r.value| == |q| && Injective(r.value, n)
    decreases |q|
  {
    if q == [] then None
    else
      InitInjective(q, n);
      match Unused(q, Last(q), n)
      case Some(i) => Some(Init(q) + [i])
      case None =>
        match Next(Init(q), n)
        case None => None
        case Some(t) => Some(t + [First(t, n)])
  }

  /** Next is the immediate successor: it is larger, and nothing lies between. */
  lemma {:induction false} NextIsSuccessor(q: seq<nat>, n: nat, r: seq<nat>)
    requires Injective(q, n) && |q| <= n && Injective(r, n) && |r| == |q|
    ensures Next(q, n).Some? ==> Less(q, Next(q, n).value)
    ensures Less(q, r) ==> Next(q, n).Some? && (Next(q, n).value == r || Less(Next(q, n).value, r))
    decreases |q|
  {
    if q != [] {
      InitInjective(q, n);
      InitInjective(r, n);
      NextIsSuccessor(Init(q), n, Init(r));
      match Unused(q, Last(q), n)
      case Some(i) => LastMoves(q, n, r, i);
      case None => LastRestarts(q, n, r);
    }
  }

  lemma Appended(t: seq<nat>, x: nat)
    ensures Init(t + [x]) == t && Last(t + [x]) == x
  {
  }

  lemma LastMoves(q: seq<nat>, n: nat, r: seq<nat>, i: nat)
    requires q != [] && Injective(q, n) && |q| <= n && Injective(r, n) && |r| == |q|
    requires Unused(q, Last(q), n) == Some(i)
    ensures Less(q, Init(q) + [i])
    ensures Less(q, r) ==> Init(q) + [i] == r || Less(Init(q) + [i], r)
  {
    hide Less, Unused;
    Appended(Init(q), i);
    LessUnfold(q, Init(q) + [i]);
    LessUnfold(q, r);
    LessUnfold(Init(q) + [i], r);
    InitInjective(r, n);
    assert i != Last(q) by { assert Last(q) in q; }
    if Init(q) == Init(r) && Last(q) < Last(r) {
      StillUnused(q, r);
      assert i <= Last(r);
    }
  }

  /** If r agrees with q except in a different last entry, that entry is not used in q. */
  lemma StillUnused(q: seq<nat>, r: seq<nat>)
    requires q != [] && |r| == |q| && Init(q) == Init(r) && Last(q) != Last(r) && Last(r) !in Init(r)
    ensures Last(r) !in q
  {
    assert q == Init(q) + [Last(q)];
  }

  lemma LastRestarts(q: seq<nat>, n: nat, r: seq<nat>)
    requires q != [] && Injective(q, n) && |q| <= n && Injective(r, n) && |r| == |q|
    requires Unused(q, Last(q), n) == None && Injective(Init(q), n) && Injective(Init(r), n)
    requires var t := Next(Init(q), n);
             && (t.Some? ==> Less(Init(q), t.value))
             && (Less(Init(q), Init(r)) ==> t.Some? && (t.value == Init(r) || Less(t.value, Init(r))))
    ensures Next(q, n).Some? ==> Less(q, Next(q, n).value)
    ensures Less(q, r) ==> Next(q, n).Some? && (Next(q, n).value == r || Less(Next(q, n).value, r))
  {
    hide Less, Next;
    InitInjective(r, n);
    LessUnfold(q, r);
    NextUnfold(q, n);
    if Init(q) == Init(r) && Last(q) != Last(r) { StillUnused(q, r); }
    if Next(Init(q), n).Some? { Restarts(q, n, r, Next(Init(q), n).value); }
  }

  /** After t, which moved on, the last position gets the least free number. */
  lemma Restarts(q: seq<nat>, n: nat, r: seq<nat>, t: seq<nat>)
    requires |q| == |r| == |t| + 1 && Injective(r, n) && Injective(t, n) && |t| < n && Less(Init(q), t)
    ensures Less(q, t + [First(t, n)])
    ensures t == Init(r) || Less(t, Init(r)) ==> t + [First(t, n)] == r || Less(t + [First(t, n)], r)
  {
    var f := First(t, n);
    Appended(t, f);
    InitInjective(r, n);
    hide *;
    if t == Init(r) { FirstIsLeast(t, n, Last(r)); }
    LessByLast(q, r, t + [f], t, f);
  }

  /** Comparing with a sequence that ends in f after t. */
  lemma LessByLast(q: seq<nat>, r: seq<nat>, s: seq<nat>, t: seq<nat>, f: nat)
    requires |q| == |r| == |s| > 0 && |t| == |s| - 1 && Init(s) == t && Last(s) == f && Less(Init(q), t)
    requires r == Init(r) + [Last(r)] && s == t + [f] && (t == Init(r) ==> f <= Last(r))
    ensures Less(q, s)
    ensures t == Init(r) || Less(t, Init(r)) ==> s == r || Less(s, r)
  {
    hide *;
    LessUnfold(q, s);
    LessUnfold(s, r);
  }

  lemma FirstIsLeast(t: seq<nat>, n: nat, x: nat)
    requires Injective(t, n) && |t| < n && x !in t
    ensures First(t, n) <= x
  {
  }

  lemma LessUnfold(a: seq<nat>, b: seq<nat>)
    requires |a| == |b| > 0
    ensures Less(a, b) <==> Less(Init(a), Init(b)) || (Init(a) == Init(b) && Last(a) < Last(b))
  {
  }

  lemma NextUnfold(q: seq<nat>, n: nat)
    requires Injective(q, n) && |q| <= n && q != [] && Unused(q, Last(q), n) == None
    ensures Injective(Init(q), n)
    ensures var t := Next(Init(q), n);
            Next(q, n) == if t.None? then None else Some(t.value + [First(t.value, n)])
  {
    InitInjective(q, n);
  }

  /** There is no next order exactly for the last one. */
  lemma NextNone(q: seq<nat>, n: nat)
    requires Injective(q, n) && |q| <= n
    ensures Next(q, n).None? <==> forall r: seq<nat> :: Injective(r, n) && |r| == |q| ==> !Less(q, r)
  {
    if Next(q, n).Some? {
      NextIsSuccessor(q, n, Next(q, n).value);
      assert Less(q, Next(q, n).value);
    } else {
      forall r: seq<nat> | Injective(r, n) && |r| == |q| ensures !Less(q, r) {
        NextIsSuccessor(q, n, r);
      }
    }
  }

  // ----- the whole enumeration -----

  function Power(n: nat, k: nat): nat {
    if k == 0 then 1 else Power(n, k - 1) * n
  }

  function Number(s: seq<nat>, n: nat): nat
    decreases |s|
  {
    if s == [] then 0 else Number(Init(s), n) * n + Last(s)
  }

  lemma NextDigit(a: nat, b: nat, d: nat, e: nat, n: nat)
    requires a < b && d < n
    ensures a * n + d < b * n + e
  {
    assert (a + 1) * n <= b * n;
  }

  lemma {:induction false} NumberBound(s: seq<nat>, n: nat)
    requires forall i :: 0 <= i < |s| ==> s[i] < n
    ensures Number(s, n) < Power(n, |s|)
    decreases |s|
  {
    if s != [] {
      NumberBound(Init(s), n);
      var a, p := Number(Init(s), n), Power(n, |s| - 1);
      NextDigit(a, p, Last(s), 0, n);
    }
  }

  lemma {:induction false} NumberIncreases(a: seq<nat>, b: seq<nat>, n: nat)
    requires |a| == |b| && Less(a, b)
    requires forall i :: 0 <= i < |a| ==> a[i] < n && b[i] < n
    ensures Number(a, n) < Number(b, n)
    decreases |a|
  {
    if Less(Init(a), Init(b)) {
      NumberIncreases(Init(a), Init(b), n);
      var x, y := Number(Init(a), n), Number(Init(b), n);
      NextDigit(x, y, Last(a), Last(b), n);
    }
  }

  /** All orders from q on, as the optimiser meets them. */
  ghost function Orbit(q: seq<nat>, n: nat): (o: seq<seq<nat>>)
    requires Permutation(q, n)
    decreases Power(n, n) - Number(q, n)
  {
    match Next(q, n)
    case None => [q]
    case Some(t) =>
      NextIsSuccessor(q, n, t);
      NumberIncreases(q, t, n);
      NumberBound(t, n);
      [q] + Orbit(t, n)
  }

  ghost predicate StrictlyIncreasing(o: seq<seq<nat>>, n: nat)
  {
    && (forall i :: 0 <= i < |o| ==> |o[i]| == n)
    && (forall i, j :: 0 <= i < j < |o| ==> Less(o[i], o[j]))
  }

  /** Orders are met in strictly increasing lexicographic order, so none twice. */
  lemma {:induction false} OrbitIncreases(q: seq<nat>, n: nat)
    requires Permutation(q, n)
    ensures StrictlyIncreasing(Orbit(q, n), n)
    ensures Orbit(q, n) != [] && Orbit(q, n)[0] == q
    ensures forall i :: 0 <= i < |Orbit(q, n)| ==> Permutation(Orbit(q, n)[i], n)
    decreases Power(n, n) - Number(q, n)
  {
    hide Less;
    if Next(q, n).Some? {
      var t := Next(q, n).value;
      NextIsSuccessor(q, n, t);
      NumberIncreases(q, t, n);
      NumberBound(t, n);
      OrbitIncreases(t, n);
      Prepend(q, Orbit(t, n), n);
      assert Orbit(q, n) == [q] + Orbit(t, n);
    } else {
      assert Orbit(q, n) == [q];
    }
  }

  lemma Prepend(q: seq<nat>, o: seq<seq<nat>>, n: nat)
    requires |q| == n && StrictlyIncreasing(o, n) && o != [] && Less(q, o[0])
    ensures StrictlyIncreasing([q] + o, n)
  {
    hide Less;
    forall i | 0 <= i < |o| ensures Less(q, o[i]) {
      if i > 0 { LessTransitive(q, o[0], o[i]); }
    }
  }

  lemma {:induction false} OrbitComplete(q: seq<nat>, n: nat, r: seq<nat>)
    requires Permutation(q, n) && Permutation(r, n)
    requires r == q || Less(q, r)
    ensures r in Orbit(q, n)
    decreases Power(n, n) - Number(q, n)
  {
    NextIsSuccessor(q, n, r);
    if Next(q, n).Some? {
      var t := Next(q, n).value;
      NextIsSuccessor(q, n, t);
      NumberIncreases(q, t, n);
      NumberBound(t, n);
      if r != q {
        OrbitComplete(t, n, r);
      }
      assert Orbit(q, n) == [q] + Orbit(t, n);
    }
  }

  function Identity(n: nat): (s: seq<nat>)
    ensures Permutation(s, n)
  {
    seq(n, i => i)
  }

  lemma NotBelow(r: seq<nat>, n: nat, k: nat)
    requires Permutation(r, n) && 0 < k <= n && r[..k - 1] == Identity(n)[..k - 1]
    ensures r[k - 1] >= k - 1
  {
    IdentityHas(n, k - 1, r[k - 1]);
    assert r[k - 1] !in r[..k - 1];
  }

  lemma IdentityHas(n: nat, k: nat, x: nat)
    requires k <= n
    ensures x < k ==> x in Identity(n)[..k]
  {
    if x < k { assert Identity(n)[..k][x] == x; }
  }

  lemma {:induction false} IdentityLeast(r: seq<nat>, n: nat, k: nat)
    requires Permutation(r, n) && k <= n
    ensures r[..k] == Identity(n)[..k] || Less(Identity(n)[..k], r[..k])
    decreases k
  {
    if k > 0 {
      IdentityLeast(r, n, k - 1);
      var a, b := Identity(n)[..k], r[..k];
      assert Init(a) == Identity(n)[..k - 1] && Init(b) == r[..k - 1];
      if Init(a) == Init(b) { NotBelow(r, n, k); }
      if Init(a) == Init(b) && r[k - 1] == k - 1 {
        assert a == Init(a) + [k - 1] && b == Init(b) + [k - 1];
      }
    }
  }

  /** Main result: starting from the identity every order of the n poles is met, exactly once. */
  lemma EveryOrderOnce(n: nat, r: seq<nat>)
    requires Permutation(r, n)
    ensures exists i :: 0 <= i < |Orbit(Identity(n), n)| && Orbit(Identity(n), n)[i] == r
    ensures forall i, j :: 0 <= i < j < |Orbit(Identity(n), n)| ==> Orbit(Identity(n), n)[i] != Orbit(Identity(n), n)[j]
  {
    IdentityLeast(r, n, n);
    assert r[..n] == r && Identity(n)[..n] == Identity(n);
    OrbitComplete(Identity(n), n, r);
    OrbitIncreases(Identity(n), n);
    var o := Orbit(Identity(n), n);
    forall i, j | 0 <= i < j < |o| ensures o[i] != o[j] {
      LessIrreflexive(o[i]);
    }
  }

  // ----- the optimiser's state -----

  /** poleb marks exactly the numbers in q. */
  predicate Marks(poleb: seq<bool>, q: seq<nat>) {
    forall x: nat :: x < |poleb| ==> (poleb[x] <==> x in q)
  }

  class PoleOptimiser {
    var pole: seq<nat>
    var poleb: seq<bool>

    /** The first k + 1 entries are distinct and marked: an order that can be moved on from. */
    predicate Held(k: nat, n: nat)
      reads this
    {
      && |pole| == |poleb| == n && k < n
      && Injective(pole[..k + 1], n) && Marks(poleb, pole[..k + 1])
    }

    /** Entry k has been released and set to zero, the entries before it are distinct and marked. */
    predicate Released(k: nat, n: nat)
      reads this
    {
      && |pole| == |poleb| == n && k < n
      && Injective(pole[..k], n) && Marks(poleb, pole[..k]) && pole[k] == 0
    }

    constructor ()
      ensures pole == [] && poleb == []
    {
      pole, poleb := [], [];
    }

    method PoleIdxInit(m: nat)
      requires pole == [] && poleb == []
      modifies this
      ensures pole == Identity(m) && (m > 0 ==> Held(m - 1, m))
    {
      for i := 0 to m
        invariant |pole| == |poleb| == i
        invariant forall j :: 0 <= j < i ==> pole[j] == j && poleb[j]
      {
        pole := pole + [i];
        poleb := poleb + [true];
      }
      assert pole[..m] == pole == Identity(m);
    }

    /** The search at one position: entry k moves to the least free number from its value on. */
    method Advance(k: nat, n: nat, flag: bool) returns (found: bool)
      requires Held(k, n) || (flag && Released(k, n))
      requires Held(k, n) && flag ==> k + 1 == n
      modifies this
      ensures old(Held(k, n)) ==> found == old(Unused(pole[..k + 1], pole[k], n).Some?)
      ensures !old(Held(k, n)) ==> found == old(Unused(pole[..k], 0, n).Some?)
      ensures !found ==> pole == old(pole) && poleb == old(poleb)
      ensures found ==> Held(k, n) && pole == old(pole)[k := pole[k]]
      ensures found && old(Held(k, n)) ==> Some(pole[k]) == old(Unused(pole[..k + 1], pole[k], n))
      ensures found && !old(Held(k, n)) ==> Some(pole[k]) == old(Unused(pole[..k], 0, n))
    {
      hide Unused, Injective, Marks;
      ghost var used := if Held(k, n) then pole[..k + 1] else pole[..k];
      ghost var held := Held(k, n);
      if held { Missing(used, n); }
      assert held ==> used[k] in used;
      forall x: nat | x < n ensures poleb[x] <==> x in used {
        MarkOf(poleb, used, x);
      }
      if held { Bound(used, n, k); }
      assert held ==> used[..k] == pole[..k];
      var i := pole[k];
      while i != n
        invariant pole == old(pole) && poleb == old(poleb)
        invariant pole[k] <= i <= n
        invariant forall x: nat :: pole[k] <= x < i ==> x in used
        decreases n - i
      {
        if !poleb[i] {
          UnusedIs(used, pole[k], n, i);
          if !flag { poleb := poleb[pole[k] := false]; }
          pole := pole[k := i];
          poleb := poleb[i := true];
          Moved(old(pole), old(poleb), k, n, i, flag, poleb);
          return true;
        }
        i := i + 1;
      }
      UnusedNone(used, pole[k], n);
      return false;
    }

    /** Moves on to the next order.  Called from outside with the last position, all entries in
        use and flag set; the recursion releases entries from the right, moves one of them, and
        refills the others, each with the least free number. */
    method PoleIdxNext(k: nat, n: nat, flag: bool) returns (found: bool)
      requires Held(k, n) || (flag && Released(k, n))
      requires Held(k, n) && flag ==> k + 1 == n
      modifies this
      ensures |pole| == n && pole[k + 1..] == old(pole[k + 1..])
      ensures old(Held(k, n)) ==> found == old(Next(pole[..k + 1], n).Some?)
      ensures old(Held(k, n)) && found ==> Held(k, n) && Some(pole[..k + 1]) == old(Next(pole[..k + 1], n))
      ensures !old(Held(k, n)) ==> found && Held(k, n) && pole[..k + 1] == old(pole[..k] + [First(pole[..k], n)])
      decreases k, if Held(k, n) then 1 else 0
    {
      hide Next, First, Unused, Injective, Marks;
      ghost var q := pole[..k + 1];
      assert pole[..k] == Init(q) && pole[k] == Last(q);
      if Held(k, n) {
        InitInjective(q, n);
        NextCases(q, n);
      } else {
        FirstIs(pole[..k], n);
      }
      found := Advance(k, n, flag);
      if found {
        assert pole[..k + 1] == Init(q) + [pole[k]];
        return;
      }
      if k == 0 {
        NextOfEmpty(Init(q), n);
        return;
      }
      LetGo(pole, poleb, k, n);
      poleb := poleb[pole[k] := false];
      pole := pole[k := 0];
      assert pole[..k] == Init(q) == pole[..(k - 1) + 1];
      found := PoleIdxNext(k - 1, n, false);
      if !found { return; }
      assert pole[k..][0] == 0;
      assert pole[k..][1..] == pole[k + 1..];
      assert pole[..k] == pole[..(k - 1) + 1];
      NotHeld(pole, poleb, k, n);
      found := PoleIdxNext(k, n, true);
    }
  }

  lemma OrbitStep(q: seq<nat>, n: nat)
    requires Permutation(q, n)
    ensures Next(q, n).None? ==> Orbit(q, n) == [q]
    ensures Next(q, n).Some? ==> (
              var t := Next(q, n).value;
              && Permutation(t, n) && Orbit(q, n) == [q] + Orbit(t, n)
              && Number(q, n) < Number(t, n) < Power(n, n))
  {
    if Next(q, n).Some? {
      var t := Next(q, n).value;
      NextIsSuccessor(q, n, t);
      NumberIncreases(q, t, n);
      NumberBound(t, n);
    }
  }

  lemma LetGo(pole: seq<nat>, poleb: seq<bool>, k: nat, n: nat)
    requires |pole| == |poleb| == n && k < n && Injective(pole[..k + 1], n) && Marks(poleb, pole[..k + 1])
    ensures Injective(pole[..k], n) && pole[k] < n && Marks(poleb[pole[k] := false], pole[..k])
  {
    var q := pole[..k + 1];
    assert Init(q) == pole[..k] && Last(q) == pole[k];
    InitInjective(q, n);
  }

  /** A released position is not a held one: its entry, zero, is either used before it or not marked. */
  lemma NotHeld(pole: seq<nat>, poleb: seq<bool>, k: nat, n: nat)
    requires |pole| == |poleb| == n && k < n && Marks(poleb, pole[..k]) && pole[k] == 0
    ensures !(Injective(pole[..k + 1], n) && Marks(poleb, pole[..k + 1]))
  {
    assert pole[..k + 1] == pole[..k] + [0];
    assert 0 in pole[..k + 1];
    if 0 in pole[..k] {
      var j :| 0 <= j < k && pole[j] == 0;
      assert pole[..k + 1][j] == pole[..k + 1][k];
    }
  }

  lemma NextOfEmpty(q: seq<nat>, n: nat)
    requires q == []
    ensures Injective(q, n) && Next(q, n) == None
  {
  }

  lemma Moved(pole: seq<nat>, poleb: seq<bool>, k: nat, n: nat, i: nat, flag: bool, after: seq<bool>)
    requires |pole| == |poleb| == n && k < n && i < n && Injective(pole[..k], n) && !poleb[i]
    requires if flag then Marks(poleb, pole[..k]) else Marks(poleb, pole[..k + 1]) && Injective(pole[..k + 1], n)
    requires after == if flag then poleb[i := true] else poleb[pole[k] := false][i := true]
    ensures Injective(pole[k := i][..k + 1], n) && Marks(after, pole[k := i][..k + 1])
  {
    var p, was := pole[k := i], if flag then poleb else poleb[pole[k] := false];
    assert p[..k + 1] == pole[..k] + [i];
    if !flag { LetGo(pole, poleb, k, n); }
    assert Marks(was, pole[..k]) && !was[i];
    MovedOne(pole[..k], was, i, n);
  }

  lemma MovedOne(used: seq<nat>, was: seq<bool>, i: nat, n: nat)
    requires |was| == n && i < n && Injective(used, n) && Marks(was, used) && !was[i]
    ensures Injective(used + [i], n) && Marks(was[i := true], used + [i])
  {
    assert i !in used;
  }

  // ----- the fixed orders -----

  /** The order of Zverev's tables: from both ends towards the middle. */
  function Standard(m: nat, k: nat): (r: nat)
    requires k < m
    ensures r < m && (k == 0 ==> r == 0)
  {
    if k % 2 == 0 then k / 2 else m - 1 - k / 2
  }

  function StandardOrder(m: nat): (s: seq<nat>)
    ensures |s| == m && forall k :: 0 <= k < m ==> s[k] == Standard(m, k)
  {
    seq(m, k requires 0 <= k < m => Standard(m, k))
  }

  /** The inverse Chebyshev synthesis starts at the other end. */
  function InverseOrder(m: nat): (s: seq<nat>)
    ensures |s| == m && forall k :: 0 <= k < m ==> s[k] == m - 1 - Standard(m, k)
  {
    seq(m, k requires 0 <= k < m => m - 1 - Standard(m, k))
  }

  lemma FixedOrdersArePermutations(m: nat)
    ensures Permutation(StandardOrder(m), m) && Permutation(InverseOrder(m), m)
  {
    forall i, j | 0 <= i < j < m ensures Standard(m, i) != Standard(m, j) {
    }
  }

  /** Each entry is the least number that is left, or the greatest, in turn; the inverse order begins
      with the greatest. */
  lemma OrdersTakeEnds(m: nat, k: nat, x: nat)
    requires k < m && x < m
    ensures x !in StandardOrder(m)[..k] ==>
              if k % 2 == 0 then StandardOrder(m)[k] <= x else x <= StandardOrder(m)[k]
    ensures x !in InverseOrder(m)[..k] ==>
              if k % 2 == 0 then x <= InverseOrder(m)[k] else InverseOrder(m)[k] <= x
  {
    StandardTakesEnds(m, k, x);
    StandardTakesEnds(m, k, m - 1 - x);
    var s, r := StandardOrder(m)[..k], InverseOrder(m)[..k];
    if m - 1 - x in s {
      var j :| 0 <= j < k && s[j] == m - 1 - x;
      assert r[j] == x;
    }
  }

  lemma StandardTakesEnds(m: nat, k: nat, x: nat)
    requires k < m && x < m
    ensures x in StandardOrder(m)[..k]
         || if k % 2 == 0 then StandardOrder(m)[k] <= x else x <= StandardOrder(m)[k]
  {
    var s := StandardOrder(m)[..k];
    if k % 2 == 0 && x < k / 2 { assert s[2 * x] == x; }
    if k % 2 == 1 && m - 1 - x < k / 2 { assert s[2 * (m - 1 - x) + 1] == x; }
  }

  /** Fills the first m entries by the recurrence j, m - 1 - j. */
  method PoleIdxStd(pole: seq<nat>, m: nat) returns (r: seq<nat>)
    requires 0 < m <= |pole|
    ensures r == StandardOrder(m) + pole[m..]
    ensures Permutation(r[..m], m)
  {
    var j: nat := 0;
    var m1 := m - 1;
    r := pole;
    var k := 0;
    while k <= m1
      invariant 0 <= k <= m && |r| == |pole|
      invariant forall i :: 0 <= i < k ==> r[i] == Standard(m, i)
      invariant forall i :: k <= i < |r| ==> r[i] == pole[i]
      invariant k < m ==> j == Standard(m, k)
    {
      r := r[k := j];
      j := m1 - j;
      if j < m1 / 2 { j := j + 1; }
      k := k + 1;
    }
    assert r[..m] == StandardOrder(m);
    FixedOrdersArePermutations(m);
  }

  lemma MarkOf(poleb: seq<bool>, used: seq<nat>, x: nat)
    requires Marks(poleb, used) && x < |poleb|
    ensures poleb[x] <==> x in used
  {
  }

  lemma Bound(s: seq<nat>, n: nat, k: nat)
    requires Injective(s, n) && k < |s|
    ensures s[k] < n && Injective(s[..k], n)
  {
  }

  lemma UnusedIs(used: seq<nat>, lo: nat, n: nat, i: nat)
    requires lo <= i < n && i !in used && forall x: nat :: lo <= x < i ==> x in used
    ensures Unused(used, lo, n) == Some(i)
  {
  }

  lemma UnusedNone(used: seq<nat>, lo: nat, n: nat)
    requires forall x: nat :: lo <= x < n ==> x in used
    ensures Unused(used, lo, n) == None
  {
  }

  lemma FirstIs(used: seq<nat>, n: nat)
    requires Injective(used, n) && |used| < n
    ensures Unused(used, 0, n) == Some(First(used, n))
  {
    Missing(used, n);
  }

  lemma NextCases(q: seq<nat>, n: nat)
    requires q != [] && Injective(q, n) && |q| <= n && Injective(Init(q), n)
    ensures var u, t := Unused(q, Last(q), n), Next(Init(q), n);
            Next(q, n) == if u.Some? then Some(Init(q) + [u.value])
                          else if t.None? then None else Some(t.value + [First(t.value, n)])
  {
  }
}
