/** What the loop of the filter optimiser does with the scores: it walks through all orders of the
    poles, scores ladders, and keeps an order.  Whether the synthesis of an order works, and what its
    ladder is worth, are functions of the order here. */
module OrderSearch {
  import opened PoleOrder

  /** How many orders are scored: all but the last, up to the first one whose synthesis fails. */
  function Scored(o: seq<seq<nat>>, i: nat, works: seq<nat> -> bool): (c: nat)
    requires i < |o|
    ensures i <= c < |o| && forall j :: i <= j < c ==> works(o[j])
    ensures c + 1 < |o| ==> !works(o[c])
    decreases |o| - i
  {
    if i + 1 < |o| && works(o[i]) then Scored(o, i + 1, works) else i
  }

  /** The first of the least among the first c. */
  ghost predicate FirstLeast(o: seq<seq<nat>>, c: nat, value: seq<nat> -> real, j: nat) {
    && j < c <= |o|
    && (forall i :: 0 <= i < c ==> value(o[j]) <= value(o[i]))
    && (forall i :: 0 <= i < j ==> value(o[j]) < value(o[i]))
  }

  /** What the loop ends with.  A score of zero ends it at once with the ladder of that order.
      Otherwise it keeps, of the orders scored, not the first of the best but the order after
      that one; and none at all if nothing was scored. */
  ghost predicate Outcome(early: bool, kept: Option<seq<nat>>, o: seq<seq<nat>>, works: seq<nat> -> bool,
                          value: seq<nat> -> real)
    requires o != []
  {
    var c := Scored(o, 0, works);
    && (early <==> exists i :: 0 <= i < c && value(o[i]) == 0.0)
    && (!early && c == 0 ==> kept == None)
    && (!early && c > 0 ==> exists j: nat :: FirstLeast(o, c, value, j) && kept == Some(o[j + 1]))
  }

  /** The first of the best of the first n orders is o[j]; kept is the one after it, and least what
      o[j] is worth. */
  ghost predicate Keeps(o: seq<seq<nat>>, n: nat, value: seq<nat> -> real, j: nat, kept: Option<seq<nat>>, least: real,
                        huge: real)
    requires n < |o|
  {
    if n == 0 then kept == None && least == huge
    else FirstLeast(o, n, value, j) && kept == Some(o[j + 1]) && least == value(o[j])
  }

  ghost predicate NoneZero(o: seq<seq<nat>>, n: nat, value: seq<nat> -> real)
    requires n < |o|
  {
    forall j :: 0 <= j < n ==> value(o[j]) != 0.0
  }

  function Upto(i: nat, c: nat): nat {
    if i < c then i else c
  }

  /** Where the loop stands before it asks for the order after o[i]: kept belongs to the orders that
      have been scored, which are those before i as long as no synthesis has failed. */
  ghost predicate Underway(i: nat, ok: bool, j: nat, kept: Option<seq<nat>>, least: real, o: seq<seq<nat>>,
                           works: seq<nat> -> bool, value: seq<nat> -> real, huge: real)
  {
    && i < |o|
    && var c := Scored(o, 0, works);
       && (if ok then works(o[i]) && i <= c else c <= i && (c < i || !works(o[i])))
       && NoneZero(o, Upto(i, c), value) && Keeps(o, Upto(i, c), value, j, kept, least, huge)
  }

  lemma OrbitFirst(q: seq<nat>, n: nat)
    requires Permutation(q, n)
    ensures Orbit(q, n) != [] && Orbit(q, n)[0] == q && Orbit(q, n)[0..] == Orbit(q, n)
  {
    OrbitIncreases(q, n);
  }

  lemma OrbitSecond(all: seq<seq<nat>>, i: nat, q: seq<nat>, t: seq<nat>, n: nat)
    requires i < |all| && Permutation(q, n) && Permutation(t, n)
    requires all[i..] == Orbit(q, n) == [q] + Orbit(t, n)
    ensures i + 1 < |all| && all[i + 1] == t && all[i + 1..] == Orbit(t, n)
  {
    hide Orbit;
    OrbitFirst(t, n);
    assert all[i..][1..] == all[i + 1..];
    assert all[i + 1] == all[i..][1];
  }

  lemma {:induction false} ScoredIs(o: seq<seq<nat>>, i: nat, works: seq<nat> -> bool, k: nat)
    requires i <= k < |o|
    ensures Scored(o, i, works) >= k <==> forall j :: i <= j < k ==> works(o[j])
    decreases k - i
  {
    if i < k && works(o[i]) { ScoredIs(o, i + 1, works, k); }
  }

  lemma UnderwayStart(o: seq<seq<nat>>, works: seq<nat> -> bool, value: seq<nat> -> real, huge: real)
    requires o != []
    ensures Underway(0, works(o[0]), 0, None, huge, o, works, value, huge)
  {
  }

  lemma LeastStays(o: seq<seq<nat>>, i: nat, value: seq<nat> -> real, j: nat)
    requires i + 1 < |o| && FirstLeast(o, i, value, j)
    ensures value(o[i]) >= value(o[j]) ==> FirstLeast(o, i + 1, value, j)
    ensures value(o[i]) < value(o[j]) ==> FirstLeast(o, i + 1, value, i)
  {
  }

  lemma LeastStarts(o: seq<seq<nat>>, value: seq<nat> -> real)
    requires o != []
    ensures FirstLeast(o, 1, value, 0)
  {
  }

  lemma KeepsNext(o: seq<seq<nat>>, i: nat, value: seq<nat> -> real, j: nat, kept: Option<seq<nat>>, least: real,
                  huge: real)
    requires i + 1 < |o| && value(o[i]) < huge && Keeps(o, i, value, j, kept, least, huge)
    ensures value(o[i]) < least ==> Keeps(o, i + 1, value, i, Some(o[i + 1]), value(o[i]), huge)
    ensures value(o[i]) >= least ==> Keeps(o, i + 1, value, j, kept, least, huge)
  {
    hide FirstLeast;
    if i == 0 { LeastStarts(o, value); } else { LeastStays(o, i, value, j); }
  }

  lemma NoneZeroNext(o: seq<seq<nat>>, i: nat, value: seq<nat> -> real)
    requires i + 1 < |o| && NoneZero(o, i, value)
    ensures value(o[i]) != 0.0 ==> NoneZero(o, i + 1, value)
  {
  }

  /** How the count of scored orders grows: it passes i exactly while syntheses work. */
  lemma ScoredNext(o: seq<seq<nat>>, works: seq<nat> -> bool, i: nat, ok: bool)
    requires i + 1 < |o|
    requires var c := Scored(o, 0, works);
             if ok then works(o[i]) && i <= c else c <= i && (c < i || !works(o[i]))
    ensures var c := Scored(o, 0, works);
            && (ok ==> i < c && Upto(i, c) == i && Upto(i + 1, c) == i + 1)
            && (ok && !works(o[i + 1]) ==> c == i + 1)
            && (!ok ==> c <= i && Upto(i, c) == Upto(i + 1, c))
  {
    ScoredIs(o, 0, works, i + 1);
  }

  /** One round: the order after o[i] is there, and the ladder that is scored is still that of o[i]. */
  lemma UnderwayNext(i: nat, ok: bool, j: nat, kept: Option<seq<nat>>, least: real, o: seq<seq<nat>>,
                     works: seq<nat> -> bool, value: seq<nat> -> real, huge: real)
    requires Underway(i, ok, j, kept, least, o, works, value, huge) && i + 1 < |o|
    requires value(o[i]) < huge
    ensures ok && value(o[i]) == 0.0 ==> forall k: Option<seq<nat>> :: Outcome(true, k, o, works, value)
    ensures ok && value(o[i]) != 0.0 && value(o[i]) < least ==>
              Underway(i + 1, works(o[i + 1]), i, Some(o[i + 1]), value(o[i]), o, works, value, huge)
    ensures ok && value(o[i]) != 0.0 && value(o[i]) >= least ==>
              Underway(i + 1, works(o[i + 1]), j, kept, least, o, works, value, huge)
    ensures !ok ==> Underway(i + 1, false, j, kept, least, o, works, value, huge)
  {
    ScoredNext(o, works, i, ok);
    hide Scored, FirstLeast, Keeps, NoneZero, Upto;
    if ok {
      KeepsNext(o, i, value, j, kept, least, huge);
      NoneZeroNext(o, i, value);
    }
  }

  lemma UnderwayEnd(i: nat, ok: bool, j: nat, kept: Option<seq<nat>>, least: real, o: seq<seq<nat>>,
                    works: seq<nat> -> bool, value: seq<nat> -> real, huge: real)
    requires Underway(i, ok, j, kept, least, o, works, value, huge) && i == |o| - 1
    ensures Outcome(false, kept, o, works, value)
  {
    hide FirstLeast;
    assert Upto(i, Scored(o, 0, works)) == Scored(o, 0, works);
  }

  /** The kept order is the successor of the first of the best that were scored.  Its synthesis works
      unless it is the first whose synthesis fails, after which none is scored.  And it is one of
      least worth among all that work exactly if it is worth no more than its predecessor and no
      more than those that work but were not scored. */
  lemma KeptIsLeast(kept: Option<seq<nat>>, o: seq<seq<nat>>, works: seq<nat> -> bool, value: seq<nat> -> real,
                    c: nat, j: nat)
    requires o != [] && c == Scored(o, 0, works) && Outcome(false, kept, o, works, value)
    requires FirstLeast(o, c, value, j)
    ensures j + 1 < |o| && kept == Some(o[j + 1])
    ensures works(o[j + 1]) <==> j + 1 < c || works(o[c])
    ensures (forall i :: 0 <= i < |o| && works(o[i]) ==> value(o[j + 1]) <= value(o[i]))
       <==> && value(o[j + 1]) <= value(o[j])
            && (forall i :: c <= i < |o| && works(o[i]) ==> value(o[j + 1]) <= value(o[i]))
  {
    KeptFollows(kept, o, works, value, c, j);
    hide Scored, Outcome;
    LeastAmong(o, c, works, value, j, value(o[j + 1]));
  }

  lemma KeptFollows(kept: Option<seq<nat>>, o: seq<seq<nat>>, works: seq<nat> -> bool, value: seq<nat> -> real,
                    c: nat, j: nat)
    requires o != [] && c == Scored(o, 0, works) && Outcome(false, kept, o, works, value)
    requires FirstLeast(o, c, value, j)
    ensures j + 1 < |o| && kept == Some(o[j + 1])
  {
    hide Scored;
    var k: nat :| FirstLeast(o, c, value, k) && kept == Some(o[k + 1]);
    LeastIsOne(o, c, value, j, k);
  }

  /** What is worth no more than the first of the least is worth no more than any of the first c. */
  lemma LeastAmong(o: seq<seq<nat>>, c: nat, works: seq<nat> -> bool, value: seq<nat> -> real, j: nat, v: real)
    requires FirstLeast(o, c, value, j) && forall i :: 0 <= i < c ==> works(o[i])
    ensures (forall i :: 0 <= i < |o| && works(o[i]) ==> v <= value(o[i]))
       <==> v <= value(o[j]) && (forall i :: c <= i < |o| && works(o[i]) ==> v <= value(o[i]))
  {
    assert works(o[j]);
  }

  lemma LeastIsOne(o: seq<seq<nat>>, c: nat, value: seq<nat> -> real, j: nat, k: nat)
    requires FirstLeast(o, c, value, j) && FirstLeast(o, c, value, k)
    ensures j == k
  {
    assert value(o[j]) <= value(o[k]) && value(o[k]) <= value(o[j]);
  }

  /** With two poles the optimiser keeps the second order, whatever the two are worth: nothing but
      the first is ever scored. */
  lemma TwoPoles(early: bool, kept: Option<seq<nat>>, works: seq<nat> -> bool, value: seq<nat> -> real)
    requires Orbit(Identity(2), 2) != [] && Outcome(early, kept, Orbit(Identity(2), 2), works, value)
    requires works([0, 1]) && value([0, 1]) != 0.0
    ensures !early && kept == Some([1, 0])
  {
    var o := Orbit(Identity(2), 2);
    TwoOrders();
    assert Scored(o, 0, works) == 1;
  }

  /** So the order that is kept need not work although another one does. */
  lemma KeptFails(early: bool, kept: Option<seq<nat>>, works: seq<nat> -> bool, value: seq<nat> -> real)
    requires Orbit(Identity(2), 2) != [] && Outcome(early, kept, Orbit(Identity(2), 2), works, value)
    requires works([0, 1]) && !works([1, 0]) && value([0, 1]) != 0.0
    ensures !early && kept.Some? && !works(kept.value)
  {
    TwoPoles(early, kept, works, value);
  }

  lemma TwoOrders()
    ensures Orbit(Identity(2), 2) == [[0, 1], [1, 0]]
  {
    var a, b := [0, 1], [1, 0];
    assert Identity(2) == a && Permutation(b, 2);
    LessOfTwo(a, b);
    forall p: seq<nat> | Permutation(p, 2) ensures p == a || p == b {
      PermutationOfTwo(p);
    }
    hide *;
    TwoOrdersOf(a, b);
  }

  lemma TwoOrdersOf(a: seq<nat>, b: seq<nat>)
    requires Permutation(a, 2) && Permutation(b, 2) && Less(a, b) && !Less(b, a)
    requires forall p: seq<nat> :: Permutation(p, 2) ==> p == a || p == b
    ensures Orbit(a, 2) == [a, b]
  {
    PermutationLength(a, b);
    hide *;
    NextIsSuccessor(a, 2, b);
    NextIsSuccessor(b, 2, b);
    LessIrreflexive(a);
    LessIrreflexive(b);
    OrbitStep(a, 2);
    OrbitStep(b, 2);
  }

  lemma PermutationLength(a: seq<nat>, b: seq<nat>)
    requires Permutation(a, 2) && Permutation(b, 2)
    ensures Injective(a, 2) && Injective(b, 2) && |a| == |b| == 2
  {
  }

  lemma LessOfTwo(a: seq<nat>, b: seq<nat>)
    requires |a| == |b| == 2 && a[0] < b[0]
    ensures Less(a, b) && !Less(b, a)
  {
    assert Init(a) == [a[0]] && Init(b) == [b[0]];
    assert Init([a[0]]) == [] && Init([b[0]]) == [];
    assert Less([a[0]], [b[0]]) && !Less([b[0]], [a[0]]);
  }

  lemma PermutationOfTwo(s: seq<nat>)
    requires Permutation(s, 2)
    ensures s == [0, 1] || s == [1, 0]
  {
    assert s == [s[0], s[1]];
  }

  /** With one pole nothing is scored, and the final synthesis is left without an order. */
  lemma OnePole(early: bool, kept: Option<seq<nat>>, works: seq<nat> -> bool, value: seq<nat> -> real)
    requires Orbit(Identity(1), 1) != [] && Outcome(early, kept, Orbit(Identity(1), 1), works, value)
    ensures !early && kept == None
  {
    OneOrder();
  }

  lemma OneOrder()
    ensures |Orbit(Identity(1), 1)| == 1
  {
    EveryOrderOnce(1, [0]);
  }
}
