/** How the rows of the population are laid out over the processes: process i gets a block of
    consecutive rows, and the blocks follow each other. */
module Layout {

  const MAXDIM := 35

  /** Counts are kept in numbers of doubles, MAXDIM for each row. */
  function Units(c: int): int {
    c / MAXDIM
  }

  /** The first row of process i. */
  function Start(sc: seq<int>, i: nat): int
    requires i <= |sc|
  {
    if i == 0 then 0 else Start(sc, i - 1) + Units(sc[i - 1])
  }

  /** sc and displs lay out np rows over the processes 0 .. n, of which process 0 gets none. */
  ghost predicate Laid(sc: seq<int>, displs: seq<int>, n: nat, np: int) {
    && n < |sc| && n < |displs|
    && sc[0] == 0
    && (forall i :: 0 <= i <= n ==> sc[i] >= 0 && sc[i] % MAXDIM == 0 && displs[i] == MAXDIM * Start(sc, i))
    && Start(sc, n + 1) == np
  }

  lemma {:induction false} StartIncreases(sc: seq<int>, i: nat, j: nat)
    requires i <= j <= |sc| && forall k :: 0 <= k < j ==> sc[k] >= 0
    ensures 0 <= Start(sc, i) <= Start(sc, j)
    decreases j
  {
    if i < j {
      StartIncreases(sc, i, j - 1);
    } else if i > 0 {
      StartIncreases(sc, i - 1, i - 1);
    }
  }

  /** Every block lies within the rows. */
  lemma BlockWithin(sc: seq<int>, n: nat, i: nat)
    requires i <= n < |sc| && forall k :: 0 <= k <= n ==> sc[k] >= 0
    ensures 0 <= Start(sc, i) && 0 <= Units(sc[i]) && Start(sc, i) + Units(sc[i]) <= Start(sc, n + 1)
  {
    StartIncreases(sc, i, i);
    StartIncreases(sc, i + 1, n + 1);
  }

  ghost predicate Owns(sc: seq<int>, i: int, row: int)
    requires 0 <= i < |sc|
  {
    Start(sc, i) <= row < Start(sc, i + 1)
  }

  /** The blocks partition the rows: every row has one owner. */
  lemma {:induction false} OwnerExists(sc: seq<int>, n: nat, row: int) returns (i: int)
    requires n < |sc| && 0 <= row < Start(sc, n + 1)
    ensures 0 <= i <= n && Owns(sc, i, row)
    decreases n
  {
    if Start(sc, n) <= row {
      i := n;
    } else {
      i := OwnerExists(sc, n - 1, row);
    }
  }

  lemma OwnerIsUnique(sc: seq<int>, n: nat, row: int, i: int, j: int)
    requires n < |sc| && (forall k :: 0 <= k <= n ==> sc[k] >= 0)
    requires 0 <= i <= n && 0 <= j <= n && Owns(sc, i, row) && Owns(sc, j, row)
    ensures i == j
  {
    if i < j {
      StartIncreases(sc, i + 1, j);
    } else if j < i {
      StartIncreases(sc, j + 1, i);
    }
  }
}
