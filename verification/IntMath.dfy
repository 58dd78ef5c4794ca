/** Division of integers with a variable divisor. */
module IntMath {

  lemma RemainderUnique(n: int, q: int, r: int, m: int)
    requires m > 0 && 0 <= r < m && n == q * m + r
    ensures n % m == r && n / m == q
  {
    var p, t := n / m, n % m;
    assert n == p * m + t && 0 <= t < m;
    assert (p - q) * m == r - t;
    Multiples(p - q, m);
  }

  lemma Multiples(d: int, m: int)
    requires m > 0
    ensures d >= 1 ==> d * m >= m
    ensures d <= -1 ==> d * m <= -m
  {
  }
}
