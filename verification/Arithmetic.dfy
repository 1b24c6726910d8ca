/** Division with remainder, for the proofs that split numbers. */
module Arithmetic {
  lemma MultipleIsBig(d: int, c: int)
    requires c > 0
    ensures d > 0 ==> d * c >= c
    ensures d < 0 ==> d * c <= -c
  {
  }

  lemma DivModUnique(a: int, q: int, r: int, c: int)
    requires 0 <= r < c && a == q * c + r
    ensures a / c == q && a % c == r
  {
    MultipleIsBig(a / c - q, c);
    assert (a / c - q) * c == (a / c) * c - q * c;
  }

  lemma ModShift(n: int, k: int, c: int)
    requires c > 0
    ensures (n + k * c) % c == n % c
  {
    assert n + k * c == (n / c + k) * c + n % c;
    DivModUnique(n + k * c, n / c + k, n % c, c);
  }
}
