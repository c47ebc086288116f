/** Powers of two, and quotients and remainders of variable divisors. */
module Arithmetic {

  function Pow2(k: nat): (r: nat)
    ensures r > 0
  {
    if k == 0 then 1 else 2 * Pow2(k - 1)
  }

  lemma {:induction false} Pow2Mono(a: nat, b: nat)
    requires a <= b
    ensures Pow2(a) <= Pow2(b)
    ensures a < b ==> 2 * Pow2(a) <= Pow2(b)
  {
    if a == b {
      assert Pow2(a) == Pow2(b);
    } else {
      Pow2Mono(a, b - 1);
    }
  }

  /** A multiple of d smaller than d in size is 0. */
  lemma SmallMultiple(d: int, k: int)
    requires 0 < d && -d < d * k < d
    ensures k == 0
  {
  }

  lemma DivUnique(n: int, d: nat, q: int, r: int)
    requires d > 0 && n == d * q + r && 0 <= r < d
    ensures n / d == q && n % d == r
  {
    var q', r' := n / d, n % d;
    assert n == d * q' + r' && 0 <= r' < d;
    assert d * (q - q') == d * q - d * q';
    SmallMultiple(d, q - q');
  }

  lemma MultipleMod(q: int, d: nat)
    requires d > 0
    ensures (d * q) % d == 0
  {
    DivUnique(d * q, d, q, 0);
  }

  lemma ModUnique(a: nat, b: nat, m: nat)
    requires m > 0 && a % m == b % m && a <= b < a + m
    ensures a == b
  {
    var k := b / m - a / m;
    assert m * k == m * (b / m) - m * (a / m);
    assert b - a == m * k;
    SmallMultiple(m, k);
  }
}
