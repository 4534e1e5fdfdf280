/** Quotients, remainders and powers of two. */
module Arithmetic {
  function Pow2(k: nat): (p: nat)
    ensures p > 0
  {
    if k == 0 then 1 else 2 * Pow2(k - 1)
  }

  lemma MulStep(a: int, b: int, m: nat)
    ensures a < b ==> a * m + m <= b * m
  {
    var d := b - a - 1;
    assert b * m == (a + 1 + d) * m == a * m + m + d * m;
    if d >= 0 {
      assert d * m >= 0;
    }
  }

  /** Quotient and remainder are determined by what they add up to. */
  lemma DivUnique(x: int, m: nat, q: int, r: nat)
    requires r < m && x == q * m + r
    ensures x / m == q && x % m == r
  {
    assert x == x / m * m + x % m;
    MulStep(x / m, q, m);
    MulStep(q, x / m, m);
  }

  lemma DivLess(n: nat, m: nat)
    requires m >= 2
    ensures 0 <= n / m <= n / 2 && 0 <= n % m < m
    ensures n == n / m * m + n % m
  {
    var q := n / m;
    assert n == q * m + n % m;
    MulStep(q, 0, m);
    assert q * m >= q * 2;
  }

  lemma ModDouble(x: int, m: nat)
    requires m > 0
    ensures x % (2 * m) == 2 * (x / 2 % m) + x % 2
  {
    var q, r := x / 2 / m, x / 2 % m;
    assert x / 2 == q * m + r;
    assert x == q * (2 * m) + (2 * r + x % 2);
    DivUnique(x, 2 * m, q, 2 * r + x % 2);
  }

  lemma HalfOfShift(value: int, k: nat)
    ensures value / Pow2(k) / 2 == value / Pow2(k + 1)
  {
    var p := Pow2(k);
    var q, r, s := value / p / 2, value / p % 2, value % p;
    assert value == value / p * p + s;
    assert value / p == q * 2 + r;
    assert value == q * (2 * p) + (r * p + s);
    assert 0 <= r * p + s < 2 * p by {
      if r == 0 { assert r * p == 0; } else { assert r * p == p; }
    }
    DivUnique(value, 2 * p, q, r * p + s);
  }

  /** One more bit of a shifted value. */
  lemma BitStep(value: int, k: nat, i: nat)
    ensures value / Pow2(k) % Pow2(i + 1) == 2 * (value / Pow2(k + 1) % Pow2(i)) + value / Pow2(k) % 2
  {
    HalfOfShift(value, k);
    ModDouble(value / Pow2(k), Pow2(i));
  }
}
