/** Division with remainder and bounds of products, spelled out for the proofs that need them. */
module Arithmetic {
  lemma MulBound(x: int, d: int)
    requires d > 0
    ensures x >= 1 ==> x * d >= d
    ensures x <= -1 ==> x * d <= -d
  {
    if x >= 1 { assert x * d == d + (x - 1) * d; }
    if x <= -1 { assert x * d == -d + (x + 1) * d; }
  }

  lemma MultipleMod(d: int, k: int)
    requires d > 0
    ensures (d * k) % d == 0
  {
    assert d * k == k * d + 0;
    ModOf(k, d, 0);
  }

  lemma ModOf(k: int, d: int, r: int)
    requires 0 <= r < d
    ensures (k * d + r) % d == r
  {
    var n := k * d + r;
    var q, m := n / d, n % d;
    assert q * d + m == n;
    assert (q - k) * d == r - m;
    MulBound(q - k, d);
  }

  lemma Quotient(n: int, d: int) returns (k: int)
    requires d > 0 && n % d == 0
    ensures n == d * k
  {
    k := n / d;
  }

  lemma DivOf(k: int, d: int, r: int)
    requires 0 <= r < d
    ensures (k * d + r) / d == k
  {
    ModOf(k, d, r);
    var n := k * d + r;
    assert (n / d - k) * d == 0;
    MulBound(n / d - k, d);
  }

  lemma Scaled(x: int, d: int)
    requires d > 0 && x * d == 0
    ensures x == 0
  {
    MulBound(x, d);
  }

  lemma ModAdd(n: int, a: int, m: int)
    requires m > 0
    ensures (n % m + a) % m == (n + a) % m
  {
    var q, r := n / m, n % m;
    var k, s := (r + a) / m, (r + a) % m;
    assert n + a == (q + k) * m + s;
    ModOf(q + k, m, s);
  }

  /** A shift by less than the modulus that changes nothing is none. */
  lemma SmallShift(x: int, d: int, m: int)
    requires 0 <= d < m && (x + d) % m == x % m
    ensures d == 0
  {
    var q, k := x / m, (x + d) / m;
    assert d == (k - q) * m;
    MulBound(k - q, m);
  }

  lemma ModShift(x: int, k: int, m: int)
    requires m > 0
    ensures (x + k * m) % m == x % m
  {
    var q, r := x / m, x % m;
    assert x + k * m == (q + k) * m + r;
    ModOf(q + k, m, r);
  }
}
