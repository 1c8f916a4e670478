/** The prime search behind the table sizes: it ends, and what it really finds. */
module Primes {
  import opened Arithmetic

  ghost predicate Prime(p: int) {
    p > 1 && forall d :: 1 < d < p ==> p % d != 0
  }

  /** What cel_is_prime tests: no divisor whose square is below the number. */
  ghost predicate PassesTest(n: int) {
    n == 2 || (n > 1 && n % 2 != 0 && forall j :: 3 <= j < n && j * j < n ==> n % j != 0)
  }

  method IsPrime(n: int) returns (r: bool)
    ensures r <==> PassesTest(n)
  {
    if n == 2 || n == 3 { return true; }
    if n <= 1 || n % 2 == 0 { return false; }
    var j := 3;
    while j * j < n
      invariant 3 <= j
      invariant forall i :: 3 <= i < j && i * i < n ==> n % i != 0
      decreases n - j
    {
      Grows(j);
      if n % j == 0 { return false; }
      j := j + 1;
    }
    forall i | j <= i ensures i * i >= n { Squares(j, i); }
    return true;
  }

  lemma Grows(j: int)
    requires j >= 1
    ensures j <= j * j
  {
  }

  lemma Squares(a: int, b: int)
    requires 0 <= a <= b
    ensures a * a <= b * b
  {
    assert a * a <= a * b <= b * b;
  }

  // ---------- what passes the test ----------

  lemma SmallerSquare(a: int, b: int)
    requires 0 <= b && a * a < b * b
    ensures a < b
  {
    if a >= b { Squares(b, a); }
  }

  /** Euclid's lemma: a prime that divides a product divides one of the factors. */
  lemma {:induction false} Euclid(p: int, j: int, k: int, m: int) returns (t: int)
    requires Prime(p) && 0 < j < p && j * k == p * m
    ensures k == p * t
    decreases j
  {
    if j == 1 {
      t := m;
    } else {
      var q, r := p / j, p % j;
      assert p == q * j + r && r != 0;
      calc {
        r * k;
        (p - q * j) * k;
        p * k - q * (j * k);
        p * k - q * (p * m);
        p * (k - q * m);
      }
      t := Euclid(p, r, k, k - q * m);
    }
  }

  /** The square of a prime has no divisors below the prime. */
  lemma SquareOfPrime(p: int, j: int)
    requires Prime(p) && 1 < j < p
    ensures (p * p) % j != 0
  {
    if (p * p) % j == 0 {
      var k := Quotient(p * p, j);
      var t := Euclid(p, j, k, p);
      assert p * p == p * (j * t) by {
        assert j * (p * t) == p * (j * t);
      }
      Cancel(p, p, j * t);
      MultipleMod(j, t);
    }
  }

  lemma Cancel(p: int, a: int, b: int)
    requires p > 0 && p * a == p * b
    ensures a == b
  {
    assert (b - a) * p == 0;
    MulBound(b - a, p);
  }

  lemma ModTransitive(n: int, a: int, c: int)
    requires a > 0 && c > 0 && n % a == 0 && a % c == 0
    ensures n % c == 0
  {
    var k := Quotient(n, a);
    var l := Quotient(a, c);
    assert n == c * (l * k) by {
      assert c * l * k == c * (l * k);
    }
    MultipleMod(c, l * k);
  }

  lemma PrimePasses(p: int)
    requires Prime(p)
    ensures PassesTest(p)
  {
    if p != 2 { assert p % 2 != 0; }
  }

  lemma SquarePasses(p: int)
    requires Prime(p) && p % 2 != 0
    ensures PassesTest(p * p)
  {
    assert p >= 3;
    assert p * p > 1 by { Squares(3, p); }
    assert (p * p) % 2 != 0 by { SquareOfPrime(p, 2); }
    forall j | 3 <= j < p * p && j * j < p * p ensures (p * p) % j != 0 {
      SmallerSquare(j, p);
      SquareOfPrime(p, j);
    }
  }

  /** The least divisor is prime. */
  lemma LeastDivisor(n: int) returns (p: int)
    requires n > 1
    ensures Prime(p) && p <= n && n % p == 0
    ensures forall d :: 1 < d < p ==> n % d != 0
  {
    p := 2;
    while n % p != 0
      invariant 2 <= p <= n
      invariant forall d :: 1 < d < p ==> n % d != 0
      decreases n - p
    {
      p := p + 1;
    }
    forall d | 1 < d < p ensures p % d != 0 {
      if p % d == 0 { ModTransitive(n, p, d); }
    }
  }

  /** Exactly the primes and the squares of odd primes pass. */
  lemma TestMeans(n: int)
    ensures PassesTest(n) <==> Prime(n) || exists p :: Prime(p) && p % 2 != 0 && n == p * p
  {
    if Prime(n) { PrimePasses(n); }
    forall p | Prime(p) && p % 2 != 0 && n == p * p ensures PassesTest(n) { SquarePasses(p); }
    if PassesTest(n) && !Prime(n) {
      var p := LeastDivisor(n);
      LeastIsRoot(n, p);
      assert Prime(p) && p % 2 != 0 && n == p * p;
    }
  }

  lemma LeastIsRoot(n: int, p: int)
    requires PassesTest(n) && !Prime(n) && Prime(p) && p <= n && n % p == 0
    requires forall d :: 1 < d < p ==> n % d != 0
    ensures n == p * p && p % 2 != 0
  {
    assert p != n;
    assert p != 2;
    assert p % 2 != 0;
    assert p * p >= n;
    var k := Quotient(n, p);
    assert (k - 1) * p == n - p;
    MulBound(k - 1, p);
    assert k > 1;
    assert n == k * p;
    if k < p { MultipleMod(k, p); }
    assert p * k >= p * p by { Scale(p, k); }
  }

  lemma Scale(p: int, k: int)
    requires 0 < p <= k
    ensures p * k >= p * p
  {
    assert p * k - p * p == p * (k - p);
  }

  // ---------- the search ----------

  function Factorial(n: nat): (f: nat)
    ensures f > 0
  {
    if n == 0 then 1 else n * Factorial(n - 1)
  }

  lemma {:induction false} FactorialDivisible(n: nat, d: int)
    requires 0 < d <= n
    ensures Factorial(n) % d == 0
  {
    if d == n {
      MultipleMod(n, Factorial(n - 1));
    } else {
      FactorialDivisible(n - 1, d);
      var k := Quotient(Factorial(n - 1), d);
      assert Factorial(n) == d * (n * k) by {
        assert n * (d * k) == d * (n * k);
      }
      MultipleMod(d, n * k);
    }
  }

  /** There is a prime above every number. */
  lemma PrimeAbove(n: nat) returns (p: int)
    ensures Prime(p) && p > n
  {
    p := LeastDivisor(Factorial(n) + 1);
    if p <= n {
      FactorialDivisible(n, p);
      var k := Quotient(Factorial(n), p);
      assert Factorial(n) + 1 == k * p + 1;
      ModOf(k, p, 1);
    }
  }

  lemma OddPrime(p: int)
    requires Prime(p) && p > 2
    ensures p % 2 != 0
  {
  }

  /** The least odd number from `n` on that passes the test. */
  ghost predicate IsNext(n: int, r: int) {
    r >= n && r % 2 != 0 && PassesTest(r) && forall k :: n <= k < r && k % 2 != 0 ==> !PassesTest(k)
  }

  lemma NextUnique(n: int, r: int, q: int)
    requires IsNext(n, r) && IsNext(n, q)
    ensures r == q
  {
    hide PassesTest;
  }

  /** cel_next_prime: the least odd number from `n` on that passes the test. */
  method NextPrime(n: int) returns (r: int)
    ensures IsNext(n, r)
  {
    hide PassesTest, Prime;
    r := if n % 2 == 0 then n + 1 else n;
    ghost var p := PrimeAbove(if n > 2 then n else 2);
    OddPrime(p);
    var found := IsPrime(r);
    while !found
      invariant n <= r <= p && r % 2 != 0 && (found <==> PassesTest(r))
      invariant forall k :: n <= k < r && k % 2 != 0 ==> !PassesTest(k)
      decreases p - r
    {
      if r == p { PrimePasses(p); }
      r := r + 2;
      found := IsPrime(r);
    }
  }

  /** The search does stop at squares: 25 is returned for 24, although it is no prime. */
  lemma SquareIsTaken()
    ensures PassesTest(25) && !Prime(25)
  {
    assert Prime(5);
    SquarePasses(5);
    assert 25 % 5 == 0;
  }
}
