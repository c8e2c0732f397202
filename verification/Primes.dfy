/** Divisibility and primes, shared by the sieves. */
module Primes {
  import opened Divisions

  predicate Divides(d: int, n: int)
    requires 0 < d
  {
    n % d == 0
  }

  ghost predicate IsPrime(n: int) {
    2 <= n && forall m :: 2 <= m < n ==> !Divides(m, n)
  }

  lemma DividesWitness(d: int, n: int, k: int)
    requires 0 < d && n == d * k
    ensures Divides(d, n)
  {
    MultipleModulo(d, k, 0);
  }

  lemma DividesSum(d: int, a: int, b: int)
    requires 0 < d && Divides(d, a)
    ensures Divides(d, a + b) <==> Divides(d, b)
    ensures Divides(d, a - b) <==> Divides(d, b)
  {
    var k, j, r := a / d, b / d, b % d;
    assert a == d * k && b == d * j + r;
    assert d * (k + j) == d * k + d * j;
    MultipleModulo(d, k + j, r);
    if r == 0 {
      assert d * (k - j) == d * k - d * j;
      MultipleModulo(d, k - j, 0);
    } else {
      assert d * (k - j - 1) == d * k - d * j - d;
      MultipleModulo(d, k - j - 1, d - r);
    }
  }

  lemma DividesTransitive(a: int, b: int, n: int)
    requires 0 < a && 0 < b && Divides(a, b) && Divides(b, n)
    ensures Divides(a, n)
  {
    var i, j := b / a, n / b;
    assert b == a * i && n == b * j;
    assert n == a * (i * j);
    DividesWitness(a, n, i * j);
  }

  lemma Cofactor(d: int, n: int) returns (k: int)
    requires 0 < d && 0 < n && Divides(d, n)
    ensures n == d * k && 0 < k <= n && d <= n
  {
    k := n / d;
    assert n == d * k;
    if k <= 0 { Scale(d, k, 0); }
    Scale(d, 1, k);
    assert k * 1 <= k * d by { Scale(k, 1, d); }
    assert k * d == d * k;
  }

  /** The least divisor above 1 is prime, and of a composite number at most its root. */
  lemma LeastFactor(n: int) returns (p: int)
    requires 2 <= n
    ensures IsPrime(p) && p <= n && Divides(p, n)
    ensures forall m :: 2 <= m < p ==> !Divides(m, n)
    ensures !IsPrime(n) ==> p * p <= n
  {
    p := 2;
    assert Divides(n, n) by { DividesWitness(n, n, 1); }
    while !Divides(p, n)
      invariant 2 <= p <= n
      invariant forall m :: 2 <= m < p ==> !Divides(m, n)
      decreases n - p
    {
      p := p + 1;
    }
    forall m | 2 <= m < p
      ensures !Divides(m, p)
    {
      if Divides(m, p) { DividesTransitive(m, p, n); }
    }
    if !IsPrime(n) {
      var k := Cofactor(p, n);
      assert k != 1;
      assert Divides(k, n) by { assert n == k * p; DividesWitness(k, n, p); }
      assert p <= k;
      Scale(p, p, k);
    }
  }

  /** A number with a divisor strictly between 1 and itself is not prime. */
  lemma ProperDivisor(d: int, n: int)
    requires 2 <= d < n && Divides(d, n)
    ensures !IsPrime(n)
  {}

  /** Odd multiples of an odd p are p slots apart in a table of the odd numbers from s0. */
  lemma OddSlots(p: int, s0: int, i: int, j: int)
    requires 3 <= p && p % 2 == 1 && Divides(p, s0 + 2 * i) && i < j < i + p
    ensures !Divides(p, s0 + 2 * j)
  {
    DividesSum(p, s0 + 2 * i, 2 * (j - i));
    var x := 2 * (j - i);
    if Divides(p, x) {
      var k := Cofactor(p, x);
      if 2 <= k { Scale(p, 2, k); }
    }
  }
}
