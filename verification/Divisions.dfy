/** Facts about products, quotients and remainders. */
module Divisions {

  /** d * k + r leaves remainder r. */
  lemma MultipleModulo(d: int, k: int, r: int)
    requires 0 <= r < d
    ensures (d * k + r) % d == r && (d * k + r) / d == k
  {
    var n := d * k + r;
    var q, m := n / d, n % d;
    assert n == d * q + m;
    assert d * (k - q) == m - r;
    if k - q >= 1 { assert d * (k - q) >= d * 1 by { Scale(d, 1, k - q); } }
    if k - q <= -1 { assert d * (k - q) <= d * -1 by { Scale(d, k - q, -1); } }
  }

  /** The remainder of a sum, from the remainders. */
  lemma SumModulo(x: nat, y: nat, n: nat)
    requires 0 < n
    ensures (x % n + y % n) % n == (x + y) % n
  {
    var a, b, r := x / n, y / n, (x % n + y % n) % n;
    var c := (x % n + y % n) / n;
    assert x == n * a + x % n && y == n * b + y % n && x % n + y % n == n * c + r;
    assert n * (a + b + c) == n * a + n * b + n * c;
    MultipleModulo(n, a + b + c, r);
  }

  lemma Scale(d: int, x: int, y: int)
    requires 0 <= d && x <= y
    ensures d * x <= d * y
  {}
}
