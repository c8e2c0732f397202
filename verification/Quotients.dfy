/** Division truncating toward zero, as C defines it for its integers and InfInt.h for its own. */
module Quotients {

  function Abs(x: int): nat { if x < 0 then -x else x }

  function Quotient(a: int, b: int): int
    requires b != 0
  {
    if (a >= 0) == (b >= 0) then Abs(a) / Abs(b) else -(Abs(a) / Abs(b))
  }

  function Remainder(a: int, b: int): int
    requires b != 0
  {
    if a >= 0 then Abs(a) % Abs(b) else -(Abs(a) % Abs(b))
  }

  /** A truncated quotient with its remainder: they rebuild the dividend, the remainder is smaller than
      the divisor and has the dividend's sign. */
  ghost predicate Truncated(a: int, b: int, q: int, r: int) {
    a == q * b + r && Abs(r) < Abs(b) && (r != 0 ==> (r > 0 <==> a > 0))
  }

  lemma TruncatedDivision(a: int, b: int)
    requires b != 0
    ensures Truncated(a, b, Quotient(a, b), Remainder(a, b))
  {
    var q, r := Magnitudes(a, b);
    SignedDivision(Abs(a), Abs(b), q, r, a, b, Quotient(a, b), Remainder(a, b));
  }

  lemma Magnitudes(a: int, b: int) returns (q: int, r: int)
    requires b != 0
    ensures Abs(a) == q * Abs(b) + r && 0 <= r < Abs(b) && q >= 0
    ensures Quotient(a, b) == if (a >= 0) == (b >= 0) then q else -q
    ensures Remainder(a, b) == if a >= 0 then r else -r
  {
    var m, n := Abs(a), Abs(b);
    q, r := m / n, m % n;
    EuclidExists(m, n, q, r);
  }

  /** Only one pair is a truncated quotient with its remainder. */
  lemma OnlyTruncatedDivision(a: int, b: int, q: int, r: int)
    requires b != 0 && Truncated(a, b, q, r)
    ensures q == Quotient(a, b) && r == Remainder(a, b)
  {
    TruncatedDivision(a, b);
    SameTruncated(a, b, q, r, Quotient(a, b), Remainder(a, b));
  }

  /** Long division of the magnitudes yields both results up to sign. */
  lemma MagnitudesDivide(a: int, b: int, m: int, n: int, q: int, r: int)
    requires b != 0 && m == Abs(a) && n == Abs(b) && m == n * q + r && 0 <= r < n
    ensures q >= 0 && Quotient(a, b) == if (a >= 0) == (b >= 0) then q else -q
    ensures Remainder(a, b) == if a >= 0 then r else -r
  {
    EuclidUnique(m, n, q, r);
  }

  lemma EuclidUnique(n: int, d: int, q: int, r: int)
    requires n >= 0 && d > 0 && 0 <= r < d && n == d * q + r
    ensures q == n / d && r == n % d && q >= 0
  {
    EuclidExists(n, d, n / d, n % d);
    assert q * d == d * q;
    SameEuclid(d, q, r, n / d, n % d);
  }

  lemma EuclidExists(n: int, d: int, q: int, r: int)
    requires n >= 0 && d > 0 && q == n / d && r == n % d
    ensures n == q * d + r && 0 <= r < d && q >= 0
  {}

  lemma SignedDivision(m: int, n: int, q0: int, r0: int, a: int, b: int, q: int, r: int)
    requires m >= 0 && n > 0 && m == q0 * n + r0 && 0 <= r0 < n && q0 >= 0
    requires (if a >= 0 then a == m && r == r0 else a == -m && r == -r0) && b == if b >= 0 then n else -n
    requires q == if (a >= 0) == (b >= 0) then q0 else -q0
    ensures Truncated(a, b, q, r)
  {
    SignedProduct(q0, n, q, b);
  }

  lemma SameTruncated(a: int, b: int, q: int, r: int, q': int, r': int)
    requires b != 0 && Truncated(a, b, q, r) && Truncated(a, b, q', r')
    ensures q == q' && r == r'
  {
    DifferenceTimes(q', q, b);
    SmallMultiple(q' - q, b, r - r');
  }

  lemma SameEuclid(d: int, q: int, r: int, q': int, r': int)
    requires 0 <= r < d && 0 <= r' < d && q * d + r == q' * d + r'
    ensures q == q' && r == r'
  {
    DifferenceTimes(q', q, d);
    SmallMultiple(q' - q, d, r - r');
  }

  lemma DifferenceTimes(x: int, y: int, b: int)
    ensures (x - y) * b == x * b - y * b
  {}

  lemma SmallMultiple(k: int, b: int, p: int)
    requires b != 0 && p == k * b && Abs(p) < Abs(b)
    ensures k == 0
  {
    if k >= 1 { OneAtLeast(k, b, p); }
    if k <= -1 { OneAtLeast(-k, b, -p); }
  }

  lemma OneAtLeast(k: int, b: int, p: int)
    requires k >= 1
    ensures k * b == p ==> Abs(p) >= Abs(b)
  {
    if b >= 0 { Grows(k, b); } else { Grows(k, -b); }
  }

  lemma Grows(k: int, b: int)
    requires k >= 1 && b >= 0
    ensures k * b >= b && k * -b <= -b
  {
    DifferenceTimes(k, 1, b);
    assert (k - 1) * b >= 0;
    assert k * -b == -(k * b);
  }

  /** The sign of a product. */
  lemma SignedProduct(x: int, y: int, a: int, b: int)
    requires x >= 0 && (a == x || a == -x) && y >= 0 && (b == y || b == -y)
    ensures x * y >= 0
    ensures a == x && b == y ==> a * b == x * y
    ensures a == x && b == -y ==> a * b == -(x * y)
    ensures a == -x && b == y ==> a * b == -(x * y)
    ensures a == -x && b == -y ==> a * b == x * y
  {
    assert x * y >= 0;
  }
}
