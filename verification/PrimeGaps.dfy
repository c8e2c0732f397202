/** A prime always lies between the square root of a sieve block's end and the block's start, so
    the unbounded loop of block_resieve stops.  The proof bounds (2m)! / (m! * m!) from below by
    2^m and, were there no such prime, from above by (2m)^r through the prime factors up to r. */
module PrimeGaps {
  import opened Divisions
  import opened Primes

  // ---------------------------------------------------------------- valuations

  /** How often p divides n. */
  ghost function Val(p: nat, n: nat): nat
    requires 2 <= p && 1 <= n
    decreases n
  {
    if Divides(p, n) then PartSmaller(p, n); 1 + Val(p, n / p) else 0
  }

  lemma PartSmaller(p: nat, n: nat)
    requires 2 <= p && 1 <= n && Divides(p, n)
    ensures 1 <= n / p < n && n == p * (n / p)
  {
    var k := Cofactor(p, n);
    MultipleModulo(p, k, 0);
    SmallerFactor(p, n, k);
  }

  lemma ValMultiple(p: nat, k: nat)
    requires 2 <= p && 1 <= k
    ensures p * k >= 1 && Val(p, p * k) == 1 + Val(p, k)
  {
    Scale(p, 1, k);
    MultipleModulo(p, k, 0);
    assert Divides(p, p * k);
  }

  /** Euclid's lemma. */
  lemma EuclidsLemma(p: nat, a: nat, b: nat)
    requires IsPrime(p) && Divides(p, a * b) && !Divides(p, a)
    ensures Divides(p, b)
  {
    assert Divides(p, p * b) by { DividesWitness(p, p * b, b); }
    var d := 1;
    while !Divides(p, d * b)
      invariant 1 <= d <= p
      invariant forall x :: 1 <= x < d ==> !Divides(p, x * b)
      decreases p - d
    {
      d := d + 1;
    }
    LeastDivides(p, b, d, p);
    LeastDivides(p, b, d, a);
    PrimeDivisor(p, d);
  }

  lemma PrimeDivisor(p: nat, d: nat)
    requires IsPrime(p) && 1 <= d && Divides(d, p)
    ensures d == 1 || d == p
  {
    var k := Cofactor(d, p);
  }

  /** The least positive d with p | d * b divides every x with p | x * b. */
  lemma LeastDivides(p: nat, b: nat, d: nat, x: nat)
    requires 0 < p && 1 <= d && Divides(p, d * b) && Divides(p, x * b)
    requires forall y :: 1 <= y < d ==> !Divides(p, y * b)
    ensures Divides(d, x)
  {
    var q, r := x / d, x % d;
    assert x == d * q + r;
    assert q * (d * b) + r * b == x * b by { assert (d * q) * b == q * (d * b); assert (d * q + r) * b == (d * q) * b + r * b; }
    assert Divides(p, q * (d * b)) by {
      var k := (d * b) / p;
      assert d * b == p * k;
      assert q * (d * b) == p * (q * k);
      DividesWitness(p, q * (d * b), q * k);
    }
    DividesSum(p, q * (d * b), r * b);
  }

  lemma {:induction false} ValProduct(p: nat, a: nat, b: nat)
    requires IsPrime(p) && 1 <= a && 1 <= b
    ensures a * b >= 1 && Val(p, a * b) == Val(p, a) + Val(p, b)
    decreases a + b
  {
    Scale(a, 1, b);
    if Divides(p, a) {
      PartSmaller(p, a);
      ValProduct(p, a / p, b);
      StripFactor(p, a, b);
    } else if Divides(p, b) {
      PartSmaller(p, b);
      ValProduct(p, a, b / p);
      StripFactor(p, b, a);
      assert (b / p) * a == a * (b / p) && b * a == a * b;
    } else if Divides(p, a * b) {
      EuclidsLemma(p, a, b);
    }
  }

  lemma StripFactor(p: nat, a: nat, b: nat)
    requires 2 <= p && 1 <= a && 1 <= b && Divides(p, a) && 1 <= a / p
    ensures 1 <= (a / p) * b && 1 <= a * b && Val(p, a * b) == 1 + Val(p, (a / p) * b)
    ensures Val(p, a) == 1 + Val(p, a / p)
  {
    PartSmaller(p, a);
    var k := a / p;
    Scale(k, 1, b);
    Swap(p, k, b);
    ValMultiple(p, k * b);
  }

  lemma SmallerFactor(p: nat, n: nat, k: nat)
    requires 2 <= p && 1 <= k && n == p * k
    ensures k < n
  {
    Scale(k, 2, p);
    assert p * k == k * p;
  }

  // ---------------------------------------------------------------- factorials

  ghost function Fact(n: nat): nat
    ensures Fact(n) >= 1
  {
    if n == 0 then 1 else Scale(n, 1, Fact(n - 1)); n * Fact(n - 1)
  }

  /** Legendre's formula for how often p divides n!. */
  ghost function Legendre(p: nat, n: nat): nat
    requires 2 <= p
  {
    if n == 0 then 0 else QuotientSmaller(p, n); n / p + Legendre(p, n / p)
  }

  lemma QuotientSmaller(p: nat, n: nat)
    requires 2 <= p && 1 <= n
    ensures 0 <= n / p < n
  {
    var q := n / p;
    assert n == p * q + n % p;
    assert p * n == n * p;
    if n <= q { Scale(p, n, q); Scale(n, 2, p); }
    if q < 0 { Scale(p, q, -1); }
  }

  lemma {:induction false} LegendreStep(p: nat, n: nat)
    requires 2 <= p && 1 <= n
    ensures Legendre(p, n) == Legendre(p, n - 1) + Val(p, n)
    decreases n
  {
    var k, r := n / p, n % p;
    assert n == p * k + r;
    QuotientSmaller(p, n);
    if r == 0 {
      assert p * (k - 1) == p * k - p;
      MultipleModulo(p, k - 1, p - 1);
      if k <= 0 { Scale(p, k, 0); }
      LegendreStep(p, k);
      ValMultiple(p, k);
    } else {
      MultipleModulo(p, k, r - 1);
    }
  }

  lemma {:induction false} ValFactorial(p: nat, n: nat)
    requires IsPrime(p)
    ensures Val(p, Fact(n)) == Legendre(p, n)
  {
    if n != 0 {
      ValFactorial(p, n - 1);
      ValProduct(p, n, Fact(n - 1));
      LegendreStep(p, n);
    }
  }

  /** (m + 1) * ... * (m + j). */
  ghost function Rising(m: nat, j: nat): nat
    ensures Rising(m, j) >= 1
  {
    if j == 0 then 1 else Scale(m + j, 1, Rising(m, j - 1)); (m + j) * Rising(m, j - 1)
  }

  lemma {:induction false} RisingIsQuotient(m: nat, j: nat)
    ensures Fact(m + j) == Fact(m) * Rising(m, j)
  {
    if j != 0 {
      RisingIsQuotient(m, j - 1);
      Swap(m + j, Fact(m), Rising(m, j - 1));
    }
  }

  lemma Swap(x: int, y: int, z: int)
    ensures x * (y * z) == y * (x * z) == (x * y) * z
  {}

  // ---------------------------------------------------------------- powers

  ghost function Pow(b: nat, e: nat): nat
    requires 1 <= b
    ensures Pow(b, e) >= 1
  {
    if e == 0 then 1 else Scale(b, 1, Pow(b, e - 1)); b * Pow(b, e - 1)
  }

  lemma {:induction false} PowAdd(b: nat, i: nat, j: nat)
    requires 1 <= b
    ensures Pow(b, i + j) == Pow(b, i) * Pow(b, j)
  {
    if i != 0 {
      PowAdd(b, i - 1, j);
      Swap(b, Pow(b, i - 1), Pow(b, j));
    }
  }

  lemma {:induction false} PowMono(b: nat, i: nat, j: nat)
    requires 1 <= b && i <= j
    ensures Pow(b, i) <= Pow(b, j)
  {
    if i < j {
      PowMono(b, i, j - 1);
      Scale(Pow(b, j - 1), 1, b);
      assert Pow(b, j - 1) * b == b * Pow(b, j - 1);
    }
  }

  /** N <= 2^k makes N^r <= 2^(k * r). */
  lemma {:induction false} PowUnder(N: nat, k: nat, r: nat)
    requires 1 <= N <= Pow(2, k)
    ensures Pow(N, r) <= Pow(2, k * r)
  {
    if r == 0 {
      assert k * 0 == 0;
    } else {
      PowUnder(N, k, r - 1);
      assert k * r == k + k * (r - 1);
      Scale(k, 0, r - 1);
      PowAdd(2, k, k * (r - 1));
      Scale(N, Pow(N, r - 1), Pow(2, k * (r - 1)));
      Scale(Pow(2, k * (r - 1)), N, Pow(2, k));
      assert Pow(2, k * (r - 1)) * N == N * Pow(2, k * (r - 1));
      assert Pow(2, k * (r - 1)) * Pow(2, k) == Pow(2, k) * Pow(2, k * (r - 1));
    }
  }

  // ---------------------------------------------------------------- prime factors bound a quotient

  lemma {:induction false} ValOfPower(q: nat, p: nat, e: nat)
    requires IsPrime(p) && IsPrime(q) && p != q
    ensures Val(q, Pow(p, e)) == 0
  {
    if e == 0 {
      assert !Divides(q, 1);
    } else {
      ValOfPower(q, p, e - 1);
      ValProduct(q, p, Pow(p, e - 1));
      if Divides(q, p) { PrimeDivisor(p, q); }
    }
  }

  /** n is a power of the prime p times a number p does not divide, with the same other primes. */
  lemma {:induction false} Strip(p: nat, n: nat) returns (rest: nat)
    requires IsPrime(p) && 1 <= n
    ensures 1 <= rest && n == Pow(p, Val(p, n)) * rest && !Divides(p, rest)
    ensures forall q :: IsPrime(q) && q != p ==> Val(q, rest) == Val(q, n)
    decreases n
  {
    if Divides(p, n) {
      PartSmaller(p, n);
      var k := n / p;
      rest := Strip(p, k);
      Swap(p, Pow(p, Val(p, k)), rest);
      forall q | IsPrime(q) && q != p
        ensures Val(q, k) == Val(q, n)
      {
        ValProduct(q, p, k);
        if Divides(q, p) { PrimeDivisor(p, q); }
      }
    } else {
      rest := n;
    }
  }

  /** Each prime occurs in P at most e times more often than in Q, for some p^e up to N. */
  ghost predicate Excess(p: nat, P: nat, Q: nat, N: nat)
    requires 2 <= p && 1 <= P && 1 <= Q
  {
    exists e: nat :: Pow(p, e) <= N && Val(p, P) <= Val(p, Q) + e
  }

  ghost predicate SmallExcess(P: nat, Q: nat, N: nat, r: nat)
    requires 1 <= P && 1 <= Q
  {
    && (forall p :: IsPrime(p) && Divides(p, P) ==> p <= r)
    && (forall p :: IsPrime(p) && p <= r ==> Excess(p, P, Q, N))
  }

  lemma {:induction false} QuotientBound(P: nat, Q: nat, N: nat, r: nat)
    requires 1 <= P && 1 <= Q && 1 <= N && SmallExcess(P, Q, N, r)
    ensures P <= Q * Pow(N, r)
    decreases r
  {
    if r == 0 {
      if 2 <= P { var p := LeastFactor(P); }
      assert Q * Pow(N, 0) == Q;
    } else if IsPrime(r) {
      var P' := Strip(r, P);
      var Q' := Strip(r, Q);
      StrippedExcess(P, Q, N, r, P', Q');
      QuotientBound(P', Q', N, r - 1);
      assert Excess(r, P, Q, N);
      var e: nat :| Pow(r, e) <= N && Val(r, P) <= Val(r, Q) + e;
      PutBack(P, Q, N, r, e, P', Q');
    } else {
      QuotientBound(P, Q, N, r - 1);
      Scale(Pow(N, r - 1), 1, N);
      assert Pow(N, r - 1) * N == Pow(N, r);
      Scale(Q, Pow(N, r - 1), Pow(N, r));
    }
  }

  lemma StrippedExcess(P: nat, Q: nat, N: nat, r: nat, P': nat, Q': nat)
    requires 1 <= P && 1 <= Q && SmallExcess(P, Q, N, r) && IsPrime(r)
    requires 1 <= P' && P == Pow(r, Val(r, P)) * P' && !Divides(r, P')
    requires 1 <= Q' && Q == Pow(r, Val(r, Q)) * Q'
    requires forall q :: IsPrime(q) && q != r ==> Val(q, P') == Val(q, P)
    requires forall q :: IsPrime(q) && q != r ==> Val(q, Q') == Val(q, Q)
    ensures SmallExcess(P', Q', N, r - 1)
  {
    forall p | IsPrime(p) && Divides(p, P')
      ensures p <= r - 1
    {
      DividesMultiple(p, Pow(r, Val(r, P)), P');
    }
    forall p | IsPrime(p) && p <= r - 1
      ensures Excess(p, P', Q', N)
    {
      assert Excess(p, P, Q, N);
      var e: nat :| Pow(p, e) <= N && Val(p, P) <= Val(p, Q) + e;
      assert Val(p, P') <= Val(p, Q') + e;
    }
  }

  lemma DividesMultiple(p: nat, x: nat, y: nat)
    requires 0 < p && Divides(p, y)
    ensures Divides(p, x * y)
  {
    var k := y / p;
    assert y == p * k;
    Swap(x, p, k);
    DividesWitness(p, x * y, x * k);
  }

  lemma PutBack(P: nat, Q: nat, N: nat, r: nat, e: nat, P': nat, Q': nat)
    requires 2 <= r && 1 <= P && 1 <= Q && 1 <= N && 1 <= P' && 1 <= Q'
    requires P == Pow(r, Val(r, P)) * P' && Q == Pow(r, Val(r, Q)) * Q'
    requires Pow(r, e) <= N && Val(r, P) <= Val(r, Q) + e
    requires P' <= Q' * Pow(N, r - 1)
    ensures P <= Q * Pow(N, r)
  {
    var a, b := Val(r, P), Val(r, Q);
    PowMono(r, a, b + e);
    PowAdd(r, b, e);
    var B, E, n := Pow(r, b), Pow(r, e), Pow(N, r - 1);
    Chain(Pow(r, a), B * E, P', Q' * n);
    Rearrange(B, E, Q', n);
    Scale(Q * n, E, N);
    Rearrange2(Q, n, N);
  }

  lemma Chain(a: nat, a': nat, x: nat, x': nat)
    requires a <= a' && x <= x'
    ensures a * x <= a' * x'
  {
    Scale(a, x, x');
    Scale(x', a, a');
    assert x' * a == a * x' && x' * a' == a' * x';
  }

  lemma Rearrange(B: int, E: int, q: int, n: int)
    ensures (B * E) * (q * n) == ((B * q) * n) * E
  {}

  lemma Rearrange2(Q: int, n: int, N: int)
    ensures (Q * n) * N == Q * (N * n)
  {}

  // ---------------------------------------------------------------- the central quotient

  /** Legendre's sums for x and for half of it differ by an exponent of p within x. */
  lemma {:induction false} LegendreGap(p: nat, x: nat, y: nat) returns (e: nat)
    requires 2 <= p && (x == 2 * y || x == 2 * y + 1)
    ensures Legendre(p, x) <= 2 * Legendre(p, y) + e
    ensures if x == 0 then e == 0 else Pow(p, e) <= x
    decreases x
  {
    if x == 0 {
      return 0;
    }
    HalfQuotient(p, x, y);
    LegendreUnfolds(p, x);
    LegendreUnfolds(p, y);
    QuotientSmaller(p, x);
    e := LegendreGap(p, x / p, y / p);
    if x / p != 0 {
      PowWithin(p, e, x);
      e := e + 1;
    }
  }

  lemma LegendreUnfolds(p: nat, n: nat)
    requires 2 <= p
    ensures 0 <= n / p && Legendre(p, n) == n / p + Legendre(p, n / p)
  {
    if n == 0 { MultipleModulo(p, 0, 0); } else { QuotientSmaller(p, n); }
  }

  lemma PowWithin(p: nat, e: nat, x: nat)
    requires 2 <= p && 0 <= x / p && Pow(p, e) <= x / p
    ensures Pow(p, e + 1) <= x
  {
    Scale(p, Pow(p, e), x / p);
    assert x == p * (x / p) + x % p;
  }

  lemma HalfQuotient(p: nat, x: nat, y: nat)
    requires 2 <= p && (x == 2 * y || x == 2 * y + 1)
    ensures 0 <= y / p && (x / p == 2 * (y / p) || x / p == 2 * (y / p) + 1)
  {
    var a, s := y / p, y % p;
    assert y == p * a + s;
    if a < 0 { Scale(p, a, -1); }
    HalfOf(p, a, s, x);
  }

  lemma HalfOf(p: nat, a: int, s: int, x: nat)
    requires 2 <= p && 0 <= s < p && (x == 2 * (p * a + s) || x == 2 * (p * a + s) + 1)
    ensures x / p == 2 * a || x / p == 2 * a + 1
  {
    var t := x - 2 * (p * a);
    assert p * (2 * a) == 2 * (p * a) && p * (2 * a + 1) == 2 * (p * a) + p;
    if t < p { MultipleModulo(p, 2 * a, t); } else { MultipleModulo(p, 2 * a + 1, t - p); }
  }

  lemma CentralExcess(p: nat, m: nat)
    requires IsPrime(p) && 1 <= m
    ensures Excess(p, Rising(m, m), Fact(m), 2 * m)
    ensures Divides(p, Rising(m, m)) ==> p <= 2 * m
  {
    RisingIsQuotient(m, m);
    ValProduct(p, Fact(m), Rising(m, m));
    ValFactorial(p, m);
    ValFactorial(p, 2 * m);
    var e := LegendreGap(p, 2 * m, m);
    assert Val(p, Rising(m, m)) <= Val(p, Fact(m)) + e;
    if 2 * m < p { SmallQuotientZero(p, 2 * m); }
  }

  lemma SmallQuotientZero(p: nat, n: nat)
    requires 2 <= p && n < p
    ensures Legendre(p, n) == 0
  {
    if n != 0 { MultipleModulo(p, 0, n); }
  }

  /** (m + 1) * ... * 2m is at least 2^m * m!. */
  lemma {:induction false} RisingIsLarge(m: nat, j: nat)
    requires j <= m
    ensures Pow(2, j) * Fact(j) <= Rising(m, j)
  {
    if j == 0 {
      assert Pow(2, 0) * Fact(0) == 1;
    } else {
      RisingIsLarge(m, j - 1);
      var x, f, y := Pow(2, j - 1), Fact(j - 1), Rising(m, j - 1);
      Chain(2 * j, m + j, x * f, y);
      TwiceEach(x, f, j);
    }
  }

  lemma TwiceEach(x: int, f: int, j: int)
    ensures (2 * x) * (j * f) == (2 * j) * (x * f)
  {}

  /** Without a prime in (r, 2m], 2^m is at most (2m)^r. */
  lemma WithoutPrimes(m: nat, r: nat)
    requires 1 <= m && forall p :: r < p <= 2 * m ==> !IsPrime(p)
    ensures Pow(2, m) <= Pow(2 * m, r)
  {
    forall p | IsPrime(p)
      ensures Excess(p, Rising(m, m), Fact(m), 2 * m)
      ensures Divides(p, Rising(m, m)) ==> p <= r
    {
      CentralExcess(p, m);
    }
    QuotientBound(Rising(m, m), Fact(m), 2 * m, r);
    RisingIsLarge(m, m);
    CancelFactor(Fact(m), Pow(2, m), Pow(2 * m, r));
  }

  lemma CancelFactor(f: nat, x: nat, y: nat)
    requires 1 <= f && x * f <= f * y
    ensures x <= y
  {
    assert x * f == f * x;
    if y < x { Scale(f, y + 1, x); }
    assert f * (y + 1) == f * y + f;
  }

  // ---------------------------------------------------------------- the gap

  lemma PowTwo16()
    ensures Pow(2, 16) == 65536
  {
    assert Pow(2, 4) == 16;
    PowAdd(2, 4, 4);
    PowAdd(2, 8, 8);
  }

  lemma {:induction false} SquareBelowPower(k: nat)
    requires 18 <= k
    ensures 5 * (k * k) <= Pow(2, k - 2)
  {
    if k == 18 {
      PowTwo16();
    } else {
      SquareBelowPower(k - 1);
      var j := k - 1;
      assert k * k == j * j + 2 * j + 1;
      Scale(j, 18, j);
    }
  }

  lemma {:induction false} PowerAbove(n: nat) returns (k: nat)
    requires 2 <= n
    ensures 1 <= k && Pow(2, k - 1) < n <= Pow(2, k)
  {
    if n == 2 {
      k := 1;
      assert Pow(2, 1) == 2 * Pow(2, 0);
    } else {
      var j := PowerAbove(n - 1);
      if n <= Pow(2, j) {
        k := j;
      } else {
        k := j + 1;
        assert Pow(2, j + 1) == 2 * Pow(2, j);
      }
    }
  }

  lemma Root(n: nat) returns (r: nat)
    ensures r * r <= n < (r + 1) * (r + 1)
  {
    r := 0;
    while (r + 1) * (r + 1) <= n
      invariant r * r <= n
      decreases n - r
    {
      Scale(r + 1, 1, r + 1);
      r := r + 1;
    }
  }

  /** For large m there is a prime p <= 2m whose square is above 4m + 1. */
  lemma PrimeBetween(m: nat) returns (p: nat)
    requires 0x2_0000 <= m
    ensures IsPrime(p) && p <= 2 * m && 4 * m + 1 < p * p
  {
    var r := Root(4 * m + 1);
    if forall q :: r < q <= 2 * m ==> !IsPrime(q) {
      WithoutPrimes(m, r);
      TooFewFactors(m, r);
      assert false;
    }
    p :| r < p <= 2 * m && IsPrime(p);
    Scale(r + 1, r + 1, p);
    Scale(p, r + 1, p);
    assert (r + 1) * p == p * (r + 1);
  }

  lemma TooFewFactors(m: nat, r: nat)
    requires 0x2_0000 <= m && r * r <= 4 * m + 1
    ensures Pow(2 * m, r) < Pow(2, m)
  {
    var k := PowerAbove(2 * m);
    PowTwo16();
    assert 18 <= k by {
      if k <= 17 { PowMono(2, k, 17); }
      assert Pow(2, 17) == 2 * Pow(2, 16);
    }
    SquareBelowPower(k);
    assert Pow(2, k - 1) == 2 * Pow(2, k - 2);
    FewFactors(m, r, k);
    PowUnder(2 * m, k, r);
    PowMono(2, k * r + 1, m);
    assert Pow(2, k * r + 1) == 2 * Pow(2, k * r);
  }

  lemma FewFactors(m: nat, r: nat, k: nat)
    requires 1 <= m && r * r <= 4 * m + 1 && 5 * (k * k) < m
    ensures 0 <= k * r < m
  {
    Scale(k, 0, r);
    Scale(k, 0, k);
    SquareOfProduct(k, r);
    SquareBound(k * k, r * r, m);
    RootBelow(k * r, m);
  }

  lemma SquareOfProduct(k: nat, r: nat)
    ensures (k * r) * (k * r) == (k * k) * (r * r)
  {}

  lemma SquareBound(kk: nat, rr: nat, m: nat)
    requires 1 <= m && rr <= 4 * m + 1 && 5 * kk < m
    ensures kk * rr < m * m
  {
    Scale(kk, rr, 5 * m);
    assert kk * (5 * m) == m * (5 * kk);
    Scale(m, 5 * kk, m - 1);
    assert m * (m - 1) == m * m - m;
  }

  lemma RootBelow(x: nat, m: nat)
    requires x * x < m * m
    ensures x < m
  {
    if m <= x {
      Scale(m, m, x);
      Scale(x, m, x);
    }
  }
}
