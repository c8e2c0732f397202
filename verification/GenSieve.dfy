/** gen-sieve.c and the isprime of bootstrap.c: the generated tables primesieve.c starts from. */
module GenSieve {
  import opened Divisions
  import opened Primes
  import opened SieveBits
  import opened Words

  /** Below 49 only the factors 2, 3 and 5 matter. */
  lemma SmallPrimes(t: nat)
    requires 2 <= t < 49
    ensures IsPrime(t) <==> t == 2 || t == 3 || t == 5 || (t % 2 != 0 && t % 3 != 0 && t % 5 != 0)
  {
    ProperDivisor(2, 4);
    ProperDivisor(2, 6);
    if IsPrime(t) {
      assert 2 < t ==> !Divides(2, t);
      assert 3 < t ==> !Divides(3, t);
      assert 5 < t ==> !Divides(5, t);
    } else {
      var q := LeastFactor(t);
      if 7 <= q { Scale(q, 7, q); }
    }
  }

  /** The bit mask of the primes below 32. */
  const SMALL_PRIME_MASK: bv32 := 0xa08a28ac

  lemma MaskIsRight(t: nat)
    requires t < 32
    ensures (SMALL_PRIME_MASK >> t) & 1 == 1 <==> IsPrime(t)
  {
    if 2 <= t { SmallPrimes(t); }
    if t < 8 { MaskLow(t); } else if t < 16 { MaskMiddle(t); } else if t < 24 { MaskUpper(t); } else { MaskHigh(t); }
  }

  predicate InMask(t: nat) {
    t == 2 || t == 3 || t == 5 || (2 < t && t % 2 != 0 && t % 3 != 0 && t % 5 != 0)
  }

  lemma MaskLow(t: nat)
    requires t < 8
    ensures (SMALL_PRIME_MASK >> t) & 1 == 1 <==> InMask(t)
  {
    if t == 0 {} else if t == 1 {} else if t == 2 {} else if t == 3 {}
    else if t == 4 {} else if t == 5 {} else if t == 6 {} else {}
  }

  lemma MaskMiddle(t: nat)
    requires 8 <= t < 16
    ensures (SMALL_PRIME_MASK >> t) & 1 == 1 <==> InMask(t)
  {
    if t == 8 {} else if t == 9 {} else if t == 10 {} else if t == 11 {}
    else if t == 12 {} else if t == 13 {} else if t == 14 {} else {}
  }

  lemma MaskUpper(t: nat)
    requires 16 <= t < 24
    ensures (SMALL_PRIME_MASK >> t) & 1 == 1 <==> InMask(t)
  {
    if t == 16 {} else if t == 17 {} else if t == 18 {} else if t == 19 {}
    else if t == 20 {} else if t == 21 {} else if t == 22 {} else {}
  }

  lemma MaskHigh(t: nat)
    requires 24 <= t < 32
    ensures (SMALL_PRIME_MASK >> t) & 1 == 1 <==> InMask(t)
  {
    if t == 24 {} else if t == 25 {} else if t == 26 {} else if t == 27 {}
    else if t == 28 {} else if t == 29 {} else if t == 30 {} else {}
  }

  /** d is the next trial divisor: 5 modulo 6, with no divisor of t below it. */
  ghost predicate TriedBelow(t: nat, d: nat) {
    forall m :: 2 <= m < d ==> !Divides(m, t)
  }

  lemma RootReached(t: nat, d: nat)
    requires 2 <= t && 0 < d && TriedBelow(t, d) && t / d < d
    ensures IsPrime(t)
  {
    assert t == d * (t / d) + t % d;
    Scale(d, t / d, d - 1);
    assert d * (d - 1) == d * d - d;
    if !IsPrime(t) {
      var q := LeastFactor(t);
      assert d <= q;
      assert q * d == d * q;
      Scale(d, d, q); Scale(q, d, q);
    }
  }

  /** A multiple of 2 or 3 cannot divide a number that neither divides. */
  lemma SkippedDivisor(t: nat, m: nat)
    requires 0 < m && t % 2 != 0 && t % 3 != 0 && (m % 2 == 0 || m % 3 == 0)
    ensures !Divides(m, t)
  {
    if Divides(m, t) {
      if m % 2 == 0 { DividesTransitive(2, m, t); } else { DividesTransitive(3, m, t); }
    }
  }

  /** bootstrap.c isprime: a table below 32, then trial division by numbers coprime to 6. */
  method IsPrimeTrial(t: nat) returns (prime: bool)
    ensures prime <==> IsPrime(t)
  {
    if t < 32 {
      MaskIsRight(t);
      return (SMALL_PRIME_MASK >> t) & 1 == 1;
    }
    if t % 2 == 0 { ProperDivisor(2, t); return false; }
    if t % 3 == 0 { ProperDivisor(3, t); return false; }
    if t % 5 == 0 { ProperDivisor(5, t); return false; }
    if t % 7 == 0 { ProperDivisor(7, t); return false; }
    var d: nat := 11;
    TriedBelowEleven(t);
    while true
      invariant 11 <= d && d % 6 == 5 && TriedBelow(t, d)
      decreases t - d
    {
      var q := t / d;
      var r := t - q * d;
      if q < d { RootReached(t, d); return true; }
      DivisorFits(t, d, q, r);
      if r == 0 { break; }
      TryNext(t, d, 2);
      d := d + 2;
      q := t / d;
      r := t - q * d;
      if q < d { RootReached(t, d); return true; }
      DivisorFits(t, d, q, r);
      if r == 0 { break; }
      TryNext(t, d, 4);
      d := d + 4;
    }
    return false;
  }

  lemma TriedBelowEleven(t: nat)
    requires t % 2 != 0 && t % 3 != 0 && t % 5 != 0 && t % 7 != 0
    ensures TriedBelow(t, 11)
  {
    forall m | 2 <= m < 11
      ensures !Divides(m, t)
    {
      if m % 2 == 0 || m % 3 == 0 { SkippedDivisor(t, m); }
    }
  }

  lemma DivisorFits(t: nat, d: nat, q: nat, r: int)
    requires 11 <= d <= q && q == t / d && r == t - q * d
    ensures d < t && r == t % d
    ensures r == 0 ==> !IsPrime(t)
  {
    assert t == d * q + t % d && d * q == q * d;
    Scale(d, 2, q);
    if r == 0 { ProperDivisor(d, t); }
  }

  lemma TryNext(t: nat, d: nat, step: nat)
    requires 11 <= d && TriedBelow(t, d) && t % d != 0 && t % 2 != 0 && t % 3 != 0
    requires (step == 2 && d % 6 == 5) || (step == 4 && d % 6 == 1)
    ensures TriedBelow(t, d + step) && (d + step) % 6 == 6 - d % 6
  {
    forall m | 2 <= m < d + step
      ensures !Divides(m, t)
    {
      if d < m {
        BetweenTries(d, step, m);
        SkippedDivisor(t, m);
      }
    }
  }

  lemma BetweenTries(d: nat, step: nat, m: nat)
    requires (step == 2 && d % 6 == 5) || (step == 4 && d % 6 == 1)
    requires d < m < d + step
    ensures m % 2 == 0 || m % 3 == 0
  {
    var h := d / 6;
    assert m == 6 * h + d % 6 + (m - d);
    if step == 2 { CoprimeResidue(h + 1, 0); } else { CoprimeResidue(h, 1 + (m - d)); }
  }

  /** gen-sieve.c generate: the sieve bits below limit, one limb at a time. */
  method Generate(limit: nat) returns (table: seq<Limb>)
    requires limit % LIMB_BITS == 0
    ensures LIMB_BITS * |table| == limit && Sieved(table, limit)
  {
    table := [];
    var limb: seq<bool> := [];
    for i := 0 to limit
      invariant |limb| < LIMB_BITS && i == LIMB_BITS * |table| + |limb|
      invariant Sieved(table, LIMB_BITS * |table|)
      invariant forall t :: 0 <= t < |limb| ==> (limb[t] <==> !IsPrime(BitToN(LIMB_BITS * |table| + t)))
    {
      var prime := IsPrimeTrial(BitToN(i));
      limb := limb + [!prime];
      if |limb| == LIMB_BITS {
        LimbAppended(table, limb);
        table, limb := table + [limb], [];
      }
    }
  }

  lemma LimbAppended(table: seq<Limb>, limb: Limb)
    requires Sieved(table, LIMB_BITS * |table|)
    requires forall t :: 0 <= t < LIMB_BITS ==> (limb[t] <==> !IsPrime(BitToN(LIMB_BITS * |table| + t)))
    ensures Sieved(table + [limb], LIMB_BITS * (|table| + 1))
  {
    forall k | 0 <= k < LIMB_BITS * (|table| + 1)
      ensures Bit(table + [limb], k) <==> !IsPrime(BitToN(k))
    {
      if k < LIMB_BITS * |table| {
        assert Bit(table, k) == Bit(table + [limb], k);
      } else {
        var t := k - LIMB_BITS * |table|;
        assert k / LIMB_BITS == |table| && k % LIMB_BITS == t;
      }
    }
  }

  /** Bit k's number is divisible by a or b. */
  predicate Struck(a: nat, b: nat, k: nat)
    requires 0 < a && 0 < b
  {
    BitToN(k) % a == 0 || BitToN(k) % b == 0
  }

  /** gen-sieve.c setmask: one period of the pattern of multiples of a and b. */
  method SetMask(a: nat, b: nat) returns (mask: seq<bool>)
    requires 0 < a && 0 < b
    ensures |mask| == 2 * a * b
    ensures forall i :: 0 <= i < |mask| ==> (mask[i] <==> Struck(a, b, i))
  {
    mask := [];
    for i := 0 to 2 * a * b
      invariant |mask| == i
      invariant forall j :: 0 <= j < i ==> (mask[j] <==> Struck(a, b, j))
    {
      mask := mask + [BitToN(i) % a == 0 || BitToN(i) % b == 0];
    }
  }

  /** Limb j of a mask, as mpz_tdiv_r_2exp and mpz_tdiv_q_2exp cut it. */
  function MaskLimb(mask: seq<bool>, j: nat): Limb {
    seq(LIMB_BITS, t requires 0 <= t < LIMB_BITS => LIMB_BITS * j + t < |mask| && mask[LIMB_BITS * j + t])
  }

  /** The pattern repeats after 2 * a * b bits. */
  lemma PatternPeriodic(a: nat, b: nat, k: nat)
    requires 0 < a && 0 < b
    ensures Struck(a, b, k + 2 * a * b) <==> Struck(a, b, k)
  {
    EvenShift(k, a * b);
    PeriodFactors(a, b);
    DividesWitness(a, 6 * (a * b), 6 * b);
    DividesWitness(b, 6 * (a * b), 6 * a);
    DividesSum(a, 6 * (a * b), BitToN(k));
    DividesSum(b, 6 * (a * b), BitToN(k));
  }

  lemma PeriodFactors(a: int, b: int)
    ensures 2 * a * b == 2 * (a * b) && 6 * (a * b) == a * (6 * b) && 6 * (a * b) == b * (6 * a)
  {}
}
