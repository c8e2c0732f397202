/** Numbering of the sieve bits.  Bit b of the sieve stands for the b-th number above 4 that is coprime
    to 6. */
module SieveBits {
  import opened Divisions
  import opened Primes
  import opened Words

  // ---------------------------------------------------------------- numbering

  /** bit_to_n: (bit * 3 + 4) | 1. */
  function BitToN(bit: nat): nat { if bit % 2 == 0 then bit * 3 + 5 else bit * 3 + 4 }

  /** id_to_n: as bit_to_n, but counting from 1. */
  function IdToN(id: nat): nat { id * 3 + 1 + id % 2 }

  /** n | 1. */
  function SetLowBit(n: nat): nat { if n % 2 == 0 then n + 1 else n }

  /** n_fto_bit: the last bit whose number is at most n. */
  function NFtoBit(n: nat): nat
    requires 5 <= n
  {
    SetLowBit(n - 5) / 3
  }

  /** n_cto_bit: the first bit whose number is at least n. */
  function NCtoBit(n: nat): nat
    requires 2 <= n
  {
    SetLowBit(n) / 3 - 1
  }

  /** Two bits to every six numbers. */
  lemma BitForm(h: nat)
    ensures BitToN(2 * h) == 6 * h + 5 && BitToN(2 * h + 1) == 6 * h + 7
  {}

  /** (2 * k + e) | 1, divided by 3, for a k whose residue is known. */
  lemma ThirdOfOdd(n: nat, k: nat, q: nat)
    requires (n == 2 * k || n == 2 * k + 1) && 3 * q <= 2 * k + 1 < 3 * q + 3
    ensures SetLowBit(n) / 3 == q
  {
    assert SetLowBit(n) == 2 * k + 1 by { if n == 2 * k { MultipleModulo(2, k, 0); } else { MultipleModulo(2, k, 1); } }
    MultipleModulo(3, q, 2 * k + 1 - 3 * q);
  }

  lemma FloorForm(h: nat, r: nat)
    requires r < 6 && 5 <= 6 * h + r
    ensures NFtoBit(6 * h + r) == if r == 0 then 2 * h - 2 else if r == 5 then 2 * h else 2 * h - 1
  {
    if r == 0 {
      ThirdOfOdd(6 * h - 5, 3 * h - 3, 2 * h - 2);
    } else if r == 5 {
      ThirdOfOdd(6 * h, 3 * h, 2 * h);
    } else if r <= 2 {
      ThirdOfOdd(6 * h + r - 5, 3 * h - 2, 2 * h - 1);
    } else {
      ThirdOfOdd(6 * h + r - 5, 3 * h - 1, 2 * h - 1);
    }
  }

  lemma CeilingForm(h: nat, r: nat)
    requires r < 6 && 5 <= 6 * h + r
    ensures NCtoBit(6 * h + r) == if r <= 1 then 2 * h - 1 else 2 * h
  {
    if r <= 1 {
      ThirdOfOdd(6 * h + r, 3 * h, 2 * h);
    } else if r <= 3 {
      ThirdOfOdd(6 * h + r, 3 * h + 1, 2 * h + 1);
    } else {
      ThirdOfOdd(6 * h + r, 3 * h + 2, 2 * h + 1);
    }
  }

  lemma Halve(b: nat) returns (h: nat)
    ensures b == 2 * h || b == 2 * h + 1
  {
    h := b / 2;
  }

  /** The closed forms invert the numbering: floor and ceiling. */
  lemma BitOfNumber(n: nat, b: nat)
    requires 5 <= n
    ensures BitToN(b) <= n <==> b <= NFtoBit(n)
    ensures n <= BitToN(b) <==> NCtoBit(n) <= b
  {
    var h, r := n / 6, n % 6;
    assert n == 6 * h + r;
    FloorForm(h, r);
    CeilingForm(h, r);
    var g := Halve(b);
    BitForm(g);
    FloorCompares(h, r, g);
    CeilingCompares(h, r, g);
  }

  lemma FloorCompares(h: int, r: int, g: int)
    requires 0 <= r < 6
    ensures 6 * g + 5 <= 6 * h + r <==> 2 * g <= if r == 0 then 2 * h - 2 else if r == 5 then 2 * h else 2 * h - 1
    ensures 6 * g + 7 <= 6 * h + r <==> 2 * g + 1 <= if r == 0 then 2 * h - 2 else if r == 5 then 2 * h else 2 * h - 1
  {}

  lemma CeilingCompares(h: int, r: int, g: int)
    requires 0 <= r < 6
    ensures 6 * h + r <= 6 * g + 5 <==> (if r <= 1 then 2 * h - 1 else 2 * h) <= 2 * g
    ensures 6 * h + r <= 6 * g + 7 <==> (if r <= 1 then 2 * h - 1 else 2 * h) <= 2 * g + 1
  {}

  lemma IdOfBit(b: nat)
    ensures IdToN(b + 1) == BitToN(b)
  {}

  predicate CoprimeTo6(n: int) { n % 2 != 0 && n % 3 != 0 }

  lemma CoprimeResidue(h: nat, r: nat)
    requires r < 6
    ensures CoprimeTo6(6 * h + r) <==> r == 1 || r == 5
  {
    assert 6 * h + r == 2 * (3 * h) + r == 3 * (2 * h) + r;
    MultipleModulo(2, 3 * h + r / 2, r % 2);
    MultipleModulo(3, 2 * h + r / 3, r % 3);
  }

  /** The bits stand for exactly the numbers above 4 coprime to 6, in increasing order. */
  lemma BitsAreCoprime(b: nat)
    ensures CoprimeTo6(BitToN(b)) && 5 <= BitToN(b) < BitToN(b + 1)
  {
    var h := Halve(b);
    BitForm(h); BitForm(h + 1);
    CoprimeResidue(h, 5);
    CoprimeResidue(h + 1, 1);
  }

  lemma BetweenBits(b: nat, n: nat)
    requires BitToN(b) < n < BitToN(b + 1)
    ensures !CoprimeTo6(n)
  {
    var h := Halve(b);
    BitForm(h); BitForm(h + 1);
    if n == 6 * h + 6 { CoprimeResidue(h + 1, 0); }
    else { CoprimeResidue(h + 1, n - 6 * h - 6); }
  }

  lemma BitIsDefined(n: nat)
    requires 5 <= n && CoprimeTo6(n)
    ensures BitToN(NFtoBit(n)) == n
  {
    var h, r := n / 6, n % 6;
    assert n == 6 * h + r;
    CoprimeResidue(h, r);
    FloorForm(h, r);
    BitForm(h);
    if r == 1 { BitForm(h - 1); }
  }

  lemma BitsIncrease(a: nat, b: nat)
    ensures a < b <==> BitToN(a) < BitToN(b)
  {}

  /** An even number of bits further on is three times as far in the numbers. */
  lemma EvenShift(b: nat, k: nat)
    ensures BitToN(b + 2 * k) == BitToN(b) + 6 * k
  {}

  lemma PrimeIsCoprime(p: nat)
    requires IsPrime(p) && 4 < p
    ensures CoprimeTo6(p)
  {
    assert !Divides(2, p) && !Divides(3, p);
  }

  // ---------------------------------------------------------------- bit arrays

  /** Bit k of an array of limbs. */
  predicate Bit(a: seq<Limb>, k: nat)
    requires k < LIMB_BITS * |a|
  {
    a[k / LIMB_BITS][k % LIMB_BITS]
  }

  /** The first m bits are set exactly for the composite numbers. */
  ghost predicate Sieved(a: seq<Limb>, m: nat) {
    m <= LIMB_BITS * |a| && forall k :: 0 <= k < m ==> (Bit(a, k) <==> !IsPrime(BitToN(k)))
  }
}
