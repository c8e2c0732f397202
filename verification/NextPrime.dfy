/** nextprime.c: a generator that sieves the odd numbers in blocks of SIEVESIZE slots and hands
    out the primes one call at a time. */
module NextPrime {
  import opened Divisions
  import opened Primes

  const SIEVESIZE: nat := 512

  /** unsigned long is 64 bits wide. */
  const WORD: nat := 0x1_0000_0000_0000_0000

  /** Largest prime for which (sqrt_s0 + 1)^2, kept one block ahead, still fits a word. */
  const LIMIT: nat := 0xFFFF_FFFF * 0xFFFF_FFFF - 2 * SIEVESIZE

  newtype byte = x: int | 0 <= x < 256

  function Word(x: int): (w: nat)
    ensures w < WORD
    ensures 0 <= x < WORD ==> w == x
    ensures -(WORD as int) <= x < 0 ==> w == x + WORD
  {
    x % WORD
  }

  // ---------------------------------------------------------------- the wheel

  /** addtab: the gaps between consecutive numbers coprime to 210, starting from 11. */
  function Gap(ai: nat): nat
    requires ai < 48
  {
    match ai
    case 0 => 2 case 1 => 4 case 2 => 2 case 3 => 4 case 4 => 6 case 5 => 2 case 6 => 6 case 7 => 4
    case 8 => 2 case 9 => 4 case 10 => 6 case 11 => 6 case 12 => 2 case 13 => 6 case 14 => 4 case 15 => 2
    case 16 => 6 case 17 => 4 case 18 => 6 case 19 => 8 case 20 => 4 case 21 => 2 case 22 => 4 case 23 => 2
    case 24 => 4 case 25 => 8 case 26 => 6 case 27 => 4 case 28 => 6 case 29 => 2 case 30 => 4 case 31 => 6
    case 32 => 2 case 33 => 6 case 34 => 6 case 35 => 4 case 36 => 2 case 37 => 4 case 38 => 6 case 39 => 2
    case 40 => 6 case 41 => 4 case 42 => 2 case 43 => 4 case 44 => 2 case 45 => 10 case 46 => 2 case _ => 10
  }

  /** The number modulo 210 at which gap ai is added. */
  function Spoke(ai: nat): nat
    requires ai < 48
  {
    match ai
    case 0 => 11 case 1 => 13 case 2 => 17 case 3 => 19 case 4 => 23 case 5 => 29 case 6 => 31 case 7 => 37
    case 8 => 41 case 9 => 43 case 10 => 47 case 11 => 53 case 12 => 59 case 13 => 61 case 14 => 67 case 15 => 71
    case 16 => 73 case 17 => 79 case 18 => 83 case 19 => 89 case 20 => 97 case 21 => 101 case 22 => 103 case 23 => 107
    case 24 => 109 case 25 => 113 case 26 => 121 case 27 => 127 case 28 => 131 case 29 => 137 case 30 => 139 case 31 => 143
    case 32 => 149 case 33 => 151 case 34 => 157 case 35 => 163 case 36 => 167 case 37 => 169 case 38 => 173 case 39 => 179
    case 40 => 181 case 41 => 187 case 42 => 191 case 43 => 193 case 44 => 197 case 45 => 199 case 46 => 209 case _ => 1
  }

  predicate HasSmallFactor(c: int) { c % 2 == 0 || c % 3 == 0 || c % 5 == 0 || c % 7 == 0 }

  /** The odd numbers strictly between s and s + g are multiples of 3, 5 or 7. */
  predicate SkipsMultiples(s: nat, g: nat) {
    && s % 2 == 1
    && (g == 2 || g == 4 || g == 6 || g == 8 || g == 10)
    && (2 < g ==> HasSmallFactor(s + 2)) && (4 < g ==> HasSmallFactor(s + 4))
    && (6 < g ==> HasSmallFactor(s + 6)) && (8 < g ==> HasSmallFactor(s + 8))
  }

  lemma SkippedOffset(s: nat, g: nat, i: nat)
    requires SkipsMultiples(s, g) && 0 < i < g
    ensures HasSmallFactor(s + i)
  {
    if i % 2 == 1 {
      assert (s + i) % 2 == 0;
    } else {
      assert i == 2 || i == 4 || i == 6 || i == 8;
    }
  }

  /** Gap ai leads to the next spoke over multiples of 3, 5 and 7 only. */
  predicate GapIsRight(ai: nat)
    requires ai < 48
  {
    var s, g := Spoke(ai), Gap(ai);
    && SkipsMultiples(s, g)
    && s < 210
    && s + g == (if ai == 47 then 11 else if ai == 46 then 210 + 1 else Spoke(ai + 1))
  }

  lemma GapsAreRight(ai: nat)
    requires ai < 48
    ensures GapIsRight(ai)
  {
    if ai < 8 { Gaps0(ai); } else if ai < 16 { Gaps8(ai); } else if ai < 24 { Gaps16(ai); }
    else if ai < 32 { Gaps24(ai); } else if ai < 40 { Gaps32(ai); } else { Gaps40(ai); }
  }

  lemma Gaps0(ai: nat)
    requires 0 <= ai < 8
    ensures GapIsRight(ai)
  {}

  lemma Gaps8(ai: nat)
    requires 8 <= ai < 16
    ensures GapIsRight(ai)
  {}

  lemma Gaps16(ai: nat)
    requires 16 <= ai < 24
    ensures GapIsRight(ai)
  {}

  lemma Gaps24(ai: nat)
    requires 24 <= ai < 32
    ensures GapIsRight(ai)
  {}

  lemma Gaps32(ai: nat)
    requires 32 <= ai < 40
    ensures GapIsRight(ai)
  {}

  lemma Gaps40(ai: nat)
    requires 40 <= ai < 48
    ensures GapIsRight(ai)
  {}

  lemma GapFacts(ai: nat, next: nat)
    requires ai < 48 && next == (if ai == 47 then 0 else ai + 1)
    ensures SkipsMultiples(Spoke(ai), Gap(ai)) && Spoke(next) < 210
    ensures Spoke(ai) + Gap(ai) == Spoke(next) || Spoke(ai) + Gap(ai) == 210 + Spoke(next)
  {
    GapsAreRight(ai);
    GapsAreRight(next);
    assert Spoke(0) == 11 && Spoke(47) == 1;
  }

  lemma SameResidue(m: int, q: int, r: int)
    requires m == 2 || m == 3 || m == 5 || m == 7
    ensures (210 * q + r) % m == r % m
  {
    var t := if m == 2 then 105 else if m == 3 then 70 else if m == 5 then 42 else 30;
    MultipleModulo(m, t * q + r / m, r % m);
  }

  lemma WheelStep(p: nat, ai: nat)
    requires ai < 48 && p % 210 == Spoke(ai)
    ensures (p + Gap(ai)) % 210 == Spoke((ai + 1) % 48) && p % 2 == 1 && 0 < Gap(ai)
    ensures forall c :: p < c < p + Gap(ai) ==> HasSmallFactor(c)
  {
    GapFacts(ai, (ai + 1) % 48);
    StepFrom(p, Spoke(ai), Gap(ai), Spoke((ai + 1) % 48));
  }

  lemma StepFrom(p: nat, s: nat, g: nat, t: nat)
    requires p % 210 == s && SkipsMultiples(s, g) && t < 210 && (s + g == t || s + g == 210 + t)
    ensures (p + g) % 210 == t && p % 2 == 1 && 0 < g
    ensures forall c :: p < c < p + g ==> HasSmallFactor(c)
  {
    var q := p / 210;
    assert p == 210 * q + s;
    MultipleModulo(210, if s + g == t then q else q + 1, t);
    SameResidue(2, q, s);
    forall c | p < c < p + g
      ensures HasSmallFactor(c)
    {
      var r := s + (c - p);
      SkippedOffset(s, g, c - p);
      SameResidue(2, q, r); SameResidue(3, q, r); SameResidue(5, q, r); SameResidue(7, q, r);
    }
  }

  /** A number above 7 without a small factor is where a prime can be. */
  lemma SmallFactorNotPrime(c: nat)
    requires 7 < c && HasSmallFactor(c)
    ensures !IsPrime(c)
  {
    var m := if c % 2 == 0 then 2 else if c % 3 == 0 then 3 else if c % 5 == 0 then 5 else 7;
    ProperDivisor(m, c);
  }

  // ---------------------------------------------------------------- the generator

  /** n is struck out when sieving with p: a multiple of p above p itself. */
  predicate Struck(p: nat, n: nat)
    requires 0 < p
  {
    Divides(p, n) && p < n
  }

  /** gmp_primesieve_t. */
  class PrimeSieve {
    var d: nat
    var s0: nat
    var sqrtS0: nat
    const s: array<byte>

    /** No block has been sieved yet: before the first call, or between the first and the second,
        where s0 holds 3 - 2 * SIEVESIZE modulo the word. */
    ghost predicate BeforeBlocks()
      reads this
    {
      && d == SIEVESIZE && sqrtS0 == 0
      && (s0 == 0 || s0 == WORD - (2 * SIEVESIZE - 3))
    }

    /** s0 is the first number of a sieved block: s[j] is 0 exactly when s0 + 2 * j is prime. */
    ghost predicate InBlock()
      reads this, s
    {
      && s.Length == SIEVESIZE + 1
      && d <= SIEVESIZE
      && 3 <= s0 && s0 % 2 == 1 && s0 + 4 * SIEVESIZE < WORD
      && sqrtS0 * sqrtS0 <= s0 + 2 * SIEVESIZE - 1
      && forall j :: 0 <= j < SIEVESIZE ==> (s[j] == 0 <==> IsPrime(s0 + 2 * j))
    }

    ghost predicate Valid()
      reads this, s
    {
      && s.Length == SIEVESIZE + 1 && s[SIEVESIZE] == 0
      && (BeforeBlocks() || InBlock())
    }

    /** Every prime below this bound has been returned, and none from it on. */
    ghost function Bound(): nat
      reads this
    {
      if s0 == 0 then 2 else if BeforeBlocks() then 3 else s0 + 2 * d
    }

    /** A prime is left to return whose block does not overflow the word arithmetic. */
    ghost predicate Room()
      reads this
    {
      exists q :: Bound() <= q <= LIMIT && IsPrime(q)
    }

    /** gmp_init_primesieve. */
    constructor ()
      ensures Valid() && fresh(s) && Bound() == 2
    {
      s := new byte[SIEVESIZE + 1](_ => 0);
      s0, sqrtS0, d := 0, 0, SIEVESIZE;
    }

    /** gmp_nextprime: the least prime not returned before. */
    method Next() returns (p: nat)
      requires Valid() && Room()
      modifies this, s
      ensures Valid()
      ensures IsPrime(p) && old(Bound()) <= p < Bound()
      ensures forall q :: old(Bound()) <= q < Bound() && IsPrime(q) ==> q == p
      decreases WORD - Bound(), d
    {
      // the sentinel guarantees a slot that is 0
      var sp := d;
      while s[sp] != 0
        invariant d <= sp <= SIEVESIZE
        invariant forall j :: d <= j < sp ==> s[j] != 0
        decreases SIEVESIZE - sp
      {
        sp := sp + 1;
      }
      if sp != SIEVESIZE {
        p := s0 + 2 * sp;
        NoPrimes(s0, d, sp, s[..]);
        d := sp + 1;
        return;
      }
      // no block exists yet: 2 is due, and the next block must begin at 3
      if s0 < 3 {
        TwoIsPrime();
        s0 := Word(3 - 2 * SIEVESIZE);
        return 2;
      }
      // every prime of this block has been returned, so the least one left lies in a later block
      ghost var q :| Bound() <= q <= LIMIT && IsPrime(q);
      if InBlock() {
        NoPrimes(s0, d, sp, s[..]);
      }
      Resieve(q);
      p := Next();
    }

    /** The part of gmp_nextprime that moves to the next block and sieves it. */
    method Resieve(ghost q: nat)
      requires Valid() && s0 != 0 && q <= LIMIT
      requires if InBlock() then s0 + 2 * SIEVESIZE <= q else 3 <= q
      modifies this, s
      ensures Valid() && InBlock() && d == 0
      ensures s0 == if old(BeforeBlocks()) then 3 else old(s0) + 2 * SIEVESIZE
    {
      AdvanceBlock(q);
      UpdateRoot();
      MarkSmall();
      MarkWheel();
      d := 0;
    }

    /** memset the table and move s0 to the next block. */
    method AdvanceBlock(ghost q: nat)
      requires Valid() && s0 != 0 && q <= LIMIT
      requires if InBlock() then s0 + 2 * SIEVESIZE <= q else 3 <= q
      modifies `s0, s
      ensures s0 == if old(BeforeBlocks()) then 3 else old(s0) + 2 * SIEVESIZE
      ensures 3 <= s0 <= q && s0 % 2 == 1 && sqrtS0 * sqrtS0 <= s0 + 2 * SIEVESIZE - 1
      ensures s[SIEVESIZE] == 0 && forall j :: 0 <= j < SIEVESIZE ==> s[j] == 0
    {
      forall j | 0 <= j < SIEVESIZE { s[j] := 0; }
      s0 := Word(s0 + 2 * SIEVESIZE);
    }

    /** The passes with 3, 5 and 7. */
    method MarkSmall()
      requires s.Length == SIEVESIZE + 1 && s[SIEVESIZE] == 0
      requires forall j :: 0 <= j < SIEVESIZE ==> s[j] == 0
      requires 3 <= s0 <= LIMIT && s0 % 2 == 1
      modifies s
      ensures s[SIEVESIZE] == 0
      ensures Sound(s0, s[..]) && SievedBelow(s0, s[..], 11)
    {
      Mark(3);
      Mark(5);
      Mark(7);
      SievedBelowEleven(s0, s[..]);
    }

    /** The loop that keeps sqrt_s0 the root of the block's last number. */
    method UpdateRoot()
      requires s0 <= LIMIT && sqrtS0 * sqrtS0 <= s0 + 2 * SIEVESIZE - 1
      modifies `sqrtS0
      ensures sqrtS0 * sqrtS0 <= s0 + 2 * SIEVESIZE - 1 < (sqrtS0 + 1) * (sqrtS0 + 1)
      ensures sqrtS0 < 0xFFFF_FFFF
    {
      NextRootFits(s0, sqrtS0);
      RootFits(s0, sqrtS0);
      while Word((sqrtS0 + 1) * (sqrtS0 + 1)) <= s0 + 2 * SIEVESIZE - 1
        invariant sqrtS0 * sqrtS0 <= s0 + 2 * SIEVESIZE - 1
        invariant sqrtS0 + 1 <= 0xFFFF_FFFF
        invariant Word((sqrtS0 + 1) * (sqrtS0 + 1)) == (sqrtS0 + 1) * (sqrtS0 + 1)
        decreases 0xFFFF_FFFF - sqrtS0
      {
        sqrtS0 := sqrtS0 + 1;
        NextRootFits(s0, sqrtS0);
        RootFits(s0, sqrtS0);
      }
    }

    /** The pass with every wheel number from 11 up to the root. */
    method MarkWheel()
      requires s.Length == SIEVESIZE + 1 && s[SIEVESIZE] == 0
      requires 3 <= s0 <= LIMIT && s0 % 2 == 1 && sqrtS0 < 0xFFFF_FFFF
      requires s0 + 2 * SIEVESIZE - 1 < (sqrtS0 + 1) * (sqrtS0 + 1)
      requires Sound(s0, s[..]) && SievedBelow(s0, s[..], 11)
      modifies s
      ensures s[SIEVESIZE] == 0
      ensures forall j :: 0 <= j < SIEVESIZE ==> (s[j] == 0 <==> IsPrime(s0 + 2 * j))
    {
      var p: nat, ai: nat := 11, 0;
      while p <= sqrtS0
        invariant 11 <= p && ai < 48 && p % 210 == Spoke(ai)
        invariant s[SIEVESIZE] == 0
        invariant Sound(s0, s[..]) && SievedBelow(s0, s[..], p)
      {
        ghost var before := s[..];
        WheelStep(p, ai);
        Mark(p);
        SieveAdvances(s0, before, s[..], p, p + Gap(ai));
        p := p + Gap(ai);
        ai := (ai + 1) % 48;
      }
      BlockIsSieved(s0, s[..], p, sqrtS0);
    }

    /** One sieving pass: strike out the multiples of p above p. */
    method Mark(p: nat)
      requires s.Length == SIEVESIZE + 1
      requires 3 <= p <= 0xFFFF_FFFF && p % 2 == 1 && 3 <= s0 <= LIMIT && s0 % 2 == 1
      modifies s
      ensures forall j :: 0 <= j < SIEVESIZE ==> s[j] == if Struck(p, s0 + 2 * j) then 1 else old(s[j])
      ensures s[SIEVESIZE] == old(s[SIEVESIZE])
    {
      var sp := FirstSlot(s0, p);
      while sp < SIEVESIZE
        invariant s0 + 2 * sp > p && Divides(p, s0 + 2 * sp)
        invariant forall j :: 0 <= j < SIEVESIZE && j < sp ==> s[j] == if Struck(p, s0 + 2 * j) then 1 else old(s[j])
        invariant forall j :: sp <= j <= SIEVESIZE ==> s[j] == old(s[j])
        invariant s[SIEVESIZE] == old(s[SIEVESIZE])
        decreases SIEVESIZE - sp
      {
        s[sp] := 1;
        NextSlot(s0, p, sp);
        sp := sp + p;
      }
    }
  }

  /** Calling the generator until it returns the prime q lists exactly the primes up to q, in
      increasing order, none skipped and none repeated. */
  method PrimesThrough(q: nat) returns (ps: seq<nat>)
    requires IsPrime(q) && q <= LIMIT
    ensures forall i, j :: 0 <= i < j < |ps| ==> ps[i] < ps[j]
    ensures forall x: nat :: x in ps <==> IsPrime(x) && x <= q
  {
    var g := new PrimeSieve();
    var p := 0;
    ps := [];
    while p != q
      invariant g.Valid() && fresh(g) && fresh(g.s)
      invariant p <= q && p < g.Bound()
      invariant forall i :: 0 <= i < |ps| ==> ps[i] <= p
      invariant forall i, j :: 0 <= i < j < |ps| ==> ps[i] < ps[j]
      invariant forall x: nat :: x in ps <==> IsPrime(x) && x < g.Bound()
      invariant p != 0 ==> p in ps
      decreases q - p
    {
      assert q !in ps;
      ghost var before := g.Bound();
      p := g.Next();
      ps := ps + [p];
      assert forall x: nat :: IsPrime(x) && x < g.Bound() <==> (IsPrime(x) && x < before) || x == p;
    }
  }

  lemma TwoIsPrime()
    ensures IsPrime(2) && IsPrime(3)
  {}

  lemma EvenNotPrime(n: int)
    requires 2 < n && n % 2 == 0
    ensures !IsPrime(n)
  {
    ProperDivisor(2, n);
  }

  /** Slots d .. sp - 1 of a sieved block are struck, so no prime lies in their range. */
  lemma NoPrimes(s0: nat, d: nat, sp: nat, s: seq<byte>)
    requires 3 <= s0 && s0 % 2 == 1 && d <= sp <= SIEVESIZE <= |s|
    requires forall j :: 0 <= j < SIEVESIZE ==> (s[j] == 0 <==> IsPrime(s0 + 2 * j))
    requires forall j :: d <= j < sp ==> s[j] != 0
    ensures forall q :: s0 + 2 * d <= q < s0 + 2 * sp ==> !IsPrime(q)
    ensures sp < SIEVESIZE ==> !IsPrime(s0 + 2 * sp + 1)
  {
    forall q | s0 + 2 * d <= q < s0 + 2 * sp
      ensures !IsPrime(q)
    {
      var j := SlotOf(s0, q);
      if q == s0 + 2 * j { assert s[j] != 0; } else { EvenNotPrime(q); }
    }
    EvenNotPrime(s0 + 2 * sp + 1);
  }

  /** The slot of an odd number from s0 on; an even number lies just after a slot's. */
  lemma SlotOf(s0: nat, q: nat) returns (j: nat)
    requires s0 % 2 == 1 && s0 <= q
    ensures q == s0 + 2 * j || (q == s0 + 2 * j + 1 && q % 2 == 0)
  {
    j := (q - s0) / 2;
  }

  // ---------------------------------------------------------------- sieving one block

  lemma RootFits(s0: nat, r: nat)
    requires r + 1 <= 0xFFFF_FFFF
    ensures Word((r + 1) * (r + 1)) == (r + 1) * (r + 1)
  {
    Scale(r + 1, r + 1, 0xFFFF_FFFF);
  }

  lemma NextRootFits(s0: nat, r: nat)
    requires s0 <= LIMIT && r * r <= s0 + 2 * SIEVESIZE - 1
    ensures r + 1 <= 0xFFFF_FFFF
  {
    assert r * 0xFFFF_FFFF == 0xFFFF_FFFF * r;
    if 0xFFFF_FFFF <= r {
      Scale(r, 0xFFFF_FFFF, r);
      Scale(0xFFFF_FFFF, 0xFFFF_FFFF, r);
    }
  }

  /** The first slot to strike: the closed form for the first multiple of p, moved on by p when
      that is p itself. */
  method FirstSlot(s0: nat, p: nat) returns (pi: nat)
    requires 3 <= p && p % 2 == 1 && s0 % 2 == 1
    ensures Struck(p, s0 + 2 * pi)
    ensures forall j :: 0 <= j < pi ==> !Struck(p, s0 + 2 * j)
  {
    pi := (s0 + p) / 2 % p;
    if pi > 0 {
      pi := p - pi;
    }
    FirstMultiple(s0, p, pi);
    if s0 + 2 * pi <= p {
      NextSlot(s0, p, pi);
      pi := pi + p;
    }
    NoneBefore(s0, p, pi);
  }

  /** The closed form picks a slot below p that holds a multiple of p. */
  lemma FirstMultiple(s0: nat, p: nat, pi: nat)
    requires 3 <= p && p % 2 == 1 && s0 % 2 == 1
    requires var r := (s0 + p) / 2 % p; pi == if r > 0 then p - r else r
    ensures pi < p && Divides(p, s0 + 2 * pi)
  {
    var h := (s0 + p) / 2;
    var r, k := h % p, h / p;
    assert h == p * k + r;
    var c := if r > 0 then k + 1 else k;
    assert h + pi == p * c by { assert p * (k + 1) == p * k + p; }
    assert s0 + 2 * pi == p * (2 * c - 1) by {
      assert s0 + p == 2 * h;
      assert p * (2 * c - 1) == 2 * (p * c) - p;
    }
    DividesWitness(p, s0 + 2 * pi, 2 * c - 1);
  }

  /** From a slot with a multiple of p the next one is p slots on. */
  lemma NextSlot(s0: nat, p: nat, i: nat)
    requires 3 <= p && p % 2 == 1 && Divides(p, s0 + 2 * i)
    ensures Divides(p, s0 + 2 * (i + p))
    ensures forall j :: i < j < i + p ==> !Divides(p, s0 + 2 * j)
  {
    DividesWitness(p, 2 * p, 2);
    DividesSum(p, s0 + 2 * i, 2 * p);
    assert s0 + 2 * i + 2 * p == s0 + 2 * (i + p);
    forall j | i < j < i + p
      ensures !Divides(p, s0 + 2 * j)
    {
      OddSlots(p, s0, i, j);
    }
  }

  /** No slot before the starting one holds a multiple of p above p. */
  lemma NoneBefore(s0: nat, p: nat, pi: nat)
    requires 3 <= p && p % 2 == 1 && Divides(p, s0 + 2 * pi)
    requires pi < p || (pi < 2 * p && s0 + 2 * (pi - p) <= p)
    ensures forall j :: 0 <= j < pi ==> !Struck(p, s0 + 2 * j)
  {
    forall j | 0 <= j < pi
      ensures !Struck(p, s0 + 2 * j)
    {
      if Divides(p, s0 + 2 * j) {
        if pi < j + p { OddSlots(p, s0, j, pi); }
      }
    }
  }

  ghost predicate Sound(s0: nat, s: seq<byte>) {
    |s| == SIEVESIZE + 1 && forall j :: 0 <= j < SIEVESIZE && s[j] != 0 ==> !IsPrime(s0 + 2 * j)
  }

  ghost predicate StruckOut(s0: nat, s: seq<byte>, c: nat)
    requires |s| == SIEVESIZE + 1 && 0 < c
  {
    forall j :: 0 <= j < SIEVESIZE && Struck(c, s0 + 2 * j) ==> s[j] != 0
  }

  ghost predicate SievedBelow(s0: nat, s: seq<byte>, p: nat)
    requires |s| == SIEVESIZE + 1
  {
    forall c :: 3 <= c < p && IsPrime(c) ==> StruckOut(s0, s, c)
  }

  lemma SievedBelowEleven(s0: nat, s: seq<byte>)
    requires 3 <= s0 && |s| == SIEVESIZE + 1
    requires forall j :: 0 <= j < SIEVESIZE ==>
      (s[j] != 0 <==> Struck(3, s0 + 2 * j) || Struck(5, s0 + 2 * j) || Struck(7, s0 + 2 * j))
    ensures Sound(s0, s) && SievedBelow(s0, s, 11)
  {
    forall j | 0 <= j < SIEVESIZE && s[j] != 0
      ensures !IsPrime(s0 + 2 * j)
    {
      ProperDivisor(if Struck(3, s0 + 2 * j) then 3 else if Struck(5, s0 + 2 * j) then 5 else 7, s0 + 2 * j);
    }
    forall c | 3 <= c < 11 && IsPrime(c)
      ensures StruckOut(s0, s, c)
    {
      if c != 3 && c != 5 && c != 7 {
        ProperDivisor(if c == 9 then 3 else 2, c);
      }
    }
  }

  /** A pass with p followed by a step of the wheel: no prime is stepped over. */
  lemma SieveAdvances(s0: nat, before: seq<byte>, after: seq<byte>, p: nat, p': nat)
    requires 11 <= p < p' && Sound(s0, before) && SievedBelow(s0, before, p) && |after| == SIEVESIZE + 1
    requires forall j :: 0 <= j < SIEVESIZE ==> after[j] == if Struck(p, s0 + 2 * j) then 1 else before[j]
    requires forall c :: p < c < p' ==> HasSmallFactor(c)
    ensures Sound(s0, after) && SievedBelow(s0, after, p')
  {
    forall j | 0 <= j < SIEVESIZE && after[j] != 0
      ensures !IsPrime(s0 + 2 * j)
    {
      if Struck(p, s0 + 2 * j) { ProperDivisor(p, s0 + 2 * j); }
    }
    forall c | 3 <= c < p' && IsPrime(c)
      ensures StruckOut(s0, after, c)
    {
      if p < c { SmallFactorNotPrime(c); }
      if c < p { assert StruckOut(s0, before, c); }
    }
  }

  /** Once the wheel is past the root of the block's last number, exactly the primes are left. */
  lemma BlockIsSieved(s0: nat, s: seq<byte>, p: nat, root: nat)
    requires 3 <= s0 && s0 % 2 == 1 && Sound(s0, s) && SievedBelow(s0, s, p) && root < p
    requires s0 + 2 * SIEVESIZE - 1 < (root + 1) * (root + 1)
    ensures forall j :: 0 <= j < SIEVESIZE ==> (s[j] == 0 <==> IsPrime(s0 + 2 * j))
  {
    forall j | 0 <= j < SIEVESIZE && !IsPrime(s0 + 2 * j)
      ensures s[j] != 0
    {
      CompositeIsStruck(s0, s, p, root, j);
    }
  }

  lemma CompositeIsStruck(s0: nat, s: seq<byte>, p: nat, root: nat, j: nat)
    requires 3 <= s0 && s0 % 2 == 1 && |s| == SIEVESIZE + 1 && SievedBelow(s0, s, p) && root < p
    requires s0 + 2 * SIEVESIZE - 1 < (root + 1) * (root + 1)
    requires j < SIEVESIZE && !IsPrime(s0 + 2 * j)
    ensures s[j] != 0
  {
    var n := s0 + 2 * j;
    var q := LeastFactor(n);
    assert q * (root + 1) == (root + 1) * q;
    if root + 1 <= q { Scale(q, root + 1, q); Scale(root + 1, root + 1, q); }
    Scale(q, 2, q);
    assert q != 2;
    assert Struck(q, n) && StruckOut(s0, s, q);
  }
}
