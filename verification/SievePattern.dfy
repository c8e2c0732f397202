/** primesieve.c fill_bitpattern on 64-bit limbs: the multiples of 5, 7, 11 and 13 are written
    from two periodic bit patterns held in a few limbs and rotated as the array is filled. */
module SievePattern {
  import opened Divisions
  import opened Primes
  import opened SieveBits
  import opened Words
  import opened GenSieve

  /** Bit v of a pattern given by one period of it, for v within three periods. */
  predicate At(period: seq<bool>, v: nat)
    requires v < 3 * |period|
  {
    var n := |period|;
    if v < n then period[v] else if v < 2 * n then period[v - n] else period[v - 2 * n]
  }

  /** Bit t of x is bit k + t of the pattern, for all t below n, and no bit of x from n on is set
      where the pattern is clear: bits left over there are harmless when OR-ed. */
  ghost predicate Shows(x: Limb, P: seq<bool>, k: nat, n: nat)
    requires k + LIMB_BITS <= 3 * |P|
  {
    && n <= LIMB_BITS
    && (forall t :: 0 <= t < n ==> (x[t] <==> At(P, k + t)))
    && (forall t :: n <= t < LIMB_BITS && x[t] ==> At(P, k + t))
  }

  /** The pattern of 5 and 11 has period 110, that of 7 and 13 period 182. */
  const BITS1: nat := 11 * 5 * 2
  const BITS2: nat := 13 * 7 * 2

  /** SET_OFF1: a two-limb window on the pattern of 5 and 11, from bit off of its period. */
  method SetOff1(M1: Limb, M2: Limb, off: nat, ghost P: seq<bool>) returns (m1: Limb, m2: Limb)
    requires |P| == BITS1
    requires off < BITS1
    requires Shows(M1, P, 0, LIMB_BITS) && Shows(M2, P, LIMB_BITS, BITS1 - LIMB_BITS)
    requires forall t :: BITS1 - LIMB_BITS <= t < LIMB_BITS ==> !M2[t]
    ensures Shows(m1, P, off, LIMB_BITS) && Shows(m2, P, off + LIMB_BITS, BITS1 - LIMB_BITS)
  {
    if off != 0 {
      if off < LIMB_BITS {
        m1, m2 := SetOff1Low(M1, M2, off, P);
      } else {
        m1 := Or(Shl(M1, BITS1 - off), Shr(M2, off - LIMB_BITS));
        m2 := Or(Shl(M2, BITS1 - off), Shr(M1, off + LIMB_BITS - BITS1));
      }
    } else {
      m1, m2 := M1, M2;
    }
  }

  /** The branch of SET_OFF1 for an offset within the first limb. */
  method SetOff1Low(M1: Limb, M2: Limb, off: nat, ghost P: seq<bool>) returns (m1: Limb, m2: Limb)
    requires |P| == BITS1
    requires 0 < off < LIMB_BITS
    requires Shows(M1, P, 0, LIMB_BITS) && Shows(M2, P, LIMB_BITS, BITS1 - LIMB_BITS)
    requires forall t :: BITS1 - LIMB_BITS <= t < LIMB_BITS ==> !M2[t]
    ensures Shows(m1, P, off, LIMB_BITS) && Shows(m2, P, off + LIMB_BITS, BITS1 - LIMB_BITS)
  {
    m1 := Or(Shr(M1, off), Shl(M2, LIMB_BITS - off));
    if off <= BITS1 - LIMB_BITS {
      m2 := Or(Shl(M1, BITS1 - LIMB_BITS - off), Shr(M2, off));
    } else {
      m1 := Or(m1, Shl(M1, BITS1 - off));
      m2 := Shr(M1, off + LIMB_BITS - BITS1);
    }
  }

  /** SET_OFF2: a three-limb window on the pattern of 7 and 13. */
  method SetOff2(M1: Limb, M2: Limb, M3: Limb, off: nat, ghost P: seq<bool>) returns (m1: Limb, m2: Limb, m3: Limb)
    requires |P| == BITS2
    requires off < BITS2
    requires Shows(M1, P, 0, LIMB_BITS) && Shows(M2, P, LIMB_BITS, LIMB_BITS)
    requires Shows(M3, P, 2 * LIMB_BITS, BITS2 - 2 * LIMB_BITS)
    requires forall t :: BITS2 - 2 * LIMB_BITS <= t < LIMB_BITS ==> !M3[t]
    ensures Shows(m1, P, off, LIMB_BITS) && Shows(m2, P, off + LIMB_BITS, LIMB_BITS)
    ensures Shows(m3, P, off + 2 * LIMB_BITS, BITS2 - 2 * LIMB_BITS)
  {
    if off != 0 {
      if off <= LIMB_BITS {
        m1, m2, m3 := SetOff2Low(M1, M2, M3, off, P);
      } else if off < 2 * LIMB_BITS {
        m1, m2, m3 := SetOff2Middle(M1, M2, M3, off, P);
      } else {
        m1 := Or(Shl(M1, BITS2 - off), Shr(M3, off - 2 * LIMB_BITS));
        m2 := Or(Shl(M2, BITS2 - off), Shr(M1, off + LIMB_BITS - BITS2));
        m3 := Or(Shl(M3, BITS2 - off), Shr(M2, off + LIMB_BITS - BITS2));
      }
    } else {
      m1, m2, m3 := M1, M2, M3;
    }
  }

  /** The branch of SET_OFF2 for an offset within the first limb. */
  method SetOff2Low(M1: Limb, M2: Limb, M3: Limb, off: nat, ghost P: seq<bool>) returns (m1: Limb, m2: Limb, m3: Limb)
    requires |P| == BITS2
    requires 0 < off <= LIMB_BITS
    requires Shows(M1, P, 0, LIMB_BITS) && Shows(M2, P, LIMB_BITS, LIMB_BITS)
    requires Shows(M3, P, 2 * LIMB_BITS, BITS2 - 2 * LIMB_BITS)
    requires forall t :: BITS2 - 2 * LIMB_BITS <= t < LIMB_BITS ==> !M3[t]
    ensures Shows(m1, P, off, LIMB_BITS) && Shows(m2, P, off + LIMB_BITS, LIMB_BITS)
    ensures Shows(m3, P, off + 2 * LIMB_BITS, BITS2 - 2 * LIMB_BITS)
  {
    if off <= BITS2 - 2 * LIMB_BITS {
      m1 := Or(Shl(M2, LIMB_BITS - off), Shr(M1, off));
      m2 := Or(Shl(M3, LIMB_BITS - off), Shr(M2, off));
      m3 := Or(Shl(M1, BITS2 - 2 * LIMB_BITS - off), Shr(M3, off));
    } else {
      m1, m2, m3 := SetOff2LowWrapped(M1, M2, M3, off, P);
    }
  }

  method SetOff2LowWrapped(M1: Limb, M2: Limb, M3: Limb, off: nat, ghost P: seq<bool>) returns (m1: Limb, m2: Limb, m3: Limb)
    requires |P| == BITS2
    requires BITS2 - 2 * LIMB_BITS < off <= LIMB_BITS
    requires Shows(M1, P, 0, LIMB_BITS) && Shows(M2, P, LIMB_BITS, LIMB_BITS)
    requires Shows(M3, P, 2 * LIMB_BITS, BITS2 - 2 * LIMB_BITS)
    requires forall t :: BITS2 - 2 * LIMB_BITS <= t < LIMB_BITS ==> !M3[t]
    ensures Shows(m1, P, off, LIMB_BITS) && Shows(m2, P, off + LIMB_BITS, LIMB_BITS)
    ensures Shows(m3, P, off + 2 * LIMB_BITS, BITS2 - 2 * LIMB_BITS)
  {
    m1 := Shl(M2, LIMB_BITS - off);
    m2 := Shl(M3, LIMB_BITS - off);
    if off != LIMB_BITS {
      m1 := Or(m1, Shr(M1, off));
      m2 := Or(m2, Shr(M2, off));
    }
    m2 := Or(m2, Shl(M1, BITS2 - LIMB_BITS - off));
    m3 := Shr(M1, off + 2 * LIMB_BITS - BITS2);
  }

  method SetOff2Third(M1: Limb, M2: Limb, off: nat, ghost P: seq<bool>) returns (m3: Limb)
    requires |P| == BITS2
    requires LIMB_BITS < off <= BITS2 - LIMB_BITS
    requires Shows(M1, P, 0, LIMB_BITS) && Shows(M2, P, LIMB_BITS, LIMB_BITS)
    ensures Shows(m3, P, off + 2 * LIMB_BITS, BITS2 - 2 * LIMB_BITS)
  {
    m3 := Shl(M2, BITS2 - LIMB_BITS - off);
    if off != BITS2 - LIMB_BITS {
      m3 := Or(m3, Shr(M1, off + 2 * LIMB_BITS - BITS2));
    }
  }

  /** The branch of SET_OFF2 for an offset within the second limb, up to where the third limb of
      the window wraps around. */
  method SetOff2Middle(M1: Limb, M2: Limb, M3: Limb, off: nat, ghost P: seq<bool>) returns (m1: Limb, m2: Limb, m3: Limb)
    requires |P| == BITS2
    requires LIMB_BITS < off < 2 * LIMB_BITS
    requires Shows(M1, P, 0, LIMB_BITS) && Shows(M2, P, LIMB_BITS, LIMB_BITS)
    requires Shows(M3, P, 2 * LIMB_BITS, BITS2 - 2 * LIMB_BITS)
    requires forall t :: BITS2 - 2 * LIMB_BITS <= t < LIMB_BITS ==> !M3[t]
    ensures Shows(m1, P, off, LIMB_BITS) && Shows(m2, P, off + LIMB_BITS, LIMB_BITS)
    ensures Shows(m3, P, off + 2 * LIMB_BITS, BITS2 - 2 * LIMB_BITS)
  {
    if off <= BITS2 - LIMB_BITS {
      m1 := Or(Shr(M2, off - LIMB_BITS), Shl(M3, 2 * LIMB_BITS - off));
      m2 := Or(Shr(M3, off - LIMB_BITS), Shl(M1, BITS2 - LIMB_BITS - off));
      m3 := SetOff2Third(M1, M2, off, P);
    } else {
      m1, m2, m3 := SetOff2Wrapped(M1, M2, M3, off, P);
    }
  }

  method SetOff2Wrapped(M1: Limb, M2: Limb, M3: Limb, off: nat, ghost P: seq<bool>) returns (m1: Limb, m2: Limb, m3: Limb)
    requires |P| == BITS2
    requires BITS2 - LIMB_BITS < off < 2 * LIMB_BITS
    requires Shows(M1, P, 0, LIMB_BITS) && Shows(M2, P, LIMB_BITS, LIMB_BITS)
    requires Shows(M3, P, 2 * LIMB_BITS, BITS2 - 2 * LIMB_BITS)
    requires forall t :: BITS2 - 2 * LIMB_BITS <= t < LIMB_BITS ==> !M3[t]
    ensures Shows(m1, P, off, LIMB_BITS) && Shows(m2, P, off + LIMB_BITS, LIMB_BITS)
    ensures Shows(m3, P, off + 2 * LIMB_BITS, BITS2 - 2 * LIMB_BITS)
  {
    m1 := Or(Shr(M2, off - LIMB_BITS), Shl(M3, 2 * LIMB_BITS - off));
    m1 := Or(m1, Shl(M1, BITS2 - off));
    m2 := Or(Shl(M2, BITS2 - off), Shr(M1, LIMB_BITS - BITS2 + off));
    m3 := Shr(M2, LIMB_BITS - BITS2 + off);
  }

  /** Where the window stands in the period after moving on by n bits. */
  function Advance(k: nat, n: nat, period: nat): (k': nat)
    requires k < period && n <= 2 * period
    ensures k' < period
  {
    if k + n < period then k + n else if k + n < 2 * period then k + n - period else k + n - 2 * period
  }

  /** ROTATE1: move the two-limb window on by one limb. */
  method Rotate1(m1: Limb, m2: Limb, ghost k: nat, ghost P: seq<bool>) returns (r1: Limb, r2: Limb)
    requires |P| == BITS1 && k < BITS1
    requires Shows(m1, P, k, LIMB_BITS) && Shows(m2, P, k + LIMB_BITS, BITS1 - LIMB_BITS)
    ensures var k' := Advance(k, LIMB_BITS, BITS1);
      Shows(r1, P, k', LIMB_BITS) && Shows(r2, P, k' + LIMB_BITS, BITS1 - LIMB_BITS)
  {
    r2 := Shr(m1, 2 * LIMB_BITS - BITS1);
    r1 := Or(Shl(m1, BITS1 - LIMB_BITS), m2);
  }

  /** ROTATE2: move the three-limb window on by two limbs. */
  method Rotate2(m1: Limb, m2: Limb, m3: Limb, ghost k: nat, ghost P: seq<bool>) returns (r1: Limb, r2: Limb, r3: Limb)
    requires |P| == BITS2 && k < BITS2
    requires Shows(m1, P, k, LIMB_BITS) && Shows(m2, P, k + LIMB_BITS, LIMB_BITS)
    requires Shows(m3, P, k + 2 * LIMB_BITS, BITS2 - 2 * LIMB_BITS)
    ensures var k' := Advance(k, 2 * LIMB_BITS, BITS2);
      && Shows(r1, P, k', LIMB_BITS) && Shows(r2, P, k' + LIMB_BITS, LIMB_BITS)
      && Shows(r3, P, k' + 2 * LIMB_BITS, BITS2 - 2 * LIMB_BITS)
  {
    r3 := Shr(m2, 3 * LIMB_BITS - BITS2);
    r2 := Or(Shl(m2, BITS2 - LIMB_BITS * 2), Shr(m1, 3 * LIMB_BITS - BITS2));
    r1 := Or(Shl(m1, BITS2 - LIMB_BITS * 2), m3);
  }

  // ---------------------------------------------------------------- filling the array

  /** Bit k's number is divisible by 5, 7, 11 or 13. */
  predicate Presieved(k: nat) { Struck(5, 11, k) || Struck(7, 13, k) }

  /** Limb x shows the multiples of 5, 7, 11 and 13 from bit k on. */
  ghost predicate ShowsPresieved(x: Limb, k: nat) {
    forall t :: 0 <= t < LIMB_BITS ==> (x[t] <==> Presieved(k + t))
  }

  ghost predicate IsMask(P: seq<bool>, a: nat, b: nat)
    requires 0 < a && 0 < b
  {
    |P| == 2 * a * b && forall i :: 0 <= i < |P| ==> (P[i] <==> Struck(a, b, i))
  }

  /** Whole periods do not change the pattern. */
  lemma {:induction false} PatternShift(a: nat, b: nat, k: nat, q: nat)
    requires 0 < a && 0 < b
    ensures Struck(a, b, k + q * (2 * a * b)) <==> Struck(a, b, k)
  {
    if q != 0 {
      PatternShift(a, b, k, q - 1);
      OnePeriodMore(q, 2 * a * b);
      PatternPeriodic(a, b, k + (q - 1) * (2 * a * b));
    }
  }

  lemma OnePeriodMore(q: nat, period: nat)
    requires 0 < q
    ensures 0 <= (q - 1) * period && (q - 1) * period + period == q * period
  {
    Scale(period, 0, q - 1);
  }

  /** A position in the period stands for every bit that many whole periods on. */
  lemma AtIsStruck(P: seq<bool>, a: nat, b: nat, k: nat, q: nat, r: nat, t: nat)
    requires 0 < a && 0 < b && IsMask(P, a, b) && r < |P| && k == q * (2 * a * b) + r && t < LIMB_BITS < |P|
    ensures At(P, r + t) <==> Struck(a, b, k + t)
  {
    PatternShift(a, b, r + t, q);
    if |P| <= r + t { PatternPeriodic(a, b, r + t - |P|); }
  }

  /** The five limbs of fill_bitpattern show the two patterns from bit k on. */
  ghost predicate Windows(m1: Limb, m2: Limb, w1: Limb, w2: Limb, w3: Limb, k: nat, P1: seq<bool>, P2: seq<bool>) {
    var k1, k2 := k % BITS1, k % BITS2;
    && IsMask(P1, 5, 11) && IsMask(P2, 7, 13)
    && Shows(m1, P1, k1, LIMB_BITS) && Shows(m2, P1, k1 + LIMB_BITS, BITS1 - LIMB_BITS)
    && Shows(w1, P2, k2, LIMB_BITS) && Shows(w2, P2, k2 + LIMB_BITS, LIMB_BITS)
    && Shows(w3, P2, k2 + 2 * LIMB_BITS, BITS2 - 2 * LIMB_BITS)
  }

  /** A limb showing the pattern of 5 and 11 OR one showing that of 7 and 13 is presieved. */
  lemma PatternsMeet(x: Limb, y: Limb, k: nat, k2: nat, P1: seq<bool>, P2: seq<bool>)
    requires IsMask(P1, 5, 11) && IsMask(P2, 7, 13) && k2 < BITS2
    requires Shows(x, P1, k % BITS1, LIMB_BITS) && k2 == k % BITS2 && Shows(y, P2, k2, LIMB_BITS)
    ensures ShowsPresieved(Or(x, y), k)
  {
    forall t | 0 <= t < LIMB_BITS
      ensures Or(x, y)[t] <==> Presieved(k + t)
    {
      AtIsStruck(P1, 5, 11, k, k / BITS1, k % BITS1, t);
      AtIsStruck(P2, 7, 13, k, k / BITS2, k2, t);
    }
  }

  /** SIEVE_MASK1 and SIEVE_MASKT, cut from the mask of 5 and 11, and the window at offset. */
  method Window1(offset: nat) returns (m1: Limb, m2: Limb, ghost P: seq<bool>)
    ensures IsMask(P, 5, 11)
    ensures var k := offset % BITS1;
      Shows(m1, P, k, LIMB_BITS) && Shows(m2, P, k + LIMB_BITS, BITS1 - LIMB_BITS)
  {
    var mask := SetMask(5, 11);
    P := mask;
    m1, m2 := SetOff1(MaskLimb(mask, 0), MaskLimb(mask, 1), offset % BITS1, P);
  }

  /** SIEVE_2MSK1, SIEVE_2MSK2 and SIEVE_2MSKT, cut from the mask of 7 and 13. */
  method Window2(offset: nat) returns (m1: Limb, m2: Limb, m3: Limb, ghost P: seq<bool>)
    ensures IsMask(P, 7, 13)
    ensures var k := offset % BITS2;
      && Shows(m1, P, k, LIMB_BITS) && Shows(m2, P, k + LIMB_BITS, LIMB_BITS)
      && Shows(m3, P, k + 2 * LIMB_BITS, BITS2 - 2 * LIMB_BITS)
  {
    var mask := SetMask(7, 13);
    P := mask;
    m1, m2, m3 := SetOff2(MaskLimb(mask, 0), MaskLimb(mask, 1), MaskLimb(mask, 2), offset % BITS2, P);
  }

  /** Positions lo .. p - 1 hold presieved limbs, the first one from bit offset on. */
  ghost predicate Filled(a: seq<Limb>, lo: nat, p: nat, offset: nat) {
    lo <= p <= |a| && forall j :: lo <= j < p ==> ShowsPresieved(a[j], offset + LIMB_BITS * (j - lo))
  }

  lemma FilledFurther(a: seq<Limb>, lo: nat, p: nat, offset: nat, x: Limb)
    requires Filled(a, lo, p, offset) && p < |a| && ShowsPresieved(x, offset + LIMB_BITS * (p - lo))
    ensures Filled(a[p := x], lo, p + 1, offset)
  {}

  /** The window positions after one and after two limbs. */
  lemma AdvanceIsModulo(k: nat)
    ensures Advance(k % BITS1, LIMB_BITS, BITS1) == (k + LIMB_BITS) % BITS1
    ensures Advance(k % BITS2, 2 * LIMB_BITS, BITS2) == (k + 2 * LIMB_BITS) % BITS2
  {
    AdvanceBy(k, LIMB_BITS, BITS1);
    AdvanceBy(k, 2 * LIMB_BITS, BITS2);
  }

  lemma AdvanceBy(k: nat, n: nat, period: nat)
    requires n <= 2 * period && 0 < period
    ensures Advance(k % period, n, period) == (k + n) % period
  {
    var q, r := k / period, k % period;
    assert k == period * q + r;
    var c := if r + n < period then 0 else if r + n < 2 * period then 1 else 2;
    assert c == 0 || c == 1 || c == 2;
    assert period * (q + c) == period * q + (if c == 0 then 0 else if c == 1 then period else 2 * period);
    MultipleModulo(period, q + c, Advance(r, n, period));
  }

  /** The second limb of a round of fill_bitpattern, and the windows for the next round. */
  method SecondLimb(m11: Limb, m12: Limb, m21: Limb, m22: Limb, m23: Limb, ghost k: nat, ghost P1: seq<bool>, ghost P2: seq<bool>)
    returns (x: Limb, r11: Limb, r12: Limb, r21: Limb, r22: Limb, r23: Limb)
    requires Windows(m11, m12, m21, m22, m23, k, P1, P2)
    ensures ShowsPresieved(x, k + LIMB_BITS)
    ensures Windows(r11, r12, r21, r22, r23, k + 2 * LIMB_BITS, P1, P2)
  {
    AdvanceIsModulo(k);
    AdvanceIsModulo(k + LIMB_BITS);
    r11, r12 := Rotate1(m11, m12, k % BITS1, P1);
    x := Or(r11, m22);
    SecondLimbMeets(r11, m22, k, P1, P2);
    r11, r12 := Rotate1(r11, r12, (k + LIMB_BITS) % BITS1, P1);
    r21, r22, r23 := Rotate2(m21, m22, m23, k % BITS2, P2);
  }

  lemma ShowsAdvanced(y: Limb, P: seq<bool>, r: nat)
    requires |P| == BITS2 && r < BITS2 && Shows(y, P, r + LIMB_BITS, LIMB_BITS)
    ensures Shows(y, P, Advance(r, LIMB_BITS, BITS2), LIMB_BITS)
  {}

  lemma SecondLimbMeets(x: Limb, y: Limb, k: nat, P1: seq<bool>, P2: seq<bool>)
    requires IsMask(P1, 5, 11) && IsMask(P2, 7, 13)
    requires Shows(x, P1, (k + LIMB_BITS) % BITS1, LIMB_BITS) && Shows(y, P2, k % BITS2 + LIMB_BITS, LIMB_BITS)
    ensures ShowsPresieved(Or(x, y), k + LIMB_BITS)
  {
    var r := k % BITS2;
    AdvanceBy(k, LIMB_BITS, BITS2);
    ShowsAdvanced(y, P2, r);
    PatternsMeet(x, y, k + LIMB_BITS, Advance(r, LIMB_BITS, BITS2), P1, P2);
  }

  /** One more limb of the pattern is written. */
  method PutLimb(a: array<Limb>, lo: nat, p: nat, offset: nat, x: Limb)
    requires lo <= p < a.Length && Filled(a[..], lo, p, offset) && ShowsPresieved(x, offset + LIMB_BITS * (p - lo))
    modifies a
    ensures Filled(a[..], lo, p + 1, offset)
    ensures forall j :: 0 <= j < a.Length && j != p ==> a[j] == old(a[j])
  {
    FilledFurther(a[..], lo, p, offset, x);
    ghost var after := a[..][p := x];
    a[p] := x;
    assert a[..] == after;
  }

  /** fill_bitpattern: overwrite limbs of the array from position lo on. */
  method FillBitpattern(a: array<Limb>, lo: nat, limbs: nat, offset: nat) returns (first: nat)
    requires 0 < limbs && lo + limbs <= a.Length
    modifies a
    ensures Filled(a[..], lo, lo + limbs, offset)
    ensures forall j :: 0 <= j < a.Length && !(lo <= j < lo + limbs) ==> a[j] == old(a[j])
    ensures first == 4
  {
    ghost var P1, P2;
    var m11, m12, m21, m22, m23;
    m11, m12, P1 := Window1(offset);
    m21, m22, m23, P2 := Window2(offset);
    var p, left := lo, limbs;
    while true
      invariant 0 < left && lo <= p && p + left == lo + limbs
      invariant Windows(m11, m12, m21, m22, m23, offset + LIMB_BITS * (p - lo), P1, P2)
      invariant Filled(a[..], lo, p, offset)
      invariant forall j :: 0 <= j < a.Length && !(lo <= j < p) ==> a[j] == old(a[j])
      decreases left
    {
      ghost var k := offset + LIMB_BITS * (p - lo);
      PatternsMeet(m11, m21, k, k % BITS2, P1, P2);
      PutLimb(a, lo, p, offset, Or(m11, m21));
      left := left - 1;
      if left == 0 { return NCtoBit(13 + 1); }
      var x;
      x, m11, m12, m21, m22, m23 := SecondLimb(m11, m12, m21, m22, m23, k, P1, P2);
      PutLimb(a, lo, p + 1, offset, x);
      p := p + 2;
      left := left - 1;
      if left == 0 { return NCtoBit(13 + 1); }
    }
  }
}
