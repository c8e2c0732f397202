/** primesieve.c: the segmented sieve over the numbers coprime to 6. */
module SegmentedSieve {
  import opened Divisions
  import opened Primes
  import opened SieveBits
  import opened Words
  import GenSieve
  import opened SievePattern
  import PrimeGaps

  // ---------------------------------------------------------------- striking one progression

  /** x is start, start + step, start + 2 * step, ... */
  predicate OnTrack(x: int, start: int, step: int)
    requires 0 < step
  {
    start <= x && Divides(step, x - start)
  }

  lemma TrackGap(x: int, at: int, start: int, step: int)
    requires 0 < step && OnTrack(at, start, step) && at < x < at + step
    ensures !OnTrack(x, start, step)
  {
    DividesSum(step, at - start, x - at);
    if Divides(step, x - at) { var k := Cofactor(step, x - at); }
  }

  lemma TrackStep(at: int, start: int, step: int)
    requires 0 < step && OnTrack(at, start, step)
    ensures OnTrack(at + step, start, step)
  {
    DividesWitness(step, step, 1);
    DividesSum(step, at - start, step);
  }

  lemma SetOneBit(a: seq<Limb>, j: nat, t: nat, k: nat)
    requires j < |a| && t < LIMB_BITS && k < LIMB_BITS * |a|
    ensures Bit(a[j := Or(a[j], OneHot(t))], k) <==> Bit(a, k) || k == LIMB_BITS * j + t
  {}

  /** Outside the block of limbs lo .. lo + limbs - 1 nothing differs. */
  ghost predicate SameOutside(a: seq<Limb>, b: seq<Limb>, lo: nat, limbs: nat) {
    |a| == |b| && forall j :: 0 <= j < |a| && !(lo <= j < lo + limbs) ==> a[j] == b[j]
  }

  /** Of the len bits from limb lo on, those on the track and before position upto have been set
      and no others touched. */
  ghost predicate Struck(orig: seq<Limb>, a: seq<Limb>, lo: nat, len: nat, start: nat, step: nat, upto: nat)
    requires 0 < step
  {
    && |a| == |orig| && LIMB_BITS * lo + len <= LIMB_BITS * |a|
    && forall x :: 0 <= x < len ==>
      (Bit(a, LIMB_BITS * lo + x) <==> Bit(orig, LIMB_BITS * lo + x) || (x < upto && OnTrack(x, start, step)))
  }

  /** The inner loop of block_resieve: a one-bit mask walks through the block and sets the bits of a track. */
  method Strike(a: array<Limb>, lo: nat, limbs: nat, start: nat, step: nat)
    requires 0 < limbs && lo + limbs <= a.Length && 0 < step && step % LIMB_BITS != 0
    modifies a
    ensures SameOutside(a[..], old(a[..]), lo, limbs)
    ensures Struck(old(a[..]), a[..], lo, LIMB_BITS * limbs, start, step, LIMB_BITS * limbs)
  {
    var bits := LIMB_BITS * limbs - 1;
    var maskrot := step % LIMB_BITS;
    var lindex := start;
    var lmask := OneHot(lindex % LIMB_BITS);
    DividesWitness(step, 0, 0);
    while lindex <= bits
      invariant start <= lindex && OnTrack(lindex, start, step)
      invariant lmask == OneHot(lindex % LIMB_BITS)
      invariant SameOutside(a[..], old(a[..]), lo, limbs)
      invariant Struck(old(a[..]), a[..], lo, bits + 1, start, step, lindex)
      decreases bits + 1 - lindex
    {
      ghost var before := a[..];
      var j := lo + lindex / LIMB_BITS;
      a[j] := Or(a[j], lmask);
      assert a[..] == before[j := Or(before[j], lmask)];
      OneMoreStruck(before, a[..], old(a[..]), lo, bits + 1, start, step, lindex);
      MaskFollows(lindex, step);
      lmask := Or(Shl(lmask, maskrot), Shr(lmask, LIMB_BITS - maskrot));
      TrackStep(lindex, start, step);
      lindex := lindex + step;
    }
  }

  /** The rotated mask selects the bit step positions on. */
  lemma MaskFollows(lindex: nat, step: nat)
    requires step % LIMB_BITS != 0
    ensures var m, r := OneHot(lindex % LIMB_BITS), step % LIMB_BITS;
      Or(Shl(m, r), Shr(m, LIMB_BITS - r)) == OneHot((lindex + step) % LIMB_BITS)
  {
    RotateOneHot(lindex % LIMB_BITS, step % LIMB_BITS);
    SumModulo(lindex, step, LIMB_BITS);
  }

  lemma OneMoreStruck(before: seq<Limb>, after: seq<Limb>, orig: seq<Limb>, lo: nat, len: nat, start: nat, step: nat, lindex: nat)
    requires 0 < step && lindex < len && LIMB_BITS * lo + len <= LIMB_BITS * |before|
    requires OnTrack(lindex, start, step)
    requires after == before[lo + lindex / LIMB_BITS := Or(before[lo + lindex / LIMB_BITS], OneHot(lindex % LIMB_BITS))]
    requires Struck(orig, before, lo, len, start, step, lindex)
    ensures Struck(orig, after, lo, len, start, step, lindex + step)
  {
    forall x | 0 <= x < len
      ensures Bit(after, LIMB_BITS * lo + x) <==> Bit(orig, LIMB_BITS * lo + x) || (x < lindex + step && OnTrack(x, start, step))
    {
      SetOneBit(before, lo + lindex / LIMB_BITS, lindex % LIMB_BITS, LIMB_BITS * lo + x);
      assert LIMB_BITS * lo + x == LIMB_BITS * (lo + lindex / LIMB_BITS) + lindex % LIMB_BITS <==> x == lindex;
      if lindex < x < lindex + step { TrackGap(x, lindex, start, step); }
      assert Bit(before, LIMB_BITS * lo + x) <==> Bit(orig, LIMB_BITS * lo + x) || (x < lindex && OnTrack(x, start, step));
    }
  }

  // ---------------------------------------------------------------- closed-form starts

  /** The closed forms of block_resieve: the bits of id_to_n(i) squared and of id_to_n(i) times the
      next number coprime to 6. */
  lemma ClosedForms(i: nat, square: nat, cross: nat)
    requires 0 < i
    requires square == i * (IdToN(i) + 1) - 1 + (if i % 2 == 1 then i + 1 else 0)
    requires cross == i * (i * 3 + 6) + i % 2
    ensures BitToN(square) == IdToN(i) * IdToN(i)
    ensures BitToN(cross) == IdToN(i) * BitToN(i)
  {
    var h := Halve(i);
    BitForm(h);
    IdForm(h);
    if i == 2 * h {
      EvenForms(h, square, cross);
    } else {
      OddForms(h, square, cross);
    }
  }

  lemma EvenForms(h: nat, square: nat, cross: nat)
    requires square == (2 * h) * (6 * h + 2) - 1 && cross == (2 * h) * (6 * h + 6) && 0 < h
    ensures BitToN(square) == (6 * h + 1) * (6 * h + 1)
    ensures BitToN(cross) == (6 * h + 1) * (6 * h + 5)
  {
    var hh := h * h;
    Expand(h, 2, 0, 6, 2);
    Expand(h, 2, 0, 6, 6);
    BitForm(6 * hh + 2 * h - 1);
    BitForm(6 * hh + 6 * h);
    Expand(h, 6, 1, 6, 1);
    Expand(h, 6, 1, 6, 5);
  }

  lemma OddForms(h: nat, square: nat, cross: nat)
    requires square == (2 * h + 1) * (6 * h + 6) - 1 + (2 * h + 2) && cross == (2 * h + 1) * (6 * h + 9) + 1
    ensures BitToN(square) == (6 * h + 5) * (6 * h + 5)
    ensures BitToN(cross) == (6 * h + 5) * (6 * h + 7)
  {
    var hh := h * h;
    Expand(h, 2, 1, 6, 6);
    Expand(h, 2, 1, 6, 9);
    BitForm(6 * hh + 10 * h + 3);
    BitForm(6 * hh + 12 * h + 5);
    Expand(h, 6, 5, 6, 5);
    Expand(h, 6, 5, 6, 7);
  }

  lemma IdForm(h: nat)
    ensures IdToN(2 * h) == 6 * h + 1 && IdToN(2 * h + 1) == 6 * h + 5
  {}

  lemma Expand(h: int, a: int, x: int, b: int, y: int)
    ensures (a * h + x) * (b * h + y) == a * b * (h * h) + (a * y + b * x) * h + x * y
  {}

  // ---------------------------------------------------------------- one prime in one block

  /** Where a track enters the block: whole steps are added to a start that lies before it, and the result is
      counted from the beginning of the block. */
  method EnterBlock(lindex: nat, off: nat, step: nat) returns (first: nat)
    requires 0 < step
    ensures SameTracks(lindex, first, off, step)
  {
    first := lindex;
    if first < off {
      first := first + step * ((off - first - 1) / step + 1);
    }
    FirstOnTrack(lindex, off, step, first);
    TrackInBlock(lindex, first, off, step);
    first := first - off;
  }

  /** Positions from off on are on the first track exactly when, counted from off, they are on the
      second. */
  ghost predicate SameTracks(lindex: nat, first: nat, off: nat, step: nat)
    requires 0 < step
  {
    forall x: nat {:trigger OnTrack(x, first, step)} :: OnTrack(off + x, lindex, step) <==> OnTrack(x, first, step)
  }

  lemma TrackInBlock(lindex: nat, first: nat, off: nat, step: nat)
    requires 0 < step && off <= first && OnTrack(first, lindex, step)
    requires if lindex < off then first < off + step else first == lindex
    ensures SameTracks(lindex, first - off, off, step)
  {
    forall x: nat {:trigger OnTrack(x, first - off, step)}
      ensures OnTrack(off + x, lindex, step) <==> OnTrack(x, first - off, step)
    {
      SameTrack(lindex, first, off, step, off + x);
      assert off + x - first == x - (first - off);
    }
  }

  lemma FirstOnTrack(lindex: nat, off: nat, step: nat, first: nat)
    requires 0 < step
    requires first == if lindex < off then lindex + step * ((off - lindex - 1) / step + 1) else lindex
    ensures off <= first && OnTrack(first, lindex, step) && (lindex < off ==> first < off + step)
  {
    if lindex < off {
      var m := off - lindex - 1;
      assert m == step * (m / step) + m % step;
      assert step * (m / step + 1) == step * (m / step) + step;
      DividesWitness(step, first - lindex, m / step + 1);
    } else {
      DividesWitness(step, 0, 0);
    }
  }

  lemma SameTrack(lindex: nat, first: nat, off: nat, step: nat, k: nat)
    requires 0 < step && off <= first && off <= k && OnTrack(first, lindex, step)
    requires if lindex < off then first < off + step else first == lindex
    ensures OnTrack(k, lindex, step) <==> OnTrack(k, first, step)
  {
    DividesSum(step, first - lindex, k - first);
    assert (first - lindex) + (k - first) == k - lindex;
    if k < first && lindex < off { NotYet(step, first - k); }
  }

  lemma NotYet(step: nat, gap: nat)
    requires 0 < gap < step
    ensures !Divides(step, 0 - gap)
  {
    assert !Divides(step, gap) by { if Divides(step, gap) { var c := Cofactor(step, gap); } }
    DividesWitness(step, 0, 0);
    DividesSum(step, 0, gap);
  }

  lemma TrackNumber(start: nat, p: nat, k: nat) returns (m: nat)
    requires 0 < p && OnTrack(k, start, 2 * p)
    ensures BitToN(k) == BitToN(start) + p * (6 * m)
  {
    m := (k - start) / (2 * p);
    var n := p * m;
    assert k - start == 2 * n by { TrackDistance(k - start, p, m); }
    EvenShift(start, n);
    assert p * (6 * m) == 6 * n;
  }

  lemma TrackDistance(d: nat, p: nat, m: nat)
    requires 0 < p && Divides(2 * p, d) && m == d / (2 * p)
    ensures d == 2 * (p * m)
  {
    assert d == (2 * p) * m + d % (2 * p);
    assert (2 * p) * m == 2 * (p * m);
  }

  /** Everything on a track that starts at p * q is a multiple of p from p * q on. */
  lemma TrackHoldsMultiples(k: nat, start: nat, p: nat, q: nat)
    requires 0 < p && BitToN(start) == p * q && OnTrack(k, start, 2 * p)
    ensures Divides(p, BitToN(k)) && p * q <= BitToN(k)
  {
    var m := TrackNumber(start, p, k);
    assert p * (q + 6 * m) == p * q + p * (6 * m);
    Scale(p, 0, 6 * m);
    DividesWitness(p, BitToN(k), q + 6 * m);
  }

  /** The two tracks of the i-th candidate p hold exactly its multiples from p * p on. */
  lemma TracksAreMultiples(i: nat, square: nat, cross: nat, k: nat)
    requires 0 < i && BitToN(square) == IdToN(i) * IdToN(i) && BitToN(cross) == IdToN(i) * BitToN(i)
    ensures var p := IdToN(i);
      OnTrack(k, square, 2 * p) || OnTrack(k, cross, 2 * p) <==> Divides(p, BitToN(k)) && p * p <= BitToN(k)
  {
    var p, q := IdToN(i), BitToN(i);
    IdAtMostBit(i);
    if OnTrack(k, square, 2 * p) { TrackHoldsMultiples(k, square, p, p); }
    if OnTrack(k, cross, 2 * p) { TrackHoldsMultiples(k, cross, p, q); Scale(p, p, q); }
    if Divides(p, BitToN(k)) && p * p <= BitToN(k) {
      var c := LargeCofactor(p, BitToN(k));
      CofactorResidue(i, k, c);
      OneOfTheTracks(k, p, q, square, cross, c);
    }
  }

  lemma IdAtMostBit(i: nat)
    ensures 0 < IdToN(i) <= BitToN(i)
  {}

  lemma LargeCofactor(p: nat, n: nat) returns (c: nat)
    requires 0 < p && 0 < n && Divides(p, n) && p * p <= n
    ensures n == p * c && p <= c
  {
    c := Cofactor(p, n);
    if c < p { Scale(p, c, p - 1); }
    assert p * (p - 1) == p * p - p;
  }

  lemma OneOfTheTracks(k: nat, p: nat, q: nat, square: nat, cross: nat, c: nat)
    requires 0 < p <= c && BitToN(square) == p * p && BitToN(cross) == p * q && BitToN(k) == p * c
    requires (c - p) % 6 == 0 || (q <= c && (c - q) % 6 == 0)
    ensures OnTrack(k, square, 2 * p) || OnTrack(k, cross, 2 * p)
  {
    if (c - p) % 6 == 0 {
      OnThatTrack(k, square, p, p, c, (c - p) / 6);
    } else {
      OnThatTrack(k, cross, p, q, c, (c - q) / 6);
    }
  }

  /** p * c lies on the track that starts at p * q when c is a multiple of 6 beyond q. */
  lemma OnThatTrack(k: nat, start: nat, p: nat, q: nat, c: nat, m: nat)
    requires 0 < p && BitToN(start) == p * q && BitToN(k) == p * c && c == q + 6 * m
    ensures OnTrack(k, start, 2 * p)
  {
    SixTimes(p, q, m);
    ShiftedBit(k, start, p * m);
    DividesWitness(2 * p, 2 * (p * m), m);
  }

  lemma SixTimes(p: int, q: int, m: int)
    ensures p * (q + 6 * m) == p * q + 6 * (p * m) && 2 * (p * m) == (2 * p) * m
  {}

  lemma ShiftedBit(k: nat, start: nat, n: nat)
    requires BitToN(k) == BitToN(start) + 6 * n
    ensures k == start + 2 * n
  {
    EvenShift(start, n);
    SameBit(k, start + 2 * n);
  }

  lemma SameBit(a: nat, b: nat)
    requires BitToN(a) == BitToN(b)
    ensures a == b
  {
    BitsIncrease(a, b);
    BitsIncrease(b, a);
  }

  /** The cofactor of p in a number coprime to 6 is p or the next candidate, modulo 6. */
  lemma CofactorResidue(i: nat, k: nat, c: nat)
    requires 0 < i && BitToN(k) == IdToN(i) * c && IdToN(i) <= c
    ensures (c - IdToN(i)) % 6 == 0 || (BitToN(i) <= c && (c - BitToN(i)) % 6 == 0)
  {
    var p := IdToN(i);
    BitsAreCoprime(k);
    assert !Divides(2, c) by { if Divides(2, c) { FactorOfProduct(2, p, c); } }
    assert !Divides(3, c) by { if Divides(3, c) { FactorOfProduct(3, p, c); } }
    var h, r := c / 6, c % 6;
    assert c == 6 * h + r;
    CoprimeResidue(h, r);
    var g := Halve(i);
    IdForm(g);
    BitForm(g);
    ResidueCases(c, h, r, i, g);
  }

  lemma ResidueCases(c: nat, h: nat, r: nat, i: nat, g: nat)
    requires c == 6 * h + r && (r == 1 || r == 5) && (i == 2 * g || i == 2 * g + 1)
    requires IdToN(i) <= c
    ensures (c - IdToN(i)) % 6 == 0 || (BitToN(i) <= c && (c - BitToN(i)) % 6 == 0)
  {
    IdForm(g);
    BitForm(g);
    if i == 2 * g {
      if r == 1 { assert c - IdToN(i) == 6 * (h - g); } else { assert c - BitToN(i) == 6 * (h - g); }
    } else {
      if r == 5 { assert c - IdToN(i) == 6 * (h - g); } else { assert c - BitToN(i) == 6 * (h - g - 1); }
    }
  }

  lemma FactorOfProduct(d: nat, p: nat, c: nat)
    requires 0 < d && Divides(d, c)
    ensures Divides(d, p * c)
  {
    var k := c / d;
    assert c == d * k;
    assert p * c == d * (p * k);
    DividesWitness(d, p * c, p * k);
  }

  /** In the block of limbs from lo on, exactly the multiples of p from p * p on have been set. */
  ghost predicate Marked(orig: seq<Limb>, a: seq<Limb>, lo: nat, limbs: nat, p: nat)
    requires 0 < p
  {
    && SameOutside(a, orig, lo, limbs) && lo + limbs <= |a|
    && forall k :: LIMB_BITS * lo <= k < LIMB_BITS * (lo + limbs) ==>
      (Bit(a, k) <==> Bit(orig, k) || (Divides(p, BitToN(k)) && p * p <= BitToN(k)))
  }

  /** The body of the loop of block_resieve for the prime id_to_n(i), lindex being its square. */
  method StrikeMultiples(a: array<Limb>, lo: nat, limbs: nat, i: nat, lindex: nat)
    requires 0 < limbs && lo + limbs <= a.Length && 0 < i
    requires BitToN(lindex) == IdToN(i) * IdToN(i)
    modifies a
    ensures Marked(old(a[..]), a[..], lo, limbs, IdToN(i))
  {
    var off := LIMB_BITS * lo;
    var step := 2 * IdToN(i);
    NeverWholeLimbs(i);
    var first := EnterBlock(lindex, off, step);
    Strike(a, lo, limbs, first, step);
    ghost var middle := a[..];
    var lindex2 := i * (i * 3 + 6) + i % 2;
    CrossStart(i, lindex2);
    var first2 := EnterBlock(lindex2, off, step);
    Strike(a, lo, limbs, first2, step);
    BothStruck(old(a[..]), middle, a[..], lo, limbs, i, lindex, lindex2, first, first2);
  }

  /** maskrot is never 0: the step is twice an odd number. */
  lemma NeverWholeLimbs(i: nat)
    ensures (2 * IdToN(i)) % LIMB_BITS != 0
  {
    var h := Halve(i);
    IdForm(h);
  }

  lemma CrossStart(i: nat, cross: nat)
    requires 0 < i && cross == i * (i * 3 + 6) + i % 2
    ensures BitToN(cross) == IdToN(i) * BitToN(i)
  {
    var t := i * (IdToN(i) + 1);
    Scale(i, 1, IdToN(i) + 1);
    ClosedForms(i, t - 1 + (if i % 2 == 1 then i + 1 else 0), cross);
  }

  lemma StruckAt(orig: seq<Limb>, a: seq<Limb>, lo: nat, limbs: nat, start: nat, first: nat, step: nat, k: nat, x: nat)
    requires 0 < step && SameTracks(start, first, LIMB_BITS * lo, step)
    requires Struck(orig, a, lo, LIMB_BITS * limbs, first, step, LIMB_BITS * limbs)
    requires x < LIMB_BITS * limbs && k == LIMB_BITS * lo + x
    ensures Bit(a, k) <==> Bit(orig, k) || OnTrack(k, start, step)
  {
    assert OnTrack(LIMB_BITS * lo + x, start, step) <==> OnTrack(x, first, step);
  }

  lemma BothStruck(orig: seq<Limb>, middle: seq<Limb>, a: seq<Limb>, lo: nat, limbs: nat, i: nat, square: nat, cross: nat, first: nat, first2: nat)
    requires 0 < i && lo + limbs <= |a|
    requires BitToN(square) == IdToN(i) * IdToN(i) && BitToN(cross) == IdToN(i) * BitToN(i)
    requires SameOutside(middle, orig, lo, limbs) && SameOutside(a, middle, lo, limbs)
    requires SameTracks(square, first, LIMB_BITS * lo, 2 * IdToN(i))
    requires SameTracks(cross, first2, LIMB_BITS * lo, 2 * IdToN(i))
    requires Struck(orig, middle, lo, LIMB_BITS * limbs, first, 2 * IdToN(i), LIMB_BITS * limbs)
    requires Struck(middle, a, lo, LIMB_BITS * limbs, first2, 2 * IdToN(i), LIMB_BITS * limbs)
    ensures Marked(orig, a, lo, limbs, IdToN(i))
  {
    var p, off := IdToN(i), LIMB_BITS * lo;
    forall k | off <= k < LIMB_BITS * (lo + limbs)
      ensures Bit(a, k) <==> Bit(orig, k) || (Divides(p, BitToN(k)) && p * p <= BitToN(k))
    {
      var x: nat := k - off;
      StruckAt(orig, middle, lo, limbs, square, first, 2 * p, k, x);
      StruckAt(middle, a, lo, limbs, cross, first2, 2 * p, k, x);
      TracksAreMultiples(i, square, cross, k);
    }
  }

  // ---------------------------------------------------------------- one block

  /** Only composites are set in the block. */
  ghost predicate BlockSound(a: seq<Limb>, lo: nat, limbs: nat) {
    lo + limbs <= |a| && forall k :: LIMB_BITS * lo <= k < LIMB_BITS * (lo + limbs) && Bit(a, k) ==> !IsPrime(BitToN(k))
  }

  /** Some prime up to r, from 5 on, divides n and has its square up to n. */
  ghost predicate HasFactorUpTo(n: nat, r: nat) {
    exists q :: 5 <= q <= r && IsPrime(q) && Divides(q, n) && q * q <= n
  }

  /** The numbers of the block with such a factor are all set. */
  ghost predicate BlockComplete(a: seq<Limb>, lo: nat, limbs: nat, r: nat) {
    lo + limbs <= |a| && forall k :: LIMB_BITS * lo <= k < LIMB_BITS * (lo + limbs) && HasFactorUpTo(BitToN(k), r) ==> Bit(a, k)
  }

  /** Beyond the numbers up to 13, a presieved block is sound and complete up to 13. */
  lemma PresievedBlock(a: seq<Limb>, lo: nat, limbs: nat)
    requires 0 < lo && lo + limbs <= |a| && Filled(a, lo, lo + limbs, LIMB_BITS * lo)
    ensures BlockSound(a, lo, limbs) && BlockComplete(a, lo, limbs, IdToN(4))
  {
    forall k | LIMB_BITS * lo <= k < LIMB_BITS * (lo + limbs)
      ensures Bit(a, k) <==> Presieved(k)
    {
      var j, t := k / LIMB_BITS, k % LIMB_BITS;
      assert ShowsPresieved(a[j], LIMB_BITS * lo + LIMB_BITS * (j - lo));
      assert LIMB_BITS * lo + LIMB_BITS * (j - lo) + t == k;
    }
    forall k | LIMB_BITS * lo <= k < LIMB_BITS * (lo + limbs)
      ensures Presieved(k) ==> !IsPrime(BitToN(k))
      ensures HasFactorUpTo(BitToN(k), IdToN(4)) ==> Presieved(k)
    {
      PresievedNumber(k);
    }
  }

  lemma PresievedNumber(k: nat)
    requires LIMB_BITS <= k
    ensures Presieved(k) ==> !IsPrime(BitToN(k))
    ensures HasFactorUpTo(BitToN(k), IdToN(4)) ==> Presieved(k)
  {
    var n := BitToN(k);
    if Presieved(k) {
      ProperDivisor(if n % 5 == 0 then 5 else if n % 11 == 0 then 11 else if n % 7 == 0 then 7 else 13, n);
    }
    if HasFactorUpTo(n, 13) {
      var q :| 5 <= q <= 13 && IsPrime(q) && Divides(q, n) && q * q <= n;
      PrimesToThirteen(q);
    }
  }

  lemma PrimesToThirteen(q: nat)
    requires 5 <= q <= 13 && IsPrime(q)
    ensures q == 5 || q == 7 || q == 11 || q == 13
  {
    GenSieve.SmallPrimes(q);
  }

  lemma MarkedBlock(orig: seq<Limb>, a: seq<Limb>, lo: nat, limbs: nat, i: nat)
    requires 5 <= i && IsPrime(IdToN(i)) && Marked(orig, a, lo, limbs, IdToN(i))
    requires BlockSound(orig, lo, limbs) && BlockComplete(orig, lo, limbs, IdToN(i - 1))
    ensures BlockSound(a, lo, limbs) && BlockComplete(a, lo, limbs, IdToN(i))
  {
    var p := IdToN(i);
    forall k | LIMB_BITS * lo <= k < LIMB_BITS * (lo + limbs) && Bit(a, k)
      ensures !IsPrime(BitToN(k))
    {
      if Divides(p, BitToN(k)) && p * p <= BitToN(k) {
        Scale(p, 2, p);
        ProperDivisor(p, BitToN(k));
      }
    }
    forall k | LIMB_BITS * lo <= k < LIMB_BITS * (lo + limbs) && HasFactorUpTo(BitToN(k), p)
      ensures Bit(a, k)
    {
      var q :| 5 <= q <= p && IsPrime(q) && Divides(q, BitToN(k)) && q * q <= BitToN(k);
      if q != p {
        NoPrimeBetween(i, q);
        assert HasFactorUpTo(BitToN(k), IdToN(i - 1));
      }
    }
  }

  /** Consecutive candidates have no prime between them. */
  lemma NoPrimeBetween(i: nat, q: nat)
    requires 2 <= i && IsPrime(q) && 4 < q < IdToN(i)
    ensures q <= IdToN(i - 1)
  {
    PrimeIsCoprime(q);
    IdOfBit(i - 1);
    IdOfBit(i - 2);
    if IdToN(i - 1) < q { BetweenBits(i - 2, q); }
  }

  /** Once every prime below p is done and p * p is past the block, exactly the primes are left. */
  lemma BlockFinished(a: seq<Limb>, lo: nat, limbs: nat, i: nat)
    requires Sieved(a, LIMB_BITS * lo) && BlockSound(a, lo, limbs) && 5 <= i
    requires BlockComplete(a, lo, limbs, IdToN(i - 1)) && 0 < limbs
    requires PastBlock(i, lo, limbs)
    ensures Sieved(a, LIMB_BITS * (lo + limbs))
  {
    forall k | LIMB_BITS * lo <= k < LIMB_BITS * (lo + limbs) && !IsPrime(BitToN(k))
      ensures Bit(a, k)
    {
      CompositeHasFactor(k, LIMB_BITS * (lo + limbs) - 1, i);
    }
  }

  lemma CompositeHasFactor(k: nat, last: nat, i: nat)
    requires k <= last && !IsPrime(BitToN(k)) && 5 <= i && BitToN(last) < IdToN(i) * IdToN(i)
    ensures HasFactorUpTo(BitToN(k), IdToN(i - 1))
  {
    var n, p := BitToN(k), IdToN(i);
    BitsAreCoprime(k);
    BitsIncrease(k, last);
    BitsIncrease(last, k);
    var q := LeastFactor(n);
    assert q != 2 && q != 3 && q != 4 by { assert Divides(2, 4); ProperDivisor(2, 4); }
    assert p * q == q * p;
    if p <= q { Scale(q, p, q); Scale(p, p, q); }
    NoPrimeBetween(i, q);
  }

  /** A prime that ends the loop of block_resieve: its bit lies before the block and its square
      after it. */
  ghost predicate StopsBlock(stop: nat, lo: nat, limbs: nat) {
    5 <= stop <= LIMB_BITS * lo && 0 < limbs && IsPrime(IdToN(stop)) && PastBlock(stop, lo, limbs)
  }

  /** The square of id_to_n(i) lies past the block. */
  ghost predicate PastBlock(i: nat, lo: nat, limbs: nat)
    requires 0 < limbs
  {
    var p := IdToN(i);
    BitToN(LIMB_BITS * (lo + limbs) - 1) < p * p
  }

  /** A block sieved with the primes up to r, after limbs that are sieved completely. */
  ghost predicate InProgress(a: seq<Limb>, lo: nat, limbs: nat, r: nat) {
    Sieved(a, LIMB_BITS * lo) && BlockSound(a, lo, limbs) && BlockComplete(a, lo, limbs, r)
  }

  /** block_resieve: sieve limbs lo .. lo + limbs - 1 with the primes found in the limbs before. */
  method BlockResieve(a: array<Limb>, lo: nat, limbs: nat, ghost stop: nat)
    requires 0 < limbs && lo + limbs <= a.Length
    requires Sieved(a[..], LIMB_BITS * lo) && StopsBlock(stop, lo, limbs)
    modifies a
    ensures Sieved(a[..], LIMB_BITS * (lo + limbs))
    ensures SameOutside(a[..], old(a[..]), lo, limbs)
  {
    var i := PresieveBlock(a, lo, limbs);
    var mask, sieve, done := OneHot(i), 0, false;
    while !done
      invariant 4 <= i <= stop
      invariant SameOutside(a[..], old(a[..]), lo, limbs)
      invariant if done then Sieved(a[..], LIMB_BITS * (lo + limbs)) else i < stop && LoopState(a[..], lo, limbs, i, mask, sieve)
      decreases stop - i, !done
    {
      i := i + 1;
      ghost var before := a[..];
      mask, sieve, done := Candidate(a, lo, limbs, i, mask, sieve, stop);
      SameOutsideTransitive(a[..], before, old(a[..]), lo, limbs);
    }
  }

  /** Fill the block with the pattern of the multiples of 5, 7, 11 and 13. */
  method PresieveBlock(a: array<Limb>, lo: nat, limbs: nat) returns (i: nat)
    requires 0 < limbs && lo + limbs <= a.Length && 0 < lo && Sieved(a[..], LIMB_BITS * lo)
    modifies a
    ensures i == 4 && InProgress(a[..], lo, limbs, IdToN(i))
    ensures SameOutside(a[..], old(a[..]), lo, limbs)
  {
    i := FillBitpattern(a, lo, limbs, LIMB_BITS * lo);
    assert SameOutside(a[..], old(a[..]), lo, limbs);
    SievedBefore(old(a[..]), a[..], lo, limbs);
    PresievedBlock(a[..], lo, limbs);
  }

  lemma SameOutsideTransitive(a: seq<Limb>, b: seq<Limb>, c: seq<Limb>, lo: nat, limbs: nat)
    requires SameOutside(a, b, lo, limbs) && SameOutside(b, c, lo, limbs)
    ensures SameOutside(a, c, lo, limbs)
  {}

  /** Between rounds the mask and the sieve pointer select the bit of candidate i + 1. */
  ghost predicate LoopState(a: seq<Limb>, lo: nat, limbs: nat, i: nat, mask: Limb, sieve: nat) {
    mask == OneHot(i % LIMB_BITS) && sieve == i / LIMB_BITS && InProgress(a, lo, limbs, IdToN(i))
  }

  /** One round of the loop of block_resieve. */
  method Candidate(a: array<Limb>, lo: nat, limbs: nat, i: nat, mask: Limb, sieve: nat, ghost stop: nat)
    returns (mask': Limb, sieve': nat, done: bool)
    requires 0 < limbs && lo + limbs <= a.Length && 5 <= i <= stop && StopsBlock(stop, lo, limbs)
    requires LoopState(a[..], lo, limbs, i - 1, mask, sieve)
    modifies a
    ensures SameOutside(a[..], old(a[..]), lo, limbs)
    ensures if done then Sieved(a[..], LIMB_BITS * (lo + limbs)) else i < stop && LoopState(a[..], lo, limbs, i, mask', sieve')
  {
    mask', sieve', done := mask, sieve, false;
    TestBit(a[..], i - 1, LIMB_BITS * lo);
    if DisjointLimbs(a[sieve], mask) {
      done := SieveWith(a, lo, limbs, i);
      if done {
        BlockFinished(old(a[..]), lo, limbs, i);
        return;
      }
      NotLast(i, stop, lo, limbs);
    } else {
      SkipComposite(a[..], lo, limbs, i);
    }
    MaskWraps(i - 1);
    mask' := Or(Shl(mask, 1), Shr(mask, LIMB_BITS - 1));
    sieve' := sieve + (if mask'[0] then 1 else 0);
  }

  lemma NotLast(i: nat, stop: nat, lo: nat, limbs: nat)
    requires StopsBlock(stop, lo, limbs) && !PastBlock(i, lo, limbs)
    ensures i != stop
  {}

  /** The body of the loop for a prime candidate: done when its square is past the block. */
  method SieveWith(a: array<Limb>, lo: nat, limbs: nat, i: nat) returns (done: bool)
    requires 0 < limbs && lo + limbs <= a.Length && 5 <= i && IsPrime(IdToN(i))
    requires InProgress(a[..], lo, limbs, IdToN(i - 1))
    modifies a
    ensures SameOutside(a[..], old(a[..]), lo, limbs)
    ensures done <==> PastBlock(i, lo, limbs)
    ensures if done then a[..] == old(a[..]) else InProgress(a[..], lo, limbs, IdToN(i))
  {
    var off, bits := LIMB_BITS * lo, LIMB_BITS * limbs - 1;
    var lindex := SquareBit(i);
    BitsIncrease(bits + off, lindex);
    if lindex > bits + off { return true; }
    ghost var before := a[..];
    StrikeMultiples(a, lo, limbs, i, lindex);
    MarkedBlock(before, a[..], lo, limbs, i);
    SievedBefore(before, a[..], lo, limbs);
    return false;
  }

  /** The bit of a candidate's square, by the closed form. */
  method SquareBit(i: nat) returns (lindex: nat)
    requires 0 < i
    ensures BitToN(lindex) == IdToN(i) * IdToN(i)
  {
    var step := IdToN(i);
    Scale(i, 1, step + 1);
    lindex := i * (step + 1) - 1 + (if i % 2 == 1 then i + 1 else 0);
    SquareStart(i, lindex);
  }

  lemma SquareStart(i: nat, square: nat)
    requires 0 < i && square == i * (IdToN(i) + 1) - 1 + (if i % 2 == 1 then i + 1 else 0)
    ensures BitToN(square) == IdToN(i) * IdToN(i)
  {
    ClosedForms(i, square, i * (i * 3 + 6) + i % 2);
  }

  lemma SievedBefore(orig: seq<Limb>, a: seq<Limb>, lo: nat, limbs: nat)
    requires Sieved(orig, LIMB_BITS * lo) && SameOutside(a, orig, lo, limbs)
    ensures Sieved(a, LIMB_BITS * lo)
  {
    forall k | 0 <= k < LIMB_BITS * lo
      ensures Bit(a, k) == Bit(orig, k)
    {
    }
  }

  /** Testing a sieve limb with the one-bit mask asks whether the candidate is prime. */
  lemma TestBit(a: seq<Limb>, b: nat, m: nat)
    requires Sieved(a, m) && b < m
    ensures DisjointLimbs(a[b / LIMB_BITS], OneHot(b % LIMB_BITS)) <==> IsPrime(IdToN(b + 1))
  {
    IdOfBit(b);
    assert Bit(a, b) <==> !IsPrime(BitToN(b));
    assert OneHot(b % LIMB_BITS)[b % LIMB_BITS];
  }

  /** The rotated mask selects the next bit, wrapping into the next limb. */
  lemma MaskWraps(b: nat)
    ensures var m := OneHot(b % LIMB_BITS);
      && Or(Shl(m, 1), Shr(m, LIMB_BITS - 1)) == OneHot((b + 1) % LIMB_BITS)
      && (b + 1) / LIMB_BITS == b / LIMB_BITS + (if OneHot((b + 1) % LIMB_BITS)[0] then 1 else 0)
  {
    MaskFollows(b, 1);
  }

  lemma SkipComposite(a: seq<Limb>, lo: nat, limbs: nat, i: nat)
    requires 5 <= i && !IsPrime(IdToN(i)) && BlockComplete(a, lo, limbs, IdToN(i - 1))
    ensures BlockComplete(a, lo, limbs, IdToN(i))
  {
    forall k | LIMB_BITS * lo <= k < LIMB_BITS * (lo + limbs) && HasFactorUpTo(BitToN(k), IdToN(i))
      ensures HasFactorUpTo(BitToN(k), IdToN(i - 1))
    {
      var q :| 5 <= q <= IdToN(i) && IsPrime(q) && Divides(q, BitToN(k)) && q * q <= BitToN(k);
      NoPrimeBetween(i, q);
    }
  }

  // ---------------------------------------------------------------- the whole sieve

  /** PRIMESIEVE_NUMBEROF_TABLE for 64-bit limbs. */
  const TABLE_LIMBS: nat := 28

  const BLOCK_SIZE: nat := 2048

  /** primesieve_size. */
  function SieveSize(n: nat): nat
    requires 5 <= n
  {
    NFtoBit(n) / LIMB_BITS + 1
  }

  /** mpn_popcount: how many of the first m bits are set. */
  function PopCount(a: seq<Limb>, m: nat): nat
    requires m <= LIMB_BITS * |a|
  {
    if m == 0 then 0 else PopCount(a, m - 1) + (if Bit(a, m - 1) then 1 else 0)
  }

  /** The primes from 5 up to, and not including, the number of bit m. */
  ghost function PrimesBelowBit(m: nat): set<int> { set p: int | 4 <= p < BitToN(m) && IsPrime(p) }

  ghost function PrimesFrom4(n: nat): set<int> { set p: int | 4 <= p <= n && IsPrime(p) }

  lemma {:induction false} ClearBitsArePrimes(a: seq<Limb>, m: nat)
    requires Sieved(a, m)
    ensures m - PopCount(a, m) == |PrimesBelowBit(m)|
  {
    if m == 0 {
      assert PrimesBelowBit(0) == {} by { ProperDivisor(2, 4); }
    } else {
      ClearBitsArePrimes(a, m - 1);
      NextBitsPrimes(m - 1);
      assert Bit(a, m - 1) <==> !IsPrime(BitToN(m - 1));
    }
  }

  lemma NextBitsPrimes(m: nat)
    ensures |PrimesBelowBit(m + 1)| == |PrimesBelowBit(m)| + (if IsPrime(BitToN(m)) then 1 else 0)
  {
    var n := BitToN(m);
    BitsAreCoprime(m);
    forall p | n < p < BitToN(m + 1)
      ensures !IsPrime(p)
    {
      BetweenBits(m, p);
      if IsPrime(p) { PrimeIsCoprime(p); }
    }
    if IsPrime(n) {
      assert PrimesBelowBit(m + 1) == PrimesBelowBit(m) + {n};
    } else {
      assert PrimesBelowBit(m + 1) == PrimesBelowBit(m);
    }
  }

  lemma PrimesUpToLastBit(n: nat)
    requires 5 <= n
    ensures PrimesBelowBit(NFtoBit(n) + 1) == PrimesFrom4(n)
  {
    var b := NFtoBit(n);
    BitOfNumber(n, b);
    BitOfNumber(n, b + 1);
    forall p | n < p < BitToN(b + 1)
      ensures !IsPrime(p)
    {
      BetweenBits(b, p);
      if IsPrime(p) { PrimeIsCoprime(p); }
    }
  }

  lemma {:induction false} HighBitsCounted(a: seq<Limb>, m: nat, top: nat)
    requires m <= top <= LIMB_BITS * |a| && forall k :: m <= k < top ==> Bit(a, k)
    ensures PopCount(a, top) == PopCount(a, m) + (top - m)
  {
    if m < top { HighBitsCounted(a, m, top - 1); }
  }

  /** The loop of block_resieve stops within the limbs sieved before, for the first block after the
      presieved table and for every later block. */
  lemma StopExists(lo: nat, limbs: nat) returns (stop: nat)
    requires 0 < limbs
    requires (lo == TABLE_LIMBS && lo + limbs <= 2 * BLOCK_SIZE) || (BLOCK_SIZE <= lo && limbs <= lo)
    ensures StopsBlock(stop, lo, limbs)
  {
    if lo == TABLE_LIMBS {
      stop := 302;
      PrimeIs907();
      BitsIncrease(LIMB_BITS * (lo + limbs) - 1, LIMB_BITS * (2 * BLOCK_SIZE) - 1);
      LastNumber(lo + limbs);
    } else {
      var m := 96 * lo;
      var p := PrimeGaps.PrimeBetween(m);
      LastNumber(lo + limbs);
      assert p >= 20 by { if p < 20 { Scale(p, p, 20); Scale(20, p, 20); } }
      stop := StopOfPrime(p, lo);
    }
  }

  lemma LastNumber(top: nat)
    requires 0 < top
    ensures BitToN(LIMB_BITS * top - 1) == 192 * top + 1
  {
    BitForm(32 * top - 1);
  }

  lemma StopOfPrime(p: nat, lo: nat) returns (stop: nat)
    requires IsPrime(p) && 20 <= p <= 192 * lo
    ensures 5 <= stop <= LIMB_BITS * lo && IdToN(stop) == p
  {
    PrimeIsCoprime(p);
    BitIsDefined(p);
    var b := NFtoBit(p);
    IdOfBit(b);
    stop := b + 1;
    BitForm(32 * lo);
    BitsIncrease(b, LIMB_BITS * lo);
    BitsIncrease(3, b);
  }

  lemma PrimeIs907()
    ensures IsPrime(907) && IdToN(302) == 907
  {
    forall m | 2 <= m < 31
      ensures !Divides(m, 907)
    {
      if m % 2 == 0 || m % 3 == 0 {
        GenSieve.SkippedDivisor(907, m);
      } else {
        assert m == 5 || m == 7 || m == 11 || m == 13 || m == 17 || m == 19 || m == 23 || m == 25 || m == 29;
      }
    }
    GenSieve.RootReached(907, 31);
  }

  /** The bits up to n's are clear exactly for the primes; the rest of the last limb is set. */
  ghost predicate PrimesAreClear(a: seq<Limb>, n: nat)
    requires 5 <= n
  {
    && SieveSize(n) <= |a|
    && (forall b :: 0 <= b <= NFtoBit(n) ==> (Bit(a, b) <==> !IsPrime(BitToN(b))))
    && (forall b :: NFtoBit(n) < b < LIMB_BITS * SieveSize(n) ==> Bit(a, b))
  }

  /** gmp_primesieve: sieve up to n and count the primes in [4, n]. */
  method GmpPrimesieve(a: array<Limb>, n: nat) returns (count: nat)
    requires 4 < n && SieveSize(n) <= a.Length
    modifies a
    ensures PrimesAreClear(a[..], n)
    ensures count == |PrimesFrom4(n)|
    ensures SameTail(a[..], old(a[..]), SieveSize(n))
  {
    var bits := NFtoBit(n);
    var size := bits / LIMB_BITS + 1;
    SieveLimbs(a, size);
    ghost var sieved := a[..];
    if (bits + 1) % LIMB_BITS != 0 {
      a[size - 1] := Or(a[size - 1], HighOnes((bits + 1) % LIMB_BITS));
    }
    TailIsSet(sieved, a[..], n);
    CountIsRight(a[..], n);
    count := size * LIMB_BITS - PopCount(a[..], LIMB_BITS * size);
  }

  /** Nothing from limb size on differs. */
  ghost predicate SameTail(a: seq<Limb>, b: seq<Limb>, size: nat) {
    |a| == |b| && forall j :: size <= j < |a| ==> a[j] == b[j]
  }

  /** The part of gmp_primesieve before the bits past n are set. */
  method SieveLimbs(a: array<Limb>, size: nat)
    requires 0 < size <= a.Length
    modifies a
    ensures Sieved(a[..], LIMB_BITS * size)
    ensures SameTail(a[..], old(a[..]), size)
  {
    var lim := if size < TABLE_LIMBS then size else TABLE_LIMBS;
    CopyTable(a, lim);
    if size > TABLE_LIMBS {
      SieveBlocks(a, size);
    }
  }

  /** Start from the presieved table. */
  method CopyTable(a: array<Limb>, lim: nat)
    requires lim <= TABLE_LIMBS && lim <= a.Length
    modifies a
    ensures Sieved(a[..], LIMB_BITS * lim) && SameTail(a[..], old(a[..]), lim)
  {
    var presieved := GenSieve.Generate(LIMB_BITS * TABLE_LIMBS);
    for j := 0 to lim
      invariant forall i :: 0 <= i < j ==> a[i] == presieved[i]
      invariant forall i :: j <= i < a.Length ==> a[i] == old(a[i])
    {
      a[j] := presieved[j];
    }
    CopiedTable(presieved, a[..], lim);
  }

  /** A first block of any length, then whole blocks. */
  method SieveBlocks(a: array<Limb>, size: nat)
    requires TABLE_LIMBS < size <= a.Length && Sieved(a[..], LIMB_BITS * TABLE_LIMBS)
    modifies a
    ensures Sieved(a[..], LIMB_BITS * size) && SameTail(a[..], old(a[..]), size)
  {
    var off := FirstEnd(size);
    ghost var left := BlocksFit(size, off);
    ghost var stop := StopExists(TABLE_LIMBS, off - TABLE_LIMBS);
    BlockResieve(a, TABLE_LIMBS, off - TABLE_LIMBS, stop);
    SieveWholeBlocks(a, off, size, left);
  }

  /** The loop over whole blocks. */
  method SieveWholeBlocks(a: array<Limb>, start: nat, size: nat, ghost blocks: nat)
    requires TABLE_LIMBS < start <= size <= a.Length && Sieved(a[..], LIMB_BITS * start)
    requires size - start == BLOCK_SIZE * blocks && (0 < blocks ==> BLOCK_SIZE <= start)
    modifies a
    ensures Sieved(a[..], LIMB_BITS * size) && SameTail(a[..], old(a[..]), size)
  {
    var off := start;
    ghost var left := blocks;
    while off < size
      invariant TABLE_LIMBS < off && Sieved(a[..], LIMB_BITS * off)
      invariant size - off == BLOCK_SIZE * left && (0 < left ==> BLOCK_SIZE <= off)
      invariant SameTail(a[..], old(a[..]), size)
      decreases size - off
    {
      ghost var stop := StopExists(off, BLOCK_SIZE);
      NextBlock(a, off, size, stop);
      off := off + BLOCK_SIZE;
      left := left - 1;
    }
  }

  /** Where the first block ends: it takes what does not fill whole blocks. */
  function FirstEnd(size: nat): nat {
    if size > 2 * BLOCK_SIZE then BLOCK_SIZE + size % BLOCK_SIZE else size
  }

  /** One more whole block. */
  method NextBlock(a: array<Limb>, off: nat, size: nat, ghost stop: nat)
    requires off + BLOCK_SIZE <= size <= a.Length
    requires Sieved(a[..], LIMB_BITS * off) && StopsBlock(stop, off, BLOCK_SIZE)
    modifies a
    ensures Sieved(a[..], LIMB_BITS * (off + BLOCK_SIZE)) && SameTail(a[..], old(a[..]), size)
  {
    BlockResieve(a, off, BLOCK_SIZE, stop);
  }

  lemma BlocksFit(size: nat, off: nat) returns (left: nat)
    requires TABLE_LIMBS < size
    requires off == FirstEnd(size)
    ensures TABLE_LIMBS < off <= size && off <= 2 * BLOCK_SIZE
    ensures size - off == BLOCK_SIZE * left && (0 < left ==> BLOCK_SIZE <= off)
  {
    left := if size > 2 * BLOCK_SIZE then size / BLOCK_SIZE - 1 else 0;
  }

  lemma CopiedTable(table: seq<Limb>, a: seq<Limb>, lim: nat)
    requires Sieved(table, LIMB_BITS * |table|) && lim <= |table| && lim <= |a|
    requires forall i :: 0 <= i < lim ==> a[i] == table[i]
    ensures Sieved(a, LIMB_BITS * lim)
  {
    forall k | 0 <= k < LIMB_BITS * lim
      ensures Bit(a, k) == Bit(table, k)
    {
    }
  }

  lemma TailIsSet(before: seq<Limb>, after: seq<Limb>, n: nat)
    requires 5 <= n && SieveSize(n) <= |before| && Sieved(before, LIMB_BITS * SieveSize(n))
    requires var e, s := (NFtoBit(n) + 1) % LIMB_BITS, SieveSize(n);
      after == if e != 0 then before[s - 1 := Or(before[s - 1], HighOnes(e))] else before
    ensures PrimesAreClear(after, n)
  {
    forall b | 0 <= b < LIMB_BITS * SieveSize(n)
      ensures Bit(after, b) <==> Bit(before, b) || NFtoBit(n) < b
    {
      TailBit(before, NFtoBit(n), b);
    }
  }

  lemma TailBit(before: seq<Limb>, bits: nat, b: nat)
    requires bits / LIMB_BITS + 1 <= |before| && b < LIMB_BITS * (bits / LIMB_BITS + 1)
    ensures var e, j := (bits + 1) % LIMB_BITS, bits / LIMB_BITS;
      var after := if e != 0 then before[j := Or(before[j], HighOnes(e))] else before;
      Bit(after, b) <==> Bit(before, b) || bits < b
  {
    var q, t := bits / LIMB_BITS, bits % LIMB_BITS;
    assert bits == LIMB_BITS * q + t;
    if t == LIMB_BITS - 1 {
      MultipleModulo(LIMB_BITS, q + 1, 0);
    } else {
      MultipleModulo(LIMB_BITS, q, t + 1);
    }
  }

  lemma CountIsRight(a: seq<Limb>, n: nat)
    requires 5 <= n && PrimesAreClear(a, n)
    ensures LIMB_BITS * SieveSize(n) - PopCount(a, LIMB_BITS * SieveSize(n)) == |PrimesFrom4(n)|
  {
    var m := NFtoBit(n) + 1;
    ClearBitsArePrimes(a, m);
    PrimesUpToLastBit(n);
    HighBitsCounted(a, m, LIMB_BITS * SieveSize(n));
  }
}
