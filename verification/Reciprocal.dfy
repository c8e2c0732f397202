/** Exact division by a precomputed reciprocal: the macros of gmp-impl.h and the schoolbook
    division __udiv_qrnnd_c of longlong.h that bootstraps them.  Each guesses a quotient modulo B
    and repairs it with masks and wrap-around comparisons. */
module Reciprocal {
  import opened Limbs

  // ---------------------------------------------------------------- schoolbook division

  /** One half-word step of __udiv_qrnnd_c: divide n1 * b + nh by d == d1 * b + d0. */
  method HalfStep(b: nat, B: nat, d: nat, d1: nat, d0: nat, n1: nat, nh: nat) returns (q: nat, r: nat)
    requires Word(b, B) && 0 < d1 < b && d0 < b && nh < b && d == d1 * b + d0
    requires Normalised(B, d) && n1 < d
    ensures q < b && r < d
    ensures q * d + r == n1 * b + nh
  {
    var m;
    q, r, m := HalfGuess(b, B, d, d1, d0, n1, nh);
    ghost var q0, r0 := q, r;
    q, r := CorrectDown(B, d, q, r, m);
    Recombine(d, q0, q, r0, m, r);
    QuotientFits(b, d, n1, nh, q, r);
  }

  /** The guess of a half-word step, from the upper half of the divisor alone: what it leaves is off by the
      product m with the lower half. */
  method HalfGuess(b: nat, B: nat, d: nat, d1: nat, d0: nat, n1: nat, nh: nat) returns (q: nat, r: nat, m: nat)
    requires Word(b, B) && 0 < d1 < b && d0 < b && nh < b && d == d1 * b + d0
    requires Normalised(B, d) && n1 < d
    ensures r < d && m < B && q * d + r == n1 * b + nh + m
    ensures (r < m ==> 1 <= q) && (r + d < m ==> 2 <= q)
  {
    q, r := DivideLimb(n1, d1);
    GuessBound(b, B, d, d1, d0, n1, q, r);
    GuessedRemainder(b, B, d, d1, d0, nh, r);
    GuessedProduct(b, B, d, d0, q);
    Regroup(b, d, d1, d0, n1, q, r);
    m, r := Guessed(B, d, q * d0, r * b, nh, q * d, n1 * b, q);
  }

  /** The same with the products as numbers: the two wraps change nothing. */
  method Guessed(B: nat, d: nat, m0: int, r0: int, nh: nat, ghost qd: int, ghost nb: int, ghost q: int)
    returns (m: nat, r: nat)
    requires 2 <= B && d < B && 0 <= m0 < B && 0 <= r0 && r0 + nh < d && m0 <= 2 * d - 1
    requires nb == qd + r0 - m0 && (0 < m0 ==> 1 <= q) && (d < m0 ==> 2 <= q)
    ensures r < d && m < B && qd + r == nb + nh + m
    ensures (r < m ==> 1 <= q) && (r + d < m ==> 2 <= q)
  {
    SmallWrap(B, m0);
    SmallWrap(B, r0);
    m := Wrap(B, m0);
    r := Wrap(B, r0) + nh;
  }

  lemma SmallWrap(B: nat, x: int)
    requires 2 <= B && 0 <= x < B
    ensures Wrap(B, x) == x
  {
    WrapUnique(B, x, 0, x);
  }

  lemma Recombine(d: int, q0: int, q: int, r0: int, m: int, r: int)
    requires 0 <= q0 - q <= 2
    requires r == r0 - m + (if q0 - q == 0 then 0 else if q0 - q == 1 then d else d + d)
    ensures q * d + r == q0 * d + r0 - m
  {
    assert q * d == q0 * d - (q0 - q) * d;
  }

  /** The two nested downward corrections and the subtraction of __m. */
  method CorrectDown(B: nat, d: nat, q0: nat, r0: nat, m: nat) returns (q: nat, r: nat)
    requires 2 <= B <= 2 * d && d < B && r0 < d && m < B
    requires r0 < m ==> 1 <= q0
    requires r0 + d < m ==> 2 <= q0
    ensures r < d && 0 <= q0 - q <= 2
    ensures r == r0 - m + (if q0 - q == 0 then 0 else if q0 - q == 1 then d else d + d)
  {
    q, r := q0, r0;
    if r < m {
      WrapSum(B, r, d);
      q, r := q - 1, Wrap(B, r + d);
      if d <= r { // the sum did not wrap
        if r < m {
          WrapSum(B, r, d);
          q, r := q - 1, Wrap(B, r + d);
        }
      }
    }
    ghost var rt := r0 - m + (if q0 - q == 0 then 0 else if q0 - q == 1 then d else d + d);
    WrapUnique(B, r - m, if r - m == rt then 0 else -1, rt);
    r := Wrap(B, r - m);
  }

  /** Wrapping the sum of two limbs subtracts B at most once. */
  lemma WrapSum(B: nat, x: nat, y: nat)
    requires 2 <= B && x < B && y < B
    ensures Wrap(B, x + y) == if x + y < B then x + y else x + y - B
  {
    WrapUnique(B, x + y, if x + y < B then 0 else 1, if x + y < B then x + y else x + y - B);
  }

  /** One machine division, and the remainder by multiplying back. */
  method DivideLimb(n: nat, d: nat) returns (q: nat, r: nat)
    requires 0 < d
    ensures n == q * d + r && r < d
  {
    QuotientRemainder(n, d, n / d);
    q := n / d;
    r := n - q * d;
  }

  lemma GuessBound(b: nat, B: nat, d: nat, d1: nat, d0: nat, n1: nat, q: nat, r: nat)
    requires Word(b, B) && 0 < d1 < b && d0 < b && d == d1 * b + d0
    requires Normalised(B, d) && n1 < d && n1 == q * d1 + r
    ensures q <= b + 1
  {
    assert b <= 2 * d1 by {
      assert (2 * d1 + 2) * b == 2 * (d1 * b) + 2 * b;
      if 2 * d1 + 2 <= b { MulMono(2 * d1 + 2, b, b); }
    }
    assert (b + 2) * d1 == d1 * b + 2 * d1;
    if b + 2 <= q { MulMono(b + 2, q, d1); }
  }

  lemma QuotientRemainder(n: int, d: int, q: int)
    requires 0 < d && 0 <= n && q == n / d
    ensures 0 <= n - q * d < d && 0 <= q
  {
    assert n == (n / d) * d + n % d;
    if q < 0 { MulMono(q, -1, d); }
  }

  lemma GuessedRemainder(b: nat, B: nat, d: nat, d1: nat, d0: nat, nh: nat, r: int)
    requires 0 <= r < d1 && nh < b && d == d1 * b + d0 && d < B
    ensures 0 <= r * b && r * b + nh < d
  {
    MulNonNegative(r, b);
    MulStrict(r, d1, b);
  }

  lemma GuessedProduct(b: nat, B: nat, d: nat, d0: nat, q: nat)
    requires Word(b, B) && d0 < b && Normalised(B, d) && q <= b + 1 && d0 <= d
    ensures 0 <= q * d0 < B && q * d0 <= 2 * d - 1
    ensures q * d0 <= q * d
    ensures 0 < q * d0 ==> 1 <= q
    ensures d < q * d0 ==> 2 <= q
  {
    MulNonNegative(q, d0);
    MulMono(q, b + 1, d0);
    MulMono(d0, b - 1, b + 1);
    assert (b + 1) * d0 == d0 * (b + 1);
    assert (b - 1) * (b + 1) == b * b - 1;
    MulMono(d0, d, q);
    assert d0 * q == q * d0 && d * q == q * d;
  }

  lemma Regroup(b: int, d: int, d1: int, d0: int, n1: int, q: int, r: int)
    requires n1 == q * d1 + r && d == d1 * b + d0
    ensures n1 * b == q * d + r * b - q * d0
  {
    assert (q * d1 + r) * b == (q * d1) * b + r * b;
    assert (q * d1) * b == q * (d1 * b);
    assert q * (d1 * b + d0) == q * (d1 * b) + q * d0;
  }

  lemma QuotientFits(B: nat, d: nat, nh: nat, nl: nat, q: int, r: int)
    requires 0 < d && nh < d && nl < B && 0 <= r && q * d + r == nh * B + nl
    ensures q < B
  {
    MulStrict(nh, d, B);
    assert d * B == B * d;
    if B <= q { MulMono(B, q, d); }
  }

  /** longlong.h __udiv_qrnnd_c: schoolbook division of two limbs by a normalised limb. */
  method UdivQrnndC(b: nat, B: nat, n1: nat, n0: nat, d: nat) returns (q: nat, r: nat)
    requires Word(b, B) && Normalised(B, d) && n1 < d && n0 < B
    ensures q < B && r < d
    ensures q * d + r == n1 * B + n0
  {
    HalvesBound(b, B, d); HalvesBound(b, B, n0);
    var d1, d0 := d / b, d % b;
    assert 0 < d1 by { if d1 == 0 { BaseGrows(b); } }
    var q1, r1 := HalfStep(b, B, d, d1, d0, n1, n0 / b);
    var q0, r0 := HalfStep(b, B, d, d1, d0, r1, n0 % b);
    LowHalf(b, B, q1, q0);
    q, r := q1 * b + q0, r0;
    Regroup2(b, n1, n0 / b, n0 % b, q1, q0, r1, r0, d);
  }

  lemma Regroup2(b: int, n1: int, nh: int, nl: int, q1: int, q0: int, r1: int, r0: int, d: int)
    requires q1 * d + r1 == n1 * b + nh && q0 * d + r0 == r1 * b + nl
    ensures (q1 * b + q0) * d + r0 == n1 * (b * b) + (nh * b + nl)
  {
    assert (q1 * d + r1) * b == (n1 * b + nh) * b;
    assert (q1 * d + r1) * b == (q1 * b) * d + r1 * b;
    assert (n1 * b + nh) * b == n1 * (b * b) + nh * b;
    assert (q1 * b + q0) * d == (q1 * b) * d + q0 * d;
  }

  // ---------------------------------------------------------------- reciprocals

  /** The reciprocal of a normalised limb. */
  ghost predicate IsReciprocal(B: nat, d: nat, v: int) {
    0 <= v < B && (B + v) * d <= B * B - 1 < (B + v + 1) * d
  }

  /** The reciprocal of a normalised limb pair. */
  ghost predicate IsReciprocal2(B: nat, d: nat, v: int) {
    0 <= v < B && (B + v) * d <= B * B * B - 1 < (B + v + 1) * d
  }

  /** gmp-impl.h invert_limb: floor((B^2 - 1) / x) - B, by one schoolbook division of (~x, ~0). */
  method InvertLimb(b: nat, B: nat, x: nat) returns (inv: nat)
    requires Word(b, B) && Normalised(B, x)
    ensures inv == (B * B - 1) / x - B
    ensures IsReciprocal(B, x, inv)
  {
    BaseGrows(b);
    var r;
    inv, r := UdivQrnndC(b, B, B - 1 - x, B - 1, x);
    assert (B - 1 - x) * B == B * B - B - x * B;
    assert (B + inv) * x == x * B + inv * x;
    assert (B + inv + 1) * x == (B + inv) * x + x;
    DivModUnique(B * B - 1, x, B + inv, r);
  }

  // ---------------------------------------------------------------- two limbs by one

  /** Where the candidate remainder rt == n - (q1 + 1) * d of a 2/1 division can lie, for
      nh <= d: at least -d; recognisably negative by comparing it modulo B with the low product
      limb q0; and when it is not below q0 it is below B - d, so a needless decrement cannot wrap. */
  lemma CandidateRange(B: int, d: int, v: int, nh: int, nl: int, q1: int, q0: int) returns (rt: int)
    requires 0 < d < B <= 2 * d && 0 <= nh <= d && 0 <= nl < B
    requires 1 <= B * B - (B + v) * d <= d
    requires nh * (B + v) + nl == q1 * B + q0 && 0 <= q0 < B
    ensures rt == nh * B + nl - (q1 + 1) * d
    ensures -d <= rt < B
    ensures rt < 0 ==> q0 < rt + B
    ensures q0 <= rt ==> rt < B - d
    ensures nl == 0 ==> rt < d && (0 <= rt ==> rt < q0)
  {
    rt := nh * B + nl - (q1 + 1) * d;
    var k := B * B - (B + v) * d;
    CandidateIdentity(B, d, v, nh, nl, q1, q0, k, rt);
    assert 0 <= nh * k <= d * d by {
      MulNonNegative(nh, k); MulMono(nh, d, k); MulMono(k, d, d);
      assert d * k == k * d;
    }
    assert 0 <= nl * (B - d) <= B * (B - d) - (B - d) by {
      MulNonNegative(nl, B - d); MulMono(nl, B - 1, B - d);
      assert (B - 1) * (B - d) == B * (B - d) - (B - d);
    }
    FromBelow(B, d, q0, rt);
    assert B * rt < (B - d) * (B - d) + q0 * d by {
      assert (B - d) * (B - d) == B * (B - d) - B * d + d * d;
    }
    FromAbove(B, d, q0, rt);
    if nl == 0 { LowLimbZero(B, d, nh * k, q0, rt); }
  }

  lemma FromBelow(B: int, d: int, q0: int, rt: int)
    requires 0 < d < B && 0 <= q0 < B
    requires B * rt >= q0 * d - B * d
    ensures -d <= rt && q0 < rt + B
  {
    MulNonNegative(q0, d);
    if rt + d < 0 { MulMono(rt + d, -1, B); }
    assert (rt + d) * B == B * rt + B * d;
    assert B * (rt + B - q0) == B * rt + B * B - B * q0;
    assert (B - d) * (B - q0) == B * B - B * q0 - B * d + q0 * d;
    MulStrict(0, B - d, B - q0);
    if rt + B - q0 <= 0 { MulMono(rt + B - q0, 0, B); }
    assert (rt + B - q0) * B == B * (rt + B - q0);
  }

  /** B * rt below (B - d)^2 + q0 * d keeps rt below the larger of B - d and q0. */
  lemma FromAbove(B: int, d: int, q0: int, rt: int)
    requires 0 < d < B
    requires B * rt < (B - d) * (B - d) + q0 * d
    ensures rt < B - d || rt < q0
  {
    assert B * rt == rt * (B - d) + rt * d;
    if B - d <= rt && q0 <= rt {
      MulMono(B - d, rt, B - d);
      MulMono(q0, rt, d);
    }
  }

  lemma LowLimbZero(B: int, d: int, nhk: int, q0: int, rt: int)
    requires 0 < d < B && 0 <= q0 < B && nhk <= d * d
    requires B * rt == nhk + q0 * d - B * d
    ensures rt < d && (0 <= rt ==> rt < q0)
  {
    MulMono(q0, B - 1, d);
    MulStrict(d, B, d);
    assert (B - 1) * d == B * d - d;
    if d <= rt { MulMono(d, rt, B); }
    assert d * B == B * d && rt * B == B * rt;
    MulNonNegative(B - d, q0);
    assert (B - d) * q0 == B * q0 - q0 * d;
    if q0 <= rt { MulMono(q0, rt, B); }
    assert q0 * B == B * q0;
  }

  lemma CandidateIdentity(B: int, d: int, v: int, nh: int, nl: int, q1: int, q0: int, k: int, rt: int)
    requires k == B * B - (B + v) * d && nh * (B + v) + nl == q1 * B + q0
    requires rt == nh * B + nl - (q1 + 1) * d
    ensures B * rt == nh * k + nl * (B - d) + q0 * d - B * d
  {
    var n := nh * (B + v);
    assert B * rt == nh * (B * B) + nl * B - (q1 * B) * d - B * d by {
      assert B * (nh * B) == nh * (B * B);
      assert B * ((q1 + 1) * d) == (q1 * B) * d + B * d;
      assert B * rt == B * (nh * B) + B * nl - B * ((q1 + 1) * d);
    }
    assert (q1 * B) * d == n * d + nl * d - q0 * d;
    assert nh * k == nh * (B * B) - n * d by { assert nh * ((B + v) * d) == n * d; }
  }

  /** What umul_ppmm and add_ssaaaa leave in (_qh, _ql), for nh <= d: one more than the high limb
      of nh * (B + v) + nl, modulo B, and its low limb. */
  lemma CandidateLimbs(B: int, v: int, nh: int, nl: int, ph: int, pl: int, k: int, sh: int, sl: int)
    requires 0 < B && ph * B + pl == nh * v && 0 <= sl < B
    requires (ph * B + pl) + ((nh + 1) * B + nl) == k * (B * B) + (sh * B + sl)
    ensures nh * (B + v) + nl == (k * B + sh - 1) * B + sl
  {
    assert nh * (B + v) == nh * B + nh * v;
    assert (nh + 1) * B == nh * B + B;
    assert (k * B + sh - 1) * B == k * (B * B) + sh * B - B;
  }

  /** The remainder limb computed from the wrapped candidate is rt modulo B. */
  lemma CandidateRemainder(B: nat, d: nat, nh: int, nl: int, k: int, sh: int, rt: int)
    requires 2 <= B && 0 <= rt + B && rt < B
    requires rt == nh * B + nl - (k * B + sh) * d
    ensures Wrap(B, nl - sh * d) == if rt < 0 then rt + B else rt
  {
    assert (k * B + sh) * d == (k * d) * B + sh * d;
    var c := k * d - nh - (if rt < 0 then 1 else 0);
    var w := if rt < 0 then rt + B else rt;
    assert c * B == (k * d) * B - nh * B - (if rt < 0 then B else 0);
    WrapUnique(B, nl - sh * d, c, w);
  }

  /** Adding a mask limb, 0 or B-1, to a limb decrements it or leaves it, modulo B. */
  lemma MaskDecrements(B: nat, q: int, mask: bool)
    requires 2 <= B
    ensures Wrap(B, q + MaskLimb(B, mask)) == Wrap(B, q - (if mask then 1 else 0))
  {
    var k := WrapCongruent(B, q - (if mask then 1 else 0));
    var w := Wrap(B, q - (if mask then 1 else 0));
    assert (k + 1) * B == k * B + B;
    WrapUnique(B, q + MaskLimb(B, mask), k + (if mask then 1 else 0), w);
  }

  /** Wrapping twice is wrapping once. */
  lemma WrapStep(B: nat, q: int, delta: int, k: int, goal: int)
    requires 2 <= B && 0 <= goal < B
    requires q + delta == k * B + goal
    ensures Wrap(B, Wrap(B, q) + delta) == goal
    ensures delta == 0 ==> Wrap(B, q) == goal
  {
    var j := WrapCongruent(B, q);
    assert (k - j) * B == k * B - j * B;
    WrapUnique(B, Wrap(B, q) + delta, k - j, goal);
    if delta == 0 { WrapUnique(B, q, k, goal); }
  }

  lemma ReciprocalDefect(B: nat, d: nat, v: int)
    requires IsReciprocal(B, d, v)
    ensures 1 <= B * B - (B + v) * d <= d
  {
    assert (B + v + 1) * d == (B + v) * d + d;
  }

  /** What the opening lines of both 2/1 macros establish about the candidate quotient limb qh
      (equal to cand modulo B), the low product limb ql and the remainder limb r (equal to
      rt == n - cand * d modulo B). */
  ghost predicate Candidate(B: nat, d: nat, nh: nat, nl: nat, k: int, qh: nat, ql: nat, r: nat, cand: int, rt: int) {
    && cand == k * B + qh && qh < B
    && rt == nh * B + nl - cand * d
    && -(d as int) <= rt < B
    && r == (if rt < 0 then rt + B else rt)
    && (rt < 0 ==> ql < r)
    && (ql <= rt ==> rt < B - d)
    && (nl == 0 ==> rt < d && (0 <= rt ==> rt < ql))
  }

  lemma OpeningLines(B: nat, nh: nat, nl: nat, d: nat, di: nat, ph: nat, pl: nat, k: int, qh: nat, ql: nat)
    returns (cand: int, rt: int)
    requires 2 <= B && Normalised(B, d) && nh <= d && nl < B && IsReciprocal(B, d, di)
    requires ph * B + pl == nh * di && qh < B && ql < B
    requires (ph * B + pl) + ((nh + 1) * B + nl) == k * (B * B) + (qh * B + ql)
    ensures Candidate(B, d, nh, nl, k, qh, ql, Wrap(B, nl - qh * d), cand, rt)
  {
    ReciprocalDefect(B, d, di);
    CandidateLimbs(B, di, nh, nl, ph, pl, k, qh, ql);
    cand := k * B + qh;
    rt := CandidateRange(B, d, di, nh, nl, cand - 1, ql);
    CandidateRemainder(B, d, nh, nl, k, qh, rt);
  }

  /** The mask correction: the quotient limb and the remainder limb once _mask is applied. */
  method ApplyMask(B: nat, d: nat, qh: nat, ql: nat, r: nat, strict: bool, ghost rt: int) returns (mask: bool, q': nat, r': nat)
    requires 2 <= B && d < B && -(d as int) <= rt < B
    requires r == (if rt < 0 then rt + B else rt)
    requires (rt < 0 ==> ql < r) && (ql <= rt ==> rt < B - d)
    ensures mask == if strict then ql < r else ql <= r
    ensures q' == Wrap(B, qh - (if mask then 1 else 0))
    ensures r' == rt + (if mask then d else 0)
  {
    mask := if strict then r > ql else r >= ql;
    MaskDecrements(B, qh, mask);
    q' := Wrap(B, qh + MaskLimb(B, mask));
    WrapUnique(B, r + Masked(mask, d), if rt < 0 then 1 else 0, rt + (if mask then d else 0));
    r' := Wrap(B, r + Masked(mask, d));
  }

  /** Adding to the high limb only, where the low limb of the addend is known to be 0. */
  method AddHigh(B: nat, ah: nat, ghost al: nat, bh: nat) returns (sh: nat, ghost k: int)
    requires 2 <= B
    ensures sh == Wrap(B, ah + bh)
    ensures (ah * B + al) + (bh * B + 0) == k * (B * B) + (sh * B + al)
  {
    sh := Wrap(B, ah + bh);
    k := WrapCongruent(B, ah + bh);
    CarryLine(B, ah, bh, 0, k, sh, al, 0, al);
  }

  /** gmp-impl.h udiv_qrnnd_preinv: (nh, nl) divided by d.  constantLow says whether the compiler
      knows nl; if it does and nl is 0 the final correction is left out.  strict picks the
      comparison behind _mask: the source uses > and notes that >= would do as well. */
  method UdivQrnndPreinv(b: nat, B: nat, nh: nat, nl: nat, d: nat, di: nat, constantLow: bool, strict: bool) returns (q: nat, r: nat)
    requires Word(b, B) && Normalised(B, d) && nh < d && nl < B && IsReciprocal(B, d, di)
    ensures q < B && r < d
    ensures q * d + r == nh * B + nl
  {
    var qh, ql := UmulPpmm(b, B, nh, di);
    ghost var ph, pl, k := qh, ql, 0;
    if constantLow && nl == 0 {
      qh, k := AddHigh(B, qh, ql, nh + 1);
      r := Wrap(B, 0 - qh * d);
    } else {
      qh, ql, k := AddSsaaaa(B, qh, ql, nh + 1, nl);
      r := Wrap(B, nl - qh * d);
    }
    ghost var cand, rt := OpeningLines(B, nh, nl, d, di, ph, pl, k, qh, ql);
    q, r := FinishQuotient(B, nh, nl, d, qh, ql, r, constantLow && nl == 0, strict, k, cand, rt);
  }

  /** The closing lines of udiv_qrnnd_preinv: the mask correction, then, unless nl is known to be
      0, the conditional increment. */
  method FinishQuotient(B: nat, nh: nat, nl: nat, d: nat, qh: nat, ql: nat, r0: nat, lowZero: bool, strict: bool,
                        ghost k: int, ghost cand: int, ghost rt: int) returns (q: nat, r: nat)
    requires 2 <= B && Normalised(B, d) && nh < d && nl < B && (lowZero ==> nl == 0)
    requires Candidate(B, d, nh, nl, k, qh, ql, r0, cand, rt)
    ensures q < B && r < d
    ensures q * d + r == nh * B + nl
  {
    var mask;
    mask, q, r := ApplyMask(B, d, qh, ql, r0, strict, rt);
    ghost var down, up := if mask then 1 else 0, 0;
    if !lowZero {
      if d <= r {
        r := r - d;
        q := Wrap(B, q + 1);
        up := 1;
      }
    }
    QuotientLimb(B, d, nh, nl, k, qh, cand, down, up, rt, r);
  }

  lemma ExactQuotient(B: nat, d: nat, nh: nat, nl: nat, cand: int, back: int, rt: int, r: int)
    requires 0 < d && nh < d && nl < B && 0 <= r < d && -1 <= back <= 1
    requires rt == nh * B + nl - cand * d
    requires r == rt + (if back == 1 then d else if back == 0 then 0 else 0 - d)
    ensures 0 <= cand - back < B && (cand - back) * d + r == nh * B + nl
  {
    var qt := cand - back;
    assert qt * d == cand * d - back * d;
    QuotientFits(B, d, nh, nl, qt, r);
    MulNonNegative(nh, B);
    if qt < 0 { MulMono(qt, -1, d); }
  }

  /** The corrected quotient limb is the exact quotient. */
  lemma QuotientLimb(B: nat, d: nat, nh: nat, nl: nat, k: int, qh: nat, cand: int, down: int, up: int, rt: int, r: int)
    requires 2 <= B && 0 < d < B && nh < d && nl < B && 0 <= r < d
    requires 0 <= down <= 1 && 0 <= up <= 1
    requires cand == k * B + qh && rt == nh * B + nl - cand * d
    requires r == rt + (if down - up == 1 then d else if down - up == 0 then 0 else 0 - d)
    ensures var q := if up == 0 then Wrap(B, qh - down) else Wrap(B, Wrap(B, qh - down) + 1);
            q < B && q * d + r == nh * B + nl
  {
    WrappedLimb(B, d, nh, nl, k, qh, cand, down, up, rt, r);
    CorrectedQuotient(B, d, nh, nl, cand, down - up, rt, r,
                      if up == 0 then Wrap(B, qh - down) else Wrap(B, Wrap(B, qh - down) + 1));
  }

  lemma WrappedLimb(B: nat, d: nat, nh: nat, nl: nat, k: int, qh: nat, cand: int, down: int, up: int, rt: int, r: int)
    requires 2 <= B && 0 < d < B && nh < d && nl < B && 0 <= r < d
    requires 0 <= down <= 1 && 0 <= up <= 1
    requires cand == k * B + qh && rt == nh * B + nl - cand * d
    requires r == rt + (if down - up == 1 then d else if down - up == 0 then 0 else 0 - d)
    ensures (if up == 0 then Wrap(B, qh - down) else Wrap(B, Wrap(B, qh - down) + 1)) == cand - (down - up)
  {
    ExactQuotient(B, d, nh, nl, cand, down - up, rt, r);
    NegatedTimes(0 - k, k, B);
    WrapStep(B, qh - down, up, 0 - k, cand - down + up);
  }

  lemma CorrectedQuotient(B: nat, d: nat, nh: nat, nl: nat, cand: int, back: int, rt: int, r: int, q: int)
    requires 0 < d && nh < d && nl < B && 0 <= r < d && -1 <= back <= 1 && q == cand - back
    requires rt == nh * B + nl - cand * d
    requires r == rt + (if back == 1 then d else if back == 0 then 0 else 0 - d)
    ensures q < B && q * d + r == nh * B + nl
  {
    ExactQuotient(B, d, nh, nl, cand, back, rt, r);
    SameTimes(q, cand - back, d);
  }

  lemma SameTimes(x: int, y: int, k: int)
    requires x == y
    ensures x * k == y * k
  {}

  /** gmp-impl.h udiv_rnnd_preinv: the remainder only; nh == d is allowed, where the quotient
      no longer fits a limb. */
  method UdivRnndPreinv(b: nat, B: nat, nh: nat, nl: nat, d: nat, di: nat, constantLow: bool, strict: bool) returns (r: nat)
    requires Word(b, B) && Normalised(B, d) && nh <= d && nl < B && IsReciprocal(B, d, di)
    ensures r == (nh * B + nl) % d
  {
    var qh, ql := UmulPpmm(b, B, nh, di);
    ghost var ph, pl, k, gh := qh, ql, 0, 0;
    if constantLow && nl == 0 {
      // no quotient limb is kept: r is ~(_qh + nh) * d, the complement taken in one limb
      r := Wrap(B, (B - 1 - Wrap(B, qh + nh)) * d);
      ComplementProduct(B, qh + nh, d);
      gh, k := AddHigh(B, qh, ql, nh + 1);
    } else {
      qh, ql, k := AddSsaaaa(B, qh, ql, nh + 1, nl);
      gh := qh;
      r := Wrap(B, nl - qh * d);
    }
    ghost var cand, rt := OpeningLines(B, nh, nl, d, di, ph, pl, k, gh, ql);
    r := FinishRemainder(B, nh, nl, d, ql, r, constantLow && nl == 0, strict, k, gh, cand, rt);
  }

  /** The closing lines of udiv_rnnd_preinv. */
  method FinishRemainder(B: nat, nh: nat, nl: nat, d: nat, ql: nat, r0: nat, lowZero: bool, strict: bool,
                         ghost k: int, ghost gh: nat, ghost cand: int, ghost rt: int) returns (r: nat)
    requires 2 <= B && Normalised(B, d) && nl < B && (lowZero ==> nl == 0)
    requires Candidate(B, d, nh, nl, k, gh, ql, r0, cand, rt)
    ensures r == (nh * B + nl) % d
  {
    var mask := if strict then r0 > ql else r0 >= ql;
    WrapUnique(B, r0 + Masked(mask, d), if rt < 0 then 1 else 0, rt + (if mask then d else 0));
    r := Wrap(B, r0 + Masked(mask, d));
    ghost var down, up := if mask then 1 else 0, 0;
    if !lowZero {
      if d <= r {
        r := r - d;
        up := 1;
      }
    }
    RemainderOnly(d, nh * B + nl, cand, rt, down - up, r);
  }

  lemma RemainderOnly(d: nat, n: nat, cand: int, rt: int, back: int, r: int)
    requires 0 < d && rt == n - cand * d && 0 <= r < d && -1 <= back <= 1
    requires r == rt + (if back == 1 then d else if back == 0 then 0 else 0 - d)
    ensures r == n % d
  {
    assert (cand - back) * d == cand * d - back * d;
    DivModUnique(n, d, cand - back, r);
  }

  /** Multiplying the complement of x, taken in one limb, is multiplying by -(x + 1). */
  lemma ComplementProduct(B: nat, x: nat, d: nat)
    requires 2 <= B
    ensures Wrap(B, (B - 1 - Wrap(B, x)) * d) == Wrap(B, 0 - Wrap(B, x + 1) * d)
  {
    var w, w' := Wrap(B, x), Wrap(B, x + 1);
    var j := WrapCongruent(B, x);
    var top := w + 1 == B;
    assert w' == if top then 0 else w + 1 by {
      assert (j + 1) * B == j * B + B;
      WrapUnique(B, x + 1, if top then j + 1 else j, if top then 0 else w + 1);
    }
    if top {
      assert (B - 1 - w) * d == 0 && w' * d == 0;
    } else {
      var g := WrapCongruent(B, 0 - w' * d);
      assert (B - w') * d == B * d - w' * d;
      assert (d + g) * B == B * d + g * B;
      WrapUnique(B, (B - w') * d, d + g, Wrap(B, 0 - w' * d));
    }
  }

  // ---------------------------------------------------------------- the reciprocal of a limb pair

  /** How far (B + v) * d falls short of B^3. */
  function Shortfall(B: int, d: int, v: int): int { B * B * B - (B + v) * d }

  /** gmp-impl.h invert_pi1: the reciprocal of (d1, d0), floor((B^3 - 1) / d) - B, from that of
      d1 alone; at most two decrements for d0's addition and two for d0 * v's. */
  method InvertPi1(b: nat, B: nat, d1: nat, d0: nat) returns (v: nat)
    requires Word(b, B) && Normalised(B, d1) && d0 < B
    ensures IsReciprocal2(B, d1 * B + d0, v)
    ensures v == (B * B * B - 1) / (d1 * B + d0) - B
  {
    var p;
    ghost var k;
    v, p, k := InvertHigh(b, B, d1, d0);
    v := InvertLow(b, B, d1, d0, v, p, k);
    ghost var d := d1 * B + d0;
    PairBounds(B, d1, d0);
    assert (B + v + 1) * d == (B + v) * d + d;
    DivModUnique(B * B * B - 1, d, B + v, Shortfall(B, d, v) - 1);
  }

  lemma PairBounds(B: nat, d1: nat, d0: nat)
    requires d1 < B && d0 < B && B <= 2 * d1
    ensures 0 < d1 * B + d0 < B * B && B * B <= 2 * (d1 * B + d0)
  {
    MulStrict(d1, B, B);
    MulMono(B, 2 * d1, B);
    MulNonNegative(d1, B);
    assert (2 * d1) * B == 2 * (d1 * B);
    if B != 0 { MulStrict(0, d1, B); }
  }

  /** The part of invert_pi1 up to the product d0 * v: (B + v) * d1 == B^2 - d0 - k with
      1 <= k <= d1, and p == -k modulo B. */
  method InvertHigh(b: nat, B: nat, d1: nat, d0: nat) returns (v: nat, p: nat, ghost k: int)
    requires Word(b, B) && Normalised(B, d1) && d0 < B
    ensures v < B && 1 <= k <= d1 && p == B - k
    ensures (B + v) * d1 == B * B - d0 - k
  {
    v := InvertLimb(b, B, d1);
    ReciprocalDefect(B, d1, v);
    k := B * B - (B + v) * d1;
    p := Wrap(B, d1 * v);
    HighProduct(B, d1, v, k);
    WrapSum(B, p, d0);
    p := Wrap(B, p + d0);
    if p < d0 {
      v, p, k := InvertHighCarry(B, d1, d0, v, p, k);
    } else {
      k := k - d0;
    }
  }

  lemma HighProduct(B: nat, d1: nat, v: nat, k: int)
    requires 2 <= B && d1 < B && 1 <= k <= d1 && (B + v) * d1 == B * B - k
    ensures Wrap(B, d1 * v) == B - k
  {
    assert (B + v) * d1 == B * d1 + d1 * v;
    assert (B - d1 - 1) * B == B * B - B * d1 - B;
    WrapUnique(B, d1 * v, B - d1 - 1, B - k);
  }

  /** The branch taken when adding d0 carries: v drops by one or, by the mask, by two. */
  method InvertHighCarry(B: nat, d1: nat, d0: nat, v0: nat, p0: nat, ghost k0: int)
    returns (v: nat, p: nat, ghost k: int)
    requires 2 <= B && Normalised(B, d1) && d0 < B && v0 < B
    requires 1 <= k0 <= d1 && p0 == d0 - k0 && (B + v0) * d1 == B * B - k0
    ensures v < B && 1 <= k <= d1 && p == B - k
    ensures (B + v) * d1 == B * B - d0 - k
  {
    v := Wrap(B, v0 - 1);
    var mask := p0 >= d1;
    p := Wrap(B, p0 - d1);
    ghost var down := if mask then 2 else 1;
    k := (if mask then d1 + d1 else d1) - p0;
    assert (B + (v0 - down)) * d1 == (B + v0) * d1 - (if mask then d1 + d1 else d1);
    StaysNonNegative(B, d1, d0, v0 - down, k);
    WrapUnique(B, v0 - 1, 0, v0 - 1);
    WrapUnique(B, p0 - d1, if mask then 0 else -1, if mask then p0 - d1 else p0 - d1 + B);
    MaskDecrements(B, v, mask);
    WrapUnique(B, v0 - down, 0, v0 - down);
    v := Wrap(B, v + MaskLimb(B, mask));
    WrapUnique(B, p - Masked(mask, d1), if mask then -1 else 0, B - k);
    p := Wrap(B, p - Masked(mask, d1));
  }

  lemma StaysNonNegative(B: nat, d1: nat, d0: nat, v: int, k: int)
    requires 0 < d1 < B && d0 < B && k <= d1 && (B + v) * d1 == B * B - d0 - k
    ensures 0 <= v
  {
    if v < 0 { MulMono(B + v, B - 1, d1); }
    MulMono(d1, B - 1, B);
    assert (B - 1) * d1 == d1 * B - d1 && (B - 1) * B == B * B - B;
  }

  /** The rest of invert_pi1. */
  method InvertLow(b: nat, B: nat, d1: nat, d0: nat, v0: nat, p0: nat, ghost k: int) returns (v: nat)
    requires Word(b, B) && Normalised(B, d1) && d0 < B && v0 < B
    requires 1 <= k <= d1 && p0 == B - k && (B + v0) * d1 == B * B - d0 - k
    ensures v < B && 1 <= Shortfall(B, d1 * B + d0, v) <= d1 * B + d0
  {
    v := v0;
    var t1, t0 := UmulPpmm(b, B, d0, v);
    PairShortfall(B, d1, d0, v, k, t1, t0);
    WrapSum(B, p0, t1);
    var p := Wrap(B, p0 + t1);
    if p < t1 {
      NegatedTimes(k - t1, p, B);
      v := LowAdjust(B, d1, d0, v, p, t0);
    } else {
      NoLowCarry(B, k - t1, d1, t0);
    }
  }

  /** The decrements of invert_pi1 when adding the high product limb has carried. */
  method LowAdjust(B: nat, d1: nat, d0: nat, v0: nat, p: nat, t0: nat) returns (v: nat)
    requires 2 <= B && d1 < B && d0 < B && B <= 2 * d1 && p < B && t0 < B && v0 < B
    requires Shortfall(B, d1 * B + d0, v0) == 0 - (p * B + t0)
    ensures v < B && 1 <= Shortfall(B, d1 * B + d0, v) <= d1 * B + d0
  {
    ghost var down := LowCarry(B, d1, d0, v0, p, t0);
    WrapUnique(B, v0 - 1, 0, v0 - 1);
    v := Wrap(B, v0 - 1);
    if p >= d1 {
      if p > d1 || t0 >= d0 {
        WrapUnique(B, v0 - 2, 0, v0 - 2);
        v := Wrap(B, v - 1);
      }
    }
  }

  lemma NegatedTimes(x: int, p: int, B: int)
    requires x == -p
    ensures x * B == -(p * B)
  {}

  lemma NoLowCarry(B: nat, x: int, d1: int, t0: nat)
    requires 1 <= x <= d1 && t0 < B
    ensures 1 <= x * B - t0 <= d1 * B
  {
    MulMono(1, x, B);
    MulMono(x, d1, B);
  }

  /** When adding the high product limb carries, (p, t0) is the negated shortfall; comparing it
      with (d1, d0) tells whether one or two decrements make the shortfall positive. */
  lemma LowCarry(B: nat, d1: nat, d0: nat, v: int, p: nat, t0: nat) returns (down: int)
    requires d1 < B && d0 < B && B <= 2 * d1 && p < B && t0 < B
    requires Shortfall(B, d1 * B + d0, v) == 0 - (p * B + t0)
    ensures down == if p > d1 || (p == d1 && t0 >= d0) then 2 else 1
    ensures 1 <= Shortfall(B, d1 * B + d0, v - down) <= d1 * B + d0
    ensures 0 <= v - down
  {
    var d := d1 * B + d0;
    down := if p > d1 || (p == d1 && t0 >= d0) then 2 else 1;
    PairBounds(B, d1, d0);
    PairOrder(B, p, t0, d1, d0);
    ShortfallDown(B, d, v, down);
    ReciprocalRange(B, d, v - down);
  }

  lemma PairShortfall(B: int, d1: int, d0: int, v: int, k: int, t1: int, t0: int)
    requires (B + v) * d1 == B * B - d0 - k && t1 * B + t0 == d0 * v
    ensures Shortfall(B, d1 * B + d0, v) == (k - t1) * B - t0
  {
    ShortfallOfPair(B, d1, d0, v);
    assert (k - t1) * B == k * B - t1 * B;
  }

  lemma ShortfallOfPair(B: int, d1: int, d0: int, v: int)
    ensures Shortfall(B, d1 * B + d0, v) == (B * B - d0 - (B + v) * d1) * B - d0 * v
  {}

  /** Comparing limb pairs limb by limb compares their values; no pair reaches 2 * d. */
  lemma PairOrder(B: nat, x1: nat, x0: nat, d1: nat, d0: nat)
    requires x1 < B && x0 < B && d1 < B && d0 < B
    ensures (x1 > d1 || (x1 == d1 && x0 >= d0)) <==> d1 * B + d0 <= x1 * B + x0
    ensures 0 <= x1 * B + x0 < B * B
  {
    if d1 < x1 { MulStrict(d1, x1, B); }
    if x1 < d1 { MulStrict(x1, d1, B); }
    MulStrict(x1, B, B);
    MulNonNegative(x1, B);
  }

  lemma ShortfallDown(B: int, d: int, v: int, down: int)
    ensures Shortfall(B, d, v - down) == Shortfall(B, d, v) + down * d
  {
    assert (B + v - down) * d == (B + v) * d - down * d;
  }

  lemma ReciprocalRange(B: nat, d: nat, v: int)
    requires 0 < d < B * B && Shortfall(B, d, v) <= d
    ensures 0 <= v
  {
    if v < 0 { MulMono(B + v, B - 1, d); }
    assert (B - 1) * d == d * B - d;
    if B != 0 { MulStrict(d, B * B, B); }
  }

  // ---------------------------------------------------------------- three limbs by two

  /** Where the candidate remainder of a 3/2 division lies, for (n2, n1) < d: at least -d;
      negative ones have a high limb at or above q0 modulo B^2; and one that is not below q0 * B
      is below B^2 - d, so the one decrement and one increment that follow suffice. */
  lemma CandidateRange3(B: int, d1: int, d0: int, v: int, n2: int, n1: int, n0: int, q: int, q0: int) returns (rt: int)
    requires 2 <= B && 0 < d1 < B && 0 <= d0 < B && B <= 2 * d1
    requires 0 <= n2 < B && 0 <= n1 < B && 0 <= n0 < B && n2 * B + n1 < d1 * B + d0
    requires 0 <= v && 1 <= Shortfall(B, d1 * B + d0, v) <= d1 * B + d0
    requires n2 * (B + v) + n1 == q * B + q0 && 0 <= q0 < B
    ensures var d := d1 * B + d0;
      && rt == (n2 * B + n1) * B + n0 - (q + 1) * d
      && q < B
      && -d <= rt < B * B && q0 * B < rt + B * B
      && (q0 * B <= rt ==> rt < B * B - d)
  {
    var d := d1 * B + d0;
    rt := (n2 * B + n1) * B + n0 - (q + 1) * d;
    var K, e := Shortfall(B, d, v), B * B - d;
    PairBounds(B, d1, d0);
    CandidateIdentity3(B, d, v, n2, n1, n0, q, q0, K, rt);
    var s := n2 * K + n1 * e + n0 * B;
    assert 0 <= s by { MulNonNegative(n2, K); MulNonNegative(n1, e); MulNonNegative(n0, B); }
    FromBelow3(B, d, q0, s, rt);
    ShortfallSmall(B, d, v);
    if d1 < n2 { MulStrict(d1, n2, B); }
    MulNonNegative(B, e);
    UpperSum(B, d1, d, d0, e, K, n2, n1, n0);
    SpreadSum(B, n2, K, n1, e, n0);
    FromAbove3(B, d, q0, s, rt);
    CandidateFits(B, d, v, n2, n1, q, q0);
    MulMono(q0, B - 1, B);
    assert (B - 1) * B == B * B - B;
  }

  lemma CandidateIdentity3(B: int, d: int, v: int, n2: int, n1: int, n0: int, q: int, q0: int, K: int, rt: int)
    requires K == Shortfall(B, d, v) && n2 * (B + v) + n1 == q * B + q0
    requires rt == (n2 * B + n1) * B + n0 - (q + 1) * d
    ensures B * rt == n2 * K + n1 * (B * B - d) + n0 * B + q0 * d - B * d
  {
    var m := n2 * (B + v);
    QuotientTimesDivisor(B, d, m, n1, q, q0);
    ShortfallShare(B, d, v, n2, m);
    ThreeLimbs(B, n2, n1, n0, (q + 1) * d);
    assert B * ((q + 1) * d) == (q * B) * d + B * d;
  }

  lemma QuotientTimesDivisor(B: int, d: int, m: int, n1: int, q: int, q0: int)
    requires m + n1 == q * B + q0
    ensures (q * B) * d == m * d + n1 * d - q0 * d
  {
    assert q * B == m + n1 - q0;
  }

  lemma ShortfallShare(B: int, d: int, v: int, n2: int, m: int)
    requires m == n2 * (B + v)
    ensures n2 * Shortfall(B, d, v) == n2 * (B * B * B) - m * d
  {
    assert n2 * ((B + v) * d) == m * d;
  }

  lemma ThreeLimbs(B: int, n2: int, n1: int, n0: int, p: int)
    ensures B * ((n2 * B + n1) * B + n0 - p) == n2 * (B * B * B) + n1 * (B * B) + n0 * B - B * p
  {
    assert B * ((n2 * B) * B) == n2 * (B * B * B);
    assert B * (n1 * B) == n1 * (B * B);
  }

  lemma FromBelow3(B: int, d: int, q0: int, s: int, rt: int)
    requires 0 < B && 0 < d < B * B && 0 <= q0 < B && 0 <= s
    requires B * rt == s + q0 * d - B * d
    ensures -d <= rt && q0 * B < rt + B * B
  {
    MulNonNegative(q0, d);
    BelowIdentity(B, d, q0, rt);
    if rt + d < 0 { MulMono(rt + d, -1, B); }
    MulStrict(0, B - q0, B * B - d);
    if rt + B * B - q0 * B <= 0 { MulMono(rt + B * B - q0 * B, 0, B); }
  }

  lemma BelowIdentity(B: int, d: int, q0: int, rt: int)
    ensures (rt + d) * B == B * rt + B * d
    ensures (rt + B * B - q0 * B) * B == B * rt + B * d - q0 * d + (B - q0) * (B * B - d)
  {}

  lemma FromAbove3(B: int, d: int, q0: int, s: int, rt: int)
    requires 0 < B && 0 < d < B * B
    requires B * rt == s + q0 * d - B * d
    requires B * s - B * B * d < (B * B - d) * (B * B - d)
    ensures rt < B * B - d || rt < q0 * B
  {
    SameTimes(B * rt, s + q0 * d - B * d, B);
    AboveIdentity(B, d, q0, s, rt);
    AboveEither(B * B - d, d, rt, q0 * B, B * s - B * B * d);
  }

  lemma AboveIdentity(B: int, d: int, q0: int, s: int, rt: int)
    ensures (s + q0 * d - B * d) * B == B * s + (q0 * B) * d - B * B * d
    ensures (B * rt) * B == rt * (B * B - d) + rt * d
  {}

  lemma AboveEither(e: int, d: int, rt: int, q: int, x: int)
    requires 0 < e && 0 < d && rt * e + rt * d == x + q * d && x < e * e
    ensures rt < e || rt < q
  {
    if e <= rt && q <= rt {
      MulMono(e, rt, e);
      MulMono(q, rt, d);
    }
  }

  lemma CandidateFits(B: int, d: int, v: int, n2: int, n1: int, q: int, q0: int)
    requires 0 < B && 0 < d < B * B && 0 <= n2 && 0 <= n1 && n2 * B + n1 < d && 0 <= q0
    requires 1 <= Shortfall(B, d, v) && n2 * (B + v) + n1 == q * B + q0
    ensures q < B
  {
    var Q, K := n2 * (B + v) + n1, Shortfall(B, d, v);
    ScaledCandidate(B, d, v, n2, n1);
    MulNonNegative(n2, K);
    MulNonNegative(n1, B * B - d);
    MulStrict(n2 * B + n1, d, B * B);
    if B * B <= Q { MulMono(B * B, Q, d); }
    assert d * (B * B) == (B * B) * d;
    if B <= q { MulMono(B, q, B); }
  }

  lemma ScaledCandidate(B: int, d: int, v: int, n2: int, n1: int)
    ensures (n2 * (B + v) + n1) * d
         == (n2 * B + n1) * (B * B) - n2 * Shortfall(B, d, v) - n1 * (B * B - d)
  {}

  /** The bound on the low-order terms that makes one decrement enough.  The hard case is a
      numerator whose high limb equals d1; there d1 == B - 1 needs the sharper bound on the
      shortfall K that a non-negative reciprocal gives. */
  lemma UpperSum(B: int, d1: int, d: int, d0: int, e: int, K: int, n2: int, n1: int, n0: int)
    requires 2 <= B && 0 < d1 < B && 0 <= d0 < B && d == d1 * B + d0 && e == B * B - d && 0 < e && 0 < d
    requires 0 <= n2 && 0 <= n1 < B && 0 <= n0 < B && n2 <= d1 && (n2 == d1 ==> n1 < d0)
    requires 1 <= K <= d && K <= B * e && 0 <= B * e
    ensures (B * n2) * K + (B * n1) * e + n0 * (B * B) - B * B * d < e * e
  {
    MulMono(n0, B - 1, B * B);
    if n2 < d1 {
      ScaledBound(B, n2, d1 - 1, K, d);
      ScaledBound(B, n1, B - 1, e, e);
      LowCase(B, d1, d, d0, e, (B * n2) * K, (B * n1) * e, n0 * (B * B));
    } else if d1 <= B - 2 {
      ScaledBound(B, n2, d1, K, d);
      ScaledBound(B, n1, d0 - 1, e, e);
      EqualCase(B, d1, d, d0, e, (B * n2) * K, (B * n1) * e, n0 * (B * B));
    } else {
      ScaledBound(B, n2, d1, K, B * e);
      ScaledBound(B, n1, d0 - 1, e, e);
      TopCase(B, d, d0, e, (B * n2) * K, (B * n1) * e, n0 * (B * B));
    }
  }

  lemma SpreadSum(B: int, n2: int, K: int, n1: int, e: int, n0: int)
    ensures B * (n2 * K + n1 * e + n0 * B) == (B * n2) * K + (B * n1) * e + n0 * (B * B)
  {}

  lemma LowCase(B: int, d1: int, d: int, d0: int, e: int, x: int, y: int, z: int)
    requires 2 <= B && 0 <= d0 && 0 < d && d == d1 * B + d0 && e == B * B - d
    requires x <= (B * (d1 - 1)) * d && y <= (B * (B - 1)) * e && z <= (B - 1) * (B * B)
    ensures x + y + z - B * B * d < e * e
  {
    assert B * (d1 - 1) == d - d0 - B && B * (B - 1) == B * B - B;
    UpperLow(B, d, d0, e);
  }

  lemma EqualCase(B: int, d1: int, d: int, d0: int, e: int, x: int, y: int, z: int)
    requires 2 <= B && 0 <= d0 < B && 0 < d1 <= B - 2 && d == d1 * B + d0 && e == B * B - d
    requires x <= (B * d1) * d && y <= (B * (d0 - 1)) * e && z <= (B - 1) * (B * B)
    ensures x + y + z - B * B * d < e * e
  {
    assert B * d1 == d - d0;
    UpperEqual(B, d1, d, d0, e);
  }

  lemma TopCase(B: int, d: int, d0: int, e: int, x: int, y: int, z: int)
    requires 2 <= B && 0 < d0 < B && d == (B - 1) * B + d0 && e == B * B - d
    requires x <= (B * (B - 1)) * (B * e) && y <= (B * (d0 - 1)) * e && z <= (B - 1) * (B * B)
    ensures x + y + z - B * B * d < e * e
  {
    UpperTop(B, d, d0, e);
  }

  lemma ScaledBound(B: int, x: int, X: int, y: int, Y: int)
    requires 0 <= B && 0 <= x <= X && y <= Y && 0 <= Y
    ensures (B * x) * y <= (B * X) * Y
  {
    MulMono(x, X, B);
    MulNonNegative(x, B);
    MulMono(y, Y, B * x);
    MulMono(B * x, B * X, Y);
  }

  lemma ShortfallSmall(B: int, d: int, v: int)
    requires 0 <= v && 0 <= d
    ensures Shortfall(B, d, v) <= B * (B * B - d)
  {
    MulNonNegative(v, d);
  }

  lemma UpperLow(B: int, d: int, d0: int, e: int)
    requires 2 <= B && 0 <= d0 && 0 < d && e == B * B - d
    ensures (d - d0 - B) * d + (B * B - B) * e + (B - 1) * (B * B) - B * B * d < e * e
  {
    MulNonNegative(d0, d);
    assert e * e == (B * B - d) * e;
    assert (B * B - B) * e == (B * B) * e - B * e;
    assert (d - d0 - B) * d == d * d - d0 * d - B * d;
    assert (B * B - d) * e == (B * B) * e - d * e;
    assert d * e == d * (B * B) - d * d;
    assert d * (B * B) == B * B * d;
    assert B * e == B * (B * B) - B * d;
    assert (B - 1) * (B * B) == B * (B * B) - B * B;
  }

  lemma UpperEqual(B: int, d1: int, d: int, d0: int, e: int)
    requires 2 <= B && 0 <= d0 < B && 0 < d1 <= B - 2 && d == d1 * B + d0 && e == B * B - d
    ensures (d - d0) * d + (B * (d0 - 1)) * e + (B - 1) * (B * B) - B * B * d < e * e
  {
    EqualRoom(B, d1, d, d0);
    EqualInM(B, B * B, e, d, d0);
  }

  lemma EqualInM(B: int, M: int, e: int, d: int, d0: int)
    requires 2 <= B && d0 < B && M == B * B && B + 1 <= e && M == e + d
    ensures (d - d0) * d + (B * (d0 - 1)) * e + (B - 1) * M - M * d < e * e
  {
    EqualProduct(B, M, d0, e);
    EqualRight(B, M, e, d0);
    EqualLeft(B, M, e, d, d0);
    SameTimes(M, B * B, e);
    EqualSplit(M, e, d, d0);
    MulStrict(0, B, B);
  }

  /** A divisor whose high limb is at most B - 2 leaves room. */
  lemma EqualRoom(B: int, d1: int, d: int, d0: int)
    requires 2 <= B && d0 < B && d1 <= B - 2 && d == d1 * B + d0
    ensures B + 1 <= B * B - d
  {
    MulMono(d1, B - 2, B);
    assert (B - 2) * B == B * B - 2 * B;
  }

  lemma EqualProduct(B: int, M: int, d0: int, e: int)
    requires 2 <= B && d0 < B && M == B * B && B + 1 <= e
    ensures 0 <= (e * (B + 1) - M) * (B - d0)
  {
    MulMono(B + 1, e, B + 1);
    assert (B + 1) * (B + 1) == B * B + 2 * B + 1;
    MulNonNegative(e * (B + 1) - M, B - d0);
  }

  lemma EqualRight(B: int, M: int, e: int, d0: int)
    ensures (e * (B + 1) - M) * (B - d0) == (B * B) * e + B * e - (B * e) * d0 - e * d0 - M * B + M * d0
  {
    assert (e * (B + 1)) * (B - d0) == (B * B) * e + B * e - (B * e) * d0 - e * d0;
  }

  lemma EqualLeft(B: int, M: int, e: int, d: int, d0: int)
    ensures (B * (d0 - 1)) * e == (B * e) * d0 - B * e
    ensures (B - 1) * M == M * B - M && (d - d0) * d == d * d - d * d0
  {}

  lemma EqualSplit(M: int, e: int, d: int, d0: int)
    requires M == e + d
    ensures M * d0 == e * d0 + d * d0 && M * d == e * d + d * d && M * e == e * e + e * d
  {}

  lemma UpperTop(B: int, d: int, d0: int, e: int)
    requires 2 <= B && 0 < d0 < B && d == (B - 1) * B + d0 && e == B * B - d
    ensures (B * (B - 1)) * (B * e) + (B * (d0 - 1)) * e + (B - 1) * (B * B) - B * B * d < e * e
  {
    assert (B - 1) * B == B * B - B;
    assert e == B - d0;
    var g := B * (B * B) + B * B - B - (B + 1) * (e + B - 1);
    assert 0 <= g by {
      MulMono(e + B - 1, 2 * B - 2, B + 1);
      assert (2 * B - 2) * (B + 1) == 2 * (B * B) - 2;
      MulMono(2, B, B * B);
      assert (e + B - 1) * (B + 1) == (B + 1) * (e + B - 1);
      assert (B * B) * B == B * (B * B) == B * (B * B);
      MulMono(2, B, B);
    }
    MulNonNegative(B - 1 - e, g);
    MulMono(2, B, B);
    TopPolynomial(B, e);
  }

  lemma TopPolynomial(B: int, e: int)
    ensures var d0, d := B - e, B * B - e;
      e * e - ((B * (B - 1)) * (B * e) + (B * (d0 - 1)) * e + (B - 1) * (B * B) - B * B * d)
      == (B - 1 - e) * (B * (B * B) + B * B - B - (B + 1) * (e + B - 1)) + 2 * (B * B) - 2 * B + 1
  {}

  /** A number of two limbs congruent to x modulo B^2, for x between -B^2 and B^2. */
  lemma CongruentPair(M: int, y: int, x: int, c: int)
    requires 0 <= y < M && -M <= x < M && y == x + c * M
    ensures y == if x < 0 then x + M else x
  {
    if 2 <= c { MulMono(2, c, M); }
    if c <= -1 { MulMono(c, -1, M); }
  }

  lemma PairRemainder(B: int, d1: int, d0: int, n2: int, n1: int, n0: int, q: int, k: int, x1: int, k1: int, y: int, k2: int, r: int)
    requires n1 - d1 * q == k * B + x1
    requires (x1 * B + n0) - (d1 * B + d0) == k1 * (B * B) + y
    requires y - d0 * q == k2 * (B * B) + r
    ensures r == (n2 * B + n1) * B + n0 - (q + 1) * (d1 * B + d0) + (0 - n2 - k - k1 - k2) * (B * B)
  {
    SameTimes(n1 - d1 * q - k * B, x1, B);
    HighRemainder(B, n1, d1 * q, k);
    PairPolynomial(B, d1, d0, n2, n1, q);
    FourMultiples(n2, k, k1, k2, B * B);
  }

  lemma HighRemainder(B: int, n1: int, p: int, k: int)
    ensures (n1 - p - k * B) * B == n1 * B - p * B - k * (B * B)
  {}

  lemma FourMultiples(n2: int, k: int, k1: int, k2: int, M: int)
    ensures (0 - n2 - k - k1 - k2) * M == 0 - n2 * M - k * M - k1 * M - k2 * M
  {}

  lemma PairPolynomial(B: int, d1: int, d0: int, n2: int, n1: int, q: int)
    ensures (n2 * B + n1) * B - (q + 1) * (d1 * B + d0)
         == n2 * (B * B) + n1 * B - (d1 * q) * B - d0 * q - (d1 * B + d0)
  {}

  /** gmp-impl.h udiv_qr_3by2: (n2, n1, n0) divided by (d1, d0). */
  method UdivQr3by2(b: nat, B: nat, n2: nat, n1: nat, n0: nat, d1: nat, d0: nat, dinv: nat)
    returns (q: nat, r1: nat, r0: nat)
    requires Word(b, B) && Normalised(B, d1) && d0 < B
    requires n2 < B && n1 < B && n0 < B
    requires n2 * B + n1 < d1 * B + d0
    requires IsReciprocal2(B, d1 * B + d0, dinv)
    ensures q < B && r1 < B && r0 < B
    ensures r1 * B + r0 < d1 * B + d0
    ensures q * (d1 * B + d0) + (r1 * B + r0) == (n2 * B + n1) * B + n0
  {
    var q0;
    ghost var rt;
    q, q0, r1, r0, rt := Guess3(b, B, n2, n1, n0, d1, d0, dinv);
    q, r1, r0 := Adjust3(B, n2, n1, n0, d1, d0, q, q0, r1, r0, rt);
  }

  /** udiv_qr_3by2 before the conditional adjustments: a candidate quotient q and the remainder
      rt for quotient q + 1, as two limbs modulo B^2. */
  method Guess3(b: nat, B: nat, n2: nat, n1: nat, n0: nat, d1: nat, d0: nat, dinv: nat)
    returns (q: nat, q0: nat, r1: nat, r0: nat, ghost rt: int)
    requires Word(b, B) && Normalised(B, d1) && d0 < B
    requires n2 < B && n1 < B && n0 < B
    requires n2 * B + n1 < d1 * B + d0
    requires IsReciprocal2(B, d1 * B + d0, dinv)
    ensures q < B && Candidate3(B, B * B, d1 * B + d0, q0, r1, r0, rt)
    ensures rt == (n2 * B + n1) * B + n0 - (q + 1) * (d1 * B + d0)
  {
    ghost var k;
    q, q0 := UmulPpmm(b, B, n2, dinv);
    ghost var ph, pl := q, q0;
    q, q0, k := AddSsaaaa(B, q, q0, n2, n1);
    WordIsLarge(b, B);
    rt := NoOverflow3(B, n2, n1, n0, d1, d0, dinv, ph, pl, k, q, q0);
    r1, r0 := CandidatePair(b, B, n2, n1, n0, d1, d0, q, q0, rt);
  }

  lemma WordIsLarge(b: nat, B: nat)
    requires Word(b, B)
    ensures 4 <= B
  {
    BaseGrows(b);
  }

  /** The candidate remainder modulo B^2, in two limbs. */
  method CandidatePair(b: nat, B: nat, ghost n2: nat, n1: nat, n0: nat, d1: nat, d0: nat, q: nat, ghost q0: nat, ghost rt: int)
    returns (r1: nat, r0: nat)
    requires Word(b, B) && d1 < B && d0 < B && n0 < B && q < B && q0 < B
    requires rt == (n2 * B + n1) * B + n0 - (q + 1) * (d1 * B + d0)
    requires CandidateRangeFacts(B, B * B, d1 * B + d0, q0, rt)
    ensures Candidate3(B, B * B, d1 * B + d0, q0, r1, r0, rt)
  {
    WordIsLarge(b, B);
    r1 := Wrap(B, n1 - d1 * q);
    ghost var k := WrapCongruent(B, n1 - d1 * q);
    ghost var x1, k1, k2 := r1, 0, 0;
    r1, r0, k1 := SubDdmmss(B, r1, n0, d1, d0);
    ghost var y := r1 * B + r0;
    var t1, t0 := UmulPpmm(b, B, d0, q);
    r1, r0, k2 := SubDdmmss(B, r1, r0, t1, t0);
    PairRemainder(B, d1, d0, n2, n1, n0, q, k, x1, k1, y, k2, r1 * B + r0);
    PairOrder(B, r1, r0, 0, 0);
    CongruentPair(B * B, r1 * B + r0, rt, 0 - n2 - k - k1 - k2);
  }

  ghost predicate CandidateRangeFacts(B: nat, M: int, d: int, q0: nat, rt: int) {
    && 0 < d < M <= 2 * d
    && 0 <= rt + d && rt < M && q0 * B < rt + M
    && (q0 * B <= rt ==> rt < M - d)
  }

  /** The two-limb remainder (r1, r0) of a candidate is rt modulo M == B^2, with the range of rt. */
  ghost predicate Candidate3(B: nat, M: int, d: int, q0: nat, r1: nat, r0: nat, rt: int) {
    && q0 < B && r1 < B && r0 < B
    && CandidateRangeFacts(B, M, d, q0, rt)
    && r1 * B + r0 == (if rt < 0 then rt + M else rt)
  }

  lemma NoOverflow3(B: nat, n2: nat, n1: nat, n0: nat, d1: nat, d0: nat, v: nat, ph: nat, pl: nat, k: int, q: nat, q0: nat)
    returns (rt: int)
    requires 2 <= B && Normalised(B, d1) && d0 < B
    requires n2 < B && n1 < B && n0 < B && n2 * B + n1 < d1 * B + d0
    requires IsReciprocal2(B, d1 * B + d0, v)
    requires ph * B + pl == n2 * v && q < B && q0 < B
    requires (ph * B + pl) + (n2 * B + n1) == k * (B * B) + (q * B + q0)
    ensures rt == (n2 * B + n1) * B + n0 - (q + 1) * (d1 * B + d0)
    ensures CandidateRangeFacts(B, B * B, d1 * B + d0, q0, rt)
  {
    var d := d1 * B + d0;
    PairBounds(B, d1, d0);
    Reciprocal2Defect(B, d, v);
    CandidateDigits(B, v, n2, n1, ph, pl, k, q, q0);
    CandidateFits(B, d, v, n2, n1, k * B + q, q0);
    NoTopCarry(B, n2 * v, n2 * B, n1, k, q, q0) by { MulNonNegative(n2, v); MulNonNegative(n2, B); }
    rt := CandidateRange3(B, d1, d0, v, n2, n1, n0, q, q0);
  }

  lemma Reciprocal2Defect(B: nat, d: nat, v: int)
    requires IsReciprocal2(B, d, v)
    ensures 1 <= Shortfall(B, d, v) <= d
  {
    assert (B + v + 1) * d == (B + v) * d + d;
  }

  lemma CandidateDigits(B: int, v: int, n2: int, n1: int, ph: int, pl: int, k: int, q: int, q0: int)
    requires ph * B + pl == n2 * v
    requires (ph * B + pl) + (n2 * B + n1) == k * (B * B) + (q * B + q0)
    ensures n2 * (B + v) + n1 == (k * B + q) * B + q0
  {
    assert n2 * (B + v) == n2 * B + n2 * v;
    assert (k * B + q) * B == k * (B * B) + q * B;
  }

  lemma NoTopCarry(B: nat, x: int, y: int, n1: nat, k: int, q: nat, q0: nat)
    requires 2 <= B && 0 <= x && 0 <= y && q < B && q0 < B && k * B + q < B
    requires x + y + n1 == k * (B * B) + (q * B + q0)
    ensures k == 0
  {
    PairOrder(B, q, q0, 0, 0);
    if k <= -1 { MulMono(k, -1, B * B); }
    if 1 <= k { MulMono(1, k, B); }
  }

  /** The conditional adjustments of udiv_qr_3by2: one decrement by mask, one rare increment. */
  method Adjust3(B: nat, ghost n2: nat, ghost n1: nat, ghost n0: nat, d1: nat, d0: nat,
                 q': nat, q0: nat, r1': nat, r0': nat, ghost rt: int)
    returns (q: nat, r1: nat, r0: nat)
    requires 2 <= B && Normalised(B, d1) && d0 < B && n1 < B && n0 < B
    requires n2 * B + n1 < d1 * B + d0
    requires q' < B && Candidate3(B, B * B, d1 * B + d0, q0, r1', r0', rt)
    requires rt == (n2 * B + n1) * B + n0 - (q' + 1) * (d1 * B + d0)
    ensures q < B && r1 < B && r0 < B
    ensures r1 * B + r0 < d1 * B + d0
    ensures q * (d1 * B + d0) + (r1 * B + r0) == (n2 * B + n1) * B + n0
  {
    ghost var d := d1 * B + d0;
    var mask;
    mask, q, r1, r0 := ApplyMask3(B, B * B, d, d1, d0, q', q0, r1', r0', rt);
    ghost var up := 0;
    PairOrder(B, r1, r0, d1, d0);
    if r1 >= d1 {
      if r1 > d1 || r0 >= d0 {
        ghost var k;
        ghost var s := r1 * B + r0;
        q := Wrap(B, q + 1);
        r1, r0, k := SubDdmmss(B, r1, r0, d1, d0);
        PairOrder(B, r1, r0, 0, 0);
        CongruentPair(B * B, r1 * B + r0, s - d, -k) by { assert (-k) * (B * B) == -(k * (B * B)); }
        up := 1;
      }
    }
    QuotientLimb3(B, d, n2 * B + n1, n0, q', mask, up, rt, r1 * B + r0);
  }

  /** The mask step of udiv_qr_3by2: drop the quotient and add d back when (r1) >= _q0. */
  method ApplyMask3(B: nat, ghost M: nat, ghost d: nat, d1: nat, d0: nat, q': nat, q0: nat, r1': nat, r0': nat, ghost rt: int)
    returns (mask: bool, q: nat, r1: nat, r0: nat)
    requires 2 <= B && M == B * B && d == d1 * B + d0 && d1 < B && d0 < B
    requires q' < B && Candidate3(B, M, d, q0, r1', r0', rt)
    ensures mask <==> rt < 0 || q0 * B <= rt
    ensures q == Wrap(B, q' + 1 - (if mask then 1 else 0))
    ensures r1 < B && r0 < B && r1 * B + r0 == rt + (if mask then d else 0)
  {
    ghost var k;
    q := Wrap(B, q' + 1);
    mask := r1' >= q0;
    PairOrder(B, r1', r0', q0, 0);
    MaskDecrements(B, q, mask);
    q := Wrap(B, q + MaskLimb(B, mask));
    k := WrapCongruent(B, q' + 1 - (if mask then 1 else 0));
    WrapStep(B, q' + 1, if mask then -1 else 0, k, Wrap(B, q' + 1 - (if mask then 1 else 0)));
    r1, r0, k := AddSsaaaa(B, r1', r0', Masked(mask, d1), Masked(mask, d0));
    PairOrder(B, r1, r0, 0, 0);
    ghost var c := (if rt < 0 then 1 else 0) - k;
    OneMinus(k, M);
    CongruentPair(M, r1 * B + r0, rt + (if mask then d else 0), c);
  }

  lemma OneMinus(k: int, M: int)
    ensures (1 - k) * M == M - k * M && (0 - k) * M == 0 - k * M
  {}

  lemma QuotientLimb3(B: nat, d: nat, n: nat, n0: nat, q': nat, mask: bool, up: int, rt: int, r: nat)
    requires 2 <= B && 0 < d && n < d && n0 < B && r < d && 0 <= up <= 1
    requires rt == n * B + n0 - (q' + 1) * d
    requires r == rt + (if mask then d else 0) - (if up == 1 then d else 0)
    ensures var q := if up == 0 then Wrap(B, q' + 1 - (if mask then 1 else 0))
                     else Wrap(B, Wrap(B, q' + 1 - (if mask then 1 else 0)) + 1);
            q < B && q * d + r == n * B + n0
  {
    var down := if mask then 1 else 0;
    ExactQuotient(B, d, n, n0, q' + 1, down - up, rt, r);
    WrapStep(B, q' + 1 - down, up, 0, q' + 1 - down + up);
  }
}
