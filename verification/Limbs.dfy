/** The two-limb primitives of longlong.h in generic C.  A limb holds the values 0 .. B-1 where
    B == b * b and b is the half-word base; every addition, subtraction and product is reduced
    modulo B exactly where the machine word would wrap. */
module Limbs {

  // ---------------------------------------------------------------- words

  /** B is the limb base over the half-word base b; b is even, as on every real machine. */
  predicate Word(b: nat, B: nat) { 2 <= b && b % 2 == 0 && B == b * b }

  /** The top bit of the limb d is set. */
  predicate Normalised(B: nat, d: nat) { B <= 2 * d && d < B }

  function Wrap(B: nat, x: int): (w: nat)
    requires 2 <= B
    ensures w < B
  {
    x % B
  }

  /** mask & d, for a mask that is all zeros or all ones. */
  function Masked(mask: bool, d: nat): nat { if mask then d else 0 }

  /** The unsigned value of a mask: 0 or B-1. */
  function MaskLimb(B: nat, mask: bool): nat
    requires 2 <= B
  {
    if mask then B - 1 else 0
  }

  lemma BaseGrows(b: nat)
    requires 2 <= b
    ensures 4 <= 2 * b <= b * b
  {
    assert b * b == 2 * b + (b - 2) * b;
    MulNonNegative(b - 2, b);
  }

  // ---------------------------------------------------------------- arithmetic facts

  lemma MulNonNegative(x: int, y: int)
    requires 0 <= x && 0 <= y
    ensures 0 <= x * y
  {}

  lemma MulMono(x: int, y: int, k: int)
    requires x <= y && 0 <= k
    ensures x * k <= y * k
  {
    MulNonNegative(y - x, k);
    assert (y - x) * k == y * k - x * k;
  }

  lemma MulStrict(x: int, y: int, k: int)
    requires x < y && 0 < k
    ensures x * k + k <= y * k
  {
    MulMono(x + 1, y, k);
    assert (x + 1) * k == x * k + k;
  }

  lemma DivModUnique(n: int, d: int, q: int, r: int)
    requires 0 < d && 0 <= r < d && n == q * d + r
    ensures n / d == q && n % d == r
  {
    var q', r' := n / d, n % d;
    assert n == q' * d + r' && 0 <= r' < d;
    if q < q' {
      MulStrict(q, q', d);
    } else if q' < q {
      MulStrict(q', q, d);
    }
  }

  /** A wrapped value that differs from a limb by a multiple of B is that limb. */
  lemma WrapUnique(B: nat, x: int, k: int, w: int)
    requires 2 <= B && 0 <= w < B && x == k * B + w
    ensures Wrap(B, x) == w
  {
    DivModUnique(x, B, k, w);
  }

  /** Wrapping inside a sum may be postponed. */
  lemma WrapCongruent(B: nat, x: int) returns (k: int)
    requires 2 <= B
    ensures x == k * B + Wrap(B, x)
  {
    k := x / B;
  }

  // ---------------------------------------------------------------- double-limb primitives

  /** longlong.h add_ssaaaa: two-limb addition modulo B^2. */
  method AddSsaaaa(B: nat, ah: nat, al: nat, bh: nat, bl: nat) returns (sh: nat, sl: nat, ghost k: int)
    requires 2 <= B && al < B && bl < B
    ensures sh < B && sl < B
    ensures (ah * B + al) + (bh * B + bl) == k * (B * B) + (sh * B + sl)
  {
    var x := Wrap(B, al + bl);
    ghost var kl := WrapCongruent(B, al + bl);
    assert kl == 0 || kl == 1 by {
      if kl < 0 { MulMono(kl, -1, B); }
      if 1 < kl { MulMono(2, kl, B); }
    }
    var carry := if x < al then 1 else 0;
    assert carry == kl by { if kl == 1 { assert x < al; } }
    k := WrapCongruent(B, ah + bh + carry);
    sh := Wrap(B, ah + bh + carry);
    sl := x;
    CarryLine(B, ah, bh, carry, k, sh, al, bl, sl);
  }

  lemma CarryLine(B: int, ah: int, bh: int, c: int, k: int, sh: int, al: int, bl: int, sl: int)
    requires ah + bh + c == k * B + sh && al + bl == c * B + sl
    ensures (ah * B + al) + (bh * B + bl) == k * (B * B) + (sh * B + sl)
  {
    assert (ah + bh + c) * B == (k * B + sh) * B;
    assert (ah + bh + c) * B == ah * B + bh * B + c * B;
    assert (k * B + sh) * B == k * (B * B) + sh * B;
  }

  /** longlong.h sub_ddmmss: two-limb subtraction modulo B^2. */
  method SubDdmmss(B: nat, ah: nat, al: nat, bh: nat, bl: nat) returns (sh: nat, sl: nat, ghost k: int)
    requires 2 <= B && al < B && bl < B
    ensures sh < B && sl < B
    ensures (ah * B + al) - (bh * B + bl) == k * (B * B) + (sh * B + sl)
  {
    var x := Wrap(B, al - bl);
    ghost var kl := WrapCongruent(B, al - bl);
    var borrow := if al < bl then 1 else 0;
    assert kl == -borrow by {
      if kl < -1 { MulMono(kl, -2, B); }
      if 0 < kl { MulMono(1, kl, B); }
    }
    k := WrapCongruent(B, ah - bh - borrow);
    sh := Wrap(B, ah - bh - borrow);
    sl := x;
    CarryLine(B, ah, 0 - bh, 0 - borrow, k, sh, al, 0 - bl, sl);
    assert (0 - bh) * B == 0 - bh * B;
  }

  /** longlong.h umul_ppmm, generic C: the full product of two limbs from half-word products. */
  method UmulPpmm(b: nat, B: nat, u: nat, v: nat) returns (w1: nat, w0: nat)
    requires 2 <= b && B == b * b && u < B && v < B
    ensures w1 < B && w0 < B
    ensures w1 * B + w0 == u * v
  {
    var ul, uh := Halves(b, B, u);
    var vl, vh := Halves(b, B, v);
    HalfProduct(b, B, ul, vl); HalfProduct(b, B, ul, vh); HalfProduct(b, B, uh, vl); HalfProduct(b, B, uh, vh);
    var x0, x1, x2, x3 := ul * vl, ul * vh, uh * vl, uh * vh;
    var p0, p1 := Halves(b, B, x0);
    ghost var c;
    x1, x3, c := MiddleColumn(b, B, x1, x2, x3, p1);
    var s0, s1 := Halves(b, B, x1);
    ProductFromHalves(b, B, u, v, uh, ul, vh, vl, p1, p0, c, s1, s0);
    AssembleLimbs(b, B, u, v, x3, x1, s1, s0, p0);
    w1 := Wrap(B, x3 + s1);
    w0 := Wrap(B, Wrap(B, x1 * b) + p0);
  }

  /** Adding up the middle column of umul_ppmm: the first addition cannot carry, the second can. */
  method MiddleColumn(b: nat, B: nat, m: nat, x2: nat, h: nat, p1: nat) returns (x1: nat, x3: nat, ghost c: int)
    requires 2 <= b && B == b * b && p1 < b && m + 2 * b <= B + 1 && x2 + 2 * b <= B + 1 && h + 2 * b <= B + 1
    ensures x1 < B && m + p1 + x2 == c * B + x1 && x3 == h + c * b
  {
    WrapUnique(B, m + p1, 0, m + p1);
    x1, x3 := Wrap(B, m + p1), h;
    x1 := Wrap(B, x1 + x2);
    c := CarryBit(B, m + p1 + x2, x1);
    if x1 < x2 {
      WrapUnique(B, x3 + b, 0, x3 + b);
      x3 := Wrap(B, x3 + b);
    }
  }

  lemma AssembleLimbs(b: nat, B: nat, u: nat, v: nat, x3: nat, x1: nat, s1: nat, s0: nat, p0: nat)
    requires 2 <= b && B == b * b && u < B && v < B && s1 < b && s0 < b && p0 < b && x1 == s1 * b + s0
    requires (x3 + s1) * B + (s0 * b + p0) == u * v
    ensures Wrap(B, x3 + s1) * B + Wrap(B, Wrap(B, x1 * b) + p0) == u * v
  {
    LowHalf(b, B, s0, 0);
    LowHalf(b, B, s0, p0);
    ShiftedHalf(b, B, s1, s0);
    WrapUnique(B, x1 * b, s1, s0 * b);
    WrapUnique(B, s0 * b + p0, 0, s0 * b + p0);
    HighBound(B, u, v, x3 + s1, s0 * b + p0);
    WrapUnique(B, x3 + s1, 0, x3 + s1);
  }

  /** __ll_lowpart and __ll_highpart. */
  method Halves(b: nat, B: nat, u: nat) returns (low: nat, high: nat)
    requires 2 <= b && B == b * b && u < B
    ensures low < b && high < b && u == high * b + low
  {
    HalvesBound(b, B, u);
    low, high := u % b, u / b;
  }

  lemma CarryBit(B: nat, t: nat, w: nat) returns (c: int)
    requires 2 <= B && t <= 2 * B - 2 && w == Wrap(B, t)
    ensures t == c * B + w && (c == 0 || c == 1)
  {
    c := WrapCongruent(B, t);
    if c < 0 { MulMono(c, -1, B); }
    if 1 < c { MulMono(2, c, B); }
  }

  lemma HalvesBound(b: nat, B: nat, u: nat)
    requires 2 <= b && B == b * b && u < B
    ensures u / b < b && u % b < b && u == (u / b) * b + u % b && 0 <= u / b
  {
    if b <= u / b { MulMono(b, u / b, b); }
    if u / b < 0 { MulMono(u / b, -1, b); }
  }

  lemma HalfProduct(b: nat, B: nat, x: nat, y: nat)
    requires 2 <= b && B == b * b && x < b && y < b
    ensures 0 <= x * y <= B - 2 * b + 1
  {
    MulNonNegative(x, y);
    MulMono(x, b - 1, y);
    MulMono(y, b - 1, b - 1);
    assert (b - 1) * (b - 1) == b * b - 2 * b + 1;
    assert (b - 1) * y == y * (b - 1);
  }

  lemma LowHalf(b: nat, B: nat, h: nat, l: nat)
    requires 2 <= b && B == b * b && h < b && l < b
    ensures 0 <= h * b && 0 <= h * b + l < B
  {
    MulNonNegative(h, b);
    MulMono(h, b - 1, b);
    assert (b - 1) * b == b * b - b;
  }

  lemma HighBound(B: nat, u: nat, v: nat, hi: nat, lo: nat)
    requires u < B && v < B && hi * B + lo == u * v
    ensures hi < B
  {
    MulMono(u, B, v);
    MulMono(v, B, B);
    assert v * B == B * v;
    if B <= hi {
      MulMono(B, hi, B);
      MulStrict(v, B, B);
    }
  }

  lemma ShiftedHalf(b: nat, B: nat, h: nat, l: nat)
    requires B == b * b
    ensures (h * b + l) * b == h * B + l * b
  {
    assert (h * b) * b == h * (b * b);
  }

  lemma ProductFromHalves(b: int, B: int, u: int, v: int, uh: int, ul: int, vh: int, vl: int,
                          p1: int, p0: int, c: int, h: int, l: int)
    requires B == b * b && u == uh * b + ul && v == vh * b + vl && ul * vl == p1 * b + p0
    requires ul * vh + p1 + uh * vl == c * B + (h * b + l)
    ensures (uh * vh + c * b + h) * B + (l * b + p0) == u * v
  {
    FourProducts(b, uh, ul, vh, vl);
    Distribute3(ul * vh, p1, uh * vl, b);
    MiddleTimes(b, c, h, l, ul * vh + p1 + uh * vl);
    Distribute3(uh * vh, c * b, h, b * b);
    SumOfProducts((uh * b + ul) * (vh * b + vl), uh * vh * (b * b), ul * vh * b, uh * vl * b, p1 * b, p0,
                  (c * b) * (b * b), h * (b * b), l * b);
  }

  lemma FourProducts(b: int, uh: int, ul: int, vh: int, vl: int)
    ensures (uh * b + ul) * (vh * b + vl) == uh * vh * (b * b) + ul * vh * b + uh * vl * b + ul * vl
  {
    assert (uh * b) * (vh * b) == uh * vh * (b * b);
    assert (uh * b) * vl == uh * vl * b;
    assert ul * (vh * b) == ul * vh * b;
  }

  lemma Distribute3(x: int, y: int, z: int, k: int)
    ensures (x + y + z) * k == x * k + y * k + z * k
  {}

  lemma MiddleTimes(b: int, c: int, h: int, l: int, m: int)
    requires m == c * (b * b) + (h * b + l)
    ensures m * b == (c * b) * (b * b) + h * (b * b) + l * b
  {
    assert (c * (b * b)) * b == (c * b) * (b * b);
    Distribute3(c * (b * b), h * b, l, b);
    assert (h * b) * b == h * (b * b);
  }

  /** The columns of a product, each term a number of its own. */
  lemma SumOfProducts(uv: int, high: int, left: int, right: int, carried: int, p0: int, c: int, h: int, l: int)
    requires uv == high + left + right + (carried + p0) && left + carried + right == c + h + l
    ensures high + c + h + (l + p0) == uv
  {}
}
