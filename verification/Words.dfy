/** 64-bit words as bit strings, and the operations on them that the sieves and Keccak share. */
module Words {

  const LIMB_BITS: nat := 64

  /** A limb: bit t is element t, least significant first. */
  type Limb = s: seq<bool> | |s| == LIMB_BITS witness seq(LIMB_BITS, _ => false)

  function Shl(x: Limb, k: nat): (r: Limb)
    requires k < LIMB_BITS // a larger shift is undefined in C
  {
    seq(LIMB_BITS, t requires 0 <= t < LIMB_BITS => t >= k && x[t - k])
  }

  function Shr(x: Limb, k: nat): (r: Limb)
    requires k < LIMB_BITS
  {
    seq(LIMB_BITS, t requires 0 <= t < LIMB_BITS => t + k < LIMB_BITS && x[t + k])
  }

  function Or(x: Limb, y: Limb): (r: Limb) {
    seq(LIMB_BITS, t requires 0 <= t < LIMB_BITS => x[t] || y[t])
  }

  /** CNST_LIMB(1) << i. */
  function OneHot(i: nat): (r: Limb)
    requires i < LIMB_BITS
  {
    seq(LIMB_BITS, t => t == i)
  }

  /** MP_LIMB_T_MAX << k. */
  function HighOnes(k: nat): (r: Limb)
    requires k < LIMB_BITS
  {
    seq(LIMB_BITS, t => t >= k)
  }

  /** (limb & mask) == 0. */
  predicate DisjointLimbs(x: Limb, y: Limb) { forall t :: 0 <= t < LIMB_BITS ==> !(x[t] && y[t]) }

  /** A one-bit mask shifted left and right by complementary amounts has been rotated. */
  lemma RotateOneHot(i: nat, k: nat)
    requires i < LIMB_BITS && 0 < k < LIMB_BITS
    ensures Or(Shl(OneHot(i), k), Shr(OneHot(i), LIMB_BITS - k)) == OneHot((i + k) % LIMB_BITS)
  {
    var r := Or(Shl(OneHot(i), k), Shr(OneHot(i), LIMB_BITS - k));
    forall t | 0 <= t < LIMB_BITS
      ensures r[t] == OneHot((i + k) % LIMB_BITS)[t]
    {
    }
  }
}
