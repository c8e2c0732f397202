/** headerHash of cross_plugin.cpp: Keccak-256 of the encoded header. The encoder's bytes are numbers, the
    sponge's are their bits; here the two meet. */
module HeaderHashing {
  import opened Hex
  import opened Rlp
  import opened RlpEncoder
  import opened SpongeSpec
  import F = Fips202
  import SpongeBits
  import Sponges = Sponge

  function Pow2(n: nat): (p: nat)
    ensures p >= 1
  {
    if n == 0 then 1 else 2 * Pow2(n - 1)
  }

  /** The low n bits of x, the least significant first. */
  function LowBits(x: nat, n: nat): (b: seq<bool>)
    ensures |b| == n
  {
    if n == 0 then [] else [x % 2 == 1] + LowBits(x / 2, n - 1)
  }

  function BitsValue(b: seq<bool>): (x: nat)
    ensures x < Pow2(|b|)
  {
    if b == [] then 0 else (if b[0] then 1 else 0) + 2 * BitsValue(b[1..])
  }

  lemma {:induction false} BitsReadBack(x: nat, n: nat)
    requires x < Pow2(n)
    ensures BitsValue(LowBits(x, n)) == x
  {
    if n > 0 {
      BitsReadBack(x / 2, n - 1);
      assert LowBits(x, n)[1..] == LowBits(x / 2, n - 1);
    }
  }

  lemma {:induction false} BitsWriteBack(b: seq<bool>)
    ensures LowBits(BitsValue(b), |b|) == b
  {
    if b != [] {
      BitsWriteBack(b[1..]);
      assert BitsValue(b) / 2 == BitsValue(b[1..]);
    }
  }

  lemma EightBits()
    ensures Pow2(8) == 256
  {
    assert Pow2(4) == 16;
  }

  function OctetOf(x: Byte): Octet { LowBits(x, 8) }

  function Weight(bit: bool, w: nat): nat { if bit then w else 0 }

  /** The bits of a byte in the order of section B.1 of FIPS 202: the least significant first. */
  lemma OctetIsBinary(x: Byte)
    ensures var o := OctetOf(x);
      x == Weight(o[0], 1) + Weight(o[1], 2) + Weight(o[2], 4) + Weight(o[3], 8) +
        Weight(o[4], 16) + Weight(o[5], 32) + Weight(o[6], 64) + Weight(o[7], 128)
  {
    EightBits();
    BitsReadBack(x, 8);
    var o := OctetOf(x);
    ValueFromIs(o, 0);
    assert o[0..] == o;
    EightWeights(o);
  }

  /** The value of the bits from position k on. */
  function ValueFrom(b: seq<bool>, k: nat): nat
    requires k <= |b|
    decreases |b| - k
  {
    if k == |b| then 0 else Weight(b[k], 1) + 2 * ValueFrom(b, k + 1)
  }

  lemma {:induction false} ValueFromIs(b: seq<bool>, k: nat)
    requires k <= |b|
    ensures ValueFrom(b, k) == BitsValue(b[k..])
    decreases |b| - k
  {
    if k < |b| {
      ValueFromIs(b, k + 1);
      assert b[k..][1..] == b[k + 1..];
    }
  }

  lemma EightWeights(o: Octet)
    ensures ValueFrom(o, 0) == Weight(o[0], 1) + Weight(o[1], 2) + Weight(o[2], 4) + Weight(o[3], 8) +
      Weight(o[4], 16) + Weight(o[5], 32) + Weight(o[6], 64) + Weight(o[7], 128)
  {
    FourWeights(o, 0);
    FourWeights(o, 4);
    assert ValueFrom(o, 8) == 0;
    SixteenTimes(o[4], 1); SixteenTimes(o[5], 2); SixteenTimes(o[6], 4); SixteenTimes(o[7], 8);
  }

  lemma SixteenTimes(bit: bool, w: nat)
    ensures 16 * Weight(bit, w) == Weight(bit, 16 * w)
  {}

  lemma FourWeights(o: Octet, k: nat)
    requires k <= 4
    ensures ValueFrom(o, k) ==
      Weight(o[k], 1) + Weight(o[k + 1], 2) + Weight(o[k + 2], 4) + Weight(o[k + 3], 8) + 16 * ValueFrom(o, k + 4)
  {
    assert ValueFrom(o, k + 2) == Weight(o[k + 2], 1) + 2 * ValueFrom(o, k + 3);
    assert ValueFrom(o, k) == Weight(o[k], 1) + 2 * ValueFrom(o, k + 1);
  }

  function Octets(b: seq<Byte>): (o: seq<Octet>)
    ensures |o| == |b|
  {
    seq(|b|, i requires 0 <= i < |b| => OctetOf(b[i]))
  }

  function ByteOf(o: Octet): Byte { EightBits(); BitsValue(o) }

  /** No two rows of bytes have the same octets. */
  lemma OctetsDetermineBytes(b: seq<Byte>, c: seq<Byte>)
    requires Octets(b) == Octets(c)
    ensures b == c
  {
    EightBits();
    assert |b| == |Octets(b)| == |c|;
    forall i | 0 <= i < |b|
      ensures b[i] == c[i]
    {
      assert OctetOf(b[i]) == Octets(b)[i] == Octets(c)[i] == OctetOf(c[i]);
      BitsReadBack(b[i], 8);
      BitsReadBack(c[i], 8);
    }
  }

  /** What headerHash feeds to the sponge. */
  function HashedOctets(h: BlockHeader): seq<Octet> { Octets(Encode(List(HexItems(FieldTexts(h))))) }

  method ToOctets(b: seq<Byte>) returns (a: array<Octet>)
    ensures fresh(a) && a[..] == Octets(b)
  {
    a := new Octet[|b|](i requires 0 <= i < |b| => OctetOf(b[i]));
  }

  method FromOctets(a: array<Octet>) returns (b: seq<Byte>)
    ensures Octets(b) == a[..]
  {
    b := seq(a.Length, i requires 0 <= i < a.Length reads a => ByteOf(a[i]));
    forall i | 0 <= i < a.Length
      ensures OctetOf(b[i]) == a[i]
    {
      BitsWriteBack(a[i]);
    }
  }

  /** keccak_256 on bytes, as the function Keccak[512] of FIPS 202 on their bits; p is Keccak-f[1600]. */
  method Keccak256(b: seq<Byte>, ghost p: State -> State) returns (hash: seq<Byte>)
    requires SpongeBits.Computes(p)
    ensures |hash| == 32 && Bits(Octets(hash)) == F.Keccak(512, Bits(Octets(b)), 256)
  {
    var input := ToOctets(b);
    var sharesult := new Octet[32](_ => ZeroOctet());
    assert Sponges.Message(input, |b|) == Octets(b);
    var code := Sponges.Keccak256Or512(256, sharesult, 32, input, |b|, p);
    assert sharesult[..32] == sharesult[..];
    hash := FromOctets(sharesult);
  }

  /** headerHash: the 32 bytes are Keccak-256 of the encoded list of the fields. */
  method HeaderHash(header: BlockHeader, ghost p: State -> State) returns (hash: seq<Byte>, ghost encoded: seq<Byte>)
    requires TextHeader(header) && |EncodeAll(HexItems(FieldTexts(header)))| < SIZE_LIMIT && SpongeBits.Computes(p)
    ensures |hash| == 32 && Bits(Octets(hash)) == F.Keccak(512, Bits(Octets(encoded)), 256)
    ensures Octets(encoded) == HashedOctets(header)
    ensures Decode(encoded).Some? && Decode(encoded).value.0.List? && Decode(encoded).value.1 == []
    ensures var items := Decode(encoded).value.0.items;
      && |items| == 13
      && Holds(items[0], header.parentHash) && Holds(items[1], header.uncleHash) && Holds(items[2], header.coinbase)
      && Holds(items[3], header.stateRootHash) && Holds(items[4], header.transactionRootHash)
      && Holds(items[5], header.receiptRootHash) && Holds(items[6], header.blooms)
      && Holds(items[7], header.difficulty) && Holds(items[8], header.number) && Holds(items[9], header.gasLimit)
      && Holds(items[10], header.gasUsed) && Holds(items[11], header.timestamp) && Holds(items[12], header.extraHash)
  {
    var result := HeaderBytes(header);
    encoded := result;
    hash := Keccak256(result, p);
  }

  /** Headers in even lower-case hexadecimal that differ are hashed from different octets: only a collision of
      Keccak-256 itself can give them the same hash. */
  lemma HashedOctetsDetermineHeader(g: BlockHeader, h: BlockHeader)
    requires Sized(List(HexItems(FieldTexts(g)))) && Sized(List(HexItems(FieldTexts(h))))
    requires HashedOctets(g) == HashedOctets(h)
    requires forall i :: 0 <= i < 13 ==> LowerHex(FieldTexts(g)[i]) && |FieldTexts(g)[i]| % 2 == 0
    requires forall i :: 0 <= i < 13 ==> LowerHex(FieldTexts(h)[i]) && |FieldTexts(h)[i]| % 2 == 0
    ensures g == h
  {
    OctetsDetermineBytes(Encode(List(HexItems(FieldTexts(g)))), Encode(List(HexItems(FieldTexts(h)))));
    HeaderBytesDetermineHeader(g, h);
  }
}
