/** hash is the sponge of FIPS 202 on strings of bits: the octets of the state stand for its bits in the order
    of sections 3.1.2 and B.1, blocks are added and taken where the standard adds and takes them, and with the
    delimiters of keccak.cpp the functions are those of section 6. */
module SpongeBits {
  import opened SpongeSpec
  import Divisions
  import F = Fips202
  import K = KeccakSpec
  import KeccakBits

  // ---------------------------------------------------------------- octets, lanes and strings

  /** Bit k of octet j of lane i is bit k of octet 8i + j of the state: lanes are little-endian. */
  lemma LaneFromAt(s: State, i: nat, j: nat, k: nat)
    requires i < 25 && j < 8 && k < 8
    ensures LanesFrom(s)[i][8 * j + k] == s[8 * i + j][k]
  {
    assert (8 * j + k) / 8 == j && (8 * j + k) % 8 == k;
    assert LanesFrom(s)[i] == LaneFrom(s, i);
  }

  lemma BytesFromAt(a: K.Lanes, i: nat, j: nat, k: nat)
    requires i < 25 && j < 8 && k < 8
    ensures BytesFrom(a)[8 * i + j][k] == a[i][8 * j + k]
  {
    assert (8 * i + j) / 8 == i && (8 * i + j) % 8 == j;
    assert BytesFrom(a)[8 * i + j] == OctetFrom(a, 8 * i + j);
  }

  /** Where bit b of the state's string is: in lane b / 64 and in octet b / 8. */
  lemma PlaceOf(b: nat)
    requires b < 1600
    ensures b / 64 < 25 && b % 64 / 8 < 8 && b / 8 == 8 * (b / 64) + b % 64 / 8 && b % 64 == 8 * (b % 64 / 8) + b % 8
  {}

  /** Bit z of lane i is bit 64i + z of the string. */
  lemma LanesAreBits(s: State)
    ensures KeccakBits.Flat(LanesFrom(s)) == Bits(s)
  {
    forall b | 0 <= b < 1600
      ensures LanesFrom(s)[b / 64][b % 64] == Bits(s)[b]
    {
      PlaceOf(b);
      LaneFromAt(s, b / 64, b % 64 / 8, b % 8);
    }
    KeccakBits.SameString(LanesFrom(s), Bits(s));
  }

  lemma BytesAreBits(a: K.Lanes)
    ensures Bits(BytesFrom(a)) == KeccakBits.Flat(a)
  {
    LanesThroughBytes(a);
    LanesAreBits(BytesFrom(a));
  }

  lemma PermutedIsFips(s: State)
    ensures Bits(Permuted(s)) == F.KeccakF(Bits(s))
  {
    LanesAreBits(s);
    KeccakBits.KeccakFIsFips(LanesFrom(s));
    BytesAreBits(K.KeccakF(LanesFrom(s)));
  }

  // ---------------------------------------------------------------- strings of octets

  lemma BitsAt(m: seq<Octet>, i: nat, k: nat)
    requires i < |m| && k < 8
    ensures Bits(m)[8 * i + k] == m[i][k]
  {
    assert (8 * i + k) / 8 == i && (8 * i + k) % 8 == k;
  }

  lemma BitsOfSum(m: seq<Octet>, n: seq<Octet>)
    ensures Bits(m + n) == Bits(m) + Bits(n)
  {
    forall b | 0 <= b < 8 * |m + n|
      ensures Bits(m + n)[b] == (Bits(m) + Bits(n))[b]
    {
      if b >= 8 * |m| { assert (b - 8 * |m|) / 8 == b / 8 - |m| && (b - 8 * |m|) % 8 == b % 8; }
    }
  }

  lemma BitsOfSlice(m: seq<Octet>, i: nat, j: nat)
    requires i <= j <= |m|
    ensures Bits(m[i..j]) == Bits(m)[8 * i..8 * j]
  {
    BitsOfSum(m[..i] + m[i..j], m[j..]);
    BitsOfSum(m[..i], m[i..j]);
    assert m == m[..i] + m[i..j] + m[j..];
  }

  lemma BitsOfBlock(s: State, m: seq<Octet>)
    requires |m| <= 200
    ensures Bits(XorBlock(s, m)) == F.Xor(Bits(s), Bits(m) + F.Zeros(1600 - 8 * |m|))
  {
    var x, y := Bits(XorBlock(s, m)), F.Xor(Bits(s), Bits(m) + F.Zeros(1600 - 8 * |m|));
    forall b | 0 <= b < 1600
      ensures x[b] == y[b]
    {
      assert x[b] == XorBlock(s, m)[b / 8][b % 8];
    }
  }

  lemma ZeroState()
    ensures Bits(seq(200, _ => ZeroOctet())) == F.Zeros(1600)
  {}

  // ---------------------------------------------------------------- the sponge

  /** p does to octets what f does to their bits. */
  ghost predicate Matches(p: State -> State, f: F.StateString -> F.StateString) {
    forall s: State {:trigger p(s)} :: Bits(p(s)) == f(Bits(s))
  }

  lemma {:induction false} AbsorbIsFips(p: State -> State, f: F.StateString -> F.StateString, s: State, m: seq<Octet>,
                                        i: nat, rate: nat)
    requires Matches(p, f) && 1 <= rate < 200 && i <= |m|
    ensures Bits(Absorb(p, s, m, i, rate)) == F.Absorb(f, Bits(s), Bits(m)[8 * i..], 8 * rate)
    decreases |m| - i
  {
    if i + rate <= |m| {
      var t := XorBlock(s, m[i..i + rate]);
      AbsorbIsFips(p, f, p(t), m, i + rate, rate);
      BitsOfBlock(s, m[i..i + rate]);
      BitsOfSlice(m, i, i + rate);
      var q := Bits(m)[8 * i..];
      assert q[..8 * rate] == Bits(m[i..i + rate]);
      assert q[8 * rate..] == Bits(m)[8 * (i + rate)..];
      assert f(Bits(t)) == Bits(p(t));
    }
  }

  lemma {:induction false} SqueezeIsFips(p: State -> State, f: F.StateString -> F.StateString, s: State, rate: nat, n: nat)
    requires Matches(p, f) && 1 <= rate < 200
    ensures Bits(Squeeze(p, s, rate, n)) == F.Squeeze(f, Bits(s), 8 * rate, 8 * n)
    decreases n
  {
    if n < rate {
      BitsOfSlice(s, 0, n);
    } else {
      var z := Squeeze(p, p(s), rate, n - rate);
      SqueezeIsFips(p, f, p(s), rate, n - rate);
      BitsOfSum(s[..rate], z);
      BitsOfSlice(s, 0, rate);
      assert f(Bits(s)) == Bits(p(s));
      if n == rate { assert z == []; }
    }
  }

  /** hash computes SPONGE[f, pad10*1, 8 rate] of the message followed by the suffix that the delimiter stands
      for, wherever its padding is that of the standard. */
  lemma SpongeIsFips(p: State -> State, f: F.StateString -> F.StateString, m: seq<Octet>, rate: nat, d: Octet, n: nat)
    requires Matches(p, f) && 1 <= rate < 200 && NonZero(d) && !(d[7] && |m| % rate == rate - 1)
    ensures Bits(Sponge(p, m, rate, d, n)) == F.Sponge(f, 8 * rate, Bits(m) + Suffix(d), 8 * n)
  {
    var padded := Padded(m, rate, d);
    var start: State := seq(200, _ => ZeroOctet());
    ZeroState();
    PaddedIsFips(m, rate, d);
    AbsorbIsFips(p, f, start, padded, 0, rate);
    assert Bits(padded)[0..] == Bits(padded);
    SqueezeIsFips(p, f, Absorb(p, start, padded, 0, rate), rate, n);
  }

  /** The last block of a short message. */
  function ShortOctet(m: seq<Octet>, rate: nat, d: Octet, j: nat): Octet {
    if j < |m| then m[j] else if j == |m| then d else seq(8, k => j == rate - 1 && k == 7)
  }

  lemma ShortPadded(m: seq<Octet>, rate: nat, d: Octet)
    requires 1 <= rate && |m| < rate - 1
    ensures |Padded(m, rate, d)| == rate
    ensures forall j :: 0 <= j < rate ==> Padded(m, rate, d)[j] == ShortOctet(m, rate, d, j)
  {
    Divisions.MultipleModulo(rate, 0, |m|);
    forall j | 0 <= j < rate
      ensures Padded(m, rate, d)[j] == ShortOctet(m, rate, d, j)
    {
      if j == rate - 1 { assert Padded(m, rate, d)[j] == TopOctet(); }
    }
  }

  lemma FirstBlock(m: seq<Octet>, rate: nat, d: Octet, padded: seq<Octet>, s: State)
    requires 1 <= rate < 200 && |m| < rate - 1 && |padded| == rate
    requires forall j :: 0 <= j < rate ==> padded[j] == ShortOctet(m, rate, d, j)
    requires forall j :: 0 <= j < 200 ==> s[j] == ShortOctet(m, rate, d, j)
    ensures XorBlock(seq(200, _ => ZeroOctet()), padded) == s
  {
    var block := XorBlock(seq(200, _ => ZeroOctet()), padded);
    forall j | 0 <= j < 200
      ensures block[j] == s[j]
    {
      if j < rate { assert XorOctet(ZeroOctet(), padded[j]) == padded[j]; } else { assert s[j] == ZeroOctet(); }
    }
  }

  lemma AbsorbOne(p: State -> State, s: State, padded: seq<Octet>, rate: nat)
    requires 1 <= rate < 200 && |padded| == rate
    ensures Absorb(p, s, padded, 0, rate) == p(XorBlock(s, padded))
  {
    assert padded[0..rate] == padded;
  }

  /** A message shorter than a block: one permutation, of the message, the delimiter and the final bit in a
      state that is zero otherwise. */
  lemma OneBlock(p: State -> State, m: seq<Octet>, rate: nat, d: Octet, n: nat, s: State)
    requires 1 <= rate < 200 && |m| < rate - 1 && n < rate
    requires forall j :: 0 <= j < 200 ==>
      s[j] == if j < |m| then m[j] else if j == |m| then d else seq(8, k => j == rate - 1 && k == 7)
    ensures Sponge(p, m, rate, d, n) == p(s)[..n]
  {
    var start: State := seq(200, _ => ZeroOctet());
    ShortPadded(m, rate, d);
    FirstBlock(m, rate, d, Padded(m, rate, d), s);
    AbsorbOne(p, start, Padded(m, rate, d), rate);
  }

  /** p is Keccak-f[1600] on octets. */
  ghost predicate Computes(p: State -> State) { forall s: State {:trigger Permuted(s)} :: p(s) == Permuted(s) }

  lemma PermutedComputes()
    ensures Computes(Permuted)
  {}

  lemma ComputesMatches(p: State -> State)
    requires Computes(p)
    ensures Matches(p, F.KeccakF)
  {
    forall s: State
      ensures Bits(p(s)) == F.KeccakF(Bits(s))
    {
      assert p(s) == Permuted(s);
      PermutedIsFips(s);
    }
  }

  // ---------------------------------------------------------------- the functions of keccak.cpp

  /** A rate of 200 - bits / 4 octets leaves the capacity 2 bits, in bits. */
  lemma KeccakOf(p: State -> State, bits: nat, rate: nat, m: seq<Octet>, d: Octet, n: nat)
    requires Computes(p) && 1 <= rate < 200 && 8 * rate == 1600 - 2 * bits && NonZero(d) && !d[7]
    ensures Bits(Sponge(p, m, rate, d, n)) == F.Keccak(2 * bits, Bits(m) + Suffix(d), 8 * n)
  {
    ComputesMatches(p);
    SpongeIsFips(p, F.KeccakF, m, rate, d, n);
  }

  lemma Sha3IsFips(p: State -> State, bits: nat, rate: nat, m: seq<Octet>, n: nat)
    requires Computes(p) && 1 <= rate < 200 && 8 * rate == 1600 - 2 * bits
    ensures Bits(Sponge(p, m, rate, SHA3_DELIM, n)) == F.Sha3(bits, Bits(m), 8 * n)
  {
    Suffixes();
    KeccakOf(p, bits, rate, m, SHA3_DELIM, n);
  }

  lemma ShakeIsFips(p: State -> State, bits: nat, rate: nat, m: seq<Octet>, n: nat)
    requires Computes(p) && 1 <= rate < 200 && 8 * rate == 1600 - 2 * bits
    ensures Bits(Sponge(p, m, rate, SHAKE_DELIM, n)) == F.Shake(bits, Bits(m), 8 * n)
  {
    Suffixes();
    KeccakOf(p, bits, rate, m, SHAKE_DELIM, n);
  }

  lemma KeccakIsFips(p: State -> State, bits: nat, rate: nat, m: seq<Octet>, n: nat)
    requires Computes(p) && 1 <= rate < 200 && 8 * rate == 1600 - 2 * bits
    ensures Bits(Sponge(p, m, rate, KECCAK_DELIM, n)) == F.Keccak(2 * bits, Bits(m), 8 * n)
  {
    Suffixes();
    KeccakOf(p, bits, rate, m, KECCAK_DELIM, n);
    assert Bits(m) + Suffix(KECCAK_DELIM) == Bits(m);
  }
}
