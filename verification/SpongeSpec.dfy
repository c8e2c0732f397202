/** The sponge construction of sections 4 and 5.1 of FIPS 202 on whole bytes, a byte being its eight bits
    with the least significant first. */
module SpongeSpec {
  import F = Fips202
  import K = KeccakSpec
  import Quotients

  type Octet = s: seq<bool> | |s| == 8 witness seq(8, _ => false)

  /** The state of 200 bytes. */
  type State = s: seq<Octet> | |s| == 200 witness seq(200, _ => seq(8, _ => false))

  // ---------------------------------------------------------------- bytes and lanes

  function LaneFrom(s: State, i: nat): K.Lane
    requires i < 25
  {
    seq(64, z requires 0 <= z < 64 => s[8 * i + z / 8][z % 8])
  }

  /** The state's bytes read as little-endian words. */
  function LanesFrom(s: State): K.Lanes { seq(25, i requires 0 <= i < 25 => LaneFrom(s, i)) }

  function OctetFrom(a: K.Lanes, j: nat): Octet
    requires j < 200
  {
    seq(8, k requires 0 <= k < 8 => a[j / 8][8 * (j % 8) + k])
  }

  function BytesFrom(a: K.Lanes): State { seq(200, j requires 0 <= j < 200 => OctetFrom(a, j)) }

  /** Reading the bytes as words loses nothing. */
  lemma BytesThroughLanes(s: State)
    ensures BytesFrom(LanesFrom(s)) == s
  {
    forall j | 0 <= j < 200 ensures BytesFrom(LanesFrom(s))[j] == s[j] { OctetThroughLane(s, j); }
  }

  lemma OctetThroughLane(s: State, j: nat)
    requires j < 200
    ensures OctetFrom(LanesFrom(s), j) == s[j]
  {
    forall k | 0 <= k < 8 ensures OctetFrom(LanesFrom(s), j)[k] == s[j][k] {
      var z := 8 * (j % 8) + k;
      assert 8 * (j / 8) + z / 8 == j && z % 8 == k;
    }
  }

  lemma LanesThroughBytes(a: K.Lanes)
    ensures LanesFrom(BytesFrom(a)) == a
  {
    forall i | 0 <= i < 25 ensures LanesFrom(BytesFrom(a))[i] == a[i] { LaneThroughOctets(a, i); }
  }

  lemma LaneThroughOctets(a: K.Lanes, i: nat)
    requires i < 25
    ensures LaneFrom(BytesFrom(a), i) == a[i]
  {
    forall z | 0 <= z < 64 ensures LaneFrom(BytesFrom(a), i)[z] == a[i][z] { PlaceInLane(i, z); }
  }

  lemma PlaceInLane(i: nat, z: nat)
    requires z < 64
    ensures (8 * i + z / 8) / 8 == i && 8 * ((8 * i + z / 8) % 8) + z % 8 == z
  {}

  /** Keccak-f[1600] on the bytes of the state. */
  function Permuted(s: State): State { BytesFrom(K.KeccakF(LanesFrom(s))) }

  // ---------------------------------------------------------------- absorbing and squeezing

  function ZeroOctet(): Octet { seq(8, _ => false) }

  /** 0x80. */
  function TopOctet(): Octet { seq(8, k => k == 7) }

  function XorOctet(x: Octet, y: Octet): Octet { seq(8, k requires 0 <= k < 8 => x[k] != y[k]) }

  /** A block added to the beginning of the state. */
  function XorBlock(s: State, m: seq<Octet>): State
    requires |m| <= 200
  {
    seq(200, i requires 0 <= i < 200 => if i < |m| then XorOctet(s[i], m[i]) else s[i])
  }

  /** The state after the blocks of m from position i on; p is the permutation. */
  function Absorb(p: State -> State, s: State, m: seq<Octet>, i: nat, rate: nat): State
    requires 1 <= rate < 200
    decreases |m| - i
  {
    if i + rate > |m| then s else Absorb(p, p(XorBlock(s, m[i..i + rate])), m, i + rate, rate)
  }

  /** n bytes of output. */
  function Squeeze(p: State -> State, s: State, rate: nat, n: nat): (z: seq<Octet>)
    requires 1 <= rate < 200
    ensures |z| == n
    decreases n
  {
    if n < rate then s[..n] else s[..rate] + Squeeze(p, p(s), rate, n - rate)
  }

  /** The permutation applied k times. */
  function Iterated(p: State -> State, s: State, k: nat): State
    decreases k
  {
    if k == 0 then s else Iterated(p, p(s), k - 1)
  }

  /** Output byte k * rate + j is byte j of the state permuted k more times: the truncations of algorithm 8,
      one after the other. */
  lemma {:induction false} SqueezeAt(p: State -> State, s: State, rate: nat, n: nat, k: nat, j: nat)
    requires 1 <= rate < 200 && j < rate && k * rate + j < n
    ensures Squeeze(p, s, rate, n)[k * rate + j] == Iterated(p, s, k)[j]
    decreases k
  {
    if k > 0 {
      var below := (k - 1) * rate;
      OneBlockLess(k, rate);
      SqueezeAt(p, p(s), rate, n - rate, k - 1, j);
      assert Squeeze(p, s, rate, n) == s[..rate] + Squeeze(p, p(s), rate, n - rate);
      assert Squeeze(p, s, rate, n)[rate + (below + j)] == Squeeze(p, p(s), rate, n - rate)[below + j];
    }
  }

  lemma OneBlockLess(k: nat, rate: nat)
    requires k > 0
    ensures (k - 1) * rate + rate == k * rate && (k - 1) * rate >= 0
  {}

  // ---------------------------------------------------------------- padding

  /** The byte at position j of the last q bytes of the padded message, as hash writes it. */
  function TailOctet(q: nat, j: nat, delim: Octet): Octet
    requires j < q
  {
    var x := if j == 0 then delim else ZeroOctet();
    if j == q - 1 then XorOctet(x, TopOctet()) else x
  }

  /** The message as hash absorbs it. */
  function Padded(m: seq<Octet>, rate: nat, delim: Octet): (p: seq<Octet>)
    requires 1 <= rate
    ensures |p| == |m| + rate - |m| % rate
  {
    m + seq(rate - |m| % rate, j requires 0 <= j < rate - |m| % rate => TailOctet(rate - |m| % rate, j, delim))
  }

  /** What hash computes. */
  function Sponge(p: State -> State, m: seq<Octet>, rate: nat, delim: Octet, n: nat): (z: seq<Octet>)
    requires 1 <= rate < 200
    ensures |z| == n
  {
    Squeeze(p, Absorb(p, seq(200, _ => ZeroOctet()), Padded(m, rate, delim), 0, rate), rate, n)
  }

  function Bits(m: seq<Octet>): seq<bool> { seq(8 * |m|, i requires 0 <= i < 8 * |m| => m[i / 8][i % 8]) }

  /** The highest bit set in a byte that is not zero. */
  function TopBit(d: Octet, k: nat): (h: nat)
    requires k < 8 && (exists i :: 0 <= i <= k && d[i])
    ensures h <= k && d[h] && forall i :: h < i <= k ==> !d[i]
  {
    if d[k] then k else TopBit(d, k - 1)
  }

  predicate NonZero(d: Octet) { exists i :: 0 <= i <= 7 && d[i] }

  /** The domain separation suffix that a delimiter stands for: its bits below the highest one set. */
  function Suffix(d: Octet): seq<bool>
    requires NonZero(d)
  {
    d[..TopBit(d, 7)]
  }

  /** The bits that FIPS 202 has absorbed. */
  function FipsPadded(m: seq<Octet>, rate: nat, d: Octet): seq<bool>
    requires 1 <= rate && NonZero(d)
  {
    Bits(m) + Suffix(d) + F.Pad101(8 * rate, 8 * |m| + |Suffix(d)|)
  }

  // ---------------------------------------------------------------- hash pads as FIPS 202 does

  lemma ModulusOf(x: int, k: int, n: int, r: int)
    requires 0 <= r < x && n == k * x + r
    ensures n % x == r
  {
    var q := n / x;
    assert n == q * x + n % x;
    Quotients.SameEuclid(x, k, r, q, n % x);
  }

  /** How many zeros the padding has between its two ones. */
  lemma PadZeros(bytes: nat, rate: nat, h: nat)
    requires rate >= 1 && h <= 7
    ensures var q := rate - bytes % rate; var zeros := (0 - (8 * bytes + h) - 2) % (8 * rate);
      zeros == if q == 1 && h == 7 then 8 * rate - 1 else 8 * q - h - 2
  {
    var q, k := rate - bytes % rate, bytes / rate + 1;
    assert bytes == (bytes / rate) * rate + bytes % rate;
    assert bytes + q == k * rate;
    assert k * (8 * rate) == 8 * (k * rate);
    assert (0 - k) * (8 * rate) == 0 - k * (8 * rate);
    if q == 1 && h == 7 {
      assert (0 - k - 1) * (8 * rate) == 0 - k * (8 * rate) - 8 * rate;
      ModulusOf(8 * rate, 0 - k - 1, 0 - (8 * bytes + h) - 2, 8 * rate - 1);
    } else {
      ModulusOf(8 * rate, 0 - k, 0 - (8 * bytes + h) - 2, 8 * q - h - 2);
    }
  }

  /** Bit o of what follows the message, by the padding rule, when the suffix and the padding fill q bytes. */
  predicate FipsTailBit(d: Octet, h: nat, q: nat, o: nat)
    requires h <= 7
  {
    if o < h then d[o] else o == h || o == 8 * q - 1
  }

  lemma TailBit(d: Octet, q: nat, j: nat, k: nat)
    requires NonZero(d) && j < q && k < 8 && !(q == 1 && d[7])
    ensures TailOctet(q, j, d)[k] == FipsTailBit(d, TopBit(d, 7), q, 8 * j + k)
  {
    var h := TopBit(d, 7);
    if q == 1 { assert h != 7; }
  }

  lemma FipsBit(m: seq<Octet>, rate: nat, d: Octet, i: nat)
    requires rate >= 1 && NonZero(d) && !(d[7] && |m| % rate == rate - 1)
    requires i < 8 * (|m| + rate - |m| % rate)
    ensures |FipsPadded(m, rate, d)| == 8 * (|m| + rate - |m| % rate)
    ensures FipsPadded(m, rate, d)[i] ==
      if i < 8 * |m| then m[i / 8][i % 8] else FipsTailBit(d, TopBit(d, 7), rate - |m| % rate, i - 8 * |m|)
  {
    PadZeros(|m|, rate, TopBit(d, 7));
  }

  lemma PaddedBit(m: seq<Octet>, rate: nat, d: Octet, i: nat)
    requires rate >= 1 && NonZero(d) && !(d[7] && |m| % rate == rate - 1)
    requires i < 8 * (|m| + rate - |m| % rate)
    ensures Bits(Padded(m, rate, d))[i] ==
      if i < 8 * |m| then m[i / 8][i % 8] else FipsTailBit(d, TopBit(d, 7), rate - |m| % rate, i - 8 * |m|)
  {
    var q := rate - |m| % rate;
    var j, k := i / 8, i % 8;
    assert Bits(Padded(m, rate, d))[i] == Padded(m, rate, d)[j][k];
    if i >= 8 * |m| {
      TailBit(d, q, j - |m|, k);
      assert 8 * (j - |m|) + k == i - 8 * |m|;
    }
  }

  lemma PaddingAgrees(m: seq<Octet>, rate: nat, d: Octet)
    requires rate >= 1 && NonZero(d) && !(d[7] && |m| % rate == rate - 1)
    ensures Bits(Padded(m, rate, d)) == FipsPadded(m, rate, d)
  {
    var x, y := Bits(Padded(m, rate, d)), FipsPadded(m, rate, d);
    FipsBit(m, rate, d, 0);
    forall i | 0 <= i < |x| ensures x[i] == y[i] {
      FipsBit(m, rate, d, i);
      PaddedBit(m, rate, d, i);
    }
  }

  /** hash pads as FIPS 202 does, except that a delimiter with its top bit set cancels the final one when a
      single byte is left in the block. */
  lemma PaddedIsFips(m: seq<Octet>, rate: nat, d: Octet)
    requires rate >= 1 && NonZero(d)
    ensures Bits(Padded(m, rate, d)) == FipsPadded(m, rate, d) <==> !(d[7] && |m| % rate == rate - 1)
  {
    if d[7] && |m| % rate == rate - 1 {
      PadZeros(|m|, rate, 7);
      assert |FipsPadded(m, rate, d)| == 8 * |m| + 8 + 8 * rate;
    } else {
      PaddingAgrees(m, rate, d);
    }
  }

  // ---------------------------------------------------------------- the standard's instances

  /** The delimiters of keccak.cpp: 0x01, 0x06 and 0x1f. */
  const KECCAK_DELIM: Octet := [true, false, false, false, false, false, false, false]
  const SHA3_DELIM: Octet := [false, true, true, false, false, false, false, false]
  const SHAKE_DELIM: Octet := [true, true, true, true, true, false, false, false]

  /** They stand for no suffix, for 01 (section 6.1) and for 1111 (section 6.2). */
  lemma Suffixes()
    ensures NonZero(KECCAK_DELIM) && Suffix(KECCAK_DELIM) == []
    ensures NonZero(SHA3_DELIM) && Suffix(SHA3_DELIM) == [false, true]
    ensures NonZero(SHAKE_DELIM) && Suffix(SHAKE_DELIM) == [true, true, true, true]
  {
    assert KECCAK_DELIM[0] && SHA3_DELIM[2] && SHAKE_DELIM[4];
  }

  /** For them the padding is that of FIPS 202 for every message. */
  lemma InstancesPadAsFips(m: seq<Octet>, rate: nat)
    requires rate >= 1
    ensures NonZero(SHA3_DELIM) && NonZero(SHAKE_DELIM) && NonZero(KECCAK_DELIM)
    ensures Bits(Padded(m, rate, SHA3_DELIM)) == FipsPadded(m, rate, SHA3_DELIM)
    ensures Bits(Padded(m, rate, SHAKE_DELIM)) == FipsPadded(m, rate, SHAKE_DELIM)
    ensures Bits(Padded(m, rate, KECCAK_DELIM)) == FipsPadded(m, rate, KECCAK_DELIM)
  {
    Suffixes();
    PaddedIsFips(m, rate, SHA3_DELIM);
    PaddedIsFips(m, rate, SHAKE_DELIM);
    PaddedIsFips(m, rate, KECCAK_DELIM);
  }

  /** A concrete failure: one byte left in the block and delimiter 0x80. */
  lemma TopDelimiterCancels()
    ensures NonZero(TopOctet()) && Padded([ZeroOctet()], 2, TopOctet()) == [ZeroOctet(), ZeroOctet()]
    ensures Bits(Padded([ZeroOctet()], 2, TopOctet())) != FipsPadded([ZeroOctet()], 2, TopOctet())
  {
    assert TopOctet()[7];
    PaddedIsFips([ZeroOctet()], 2, TopOctet());
    assert XorOctet(TopOctet(), TopOctet()) == ZeroOctet();
  }
}
