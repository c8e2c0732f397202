/** The sponge of keccak.cpp: hash, and the keccak, sha3 and shake functions built on it. */
module Sponge {
  import opened SpongeSpec
  import Divisions
  import F = Fips202
  import K = KeccakSpec
  import Keccak
  import SpongeBits

  /** keccakf on the bytes of the state, which it reads as words. */
  method Permute(a: array<Octet>, ghost p: State -> State)
    requires a.Length == 200 && SpongeBits.Computes(p)
    modifies a
    ensures a[..] == p(old(a[..])) && Bits(a[..]) == F.KeccakF(Bits(old(a[..])))
  {
    var s: State := a[..];
    var lanes := new K.Lane[25](i requires 0 <= i < 25 => LaneFrom(s, i));
    assert lanes[..] == LanesFrom(s);
    Keccak.KeccakFInPlace(lanes);
    WriteBack(a, lanes);
    assert p(s) == Permuted(s);
    SpongeBits.PermutedIsFips(s);
  }

  method WriteBack(a: array<Octet>, lanes: array<K.Lane>)
    requires a.Length == 200 && lanes.Length == 25
    modifies a
    ensures a[..] == BytesFrom(lanes[..])
  {
    var now: K.Lanes := lanes[..];
    var j := 0;
    while j < 200
      invariant 0 <= j <= 200 && forall i :: 0 <= i < j ==> a[i] == OctetFrom(now, i)
    {
      a[j] := OctetFrom(now, j);
      j := j + 1;
    }
  }

  /** xorin. */
  method XorIn(a: array<Octet>, m: seq<Octet>, from: nat, len: nat)
    requires a.Length == 200 && from + len <= |m| && len <= 200
    modifies a
    ensures a[..] == XorBlock(old(a[..]), m[from..from + len])
  {
    ghost var s: State := a[..];
    ghost var block := m[from..from + len];
    var i := 0;
    while i < len
      invariant 0 <= i <= len
      invariant forall j :: 0 <= j < 200 ==> a[j] == if j < i then XorOctet(s[j], block[j]) else s[j]
    {
      a[i] := XorOctet(a[i], m[from + i]);
      i := i + 1;
    }
    assert a[..] == XorBlock(s, block);
  }

  /** setout. */
  method SetOut(a: array<Octet>, out: array<Octet>, from: nat, len: nat)
    requires a.Length == 200 && a != out && from + len <= out.Length && len <= 200
    modifies out
    ensures forall j :: 0 <= j < out.Length ==> out[j] == if from <= j < from + len then a[j - from] else old(out[j])
  {
    var i := 0;
    while i < len
      invariant 0 <= i <= len
      invariant forall j :: 0 <= j < out.Length ==> out[j] == if from <= j < from + i then a[j - from] else old(out[j])
    {
      out[from + i] := a[i];
      i := i + 1;
    }
  }

  /** The body of the first loop of hash. */
  method AbsorbBlock(a: array<Octet>, m: seq<Octet>, at: nat, rate: nat, ghost padded: seq<Octet>, ghost p: State -> State)
    requires a.Length == 200 && 1 <= rate < 200 && SpongeBits.Computes(p) && m <= padded && at + rate <= |m|
    modifies a
    ensures Absorb(p, a[..], padded, at + rate, rate) == Absorb(p, old(a[..]), padded, at, rate)
  {
    ghost var s: State := a[..];
    AbsorbStep(p, s, m, padded, at, rate);
    XorIn(a, m, at, rate);
    ghost var t: State := a[..];
    assert t == XorBlock(s, m[at..at + rate]);
    Permute(a, p);
    ghost var u: State := a[..];
    assert u == p(t);
  }

  /** The first loop of hash: the full blocks of the message. */
  method AbsorbBlocks(a: array<Octet>, m: seq<Octet>, rate: nat, ghost padded: seq<Octet>, ghost p: State -> State)
    returns (at: nat, rest: nat)
    requires a.Length == 200 && 1 <= rate < 200 && SpongeBits.Computes(p) && m <= padded
    modifies a
    ensures at + rest == |m| && rest < rate && rest == |m| % rate
    ensures Absorb(p, a[..], padded, at, rate) == Absorb(p, old(a[..]), padded, 0, rate)
  {
    at, rest := 0, |m|;
    ghost var all := Absorb(p, a[..], padded, 0, rate);
    while rest >= rate
      invariant at + rest == |m| && Partial(rest, rate) == Partial(|m|, rate)
      invariant Absorb(p, a[..], padded, at, rate) == all
      decreases rest
    {
      AbsorbBlock(a, m, at, rate, padded, p);
      at, rest := at + rate, rest - rate;
    }
    PartialIsModulus(|m|, rate);
  }

  /** What is left of n after taking away blocks. */
  ghost function Partial(n: nat, rate: nat): nat
    requires rate >= 1
  {
    if n < rate then n else Partial(n - rate, rate)
  }

  lemma {:induction false} PartialIsModulus(n: nat, rate: nat)
    requires rate >= 1
    ensures Partial(n, rate) == n % rate
  {
    if n >= rate {
      PartialIsModulus(n - rate, rate);
      var q := (n - rate) / rate;
      assert n - rate == rate * q + (n - rate) % rate;
      assert rate * (q + 1) == rate * q + rate;
      Divisions.MultipleModulo(rate, q + 1, (n - rate) % rate);
    }
  }

  lemma AbsorbStep(p: State -> State, s: State, m: seq<Octet>, padded: seq<Octet>, at: nat, rate: nat)
    requires 1 <= rate < 200 && m <= padded && at + rate <= |m|
    ensures Absorb(p, s, padded, at, rate) == Absorb(p, p(XorBlock(s, m[at..at + rate])), padded, at + rate, rate)
  {
    assert m[at..at + rate] == padded[at..at + rate];
  }

  /** The delimiter, the final bit and the rest of the message, added in the order of the source. */
  method AddLastBlock(a: array<Octet>, m: seq<Octet>, at: nat, rest: nat, rate: nat, delim: Octet)
    requires a.Length == 200 && 1 <= rate < 200 && rest < rate && at + rest == |m| && rest == |m| % rate
    modifies a
    ensures a[..] == XorBlock(old(a[..]), Padded(m, rate, delim)[at..at + rate])
  {
    ghost var s: State := a[..];
    ghost var block := Padded(m, rate, delim)[at..at + rate];
    a[rest] := XorOctet(a[rest], delim);
    a[rate - 1] := XorOctet(a[rate - 1], TopOctet());
    XorIn(a, m, at, rest);
    forall j | 0 <= j < 200 ensures a[j] == XorBlock(s, block)[j] {
      if j < rate { LastBlockOctet(m, at, rate, delim, j); }
      if j < rest { SameXor(s[j]); }
    }
  }

  /** What the last block holds at position j. */
  lemma LastBlockOctet(m: seq<Octet>, at: nat, rate: nat, delim: Octet, j: nat)
    requires 1 <= rate && j < rate && at + |m| % rate == |m|
    ensures at + rate == |Padded(m, rate, delim)|
    ensures Padded(m, rate, delim)[at..at + rate][j] ==
      if j < |m| % rate then m[at + j] else TailOctet(rate - |m| % rate, j - |m| % rate, delim)
  {}

  lemma SameXor(x: Octet)
    ensures XorOctet(x, ZeroOctet()) == x
  {}

  /** t is the part of z from position k on. */
  ghost predicate PartOf(t: seq<Octet>, z: seq<Octet>, k: int) {
    0 <= k && k + |t| == |z| && forall j :: 0 <= j < |t| ==> t[j] == z[k + j]
  }

  /** z has been written over the beginning of a buffer. */
  ghost predicate Written(now: seq<Octet>, before: seq<Octet>, z: seq<Octet>, n: nat) {
    n <= |z| && n <= |before| == |now| && forall j :: 0 <= j < |now| ==> now[j] == if j < n then z[j] else before[j]
  }

  lemma SqueezeOnce(p: State -> State, s: State, rate: nat, rest: nat, z: seq<Octet>, at: nat)
    requires 1 <= rate < 200 && rest >= rate && PartOf(Squeeze(p, s, rate, rest), z, at)
    ensures forall j :: 0 <= j < rate ==> s[j] == z[at + j]
    ensures PartOf(Squeeze(p, p(s), rate, rest - rate), z, at + rate)
  {
    var t := Squeeze(p, p(s), rate, rest - rate);
    var all := Squeeze(p, s, rate, rest);
    assert all == s[..rate] + t;
    forall j | 0 <= j < rate ensures s[j] == z[at + j] { assert all[j] == s[j]; }
    forall j | 0 <= j < |t| ensures t[j] == z[at + rate + j] { assert all[rate + j] == t[j]; }
  }

  /** setout of a part of z, at its place. */
  method SetPart(a: array<Octet>, out: array<Octet>, at: nat, len: nat, ghost before: seq<Octet>, ghost z: seq<Octet>)
    requires a.Length == 200 && a != out && len <= 200 && at + len <= |z| && Written(out[..], before, z, at)
    requires |z| <= out.Length && forall j :: 0 <= j < len ==> a[j] == z[at + j]
    modifies out
    ensures Written(out[..], before, z, at + len)
  {
    SetOut(a, out, at, len);
  }

  /** The body of the second loop of hash. */
  method SqueezeBlock(a: array<Octet>, out: array<Octet>, at: nat, rest: nat, rate: nat, ghost z: seq<Octet>,
                      ghost before: seq<Octet>, ghost p: State -> State)
    requires a.Length == 200 && a != out && 1 <= rate < 200 && SpongeBits.Computes(p) && rest >= rate && |z| <= out.Length
    requires PartOf(Squeeze(p, a[..], rate, rest), z, at) && Written(out[..], before, z, at)
    modifies a, out
    ensures PartOf(Squeeze(p, a[..], rate, rest - rate), z, at + rate) && Written(out[..], before, z, at + rate)
  {
    ghost var s: State := a[..];
    SqueezeOnce(p, s, rate, rest, z, at);
    SetPart(a, out, at, rate, before, z);
    Permute(a, p);
    ghost var t: State := a[..];
    assert t == p(s);
  }

  /** The second loop of hash: the output, a block at a time. */
  method SqueezeBlocks(a: array<Octet>, out: array<Octet>, outlen: nat, rate: nat, ghost p: State -> State)
    requires a.Length == 200 && a != out && 1 <= rate < 200 && outlen <= out.Length && SpongeBits.Computes(p)
    modifies a, out
    ensures Written(out[..], old(out[..]), Squeeze(p, old(a[..]), rate, outlen), outlen)
  {
    ghost var z := Squeeze(p, a[..], rate, outlen);
    var at, rest := 0, outlen;
    while rest >= rate
      invariant 0 <= rest && at + rest == outlen
      invariant PartOf(Squeeze(p, a[..], rate, rest), z, at)
      invariant Written(out[..], old(out[..]), z, at)
      decreases rest
    {
      SqueezeBlock(a, out, at, rest, rate, z, old(out[..]), p);
      at, rest := at + rate, rest - rate;
    }
    LastPart(p, a[..], rate, rest, z, at);
    SetPart(a, out, at, rest, old(out[..]), z);
  }

  lemma LastPart(p: State -> State, s: State, rate: nat, rest: nat, z: seq<Octet>, at: nat)
    requires 1 <= rate < 200 && rest < rate && PartOf(Squeeze(p, s, rate, rest), z, at)
    ensures forall j :: 0 <= j < rest ==> s[j] == z[at + j]
  {
    forall j | 0 <= j < rest ensures s[j] == z[at + j] { assert Squeeze(p, s, rate, rest)[j] == s[j]; }
  }

  /** The message that a pointer and a length denote. */
  function Message(input: array?<Octet>, inlen: nat): seq<Octet>
    requires input != null ==> inlen <= input.Length
    reads if input == null then {} else {input}
  {
    if input == null then [] else input[..inlen]
  }

  /** hash, for pointers that are there. */
  method HashMessage(out: array<Octet>, outlen: nat, m: seq<Octet>, rate: nat, delim: Octet, ghost p: State -> State)
    requires 1 <= rate < 200 && outlen <= out.Length && SpongeBits.Computes(p)
    modifies out
    ensures Written(out[..], old(out[..]), Sponge(p, m, rate, delim, outlen), outlen)
  {
    var a := new Octet[200](_ => ZeroOctet());
    assert a[..] == seq(200, _ => ZeroOctet());
    ghost var padded := Padded(m, rate, delim);
    var at, rest := AbsorbBlocks(a, m, rate, padded, p);
    LastBlockAbsorbed(p, a[..], m, at, rate, delim);
    AddLastBlock(a, m, at, rest, rate, delim);
    Permute(a, p);
    SqueezeBlocks(a, out, outlen, rate, p);
  }

  lemma LastBlockAbsorbed(p: State -> State, s: State, m: seq<Octet>, at: nat, rate: nat, delim: Octet)
    requires 1 <= rate < 200 && at + |m| % rate == |m|
    ensures at + rate == |Padded(m, rate, delim)|
    ensures Absorb(p, s, Padded(m, rate, delim), at, rate) == p(XorBlock(s, Padded(m, rate, delim)[at..at + rate]))
  {}

  lemma WrittenParts(now: seq<Octet>, before: seq<Octet>, z: seq<Octet>, n: nat)
    requires Written(now, before, z, n) && |z| == n
    ensures now[..n] == z && now[n..] == before[n..]
  {}

  /** hash. The output may overlap the input, which is read first. A rate of zero would never end. */
  method Hash(out: array?<Octet>, outlen: nat, input: array?<Octet>, inlen: nat, rate: nat, delim: Octet,
              ghost p: State -> State)
    returns (code: int)
    requires SpongeBits.Computes(p) && rate >= 1
    requires (out != null ==> outlen <= out.Length) && (input != null ==> inlen <= input.Length)
    modifies if out == null then {} else {out}
    ensures code == if out == null || (input == null && inlen != 0) || rate >= 200 then -1 else 0
    ensures code == -1 && out != null ==> out[..] == old(out[..])
    ensures code == 0 ==> out[..outlen] == Sponge(p, old(Message(input, inlen)), rate, delim, outlen)
    ensures code == 0 ==> out[outlen..] == old(out[outlen..])
  {
    if out == null || (input == null && inlen != 0) || rate >= 200 { return -1; }
    var m := Message(input, inlen);
    HashMessage(out, outlen, m, rate, delim, p);
    WrittenParts(out[..], old(out[..]), Sponge(p, m, rate, delim, outlen), outlen);
    return 0;
  }

  /** shake128 and shake256. */
  method Shake(bits: nat, out: array?<Octet>, outlen: nat, input: array?<Octet>, inlen: nat, ghost p: State -> State)
    returns (code: int)
    requires SpongeBits.Computes(p) && (bits == 128 || bits == 256)
    requires (out != null ==> outlen <= out.Length) && (input != null ==> inlen <= input.Length)
    modifies if out == null then {} else {out}
    ensures code == if out == null || (input == null && inlen != 0) then -1 else 0
    ensures code == -1 && out != null ==> out[..] == old(out[..])
    ensures code == 0 ==> Bits(out[..outlen]) == F.Shake(bits, Bits(old(Message(input, inlen))), 8 * outlen)
    ensures code == 0 ==> out[outlen..] == old(out[outlen..])
  {
    ghost var message := Message(input, inlen);
    var rate := 200 - bits / 4;
    code := Hash(out, outlen, input, inlen, rate, SHAKE_DELIM, p);
    SpongeBits.ShakeIsFips(p, bits, rate, message, outlen);
  }

  /** The common body of the sha3 and keccak functions. */
  method FixedLength(bits: nat, rate: nat, delim: Octet, out: array?<Octet>, outlen: nat, input: array?<Octet>, inlen: nat,
                     ghost p: State -> State)
    returns (code: int)
    requires SpongeBits.Computes(p) && bits <= 512 && rate == 200 - bits / 4 && 1 <= rate < 200
    requires (out != null ==> outlen <= out.Length) && (input != null ==> inlen <= input.Length)
    modifies if out == null then {} else {out}
    ensures code == if out == null || (input == null && inlen != 0) || outlen > bits / 8 then -1 else 0
    ensures code == -1 && out != null ==> out[..] == old(out[..])
    ensures code == 0 ==> out[..outlen] == Sponge(p, old(Message(input, inlen)), rate, delim, outlen)
    ensures code == 0 ==> out[outlen..] == old(out[outlen..])
  {
    if outlen > bits / 8 { return -1; }
    code := Hash(out, outlen, input, inlen, rate, delim, p);
  }

  /** sha3_224 to sha3_512. */
  method Sha3(bits: nat, out: array?<Octet>, outlen: nat, input: array?<Octet>, inlen: nat, ghost p: State -> State)
    returns (code: int)
    requires SpongeBits.Computes(p) && (bits == 224 || bits == 256 || bits == 384 || bits == 512)
    requires (out != null ==> outlen <= out.Length) && (input != null ==> inlen <= input.Length)
    modifies if out == null then {} else {out}
    ensures code == if out == null || (input == null && inlen != 0) || outlen > bits / 8 then -1 else 0
    ensures code == -1 && out != null ==> out[..] == old(out[..])
    ensures code == 0 ==> Bits(out[..outlen]) == F.Sha3(bits, Bits(old(Message(input, inlen))), 8 * outlen)
    ensures code == 0 ==> out[outlen..] == old(out[outlen..])
  {
    ghost var message := Message(input, inlen);
    var rate := 200 - bits / 4;
    code := FixedLength(bits, rate, SHA3_DELIM, out, outlen, input, inlen, p);
    SpongeBits.Sha3IsFips(p, bits, rate, message, outlen);
  }

  /** keccak_256 and keccak_512. */
  method Keccak256Or512(bits: nat, out: array?<Octet>, outlen: nat, input: array?<Octet>, inlen: nat,
                        ghost p: State -> State)
    returns (code: int)
    requires SpongeBits.Computes(p) && (bits == 256 || bits == 512)
    requires (out != null ==> outlen <= out.Length) && (input != null ==> inlen <= input.Length)
    modifies if out == null then {} else {out}
    ensures code == if out == null || (input == null && inlen != 0) || outlen > bits / 8 then -1 else 0
    ensures code == -1 && out != null ==> out[..] == old(out[..])
    ensures code == 0 ==> Bits(out[..outlen]) == F.Keccak(2 * bits, Bits(old(Message(input, inlen))), 8 * outlen)
    ensures code == 0 ==> out[outlen..] == old(out[outlen..])
  {
    ghost var message := Message(input, inlen);
    var rate := 200 - bits / 4;
    code := FixedLength(bits, rate, KECCAK_DELIM, out, outlen, input, inlen, p);
    SpongeBits.KeccakIsFips(p, bits, rate, message, outlen);
  }
}
