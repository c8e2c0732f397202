/** FIPS 202 on strings of bits, as the standard writes it: the state is one string of 1600 bits, every step
    mapping is given by its coordinates, and the sponge works on strings. Nothing here knows of words, of
    tables of constants, or of bytes. */
module Fips202 {

  type StateString = s: seq<bool> | |s| == 1600 witness seq(1600, _ => false)

  /** Bit (x, y, z) of the state array (section 3.1.2). */
  function A(s: StateString, x: nat, y: nat, z: nat): bool
    requires x < 5 && y < 5 && z < 64
  {
    s[64 * (5 * y + x) + z]
  }

  // ---------------------------------------------------------------- the step mappings (section 3.2)

  /** The parity of a column. */
  function C(s: StateString, x: nat, z: nat): bool
    requires x < 5 && z < 64
  {
    (((A(s, x, 0, z) != A(s, x, 1, z)) != A(s, x, 2, z)) != A(s, x, 3, z)) != A(s, x, 4, z)
  }

  function ThetaBit(s: StateString, x: nat, y: nat, z: nat): bool
    requires x < 5 && y < 5 && z < 64
  {
    A(s, x, y, z) != (C(s, (x + 4) % 5, z) != C(s, (x + 1) % 5, (z + 63) % 64))
  }

  /** The offsets of rho (table 2). */
  function Offset(x: nat, y: nat): nat
    requires x < 5 && y < 5
  {
    if y == 0 then (if x == 0 then 0 else if x == 1 then 1 else if x == 2 then 190 else if x == 3 then 28 else 91)
    else if y == 1 then
      (if x == 0 then 36 else if x == 1 then 300 else if x == 2 then 6 else if x == 3 then 55 else 276)
    else if y == 2 then
      (if x == 0 then 3 else if x == 1 then 10 else if x == 2 then 171 else if x == 3 then 153 else 231)
    else if y == 3 then
      (if x == 0 then 105 else if x == 1 then 45 else if x == 2 then 15 else if x == 3 then 21 else 136)
    else
      (if x == 0 then 210 else if x == 1 then 66 else if x == 2 then 253 else if x == 3 then 120 else 78)
  }

  function RhoBit(s: StateString, x: nat, y: nat, z: nat): bool
    requires x < 5 && y < 5 && z < 64
  {
    A(s, x, y, (z - Offset(x, y)) % 64)
  }

  function PiBit(s: StateString, x: nat, y: nat, z: nat): bool
    requires x < 5 && y < 5 && z < 64
  {
    A(s, (x + 3 * y) % 5, x, z)
  }

  function ChiBit(s: StateString, x: nat, y: nat, z: nat): bool
    requires x < 5 && y < 5 && z < 64
  {
    A(s, x, y, z) != (!A(s, (x + 1) % 5, y, z) && A(s, (x + 2) % 5, y, z))
  }

  /** The shift register of algorithm 5 after t steps. */
  function Register(t: nat): (r: seq<bool>)
    ensures |r| == 8
  {
    if t == 0 then [true, false, false, false, false, false, false, false] else
      var r := [false] + Register(t - 1);
      [r[0] != r[8], r[1], r[2], r[3], r[4] != r[8], r[5] != r[8], r[6] != r[8], r[7]]
  }

  /** Bit z of the constant of round i (algorithm 6): only the bits 2^j - 1 can be set. */
  function RoundBit(i: nat, z: nat): bool {
    if z == 0 then Register(7 * i)[0]
    else if z == 1 then Register(7 * i + 1)[0]
    else if z == 3 then Register(7 * i + 2)[0]
    else if z == 7 then Register(7 * i + 3)[0]
    else if z == 15 then Register(7 * i + 4)[0]
    else if z == 31 then Register(7 * i + 5)[0]
    else z == 63 && Register(7 * i + 6)[0]
  }

  function IotaBit(s: StateString, i: nat, x: nat, y: nat, z: nat): bool
    requires x < 5 && y < 5 && z < 64
  {
    A(s, x, y, z) != (x == 0 && y == 0 && RoundBit(i, z))
  }

  function Theta(s: StateString): StateString {
    seq(1600, k requires 0 <= k < 1600 => ThetaBit(s, k / 64 % 5, k / 320, k % 64))
  }

  function Rho(s: StateString): StateString {
    seq(1600, k requires 0 <= k < 1600 => RhoBit(s, k / 64 % 5, k / 320, k % 64))
  }

  function Pi(s: StateString): StateString {
    seq(1600, k requires 0 <= k < 1600 => PiBit(s, k / 64 % 5, k / 320, k % 64))
  }

  function Chi(s: StateString): StateString {
    seq(1600, k requires 0 <= k < 1600 => ChiBit(s, k / 64 % 5, k / 320, k % 64))
  }

  function Iota(s: StateString, i: nat): StateString {
    seq(1600, k requires 0 <= k < 1600 => IotaBit(s, i, k / 64 % 5, k / 320, k % 64))
  }

  // ---------------------------------------------------------------- the permutation (section 3.3)

  /** The first n rounds. */
  function KeccakP(s: StateString, n: nat): StateString
    decreases |s|, n
  {
    if n == 0 then s else Iota(Chi(Pi(Rho(Theta(KeccakP(s, n - 1))))), n - 1)
  }

  function KeccakF(s: StateString): StateString { KeccakP(s, 24) }

  // ---------------------------------------------------------------- the sponge (sections 4 and 5.1)

  function Xor(s: seq<bool>, t: seq<bool>): (r: seq<bool>)
    requires |s| == |t|
    ensures |r| == |s|
  {
    seq(|s|, k requires 0 <= k < |s| => s[k] != t[k])
  }

  function Zeros(n: nat): (r: seq<bool>)
    ensures |r| == n
  {
    seq(n, _ => false)
  }

  /** pad10*1. */
  function Pad101(x: nat, m: nat): (p: seq<bool>)
    requires x >= 1
  {
    [true] + Zeros((0 - m - 2) % x) + [true]
  }

  /** The blocks of r bits of a string, absorbed into s one by one. */
  function Absorb(f: StateString -> StateString, s: StateString, p: seq<bool>, r: nat): StateString
    requires 1 <= r <= 1600
    decreases |p|
  {
    if |p| < r then s else Absorb(f, f(Xor(s, p[..r] + Zeros(1600 - r))), p[r..], r)
  }

  /** d bits of output. */
  function Squeeze(f: StateString -> StateString, s: StateString, r: nat, d: nat): (z: seq<bool>)
    requires 1 <= r <= 1600
    ensures |z| == d
    decreases d
  {
    if d <= r then s[..d] else s[..r] + Squeeze(f, f(s), r, d - r)
  }

  /** SPONGE[f, pad10*1, r](n, d) (algorithm 8). */
  function Sponge(f: StateString -> StateString, r: nat, n: seq<bool>, d: nat): (z: seq<bool>)
    requires 1 <= r <= 1600
    ensures |z| == d
  {
    Squeeze(f, Absorb(f, Zeros(1600), n + Pad101(r, |n|), r), r, d)
  }

  /** KECCAK[c](n, d) (section 5.2). */
  function Keccak(c: nat, n: seq<bool>, d: nat): (z: seq<bool>)
    requires c < 1600
    ensures |z| == d
  {
    Sponge(KeccakF, 1600 - c, n, d)
  }

  // ---------------------------------------------------------------- the functions (section 6)

  /** SHA3-v, cut to d bits. */
  function Sha3(v: nat, m: seq<bool>, d: nat): (z: seq<bool>)
    requires v < 800
    ensures |z| == d
  {
    Keccak(2 * v, m + [false, true], d)
  }

  function Shake(v: nat, m: seq<bool>, d: nat): (z: seq<bool>)
    requires v < 800
    ensures |z| == d
  {
    Keccak(2 * v, m + [true, true, true, true], d)
  }
}
