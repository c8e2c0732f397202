/** The permutation Keccak-f[1600] as sections 3.2 and 3.3 of FIPS 202 define it: five maps on a state of
    25 lanes of 64 bits. Lane (x, y) has index x + 5y, and bit z is element z of a lane. */
module KeccakSpec {
  import Words

  type Lane = Words.Limb

  type Lanes = s: seq<Lane> | |s| == 25 witness seq(25, _ => seq(64, _ => false))

  // ---------------------------------------------------------------- words

  function Zero(): Lane { seq(64, _ => false) }

  function Xor(x: Lane, y: Lane): Lane { seq(64, z requires 0 <= z < 64 => x[z] != y[z]) }

  function And(x: Lane, y: Lane): Lane { seq(64, z requires 0 <= z < 64 => x[z] && y[z]) }

  function Not(x: Lane): Lane { seq(64, z requires 0 <= z < 64 => !x[z]) }

  /** The rotation macro of keccak.cpp. */
  function Rol(x: Lane, s: nat): Lane
    requires 0 < s < 64
  {
    Words.Or(Words.Shl(x, s), Words.Shr(x, 64 - s))
  }

  /** The rotation of FIPS 202: bit z comes from bit (z - s) mod 64. */
  function Rotated(x: Lane, s: nat): Lane
    requires s < 64
  {
    seq(64, z requires 0 <= z < 64 => x[(z + 64 - s) % 64])
  }

  lemma RolRotates(x: Lane, s: nat)
    requires 0 < s < 64
    ensures Rol(x, s) == Rotated(x, s)
  {}

  predicate BitOf(c: bv64, z: nat)
    requires z < 64
  {
    (c >> z) & 1 == 1
  }

  /** The bits of a constant. */
  function LaneOf(c: bv64): Lane { seq(64, z requires 0 <= z < 64 => BitOf(c, z)) }

  // ---------------------------------------------------------------- the step mappings

  /** The first n rows of column x, added up. */
  function ColumnUpTo(a: Lanes, x: nat, n: nat): Lane
    requires x < 5 && n <= 5
  {
    if n == 0 then Zero() else Xor(ColumnUpTo(a, x, n - 1), a[x + 5 * (n - 1)])
  }

  function ColumnParity(a: Lanes, x: nat): Lane
    requires x < 5
  {
    ColumnUpTo(a, x, 5)
  }

  /** What theta adds to column x. */
  function ThetaEffect(a: Lanes, x: nat): Lane
    requires x < 5
  {
    Xor(ColumnParity(a, (x + 4) % 5), Rotated(ColumnParity(a, (x + 1) % 5), 1))
  }

  /** Theta (algorithm 1). */
  function Theta(a: Lanes): Lanes { seq(25, i requires 0 <= i < 25 => ThetaLane(a, i)) }

  function ThetaLane(a: Lanes, i: nat): Lane
    requires i < 25
  {
    Xor(a[i], ThetaEffect(a, i % 5))
  }

  /** The table rho: the rotation at step t of the walk. */
  function RhoTable(t: nat): (s: nat)
    requires t < 24
    ensures 0 < s < 64
  {
    match t
    case 0 => 1 case 1 => 3 case 2 => 6 case 3 => 10 case 4 => 15 case 5 => 21 case 6 => 28 case 7 => 36
    case 8 => 45 case 9 => 55 case 10 => 2 case 11 => 14 case 12 => 27 case 13 => 41 case 14 => 56 case 15 => 8
    case 16 => 25 case 17 => 43 case 18 => 62 case 19 => 18 case 20 => 39 case 21 => 61 case 22 => 20 case 23 => 44
  }

  /** It holds the offsets of algorithm 2. */
  lemma RhoTableIsFips(t: nat)
    requires t < 24
    ensures RhoTable(t) == (t + 1) * (t + 2) / 2 % 64
  {}

  /** The walk of rho: from (x, y) to (y, 2x + 3y). */
  function Next(i: nat): (j: nat)
    requires i < 25
    ensures j < 25
  {
    i / 5 + 5 * ((2 * (i % 5) + 3 * (i / 5)) % 5)
  }

  /** Rho (algorithm 2) from step t on, at lane i; c is the state written so far. */
  function RhoFrom(a: Lanes, c: Lanes, i: nat, t: nat): Lanes
    requires i < 25 && t <= 24
    decreases |a|, 24 - t
  {
    if t == 24 then c else RhoFrom(a, c[i := Rotated(a[i], RhoTable(t))], Next(i), t + 1)
  }

  function Rho(a: Lanes): Lanes { RhoFrom(a, a, 1, 0) }

  /** Where pi takes lane i from. */
  function PiSource(i: nat): (j: nat)
    requires i < 25
    ensures j < 25
  {
    (i % 5 + 3 * (i / 5)) % 5 + 5 * (i % 5)
  }

  /** Pi (algorithm 3). */
  function Pi(a: Lanes): Lanes { seq(25, i requires 0 <= i < 25 => a[PiSource(i)]) }

  /** The lane d places to the right of lane i, in the same row. */
  function Right(i: nat, d: nat): (j: nat)
    requires i < 25
    ensures j < 25
  {
    i / 5 * 5 + (i % 5 + d) % 5
  }

  /** Chi (algorithm 4). */
  function Chi(a: Lanes): Lanes { seq(25, i requires 0 <= i < 25 => ChiLane(a, i)) }

  function ChiLane(a: Lanes, i: nat): Lane
    requires i < 25
  {
    Xor(a[i], And(Not(a[Right(i, 1)]), a[Right(i, 2)]))
  }

  /** The table RC. */
  function RoundTable(i: nat): bv64
    requires i < 24
  {
    match i
    case 0 => 0x1 case 1 => 0x8082 case 2 => 0x800000000000808a
    case 3 => 0x8000000080008000 case 4 => 0x808b case 5 => 0x80000001
    case 6 => 0x8000000080008081 case 7 => 0x8000000000008009 case 8 => 0x8a
    case 9 => 0x88 case 10 => 0x80008009 case 11 => 0x8000000a
    case 12 => 0x8000808b case 13 => 0x800000000000008b case 14 => 0x8000000000008089
    case 15 => 0x8000000000008003 case 16 => 0x8000000000008002 case 17 => 0x8000000000000080
    case 18 => 0x800a case 19 => 0x800000008000000a case 20 => 0x8000000080008081
    case 21 => 0x8000000000008080 case 22 => 0x80000001 case 23 => 0x8000000080008008
  }

  /** Iota (algorithm 6). */
  function Iota(a: Lanes, i: nat): Lanes
    requires i < 24
  {
    a[0 := Xor(a[0], LaneOf(RoundTable(i)))]
  }

  function Round(a: Lanes, i: nat): Lanes
    requires i < 24
  {
    Iota(Chi(Pi(Rho(Theta(a)))), i)
  }

  /** The first n rounds (algorithm 7, with all 24 rounds the permutation). */
  function Rounds(a: Lanes, n: nat): Lanes
    requires n <= 24
    decreases |a|, n
  {
    if n == 0 then a else Round(Rounds(a, n - 1), n - 1)
  }

  function KeccakF(a: Lanes): Lanes { Rounds(a, 24) }

  // ---------------------------------------------------------------- the tables of keccak.cpp

  /** The table pi. */
  function PiTable(k: nat): (i: nat)
    requires k < 24
    ensures 0 < i < 25
  {
    match k
    case 0 => 10 case 1 => 7 case 2 => 11 case 3 => 17 case 4 => 18 case 5 => 3 case 6 => 5 case 7 => 16
    case 8 => 8 case 9 => 21 case 10 => 24 case 11 => 4 case 12 => 15 case 13 => 23 case 14 => 19 case 15 => 13
    case 16 => 12 case 17 => 2 case 18 => 20 case 19 => 14 case 20 => 22 case 21 => 9 case 22 => 6 case 23 => 1
  }

  /** The step at which the code writes lane i. */
  function Order(i: nat): (k: nat)
    requires 0 < i < 25
    ensures k < 24
  {
    match i
    case 1 => 23 case 2 => 17 case 3 => 5 case 4 => 11 case 5 => 6 case 6 => 22 case 7 => 1 case 8 => 8
    case 9 => 21 case 10 => 0 case 11 => 2 case 12 => 16 case 13 => 15 case 14 => 19 case 15 => 12 case 16 => 7
    case 17 => 3 case 18 => 4 case 19 => 14 case 20 => 18 case 21 => 9 case 22 => 20 case 23 => 13 case 24 => 10
  }

  lemma OrderIsInverse(k: nat)
    requires k < 24
    ensures Order(PiTable(k)) == k
  {}

  lemma OrderIsOnto(i: nat)
    requires 0 < i < 25
    ensures PiTable(Order(i)) == i
  {}

  /** The lane the walk visits at step k. */
  function Walk(k: nat): (i: nat)
    requires k <= 24
    ensures 0 < i < 25
  {
    if k == 0 then 1 else PiTable(k - 1)
  }

  /** The table pi follows the walk of algorithm 2. */
  lemma PiTableIsFips(k: nat)
    requires k < 24
    ensures Next(Walk(k)) == PiTable(k)
  {
    match k
    case 0 => assert Walk(0) == 1 && Next(1) == 10;
    case 1 => assert Walk(1) == 10 && Next(10) == 7;
    case 2 => assert Walk(2) == 7 && Next(7) == 11;
    case 3 => assert Walk(3) == 11 && Next(11) == 17;
    case 4 => assert Walk(4) == 17 && Next(17) == 18;
    case 5 => assert Walk(5) == 18 && Next(18) == 3;
    case 6 => assert Walk(6) == 3 && Next(3) == 5;
    case 7 => assert Walk(7) == 5 && Next(5) == 16;
    case 8 => assert Walk(8) == 16 && Next(16) == 8;
    case 9 => assert Walk(9) == 8 && Next(8) == 21;
    case 10 => assert Walk(10) == 21 && Next(21) == 24;
    case 11 => assert Walk(11) == 24 && Next(24) == 4;
    case 12 => assert Walk(12) == 4 && Next(4) == 15;
    case 13 => assert Walk(13) == 15 && Next(15) == 23;
    case 14 => assert Walk(14) == 23 && Next(23) == 19;
    case 15 => assert Walk(15) == 19 && Next(19) == 13;
    case 16 => assert Walk(16) == 13 && Next(13) == 12;
    case 17 => assert Walk(17) == 12 && Next(12) == 2;
    case 18 => assert Walk(18) == 2 && Next(2) == 20;
    case 19 => assert Walk(19) == 20 && Next(20) == 14;
    case 20 => assert Walk(20) == 14 && Next(14) == 22;
    case 21 => assert Walk(21) == 22 && Next(22) == 9;
    case 22 => assert Walk(22) == 9 && Next(9) == 6;
    case 23 => assert Walk(23) == 6 && Next(6) == 1;
  }

  /** Pi takes lane i from the lane that the walk reaches i from. */
  lemma SourceIsPredecessor(i: nat)
    requires 0 < i < 25
    ensures PiSource(i) == Walk(Order(i))
  {
    match i
    case 1 => assert PiSource(1) == 6 == Walk(Order(1));
    case 2 => assert PiSource(2) == 12 == Walk(Order(2));
    case 3 => assert PiSource(3) == 18 == Walk(Order(3));
    case 4 => assert PiSource(4) == 24 == Walk(Order(4));
    case 5 => assert PiSource(5) == 3 == Walk(Order(5));
    case 6 => assert PiSource(6) == 9 == Walk(Order(6));
    case 7 => assert PiSource(7) == 10 == Walk(Order(7));
    case 8 => assert PiSource(8) == 16 == Walk(Order(8));
    case 9 => assert PiSource(9) == 22 == Walk(Order(9));
    case 10 => assert PiSource(10) == 1 == Walk(Order(10));
    case 11 => assert PiSource(11) == 7 == Walk(Order(11));
    case 12 => assert PiSource(12) == 13 == Walk(Order(12));
    case 13 => assert PiSource(13) == 19 == Walk(Order(13));
    case 14 => assert PiSource(14) == 20 == Walk(Order(14));
    case 15 => assert PiSource(15) == 4 == Walk(Order(15));
    case 16 => assert PiSource(16) == 5 == Walk(Order(16));
    case 17 => assert PiSource(17) == 11 == Walk(Order(17));
    case 18 => assert PiSource(18) == 17 == Walk(Order(18));
    case 19 => assert PiSource(19) == 23 == Walk(Order(19));
    case 20 => assert PiSource(20) == 2 == Walk(Order(20));
    case 21 => assert PiSource(21) == 8 == Walk(Order(21));
    case 22 => assert PiSource(22) == 14 == Walk(Order(22));
    case 23 => assert PiSource(23) == 15 == Walk(Order(23));
    case 24 => assert PiSource(24) == 21 == Walk(Order(24));
  }

  /** The shift register of algorithm 5 after t steps; bit k holds R[k], and rc(t) is bit 0. */
  function Register(t: nat): bv8 { if t == 0 then 1 else Shifted(Register(t - 1)) }

  function Shifted(r: bv8): bv8 { (r << 1) ^ (if r & 0x80 != 0 then 0x71 else 0) }

  /** Bit 2^j - 1 of c is the bit rc of r, for the seven places of which place is the j-th. */
  predicate Agrees(r: bv8, c: bv64, place: bv64) { (c & place != 0) == (r & 1 == 1) }

  /** The constant of a round against the register at its start: bit 2^j - 1 is the j-th bit rc, and all other
      bits are zero. */
  predicate ConstantOf(r: bv8, c: bv64) {
    var r1 := Shifted(r); var r2 := Shifted(r1); var r3 := Shifted(r2);
    var r4 := Shifted(r3); var r5 := Shifted(r4); var r6 := Shifted(r5);
    && Agrees(r, c, 0x1) && Agrees(r1, c, 0x2) && Agrees(r2, c, 0x8) && Agrees(r3, c, 0x80)
    && Agrees(r4, c, 0x8000) && Agrees(r5, c, 0x80000000) && Agrees(r6, c, 0x8000000000000000)
    && c & !0x800000008000808b == 0
  }

  /** The register after seven more steps. */
  function Seven(r: bv8): bv8 { Shifted(Shifted(Shifted(Shifted(Shifted(Shifted(Shifted(r))))))) }

  lemma RegisterSeven(t: nat)
    ensures Register(t + 7) == Seven(Register(t))
  {
    assert Register(t + 2) == Shifted(Register(t + 1)) == Shifted(Shifted(Register(t)));
    assert Register(t + 4) == Shifted(Register(t + 3)) == Shifted(Shifted(Register(t + 2)));
    assert Register(t + 6) == Shifted(Register(t + 5)) == Shifted(Shifted(Register(t + 4)));
  }

  /** The register at the start of each round. */
  function RegisterTable(i: nat): bv8
    requires i < 24
  {
    match i
    case 0 => 0x01 case 1 => 0x80 case 2 => 0xd8 case 3 => 0x1a case 4 => 0xdf case 5 => 0x09
    case 6 => 0x35 case 7 => 0x4f case 8 => 0xca case 9 => 0x70 case 10 => 0x41 case 11 => 0xec
    case 12 => 0xd5 case 13 => 0xcd case 14 => 0x63 case 15 => 0xab case 16 => 0xaa case 17 => 0x2a
    case 18 => 0xf2 case 19 => 0xe8 case 20 => 0x37 case 21 => 0x3e case 22 => 0x0b case 23 => 0x44
  }

  lemma {:induction false} RegisterAtRound(i: nat, t: nat)
    requires i < 24 && t == 7 * i
    ensures Register(t) == RegisterTable(i)
  {
    if i > 0 {
      RegisterAtRound(i - 1, t - 7);
      NextRound(i, t - 7);
    }
  }

  lemma NextRound(i: nat, t: nat)
    requires 0 < i < 24 && Register(t) == RegisterTable(i - 1)
    ensures Register(t + 7) == RegisterTable(i)
  {
    RegisterSeven(t);
    SevenTable(i);
  }

  lemma SevenTable(i: nat)
    requires 0 < i < 24
    ensures Seven(RegisterTable(i - 1)) == RegisterTable(i)
  {
    match i
    case 1 => assert Seven(0x01) == 0x80;
    case 2 => assert Seven(0x80) == 0xd8;
    case 3 => assert Seven(0xd8) == 0x1a;
    case 4 => assert Seven(0x1a) == 0xdf;
    case 5 => assert Seven(0xdf) == 0x09;
    case 6 => assert Seven(0x09) == 0x35;
    case 7 => assert Seven(0x35) == 0x4f;
    case 8 => assert Seven(0x4f) == 0xca;
    case 9 => assert Seven(0xca) == 0x70;
    case 10 => assert Seven(0x70) == 0x41;
    case 11 => assert Seven(0x41) == 0xec;
    case 12 => assert Seven(0xec) == 0xd5;
    case 13 => assert Seven(0xd5) == 0xcd;
    case 14 => assert Seven(0xcd) == 0x63;
    case 15 => assert Seven(0x63) == 0xab;
    case 16 => assert Seven(0xab) == 0xaa;
    case 17 => assert Seven(0xaa) == 0x2a;
    case 18 => assert Seven(0x2a) == 0xf2;
    case 19 => assert Seven(0xf2) == 0xe8;
    case 20 => assert Seven(0xe8) == 0x37;
    case 21 => assert Seven(0x37) == 0x3e;
    case 22 => assert Seven(0x3e) == 0x0b;
    case 23 => assert Seven(0x0b) == 0x44;
  }

  lemma Constants0()
    ensures ConstantOf(0x01, 0x1) && ConstantOf(0x80, 0x8082)
    ensures ConstantOf(0xd8, 0x800000000000808a) && ConstantOf(0x1a, 0x8000000080008000)
    ensures ConstantOf(0xdf, 0x808b) && ConstantOf(0x09, 0x80000001)
  {}

  lemma Constants6()
    ensures ConstantOf(0x35, 0x8000000080008081) && ConstantOf(0x4f, 0x8000000000008009)
    ensures ConstantOf(0xca, 0x8a) && ConstantOf(0x70, 0x88)
    ensures ConstantOf(0x41, 0x80008009) && ConstantOf(0xec, 0x8000000a)
  {}

  lemma Constants12()
    ensures ConstantOf(0xd5, 0x8000808b) && ConstantOf(0xcd, 0x800000000000008b)
    ensures ConstantOf(0x63, 0x8000000000008089) && ConstantOf(0xab, 0x8000000000008003)
    ensures ConstantOf(0xaa, 0x8000000000008002) && ConstantOf(0x2a, 0x8000000000000080)
  {}

  lemma Constants18()
    ensures ConstantOf(0xf2, 0x800a) && ConstantOf(0xe8, 0x800000008000000a)
    ensures ConstantOf(0x37, 0x8000000080008081) && ConstantOf(0x3e, 0x8000000000008080)
    ensures ConstantOf(0x0b, 0x80000001) && ConstantOf(0x44, 0x8000000080008008)
  {}

  lemma ConstantTable0(i: nat)
    requires 0 <= i < 6
    ensures ConstantOf(RegisterTable(i), RoundTable(i))
  {
    Constants0();
  }

  lemma ConstantTable6(i: nat)
    requires 6 <= i < 12
    ensures ConstantOf(RegisterTable(i), RoundTable(i))
  {
    Constants6();
  }

  lemma ConstantTable12(i: nat)
    requires 12 <= i < 18
    ensures ConstantOf(RegisterTable(i), RoundTable(i))
  {
    Constants12();
  }

  lemma ConstantTable18(i: nat)
    requires 18 <= i < 24
    ensures ConstantOf(RegisterTable(i), RoundTable(i))
  {
    Constants18();
  }

  lemma ConstantTable(i: nat)
    requires i < 24
    ensures ConstantOf(RegisterTable(i), RoundTable(i))
  {
    if i < 6 { ConstantTable0(i); } else if i < 12 { ConstantTable6(i); }
    else if i < 18 { ConstantTable12(i); } else { ConstantTable18(i); }
  }

  /** The table RC holds the round constants of algorithm 5. */
  lemma RoundTableIsFips(i: nat)
    requires i < 24
    ensures ConstantOf(Register(7 * i), RoundTable(i))
  {
    RegisterAtRound(i, 7 * i);
    ConstantTable(i);
  }

  // ---------------------------------------------------------------- what the in-place walk amounts to

  /** The state after step t of the walk of rho, lane by lane. */
  lemma {:induction false} RhoFromAt(a: Lanes, c: Lanes, i: nat, t: nat, k: nat)
    requires t <= 24 && k < 24 && i == Walk(t)
    requires forall j :: 0 <= j < t ==> c[Walk(j)] == Rotated(a[Walk(j)], RhoTable(j))
    requires c[0] == a[0]
    ensures RhoFrom(a, c, i, t)[Walk(k)] == Rotated(a[Walk(k)], RhoTable(k)) && RhoFrom(a, c, i, t)[0] == a[0]
    decreases 24 - t
  {
    if t < 24 {
      PiTableIsFips(t);
      RhoStep(a, c, t);
      RhoFromAt(a, c[i := Rotated(a[i], RhoTable(t))], Next(i), t + 1, k);
    }
  }

  lemma RhoStep(a: Lanes, c: Lanes, t: nat)
    requires t < 24 && forall j :: 0 <= j < t ==> c[Walk(j)] == Rotated(a[Walk(j)], RhoTable(j))
    ensures var d := c[Walk(t) := Rotated(a[Walk(t)], RhoTable(t))];
      d[0] == c[0] && forall j :: 0 <= j < t + 1 ==> d[Walk(j)] == Rotated(a[Walk(j)], RhoTable(j))
  {
    var d := c[Walk(t) := Rotated(a[Walk(t)], RhoTable(t))];
    forall j | 0 <= j < t + 1
      ensures d[Walk(j)] == Rotated(a[Walk(j)], RhoTable(j))
    {
      if j < t { WalkDistinct(j, t); }
    }
  }

  lemma WalkDistinct(j: nat, t: nat)
    requires j < t < 24
    ensures Walk(j) != Walk(t)
  {
    OrderIsInverse(t - 1);
    if j > 0 { OrderIsInverse(j - 1); } else { assert Order(1) == 23; }
  }

  /** Lane i after rho and pi together. */
  lemma RhoPiAt(a: Lanes, i: nat)
    requires i < 25
    ensures i > 0 ==> Pi(Rho(a))[i] == Rol(a[Walk(Order(i))], RhoTable(Order(i)))
    ensures i == 0 ==> Pi(Rho(a))[0] == a[0]
  {
    if i > 0 {
      SourceIsPredecessor(i);
      RhoFromAt(a, a, 1, 0, Order(i));
      RolRotates(a[Walk(Order(i))], RhoTable(Order(i)));
    } else {
      RhoFromAt(a, a, 1, 0, 0);
      assert PiSource(0) == 0;
    }
  }
}
