/** The permutation on lanes is Keccak-f[1600] of FIPS 202 on the string of the state's bits: every step
    mapping agrees with its coordinates, and so do the rounds. */
module KeccakBits {
  import opened KeccakSpec
  import F = Fips202

  /** The string of a state: bit z of lane (x, y) is bit 64 (5y + x) + z. */
  function Flat(a: Lanes): F.StateString { seq(1600, k requires 0 <= k < 1600 => a[k / 64][k % 64]) }

  lemma FlatAt(a: Lanes, x: nat, y: nat, z: nat)
    requires x < 5 && y < 5 && z < 64
    ensures F.A(Flat(a), x, y, z) == a[5 * y + x][z]
  {
    var k := 64 * (5 * y + x) + z;
    assert k / 64 == 5 * y + x && k % 64 == z;
  }

  /** The coordinates of bit k. */
  lemma Coordinates(k: nat)
    requires k < 1600
    ensures k / 64 < 25 && k / 320 < 5 && k / 64 == 5 * (k / 320) + k / 64 % 5
    ensures k / 64 / 5 == k / 320
  {}

  /** Two states are the same string when they agree bit by bit. */
  lemma SameString(a: Lanes, s: F.StateString)
    requires forall k :: 0 <= k < 1600 ==> a[k / 64][k % 64] == s[k]
    ensures Flat(a) == s
  {}

  // ---------------------------------------------------------------- theta

  lemma ParityAt(a: Lanes, x: nat, z: nat)
    requires x < 5 && z < 64
    ensures ColumnParity(a, x)[z] == ((((a[x][z] != a[x + 5][z]) != a[x + 10][z]) != a[x + 15][z]) != a[x + 20][z])
  {
    assert ColumnUpTo(a, x, 0)[z] == false;
    assert ColumnUpTo(a, x, 1)[z] == a[x][z];
    assert ColumnUpTo(a, x, 2)[z] == (ColumnUpTo(a, x, 1)[z] != a[x + 5][z]);
    assert ColumnUpTo(a, x, 3)[z] == (ColumnUpTo(a, x, 2)[z] != a[x + 10][z]);
    assert ColumnUpTo(a, x, 4)[z] == (ColumnUpTo(a, x, 3)[z] != a[x + 15][z]);
    assert ColumnUpTo(a, x, 5)[z] == (ColumnUpTo(a, x, 4)[z] != a[x + 20][z]);
  }

  lemma ThetaLaneAt(a: Lanes, i: nat, z: nat)
    requires i < 25 && z < 64
    ensures Theta(a)[i][z] == (a[i][z] !=
      (ColumnParity(a, (i % 5 + 4) % 5)[z] != ColumnParity(a, (i % 5 + 1) % 5)[(z + 63) % 64]))
  {
    assert Theta(a)[i] == ThetaLane(a, i);
    var effect := ThetaEffect(a, i % 5);
    assert effect[z] ==
      (ColumnParity(a, (i % 5 + 4) % 5)[z] != ColumnParity(a, (i % 5 + 1) % 5)[(z + 63) % 64]);
  }

  /** Theta by its coordinates: a bit changes with the parity of the column at its left and that of the column
      at its right one bit down. */
  lemma ThetaAt(a: Lanes, x: nat, y: nat, z: nat)
    requires x < 5 && y < 5 && z < 64
    ensures var l, r, w := (x + 4) % 5, (x + 1) % 5, (z + 63) % 64;
      Theta(a)[x + 5 * y][z] <==> (a[x + 5 * y][z] !=
        (((((a[l][z] != a[l + 5][z]) != a[l + 10][z]) != a[l + 15][z]) != a[l + 20][z]) !=
         ((((a[r][w] != a[r + 5][w]) != a[r + 10][w]) != a[r + 15][w]) != a[r + 20][w])))
  {
    assert (x + 5 * y) % 5 == x;
    ThetaLaneAt(a, x + 5 * y, z);
    ParityAt(a, (x + 4) % 5, z);
    ParityAt(a, (x + 1) % 5, (z + 63) % 64);
  }

  lemma ParityIsFips(a: Lanes, x: nat, z: nat)
    requires x < 5 && z < 64
    ensures F.C(Flat(a), x, z) == ((((a[x][z] != a[x + 5][z]) != a[x + 10][z]) != a[x + 15][z]) != a[x + 20][z])
  {
    FlatAt(a, x, 0, z); FlatAt(a, x, 1, z); FlatAt(a, x, 2, z); FlatAt(a, x, 3, z); FlatAt(a, x, 4, z);
  }

  lemma ThetaBitIsFips(a: Lanes, x: nat, y: nat, z: nat)
    requires x < 5 && y < 5 && z < 64
    ensures Theta(a)[x + 5 * y][z] == F.ThetaBit(Flat(a), x, y, z)
  {
    ThetaAt(a, x, y, z);
    FlatAt(a, x, y, z);
    ParityIsFips(a, (x + 4) % 5, z);
    ParityIsFips(a, (x + 1) % 5, (z + 63) % 64);
  }

  lemma ThetaString(a: Lanes, k: nat)
    requires k < 1600
    ensures Theta(a)[k / 64][k % 64] == F.Theta(Flat(a))[k]
  {
    Coordinates(k);
    ThetaBitIsFips(a, k / 64 % 5, k / 320, k % 64);
  }

  lemma ThetaIsFips(a: Lanes)
    ensures Flat(Theta(a)) == F.Theta(Flat(a))
  {
    forall k | 0 <= k < 1600
      ensures Theta(a)[k / 64][k % 64] == F.Theta(Flat(a))[k]
    {
      ThetaString(a, k);
    }
    SameString(Theta(a), F.Theta(Flat(a)));
  }

  // ---------------------------------------------------------------- rho

  /** The step at which the walk rotates lane i. */
  function Visit(i: nat): (t: nat)
    requires 0 < i < 25
    ensures t < 24
  {
    if i == 1 then 0 else if Order(i) < 23 then Order(i) + 1 else 0
  }

  lemma VisitIsRight(i: nat)
    requires 0 < i < 25
    ensures Walk(Visit(i)) == i
  {
    OrderIsOnto(i);
    assert PiTable(23) == 1;
  }

  /** The walk's offsets are those of table 2. */
  lemma OffsetIsTable2(x: nat, y: nat)
    requires x < 5 && y < 5 && 0 < 5 * y + x
    ensures RhoTable(Visit(5 * y + x)) == F.Offset(x, y) % 64
  {}

  lemma WalkReaches(x: nat, y: nat) returns (t: nat)
    requires x < 5 && y < 5 && 0 < 5 * y + x
    ensures t < 24 && Walk(t) == 5 * y + x && RhoTable(t) == F.Offset(x, y) % 64
  {
    t := Visit(5 * y + x);
    VisitIsRight(5 * y + x);
    OffsetIsTable2(x, y);
  }

  lemma RotatedBit(l: Lane, offset: nat, z: nat)
    requires z < 64
    ensures Rotated(l, offset % 64)[z] == l[(z - offset) % 64]
  {
    assert (z + 64 - offset % 64) % 64 == (z - offset) % 64;
  }

  lemma RhoLane(a: Lanes, i: nat, t: nat, offset: nat, z: nat)
    requires t < 24 && i == Walk(t) && RhoTable(t) == offset % 64 && z < 64
    ensures Rho(a)[i][z] == a[i][(z - offset) % 64]
  {
    RhoFromAt(a, a, 1, 0, t);
    RotatedBit(a[i], offset, z);
  }

  lemma RhoOrigin(a: Lanes)
    ensures Rho(a)[0] == a[0]
  {
    RhoFromAt(a, a, 1, 0, 0);
  }

  /** Rho by its coordinates: a bit comes from Offset(x, y) places down in its lane. */
  lemma RhoAt(a: Lanes, x: nat, y: nat, z: nat)
    requires x < 5 && y < 5 && z < 64
    ensures Rho(a)[x + 5 * y][z] == a[x + 5 * y][(z - F.Offset(x, y)) % 64]
  {
    if 5 * y + x == 0 {
      RhoOrigin(a);
    } else {
      var t := WalkReaches(x, y);
      RhoLane(a, 5 * y + x, t, F.Offset(x, y), z);
    }
  }

  lemma RhoString(a: Lanes, k: nat)
    requires k < 1600
    ensures Rho(a)[k / 64][k % 64] == F.Rho(Flat(a))[k]
  {
    Coordinates(k);
    RhoAt(a, k / 64 % 5, k / 320, k % 64);
    FlatAt(a, k / 64 % 5, k / 320, (k % 64 - F.Offset(k / 64 % 5, k / 320)) % 64);
  }

  lemma RhoIsFips(a: Lanes)
    ensures Flat(Rho(a)) == F.Rho(Flat(a))
  {
    forall k | 0 <= k < 1600
      ensures Rho(a)[k / 64][k % 64] == F.Rho(Flat(a))[k]
    {
      RhoString(a, k);
    }
    SameString(Rho(a), F.Rho(Flat(a)));
  }

  // ---------------------------------------------------------------- pi and chi

  /** Pi by its coordinates. */
  lemma PiAt(a: Lanes, x: nat, y: nat)
    requires x < 5 && y < 5
    ensures Pi(a)[x + 5 * y] == a[(x + 3 * y) % 5 + 5 * x]
  {
    assert (5 * y + x) % 5 == x && (5 * y + x) / 5 == y;
  }

  lemma PiString(a: Lanes, k: nat)
    requires k < 1600
    ensures Pi(a)[k / 64][k % 64] == F.Pi(Flat(a))[k]
  {
    Coordinates(k);
    PiAt(a, k / 64 % 5, k / 320);
    FlatAt(a, (k / 64 % 5 + 3 * (k / 320)) % 5, k / 64 % 5, k % 64);
  }

  lemma PiIsFips(a: Lanes)
    ensures Flat(Pi(a)) == F.Pi(Flat(a))
  {
    forall k | 0 <= k < 1600
      ensures Pi(a)[k / 64][k % 64] == F.Pi(Flat(a))[k]
    {
      PiString(a, k);
    }
    SameString(Pi(a), F.Pi(Flat(a)));
  }

  lemma Neighbours(x: nat, y: nat)
    requires x < 5 && y < 5
    ensures Right(5 * y + x, 1) == (x + 1) % 5 + 5 * y && Right(5 * y + x, 2) == (x + 2) % 5 + 5 * y
  {
    assert (5 * y + x) / 5 == y && (5 * y + x) % 5 == x;
  }

  lemma ChiLaneAt(a: Lanes, i: nat, z: nat)
    requires i < 25 && z < 64
    ensures Chi(a)[i][z] == (a[i][z] != (!a[Right(i, 1)][z] && a[Right(i, 2)][z]))
  {
    assert Chi(a)[i] == ChiLane(a, i);
  }

  /** Chi by its coordinates: a bit changes where its right neighbour is clear and the next one set. */
  lemma ChiAt(a: Lanes, x: nat, y: nat, z: nat)
    requires x < 5 && y < 5 && z < 64
    ensures Chi(a)[x + 5 * y][z] <==>
      (a[x + 5 * y][z] != (!a[(x + 1) % 5 + 5 * y][z] && a[(x + 2) % 5 + 5 * y][z]))
  {
    Neighbours(x, y);
    ChiLaneAt(a, x + 5 * y, z);
  }

  lemma ChiString(a: Lanes, k: nat)
    requires k < 1600
    ensures Chi(a)[k / 64][k % 64] == F.Chi(Flat(a))[k]
  {
    Coordinates(k);
    var x, y, z := k / 64 % 5, k / 320, k % 64;
    ChiAt(a, x, y, z);
    FlatAt(a, x, y, z); FlatAt(a, (x + 1) % 5, y, z); FlatAt(a, (x + 2) % 5, y, z);
  }

  lemma ChiIsFips(a: Lanes)
    ensures Flat(Chi(a)) == F.Chi(Flat(a))
  {
    forall k | 0 <= k < 1600
      ensures Chi(a)[k / 64][k % 64] == F.Chi(Flat(a))[k]
    {
      ChiString(a, k);
    }
    SameString(Chi(a), F.Chi(Flat(a)));
  }

  /** Chi loses nothing: no two states have the same image. */
  lemma ChiInjective(a: Lanes, b: Lanes)
    requires Chi(a) == Chi(b)
    ensures a == b
  {
    forall i, z | 0 <= i < 25 && 0 <= z < 64
      ensures a[i][z] == b[i][z]
    {
      BitAgrees(a, b, i % 5, i / 5, z);
    }
    forall i | 0 <= i < 25
      ensures a[i] == b[i]
    {
      assert forall z :: 0 <= z < 64 ==> a[i][z] == b[i][z];
    }
  }

  /** Bit z of the row of lane y that has x in it, from x on. */
  lemma BitAgrees(a: Lanes, b: Lanes, x: nat, y: nat, z: nat)
    requires Chi(a) == Chi(b) && x < 5 && y < 5 && z < 64
    ensures a[x + 5 * y][z] == b[x + 5 * y][z]
  {
    var x1, x2, x3, x4 := (x + 1) % 5, (x + 2) % 5, (x + 3) % 5, (x + 4) % 5;
    ChiAgrees(a, b, x, x1, x2, y, z);
    ChiAgrees(a, b, x1, x2, x3, y, z);
    ChiAgrees(a, b, x2, x3, x4, y, z);
    ChiAgrees(a, b, x3, x4, x, y, z);
    ChiAgrees(a, b, x4, x, x1, y, z);
    RowInjective(a[x + 5 * y][z], a[x1 + 5 * y][z], a[x2 + 5 * y][z], a[x3 + 5 * y][z], a[x4 + 5 * y][z],
                 b[x + 5 * y][z], b[x1 + 5 * y][z], b[x2 + 5 * y][z], b[x3 + 5 * y][z], b[x4 + 5 * y][z]);
  }

  lemma ChiAgrees(a: Lanes, b: Lanes, x: nat, x1: nat, x2: nat, y: nat, z: nat)
    requires Chi(a) == Chi(b) && x < 5 && y < 5 && z < 64 && x1 == (x + 1) % 5 && x2 == (x + 2) % 5
    ensures (a[x + 5 * y][z] != (!a[x1 + 5 * y][z] && a[x2 + 5 * y][z])) ==
      (b[x + 5 * y][z] != (!b[x1 + 5 * y][z] && b[x2 + 5 * y][z]))
  {
    ChiAt(a, x, y, z);
    ChiAt(b, x, y, z);
  }

  lemma RowInjective(a0: bool, a1: bool, a2: bool, a3: bool, a4: bool, b0: bool, b1: bool, b2: bool, b3: bool, b4: bool)
    requires (a0 != (!a1 && a2)) == (b0 != (!b1 && b2)) && (a1 != (!a2 && a3)) == (b1 != (!b2 && b3))
    requires (a2 != (!a3 && a4)) == (b2 != (!b3 && b4)) && (a3 != (!a4 && a0)) == (b3 != (!b4 && b0))
    requires (a4 != (!a0 && a1)) == (b4 != (!b0 && b1))
    ensures a0 == b0
  {}

  // ---------------------------------------------------------------- iota

  /** The bits of the register. */
  function RegisterBits(r: bv8): (b: seq<bool>)
    ensures |b| == 8
  {
    [r & 0x01 != 0, r & 0x02 != 0, r & 0x04 != 0, r & 0x08 != 0,
     r & 0x10 != 0, r & 0x20 != 0, r & 0x40 != 0, r & 0x80 != 0]
  }

  lemma ShiftedBits(r: bv8)
    ensures var s := [false] + RegisterBits(r);
      RegisterBits(Shifted(r)) ==
        [s[0] != s[8], s[1], s[2], s[3], s[4] != s[8], s[5] != s[8], s[6] != s[8], s[7]]
  {}

  lemma {:induction false} RegisterIsFips(t: nat)
    ensures RegisterBits(Register(t)) == F.Register(t)
  {
    if t > 0 {
      RegisterIsFips(t - 1);
      ShiftedBits(Register(t - 1));
    }
  }

  lemma FirstBit(t: nat)
    ensures (Register(t) & 1 == 1) == F.Register(t)[0]
  {
    RegisterIsFips(t);
    LowBit(Register(t));
  }

  lemma LowBit(r: bv8)
    ensures (r & 1 == 1) == (r & 0x01 != 0)
  {}

  /** The seven places of a constant, and what its other bits are. */
  lemma Places(c: bv64)
    ensures ((c >> 0) & 1 == 1) == (c & 0x1 != 0) && ((c >> 1) & 1 == 1) == (c & 0x2 != 0)
    ensures ((c >> 3) & 1 == 1) == (c & 0x8 != 0) && ((c >> 7) & 1 == 1) == (c & 0x80 != 0)
    ensures ((c >> 15) & 1 == 1) == (c & 0x8000 != 0) && ((c >> 31) & 1 == 1) == (c & 0x80000000 != 0)
    ensures ((c >> 63) & 1 == 1) == (c & 0x8000000000000000 != 0)
  {}

  lemma Quiet0(c: bv64)
    requires c & !0x800000008000808b == 0
    ensures !BitOf(c, 2) && !BitOf(c, 4) && !BitOf(c, 5) && !BitOf(c, 6) && !BitOf(c, 8) && !BitOf(c, 9)
    ensures !BitOf(c, 10) && !BitOf(c, 11) && !BitOf(c, 12) && !BitOf(c, 13) && !BitOf(c, 14)
  {}

  lemma Quiet16(c: bv64)
    requires c & !0x800000008000808b == 0
    ensures !BitOf(c, 16) && !BitOf(c, 17) && !BitOf(c, 18) && !BitOf(c, 19) && !BitOf(c, 20) && !BitOf(c, 21)
    ensures !BitOf(c, 22) && !BitOf(c, 23) && !BitOf(c, 24) && !BitOf(c, 25) && !BitOf(c, 26) && !BitOf(c, 27)
    ensures !BitOf(c, 28) && !BitOf(c, 29) && !BitOf(c, 30)
  {}

  lemma Quiet32(c: bv64)
    requires c & !0x800000008000808b == 0
    ensures !BitOf(c, 32) && !BitOf(c, 33) && !BitOf(c, 34) && !BitOf(c, 35) && !BitOf(c, 36) && !BitOf(c, 37)
    ensures !BitOf(c, 38) && !BitOf(c, 39) && !BitOf(c, 40) && !BitOf(c, 41) && !BitOf(c, 42) && !BitOf(c, 43)
    ensures !BitOf(c, 44) && !BitOf(c, 45) && !BitOf(c, 46) && !BitOf(c, 47)
  {}

  lemma Quiet48(c: bv64)
    requires c & !0x800000008000808b == 0
    ensures !BitOf(c, 48) && !BitOf(c, 49) && !BitOf(c, 50) && !BitOf(c, 51) && !BitOf(c, 52) && !BitOf(c, 53)
    ensures !BitOf(c, 54) && !BitOf(c, 55) && !BitOf(c, 56) && !BitOf(c, 57) && !BitOf(c, 58) && !BitOf(c, 59)
    ensures !BitOf(c, 60) && !BitOf(c, 61) && !BitOf(c, 62)
  {}

  /** A constant with no bits but the seven has no other bit. */
  lemma QuietBit(c: bv64, z: nat)
    requires c & !0x800000008000808b == 0 && z < 64
    requires z != 0 && z != 1 && z != 3 && z != 7 && z != 15 && z != 31 && z != 63
    ensures !BitOf(c, z)
  {
    if z < 16 { Quiet0(c); } else if z < 32 { Quiet16(c); } else if z < 48 { Quiet32(c); } else { Quiet48(c); }
  }

  lemma RegisterSteps(t: nat)
    ensures var r := Register(t); var r1 := Shifted(r); var r2 := Shifted(r1); var r3 := Shifted(r2);
      var r4 := Shifted(r3); var r5 := Shifted(r4); var r6 := Shifted(r5);
      && r1 == Register(t + 1) && r2 == Register(t + 2) && r3 == Register(t + 3)
      && r4 == Register(t + 4) && r5 == Register(t + 5) && r6 == Register(t + 6)
  {
    assert Register(t + 2) == Shifted(Register(t + 1)) && Register(t + 4) == Shifted(Register(t + 3));
    assert Register(t + 6) == Shifted(Register(t + 5));
  }

  lemma RegisterPlaces(t: nat, c: bv64)
    requires ConstantOf(Register(t), c)
    ensures BitOf(c, 0) == (Register(t) & 1 == 1) && BitOf(c, 1) == (Register(t + 1) & 1 == 1)
    ensures BitOf(c, 3) == (Register(t + 2) & 1 == 1) && BitOf(c, 7) == (Register(t + 3) & 1 == 1)
    ensures BitOf(c, 15) == (Register(t + 4) & 1 == 1) && BitOf(c, 31) == (Register(t + 5) & 1 == 1)
    ensures BitOf(c, 63) == (Register(t + 6) & 1 == 1)
  {
    RegisterSteps(t);
    Places(c);
  }

  /** The places of a lane, in the order of the register's steps. */
  predicate HoldsFirst(l: Lane, t: nat) {
    && l[0] == F.Register(t)[0] && l[1] == F.Register(t + 1)[0] && l[3] == F.Register(t + 2)[0]
    && l[7] == F.Register(t + 3)[0]
  }

  predicate HoldsLast(l: Lane, t: nat) {
    l[15] == F.Register(t + 4)[0] && l[31] == F.Register(t + 5)[0] && l[63] == F.Register(t + 6)[0]
  }

  lemma ConstantHoldsFirst(t: nat, c: bv64)
    requires ConstantOf(Register(t), c)
    ensures HoldsFirst(LaneOf(c), t)
  {
    RegisterPlaces(t, c);
    FirstBit(t); FirstBit(t + 1); FirstBit(t + 2); FirstBit(t + 3);
  }

  lemma ConstantHoldsLast(t: nat, c: bv64)
    requires ConstantOf(Register(t), c)
    ensures HoldsLast(LaneOf(c), t)
  {
    RegisterPlaces(t, c);
    FirstBit(t + 4); FirstBit(t + 5); FirstBit(t + 6);
  }

  lemma ConstantQuiet(r: bv8, c: bv64, z: nat)
    requires ConstantOf(r, c) && z < 64
    requires z != 0 && z != 1 && z != 3 && z != 7 && z != 15 && z != 31 && z != 63
    ensures !LaneOf(c)[z]
  {
    QuietBit(c, z);
  }

  lemma PlaceOfRound(l: Lane, i: nat, z: nat)
    requires HoldsFirst(l, 7 * i) && HoldsLast(l, 7 * i)
    requires z == 0 || z == 1 || z == 3 || z == 7 || z == 15 || z == 31 || z == 63
    ensures l[z] == F.RoundBit(i, z)
  {}

  lemma ConstantPlace(i: nat, c: bv64, z: nat)
    requires ConstantOf(Register(7 * i), c)
    requires z == 0 || z == 1 || z == 3 || z == 7 || z == 15 || z == 31 || z == 63
    ensures LaneOf(c)[z] == F.RoundBit(i, z)
  {
    ConstantHoldsFirst(7 * i, c);
    ConstantHoldsLast(7 * i, c);
    PlaceOfRound(LaneOf(c), i, z);
  }

  /** The constants of keccak.cpp, bit by bit. */
  lemma ConstantAt(i: nat, z: nat)
    requires i < 24 && z < 64
    ensures LaneOf(RoundTable(i))[z] == F.RoundBit(i, z)
  {
    RoundTableIsFips(i);
    if z == 0 || z == 1 || z == 3 || z == 7 || z == 15 || z == 31 || z == 63 {
      ConstantPlace(i, RoundTable(i), z);
    } else {
      ConstantQuiet(Register(7 * i), RoundTable(i), z);
    }
  }

  /** Iota by its coordinates. */
  lemma IotaAt(a: Lanes, i: nat, x: nat, y: nat, z: nat)
    requires i < 24 && x < 5 && y < 5 && z < 64
    ensures Iota(a, i)[x + 5 * y][z] == (a[x + 5 * y][z] != (x == 0 && y == 0 && F.RoundBit(i, z)))
  {
    ConstantAt(i, z);
  }

  lemma IotaString(a: Lanes, i: nat, k: nat)
    requires i < 24 && k < 1600
    ensures Iota(a, i)[k / 64][k % 64] == F.Iota(Flat(a), i)[k]
  {
    Coordinates(k);
    IotaAt(a, i, k / 64 % 5, k / 320, k % 64);
    FlatAt(a, k / 64 % 5, k / 320, k % 64);
  }

  lemma IotaIsFips(a: Lanes, i: nat)
    requires i < 24
    ensures Flat(Iota(a, i)) == F.Iota(Flat(a), i)
  {
    forall k | 0 <= k < 1600
      ensures Iota(a, i)[k / 64][k % 64] == F.Iota(Flat(a), i)[k]
    {
      IotaString(a, i, k);
    }
    SameString(Iota(a, i), F.Iota(Flat(a), i));
  }

  // ---------------------------------------------------------------- the permutation

  lemma RoundIsFips(a: Lanes, i: nat)
    requires i < 24
    ensures Flat(Round(a, i)) == F.Iota(F.Chi(F.Pi(F.Rho(F.Theta(Flat(a))))), i)
  {
    ThetaIsFips(a);
    RhoIsFips(Theta(a));
    PiIsFips(Rho(Theta(a)));
    ChiIsFips(Pi(Rho(Theta(a))));
    IotaIsFips(Chi(Pi(Rho(Theta(a)))), i);
  }

  lemma {:induction false} RoundsAreFips(a: Lanes, n: nat)
    requires n <= 24
    ensures Flat(Rounds(a, n)) == F.KeccakP(Flat(a), n)
    decreases n
  {
    if n > 0 {
      RoundsAreFips(a, n - 1);
      RoundIsFips(Rounds(a, n - 1), n - 1);
    }
  }

  /** The permutation of keccak.cpp, on lanes, is Keccak-f[1600] on the string of the state's bits. */
  lemma KeccakFIsFips(a: Lanes)
    ensures Flat(KeccakF(a)) == F.KeccakF(Flat(a))
  {
    RoundsAreFips(a, 24);
  }
}
