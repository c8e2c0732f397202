/** keccakf of keccak.cpp: the permutation computed in place, with one five-lane scratch array. */
module Keccak {
  import opened KeccakSpec
  import F = Fips202
  import KeccakBits

  /** The first half of theta: the column parities. */
  method Parities(a: array<Lane>, b: array<Lane>)
    requires a.Length == 25 && b.Length == 5 && a != b
    modifies b
    ensures forall x :: 0 <= x < 5 ==> b[x] == ColumnParity(a[..], x)
  {
    ghost var s: Lanes := a[..];
    var x := 0;
    while x < 5
      invariant 0 <= x <= 5 && a[..] == s && forall j :: 0 <= j < x ==> b[j] == ColumnParity(s, j)
    {
      b[x] := Zero();
      var y := 0;
      ghost var row := 0;
      while y < 25
        invariant 0 <= row <= 5 && y == 5 * row && a[..] == s && b[x] == ColumnUpTo(s, x, row)
        invariant forall j :: 0 <= j < x ==> b[j] == ColumnParity(s, j)
      {
        b[x] := Xor(b[x], a[x + y]);
        y, row := y + 5, row + 1;
      }
      x := x + 1;
    }
  }

  /** The lanes after the columns before x and the first rows of column x have taken their values in t. */
  ghost predicate ColumnsUpTo(s: Lanes, t: Lanes, a: seq<Lane>, x: int, rows: int) {
    |a| == 25 && forall i :: 0 <= i < 25 ==> a[i] == if i % 5 < x || (i % 5 == x && i / 5 < rows) then t[i] else s[i]
  }

  lemma ColumnStep(s: Lanes, t: Lanes, a: seq<Lane>, x: nat, row: nat, v: Lane)
    requires ColumnsUpTo(s, t, a, x, row) && x < 5 && row < 5 && v == t[5 * row + x]
    ensures a[5 * row + x] == s[5 * row + x] && ColumnsUpTo(s, t, a[5 * row + x := v], x, row + 1)
  {
    assert (5 * row + x) % 5 == x && (5 * row + x) / 5 == row;
  }

  lemma ColumnDone(s: Lanes, t: Lanes, a: seq<Lane>, x: nat)
    requires ColumnsUpTo(s, t, a, x, 5)
    ensures ColumnsUpTo(s, t, a, x + 1, 0)
  {}

  lemma EffectIsRotation(s: Lanes, x: nat, p: Lane, q: Lane)
    requires x < 5 && p == ColumnParity(s, (x + 4) % 5) && q == ColumnParity(s, (x + 1) % 5)
    ensures Xor(p, Rol(q, 1)) == ThetaEffect(s, x)
  {
    RolRotates(q, 1);
  }

  lemma ThetaColumn(s: Lanes, t: Lanes, x: nat)
    requires t == Theta(s) && x < 5
    ensures forall i :: 0 <= i < 25 && i % 5 == x ==> t[i] == Xor(s[i], ThetaEffect(s, x))
  {
    forall i | 0 <= i < 25 && i % 5 == x ensures t[i] == Xor(s[i], ThetaEffect(s, x)) {
      assert t[i] == ThetaLane(s, i);
    }
  }

  /** The second half of theta on column x, given what it adds. */
  method AddToColumn(a: array<Lane>, b: array<Lane>, x: nat, ghost s: Lanes, ghost t: Lanes, ghost e: Lane)
    requires a.Length == 25 && b.Length == 5 && a != b && x < 5 && ColumnsUpTo(s, t, a[..], x, 0)
    requires e == Xor(b[(x + 4) % 5], Rol(b[(x + 1) % 5], 1))
    requires forall i :: 0 <= i < 25 && i % 5 == x ==> t[i] == Xor(s[i], e)
    modifies a
    ensures ColumnsUpTo(s, t, a[..], x, 5)
  {
    var y := 0;
    ghost var row := 0;
    while y < 25
      invariant 0 <= row <= 5 && y == 5 * row && ColumnsUpTo(s, t, a[..], x, row)
    {
      ghost var before := a[..];
      ColumnStep(s, t, before, x, row, t[5 * row + x]);
      a[y + x] := Xor(a[y + x], Xor(b[(x + 4) % 5], Rol(b[(x + 1) % 5], 1)));
      assert a[..] == before[5 * row + x := t[5 * row + x]];
      y, row := y + 5, row + 1;
    }
  }

  /** The second half of theta. */
  method AddEffects(a: array<Lane>, b: array<Lane>, ghost s: Lanes, ghost t: Lanes)
    requires a.Length == 25 && b.Length == 5 && a != b && a[..] == s && t == Theta(s)
    requires forall j :: 0 <= j < 5 ==> b[j] == ColumnParity(s, j)
    modifies a
    ensures a[..] == t
  {
    var x := 0;
    while x < 5
      invariant 0 <= x <= 5 && ColumnsUpTo(s, t, a[..], x, 0)
    {
      EffectIsRotation(s, x, b[(x + 4) % 5], b[(x + 1) % 5]);
      ThetaColumn(s, t, x);
      AddToColumn(a, b, x, s, t, ThetaEffect(s, x));
      ColumnDone(s, t, a[..], x);
      x := x + 1;
    }
    assert a[..] == t;
  }

  /** Theta, in place. */
  method ThetaInPlace(a: array<Lane>, b: array<Lane>)
    requires a.Length == 25 && b.Length == 5 && a != b
    modifies a, b
    ensures a[..] == Theta(old(a[..]))
    ensures KeccakBits.Flat(a[..]) == F.Theta(KeccakBits.Flat(old(a[..])))
  {
    Parities(a, b);
    ghost var s: Lanes := a[..];
    AddEffects(a, b, s, Theta(s));
    KeccakBits.ThetaIsFips(s);
  }

  /** The lanes after the first x steps of the walk. */
  ghost predicate WalkedUpTo(s: Lanes, a: seq<Lane>, x: int) {
    |a| == 25 && a[0] == s[0] && forall i :: 0 < i < 25 ==> a[i] == if Order(i) < x then Moved(s, i) else s[i]
  }

  /** Lane i when the walk has written it. */
  ghost function Moved(s: Lanes, i: nat): Lane
    requires 0 < i < 25
  {
    Rol(s[Walk(Order(i))], RhoTable(Order(i)))
  }

  lemma WalkStep(s: Lanes, a: seq<Lane>, x: nat, v: Lane)
    requires WalkedUpTo(s, a, x) && x < 24 && v == Rol(s[Walk(x)], RhoTable(x))
    ensures a[PiTable(x)] == s[PiTable(x)] && WalkedUpTo(s, a[PiTable(x) := v], x + 1)
  {
    OrderIsInverse(x);
    forall i | 0 < i < 25 && Order(i) == x ensures i == PiTable(x) { OrderIsOnto(i); }
  }

  lemma WalkDone(s: Lanes, a: seq<Lane>)
    requires WalkedUpTo(s, a, 24)
    ensures a == Pi(Rho(s))
  {
    var t := Pi(Rho(s));
    forall i | 0 <= i < 25 ensures a[i] == t[i] { WalkDoneAt(s, a, t, i); }
    SameLanes(a, t);
  }

  lemma SameLanes(a: seq<Lane>, t: seq<Lane>)
    requires |a| == |t| && forall i :: 0 <= i < |t| ==> a[i] == t[i]
    ensures a == t
  {}

  lemma WalkDoneAt(s: Lanes, a: seq<Lane>, t: Lanes, i: nat)
    requires WalkedUpTo(s, a, 24) && i < 25 && t == Pi(Rho(s))
    ensures a[i] == t[i]
  {
    RhoPiAt(s, i);
    if i > 0 { assert Order(i) < 24; }
  }

  /** Rho and pi, in place: one walk through the 24 lanes other than the first, holding one lane back. */
  method RhoPiInPlace(a: array<Lane>, b: array<Lane>)
    requires a.Length == 25 && b.Length == 5 && a != b
    modifies a, b
    ensures a[..] == Pi(Rho(old(a[..])))
    ensures KeccakBits.Flat(a[..]) == F.Pi(F.Rho(KeccakBits.Flat(old(a[..]))))
  {
    ghost var s: Lanes := a[..];
    var t := a[1];
    var x := 0;
    while x < 24
      invariant 0 <= x <= 24 && t == s[Walk(x)] && WalkedUpTo(s, a[..], x)
    {
      ghost var before := a[..];
      WalkStep(s, before, x, Rol(t, RhoTable(x)));
      b[0] := a[PiTable(x)];
      a[PiTable(x)] := Rol(t, RhoTable(x));
      assert a[..] == before[PiTable(x) := Rol(t, RhoTable(x))];
      t := b[0];
      x := x + 1;
    }
    WalkDone(s, a[..]);
    KeccakBits.RhoIsFips(s);
    KeccakBits.PiIsFips(Rho(s));
  }

  /** The lanes after the first n of them have taken their values in t. */
  ghost predicate FirstUpTo(s: Lanes, t: Lanes, a: seq<Lane>, n: int) {
    |a| == 25 && forall i :: 0 <= i < 25 ==> a[i] == if i < n then t[i] else s[i]
  }

  lemma RowNeighbours(row: nat, x: nat)
    requires row < 5 && x < 5
    ensures Right(5 * row + x, 1) == 5 * row + (x + 1) % 5 && Right(5 * row + x, 2) == 5 * row + (x + 2) % 5
  {
    assert (5 * row + x) / 5 == row && (5 * row + x) % 5 == x;
  }

  lemma FirstStep(s: Lanes, t: Lanes, a: seq<Lane>, n: nat)
    requires FirstUpTo(s, t, a, n) && n < 25
    ensures FirstUpTo(s, t, a[n := t[n]], n + 1)
  {}

  /** The row about to be overwritten is saved. */
  method SaveRow(a: array<Lane>, b: array<Lane>, y: nat)
    requires a.Length == 25 && b.Length == 5 && a != b && y + 5 <= 25
    modifies b
    ensures forall j :: 0 <= j < 5 ==> b[j] == a[y + j]
  {
    var x := 0;
    while x < 5
      invariant 0 <= x <= 5 && forall j :: 0 <= j < x ==> b[j] == a[y + j]
    {
      b[x] := a[y + x];
      x := x + 1;
    }
  }

  /** One row of chi, in place; t is the state to be reached. */
  method ChiRow(a: array<Lane>, b: array<Lane>, y: nat, ghost s: Lanes, ghost t: Lanes, ghost row: nat)
    requires a.Length == 25 && b.Length == 5 && a != b && row < 5 && y == 5 * row && FirstUpTo(s, t, a[..], y)
    requires forall j :: 0 <= j < 5 ==> b[j] == s[y + j]
    requires forall i :: 0 <= i < 25 ==> t[i] == ChiLane(s, i)
    modifies a
    ensures FirstUpTo(s, t, a[..], y + 5)
  {
    var x := 0;
    while x < 5
      invariant 0 <= x <= 5 && FirstUpTo(s, t, a[..], y + x)
    {
      ghost var before := a[..];
      FirstStep(s, t, before, y + x);
      var next := (x + 1) % 5;
      var afterNext := (x + 2) % 5;
      RowNeighbours(row, x);
      assert t[y + x] == Xor(b[x], And(Not(b[next]), b[afterNext]));
      a[y + x] := Xor(b[x], And(Not(b[next]), b[afterNext]));
      assert a[..] == before[y + x := t[y + x]];
      x := x + 1;
    }
  }

  /** Chi, in place, row by row. */
  method ChiInPlace(a: array<Lane>, b: array<Lane>)
    requires a.Length == 25 && b.Length == 5 && a != b
    modifies a, b
    ensures a[..] == Chi(old(a[..]))
    ensures KeccakBits.Flat(a[..]) == F.Chi(KeccakBits.Flat(old(a[..])))
  {
    ghost var s: Lanes := a[..];
    ghost var t := Chi(s);
    var y := 0;
    ghost var row := 0;
    while y < 25
      invariant 0 <= row <= 5 && y == 5 * row && FirstUpTo(s, t, a[..], y)
    {
      SaveRow(a, b, y);
      ChiRow(a, b, y, s, t, row);
      y, row := y + 5, row + 1;
    }
    assert a[..] == t;
    KeccakBits.ChiIsFips(s);
  }

  /** One round of keccakf. */
  method RoundInPlace(a: array<Lane>, b: array<Lane>, i: nat)
    requires a.Length == 25 && b.Length == 5 && a != b && i < 24
    modifies a, b
    ensures a[..] == Round(old(a[..]), i)
  {
    ThetaInPlace(a, b);
    RhoPiInPlace(a, b);
    ChiInPlace(a, b);
    IotaInPlace(a, i);
  }

  /** Iota, in place. */
  method IotaInPlace(a: array<Lane>, i: nat)
    requires a.Length == 25 && i < 24
    modifies a
    ensures a[..] == Iota(old(a[..]), i)
    ensures KeccakBits.Flat(a[..]) == F.Iota(KeccakBits.Flat(old(a[..])), i)
  {
    KeccakBits.IotaIsFips(a[..], i);
    a[0] := Xor(a[0], LaneOf(RoundTable(i)));
  }

  /** keccakf on the lanes of the state. */
  method KeccakFInPlace(a: array<Lane>)
    requires a.Length == 25
    modifies a
    ensures a[..] == KeccakF(old(a[..])) && KeccakBits.Flat(a[..]) == F.KeccakF(KeccakBits.Flat(old(a[..])))
  {
    var b := new Lane[5](_ => Zero());
    ghost var s: Lanes := a[..];
    var i := 0;
    while i < 24
      invariant 0 <= i <= 24 && a[..] == Rounds(s, i)
    {
      RoundInPlace(a, b, i);
      i := i + 1;
    }
    KeccakBits.KeccakFIsFips(s);
  }
}
