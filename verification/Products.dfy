/** The product of two digit vectors as the sum of its columns: what the column-wise operator* of
    InfInt.h has written down, and what it still has to add. */
module Products {
  import opened Digits

  /** The value of s when everything above it amounts to t. */
  ghost function ValueOnto(s: seq<int32>, t: int): int {
    if s == [] then t else s[0] as int + BASE as int * ValueOnto(s[1..], t)
  }

  /** The products of column d from the row i on. */
  ghost function ColumnFrom(a: seq<int32>, b: seq<int32>, d: nat, i: nat): int
    requires d < i + |b|
    decreases |a| - i
  {
    if i >= |a| || i > d then 0 else a[i] as int * b[d - i] as int + ColumnFrom(a, b, d, i + 1)
  }

  /** The first row that meets column d. */
  function FirstRow(m: nat, d: nat): nat { if d < m then 0 else d - m + 1 }

  ghost function Column(a: seq<int32>, b: seq<int32>, d: nat): int {
    ColumnFrom(a, b, d, FirstRow(|b|, d))
  }

  /** The columns from d on, in units of the first of them. */
  ghost function ColumnsFrom(a: seq<int32>, b: seq<int32>, d: nat): int
    decreases |a| + |b| - d
  {
    if d >= |a| + |b| then 0 else Column(a, b, d) + BASE as int * ColumnsFrom(a, b, d + 1)
  }

  function Power(n: nat): (p: int)
    ensures p >= 1
  {
    if n == 0 then 1 else BASE as int * Power(n - 1)
  }

  // ---------------------------------------------------------------- the columns add up to the product

  lemma {:induction false} ColumnFromShift(a: seq<int32>, b: seq<int32>, d: nat, i: nat)
    requires |a| >= 1 && d >= 1 && d - 1 < i + |b|
    ensures ColumnFrom(a, b, d, i + 1) == ColumnFrom(a[1..], b, d - 1, i)
    decreases |a| - i
  {
    if i + 1 < |a| && i + 1 <= d { ColumnFromShift(a, b, d, i + 1); }
  }

  /** Without its lowest digit a product loses that digit's share of each column. */
  lemma ColumnPeel(a: seq<int32>, b: seq<int32>, d: nat)
    requires |a| >= 1
    ensures Column(a, b, d) ==
      (if d < |b| then a[0] as int * b[d] as int else 0) + (if d >= 1 then Column(a[1..], b, d - 1) else 0)
  {
    if d >= 1 {
      ColumnFromShift(a, b, d, if d < |b| then 0 else d - |b|);
    } else {
      assert ColumnFrom(a, b, d, 1) == 0;
    }
  }

  lemma {:induction false} ColumnsPeel(a: seq<int32>, b: seq<int32>, d: nat)
    requires |a| >= 1 && 1 <= d <= |a| + |b|
    ensures ColumnsFrom(a, b, d) ==
      (if d < |b| then a[0] as int * Value(b[d..]) else 0) + ColumnsFrom(a[1..], b, d - 1)
    decreases |a| + |b| - d
  {
    if d < |a| + |b| {
      ColumnPeel(a, b, d);
      ColumnsPeel(a, b, d + 1);
      if d < |b| {
        ValueUnfold(b, d);
        if d + 1 == |b| { assert b[d + 1..] == []; }
        DigitTimes(a[0] as int, b[d] as int, Value(b[d + 1..]));
      }
    }
  }

  lemma DigitTimes(x: int, y: int, v: int)
    ensures x * (y + BASE as int * v) == x * y + BASE as int * (x * v)
  {}

  lemma {:induction false} ColumnsMakeProduct(a: seq<int32>, b: seq<int32>)
    requires |b| >= 1
    ensures ColumnsFrom(a, b, 0) == Value(a) * Value(b)
  {
    if a == [] {
      NoColumns(b, 0);
    } else {
      ColumnsMakeProduct(a[1..], b);
      ColumnPeel(a, b, 0);
      ColumnsPeel(a, b, 1);
      assert |b| == 1 ==> Value(b[1..]) == 0;
      PeeledProduct(a[0] as int, Value(a[1..]), b[0] as int, Value(b[1..]));
    }
  }

  lemma PeeledProduct(x: int, v: int, y: int, w: int)
    ensures x * y + BASE as int * (x * w + v * (y + BASE as int * w)) == (x + BASE as int * v) * (y + BASE as int * w)
  {
    DigitTimes(x, y, w);
    DigitTimes(y + BASE as int * w, x, v);
  }

  lemma {:induction false} NoColumns(b: seq<int32>, d: nat)
    ensures ColumnsFrom([], b, d) == 0
    decreases |b| - d
  {
    if d < |b| { NoColumns(b, d + 1); }
  }

  // ---------------------------------------------------------------- writing digits down

  lemma {:induction false} OntoAppend(s: seq<int32>, x: int32, t: int)
    ensures ValueOnto(s + [x], t) == ValueOnto(s, x as int + BASE as int * t)
  {
    if s == [] {
      assert s + [x] == [x];
      assert ValueOnto([x][1..], t) == t;
    } else {
      OntoAppend(s[1..], x, t);
      assert (s + [x])[1..] == s[1..] + [x];
    }
  }

  lemma {:induction false} OntoNothing(s: seq<int32>)
    ensures ValueOnto(s, 0) == Value(s)
  {
    if s != [] { OntoNothing(s[1..]); }
  }

  lemma {:induction false} OntoAtLeast(s: seq<int32>, t: int)
    requires Proper(s) && t >= 1
    ensures ValueOnto(s, t) >= Power(|s|)
  {
    if s != [] { OntoAtLeast(s[1..], t); }
  }

  lemma {:induction false} BelowPower(s: seq<int32>)
    requires Proper(s)
    ensures 0 <= Value(s) < Power(|s|)
  {
    if s != [] { BelowPower(s[1..]); }
  }

  lemma {:induction false} PowerSum(n: nat, m: nat)
    ensures Power(n + m) == Power(n) * Power(m)
  {
    if n > 0 {
      PowerSum(n - 1, m);
      Reassociate(Power(n - 1), Power(m));
    }
  }

  lemma Reassociate(x: int, y: int)
    ensures BASE as int * (x * y) == (BASE as int * x) * y
  {}

  lemma ProductAtMost(x: int, y: int, p: int, q: int)
    requires 0 <= x <= p && 0 <= y <= q
    ensures x * y <= p * q && p * q >= 0
  {
    assert x * y <= x * q;
    assert x * q <= p * q;
  }

  lemma ProductBelow(x: int, y: int, p: int, q: int)
    requires 0 <= x < p && 0 <= y < q
    ensures x * y < p * q
  {
    assert x * y <= x * q;
    assert x * q < p * q;
  }

  /** A carry above all the digits of a product would make it too large. */
  lemma NoCarryLeft(a: seq<int32>, b: seq<int32>, s: seq<int32>, carry: int)
    requires Proper(a) && Proper(b) && Proper(s) && |s| == |a| + |b| && carry >= 0
    requires ValueOnto(s, carry) == Value(a) * Value(b)
    ensures carry == 0 && Value(s) == Value(a) * Value(b)
  {
    BelowPower(a);
    BelowPower(b);
    PowerSum(|a|, |b|);
    ProductBelow(Value(a), Value(b), Power(|a|), Power(|b|));
    if carry >= 1 { OntoAtLeast(s, carry); }
    OntoNothing(s);
  }
}
