/** Vectors of base-10^9 digits, least significant first, possibly of mixed sign: what an InfInt
    holds between an operation and its correction. */
module Digits {

  /** ELEM_TYPE and PRODUCT_TYPE: arithmetic in them is checked to stay in range. */
  newtype int32 = x: int | -0x8000_0000 <= x < 0x8000_0000
  newtype int64 = x: int | -0x8000_0000_0000_0000 <= x < 0x8000_0000_0000_0000

  const BASE: int32 := 1000000000
  const UPPER_BOUND: int32 := 999999999

  /** The represented integer. */
  ghost function Value(s: seq<int32>): int {
    if s == [] then 0 else s[0] as int + BASE as int * Value(s[1..])
  }

  /** Every digit is between -n and n. */
  predicate Within(s: seq<int32>, n: int32) { forall i :: 0 <= i < |s| ==> -(n as int) <= s[i] as int <= n as int }

  /** Every digit is a digit. */
  predicate Proper(s: seq<int32>) { forall i :: 0 <= i < |s| ==> 0 <= s[i] < BASE }

  /** Proper digits without leading zeros, except for zero itself. */
  predicate Trimmed(s: seq<int32>) { |s| >= 1 && Proper(s) && (|s| > 1 ==> s[|s| - 1] != 0) }

  /** What correct is handed: digits as sums of two proper ones leave them, of either sign, and a
      leading digit that a product by one machine word may have filled. */
  predicate Correctable(s: seq<int32>) {
    |s| >= 1 && forall i :: 0 <= i < |s| ==>
      var most := if i == |s| - 1 then 0x7FFF_FFFE else 2 * UPPER_BOUND; -most <= s[i] <= most
  }

  /** my_div and my_lldiv by BASE: the quotient of C truncates toward zero. */
  function QuotBase(num: int): (q: int)
    ensures var r := num - BASE as int * q;
      -(BASE as int) < r < BASE as int && (num >= 0 ==> 0 <= r && 0 <= q) && (num <= 0 ==> r <= 0 && q <= 0)
    ensures if num >= 0 then q <= num else num <= q
  {
    if num >= 0 then num / BASE as int else -((-num) / BASE as int)
  }

  // ---------------------------------------------------------------- editing a digit vector

  /** Replacing a suffix by one of the same value keeps the value. */
  lemma {:induction false} SameSuffix(a: seq<int32>, b: seq<int32>, c: seq<int32>)
    requires Value(b) == Value(c)
    ensures Value(a + b) == Value(a + c)
  {
    if a == [] {
      assert a + b == b && a + c == c;
    } else {
      SameSuffix(a[1..], b, c);
      assert (a + b)[1..] == a[1..] + b && (a + c)[1..] == a[1..] + c;
    }
  }

  lemma {:induction false} ValueAppendZero(s: seq<int32>)
    ensures Value(s + [0]) == Value(s)
  {
    if s == [] {
      assert s + [0] == [0];
      assert Value([0][1..]) == 0;
    } else {
      ValueAppendZero(s[1..]);
      assert (s + [0])[1..] == s[1..] + [0];
    }
  }

  /** A vector splits at any position. */
  lemma SplitAt(s: seq<int32>, i: nat)
    requires i <= |s|
    ensures s == s[..i] + s[i..]
  {}

  lemma ValueUnfold(s: seq<int32>, i: nat)
    requires i < |s|
    ensures Value(s[i..]) == s[i] as int + BASE as int * Value(s[i + 1..])
  {
    assert s[i..][1..] == s[i + 1..];
  }

  lemma {:induction false} ZeroDigits(s: seq<int32>)
    requires forall i :: 0 <= i < |s| ==> s[i] == 0
    ensures Value(s) == 0
  {
    if s != [] { ZeroDigits(s[1..]); }
  }

  lemma {:induction false} NegatedDigits(s: seq<int32>, t: seq<int32>)
    requires |s| == |t| && forall i :: 0 <= i < |s| ==> t[i] as int == -(s[i] as int)
    ensures Value(t) == -Value(s)
  {
    if s != [] { NegatedDigits(s[1..], t[1..]); }
  }

  /** The value of the digits from position i on. */
  ghost function ValueFrom(s: seq<int32>, i: nat): int
    requires i <= |s|
    decreases |s| - i
  {
    if i == |s| then 0 else s[i] as int + BASE as int * ValueFrom(s, i + 1)
  }

  lemma {:induction false} ValueFromIs(s: seq<int32>, i: nat)
    requires i <= |s|
    ensures ValueFrom(s, i) == Value(s[i..])
    decreases |s| - i
  {
    if i < |s| {
      ValueFromIs(s, i + 1);
      ValueUnfold(s, i);
    }
  }

  lemma ValueFromStart(s: seq<int32>)
    ensures ValueFrom(s, 0) == Value(s)
  {
    ValueFromIs(s, 0);
    assert s[0..] == s;
  }

  /** Moving a whole base unit from one position to the next keeps the value. */
  lemma CarryOver(s: seq<int32>, i: nat, rem: int32, quot: int32)
    requires i < |s| && s[i] as int == BASE as int * quot as int + rem as int
    requires i + 1 < |s| ==> -0x8000_0000 <= s[i + 1] as int + quot as int < 0x8000_0000
    ensures Value(s) == Value(if i + 1 < |s| then s[i := rem][i + 1 := s[i + 1] + quot] else s[i := rem] + [quot])
  {
    var t := if i + 1 < |s| then s[i := rem][i + 1 := s[i + 1] + quot] else s[i := rem] + [quot];
    SplitAt(s, i);
    SplitAt(t, i);
    assert t[..i] == s[..i];
    ValueUnfold(s, i);
    ValueUnfold(t, i);
    if i + 1 < |s| {
      ValueUnfold(s, i + 1);
      ValueUnfold(t, i + 1);
      assert t[i + 2..] == s[i + 2..];
    } else {
      assert s[i + 1..] == [] && t[i + 1..] == [quot];
      assert Value([quot][1..]) == 0;
    }
    SameSuffix(s[..i], s[i..], t[i..]);
  }

  /** A vector of all nines, below a digit reduced by one, is one less. */
  lemma {:induction false} BorrowThrough(s: seq<int32>, t: seq<int32>, k: nat, d: int32)
    requires k < |s| && |t| == |s| && (d == 1 || d == -1)
    requires forall j :: 0 <= j < k ==> s[j] == 0 && t[j] == d * UPPER_BOUND
    requires t[k] as int == s[k] as int - d as int && t[k + 1..] == s[k + 1..]
    ensures Value(t) == Value(s) - d as int
  {
    if k > 0 {
      assert t[1..][k..] == t[k + 1..] && s[1..][k..] == s[k + 1..];
      BorrowThrough(s[1..], t[1..], k - 1, d);
    } else {
      assert t[1..] == s[1..];
    }
  }

  // ---------------------------------------------------------------- order

  /** With proper digits the higher digits decide. */
  lemma {:induction false} HigherDecides(s: seq<int32>, t: seq<int32>, i: nat)
    requires Proper(s) && Proper(t) && i <= |s| && i <= |t|
    requires Value(s[i..]) < Value(t[i..])
    ensures Value(s) < Value(t)
  {
    if i == 0 {
      assert s[0..] == s && t[0..] == t;
    } else {
      ValueUnfold(s, i - 1);
      ValueUnfold(t, i - 1);
      HigherDecides(s, t, i - 1);
    }
  }

  lemma {:induction false} NonNegativeValue(s: seq<int32>)
    requires Proper(s)
    ensures 0 <= Value(s)
  {
    if s != [] { NonNegativeValue(s[1..]); }
  }

  lemma {:induction false} LeadingDigit(s: seq<int32>)
    requires Proper(s) && |s| >= 1 && s[|s| - 1] != 0
    ensures 1 <= Value(s)
  {
    if |s| == 1 {
      assert s[1..] == [];
    } else {
      LeadingDigit(s[1..]);
    }
  }

  /** A longer trimmed vector is larger. */
  lemma {:induction false} LongerIsLarger(s: seq<int32>, t: seq<int32>)
    requires Proper(s) && Proper(t) && |s| < |t| && t[|t| - 1] != 0
    ensures Value(s) < Value(t)
  {
    if s == [] {
      LeadingDigit(t);
    } else {
      LongerIsLarger(s[1..], t[1..]);
    }
  }

  /** Trimmed vectors of the same value are equal. */
  lemma {:induction false} UniqueDigits(s: seq<int32>, t: seq<int32>)
    requires Proper(s) && Proper(t) && |s| == |t| && Value(s) == Value(t)
    ensures s == t
  {
    if s != [] {
      assert s[0] == t[0] && Value(s[1..]) == Value(t[1..]);
      UniqueDigits(s[1..], t[1..]);
      assert s == [s[0]] + s[1..] && t == [t[0]] + t[1..];
    }
  }

  lemma UniqueTrimmed(s: seq<int32>, t: seq<int32>)
    requires Trimmed(s) && Trimmed(t) && Value(s) == Value(t)
    ensures s == t
  {
    if |s| < |t| { LongerIsLarger(s, t); }
    if |t| < |s| { LongerIsLarger(t, s); }
    UniqueDigits(s, t);
  }
}
