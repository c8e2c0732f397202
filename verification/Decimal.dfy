/** Powers of ten, and how many decimal digits a digit vector has. */
module Decimal {
  import opened Digits

  function Pow10(n: nat): (p: int)
    ensures p >= 1
  {
    if n == 0 then 1 else 10 * Pow10(n - 1)
  }

  lemma {:induction false} Pow10Sum(n: nat, m: nat)
    ensures Pow10(n + m) == Pow10(n) * Pow10(m)
  {
    if n > 0 {
      Pow10Sum(n - 1, m);
      assert 10 * (Pow10(n - 1) * Pow10(m)) == (10 * Pow10(n - 1)) * Pow10(m);
    }
  }

  lemma {:induction false} Pow10Grows(n: nat, m: nat)
    requires n <= m
    ensures Pow10(n) <= Pow10(m)
  {
    if n < m { Pow10Grows(n, m - 1); }
  }

  /** A digit of the vector is worth nine decimal places. */
  lemma NineMore(n: nat)
    ensures Pow10(n + 9) == BASE as int * Pow10(n)
  {
    assert Pow10(n + 3) == 10 * Pow10(n + 2) == 100 * Pow10(n + 1);
    assert Pow10(n + 6) == 10 * Pow10(n + 5) == 100 * Pow10(n + 4);
    assert Pow10(n + 9) == 10 * Pow10(n + 8) == 100 * Pow10(n + 7);
  }

  /** How many decimal digits a leading digit has: the chain of comparisons in numberOfDigits. */
  function LeadingDigits(x: int32): (c: nat)
    requires 0 <= x < BASE
    ensures 1 <= c <= 9
  {
    if x > 99999999 then 9 else if x > 9999999 then 8 else if x > 999999 then 7 else if x > 99999 then 6
    else if x > 9999 then 5 else if x > 999 then 4 else if x > 99 then 3 else if x > 9 then 2 else 1
  }

  lemma LeadingDigitsCount(x: int32)
    requires 0 <= x < BASE
    ensures x as int < Pow10(LeadingDigits(x)) && (x > 0 ==> Pow10(LeadingDigits(x) - 1) <= x as int)
  {
    assert Pow10(0) == 1 && Pow10(1) == 10 && Pow10(2) == 100 && Pow10(3) == 1000;
    assert Pow10(4) == 10000 && Pow10(5) == 100000 && Pow10(6) == 1000000;
    assert Pow10(7) == 10000000 && Pow10(8) == 100000000 && Pow10(9) == 1000000000;
  }

  /** numberOfDigits. */
  function DigitCount(s: seq<int32>): (n: nat)
    requires Trimmed(s)
    ensures n >= 1
  {
    (|s| - 1) * 9 + LeadingDigits(s[|s| - 1])
  }

  /** The count is that of the decimal digits of the number. */
  lemma {:induction false} DigitCountIsExact(s: seq<int32>)
    requires Trimmed(s)
    ensures Value(s) < Pow10(DigitCount(s)) && (Value(s) > 0 ==> Pow10(DigitCount(s) - 1) <= Value(s))
  {
    if |s| == 1 {
      LeadingDigitsCount(s[0]);
      assert s[1..] == [];
    } else {
      DigitCountIsExact(s[1..]);
      LeadingDigit(s[1..]);
      NineMore(DigitCount(s[1..]));
      NineMore(DigitCount(s[1..]) - 1);
      assert DigitCount(s) == DigitCount(s[1..]) + 9;
    }
  }
}
