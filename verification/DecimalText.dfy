/** Decimal numerals as text: what fromString reads and operator<< prints. */
module DecimalText {
  import opened Digits
  import opened Decimal

  predicate IsDigit(c: char) { '0' <= c <= '9' }

  predicate AllDigits(s: string) { forall i :: 0 <= i < |s| ==> IsDigit(s[i]) }

  /** The number a row of digits stands for. */
  function Reading(s: string): nat
    requires AllDigits(s)
  {
    if s == "" then 0 else 10 * Reading(s[..|s| - 1]) + (s[|s| - 1] as int - '0' as int)
  }

  function Unsigned(s: string): string { if s != "" && s[0] == '-' then s[1..] else s }

  /** An optional minus sign and at least one digit. */
  predicate Numeral(s: string) { Unsigned(s) != "" && AllDigits(Unsigned(s)) }

  lemma DigitsAreNumeral(s: string)
    requires s != "" && AllDigits(s)
    ensures Numeral(s) && s[0] != '-' && Unsigned(s) == s
  {}

  /** The number a numeral stands for. */
  function Number(s: string): int
    requires Numeral(s)
  {
    if s[0] == '-' then 0 - Reading(Unsigned(s)) else Reading(Unsigned(s))
  }

  /** atoi, on a piece of a numeral: an optional sign and digits. */
  function Atoi(s: string): (n: int)
    requires AllDigits(Unsigned(s))
  {
    if s != "" && s[0] == '-' then 0 - Reading(Unsigned(s)) else Reading(Unsigned(s))
  }

  /** The length of the leading piece when a numeral is cut into nines from the right. */
  function HeadLength(s: string): (n: nat)
    requires s != ""
    ensures 1 <= n <= 9 && n <= |s|
  {
    if |s| % 9 == 0 then 9 else |s| % 9
  }

  /** A negative numeral whose leading piece has digits, all of them zeros: atoi makes of it a zero,
      which carries no sign. */
  predicate LosesSign(s: string)
    requires Numeral(s)
  {
    s[0] == '-' && HeadLength(s) > 1 && forall i :: 1 <= i < HeadLength(s) ==> s[i] == '0'
  }

  /** Minus five with nine leading zeros is read as plus five. */
  lemma LeadingZerosLoseSign()
    ensures Numeral("-0000000005") && LosesSign("-0000000005") && Number("-0000000005") == -5
  {
    var s := "-0000000005";
    assert Unsigned(s) == "0000000005" == "000000000" + "5";
    ReadingZero("000000000");
    ReadingAppend("000000000", "5");
    assert Reading("5"[..0]) == 0;
    assert Reading("5") == 5;
  }

  /** A minus sign that is a leading piece by itself keeps its effect, on zero as well. */
  predicate NegativeZero(s: string)
    requires Numeral(s)
  {
    s[0] == '-' && |s| % 9 == 1 && Number(s) == 0
  }

  lemma NegativeZeroKeepsSign(s: string)
    requires Numeral(s)
    ensures NegativeZero(s) <==> s[0] == '-' && !LosesSign(s) && Number(s) == 0
  {
    if s[0] == '-' && Number(s) == 0 {
      ReadingZero(s[1..]);
      assert forall i :: 1 <= i < |s| ==> s[i] == s[1..][i - 1];
    }
  }

  /** A minus sign and nine zeros. */
  lemma NineZerosAreNegative()
    ensures Numeral("-000000000") && NegativeZero("-000000000")
  {
    assert Unsigned("-000000000") == "000000000";
    ReadingZero("000000000");
  }

  // ---------------------------------------------------------------- reading

  lemma {:induction false} ReadingAppend(a: string, b: string)
    requires AllDigits(a) && AllDigits(b)
    ensures AllDigits(a + b) && Reading(a + b) == Reading(a) * Pow10(|b|) + Reading(b)
  {
    if b == "" {
      assert a + b == a;
    } else {
      var b' := b[..|b| - 1];
      assert (a + b)[..|a + b| - 1] == a + b';
      ReadingAppend(a, b');
      TenTimes(Reading(a), Pow10(|b'|));
    }
  }

  lemma TenTimes(x: int, p: int)
    ensures x * (10 * p) == 10 * (x * p)
  {}

  lemma {:induction false} ReadingBound(s: string)
    requires AllDigits(s)
    ensures Reading(s) < Pow10(|s|)
  {
    if s != "" { ReadingBound(s[..|s| - 1]); }
  }

  lemma {:induction false} ReadingZero(s: string)
    requires AllDigits(s)
    ensures Reading(s) == 0 <==> forall i :: 0 <= i < |s| ==> s[i] == '0'
  {
    if s != "" {
      var t := s[..|s| - 1];
      ReadingZero(t);
      assert forall i :: 0 <= i < |t| ==> t[i] == s[i];
    }
  }

  lemma NinePlaces()
    ensures Pow10(9) == BASE as int
  {
    NineMore(0);
    assert Pow10(0) == 1;
  }

  lemma ReadingAppendNine(a: string, b: string)
    requires AllDigits(a) && AllDigits(b) && |b| == 9
    ensures AllDigits(a + b) && Reading(a + b) == BASE as int * Reading(a) + Reading(b)
  {
    NinePlaces();
    ReadingAppend(a, b);
  }

  /** Cutting a piece of nine off the right of a numeral. */
  lemma CutNine(s: string, i: nat)
    requires Numeral(s) && i + 9 <= |s|
    ensures AllDigits(Unsigned(s[..i])) && AllDigits(Unsigned(s[i..i + 9])) && AllDigits(Unsigned(s[..i + 9]))
    ensures Reading(Unsigned(s[..i + 9])) == BASE as int * Reading(Unsigned(s[..i])) + Reading(Unsigned(s[i..i + 9]))
    ensures Reading(Unsigned(s[i..i + 9])) < BASE as int
    ensures i > 0 ==> Atoi(s[i..i + 9]) == Reading(Unsigned(s[i..i + 9]))
  {
    UnsignedPrefix(s, i);
    UnsignedPrefix(s, i + 9);
    UnsignedPart(s, i);
    NinePlaces();
    if i > 0 {
      SplitSlice(s, if s[0] == '-' then 1 else 0, i, i + 9);
      ReadingAppend(Unsigned(s[..i]), s[i..i + 9]);
    } else {
      assert s[..i] == "" && s[i..i + 9] == s[..i + 9];
    }
    ReadingBound(Unsigned(s[i..i + 9]));
    Pow10Grows(|Unsigned(s[i..i + 9])|, 9);
  }

  lemma SplitSlice(s: string, i: nat, j: nat, k: nat)
    requires i <= j <= k <= |s|
    ensures s[i..k] == s[i..j] + s[j..k]
  {}

  lemma UnsignedPrefix(s: string, i: nat)
    requires Numeral(s) && i <= |s|
    ensures AllDigits(Unsigned(s[..i]))
    ensures i > 0 ==> Unsigned(s[..i]) == if s[0] == '-' then s[1..i] else s[..i]
  {
    if s[0] == '-' { assert Unsigned(s) == s[1..]; assert forall j :: 1 <= j < |s| ==> s[j] == s[1..][j - 1]; }
  }

  lemma UnsignedPart(s: string, i: nat)
    requires Numeral(s) && i + 9 <= |s|
    ensures AllDigits(Unsigned(s[i..i + 9]))
    ensures i > 0 ==> Unsigned(s[i..i + 9]) == s[i..i + 9] && AllDigits(s[i..i + 9])
  {
    if s[0] == '-' { assert Unsigned(s) == s[1..]; assert forall j :: 1 <= j < |s| ==> s[j] == s[1..][j - 1]; }
  }

  // ---------------------------------------------------------------- printing

  /** A number as the stream prints it. */
  function Shown(x: nat): (s: string)
    ensures AllDigits(s) && Reading(s) == x
    ensures |s| >= 1 && (s[0] == '0' ==> x == 0)
  {
    var last := '0' + (x % 10) as char;
    if x < 10 then
      assert [last][..0] == "";
      [last]
    else
      var front := Shown(x / 10);
      assert (front + [last])[..|front|] == front;
      front + [last]
  }

  lemma {:induction false} ShownLength(x: nat, n: nat)
    requires x < Pow10(n) && n >= 1
    ensures |Shown(x)| <= n
  {
    assert Pow10(1) == 10 * Pow10(0);
    if x >= 10 {
      ShownLength(x / 10, n - 1);
    }
  }

  /** A number filled with zeros to nine places. */
  function Padded(x: int32): (s: string)
    requires 0 <= x < BASE
  {
    var shown := Shown(x as int);
    if |shown| >= 9 then shown else seq(9 - |shown|, _ => '0') + shown
  }

  lemma PaddedReads(x: int32)
    requires 0 <= x < BASE
    ensures AllDigits(Padded(x)) && |Padded(x)| == 9 && Reading(Padded(x)) == x as int
  {
    NinePlaces();
    ShownLength(x as int, 9);
    var shown := Shown(x as int);
    if |shown| < 9 {
      var zeros: string := seq(9 - |shown|, _ => '0');
      ReadingZero(zeros);
      ReadingAppend(zeros, shown);
    }
  }
}
