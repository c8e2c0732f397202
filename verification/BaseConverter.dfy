/** BaseConverter.cpp: conversion of numerals between alphabets by long division on their digits. */
module BaseConverters {
  import opened Alphabets

  /** The range of unsigned int. */
  const WORD: nat := 0x1_0000_0000

  datatype Result<T> = Ok(value: T) | InvalidCharacter | InvalidAlphabet

  lemma WrapStep(n: nat, r: nat, b: nat, c: nat)
    requires r == n % WORD
    ensures ((r * b) % WORD + c) % WORD == (b * n + c) % WORD
  {
    var q := n / WORD;
    var q', r' := (r * b) / WORD, (r * b) % WORD;
    assert n == WORD * q + r && r * b == WORD * q' + r';
    assert b * n == WORD * (b * q) + r * b;
    MultipleOfWord(b * q + q', r' + c);
  }

  lemma MultipleOfWord(k: int, m: int)
    ensures (WORD * k + m) % WORD == m % WORD
  {}

  lemma WrapScaled(n: nat, r: nat, b: nat, c: nat, m: nat)
    requires r == n % WORD && m == Scale(b, n) + c
    ensures NextWrapped(r, b, c) == m % WORD
  {
    ScaleIs(b, n);
    WrapStep(n, r, b, c);
  }

  /** One step of base2dec's arithmetic. */
  function NextWrapped(result: nat, b: nat, c: nat): nat { (result * b % WORD + c) % WORD }

  /** base2dec: the value in unsigned arithmetic, which wraps around. */
  method Base2Dec(digits: string, value: string) returns (r: Result<nat>)
    requires 1 <= |digits| < WORD
    ensures r == if Over(digits, value) then Ok(Number(digits, value) % WORD) else InvalidCharacter
  {
    var result: nat := 0;
    var i := 0;
    while i < |value|
      invariant i <= |value| && Over(digits, value[..i]) && result == Number(digits, value[..i]) % WORD
    {
      var c := Find(digits, value[i]);
      if c == -1 { return InvalidCharacter; }
      PrefixNumber(digits, value, i);
      WrapScaled(Number(digits, value[..i]), result, |digits|, c, Number(digits, value[..i + 1]));
      result := NextWrapped(result, |digits|, c);
      i := i + 1;
    }
    assert value[..i] == value;
    return Ok(result);
  }

  /** Unsigned division with its remainder. */
  method DivMod(n: nat, d: nat) returns (q: nat, r: nat)
    requires d > 0
    ensures n == Scale(d, q) + r && r < d
  {
    q, r := n / d, n % d;
    ScaleIs(d, q);
  }

  lemma QuotientSmaller(n: nat, d: nat, q: nat, r: nat)
    requires d >= 2 && n == Scale(d, q) + r
    ensures (n > 0 ==> q < n) && (q == 0 ==> r == n)
  {
    ScaleIs(d, q);
    MoreOf(q, d, 2);
  }

  lemma FirstDigit(digits: string, d: nat)
    requires Alphabet(digits) && d < |digits|
    ensures digits[d] == digits[0] ==> d == 0
  {
    FindDigit(digits, d);
    FindDigit(digits, 0);
  }

  /** dec2base: the shortest numeral of a value. */
  method Dec2Base(digits: string, value: nat) returns (s: string)
    requires Alphabet(digits)
    ensures s != "" && Over(digits, s) && Number(digits, s) == value
    ensures s[0] == digits[0] ==> s == [digits[0]]
  {
    var rest: nat, result := value, "";
    while true
      invariant Over(digits, result) && LittleOnto(digits, result, rest) == value
      invariant result != "" ==> rest > 0
      decreases rest
    {
      var quot, rem := DivMod(rest, |digits|);
      LittleAppend(digits, result, rem, quot);
      QuotientSmaller(rest, |digits|, quot, rem);
      result := result + [digits[rem]];
      rest := quot;
      if rest == 0 { break; }
    }
    ReverseNumber(digits, result);
    s := Reverse(result);
  }

  lemma SmallQuotient(y: nat, b: nat, q: nat, r: nat)
    requires Scale(y, q) + r < Scale(y, b)
    ensures q < b
  {
    ScaleIs(y, q);
    ScaleIs(y, b);
    if q >= b { MoreOf(y, q, b); }
  }

  lemma MoreOf(y: nat, q: nat, b: nat)
    requires q >= b
    ensures y * q >= y * b
  {}

  /** One step of long division: n and q are dividend and quotient so far, f is the remainder. */
  lemma LongDivisionDigit(b: nat, y: nat, n: nat, n': nat, q: nat, q': nat, f: nat, c: nat, digit: nat, rest: nat)
    requires n == Scale(y, q) + f && n' == Scale(b, n) + c && q' == Scale(b, q) + digit
    requires Scale(b, f) + c == Scale(y, digit) + rest
    ensures n' == Scale(y, q') + rest
  {
    ScaleIs(b, f);
    ScaleIs(b, n);
    ScaleIs(b, q);
    ScaleIs(y, digit);
    ScaleIs(y, q);
    ScaleIs(y, q');
    Exchange(b, y, q, f, n, digit, q');
  }

  lemma Exchange(b: int, y: int, q: int, f: int, n: int, digit: int, q': int)
    requires n == y * q + f && q' == b * q + digit
    ensures b * n - b * f == y * q' - y * digit
  {
    Distribute(b, y * q, f);
    Distribute(y, b * q, digit);
    Swap(b, y, q);
  }

  lemma Distribute(x: int, u: int, v: int)
    ensures x * (u + v) == x * u + x * v
  {}

  lemma Swap(b: int, y: int, q: int)
    ensures b * (y * q) == y * (b * q)
  {}

  lemma SmallProducts(b: nat, y: nat, f: nat, c: nat)
    requires b <= 256 && y <= 256 && f < y && c < b
    ensures Scale(b, f) + c < Scale(y, b) < WORD
  {
    ScaleIs(b, f);
    ScaleIs(y, b);
    MoreOf(b, y - 1, f);
    MoreOf(b, 256, y);
  }

  /** One round of divide: the remainder so far followed by the next digit, as a number, divided by y. */
  method DivideDigit(digits: string, prefix: string, ghost front: string, c: char, y: nat)
    returns (r: Result<(nat, string)>)
    requires prefix == front + [c]
    requires Alphabet(digits) && 2 <= y <= 256 && Over(digits, front) && Number(digits, front) < y
    ensures r == InvalidCharacter || r.Ok?
    ensures r.Ok? <==> c in digits
    ensures r.Ok? ==> r.value.0 < |digits| && Over(digits, r.value.1) && Number(digits, r.value.1) < y
    ensures r.Ok? ==>
      Scale(|digits|, Number(digits, front)) + Find(digits, c) == Scale(y, r.value.0) + Number(digits, r.value.1)
  {
    var value := Base2Dec(digits, prefix);
    if !value.Ok? {
      assert c !in digits;
      return InvalidCharacter;
    }
    assert (front + [c])[|front|] == c;
    NumberAppend(digits, front, c);
    SmallProducts(|digits|, y, Number(digits, front), Find(digits, c));
    var quot, rem := DivMod(value.value, y);
    SmallQuotient(y, |digits|, quot, rem);
    var rest := Dec2Base(digits, rem);
    return Ok((quot, rest));
  }

  /** The end of divide: find_first_not_of and substr. */
  method StripZeros(digits: string, quotient: string) returns (x: string)
    requires Alphabet(digits) && Over(digits, quotient)
    ensures Over(digits, x) && Stripped(digits, x) && Number(digits, x) == Number(digits, quotient)
  {
    var n := 0;
    while n < |quotient| && quotient[n] == digits[0]
      invariant n <= |quotient| && forall k :: 0 <= k < n ==> quotient[k] == digits[0]
    {
      n := n + 1;
    }
    DropZeros(digits, quotient, n);
    x := quotient[n..];
  }

  /** What the rounds of divide have established about the first i digits of x0. */
  ghost predicate DividedSoFar(digits: string, x0: string, i: nat, y: nat, quotient: string, front: string)
    requires Alphabet(digits) && i <= |x0|
  {
    Over(digits, x0[..i]) && Over(digits, quotient) && Over(digits, front) && Number(digits, front) < y &&
    Number(digits, x0[..i]) == Scale(y, Number(digits, quotient)) + Number(digits, front)
  }

  lemma DividedFurther(digits: string, x0: string, i: nat, y: nat, quotient: string, front: string,
                       digit: nat, rest: string)
    requires Alphabet(digits) && i < |x0| && DividedSoFar(digits, x0, i, y, quotient, front) && x0[i] in digits
    requires digit < |digits| && Over(digits, rest) && Number(digits, rest) < y
    requires Scale(|digits|, Number(digits, front)) + Find(digits, x0[i]) == Scale(y, digit) + Number(digits, rest)
    ensures DividedSoFar(digits, x0, i + 1, y, quotient + [digits[digit]], rest)
  {
    FindDigit(digits, digit);
    PrefixNumber(digits, x0, i);
    NumberAppend(digits, quotient, digits[digit]);
    LongDivisionDigit(|digits|, y, Number(digits, x0[..i]), Number(digits, x0[..i + 1]), Number(digits, quotient),
                      Number(digits, quotient + [digits[digit]]), Number(digits, front), Find(digits, x0[i]),
                      digit, Number(digits, rest));
  }

  lemma PrefixNumber(digits: string, x0: string, i: nat)
    requires i < |x0| && Over(digits, x0[..i]) && x0[i] in digits
    ensures Over(digits, x0[..i + 1])
    ensures Number(digits, x0[..i + 1]) == Scale(|digits|, Number(digits, x0[..i])) + Find(digits, x0[i])
  {
    NextPrefix(x0, i);
    NumberAppend(digits, x0[..i], x0[i]);
  }

  lemma NextPrefix(s: string, i: nat)
    requires i < |s|
    ensures s[..i + 1] == s[..i] + [s[i]]
  {}

  lemma NextDigit(x: string, front: string, x0: string, i: nat)
    requires i < |x0| && x == front + x0[i..]
    ensures |front| + 1 <= |x| && x[..|front| + 1] == front + [x0[i]] && x[|front| + 1..] == x0[i + 1..]
  {}

  /** One round of divide: the quotient and x afterwards, and the front that x then begins with. */
  method DivideRound(digits: string, x0: string, i: nat, y: nat, x: string, quotient: string, ghost front: string)
    returns (r: Result<(string, string)>, ghost front': string)
    requires Alphabet(digits) && 2 <= y <= 256 && i < |x0| && x == front + x0[i..]
    requires DividedSoFar(digits, x0, i, y, quotient, front)
    ensures r == InvalidCharacter || r.Ok?
    ensures r.Ok? <==> x0[i] in digits
    ensures r.Ok? ==> DividedSoFar(digits, x0, i + 1, y, r.value.0, front') && r.value.1 == front' + x0[i + 1..]
  {
    var j := i + 1 + |x| - |x0|;
    NextDigit(x, front, x0, i);
    var step := DivideDigit(digits, x[..j], front, x0[i], y);
    if !step.Ok? { return InvalidCharacter, front; }
    DividedFurther(digits, x0, i, y, quotient, front, step.value.0, step.value.1);
    front' := step.value.1;
    r := Ok((quotient + [digits[step.value.0]], step.value.1 + x[j..]));
  }

  /** divide: x is replaced by its quotient by y, without leading zeros; the remainder is returned. */
  method Divide(digits: string, x0: string, y: nat) returns (r: Result<(string, nat)>)
    requires Alphabet(digits) && 2 <= y <= 256
    ensures r == InvalidCharacter || r.Ok?
    ensures r.Ok? <==> Over(digits, x0)
    ensures r.Ok? ==> Over(digits, r.value.0) && Stripped(digits, r.value.0) && r.value.1 < y
    ensures r.Ok? ==> Number(digits, x0) == Scale(y, Number(digits, r.value.0)) + r.value.1
  {
    var ok, quotient, x := DivideRounds(digits, x0, y);
    if !ok { return InvalidCharacter; }
    assert x0[..|x0|] == x0;
    var remainder := Base2Dec(digits, x);
    var stripped := StripZeros(digits, quotient);
    return Ok((stripped, remainder.value));
  }

  /** The loop of divide: what is left of x is the remainder's numeral. */
  method DivideRounds(digits: string, x0: string, y: nat) returns (ok: bool, quotient: string, x: string)
    requires Alphabet(digits) && 2 <= y <= 256
    ensures ok <==> Over(digits, x0)
    ensures ok ==> DividedSoFar(digits, x0, |x0|, y, quotient, x)
  {
    ok, x, quotient := true, x0, "";
    ghost var front := "";
    var i := 0;
    ScaleIs(y, 0);
    while i < |x0|
      invariant i <= |x0| && x == front + x0[i..] && DividedSoFar(digits, x0, i, y, quotient, front)
    {
      var step;
      step, front := DivideRound(digits, x0, i, y, x, quotient, front);
      if !step.Ok? { return false, quotient, x; }
      quotient, x := step.value.0, step.value.1;
      i := i + 1;
    }
    assert x0[..i] == x0 && x == front;
  }

  /** A converter between two alphabets. */
  datatype BaseConverter = BaseConverter(source: string, target: string) {

    /** The constructor rejects empty alphabets only. */
    static function Make(source: string, target: string): (r: Result<BaseConverter>)
      ensures r == InvalidAlphabet <==> source == "" || target == ""
    {
      if source == "" || target == "" then InvalidAlphabet else Ok(BaseConverter(source, target))
    }

    ghost predicate Valid() { Alphabet(source) && Alphabet(target) }

    /** Convert: fails exactly on characters outside the source alphabet; otherwise the result is the
        numeral of the same number over the target alphabet, without leading zeros. */
    method Convert(value: string) returns (r: Result<string>)
      requires Valid()
      ensures r.Ok? <==> Over(source, value)
      ensures r.Ok? ==> r.value != "" && Over(target, r.value) && Number(target, r.value) == Number(source, value)
      ensures r.Ok? ==> (r.value[0] == target[0] ==> r.value == [target[0]])
      ensures !r.Ok? ==> r.InvalidCharacter?
    {
      var rest, result := value, "";
      while true
        invariant if result == "" then rest == value else Over(source, value) && ConvertedSoFar(value, rest, result)
        decreases if Over(source, rest) then Number(source, rest) else 0
      {
        var step := Divide(source, rest, |target|);
        if !step.Ok? { return InvalidCharacter; }
        var quotient, remainder := step.value.0, step.value.1;
        ConvertedFurther(value, rest, result, quotient, remainder);
        result := result + [target[remainder]];
        if quotient != "" { PositiveNumber(source, quotient); }
        rest := quotient;
        if rest == "" || (|rest| == 1 && rest[0] == source[0]) { break; }
      }
      ReverseNumber(target, result);
      return Ok(Reverse(result));
    }

    lemma ConvertedFurther(value: string, rest: string, result: string, quotient: string, remainder: nat)
      requires Valid() && Over(source, rest) && Over(source, quotient) && remainder < |target|
      requires if result == "" then rest == value else Over(source, value) && ConvertedSoFar(value, rest, result)
      requires Number(source, rest) == Scale(|target|, Number(source, quotient)) + remainder
      ensures Over(source, value) && Over(target, result + [target[remainder]])
      ensures LittleOnto(target, result + [target[remainder]], Number(source, quotient)) == Number(source, value)
      ensures (Number(source, rest) > 0 ==> Number(source, quotient) < Number(source, rest))
      ensures Number(source, quotient) == 0 ==> remainder == Number(source, rest)
      ensures target[remainder] == target[0] ==> remainder == 0
    {
      LittleAppend(target, result, remainder, Number(source, quotient));
      FirstDigit(target, remainder);
      QuotientSmaller(Number(source, rest), |target|, Number(source, quotient), remainder);
    }

    /** The digits found so far, least significant first, below the number still to be converted. */
    ghost predicate ConvertedSoFar(value: string, rest: string, result: string)
      requires Valid() && Over(source, value)
    {
      Over(source, rest) && Over(target, result) && Number(source, rest) > 0 &&
      LittleOnto(target, result, Number(source, rest)) == Number(source, value)
    }
  }
}
