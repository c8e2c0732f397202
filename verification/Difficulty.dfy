/** The proof-of-work threshold of verifyBlockHeader in cross_plugin.cpp: hexadecimal texts become
    decimal ones by BaseConverter, decimal ones become InfInts, and those are divided and compared. */
module Difficulty {
  import opened Alphabets
  import opened BaseConverters
  import opened Digits
  import opened Decimal
  import DecimalText
  import opened Hex
  import opened InfInts
  import opened Quotients

  const DECIMAL_SET := "0123456789"

  /** The largest number of 256 bits. */
  const MAX_256: nat := 0xffffffff_ffffffff_ffffffff_ffffffff_ffffffff_ffffffff_ffffffff_ffffffff

  // ---------------------------------------------------------------- decimal text

  /** Over the decimal alphabet a numeral is what atoi reads. */
  lemma DecimalDigit(c: char)
    ensures c in DECIMAL_SET <==> DecimalText.IsDigit(c)
    ensures c in DECIMAL_SET ==> Find(DECIMAL_SET, c) == c as int - '0' as int
  {
    DecimalSetIsAlphabet();
    if DecimalText.IsDigit(c) {
      var x := c as int - '0' as int;
      assert DECIMAL_SET[x] == c;
      FindDigit(DECIMAL_SET, x);
    }
  }

  lemma DecimalSetIsAlphabet()
    ensures Alphabet(DECIMAL_SET) && |DECIMAL_SET| == 10
    ensures forall x :: 0 <= x < 10 ==> DECIMAL_SET[x] as int == '0' as int + x
  {
    assert |DECIMAL_SET| == 10;
  }

  lemma {:induction false} DecimalReads(s: string)
    requires Over(DECIMAL_SET, s)
    ensures DecimalText.AllDigits(s) && DecimalText.Reading(s) == Number(DECIMAL_SET, s)
  {
    forall i | 0 <= i < |s| ensures DecimalText.IsDigit(s[i]) { DecimalDigit(s[i]); }
    if s != "" {
      DecimalReads(s[..|s| - 1]);
      DecimalDigit(s[|s| - 1]);
      DecimalSetIsAlphabet();
      ScaleIs(10, Number(DECIMAL_SET, s[..|s| - 1]));
    }
  }

  /** Without leading zeros the length is bounded by the number. */
  lemma {:induction false} ReadingAtLeast(s: string)
    requires DecimalText.AllDigits(s) && s != "" && s[0] != '0'
    ensures Pow10(|s| - 1) <= DecimalText.Reading(s)
  {
    if |s| == 1 {
      assert DecimalText.Reading(s[..0]) == 0;
    } else {
      ReadingAtLeast(s[..|s| - 1]);
    }
  }

  lemma {:induction false} HexNumberBelow(a: string, s: string)
    requires |a| == 16 && Over(a, s)
    ensures Number(a, s) < Pow10(2 * |s|)
  {
    if s != "" {
      HexNumberBelow(a, s[..|s| - 1]);
      ScaleIs(16, Number(a, s[..|s| - 1]));
      assert Pow10(2 * |s|) == 10 * Pow10(2 * |s| - 1) == 100 * Pow10(2 * |s| - 2);
    }
  }

  // ---------------------------------------------------------------- the test

  lemma {:induction false} AllOnes(b: seq<Byte>)
    requires forall i :: 0 <= i < |b| ==> b[i] == 255
    ensures BytesValue(b) == Bound256(|b|) - 1
  {
    if b != [] { AllOnes(b[..|b| - 1]); }
  }

  lemma Max256()
    ensures Bound256(32) - 1 == MAX_256
  {
    assert Bound256(8) == 0x1_00000000_00000000;
    assert Bound256(16) == 0x1_00000000_00000000_00000000_00000000;
    assert Bound256(24) == 0x1_00000000_00000000_00000000_00000000_00000000_00000000;
  }

  /** The text that verifyBlockHeader starts from, 64 times f, denotes the largest number of 256 bits. */
  lemma Big256(s: string)
    requires |s| == 64 && forall i :: 0 <= i < 64 ==> s[i] == 'f'
    ensures Over(HEX_SET, s) && Number(HEX_SET, s) == MAX_256
  {
    HexSetIsTable();
    OnesNumber(HEX_SET, s, seq(32, _ => 255));
    Max256();
  }

  lemma OnesNumber(a: string, s: string, ones: seq<Byte>)
    requires HexTable(a) && |s| == 64 && forall i :: 0 <= i < 64 ==> s[i] == 'f'
    requires |ones| == 32 && forall i :: 0 <= i < 32 ==> ones[i] == 255
    ensures Over(a, s) && Number(a, s) == Bound256(32) - 1
  {
    AllOnes(ones);
    TextIsNumeral(a, ones);
    OnesText(ones);
    SameString(HexText(ones), s);
  }

  lemma SameString(s: string, t: string)
    requires |s| == |t| == 64 && forall i :: 0 <= i < 64 ==> s[i] == 'f' && t[i] == 'f'
    ensures s == t
  {}

  lemma {:induction false} OnesText(b: seq<Byte>)
    requires forall i :: 0 <= i < |b| ==> b[i] == 255
    ensures forall i :: 0 <= i < 2 * |b| ==> HexText(b)[i] == 'f'
  {
    if b != [] {
      OnesText(b[1..]);
      assert HexDigit(15) == 'f';
      assert HexText(b)[2..] == HexText(b[1..]);
      forall i | 0 <= i < 2 * |b| ensures HexText(b)[i] == 'f' {
        if i >= 2 { assert HexText(b)[i] == HexText(b)[2..][i - 2]; }
      }
    }
  }

  /** What hex2dec.Convert returns can be read by InfInt, without loss. */
  lemma ConvertedReads(hex: string, s: string)
    requires Over(HEX_SET, hex) && s != "" && Over(DECIMAL_SET, s) && |hex| < 0x3000_0000
    requires Number(DECIMAL_SET, s) == Number(HEX_SET, hex) && (s[0] == '0' ==> s == "0")
    ensures DecimalText.Numeral(s) && s[0] != '-' && DecimalText.Unsigned(s) == s && |s| < 0x8000_0000
    ensures DecimalText.Reading(s) == Number(HEX_SET, hex)
  {
    DecimalShape(s);
    HexSetIsAlphabet();
    HexNumberBelow(HEX_SET, hex);
    if s[0] != '0' { NoLongerText(s, 2 * |hex|); }
  }

  /** A row of decimal digits is a numeral without a sign. */
  lemma DecimalShape(s: string)
    requires s != "" && Over(DECIMAL_SET, s)
    ensures DecimalText.Numeral(s) && s[0] != '-' && DecimalText.Unsigned(s) == s
    ensures DecimalText.Reading(s) == Number(DECIMAL_SET, s)
  {
    DecimalReads(s);
    DecimalText.DigitsAreNumeral(s);
  }

  lemma NoLongerText(s: string, n: nat)
    requires DecimalText.AllDigits(s) && s != "" && s[0] != '0' && DecimalText.Reading(s) < Pow10(n)
    ensures |s| <= n
  {
    var last: nat := |s| - 1;
    if n <= last { Pow10Grows(n, last); }
    ReadingAtLeast(s);
  }

  /** InfInt(hex2dec.Convert(hex)). */
  method HexToInfInt(hex: string) returns (r: Result<InfInt>)
    requires |hex| < 0x3000_0000
    ensures r == InvalidCharacter || r.Ok?
    ensures r.Ok? <==> Over(HEX_SET, hex)
    ensures r.Ok? ==> fresh(r.value) && r.value.Canonical() && r.value.ToInt() == Number(HEX_SET, hex)
  {
    var hex2dec := BaseConverter(HEX_SET, DECIMAL_SET);
    HexSetIsAlphabet();
    DecimalSetIsAlphabet();
    var decimal := hex2dec.Convert(hex);
    if !decimal.Ok? { return InvalidCharacter; }
    ConvertedReads(hex, decimal.value);
    var n := new InfInt.FromString(decimal.value);
    ZeroIsOneDigit(n.val);
    return Ok(n);
  }

  /** The end of verifyBlockHeader. The bound keeps the converted difficulty within the source's indices. */
  method MeetsDifficulty(difficulty: string, pow: seq<Byte>) returns (r: Result<bool>)
    requires |difficulty| < 0x3000_0000 && |pow| == 32
    ensures r == InvalidCharacter || r.Ok?
    ensures r.Ok? <==> Over(HEX_SET, difficulty)
    ensures r.Ok? ==> var d := Number(HEX_SET, difficulty);
      d == HexNumber(difficulty) && (r.value <==> BytesValue(pow) <= if d == 0 then 0 else MAX_256 / d)
  {
    var sixteen := "ffffffffffffffff";
    var ones := sixteen + sixteen + sixteen + sixteen;
    assert forall i :: 0 <= i < 16 ==> sixteen[i] == 'f';
    Big256(ones);
    var big256 := HexToInfInt(ones);
    if Over(HEX_SET, difficulty) { NumberOverHexSet(difficulty); }
    var diff := HexToInfInt(difficulty);
    if !diff.Ok? { return InvalidCharacter; }
    var text := ToHex(pow);
    HexSetIsTable();
    TextIsNumeral(HEX_SET, pow);
    var powInt := HexToInfInt(text);
    var target := big256.value.DividedBy(diff.value);
    var above := powInt.value.GreaterThan(target);
    return Ok(!above);
  }
}
