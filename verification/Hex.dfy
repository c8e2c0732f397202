/** hex.hpp: bytes and their hexadecimal text. */
module Hex {
  import opened Alphabets

  type Byte = x: int | 0 <= x < 256

  const HEX_SET := "0123456789abcdef"

  datatype HashResult = Hash(bytes: seq<Byte>) | LengthError

  /** from_hex of one character; other characters count as zero. */
  function FromHexDigit(c: char): (d: nat)
    ensures d < 16
  {
    if '0' <= c <= '9' then c as int - '0' as int
    else if 'a' <= c <= 'f' then c as int - 'a' as int + 10
    else if 'A' <= c <= 'F' then c as int - 'A' as int + 10
    else 0
  }

  /** What a digit stands for: its place among the sixteen, in either case. Anything else counts as zero. */
  ghost function Place(c: char): nat {
    if c in "0123456789abcdef" then Find("0123456789abcdef", c)
    else if c in "0123456789ABCDEF" then Find("0123456789ABCDEF", c)
    else 0
  }

  /** The number that a hexadecimal text denotes. */
  ghost function HexNumber(s: string): nat { if s == "" then 0 else 16 * HexNumber(s[..|s| - 1]) + Place(s[|s| - 1]) }

  /** One character of the table in to_hex. */
  function HexDigit(x: nat): (c: char)
    requires x < 16
    ensures c as int == if x < 10 then '0' as int + x else 'a' as int + x - 10
  {
    HEX_SET[x]
  }

  /** The bytes that pairs of digits stand for. */
  function BytesOf(s: string): (b: seq<Byte>)
    requires |s| % 2 == 0
    ensures |b| == |s| / 2
  {
    if s == "" then [] else [16 * FromHexDigit(s[0]) + FromHexDigit(s[1])] + BytesOf(s[2..])
  }

  /** An even number of digits: a zero goes in front if needed. */
  function Even(s: string): (e: string)
    ensures |e| % 2 == 0
  {
    if |s| % 2 == 1 then "0" + s else s
  }

  /** Two digits for each byte. */
  function HexText(b: seq<Byte>): (s: string)
    ensures |s| == 2 * |b|
  {
    if b == [] then "" else [HexDigit(b[0] / 16), HexDigit(b[0] % 16)] + HexText(b[1..])
  }

  lemma {:induction false} BytesOfAt(s: string, k: nat)
    requires |s| % 2 == 0 && 2 * k < |s|
    ensures BytesOf(s)[k] == 16 * FromHexDigit(s[2 * k]) + FromHexDigit(s[2 * k + 1])
  {
    if k > 0 { BytesOfAt(s[2..], k - 1); }
  }

  /** from_hex of a string, which it may lengthen, into a buffer. */
  method FromHex(hexStr: string, out: array<Byte>) returns (changed: string, n: nat)
    modifies out
    ensures changed == Even(hexStr)
    ensures n == if |changed| / 2 <= out.Length then |changed| / 2 else out.Length
    ensures out[..n] == BytesOf(Even(hexStr))[..n] && out[n..] == old(out[n..])
    ensures (|hexStr| + 1) / 2 <= out.Length ==> n == (|hexStr| + 1) / 2 && BytesValue(out[..n]) == HexNumber(hexStr)
  {
    changed := hexStr;
    if |hexStr| % 2 != 0 { changed := "0" + changed; }
    n := FillBytes(changed, BytesOf(changed), out);
    EvenReadsNumber(hexStr);
    if |changed| / 2 <= out.Length { assert BytesOf(changed)[..n] == BytesOf(changed); }
  }

  /** The loop of from_hex, on a text of even length. */
  method FillBytes(changed: string, ghost bytes: seq<Byte>, out: array<Byte>) returns (n: nat)
    requires |changed| % 2 == 0 && bytes == BytesOf(changed)
    modifies out
    ensures n == if |changed| / 2 <= out.Length then |changed| / 2 else out.Length
    ensures out[..n] == bytes[..n] && out[n..] == old(out[n..])
  {
    var i := 0;
    n := 0;
    while i != |changed| && n != out.Length
      invariant i == 2 * n <= |changed| && n <= out.Length
      invariant forall k :: 0 <= k < n ==> out[k] == bytes[k]
      invariant forall k :: n <= k < out.Length ==> out[k] == old(out[k])
      decreases |changed| - i
    {
      BytesOfAt(changed, n);
      var byte := 16 * FromHexDigit(changed[i]);
      i := i + 1;
      if i != |changed| {
        byte := byte + FromHexDigit(changed[i]);
        i := i + 1;
      }
      out[n] := byte;
      n := n + 1;
    }
  }

  /** hex_to_sha256. A string of more than 64 digits makes the count of zeros to insert wrap around to
      more than a string can hold. */
  method HexToSha256(hexStr: string) returns (r: HashResult)
    ensures r.LengthError? <==> |hexStr| > 64
    ensures r.Hash? ==> r.bytes == BytesOf(seq(64 - |hexStr|, _ => '0') + hexStr)
    ensures r.Hash? ==> |r.bytes| == 32 && BytesValue(r.bytes) == HexNumber(hexStr)
  {
    if |hexStr| > 64 { return LengthError; }
    var text := seq(64 - |hexStr|, _ => '0') + hexStr;
    var checksum := new Byte[32](_ => 0);
    var changed, n := FromHex(text, checksum);
    ZerosInFront(seq(64 - |hexStr|, _ => '0'), hexStr);
    assert checksum[..] == checksum[..32] && BytesOf(text) == BytesOf(text)[..32];
    return Hash(checksum[..]);
  }

  /** to_hex. */
  method ToHex(d: seq<Byte>) returns (r: string)
    ensures r == HexText(d)
  {
    r := "";
    var i := 0;
    while i < |d|
      invariant i <= |d| && r + HexText(d[i..]) == HexText(d)
    {
      NextByteText(d, i, r);
      r := r + [HexDigit(d[i] / 16)] + [HexDigit(d[i] % 16)];
      i := i + 1;
    }
  }

  lemma NextByteText(d: seq<Byte>, i: nat, r: string)
    requires i < |d|
    ensures r + [HexDigit(d[i] / 16)] + [HexDigit(d[i] % 16)] + HexText(d[i + 1..]) == r + HexText(d[i..])
  {
    assert d[i..][0] == d[i] && d[i..][1..] == d[i + 1..];
    assert HexText(d[i..]) == [HexDigit(d[i] / 16), HexDigit(d[i] % 16)] + HexText(d[i + 1..]);
  }

  // ---------------------------------------------------------------- round trips

  lemma DigitReads(x: nat)
    requires x < 16
    ensures FromHexDigit(HexDigit(x)) == x
  {}

  predicate LowerHexDigit(c: char) { '0' <= c <= '9' || 'a' <= c <= 'f' }

  predicate LowerHex(s: string) { forall i :: 0 <= i < |s| ==> LowerHexDigit(s[i]) }

  lemma HexSetIsAlphabet()
    ensures Alphabet(HEX_SET) && |HEX_SET| == 16
    ensures forall x: nat :: x < 16 ==> HEX_SET[x] == HexDigit(x)
  {
    assert |HEX_SET| == 16;
    forall i, j | 0 <= i < j < 16 ensures HEX_SET[i] != HEX_SET[j] {
      assert HexDigit(i) == HEX_SET[i] && HexDigit(j) == HEX_SET[j];
    }
  }

  lemma DigitIsFound(x: nat)
    requires x < 16
    ensures HexDigit(x) in HEX_SET && Find(HEX_SET, HexDigit(x)) == x
  {
    HexSetIsAlphabet();
    FindDigit(HEX_SET, x);
  }

  /** Reading undoes writing. */
  lemma {:induction false} TextReadsBack(b: seq<Byte>)
    ensures BytesOf(HexText(b)) == b
  {
    if b != [] {
      TextReadsBack(b[1..]);
      DigitReads(b[0] / 16);
      DigitReads(b[0] % 16);
      assert HexText(b)[2..] == HexText(b[1..]);
    }
  }

  /** Writing undoes reading, on lower-case text. */
  lemma {:induction false} BytesWriteBack(s: string)
    requires |s| % 2 == 0 && LowerHex(s)
    ensures HexText(BytesOf(s)) == s
  {
    if s != "" {
      BytesWriteBack(s[2..]);
      var b := BytesOf(s);
      PairWrites(s[0], s[1], b[0]);
      assert b[1..] == BytesOf(s[2..]);
      assert s == [s[0], s[1]] + s[2..];
    }
  }

  lemma PairWrites(high: char, low: char, x: Byte)
    requires LowerHexDigit(high) && LowerHexDigit(low) && x == 16 * FromHexDigit(high) + FromHexDigit(low)
    ensures HexDigit(x / 16) == high && HexDigit(x % 16) == low
  {
    Nibbles(FromHexDigit(high), FromHexDigit(low), x);
    SameDigit(high);
    SameDigit(low);
  }

  lemma Nibbles(h: nat, l: nat, x: nat)
    requires l < 16 && x == 16 * h + l
    ensures x / 16 == h && x % 16 == l
  {}

  lemma SameDigit(c: char)
    requires LowerHexDigit(c)
    ensures HexDigit(FromHexDigit(c)) == c
  {
    assert HexDigit(FromHexDigit(c)) as int == c as int;
  }

  /** hex_to_sha256 undoes sha256_to_hex, and pads what sha256_to_hex would have printed in full. */
  method HashRoundTrip(hash: seq<Byte>) returns (back: HashResult)
    requires |hash| == 32
    ensures back == Hash(hash)
  {
    var text := ToHex(hash);
    TextReadsBack(hash);
    var zeros: string := seq(64 - |text|, _ => '0');
    assert zeros + text == text;
    back := HexToSha256(text);
  }

  // ---------------------------------------------------------------- values

  /** The number whose big-endian bytes are b. */
  function BytesValue(b: seq<Byte>): nat { if b == [] then 0 else 256 * BytesValue(b[..|b| - 1]) + b[|b| - 1] }

  lemma {:induction false} TextAppend(b: seq<Byte>, x: Byte)
    ensures HexText(b + [x]) == HexText(b) + [HexDigit(x / 16), HexDigit(x % 16)]
  {
    if b == [] {
      assert b + [x] == [x];
      assert HexText([x][1..]) == "";
    } else {
      TextAppend(b[1..], x);
      assert (b + [x])[1..] == b[1..] + [x];
    }
  }

  /** The table of hexadecimal digits, for whoever looks digits up in it. */
  ghost predicate HexTable(a: string) {
    |a| == 16 && forall x: nat {:trigger HexDigit(x)} :: x < 16 ==> HexDigit(x) in a && Find(a, HexDigit(x)) == x
  }

  lemma HexSetIsTable()
    ensures HexTable(HEX_SET)
  {
    assert |HEX_SET| == 16;
    forall x: nat | x < 16 ensures HexDigit(x) in HEX_SET && Find(HEX_SET, HexDigit(x)) == x { DigitIsFound(x); }
  }

  /** The text of some bytes is the hexadecimal numeral of their number. */
  lemma {:induction false} TextIsNumeral(a: string, b: seq<Byte>)
    requires HexTable(a)
    ensures Over(a, HexText(b)) && Number(a, HexText(b)) == BytesValue(b)
  {
    if b != [] {
      var front, x := b[..|b| - 1], b[|b| - 1];
      TextIsNumeral(a, front);
      TextAppend(front, x);
      assert b == front + [x];
      TwoMoreDigits(a, HexText(front), HexDigit(x / 16), HexDigit(x % 16));
    }
  }

  lemma TwoMoreDigits(a: string, s: string, high: char, low: char)
    requires |a| == 16 && Over(a, s) && high in a && low in a
    ensures Over(a, s + [high, low])
    ensures Number(a, s + [high, low]) == 256 * Number(a, s) + 16 * Find(a, high) + Find(a, low)
  {
    NumberAppend(a, s, high);
    NumberAppend(a, s + [high], low);
    ScaleIs(16, Number(a, s));
    ScaleIs(16, Number(a, s + [high]));
    assert s + [high, low] == s + [high] + [low];
  }

  function Bound256(n: nat): nat { if n == 0 then 1 else 256 * Bound256(n - 1) }

  lemma {:induction false} BytesValueBelow(b: seq<Byte>)
    ensures BytesValue(b) < Bound256(|b|)
  {
    if b != [] { BytesValueBelow(b[..|b| - 1]); }
  }

  // ---------------------------------------------------------------- from_hex reads the number

  lemma PlaceInRow(a: string, x: nat)
    requires Alphabet(a) && x < |a|
    ensures a[x] in a && Find(a, a[x]) == x
  {
    FindDigit(a, x);
  }

  /** The digits in both cases, one by one. */
  lemma Rows()
    ensures |"0123456789abcdef"| == |"0123456789ABCDEF"| == 16
    ensures forall x :: 0 <= x < 16 ==> FromHexDigit("0123456789abcdef"[x]) == x
    ensures forall x :: 0 <= x < 16 ==> FromHexDigit("0123456789ABCDEF"[x]) == x
  {
    var a, b := "0123456789abcdef", "0123456789ABCDEF";
    assert |a| == 16 && |b| == 16;
    forall x | 0 <= x < 16
      ensures FromHexDigit(a[x]) == x && FromHexDigit(b[x]) == x
    {
      assert a[x] as int == if x < 10 then 48 + x else 87 + x;
      assert b[x] as int == if x < 10 then 48 + x else 55 + x;
    }
  }

  /** A row in which from_hex gives every character its place. */
  lemma RowPlace(a: string, c: char)
    requires |a| == 16 && forall x :: 0 <= x < 16 ==> FromHexDigit(a[x]) == x
    ensures c in a ==> Find(a, c) == FromHexDigit(c)
  {}

  lemma DigitInRow(c: char)
    ensures LowerHexDigit(c) ==> c in "0123456789abcdef"
    ensures 'A' <= c <= 'F' ==> c in "0123456789ABCDEF"
  {
    var a, b := "0123456789abcdef", "0123456789ABCDEF";
    assert |a| == 16 && |b| == 16;
    if '0' <= c <= '9' { assert a[c as int - 48] == c; }
    if 'a' <= c <= 'f' { assert a[c as int - 87] == c; }
    if 'A' <= c <= 'F' { assert b[c as int - 55] == c; }
  }

  /** from_hex of one character is the digit's place. */
  lemma DigitIsPlace(c: char)
    ensures FromHexDigit(c) == Place(c)
  {
    Rows();
    RowPlace("0123456789abcdef", c);
    RowPlace("0123456789ABCDEF", c);
    DigitInRow(c);
  }

  lemma {:induction false} BytesOfAppend(s: string, high: char, low: char)
    requires |s| % 2 == 0
    ensures BytesOf(s + [high, low]) == BytesOf(s) + [16 * FromHexDigit(high) + FromHexDigit(low)]
  {
    var t := s + [high, low];
    if s == "" {
      assert t == [high, low] && t[2..] == "";
    } else {
      BytesOfAppend(s[2..], high, low);
      assert t[2..] == s[2..] + [high, low];
    }
  }

  /** The number that from_hex accumulates, digit by digit. */
  ghost function Accumulated(s: string): nat {
    if s == "" then 0 else 16 * Accumulated(s[..|s| - 1]) + FromHexDigit(s[|s| - 1])
  }

  lemma {:induction false} AccumulatesNumber(s: string)
    ensures Accumulated(s) == HexNumber(s)
  {
    if s != "" {
      AccumulatesNumber(s[..|s| - 1]);
      DigitIsPlace(s[|s| - 1]);
    }
  }

  lemma AccumulatedTwoMore(s: string, high: char, low: char)
    ensures Accumulated(s + [high, low]) == 256 * Accumulated(s) + 16 * FromHexDigit(high) + FromHexDigit(low)
  {
    var t := s + [high, low];
    assert t[..|t| - 1] == s + [high] && (s + [high])[..|s|] == s;
    assert Accumulated(s + [high]) == 16 * Accumulated(s) + FromHexDigit(high);
  }

  lemma ValueOfOneMore(b: seq<Byte>, x: Byte)
    ensures BytesValue(b + [x]) == 256 * BytesValue(b) + x
  {
    assert (b + [x])[..|b|] == b;
  }

  lemma ReadsTwoMore(front: string, high: char, low: char, s: string)
    requires |front| % 2 == 0 && s == front + [high, low] && BytesValue(BytesOf(front)) == Accumulated(front)
    ensures BytesValue(BytesOf(s)) == Accumulated(s)
  {
    BytesOfAppend(front, high, low);
    ValueOfOneMore(BytesOf(front), 16 * FromHexDigit(high) + FromHexDigit(low));
    AccumulatedTwoMore(front, high, low);
  }

  lemma {:induction false} ReadsNumber(s: string, pairs: nat)
    requires |s| == 2 * pairs
    ensures BytesValue(BytesOf(s)) == Accumulated(s)
  {
    if pairs > 0 {
      var front, high, low := s[..|s| - 2], s[|s| - 2], s[|s| - 1];
      ReadsNumber(front, pairs - 1);
      ReadsTwoMore(front, high, low, s);
    }
  }

  lemma {:induction false} ZerosInFront(zeros: string, s: string)
    requires forall i :: 0 <= i < |zeros| ==> zeros[i] == '0'
    ensures HexNumber(zeros + s) == HexNumber(s)
  {
    if s != "" {
      ZerosInFront(zeros, s[..|s| - 1]);
      assert (zeros + s)[..|zeros + s| - 1] == zeros + s[..|s| - 1];
    } else if zeros != "" {
      var front := zeros[..|zeros| - 1];
      ZerosInFront(front, "");
      DigitIsPlace('0');
      assert zeros + s == zeros && front + "" == front;
    }
  }

  /** Texts of odd length included, the bytes of a text are as few as can hold it and are the big-endian bytes
      of the number that it denotes. */
  lemma EvenReadsNumber(s: string)
    ensures BytesValue(BytesOf(Even(s))) == HexNumber(s) && |BytesOf(Even(s))| == (|s| + 1) / 2
  {
    ReadsNumber(Even(s), |Even(s)| / 2);
    AccumulatesNumber(Even(s));
    if |s| % 2 == 1 { ZerosInFront("0", s); }
  }

  /** On the digits that to_hex writes, it is the number of the numeral. */
  lemma {:induction false} NumberOverHexSet(s: string)
    requires Over(HEX_SET, s)
    ensures Number(HEX_SET, s) == HexNumber(s)
  {
    if s != "" {
      NumberOverHexSet(s[..|s| - 1]);
      ScaleIs(16, Number(HEX_SET, s[..|s| - 1]));
    }
  }
}
