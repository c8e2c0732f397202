/** RLP.hpp: recursive length prefix encoding (Appendix B of the Ethereum Yellow Paper), and a decoder
    that shows the encoding to be unambiguous. */
module Rlp {
  import opened Hex

  /** What RLP encodes: byte strings and lists of items. */
  datatype Item = Str(bytes: seq<Byte>) | List(items: seq<Item>)

  datatype Option<T> = None | Some(value: T)

  const STRING_START := 0x80
  const LIST_START := 0xc0
  const SINGLE_PREFIX_MAX := 0x37

  /** The range of size_t. */
  const SIZE_LIMIT: nat := 0x1_0000_0000_0000_0000

  // ---------------------------------------------------------------- the encoding

  /** A number in bytes, the most significant first, without leading zeros. */
  function BigEndian(n: nat): (b: seq<Byte>) { if n == 0 then [] else BigEndian(n / 256) + [n % 256] }

  predicate IsImmediate(s: seq<Byte>) { |s| == 1 && s[0] < STRING_START }

  /** The prefix for a payload of n bytes, counted from the given start; its first byte is cut to a char. */
  function Header(start: nat, n: nat): (h: seq<Byte>)
    ensures |h| >= 1
  {
    if n <= SINGLE_PREFIX_MAX then [(start + n) % 256]
    else [(start + SINGLE_PREFIX_MAX + |BigEndian(n)|) % 256] + BigEndian(n)
  }

  function Encode(item: Item): (b: seq<Byte>)
    ensures |b| >= 1
  {
    match item
    case Str(s) => (if IsImmediate(s) then [] else Header(STRING_START, |s|)) + s
    case List(items) => Header(LIST_START, |EncodeAll(items)|) + EncodeAll(items)
  }

  function EncodeAll(items: seq<Item>): seq<Byte> {
    if items == [] then [] else Encode(items[0]) + EncodeAll(items[1..])
  }

  /** All lengths fit size_t. */
  ghost predicate Sized(item: Item) {
    match item
    case Str(s) => |s| < SIZE_LIMIT
    case List(items) => AllSized(items) && |EncodeAll(items)| < SIZE_LIMIT
  }

  ghost predicate AllSized(items: seq<Item>) { items == [] || (Sized(items[0]) && AllSized(items[1..])) }

  // ---------------------------------------------------------------- the decoder

  /** A prefix taken apart: what it announces, the payload and what follows. */
  datatype Split = Split(isList: bool, payload: seq<Byte>, rest: seq<Byte>)

  /** Take n bytes as the payload. */
  function TakePayload(isList: bool, b: seq<Byte>, n: nat): (r: Option<Split>)
    ensures r.Some? ==> r.value.payload + r.value.rest == b
  {
    if |b| < n then None else Some(Split(isList, b[..n], b[n..]))
  }

  /** Read k bytes of length, then the payload. A length that a shorter prefix can hold is refused. */
  function TakeLong(isList: bool, b: seq<Byte>, k: nat): (r: Option<Split>)
    ensures r.Some? ==> |r.value.payload| + |r.value.rest| + k == |b|
  {
    if |b| < k || k == 0 || b[0] == 0 || BytesValue(b[..k]) <= SINGLE_PREFIX_MAX then None
    else TakePayload(isList, b[k..], BytesValue(b[..k]))
  }

  function SplitHeader(b: seq<Byte>): (r: Option<Split>)
    requires b != [] && b[0] >= STRING_START
    ensures r.Some? ==> |r.value.payload| + |r.value.rest| < |b|
  {
    if b[0] <= STRING_START + SINGLE_PREFIX_MAX then TakePayload(false, b[1..], b[0] - STRING_START)
    else if b[0] < LIST_START then TakeLong(false, b[1..], b[0] - STRING_START - SINGLE_PREFIX_MAX)
    else if b[0] <= LIST_START + SINGLE_PREFIX_MAX then TakePayload(true, b[1..], b[0] - LIST_START)
    else TakeLong(true, b[1..], b[0] - LIST_START - SINGLE_PREFIX_MAX)
  }

  /** The first item of b and the bytes after it. */
  function Decode(b: seq<Byte>): (r: Option<(Item, seq<Byte>)>)
    ensures r.Some? ==> |r.value.1| < |b|
    decreases |b|, 0
  {
    if b == [] then None
    else if b[0] < STRING_START then Some((Str(b[..1]), b[1..]))
    else
      match SplitHeader(b)
      case None => None
      case Some(split) =>
        if split.isList then
          match DecodeAll(split.payload)
          case None => None
          case Some(items) => Some((List(items), split.rest))
        else if IsImmediate(split.payload) then None
        else Some((Str(split.payload), split.rest))
  }

  /** A row of items with nothing left over. */
  function DecodeAll(b: seq<Byte>): Option<seq<Item>>
    decreases |b|, 1
  {
    if b == [] then Some([])
    else
      match Decode(b)
      case None => None
      case Some((item, rest)) =>
        match DecodeAll(rest)
        case None => None
        case Some(items) => Some([item] + items)
  }

  // ---------------------------------------------------------------- lengths

  lemma {:induction false} BigEndianLength(n: nat, k: nat)
    requires n < Bound256(k)
    ensures |BigEndian(n)| <= k
  {
    if n > 0 { BigEndianLength(n / 256, k - 1); }
  }

  lemma {:induction false} BigEndianReads(n: nat)
    ensures BytesValue(BigEndian(n)) == n && (n > 0 ==> |BigEndian(n)| >= 1 && BigEndian(n)[0] != 0)
  {
    if n > 0 {
      BigEndianReads(n / 256);
      assert BigEndian(n)[..|BigEndian(n)| - 1] == BigEndian(n / 256);
    }
  }

  /** Only the shortest form has no leading zero. */
  lemma {:induction false} ReadsAsBigEndian(b: seq<Byte>)
    requires b != [] ==> b[0] != 0
    ensures BigEndian(BytesValue(b)) == b
  {
    if b != [] {
      var front := b[..|b| - 1];
      ReadsAsBigEndian(front);
      assert BytesValue(b) / 256 == BytesValue(front) && BytesValue(b) % 256 == b[|b| - 1];
      if front != [] { assert front[0] != 0; }
      assert b == front + [b[|b| - 1]];
    }
  }

  lemma SizeLimitBytes()
    ensures SIZE_LIMIT == Bound256(8)
  {
    assert Bound256(4) == 0x1_0000_0000;
  }

  // ---------------------------------------------------------------- the numbers of the standard

  lemma LengthForm(n: nat)
    requires n < 0x1_0000_0000_0000_0000
    ensures BytesValue(BigEndian(n)) == n && (n > 0 ==> BigEndian(n) != [] && BigEndian(n)[0] != 0)
    ensures |BigEndian(n)| <= 8
  {
    BigEndianReads(n);
    SizeLimitBytes();
    BigEndianLength(n, 8);
  }

  lemma HeaderNumbers(start: nat, n: nat)
    requires (start == STRING_START || start == LIST_START) && n < 0x1_0000_0000_0000_0000
    ensures Header(start, n) == if n < 56 then [start + n] else [start + 55 + |BigEndian(n)|] + BigEndian(n)
  {
    HeaderForm(start, n);
    if n < 56 { assert LengthBytes(n) == []; } else { assert LengthBytes(n) == BigEndian(n); }
  }

  /** Strings, with the numbers of Appendix B; n is the length in bytes, without leading zeros (LengthForm). */
  lemma StringsAsInAppendixB(s: seq<Byte>)
    requires |s| < 0x1_0000_0000_0000_0000
    ensures var n := BigEndian(|s|);
      Encode(Str(s)) ==
        if |s| == 1 && s[0] < 128 then s else if |s| < 56 then [128 + |s|] + s else [183 + |n|] + n + s
  {
    if IsImmediate(s) { assert Encode(Str(s)) == s; } else { HeaderNumbers(STRING_START, |s|); }
  }

  /** And lists, whose payload is the encodings of the items in order. */
  lemma ListsAsInAppendixB(items: seq<Item>)
    requires |EncodeAll(items)| < 0x1_0000_0000_0000_0000
    ensures var s := EncodeAll(items); var n := BigEndian(|s|);
      Encode(List(items)) == if |s| < 56 then [192 + |s|] + s else [247 + |n|] + n + s
  {
    HeaderNumbers(LIST_START, |EncodeAll(items)|);
  }

  // ---------------------------------------------------------------- decoding undoes encoding

  lemma LongTaken(isList: bool, payload: seq<Byte>, rest: seq<Byte>)
    requires |payload| > SINGLE_PREFIX_MAX
    ensures TakeLong(isList, BigEndian(|payload|) + (payload + rest), |BigEndian(|payload|)|) ==
      Some(Split(isList, payload, rest))
  {
    var length := BigEndian(|payload|);
    BigEndianReads(|payload|);
    var b := length + (payload + rest);
    assert b[..|length|] == length && b[|length|..] == payload + rest;
    assert (payload + rest)[..|payload|] == payload && (payload + rest)[|payload|..] == rest;
  }

  /** The first byte of a prefix and the length bytes after it. */
  function LengthBytes(n: nat): seq<Byte> { if n <= SINGLE_PREFIX_MAX then [] else BigEndian(n) }

  lemma HeaderForm(start: nat, n: nat)
    requires (start == STRING_START || start == LIST_START) && n < SIZE_LIMIT
    ensures |LengthBytes(n)| <= 8 && (n > SINGLE_PREFIX_MAX ==> |LengthBytes(n)| >= 1)
    ensures Header(start, n) ==
      [start + if n <= SINGLE_PREFIX_MAX then n else SINGLE_PREFIX_MAX + |LengthBytes(n)|] + LengthBytes(n)
  {
    if n > SINGLE_PREFIX_MAX {
      SizeLimitBytes();
      BigEndianLength(n, 8);
      BigEndianReads(n);
    }
  }

  lemma FirstAndRest(x: Byte, length: seq<Byte>, payload: seq<Byte>, rest: seq<Byte>, b: seq<Byte>)
    ensures b == [x] + length + payload + rest <==> b != [] && b[0] == x && b[1..] == length + (payload + rest)
  {
    if b != [] && b[0] == x && b[1..] == length + (payload + rest) { assert b == [b[0]] + b[1..]; }
  }

  lemma HeaderSplits(isList: bool, payload: seq<Byte>, rest: seq<Byte>, b: seq<Byte>)
    requires |payload| < SIZE_LIMIT
    requires b == Header(if isList then LIST_START else STRING_START, |payload|) + payload + rest
    ensures b[0] >= STRING_START && SplitHeader(b) == Some(Split(isList, payload, rest))
  {
    var start := if isList then LIST_START else STRING_START;
    HeaderForm(start, |payload|);
    FirstAndRest(b[0], LengthBytes(|payload|), payload, rest, b);
    if |payload| <= SINGLE_PREFIX_MAX {
      assert b[1..] == payload + rest;
      assert (payload + rest)[..|payload|] == payload && (payload + rest)[|payload|..] == rest;
    } else {
      LongTaken(isList, payload, rest);
    }
  }

  /** Every encoding decodes to its item, whatever follows it. */
  lemma {:induction false} DecodeEncode(item: Item, rest: seq<Byte>)
    requires Sized(item)
    ensures Decode(Encode(item) + rest) == Some((item, rest))
    decreases item
  {
    match item
    case Str(s) =>
      if IsImmediate(s) {
        assert (s + rest)[..1] == s && (s + rest)[1..] == rest;
        assert Encode(item) == s;
      } else {
        HeaderSplits(false, s, rest, Encode(item) + rest);
      }
    case List(items) =>
      var payload := EncodeAll(items);
      HeaderSplits(true, payload, rest, Encode(item) + rest);
      DecodeEncodeAll(items);
  }

  lemma {:induction false} DecodeEncodeAll(items: seq<Item>)
    requires AllSized(items)
    ensures DecodeAll(EncodeAll(items)) == Some(items)
    decreases items
  {
    if items != [] {
      DecodeEncode(items[0], EncodeAll(items[1..]));
      DecodeEncodeAll(items[1..]);
      assert items == [items[0]] + items[1..];
    }
  }

  // ---------------------------------------------------------------- only encodings decode

  lemma LongIsHeader(isList: bool, b: seq<Byte>, k: nat)
    requires k <= 8 && TakeLong(isList, b, k).Some?
    ensures var s := TakeLong(isList, b, k).value;
      SINGLE_PREFIX_MAX < |s.payload| < SIZE_LIMIT && |BigEndian(|s.payload|)| == k &&
      b == BigEndian(|s.payload|) + s.payload + s.rest
  {
    ReadsAsBigEndian(b[..k]);
    BytesValueBelow(b[..k]);
    Bound256Grows(k, 8);
    SizeLimitBytes();
    assert b == b[..k] + b[k..];
  }

  /** The cases of SplitHeader: a short prefix with no length bytes, or a long one. */
  lemma SplitTail(b: seq<Byte>, s: Split, start: nat)
    requires b != [] && b[0] >= STRING_START && SplitHeader(b) == Some(s)
    requires start == if s.isList then LIST_START else STRING_START
    ensures |s.payload| < SIZE_LIMIT && b[1..] == LengthBytes(|s.payload|) + (s.payload + s.rest)
    ensures b[0] == start + if |s.payload| <= SINGLE_PREFIX_MAX then |s.payload|
                            else SINGLE_PREFIX_MAX + |LengthBytes(|s.payload|)|
  {
    if b[0] <= STRING_START + SINGLE_PREFIX_MAX || LIST_START <= b[0] <= LIST_START + SINGLE_PREFIX_MAX {
      ShortTail(b[1..], s);
    } else {
      LongTail(s.isList, b[1..], b[0] - SINGLE_PREFIX_MAX - start, s);
    }
  }

  lemma ShortTail(t: seq<Byte>, s: Split)
    requires s.payload + s.rest == t && |s.payload| <= SINGLE_PREFIX_MAX
    ensures t == LengthBytes(|s.payload|) + (s.payload + s.rest)
  {}

  lemma LongTail(isList: bool, t: seq<Byte>, k: nat, s: Split)
    requires k <= 8 && TakeLong(isList, t, k) == Some(s)
    ensures SINGLE_PREFIX_MAX < |s.payload| < SIZE_LIMIT && k == |LengthBytes(|s.payload|)|
    ensures t == LengthBytes(|s.payload|) + (s.payload + s.rest)
  {
    LongIsHeader(isList, t, k);
    Associate(BigEndian(|s.payload|), s.payload, s.rest);
  }

  lemma Associate(u: seq<Byte>, v: seq<Byte>, w: seq<Byte>)
    ensures u + v + w == u + (v + w)
  {}

  lemma SplitIsHeader(b: seq<Byte>, s: Split)
    requires b != [] && b[0] >= STRING_START && SplitHeader(b) == Some(s)
    ensures |s.payload| < SIZE_LIMIT
    ensures b == Header(if s.isList then LIST_START else STRING_START, |s.payload|) + s.payload + s.rest
  {
    var start := if s.isList then LIST_START else STRING_START;
    SplitTail(b, s, start);
    HeaderForm(start, |s.payload|);
    FirstAndRest(b[0], LengthBytes(|s.payload|), s.payload, s.rest, b);
  }

  lemma {:induction false} Bound256Grows(n: nat, m: nat)
    requires n <= m
    ensures Bound256(n) <= Bound256(m)
  {
    if n < m { Bound256Grows(n, m - 1); }
  }

  /** Whatever decodes is the encoding of what it decodes to. */
  lemma {:induction false} EncodeDecode(b: seq<Byte>)
    requires Decode(b).Some?
    ensures var (item, rest) := Decode(b).value; Sized(item) && b == Encode(item) + rest
    decreases |b|, 0
  {
    if b[0] >= STRING_START {
      var s := SplitHeader(b).value;
      SplitIsHeader(b, s);
      if s.isList { EncodeDecodeAll(s.payload); }
    }
  }

  lemma {:induction false} EncodeDecodeAll(b: seq<Byte>)
    requires DecodeAll(b).Some?
    ensures AllSized(DecodeAll(b).value) && EncodeAll(DecodeAll(b).value) == b
    decreases |b|, 1
  {
    if b != [] {
      EncodeDecode(b);
      EncodeDecodeAll(Decode(b).value.1);
      var items := DecodeAll(b).value;
      assert items[1..] == DecodeAll(Decode(b).value.1).value;
    }
  }

  /** No encoding is a prefix of another one. */
  lemma PrefixFree(x: Item, y: Item)
    requires Sized(x) && Sized(y) && Encode(x) <= Encode(y)
    ensures x == y
  {
    var rest := Encode(y)[|Encode(x)|..];
    DecodeEncode(x, rest);
    DecodeEncode(y, []);
    assert Encode(x) + rest == Encode(y) == Encode(y) + [];
  }

  /** A row of items is determined by the bytes of its members. */
  lemma RowDetermined(x: seq<Item>, y: seq<Item>)
    requires AllSized(x) && AllSized(y) && EncodeAll(x) == EncodeAll(y)
    ensures x == y
  {
    DecodeEncodeAll(x);
    DecodeEncodeAll(y);
  }
}
