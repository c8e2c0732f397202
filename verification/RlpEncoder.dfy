/** RLP.hpp as written, and the header encoding of cross_plugin.cpp built on it. */
module RlpEncoder {
  import opened Hex
  import opened Rlp

  datatype EncodeType = EncodeHex | EncodeUtf8

  /** The vectors of vectors of strings that the template instances of encode take. */
  datatype Arg = Text(text: string) | Vector(elements: seq<Arg>)

  /** The characters of a C++ string. */
  ghost predicate ByteChars(s: string) { forall i :: 0 <= i < |s| ==> s[i] as int < 256 }

  ghost predicate ByteCharsIn(arg: Arg) {
    match arg
    case Text(s) => ByteChars(s)
    case Vector(elements) => forall e :: e in elements ==> ByteCharsIn(e)
  }

  /** The bytes encode makes of a string. */
  function Payload(s: string, t: EncodeType): seq<Byte>
    requires ByteChars(s)
  {
    if t.EncodeHex? then BytesOf(Even(s)) else seq(|s|, i requires 0 <= i < |s| => s[i] as Byte)
  }

  /** A byte string of the number that a hexadecimal text denotes, two digits to a byte. */
  ghost predicate Holds(item: Item, text: string) {
    item.Str? && |item.bytes| == (|text| + 1) / 2 && BytesValue(item.bytes) == HexNumber(text)
  }

  /** The characters of a text as they are. */
  ghost predicate Spells(bytes: seq<Byte>, text: string) {
    |bytes| == |text| && forall i :: 0 <= i < |text| ==> bytes[i] == text[i] as int
  }

  function ToItem(arg: Arg, t: EncodeType): Item
    requires ByteCharsIn(arg)
    decreases arg
  {
    match arg
    case Text(s) => Str(Payload(s, t))
    case Vector(elements) => List(ItemsFrom(elements, 0, t))
  }

  /** The items of the elements from position i on. */
  function ItemsFrom(elements: seq<Arg>, i: nat, t: EncodeType): (items: seq<Item>)
    requires i <= |elements| && forall e :: e in elements ==> ByteCharsIn(e)
    ensures |items| == |elements| - i
    decreases elements, |elements| - i
  {
    if i == |elements| then [] else [ToItem(elements[i], t)] + ItemsFrom(elements, i + 1, t)
  }

  /** One item for each element, in order. */
  lemma {:induction false} ItemsFromAt(elements: seq<Arg>, i: nat, t: EncodeType, k: nat)
    requires i + k < |elements| && forall e :: e in elements ==> ByteCharsIn(e)
    ensures ItemsFrom(elements, i, t)[k] == ToItem(elements[i + k], t)
    decreases k
  {
    ItemsFromNext(elements, i, t);
    if k > 0 {
      ItemsFromAt(elements, i + 1, t, k - 1);
      TailAt(ItemsFrom(elements, i, t), k);
    }
  }

  lemma ItemsFromNext(elements: seq<Arg>, i: nat, t: EncodeType)
    requires i < |elements| && forall e :: e in elements ==> ByteCharsIn(e)
    ensures ItemsFrom(elements, i, t)[0] == ToItem(elements[i], t)
    ensures ItemsFrom(elements, i, t)[1..] == ItemsFrom(elements, i + 1, t)
  {
    var first: Item, rest := ToItem(elements[i], t), ItemsFrom(elements, i + 1, t);
    assert ItemsFrom(elements, i, t) == [first] + rest;
  }

  lemma TailAt(items: seq<Item>, k: nat)
    requires 0 < k < |items|
    ensures items[k] == items[1..][k - 1]
  {}

  /** The reversal that rbegin and rend stand for. */
  function Reversed(b: seq<Byte>): seq<Byte> { if b == [] then [] else Reversed(b[1..]) + [b[0]] }

  lemma {:induction false} ReversedAppend(b: seq<Byte>, x: Byte)
    ensures Reversed(b + [x]) == [x] + Reversed(b)
  {
    if b == [] {
      assert b + [x] == [x];
      assert Reversed([x][1..]) == [];
    } else {
      ReversedAppend(b[1..], x);
      assert (b + [x])[1..] == b[1..] + [x];
    }
  }

  /** The loop of both header functions: the length in bytes, the least significant first. */
  method LengthReserve(length: nat) returns (reserve: seq<Byte>)
    ensures Reversed(reserve) == BigEndian(length)
  {
    reserve := [];
    var rest := length;
    while rest != 0
      invariant BigEndian(rest) + Reversed(reserve) == BigEndian(length)
    {
      ReversedAppend(reserve, rest % 256);
      reserve := reserve + [rest % 256];
      rest := rest / 256;
    }
  }

  /** generate_string_header. */
  method GenerateStringHeader(str: seq<Byte>) returns (header: seq<Byte>)
    requires |str| < SIZE_LIMIT
    ensures header == if IsImmediate(str) then [] else Header(STRING_START, |str|)
  {
    header := [];
    var single := !IsImmediate(str) && |str| <= SINGLE_PREFIX_MAX;
    if single {
      header := [STRING_START + |str|];
    } else if |str| > SINGLE_PREFIX_MAX {
      var reserve := LengthReserve(|str|);
      header := [(STRING_START + SINGLE_PREFIX_MAX + |reserve|) % 256];
      header := header + Reversed(reserve);
      ReversedLength(reserve);
    }
  }

  /** generate_array_header. */
  method GenerateArrayHeader(str: seq<Byte>) returns (header: seq<Byte>)
    requires |str| < SIZE_LIMIT
    ensures header == Header(LIST_START, |str|)
  {
    if |str| <= SINGLE_PREFIX_MAX {
      header := [LIST_START + |str|];
    } else {
      var reserve := LengthReserve(|str|);
      header := [(LIST_START + SINGLE_PREFIX_MAX + |reserve|) % 256];
      header := header + Reversed(reserve);
      ReversedLength(reserve);
    }
  }

  lemma {:induction false} ReversedLength(b: seq<Byte>)
    ensures |Reversed(b)| == |b|
  {
    if b != [] { ReversedLength(b[1..]); }
  }

  lemma PayloadOfText(s: string, t: EncodeType, p: seq<Byte>)
    requires ByteChars(s) && p == Payload(s, t)
    ensures |p| <= |s|
    ensures t.EncodeHex? ==> Holds(Str(p), s)
    ensures t.EncodeUtf8? ==> Spells(p, s)
  {
    if t.EncodeHex? { EvenReadsNumber(s); }
  }

  lemma TextDecodes(s: string, t: EncodeType, r: seq<Byte>)
    requires ByteChars(s) && |s| < SIZE_LIMIT && r == Encode(Str(Payload(s, t)))
    ensures Decode(r).Some? && Decode(r).value.0.Str? && Decode(r).value.1 == []
    ensures t.EncodeHex? ==> Holds(Decode(r).value.0, s)
    ensures t.EncodeUtf8? ==> Spells(Decode(r).value.0.bytes, s)
  {
    var p := Payload(s, t);
    PayloadOfText(s, t, p);
    DecodeEncode(Str(p), []);
    assert r + [] == r;
  }

  /** encode of a string. */
  method EncodeString(str: string, t: EncodeType) returns (r: seq<Byte>)
    requires ByteChars(str) && |str| < SIZE_LIMIT
    ensures r == Encode(Str(Payload(str, t)))
    ensures Decode(r).Some? && Decode(r).value.0.Str? && Decode(r).value.1 == []
    ensures t.EncodeHex? ==> Holds(Decode(r).value.0, str)
    ensures t.EncodeUtf8? ==> Spells(Decode(r).value.0.bytes, str)
  {
    if t.EncodeHex? {
      var buffer := new Byte[|str|](_ => 0);
      var changed, length := FromHex(str, buffer);
      r := buffer[..length];
    } else {
      r := seq(|str|, i requires 0 <= i < |str| => str[i] as Byte);
    }
    var header := GenerateStringHeader(r);
    r := header + r;
    TextDecodes(str, t, r);
  }

  /** encode of a hash, by way of its hexadecimal text. */
  method EncodeHash(checksum: seq<Byte>) returns (r: seq<Byte>)
    requires |checksum| == 32
    ensures r == [160] + checksum
  {
    var text := ToHex(checksum);
    TextReadsBack(checksum);
    StringsAsInAppendixB(checksum);
    assert ByteChars(text) by { HexTextBytes(checksum); }
    r := EncodeString(text, EncodeHex);
  }

  lemma {:induction false} HexTextBytes(b: seq<Byte>)
    ensures ByteChars(HexText(b))
  {
    if b != [] { HexTextBytes(b[1..]); }
  }

  /** encode of anything: strings as such, vectors element by element with a header in front. */
  method EncodeArg(arg: Arg, t: EncodeType) returns (r: seq<Byte>)
    requires ByteCharsIn(arg) && TextsSized(arg) && Sized(ToItem(arg, t))
    ensures r == Encode(ToItem(arg, t))
    decreases arg
  {
    match arg
    case Text(s) => r := EncodeString(s, t);
    case Vector(elements) =>
      r := EncodeElements(elements, t);
      var header := GenerateArrayHeader(r);
      r := header + r;
  }

  /** The loop of encode over a vector. */
  method EncodeElements(elements: seq<Arg>, t: EncodeType) returns (r: seq<Byte>)
    requires forall e :: e in elements ==> ByteCharsIn(e) && TextsSized(e)
    requires AllSized(ItemsFrom(elements, 0, t))
    ensures r == EncodeAll(ItemsFrom(elements, 0, t))
    decreases elements
  {
    r := [];
    var i := 0;
    ghost var all := EncodeAll(ItemsFrom(elements, 0, t));
    while i < |elements|
      invariant i <= |elements| && AllSized(ItemsFrom(elements, i, t))
      invariant r + EncodeAll(ItemsFrom(elements, i, t)) == all
    {
      RestOfItems(elements, i, t);
      var e := EncodeArg(elements[i], t);
      r := r + e;
      i := i + 1;
    }
  }

  lemma RestOfItems(elements: seq<Arg>, i: nat, t: EncodeType)
    requires i < |elements| && (forall e :: e in elements ==> ByteCharsIn(e)) && AllSized(ItemsFrom(elements, i, t))
    ensures elements[i] in elements && Sized(ToItem(elements[i], t)) && AllSized(ItemsFrom(elements, i + 1, t))
    ensures EncodeAll(ItemsFrom(elements, i, t)) ==
      Encode(ToItem(elements[i], t)) + EncodeAll(ItemsFrom(elements, i + 1, t))
  {
    assert ItemsFrom(elements, i, t)[1..] == ItemsFrom(elements, i + 1, t);
  }

  /** The lengths of the texts themselves fit size_t. */
  ghost predicate TextsSized(arg: Arg) {
    match arg
    case Text(s) => |s| < SIZE_LIMIT
    case Vector(elements) => forall e :: e in elements ==> TextsSized(e)
  }

  // ---------------------------------------------------------------- block headers

  /** The fields of a block header that its hash covers. */
  datatype BlockHeader = BlockHeader(
    parentHash: string, uncleHash: string, coinbase: string, stateRootHash: string, transactionRootHash: string,
    receiptRootHash: string, blooms: string, difficulty: string, number: string, gasLimit: string,
    gasUsed: string, timestamp: string, extraHash: string)

  function FieldTexts(h: BlockHeader): seq<string> {
    [h.parentHash, h.uncleHash, h.coinbase, h.stateRootHash, h.transactionRootHash, h.receiptRootHash, h.blooms,
     h.difficulty, h.number, h.gasLimit, h.gasUsed, h.timestamp, h.extraHash]
  }

  /** Hexadecimal texts as byte strings. */
  function HexItems(texts: seq<string>): (items: seq<Item>)
    ensures |items| == |texts|
  {
    seq(|texts|, i requires 0 <= i < |texts| => Str(BytesOf(Even(texts[i]))))
  }

  ghost predicate IsText(s: string) { ByteChars(s) && |s| < SIZE_LIMIT }

  ghost predicate TextHeader(h: BlockHeader) {
    IsText(h.parentHash) && IsText(h.uncleHash) && IsText(h.coinbase) && IsText(h.stateRootHash) &&
    IsText(h.transactionRootHash) && IsText(h.receiptRootHash) && IsText(h.blooms) && IsText(h.difficulty) &&
    IsText(h.number) && IsText(h.gasLimit) && IsText(h.gasUsed) && IsText(h.timestamp) && IsText(h.extraHash)
  }

  /** Append one field; the ghost values are the fields so far. */
  method AppendField(r0: seq<Byte>, ghost before: seq<string>, text: string)
    returns (r: seq<Byte>, ghost texts: seq<string>)
    requires IsText(text) && r0 == EncodeAll(HexItems(before))
    ensures texts == before + [text] && r == EncodeAll(HexItems(texts))
  {
    texts := before + [text];
    var field := EncodeString(text, EncodeHex);
    r := r0 + field;
    EncodeAllAppend(HexItems(before), Str(BytesOf(Even(text))));
    assert HexItems(texts) == HexItems(before) + [Str(BytesOf(Even(text)))];
  }

  lemma {:induction false} EncodeAllAppend(items: seq<Item>, item: Item)
    ensures EncodeAll(items + [item]) == EncodeAll(items) + Encode(item)
  {
    if items == [] {
      assert items + [item] == [item];
      assert EncodeAll([item][1..]) == [];
    } else {
      EncodeAllAppend(items[1..], item);
      assert (items + [item])[1..] == items[1..] + [item];
    }
  }

  method AppendThree(r0: seq<Byte>, ghost before: seq<string>, a: string, b: string, c: string)
    returns (r: seq<Byte>, ghost texts: seq<string>)
    requires IsText(a) && IsText(b) && IsText(c) && r0 == EncodeAll(HexItems(before))
    ensures texts == before + [a, b, c] && r == EncodeAll(HexItems(texts))
  {
    r, texts := AppendField(r0, before, a);
    r, texts := AppendField(r, texts, b);
    r, texts := AppendField(r, texts, c);
  }

  /** The thirteen calls of append in headerHash. */
  method FieldRow(h: BlockHeader) returns (r: seq<Byte>, ghost texts: seq<string>)
    requires TextHeader(h)
    ensures texts == FieldTexts(h) && r == EncodeAll(HexItems(texts))
  {
    ghost var first, second, third;
    r, first := AppendThree([], [], h.parentHash, h.uncleHash, h.coinbase);
    r, second := AppendThree(r, first, h.stateRootHash, h.transactionRootHash, h.receiptRootHash);
    r, third := AppendThree(r, second, h.blooms, h.difficulty, h.number);
    r, texts := AppendThree(r, third, h.gasLimit, h.gasUsed, h.timestamp);
    JoinedTexts(h, first, second, third, texts);
    r, texts := AppendField(r, texts, h.extraHash);
  }

  lemma JoinedTexts(h: BlockHeader, first: seq<string>, second: seq<string>, third: seq<string>, fourth: seq<string>)
    requires first == [] + [h.parentHash, h.uncleHash, h.coinbase]
    requires second == first + [h.stateRootHash, h.transactionRootHash, h.receiptRootHash]
    requires third == second + [h.blooms, h.difficulty, h.number]
    requires fourth == third + [h.gasLimit, h.gasUsed, h.timestamp]
    ensures fourth + [h.extraHash] == FieldTexts(h)
  {}

  /** What headerHash hashes: the thirteen fields in order, as one list. */
  method HeaderBytes(h: BlockHeader) returns (r: seq<Byte>)
    requires TextHeader(h) && |EncodeAll(HexItems(FieldTexts(h)))| < SIZE_LIMIT
    ensures r == Encode(List(HexItems(FieldTexts(h))))
    ensures Decode(r).Some? && Decode(r).value.0.List? && Decode(r).value.1 == []
    ensures var items := Decode(r).value.0.items;
      && |items| == 13
      && Holds(items[0], h.parentHash) && Holds(items[1], h.uncleHash) && Holds(items[2], h.coinbase)
      && Holds(items[3], h.stateRootHash) && Holds(items[4], h.transactionRootHash)
      && Holds(items[5], h.receiptRootHash) && Holds(items[6], h.blooms) && Holds(items[7], h.difficulty)
      && Holds(items[8], h.number) && Holds(items[9], h.gasLimit) && Holds(items[10], h.gasUsed)
      && Holds(items[11], h.timestamp) && Holds(items[12], h.extraHash)
  {
    ghost var texts;
    r, texts := FieldRow(h);
    var header := GenerateArrayHeader(r);
    r := header + r;
    TextsOfHeader(h, texts);
    HeaderDecodes(texts, r);
    FieldsInOrder(h, texts, HexItems(texts));
  }

  lemma TextsOfHeader(h: BlockHeader, texts: seq<string>)
    requires TextHeader(h) && texts == FieldTexts(h)
    ensures |texts| == 13 && forall i :: 0 <= i < |texts| ==> |texts[i]| < SIZE_LIMIT
  {}

  lemma FieldsInOrder(h: BlockHeader, texts: seq<string>, items: seq<Item>)
    requires |items| == |texts| && texts == FieldTexts(h) && forall i :: 0 <= i < |texts| ==> Holds(items[i], texts[i])
    ensures |items| == 13
    ensures Holds(items[0], h.parentHash) && Holds(items[1], h.uncleHash) && Holds(items[2], h.coinbase)
    ensures Holds(items[3], h.stateRootHash) && Holds(items[4], h.transactionRootHash)
    ensures Holds(items[5], h.receiptRootHash) && Holds(items[6], h.blooms) && Holds(items[7], h.difficulty)
    ensures Holds(items[8], h.number) && Holds(items[9], h.gasLimit) && Holds(items[10], h.gasUsed)
    ensures Holds(items[11], h.timestamp) && Holds(items[12], h.extraHash)
  {
    assert Holds(items[0], texts[0]) && Holds(items[1], texts[1]) && Holds(items[2], texts[2]);
    assert Holds(items[3], texts[3]) && Holds(items[4], texts[4]) && Holds(items[5], texts[5]);
    assert Holds(items[6], texts[6]) && Holds(items[7], texts[7]) && Holds(items[8], texts[8]);
    assert Holds(items[9], texts[9]) && Holds(items[10], texts[10]) && Holds(items[11], texts[11]);
    assert Holds(items[12], texts[12]);
  }

  lemma {:induction false} HexItemsSized(texts: seq<string>)
    requires forall i :: 0 <= i < |texts| ==> |texts[i]| < SIZE_LIMIT
    ensures AllSized(HexItems(texts))
  {
    if texts != [] {
      HexItemsSized(texts[1..]);
      assert HexItems(texts)[1..] == HexItems(texts[1..]);
      assert Even(texts[0]) == texts[0] || Even(texts[0]) == "0" + texts[0];
    }
  }

  lemma HeaderDecodes(texts: seq<string>, r: seq<Byte>)
    requires r == Encode(List(HexItems(texts))) && |EncodeAll(HexItems(texts))| < SIZE_LIMIT
    requires forall i :: 0 <= i < |texts| ==> |texts[i]| < SIZE_LIMIT
    ensures Decode(r) == Some((List(HexItems(texts)), []))
    ensures forall i :: 0 <= i < |texts| ==> Holds(HexItems(texts)[i], texts[i])
  {
    HexItemsSized(texts);
    DecodeEncode(List(HexItems(texts)), []);
    assert r + [] == r;
    forall i | 0 <= i < |texts|
      ensures Holds(HexItems(texts)[i], texts[i])
    {
      EvenReadsNumber(texts[i]);
    }
  }

  /** The bytes that are hashed determine every field, up to the reading of its text. */
  lemma HeaderBytesDetermineFields(g: BlockHeader, h: BlockHeader)
    requires Sized(List(HexItems(FieldTexts(g)))) && Sized(List(HexItems(FieldTexts(h))))
    requires Encode(List(HexItems(FieldTexts(g)))) == Encode(List(HexItems(FieldTexts(h))))
    ensures forall i :: 0 <= i < 13 ==> BytesOf(Even(FieldTexts(g)[i])) == BytesOf(Even(FieldTexts(h)[i]))
  {
    PrefixFree(List(HexItems(FieldTexts(g))), List(HexItems(FieldTexts(h))));
    forall i | 0 <= i < 13 ensures BytesOf(Even(FieldTexts(g)[i])) == BytesOf(Even(FieldTexts(h)[i])) {
      assert HexItems(FieldTexts(g))[i] == HexItems(FieldTexts(h))[i];
    }
  }

  /** On lower-case texts of even length they determine the header. */
  lemma HeaderBytesDetermineHeader(g: BlockHeader, h: BlockHeader)
    requires Sized(List(HexItems(FieldTexts(g)))) && Sized(List(HexItems(FieldTexts(h))))
    requires Encode(List(HexItems(FieldTexts(g)))) == Encode(List(HexItems(FieldTexts(h))))
    requires forall i :: 0 <= i < 13 ==> LowerHex(FieldTexts(g)[i]) && |FieldTexts(g)[i]| % 2 == 0
    requires forall i :: 0 <= i < 13 ==> LowerHex(FieldTexts(h)[i]) && |FieldTexts(h)[i]| % 2 == 0
    ensures g == h
  {
    HeaderBytesDetermineFields(g, h);
    forall i | 0 <= i < 13 ensures FieldTexts(g)[i] == FieldTexts(h)[i] {
      BytesWriteBack(FieldTexts(g)[i]);
      BytesWriteBack(FieldTexts(h)[i]);
    }
    SameTexts(g, h);
  }

  lemma SameTexts(g: BlockHeader, h: BlockHeader)
    requires forall i :: 0 <= i < 13 ==> FieldTexts(g)[i] == FieldTexts(h)[i]
    ensures g == h
  {
    var s, t := FieldTexts(g), FieldTexts(h);
    assert s[0] == t[0] && s[1] == t[1] && s[2] == t[2] && s[3] == t[3] && s[4] == t[4] && s[5] == t[5];
    assert s[6] == t[6] && s[7] == t[7] && s[8] == t[8] && s[9] == t[9] && s[10] == t[10] && s[11] == t[11];
    assert s[12] == t[12];
  }
}
