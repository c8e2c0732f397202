/** tal-notreent.c: temporary memory as chunks linked from the newest to the oldest, with marks that
    everything allocated since can be given back to. Memory is a map from addresses to chunk headers; the
    addresses of new chunks come from outside, as those of malloc do. */
module TmpAlloc {

  /** __TMP_ALIGN, and sizeof (tmp_stack) rounded up to a multiple of it. */
  const ALIGN: nat := 8
  const HSIZ: nat := 24

  /** The range of unsigned long. */
  const WORD: nat := 0x1_0000_0000_0000_0000

  /** struct tmp_stack, found at the address of its chunk; prev is an address, or 0. */
  datatype Header = Header(end: nat, allocPoint: nat, prev: nat)

  /** struct tmp_marker. */
  datatype Marker = Marker(whichChunk: nat, allocPoint: nat)

  /** A block handed out, and the position of its chunk counted from the oldest. */
  datatype Block = Block(level: nat, addr: nat, size: nat)

  /** What a mark must bring back: the chunks with their headers, and the live blocks. */
  datatype Snapshot = Snapshot(stack: seq<nat>, headers: seq<Header>, blocks: seq<Block>)

  /** The marker that __gmp_tmp_mark fills in. */
  function MarkerOf(s: Snapshot): Marker {
    if s.stack == [] || s.headers == [] then Marker(0, 0)
    else Marker(s.stack[|s.stack| - 1], s.headers[|s.headers| - 1].allocPoint)
  }

  function RoundUp(n: nat): (r: nat)
    ensures r % ALIGN == 0 && n <= r < n + ALIGN
  {
    n + ALIGN - 1 - (n + ALIGN - 1) % ALIGN
  }

  /** A sum or difference of words, as the machine leaves it. */
  function Word(x: int): (w: nat)
    requires -(WORD as int) <= x < 2 * WORD
    ensures w < WORD && w == x % WORD
  {
    if x < 0 then x + WORD else if x < WORD then x else x - WORD
  }

  lemma AlignedDifference(a: nat, b: nat)
    requires a % ALIGN == 0 && b % ALIGN == 0 && b <= a
    ensures (a - b) % ALIGN == 0
  {}

  /** Half as much again covers the request. */
  lemma Growth(total: nat, now: nat)
    requires now <= total && now % ALIGN == 0
    ensures total <= RoundUp(total * 3 / 2) && (RoundUp(total * 3 / 2) - now) % ALIGN == 0
  {
    var half := total * 3 / 2;
    assert total <= half;
    AlignedDifference(RoundUp(half), now);
  }

  lemma Half(k: nat)
    ensures 3 * (8 * k) / 2 == 12 * k
  {}

  /** And is one and a half times the total, up to the alignment. */
  lemma GrowthIsHalf(now: nat, size: nat)
    requires now % ALIGN == 0 && size % ALIGN == 0
    ensures 3 * (now + size) <= 2 * RoundUp(3 * (now + size) / 2) < 3 * (now + size) + 16
  {
    Half(now / ALIGN + size / ALIGN);
  }

  /** Three times a word, as the machine leaves it. */
  function Triple(x: nat): (w: nat)
    requires x < WORD
    ensures w < WORD && w == 3 * x % WORD
  {
    if 3 * x < WORD then 3 * x else if 3 * x < 2 * WORD then 3 * x - WORD else 3 * x - 2 * WORD
  }

  /** But where the tripled total wraps, what is left of it never covers the request. */
  lemma GrowthWraps(total: nat)
    requires total < WORD <= 3 * total
    ensures RoundUp(Triple(total) / 2) < total
  {}

  /** Where the room of chunk i begins; the first chunk is a header without room. */
  function Start(address: nat, i: nat, h: Header): nat { if i == 0 then h.end else address + HSIZ }

  /** Where the memory of chunk i ends. */
  function Limit(address: nat, i: nat, h: Header): nat { if i == 0 then address + HSIZ else h.end }

  /** A header as the chunk at position i has it. */
  predicate WellFormed(address: nat, i: nat, h: Header, prev: nat) {
    && 0 < address && address % ALIGN == 0 && h.prev == prev && (i == 0 ==> h.end == address)
    && Start(address, i, h) <= h.allocPoint <= h.end && h.end % ALIGN == 0 && h.allocPoint % ALIGN == 0
  }

  predicate Apart(from: nat, to: nat, from': nat, to': nat) { to <= from' || to' <= from }

  predicate ChunkOk(stack: seq<nat>, hs: seq<Header>, i: nat)
    requires i < |stack| == |hs|
  {
    WellFormed(stack[i], i, hs[i], if i == 0 then 0 else stack[i - 1])
  }

  predicate ChunksApart(stack: seq<nat>, hs: seq<Header>, i: nat, j: nat)
    requires i < |stack| == |hs| && j < |stack|
  {
    Apart(stack[i], Limit(stack[i], i, hs[i]), stack[j], Limit(stack[j], j, hs[j]))
  }

  /** The chunks, from the oldest on: addresses and headers. */
  ghost predicate Linked(stack: seq<nat>, hs: seq<Header>) {
    && |hs| == |stack| >= 1
    && (forall i :: 0 <= i < |stack| ==> ChunkOk(stack, hs, i))
    && (forall i, j :: 0 <= i < j < |stack| ==> ChunksApart(stack, hs, i, j))
  }

  /** The headers in memory are those of the stack. */
  ghost predicate Stored(memory: map<nat, Header>, stack: seq<nat>, hs: seq<Header>) {
    |hs| == |stack| && forall i :: 0 <= i < |stack| ==> stack[i] in memory && memory[stack[i]] == hs[i]
  }

  function Payload(address: nat, i: nat, h: Header): int { h.end - Start(address, i, h) }

  /** The payloads of the first n chunks. */
  function Payloads(stack: seq<nat>, hs: seq<Header>, n: nat): int
    requires n <= |stack| == |hs|
  {
    if n == 0 then 0 else Payloads(stack, hs, n - 1) + Payload(stack[n - 1], n - 1, hs[n - 1])
  }

  /** A block lies in its chunk below the allocation point, aligned. */
  predicate InChunk(stack: seq<nat>, hs: seq<Header>, b: Block) {
    b.level < |stack| == |hs| && b.addr % ALIGN == 0 && Start(stack[b.level], b.level, hs[b.level]) <= b.addr &&
    b.addr + b.size <= hs[b.level].allocPoint
  }

  /** Later blocks lie in later chunks, or higher in the same one. */
  predicate Above(a: Block, b: Block) { a.level < b.level || (a.level == b.level && a.addr + a.size <= b.addr) }

  ghost predicate Placed(stack: seq<nat>, hs: seq<Header>, blocks: seq<Block>) {
    && (forall k :: 0 <= k < |blocks| ==> InChunk(stack, hs, blocks[k]))
    && (forall k, l {:trigger Above(blocks[k], blocks[l])} :: 0 <= k < l < |blocks| ==> Above(blocks[k], blocks[l]))
  }

  predicate Disjoint(a: Block, b: Block) { a.addr + a.size <= b.addr || b.addr + b.size <= a.addr }

  /** Live blocks never overlap. */
  lemma BlocksDisjoint(stack: seq<nat>, hs: seq<Header>, blocks: seq<Block>, k: nat, l: nat)
    requires Linked(stack, hs) && Placed(stack, hs, blocks) && k < l < |blocks|
    ensures Disjoint(blocks[k], blocks[l])
  {
    var a, b := blocks[k], blocks[l];
    assert InChunk(stack, hs, a) && InChunk(stack, hs, b) && Above(a, b);
    assert ChunkOk(stack, hs, a.level) && ChunkOk(stack, hs, b.level);
    if a.level != b.level { assert ChunksApart(stack, hs, a.level, b.level); }
  }

  /** t can be cut back to s: the chunks of s are the lowest of t, unchanged but for the allocation point of
      the topmost, which has only grown; the blocks of s are the oldest of t. */
  ghost predicate CutsBack(s: Snapshot, t: Snapshot) {
    var n := |s.stack|;
    && 1 <= n == |s.headers| <= |t.stack| == |t.headers| && |s.blocks| <= |t.blocks|
    && (forall i :: 0 <= i < n ==> s.stack[i] == t.stack[i])
    && (forall i :: 0 <= i < n - 1 ==> s.headers[i] == t.headers[i])
    && s.headers[n - 1].end == t.headers[n - 1].end && s.headers[n - 1].prev == t.headers[n - 1].prev
    && s.headers[n - 1].allocPoint <= t.headers[n - 1].allocPoint
    && (forall k :: 0 <= k < |s.blocks| ==> s.blocks[k] == t.blocks[k])
  }

  lemma CutsBackTransitive(s: Snapshot, t: Snapshot, u: Snapshot)
    requires CutsBack(s, t) && CutsBack(t, u)
    ensures CutsBack(s, u)
  {}

  /** What is true of every state, and of what every mark brings back. */
  ghost predicate Good(s: Snapshot) { Linked(s.stack, s.headers) && Placed(s.stack, s.headers, s.blocks) }

  /** The marks are good, and each state can be cut back to the one before. */
  ghost predicate Nested(marks: seq<Snapshot>, now: Snapshot) {
    forall m :: 0 <= m < |marks| ==> MarkOk(marks, now, m)
  }

  ghost predicate MarkOk(marks: seq<Snapshot>, now: Snapshot, m: nat)
    requires m < |marks|
  {
    Good(marks[m]) && CutsBack(marks[m], if m + 1 < |marks| then marks[m + 1] else now)
  }

  /** The addresses from chunk on, for a header and a payload, are taken by no chunk. */
  ghost predicate FreeRange(s: Snapshot, chunk: nat, payload: nat) {
    0 < chunk && chunk % ALIGN == 0 && |s.stack| == |s.headers| &&
    forall i :: 0 <= i < |s.stack| ==>
      Apart(s.stack[i], Limit(s.stack[i], i, s.headers[i]), chunk, chunk + HSIZ + payload)
  }

  function WithChunk(s: Snapshot, chunk: nat, h: Header): Snapshot {
    s.(stack := s.stack + [chunk], headers := s.headers + [h])
  }

  function WithBlock(s: Snapshot, size: nat): Snapshot
    requires s.headers != []
  {
    var top := |s.headers| - 1;
    var h := s.headers[top];
    s.(headers := s.headers[top := h.(allocPoint := h.allocPoint + size)],
       blocks := s.blocks + [Block(top, h.allocPoint, size)])
  }

  lemma WithChunkGood(s: Snapshot, chunk: nat, h: Header, payload: nat)
    requires Good(s) && FreeRange(s, chunk, payload) && payload % ALIGN == 0
    requires h == Header(chunk + HSIZ + payload, chunk + HSIZ, s.stack[|s.stack| - 1])
    ensures Good(WithChunk(s, chunk, h)) && CutsBack(s, WithChunk(s, chunk, h))
  {
    var t, n := WithChunk(s, chunk, h), |s.stack|;
    forall i | 0 <= i <= n ensures ChunkOk(t.stack, t.headers, i) {
      if i < n { assert ChunkOk(s.stack, s.headers, i); }
    }
    forall i, j | 0 <= i < j <= n ensures ChunksApart(t.stack, t.headers, i, j) {
      if j < n { assert ChunksApart(s.stack, s.headers, i, j); }
    }
    forall k | 0 <= k < |t.blocks| ensures InChunk(t.stack, t.headers, t.blocks[k]) {
      assert InChunk(s.stack, s.headers, s.blocks[k]);
    }
  }

  lemma ChunkOnTop(s: Snapshot, chunk: nat, h: Header)
    requires 1 <= |s.stack| == |s.headers|
    ensures CutsBack(s, WithChunk(s, chunk, h))
  {}

  lemma AddressIsNew(s: Snapshot, chunk: nat, payload: nat)
    requires Good(s) && FreeRange(s, chunk, payload)
    ensures forall i :: 0 <= i < |s.stack| ==> s.stack[i] != chunk
  {
    forall i | 0 <= i < |s.stack| ensures s.stack[i] != chunk { assert ChunkOk(s.stack, s.headers, i); }
  }

  lemma WithBlockGood(s: Snapshot, size: nat)
    requires Good(s) && size % ALIGN == 0
    requires s.headers[|s.headers| - 1].allocPoint + size <= s.headers[|s.headers| - 1].end
    ensures Good(WithBlock(s, size)) && CutsBack(s, WithBlock(s, size))
    ensures s.headers[|s.headers| - 1].allocPoint % ALIGN == 0
  {
    var t, top := WithBlock(s, size), |s.stack| - 1;
    assert ChunkOk(s.stack, s.headers, top);
    forall i | 0 <= i < |t.stack| ensures ChunkOk(t.stack, t.headers, i) { assert ChunkOk(s.stack, s.headers, i); }
    forall i, j | 0 <= i < j < |t.stack| ensures ChunksApart(t.stack, t.headers, i, j) {
      assert ChunksApart(s.stack, s.headers, i, j);
    }
    forall k | 0 <= k < |t.blocks| ensures InChunk(t.stack, t.headers, t.blocks[k]) {
      if k < |s.blocks| { assert InChunk(s.stack, s.headers, s.blocks[k]); }
    }
    forall k, l | 0 <= k < l < |t.blocks| ensures Above(t.blocks[k], t.blocks[l]) {
      assert InChunk(s.stack, s.headers, s.blocks[k]);
      if l < |s.blocks| { assert Above(s.blocks[k], s.blocks[l]); }
    }
  }

  lemma NestedMoves(marks: seq<Snapshot>, now: Snapshot, next: Snapshot)
    requires Nested(marks, now) && CutsBack(now, next)
    ensures Nested(marks, next)
  {
    forall m | 0 <= m < |marks| ensures MarkOk(marks, next, m) {
      assert MarkOk(marks, now, m);
      if m + 1 == |marks| { CutsBackTransitive(marks[m], now, next); }
    }
  }

  lemma MarkTaken(marks: seq<Snapshot>, now: Snapshot)
    requires Nested(marks, now) && Good(now)
    ensures Nested(marks + [now], now)
  {
    var more := marks + [now];
    forall m | 0 <= m < |more| ensures MarkOk(more, now, m) {
      if m < |marks| { assert MarkOk(marks, now, m); }
    }
  }

  lemma MarksBelow(marks: seq<Snapshot>, now: Snapshot, m: nat)
    requires Nested(marks, now) && m < |marks|
    ensures Good(marks[m]) && Nested(marks[..m], marks[m])
  {
    assert MarkOk(marks, now, m);
    forall k | 0 <= k < m ensures MarkOk(marks[..m], marks[m], k) { assert MarkOk(marks, now, k); }
  }

  /** The present state can be cut back to every mark. */
  lemma {:induction false} MarkCutsBack(marks: seq<Snapshot>, now: Snapshot, m: nat, n: nat)
    requires Nested(marks, now) && m < n <= |marks|
    ensures CutsBack(marks[m], if n < |marks| then marks[n] else now)
    decreases n
  {
    assert MarkOk(marks, now, n - 1);
    if m + 1 < n {
      MarkCutsBack(marks, now, m, n - 1);
      CutsBackTransitive(marks[m], marks[n - 1], if n < |marks| then marks[n] else now);
    }
  }

  lemma DifferentAddresses(stack: seq<nat>, hs: seq<Header>, i: nat, j: nat)
    requires Linked(stack, hs) && i < j < |stack|
    ensures stack[i] != stack[j]
  {
    assert ChunkOk(stack, hs, i) && ChunkOk(stack, hs, j) && ChunksApart(stack, hs, i, j);
  }

  lemma {:induction false} PayloadsAgree(s: seq<nat>, hs: seq<Header>, t: seq<nat>, ht: seq<Header>, n: nat)
    requires n <= |s| == |hs| && n <= |t| == |ht|
    requires forall i :: 0 <= i < n ==> s[i] == t[i] && hs[i].end == ht[i].end
    ensures Payloads(s, hs, n) == Payloads(t, ht, n)
  {
    if n > 0 { PayloadsAgree(s, hs, t, ht, n - 1); }
  }

  /** What is known of the newest of the first n chunks. */
  lemma TopChunk(stack: seq<nat>, hs: seq<Header>, n: nat)
    requires Linked(stack, hs) && 2 <= n <= |stack|
    ensures hs[n - 1].prev == stack[n - 2] && hs[n - 1].end % ALIGN == 0 && stack[n - 1] % ALIGN == 0
    ensures Payloads(stack, hs, n) == Payloads(stack, hs, n - 1) + (hs[n - 1].end - stack[n - 1] - HSIZ)
    ensures hs[n - 1].end - stack[n - 1] - HSIZ >= 0 && Payloads(stack, hs, n - 1) >= 0
    ensures forall i :: 0 <= i < n - 1 ==> stack[i] != stack[n - 1]
  {
    assert ChunkOk(stack, hs, n - 1);
    PayloadsPositive(stack, hs, n - 1);
    forall i | 0 <= i < n - 1 ensures stack[i] != stack[n - 1] { DifferentAddresses(stack, hs, i, n - 1); }
  }

  lemma {:induction false} PayloadsPositive(stack: seq<nat>, hs: seq<Header>, n: nat)
    requires Linked(stack, hs) && n <= |stack|
    ensures Payloads(stack, hs, n) >= 0
  {
    if n > 0 {
      PayloadsPositive(stack, hs, n - 1);
      assert ChunkOk(stack, hs, n - 1);
    }
  }

  lemma BlockStored(memory: map<nat, Header>, s: Snapshot, size: nat)
    requires Good(s) && Stored(memory, s.stack, s.headers)
    ensures var top := s.stack[|s.stack| - 1]; var h := memory[top];
      Stored(memory[top := h.(allocPoint := h.allocPoint + size)], s.stack, WithBlock(s, size).headers)
  {
    var n := |s.stack|;
    forall i | 0 <= i < n - 1 ensures s.stack[i] != s.stack[n - 1] { DifferentAddresses(s.stack, s.headers, i, n - 1); }
  }

  /** The headers of the lowest n chunks are in memory. */
  ghost predicate StoredUpTo(memory: map<nat, Header>, s: Snapshot, n: nat) {
    n <= |s.stack| == |s.headers| && forall i :: 0 <= i < n ==> s.stack[i] in memory && memory[s.stack[i]] == s.headers[i]
  }

  lemma PointRestored(memory: map<nat, Header>, all: Snapshot, s: Snapshot)
    requires Good(all) && CutsBack(s, all)
    requires StoredUpTo(memory, all, |s.stack|)
    ensures var n := |s.stack|; var top := s.stack[n - 1];
      top in memory && Stored(memory[top := memory[top].(allocPoint := s.headers[n - 1].allocPoint)], s.stack, s.headers)
  {
    var n := |s.stack|;
    forall i | 0 <= i < n - 1 ensures all.stack[i] != all.stack[n - 1] {
      DifferentAddresses(all.stack, all.headers, i, n - 1);
    }
  }

  /** What a chunk with a header of the right form adds to the state. */
  lemma ChunkOpened(marks: seq<Snapshot>, s: Snapshot, before: map<nat, Header>, memory: map<nat, Header>,
                    chunk: nat, payload: nat)
    requires Good(s) && Stored(before, s.stack, s.headers) && Nested(marks, s)
    requires FreeRange(s, chunk, payload) && payload % ALIGN == 0 && chunk in memory
    requires memory[chunk] == Header(chunk + HSIZ + payload, chunk + HSIZ, s.stack[|s.stack| - 1])
    requires forall a :: a in before && a != chunk ==> a in memory && memory[a] == before[a]
    ensures var t := WithChunk(s, chunk, memory[chunk]);
      Good(t) && CutsBack(s, t) && Nested(marks, t) && Stored(memory, t.stack, t.headers) &&
      Payloads(t.stack, t.headers, |t.stack|) == Payloads(s.stack, s.headers, |s.stack|) + payload
  {
    var header := memory[chunk];
    WithChunkGood(s, chunk, header, payload);
    NestedMoves(marks, s, WithChunk(s, chunk, header));
    PayloadsAgree(s.stack, s.headers, s.stack + [chunk], s.headers + [header], |s.stack|);
    AddressIsNew(s, chunk, payload);
  }

  /** A new chunk has room for the request, and the total has grown by its payload. */
  predicate RoomAndSum(h: Header, size: nat, before: nat, after: nat) {
    h.allocPoint + size <= h.end && after - before == h.end - h.allocPoint
  }

  class TmpStack {
    var memory: map<nat, Header>
    var current: nat
    var currentTotal: nat
    var maxTotal: nat
    ghost var now: Snapshot
    ghost var marks: seq<Snapshot>

    ghost predicate Valid()
      reads this
    {
      && Good(now) && Stored(memory, now.stack, now.headers) && current == now.stack[|now.stack| - 1]
      && currentTotal == Payloads(now.stack, now.headers, |now.stack|) <= maxTotal
      && currentTotal % ALIGN == 0 && maxTotal % ALIGN == 0 && 2 * maxTotal <= WORD + 2 * ALIGN && Nested(marks, now)
    }

    /** The static first chunk, which has no room. */
    constructor (address: nat)
      requires 0 < address && address % ALIGN == 0
      ensures Valid() && now.blocks == [] && marks == [] && maxTotal == 0
    {
      var xxx := Header(address, address, 0);
      memory, current, currentTotal, maxTotal := map[address := xxx], address, 0, 0;
      now, marks := Snapshot([address], [xxx], []), [];
      new;
      assert ChunkOk(now.stack, now.headers, 0);
      assert Payloads(now.stack, now.headers, 0) == 0;
    }

    /** The request does not fit the newest chunk. */
    predicate NeedsChunk(size: nat)
      requires current in memory
      reads this
    {
      size > memory[current].end - memory[current].allocPoint
    }

    /** Opening a chunk for the request overflows nothing. */
    predicate InRange(size: nat)
      reads this
    {
      currentTotal + size < WORD && (currentTotal + size <= maxTotal || 3 * (currentTotal + size) < WORD)
    }

    /** The payload a new chunk gets: somewhat more than ever before, or all that was given back. */
    function NewPayload(size: nat): nat
      requires currentTotal <= maxTotal
      reads this
    {
      if currentTotal + size > maxTotal then RoundUp((currentTotal + size) * 3 / 2) - currentTotal
      else maxTotal - currentTotal
    }

    /** The sizes in __gmp_tmp_alloc, in words. The new chunk fits the request, and the total accounts for it,
        if and only if nothing overflows; then the total is a new maximum or returns to the old one. */
    method SizeChunk(size: nat) returns (chunkSize: nat)
      requires currentTotal <= maxTotal && currentTotal % ALIGN == 0 && maxTotal % ALIGN == 0
      requires 2 * maxTotal <= WORD + 2 * ALIGN && size % ALIGN == 0 && size < WORD
      modifies `currentTotal, `maxTotal
      ensures size + HSIZ <= chunkSize && currentTotal == old(currentTotal) + chunkSize - HSIZ <==> old(InRange(size))
      ensures old(InRange(size)) ==>
        chunkSize == old(NewPayload(size)) + HSIZ && currentTotal == maxTotal && maxTotal >= old(maxTotal) &&
        currentTotal % ALIGN == 0 && old(NewPayload(size)) % ALIGN == 0 && 2 * maxTotal <= WORD + 2 * ALIGN
      ensures old(currentTotal) + size <= old(maxTotal) ==> maxTotal == old(maxTotal)
      ensures old(InRange(size)) && old(currentTotal) + size > old(maxTotal) ==>
        3 * (old(currentTotal) + size) <= 2 * maxTotal < 3 * (old(currentTotal) + size) + 16
    {
      var total := Word(currentTotal + size);
      AlignedDifference(maxTotal, currentTotal);
      if total > maxTotal {
        if InRange(size) { Growth(total, currentTotal); GrowthIsHalf(currentTotal, size); } else { GrowthWraps(total); }
        total := RoundUp(Triple(total) / 2);
        chunkSize := Word(total - currentTotal + HSIZ);
        currentTotal := total;
        maxTotal := currentTotal;
      } else {
        chunkSize := Word(maxTotal - currentTotal + HSIZ);
        currentTotal := maxTotal;
      }
    }

    /** The part of __gmp_tmp_alloc that opens a new chunk, at an address no other chunk has. */
    method OpenChunk(size: nat, chunk: nat)
      requires Valid() && size % ALIGN == 0 && InRange(size) && FreeRange(now, chunk, NewPayload(size))
      modifies this
      ensures Valid() && marks == old(marks)
      ensures current == chunk && chunk in memory && now == WithChunk(old(now), chunk, memory[chunk])
      ensures memory[chunk].prev == old(current) && memory[chunk].allocPoint == chunk + HSIZ
      ensures size <= memory[chunk].end - memory[chunk].allocPoint
      ensures currentTotal == maxTotal && maxTotal >= old(maxTotal)
      ensures old(currentTotal) + size <= old(maxTotal) ==> maxTotal == old(maxTotal)
    {
      ghost var payload, before := NewPayload(size), memory;
      LinkChunk(size, chunk);
      AdoptChunk(before, chunk, payload);
    }

    /** The ghost state follows the new chunk. */
    ghost method AdoptChunk(before: map<nat, Header>, chunk: nat, payload: nat)
      requires Good(now) && Stored(before, now.stack, now.headers) && Nested(marks, now)
      requires FreeRange(now, chunk, payload) && payload % ALIGN == 0 && current == chunk && chunk in memory
      requires memory[chunk] == Header(chunk + HSIZ + payload, chunk + HSIZ, now.stack[|now.stack| - 1])
      requires forall a :: a in before && a != chunk ==> a in memory && memory[a] == before[a]
      requires currentTotal == Payloads(now.stack, now.headers, |now.stack|) + payload <= maxTotal
      requires currentTotal % ALIGN == 0 && maxTotal % ALIGN == 0 && 2 * maxTotal <= WORD + 2 * ALIGN
      modifies `now
      ensures Valid() && now == WithChunk(old(now), chunk, memory[chunk])
    {
      ChunkOpened(marks, now, before, memory, chunk, payload);
      now := WithChunk(now, chunk, memory[chunk]);
    }

    /** The assignments of __gmp_tmp_alloc that set up a new chunk, whatever its size turns out to be. */
    method LinkChunk(size: nat, chunk: nat)
      requires currentTotal <= maxTotal && currentTotal % ALIGN == 0 && maxTotal % ALIGN == 0
      requires 2 * maxTotal <= WORD + 2 * ALIGN && size % ALIGN == 0 && size < WORD
      modifies `memory, `current, `currentTotal, `maxTotal
      ensures current == chunk && chunk in memory
      ensures forall a :: a in old(memory) && a != chunk ==> a in memory && memory[a] == old(memory)[a]
      ensures memory[chunk].prev == old(current) && memory[chunk].allocPoint == chunk + HSIZ
      ensures RoomAndSum(memory[chunk], size, old(currentTotal), currentTotal) <==> old(InRange(size))
      ensures old(InRange(size)) ==>
        memory[chunk].end == chunk + HSIZ + old(NewPayload(size)) && old(NewPayload(size)) % ALIGN == 0 &&
        currentTotal == old(currentTotal) + old(NewPayload(size)) == maxTotal && maxTotal >= old(maxTotal) &&
        currentTotal % ALIGN == 0 && 2 * maxTotal <= WORD + 2 * ALIGN
      ensures old(currentTotal) + size <= old(maxTotal) ==> maxTotal == old(maxTotal)
    {
      var chunkSize := SizeChunk(size);
      memory := memory[chunk := Header(chunk + chunkSize, chunk + HSIZ, current)];
      current := chunk;
    }

    /** The end of __gmp_tmp_alloc: the block is taken from the newest chunk. */
    method TakeBlock(size: nat) returns (that: nat)
      requires Valid() && size % ALIGN == 0 && size <= memory[current].end - memory[current].allocPoint
      modifies `memory, `now
      ensures Valid() && now == WithBlock(old(now), size) && CutsBack(old(now), now)
      ensures that == old(memory[current].allocPoint) && that % ALIGN == 0
    {
      that := memory[current].allocPoint;
      BlockStored(memory, now, size);
      WithBlockGood(now, size);
      NestedMoves(marks, now, WithBlock(now, size));
      PayloadsAgree(now.stack, now.headers, now.stack, WithBlock(now, size).headers, |now.stack|);
      memory := memory[current := memory[current].(allocPoint := that + size)];
      now := WithBlock(now, size);
    }

    /** __gmp_tmp_alloc: an aligned block of the given size, apart from all live ones. */
    method Alloc(size: nat, chunk: nat) returns (that: nat)
      requires Valid() && size % ALIGN == 0
      requires NeedsChunk(size) ==> InRange(size) && FreeRange(now, chunk, NewPayload(size))
      modifies this
      ensures Valid() && marks == old(marks) && CutsBack(old(now), now)
      ensures now.blocks == old(now.blocks) + [Block(|now.stack| - 1, that, size)] && that % ALIGN == 0
      ensures maxTotal >= old(maxTotal)
      ensures current == old(current) ==> currentTotal == old(currentTotal) && maxTotal == old(maxTotal)
      ensures old(currentTotal) + size <= old(maxTotal) ==> maxTotal == old(maxTotal)
    {
      ghost var start := now;
      if NeedsChunk(size) {
        OpenChunk(size, chunk);
        ChunkOnTop(start, chunk, memory[chunk]);
      }
      ghost var before := now;
      that := TakeBlock(size);
      CutsBackTransitive(start, before, now);
    }

    /** The same code for a request that needs a chunk and overflows: the block runs past the end of its chunk,
        or the total is not the sum of the payloads any more. */
    method AllocOverflowing(size: nat, chunk: nat) returns (that: nat)
      requires Valid() && size % ALIGN == 0 && size < WORD && NeedsChunk(size) && !InRange(size)
      modifies `memory, `current, `currentTotal, `maxTotal
      ensures current == chunk && chunk in memory
      ensures that + size > memory[chunk].end || currentTotal - old(currentTotal) != memory[chunk].end - that
    {
      LinkChunk(size, chunk);
      that := memory[current].allocPoint;
      memory := memory[current := memory[current].(allocPoint := that + size)];
    }

    /** __gmp_tmp_mark. */
    method Mark() returns (mark: Marker)
      requires Valid()
      modifies `marks
      ensures Valid() && marks == old(marks) + [now] && mark == MarkerOf(now)
    {
      mark := Marker(current, memory[current].allocPoint);
      MarkTaken(marks, now);
      marks := marks + [now];
    }

    /** The loop of __gmp_tmp_free: the chunks above those of s are given back. */
    method PopChunks(whichChunk: nat, ghost s: Snapshot)
      requires Valid() && CutsBack(s, now) && Good(s) && whichChunk == s.stack[|s.stack| - 1]
      modifies `memory, `current, `currentTotal
      ensures current == whichChunk && currentTotal == Payloads(s.stack, s.headers, |s.stack|) <= maxTotal
      ensures currentTotal % ALIGN == 0 && StoredUpTo(memory, now, |s.stack|)
    {
      ghost var n := |now.stack|;
      while whichChunk != current
        invariant |s.stack| <= n <= |now.stack| && current == now.stack[n - 1]
        invariant currentTotal == Payloads(now.stack, now.headers, n) <= maxTotal && currentTotal % ALIGN == 0
        invariant StoredUpTo(memory, now, n)
        decreases n
      {
        var tmp := current;
        TopChunk(now.stack, now.headers, n);
        AlignedDifference(currentTotal, memory[tmp].end - tmp - HSIZ);
        current := memory[tmp].prev;
        currentTotal := currentTotal - (memory[tmp].end - tmp - HSIZ);
        memory := memory - {tmp};
        n := n - 1;
      }
      if n > |s.stack| { DifferentAddresses(now.stack, now.headers, |s.stack| - 1, n - 1); }
      PayloadsAgree(now.stack, now.headers, s.stack, s.headers, n);
    }

    /** __gmp_tmp_free, to mark m: everything is again as it was when the mark was taken, except that the
        maximum is kept; inner marks are gone. */
    method Free(mark: Marker, ghost m: nat)
      requires Valid() && m < |marks| && mark == MarkerOf(marks[m])
      modifies this
      ensures Valid() && now == old(marks[m]) && marks == old(marks)[..m] && maxTotal == old(maxTotal)
    {
      ghost var s := marks[m];
      MarkCutsBack(marks, now, m, |marks|);
      MarksBelow(marks, now, m);
      PopChunks(mark.whichChunk, s);
      PointRestored(memory, now, s);
      memory := memory[current := memory[current].(allocPoint := mark.allocPoint)];
      now, marks := s, marks[..m];
    }
  }
}
