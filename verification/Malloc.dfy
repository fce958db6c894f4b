/** The userspace heap (userspace/libc/malloc.c). The lock is taken around every operation, so
    each is one step here; only the moving path of `realloc` is several (allocate, copy, release),
    with nothing in between. `grant` is the address the kernel hands out for a new chunk, or 0
    when it refuses. */
module Malloc {
  import opened Basics
  import opened MallocBlocks
  import opened MallocMemory

  const WORD: nat := 0x1_0000_0000_0000_0000
  const ALIGN: nat := 16
  const PAGE_SIZE: nat := 4096
  const CHUNK_SIZE: nat := 65536

  /** `round_up` on 64-bit sizes: the sum wraps. */
  function RoundUp(n: nat, align: nat): (r: nat)
    requires align == ALIGN || align == PAGE_SIZE
    ensures r % align == 0 && r <= WORD && (n + align <= WORD ==> n <= r < n + align)
  {
    var t := (n + align - 1) % WORD;
    t - t % align
  }

  /** The bytes `new_chunk` asks the kernel for. */
  function ChunkBytes(data: nat): (r: nat)
    ensures r % PAGE_SIZE == 0 && (data + 2 * HDR + PAGE_SIZE <= WORD ==> r >= data + 2 * HDR)
  {
    var total := (2 * HDR + data) % WORD;
    RoundUp(if total < CHUNK_SIZE then CHUNK_SIZE else total, PAGE_SIZE)
  }

  /** A chunk is whole pages with room for both headers and the data, and no more than asked for
      beyond 64 KiB or a page. */
  lemma {:induction false} ChunkIsSnug(data: nat)
    requires data + 32 + 4096 <= WORD
    ensures ChunkBytes(data) % 4096 == 0 && ChunkBytes(data) >= 65536 && ChunkBytes(data) >= data + 32
    ensures ChunkBytes(data) == 65536 || ChunkBytes(data) < data + 32 + 4096
  {
  }

  /** What the heap keeps, with the block map it stands for. */
  datatype State = State(mem: Memory, head: nat, chunkHead: nat, blocks: Blocks, chunks: seq<Chunk>, list: seq<nat>)

  ghost predicate InMemory(cs: seq<Chunk>) {
    forall c | c in cs :: c.base > 0 && Limit(c) <= WORD
  }

  /** Chunks are tiled by blocks, the free list is exactly the free blocks in address order,
      and memory holds all of it; the flag of block `loose` may be stale. */
  ghost predicate Sound(s: State, loose: nat) {
    && Tiled(s.blocks, Homes(s.chunks)) && InMemory(s.chunks)
    && IsFreeList(s.blocks, s.list)
    && Stored(s.mem, s.blocks, loose)
    && Linked(s.mem, s.head, s.list)
    && ChunksStored(s.mem, s.chunkHead, s.chunks)
  }

  ghost predicate Good(s: State) {
    Sound(s, 0) && NoFreePair(s.blocks)
  }

  /** First fit: `b` is taken and what it does not need is split off. */
  function Taken(bs: Blocks, b: nat, size: nat): Blocks
    requires b in bs && size <= bs[b].size
  {
    var us := Marked(bs, b, false);
    if bs[b].size - size < MIN_SPLIT then us else Split(us, b, size)
  }

  // ----- Frames

  lemma {:induction false} HeadersTrans(m0: Memory, m1: Memory, m2: Memory, bs: Blocks, bs': Blocks)
    requires OnlyHeaders(m0, m1, bs) && OnlyHeaders(m1, m2, bs') && bs.Keys <= bs'.Keys
    ensures OnlyHeaders(m0, m2, bs')
  {
    forall w: nat | !HeaderWord(bs', w) ensures At(m2, w) == At(m0, w) {
      assert !HeaderWord(bs, w);
    }
  }

  lemma {:induction false} LinksAreHeaders(m: Memory, m': Memory, bs: Blocks)
    requires OnlyLinks(m, m', bs)
    ensures OnlyHeaders(m, m', bs)
  {
    forall w: nat | !HeaderWord(bs, w) ensures At(m', w) == At(m, w) {
      assert !(w >= 8 && w - 8 in bs);
    }
  }

  lemma {:induction false} TakenFacts(bs: Blocks, b: nat, size: nat)
    requires Apart(bs) && b in bs && size <= bs[b].size && bs[b].free
    ensures var us := Taken(bs, b, size);
            && LiveAt(us, b) && us[b].size >= size && bs.Keys <= us.Keys
            && (forall y :: LiveAt(us, y) <==> LiveAt(bs, y) || y == b)
            && (forall y | LiveAt(bs, y) :: us[y] == bs[y])
  {
    if bs[b].size - size >= MIN_SPLIT { assert b + HDR + size !in bs; }
  }

  lemma {:induction false} HeaderWriteKeepsLinks(m: Memory, head: nat, list: seq<nat>, x: nat, v: nat)
    requires Linked(m, head, list) && x % 16 == 0 && forall y | y in list :: y % 16 == 0
    ensures Linked(m[x := v], head, list)
    ensures x !in list ==> Linked(m[x + 8 := v], head, list)
  {
    var m1, m2 := m[x := v], m[x + 8 := v];
    forall i | 0 <= i < |list| ensures LinkAt(m1, list, i) {
      assert LinkAt(m, list, i) && list[i] in list;
    }
    if x !in list {
      forall i | 0 <= i < |list| ensures LinkAt(m2, list, i) {
        assert LinkAt(m, list, i) && list[i] in list;
      }
    }
  }

  /** Block `b` was added to the list and its header word was written. */
  ghost predicate AddedTo(m: Memory, list: seq<nat>, s: State, b: nat, word: nat) {
    && Linked(s.mem, s.head, s.list) && Sorted(s.list) && OnlyHeaders(m, s.mem, s.blocks)
    && (forall x :: x in s.list <==> x in list || x == b)
    && At(s.mem, b) == word && (forall x | x in s.blocks && x != b :: At(s.mem, x) == At(m, x))
  }

  /** Block `rest` was added to the list, and the headers of `b` and `rest` were written. */
  ghost predicate CutBy(m: Memory, list: seq<nat>, s: State, b: nat, size: nat, rest: nat, restSize: nat) {
    && Linked(s.mem, s.head, s.list) && Sorted(s.list) && OnlyHeaders(m, s.mem, s.blocks)
    && (forall x :: x in s.list <==> x in list || x == rest)
    && At(s.mem, b) == size && At(s.mem, rest) == restSize + 1
    && (forall x | x in s.blocks && x != b && x != rest :: At(s.mem, x) == At(m, x))
  }

  lemma {:induction false} SplitReady(s: State, b: nat, size: nat)
    requires Sound(s, b) && NoFreePair(s.blocks) && LiveAt(s.blocks, b) && !FreeAt(s.blocks, End(s.blocks, b))
    requires size % 16 == 0 && size + HDR <= s.blocks[b].size
    ensures var us := Split(s.blocks, b, size);
            && Aligned(us) && NoFreePair(us) && b + HDR + size !in s.list && b + HDR + size !in s.blocks
            && forall x | x in s.list :: x in us
  {
    SplitKeepsTiled(s.blocks, Homes(s.chunks), b, size);
    SplitKeepsPairs(s.blocks, b, size);
    assert forall x | x in s.list :: FreeAt(s.blocks, x);
  }

  /** `s'` is `s` with new free block `rest` cut off block `b`. */
  lemma {:induction false} SplitSound(s: State, s': State, b: nat, size: nat)
    requires Sound(s, b) && LiveAt(s.blocks, b) && size % 16 == 0 && size + HDR <= s.blocks[b].size
    requires s'.blocks == Split(s.blocks, b, size) && s'.chunks == s.chunks && s'.chunkHead == s.chunkHead
    requires CutBy(s.mem, s.list, s', b, size, b + HDR + size, s.blocks[b].size - size - HDR)
    ensures Sound(s', b) && OnlyHeaders(s.mem, s'.mem, s'.blocks)
  {
    SplitKeepsTiled(s.blocks, Homes(s.chunks), b, size);
    HeadersKeepChunks(s.mem, s'.mem, s'.blocks, s.chunkHead, s.chunks);
    SplitStored(s.mem, s.blocks, s'.mem, b, size);
    SplitListed(s.blocks, s.list, s'.list, b, size);
  }

  lemma {:induction false} SplitStored(m: Memory, bs: Blocks, m': Memory, b: nat, size: nat)
    requires Stored(m, bs, b) && LiveAt(bs, b) && size + HDR <= bs[b].size && b + HDR + size !in bs
    requires At(m', b) == size && At(m', b + HDR + size) == bs[b].size - size - HDR + 1
    requires forall x | x in bs && x != b :: At(m', x) == At(m, x)
    ensures Stored(m', Split(bs, b, size), b)
  {
    var us, rest := Split(bs, b, size), b + HDR + size;
    forall x | x in us ensures At(m', x) == Word(us[x]) {
      if x != b && x != rest { assert us[x] == bs[x] && At(m, x) == Word(bs[x]); }
    }
  }

  lemma {:induction false} SplitListed(bs: Blocks, list: seq<nat>, list': seq<nat>, b: nat, size: nat)
    requires IsFreeList(bs, list) && LiveAt(bs, b) && size + HDR <= bs[b].size && b + HDR + size !in bs
    requires Sorted(list') && forall x :: x in list' <==> x in list || x == b + HDR + size
    ensures IsFreeList(Split(bs, b, size), list')
  {
    var us := Split(bs, b, size);
    forall x ensures x in list' <==> FreeAt(us, x) {
      assert x in list <==> FreeAt(bs, x);
    }
  }

  /** Block `b` left the list and counts as live; its flag is still set. */
  lemma {:induction false} ClaimSound(s: State, s': State, b: nat)
    requires Good(s) && FreeAt(s.blocks, b)
    requires s'.blocks == Marked(s.blocks, b, false) && s'.chunks == s.chunks && s'.chunkHead == s.chunkHead
    requires Linked(s'.mem, s'.head, s'.list) && Sorted(s'.list) && OnlyLinks(s.mem, s'.mem, s.blocks)
    requires forall x :: x in s'.list <==> x in s.list && x != b
    ensures Sound(s', b) && NoFreePair(s'.blocks) && !FreeAt(s'.blocks, End(s'.blocks, b))
    ensures OnlyHeaders(s.mem, s'.mem, s'.blocks)
  {
    var bs, us := s.blocks, s'.blocks;
    MarkKeepsTiled(bs, Homes(s.chunks), b, false);
    TakeKeepsPairs(bs, b);
    LinksKeepStored(s.mem, s'.mem, bs, 0);
    LinksAreHeaders(s.mem, s'.mem, bs);
    HeadersKeepChunks(s.mem, s'.mem, bs, s.chunkHead, s.chunks);
    assert IsFreeList(us, s'.list) by {
      forall x ensures x in s'.list <==> FreeAt(us, x) { assert x in s.list <==> FreeAt(bs, x); }
    }
    assert Stored(s'.mem, us, b) by { SizeOfWord(bs[b]); }
    assert us.Keys == bs.Keys;
    assert OnlyHeaders(s.mem, s'.mem, us) by {
      forall w: nat | !HeaderWord(us, w) ensures At(s'.mem, w) == At(s.mem, w) { assert !HeaderWord(bs, w); }
    }
  }

  /** Writing the flag of the loose block completes the headers. */
  lemma {:induction false} SettleSound(s: State, b: nat)
    requires Sound(s, b) && LiveAt(s.blocks, b)
    ensures Sound(s.(mem := s.mem[b := s.blocks[b].size]), 0)
  {
    var m := s.mem[b := s.blocks[b].size];
    WordsOf(s, b, b);
    HeaderWriteKeepsLinks(s.mem, s.head, s.list, b, s.blocks[b].size);
    HeadersKeepChunks(s.mem, m, s.blocks, s.chunkHead, s.chunks);
  }

  /** Live blocks survive writes to header words and keep their contents. */
  lemma {:induction false} TakenKeepsLive(m: Memory, bs: Blocks, m': Memory, b: nat, size: nat)
    requires Apart(bs) && FreeAt(bs, b) && size <= bs[b].size
    requires Apart(Taken(bs, b, size)) && OnlyHeaders(m, m', Taken(bs, b, size))
    ensures KeepsLive(m, bs, m', Taken(bs, b, size), 0)
  {
    TakenFacts(bs, b, size);
    var us := Taken(bs, b, size);
    forall y | LiveAt(bs, y) ensures us[y] == bs[y] && SamePayload(m, m', y, bs[y].size) {
      HeadersKeepPayload(m, m', us, y);
    }
  }

  lemma {:induction false} WordsOf(s: State, loose: nat, b: nat)
    requires Sound(s, loose) && b in s.blocks
    ensures SizeOf(At(s.mem, b)) == s.blocks[b].size
    ensures b != loose ==> At(s.mem, b) == Word(s.blocks[b])
    ensures b > 0 && b % 16 == 0 && s.blocks[b].size % 16 == 0
    ensures forall x | x in s.list :: x in s.blocks && x % 16 == 0
  {
    StoredSize(s.mem, s.blocks, loose, b);
    forall x | x in s.list ensures x in s.blocks { assert FreeAt(s.blocks, x); }
  }

  ghost predicate FirstFit(bs: Blocks, b: nat, size: nat) {
    && FreeAt(bs, b) && size <= bs[b].size
    && forall x: nat | FreeAt(bs, x) && x < b :: bs[x].size < size
  }

  ghost predicate NoFit(bs: Blocks, size: nat) {
    forall x | FreeAt(bs, x) :: bs[x].size < size
  }

  lemma {:induction false} Element(s: State, i: nat)
    requires Sound(s, 0) && i < |s.list|
    ensures var b := s.list[i];
            && FreeAt(s.blocks, b) && b > 0 && SizeOf(At(s.mem, b)) == s.blocks[b].size
            && At(s.mem, b + 8) == Nth(s.list, i + 1)
  {
    assert LinkAt(s.mem, s.list, i) && FreeAt(s.blocks, s.list[i]);
    WordsOf(s, 0, s.list[i]);
  }

  /** If the first `i` elements are too small, the next one is the first fit, or there is none. */
  lemma {:induction false} FitIsFirst(s: State, i: nat, size: nat)
    requires Sound(s, 0) && i <= |s.list|
    requires forall k | 0 <= k < i :: s.list[k] in s.blocks && s.blocks[s.list[k]].size < size
    ensures i == |s.list| ==> NoFit(s.blocks, size)
    ensures i < |s.list| && s.list[i] in s.blocks && size <= s.blocks[s.list[i]].size ==> FirstFit(s.blocks, s.list[i], size)
    ensures i < |s.list| ==> s.list[i] > 0
  {
    SmallerBelow(s.blocks, s.list, i, size);
    if i < |s.list| { Element(s, i); }
  }

  lemma {:induction false} SmallerBelow(bs: Blocks, list: seq<nat>, i: nat, size: nat)
    requires IsFreeList(bs, list) && i <= |list|
    requires forall k | 0 <= k < i :: list[k] in bs && bs[list[k]].size < size
    ensures forall x | FreeAt(bs, x) && (i < |list| ==> x < list[i]) :: bs[x].size < size
  {
    forall x | FreeAt(bs, x) && (i < |list| ==> x < list[i]) ensures bs[x].size < size {
      assert x in list;
      var k :| 0 <= k < |list| && list[k] == x;
      assert k < i;
    }
  }

  // ----- A new chunk

  /** The kernel grants fresh, page-aligned memory, and never zero bytes of it. */
  ghost predicate GrantOk(cs: seq<Chunk>, grant: nat, bytes: nat) {
    grant != 0 ==> grant % PAGE_SIZE == 0 && bytes > 0 && bytes % PAGE_SIZE == 0 && grant + bytes <= WORD &&
                   Fresh(Homes(cs), Chunk(grant, bytes - HDR))
  }

  function WithHeader(m: Memory, c: Chunk, next: nat): Memory {
    m[c.base := next][c.base + 8 := c.size]
  }

  lemma {:induction false} ChunkReady(s: State, c: Chunk)
    requires Good(s) && Fresh(Homes(s.chunks), c)
    ensures var us := WithChunk(s.blocks, c);
            && Tiled(us, Homes([c] + s.chunks)) && NoFreePair(us)
            && c.base + HDR !in s.blocks && c.base + HDR !in s.list
            && Linked(WithHeader(s.mem, c, s.chunkHead), s.head, s.list)
            && (forall x | x in s.list :: x in us)
            && (forall x | x in s.blocks :: End(s.blocks, x) <= c.base || Limit(c) <= x)
  {
    var bs, us := s.blocks, WithChunk(s.blocks, c);
    ChunkKeepsTiled(bs, Homes(s.chunks), c);
    assert Homes([c] + s.chunks) == Homes(s.chunks) + {c};
    LimitIsNoBlock(us, Homes([c] + s.chunks), c);
    ChunkKeepsPairs(bs, c);
    ChunkOutside(bs, Homes(s.chunks), c);
    assert forall x | x in s.list :: FreeAt(bs, x);
    assert c.base + HDR !in s.list;
    ChunkKeepsLinks(s.mem, s.head, s.list, bs, c, s.chunkHead);
  }

  lemma {:induction false} ChunkOutside(bs: Blocks, cs: set<Chunk>, c: Chunk)
    requires Tiled(bs, cs) && Fresh(cs, c)
    ensures forall x | x in bs :: End(bs, x) <= c.base || Limit(c) <= x
  {
    forall x | x in bs ensures End(bs, x) <= c.base || Limit(c) <= x { assert Placed(bs, cs, x); }
  }

  lemma {:induction false} ChunkKeepsLinks(m: Memory, head: nat, list: seq<nat>, bs: Blocks, c: Chunk, next: nat)
    requires Linked(m, head, list) && (forall x | x in list :: x in bs)
    requires forall x | x in bs :: End(bs, x) <= c.base || Limit(c) <= x
    ensures Linked(WithHeader(m, c, next), head, list)
  {
    var m' := WithHeader(m, c, next);
    forall i | 0 <= i < |list| ensures LinkAt(m', list, i) {
      assert LinkAt(m, list, i) && list[i] in list && list[i] in bs;
    }
  }

  /** `s'` is `s` with a new chunk and its single free block. */
  lemma {:induction false} ChunkSound(s: State, s': State, c: Chunk)
    requires Good(s) && Fresh(Homes(s.chunks), c) && c.base > 0 && Limit(c) <= WORD
    requires s'.blocks == WithChunk(s.blocks, c) && s'.chunks == [c] + s.chunks && s'.chunkHead == c.base
    requires AddedTo(WithHeader(s.mem, c, s.chunkHead), s.list, s', c.base + HDR, c.size - HDR + 1)
    ensures Good(s') && KeepsLive(s.mem, s.blocks, s'.mem, s'.blocks, 0)
  {
    var m1, b, us := WithHeader(s.mem, c, s.chunkHead), c.base + HDR, s'.blocks;
    ChunkReady(s, c);
    ChunkStored(s, m1, c);
    HeadersKeepChunks(m1, s'.mem, us, c.base, [c] + s.chunks);
    ChunkListed(s.blocks, s.list, s'.list, c);
    ChunkKeepsStored(s.mem, s.blocks, s'.mem, c);
    ChunkKeepsLive(s.mem, s.blocks, s'.mem, c, s.chunkHead);
  }

  lemma {:induction false} ChunkListed(bs: Blocks, list: seq<nat>, list': seq<nat>, c: Chunk)
    requires IsFreeList(bs, list) && Sorted(list') && c.size >= HDR
    requires forall x :: x in list' <==> x in list || x == c.base + HDR
    ensures IsFreeList(WithChunk(bs, c), list')
  {
    forall x ensures x in list' <==> FreeAt(WithChunk(bs, c), x) { assert x in list <==> FreeAt(bs, x); }
  }

  lemma {:induction false} ChunkStored(s: State, m: Memory, c: Chunk)
    requires ChunksStored(s.mem, s.chunkHead, s.chunks) && ChunksApart(Homes(s.chunks)) && Fresh(Homes(s.chunks), c)
    requires m == WithHeader(s.mem, c, s.chunkHead)
    ensures ChunksStored(m, c.base, [c] + s.chunks)
  {
    var cs := [c] + s.chunks;
    forall i | 0 <= i < |cs| ensures ChunkAt(m, cs, i) {
      if i > 0 {
        assert ChunkAt(s.mem, s.chunks, i - 1) && cs[i] == s.chunks[i - 1] && cs[i] in Homes(s.chunks);
      }
    }
  }

  lemma {:induction false} ChunkKeepsStored(m: Memory, bs: Blocks, m': Memory, c: Chunk)
    requires Stored(m, bs, 0) && c.size >= HDR && (forall x | x in bs :: End(bs, x) <= c.base || Limit(c) <= x)
    requires At(m', c.base + HDR) == c.size - HDR + 1 && c.base + HDR !in bs && Aligned(bs)
    requires forall x | x in bs && x != c.base && x != c.base + 8 :: At(m', x) == At(m, x)
    ensures Stored(m', WithChunk(bs, c), 0)
  {
  }

  lemma {:induction false} ChunkKeepsLive(m: Memory, bs: Blocks, m': Memory, c: Chunk, next: nat)
    requires Apart(bs) && c.size >= HDR && c.base + HDR !in bs
    requires forall x | x in bs :: End(bs, x) <= c.base || Limit(c) <= x
    requires OnlyHeaders(WithHeader(m, c, next), m', WithChunk(bs, c))
    ensures KeepsLive(m, bs, m', WithChunk(bs, c), 0)
  {
    var m1, us := WithHeader(m, c, next), WithChunk(bs, c);
    ChunkApart(bs, c);
    forall y | LiveAt(bs, y) ensures us[y] == bs[y] && SamePayload(m, m', y, bs[y].size) {
      HeadersKeepPayload(m1, m', us, y);
      assert SamePayload(m, m1, y, bs[y].size);
    }
  }

  // ----- Releasing

  /** Live block `b` was marked free and put in the list; its neighbours may be free too. */
  lemma {:induction false} MarkSound(s: State, s': State, b: nat)
    requires Good(s) && LiveAt(s.blocks, b)
    requires s'.blocks == Marked(s.blocks, b, true) && s'.chunks == s.chunks && s'.chunkHead == s.chunkHead
    requires AddedTo(s.mem, s.list, s', b, s.blocks[b].size + 1)
    ensures Sound(s', 0) && OnlyHeaders(s.mem, s'.mem, s.blocks)
  {
    var us := s'.blocks;
    MarkKeepsTiled(s.blocks, Homes(s.chunks), b, true);
    HeadersKeepChunks(s.mem, s'.mem, us, s.chunkHead, s.chunks);
    assert IsFreeList(us, s'.list) by {
      forall x ensures x in s'.list <==> FreeAt(us, x) { assert x in s.list <==> FreeAt(s.blocks, x); }
    }
    SameKeys(s.mem, s'.mem, us, s.blocks);
  }

  lemma {:induction false} SameKeys(m: Memory, m': Memory, bs: Blocks, us: Blocks)
    requires OnlyHeaders(m, m', bs) && bs.Keys <= us.Keys
    ensures OnlyHeaders(m, m', us)
  {
    forall w: nat | !HeaderWord(us, w) ensures At(m', w) == At(m, w) { assert !HeaderWord(bs, w); }
  }

  /** The memory after `x` has swallowed the block behind it. */
  function Swallowed(m: Memory, bs: Blocks, x: nat): Memory
    requires x in bs && End(bs, x) in bs
  {
    var n := End(bs, x);
    m[x := bs[x].size + HDR + bs[n].size + 1][x + 8 := At(m, n + 8)]
  }

  lemma {:induction false} MergeSound(s: State, i: nat)
    requires Sound(s, 0) && i + 1 < |s.list| && s.list[i] in s.blocks && s.list[i + 1] == End(s.blocks, s.list[i])
    requires FreeAt(s.blocks, s.list[i]) && FreeAt(s.blocks, s.list[i + 1])
    ensures var m := Swallowed(s.mem, s.blocks, s.list[i]);
            && Sound(s.(mem := m, blocks := Merge(s.blocks, s.list[i]), list := RemoveAt(s.list, i + 1)), 0)
            && OnlyHeaders(s.mem, m, s.blocks)
  {
    var x, n, bs := s.list[i], s.list[i + 1], s.blocks;
    var m, us := Swallowed(s.mem, bs, x), Merge(bs, x);
    MergeKeepsTiled(bs, Homes(s.chunks), x);
    MergeFrame(s.mem, bs, x);
    HeadersKeepChunks(s.mem, m, us, s.chunkHead, s.chunks);
    WordsOf(s, 0, x);
    MergeLinked(s.mem, s.head, s.list, bs, i);
    RemoveMembers(s.list, i + 1);
    MergeListed(bs, s.list, RemoveAt(s.list, i + 1), x);
    MergeStored(s.mem, bs, x);
  }

  lemma {:induction false} MergeWords(s: State, i: nat)
    requires Sound(s, 0) && i + 1 < |s.list| && FreeAt(s.blocks, s.list[i]) && s.list[i + 1] == End(s.blocks, s.list[i])
    ensures var x, n := s.list[i], s.list[i + 1];
            && FreeAt(s.blocks, n) && At(s.mem, x + 8) == n && n > x
            && SizeOf(At(s.mem, x)) == s.blocks[x].size && SizeOf(At(s.mem, n)) == s.blocks[n].size
  {
    Element(s, i);
    Element(s, i + 1);
  }

  lemma {:induction false} MergeFrame(m: Memory, bs: Blocks, x: nat)
    requires x in bs && End(bs, x) in bs
    ensures OnlyHeaders(m, Swallowed(m, bs, x), bs) && OnlyHeaders(m, Swallowed(m, bs, x), Merge(bs, x))
  {
  }

  lemma {:induction false} MergeLinked(m: Memory, head: nat, list: seq<nat>, bs: Blocks, i: nat)
    requires Linked(m, head, list) && Sorted(list) && (forall y | y in list :: y % 16 == 0)
    requires i + 1 < |list| && list[i] in bs && list[i + 1] in bs && list[i + 1] == End(bs, list[i])
    ensures Linked(Swallowed(m, bs, list[i]), head, RemoveAt(list, i + 1))
  {
    var x, n, us := list[i], list[i + 1], RemoveAt(list, i + 1);
    assert LinkAt(m, list, i + 1) && list[i] in list;
    RemoveLinked(m, head, list, i + 1);
    RemoveMembers(list, i + 1);
    var m1, w := m[x + 8 := At(m, n + 8)], bs[x].size + HDR + bs[n].size + 1;
    HeaderWriteKeepsLinks(m1, head, us, x, w);
    assert Swallowed(m, bs, x) == m1[x := w];
  }

  lemma {:induction false} MergeListed(bs: Blocks, list: seq<nat>, list': seq<nat>, x: nat)
    requires IsFreeList(bs, list) && FreeAt(bs, x) && FreeAt(bs, End(bs, x))
    requires Sorted(list') && forall y :: y in list' <==> y in list && y != End(bs, x)
    ensures IsFreeList(Merge(bs, x), list')
  {
    forall y ensures y in list' <==> FreeAt(Merge(bs, x), y) { assert y in list <==> FreeAt(bs, y); }
  }

  lemma {:induction false} MergeStored(m: Memory, bs: Blocks, x: nat)
    requires Stored(m, bs, 0) && Aligned(bs) && FreeAt(bs, x) && End(bs, x) in bs
    ensures Stored(Swallowed(m, bs, x), Merge(bs, x), 0)
  {
    var m', us := Swallowed(m, bs, x), Merge(bs, x);
    forall y | y in us ensures At(m', y) == Word(us[y]) {
      assert y % 16 == 0 && x % 16 == 0;
    }
  }

  lemma {:induction false} FreedKeepsLive(m: Memory, bs: Blocks, m': Memory, b: nat, p: nat)
    requires Apart(bs) && LiveAt(bs, b) && OnlyHeaders(m, m', bs)
    ensures KeepsLive(m, bs, m', Freed(bs, b, p), b)
    ensures forall y :: LiveAt(Freed(bs, b, p), y) <==> LiveAt(bs, y) && y != b
  {
    forall y | LiveAt(bs, y) && y != b ensures SamePayload(m, m', y, bs[y].size) && y in Freed(bs, b, p) && Freed(bs, b, p)[y] == bs[y] {
      HeadersKeepPayload(m, m', bs, y);
      FreedKeepsOthers(bs, b, p, y);
    }
  }

  lemma {:induction false} FreeFrame(m0: Memory, m1: Memory, m2: Memory, m3: Memory, bs: Blocks, b: nat, p: nat)
    requires Apart(bs) && LiveAt(bs, b) && OnlyHeaders(m0, m1, bs)
    requires OnlyHeaders(m1, m2, Marked(bs, b, true)) && OnlyHeaders(m2, m3, Forward(bs, b))
    ensures KeepsLive(m0, bs, m3, Freed(bs, b, p), b)
    ensures forall y :: LiveAt(Freed(bs, b, p), y) <==> LiveAt(bs, y) && y != b
  {
    SameKeys(m1, m2, Marked(bs, b, true), bs);
    SameKeys(m2, m3, Forward(bs, b), bs);
    HeadersTrans(m0, m1, m2, bs, bs);
    HeadersTrans(m0, m2, m3, bs, bs);
    FreedKeepsLive(m0, bs, m3, b, p);
  }

  /** The only free block that can end where `b` starts is the one before it in the list. */
  lemma {:induction false} OnlyPrev(bs: Blocks, b: nat, list: seq<nat>, i: nat)
    requires LiveAt(bs, b) && Apart(Forward(bs, b)) && FreeAt(Forward(bs, b), b)
    requires IsFreeList(Forward(bs, b), list) && i < |list| && list[i] == b
    ensures forall x | FreeAt(bs, x) && End(bs, x) == b :: i > 0 && x == list[i - 1]
  {
    var us := Forward(bs, b);
    forall x | FreeAt(bs, x) && End(bs, x) == b ensures i > 0 && x == list[i - 1] {
      assert FreeAt(us, x) && End(us, x) == b;
      var k :| 0 <= k < |list| && list[k] == x;
      NextInList(us, list, k);
      assert list[k + 1] == list[i];
    }
  }

  // ----- Handing out

  /** What a call that handed out `r` did: one more live block, of at least `size` bytes. */
  ghost predicate Handed(m: Memory, bs: Blocks, m': Memory, bs': Blocks, r: nat, size: nat) {
    && r > HDR && r % 16 == 0 && LiveAt(bs', r - HDR) && bs'[r - HDR].size >= size
    && KeepsLive(m, bs, m', bs', 0)
    && (forall y: nat :: LiveAt(bs', y) <==> LiveAt(bs, y) || y == r - HDR)
    && !LiveAt(bs, r - HDR)
  }

  /** The block wastes less than what could be split off. */
  ghost predicate Snug(bs: Blocks, r: nat, size: nat) {
    r > HDR && r - HDR in bs && bs[r - HDR].size < size + 32
  }

  lemma {:induction false} TakenIsSnug(bs: Blocks, b: nat, size: nat)
    requires b in bs && size <= bs[b].size && b > 0
    ensures Snug(Taken(bs, b, size), b + HDR, size)
  {
  }

  lemma {:induction false} HandOut(m: Memory, bs: Blocks, m': Memory, b: nat, size: nat)
    requires Apart(bs) && FreeAt(bs, b) && size <= bs[b].size && b > 0 && b % 16 == 0
    requires Apart(Taken(bs, b, size)) && OnlyHeaders(m, m', Taken(bs, b, size))
    ensures Handed(m, bs, m', Taken(bs, b, size), b + HDR, size)
  {
    TakenFacts(bs, b, size);
    TakenKeepsLive(m, bs, m', b, size);
  }

  lemma {:induction false} HandOutAfterChunk(m0: Memory, bs0: Blocks, m1: Memory, m2: Memory, bs2: Blocks, c: Chunk, r: nat, size: nat)
    requires c.size >= HDR && c.base + HDR !in bs0
    requires KeepsLive(m0, bs0, m1, WithChunk(bs0, c), 0) && Handed(m1, WithChunk(bs0, c), m2, bs2, r, size)
    ensures Handed(m0, bs0, m2, bs2, r, size)
  {
    var bs1 := WithChunk(bs0, c);
    KeepsLiveTrans(m0, bs0, m1, bs1, m2, bs2, 0);
    assert forall y :: LiveAt(bs1, y) <==> LiveAt(bs0, y);
  }

  /** Whether a request of `size` bytes, rounded to `ALIGN`, cannot be met. */
  ghost predicate Refused(bs: Blocks, size: nat, grant: nat) {
    NoFit(bs, size) && (grant == 0 || ChunkBytes(size) < size + 2 * HDR)
  }

  /** For sizes that do not wrap, only the kernel's refusal makes a request fail. */
  lemma {:induction false} FailsOnlyIfKernelRefuses(bs: Blocks, size: nat, grant: nat)
    requires size + 2 * HDR + PAGE_SIZE <= WORD
    ensures Refused(bs, size, grant) <==> NoFit(bs, size) && grant == 0
  {
  }

  lemma {:induction false} ChunkFits(bs: Blocks, c: Chunk, size: nat)
    requires c.size >= HDR && c.base + HDR !in bs && NoFit(bs, size)
    ensures NoFit(WithChunk(bs, c), size) <==> c.size < size + HDR
  {
    var us, b := WithChunk(bs, c), c.base + HDR;
    assert FreeAt(us, b);
    if c.size < size + HDR {
      forall x | FreeAt(us, x) ensures us[x].size < size { assert x != b ==> FreeAt(bs, x); }
    }
  }

  /** A block holds the request it was made for unless rounding wraps. */
  lemma {:induction false} HoldsRequestIff(bytes: nat)
    requires bytes < WORD
    ensures RoundUp(bytes, ALIGN) >= bytes <==> bytes + ALIGN <= WORD
    ensures bytes + ALIGN <= WORD ==> RoundUp(RoundUp(bytes, ALIGN), ALIGN) == RoundUp(bytes, ALIGN)
  {
  }

  // ----- Writing payloads

  /** Only words of the payload at `p` changed. */
  ghost predicate OnlyPayload(m: Memory, m': Memory, p: nat, size: nat) {
    forall w: nat | !(p <= w < p + size) :: At(m', w) == At(m, w)
  }

  lemma {:induction false} PayloadWritesAreSafe(s: State, m': Memory, b: nat)
    requires Good(s) && LiveAt(s.blocks, b) && OnlyPayload(s.mem, m', b + HDR, s.blocks[b].size)
    ensures Good(s.(mem := m')) && KeepsLive(s.mem, s.blocks, m', s.blocks, b)
  {
    var bs := s.blocks;
    forall x | x in bs ensures At(m', x) == At(s.mem, x) && At(m', x + 8) == At(s.mem, x + 8) {
      HeaderNotIn(bs, x, b);
    }
    forall i | 0 <= i < |s.list| ensures LinkAt(m', s.list, i) {
      assert LinkAt(s.mem, s.list, i) && FreeAt(bs, s.list[i]);
    }
    forall i | 0 <= i < |s.chunks| ensures ChunkAt(m', s.chunks, i) {
      assert ChunkAt(s.mem, s.chunks, i) && s.chunks[i] in Homes(s.chunks);
      ChunkHeaderNotIn(bs, Homes(s.chunks), b, s.chunks[i]);
    }
  }

  lemma {:induction false} HeaderNotIn(bs: Blocks, x: nat, b: nat)
    requires Apart(bs) && x in bs && b in bs
    ensures !(b + HDR <= x < End(bs, b)) && !(b + HDR <= x + 8 < End(bs, b))
  {
  }

  lemma {:induction false} ChunkHeaderNotIn(bs: Blocks, cs: set<Chunk>, b: nat, c: Chunk)
    requires Tiled(bs, cs) && b in bs && c in cs
    ensures !(b + HDR <= c.base < End(bs, b)) && !(b + HDR <= c.base + 8 < End(bs, b))
  {
    assert Placed(bs, cs, b);
    assert c != bs[b].home ==> Limit(c) <= bs[b].home.base || Limit(bs[b].home) <= c.base;
  }

  /** Byte `k` of a little-endian word. */
  function ByteOf(w: nat, k: nat): nat {
    if k == 0 then w % 256 else ByteOf(w / 256, k - 1)
  }

  /** `w` with its low `n` bytes cleared. */
  function Cleared(w: nat, n: nat): nat {
    if n == 0 then w else 256 * Cleared(w / 256, n - 1)
  }

  lemma {:induction false} ClearedByte(w: nat, n: nat, k: nat)
    ensures ByteOf(Cleared(w, n), k) == if k < n then 0 else ByteOf(w, k)
  {
    if n > 0 && k > 0 { ClearedByte(w / 256, n - 1, k - 1); }
  }

  lemma {:induction false} ZeroWord(k: nat)
    ensures ByteOf(0, k) == 0
  {
    if k > 0 { ZeroWord(k - 1); }
  }

  function ByteAt(m: Memory, p: nat, j: nat): nat {
    ByteOf(At(m, p + 8 * (j / 8)), j % 8)
  }

  /** The first `bytes` bytes at `p` are zero. */
  ghost predicate Zeroed(m: Memory, p: nat, bytes: nat) {
    forall j: nat | j < bytes :: ByteAt(m, p, j) == 0
  }

  /** What `memset` does to the words it touches: the bytes asked for read zero, those behind
      them in the last word are kept. */
  lemma {:induction false} ClearedWords(m: Memory, m': Memory, p: nat, bytes: nat)
    requires forall k: nat | k < bytes / 8 :: At(m', p + 8 * k) == 0
    requires At(m', p + 8 * (bytes / 8)) == Cleared(At(m, p + 8 * (bytes / 8)), bytes % 8)
    ensures Zeroed(m', p, bytes)
    ensures forall j: nat | bytes <= j < RoundedTo8(bytes) :: ByteAt(m', p, j) == ByteAt(m, p, j)
  {
    var w := At(m, p + 8 * (bytes / 8));
    forall j: nat | j < bytes ensures ByteAt(m', p, j) == 0 {
      if j / 8 < bytes / 8 { ZeroWord(j % 8); } else { ClearedByte(w, bytes % 8, j % 8); }
    }
    forall j: nat | bytes <= j < RoundedTo8(bytes) ensures ByteAt(m', p, j) == ByteAt(m, p, j) {
      ClearedByte(w, bytes % 8, j % 8);
    }
  }

  ghost predicate SameContents(m: Memory, p: nat, m': Memory, p': nat, size: nat) {
    forall k | 0 <= k < size / 8 :: At(m', p' + 8 * k) == At(m, p + 8 * k)
  }

  function RoundedTo8(n: nat): nat {
    8 * ((n + 7) / 8)
  }

  /** The overflow test of `calloc` is exact. */
  lemma {:induction false} ProductOverflowsIff(n: nat, size: nat)
    ensures n != 0 && size > (WORD - 1) / n <==> n * size >= 0x1_0000_0000_0000_0000
  {
    if n != 0 {
      var q := (WORD - 1) / n;
      assert n * q <= WORD - 1 < n * (q + 1) by { assert WORD - 1 == n * q + (WORD - 1) % n; }
      if size > q { assert n * size >= n * (q + 1); } else { assert n * size <= n * q; }
    }
  }

  lemma {:induction false} ClearStays(s: State, m': Memory, r: nat, total: nat)
    requires Good(s) && r > HDR && LiveAt(s.blocks, r - HDR) && s.blocks[r - HDR].size >= total
    requires OnlyPayload(s.mem, m', r, RoundedTo8(total))
    ensures Good(s.(mem := m')) && KeepsLive(s.mem, s.blocks, m', s.blocks, r - HDR)
  {
    RoundedFits(s.blocks[r - HDR].size, total);
    WiderPayload(s.mem, m', r, RoundedTo8(total), s.blocks[r - HDR].size);
    PayloadWritesAreSafe(s, m', r - HDR);
  }

  lemma {:induction false} RoundedFits(size: nat, total: nat)
    requires size % 16 == 0 && total <= size
    ensures RoundedTo8(total) <= size
  {
    var k := size / 16;
    assert size == 8 * (2 * k);
    assert (total + 7) / 8 <= 2 * k;
  }

  lemma {:induction false} WiderPayload(m: Memory, m': Memory, p: nat, size: nat, wider: nat)
    requires OnlyPayload(m, m', p, size) && size <= wider
    ensures OnlyPayload(m, m', p, wider)
  {
  }

  /** Filling the block just handed out disturbs no other. */
  lemma {:induction false} TakenIsHanded(s: State, s': State, b: nat, size: nat)
    requires Good(s) && Good(s') && FirstFit(s.blocks, b, size)
    requires s'.blocks == Taken(s.blocks, b, size) && OnlyHeaders(s.mem, s'.mem, s'.blocks)
    ensures Handed(s.mem, s.blocks, s'.mem, s'.blocks, b + HDR, size) && !NoFit(s.blocks, size)
  {
    HandOut(s.mem, s.blocks, s'.mem, b, size);
  }

  lemma {:induction false} HandedWrites(m0: Memory, bs0: Blocks, m1: Memory, m2: Memory, bs: Blocks, r: nat, size: nat)
    requires 0 !in bs0 && Handed(m0, bs0, m1, bs, r, size) && KeepsLive(m1, bs, m2, bs, r - HDR)
    ensures Handed(m0, bs0, m2, bs, r, size)
  {
    forall y | LiveAt(bs0, y) ensures SamePayload(m0, m2, y, bs0[y].size) {
      assert y != r - HDR && LiveAt(bs, y);
    }
  }

  lemma {:induction false} HandedLess(m0: Memory, bs0: Blocks, m1: Memory, bs1: Blocks, r: nat, size: nat, less: nat)
    requires Handed(m0, bs0, m1, bs1, r, size) && less <= size
    ensures Handed(m0, bs0, m1, bs1, r, less) && LiveAt(bs1, r - HDR) && less <= bs1[r - HDR].size && r > HDR
  {
  }

  /** Clearing the block just handed out. */
  lemma {:induction false} ClearedFacts(m0: Memory, bs0: Blocks, s: State, m: Memory, r: nat, total: nat)
    requires Good(s) && 0 !in bs0 && total + ALIGN <= WORD && Handed(m0, bs0, s.mem, s.blocks, r, RoundUp(total, ALIGN))
    requires OnlyPayload(s.mem, m, r, RoundedTo8(total))
    ensures Good(s.(mem := m)) && Handed(m0, bs0, m, s.blocks, r, total)
  {
    HandedLess(m0, bs0, s.mem, s.blocks, r, RoundUp(total, ALIGN), total);
    ClearStays(s, m, r, total);
    HandedWrites(m0, bs0, s.mem, m, s.blocks, r, total);
  }

  lemma {:induction false} HandedKeeps(m0: Memory, bs0: Blocks, m1: Memory, bs1: Blocks, r: nat, size: nat, b: nat)
    requires Handed(m0, bs0, m1, bs1, r, size) && LiveAt(bs0, b) && b > 0
    ensures r - HDR != b && LiveAt(bs1, b) && bs1[b] == bs0[b] && SamePayload(m0, m1, b, bs0[b].size)
  {
  }

  // ----- Growing a block

  /** `b` swallows the free block behind it and what it does not need is split off again. */
  function Grown(bs: Blocks, b: nat, size: nat): Blocks
    requires b in bs && End(bs, b) in bs && size <= bs[b].size + HDR + bs[End(bs, b)].size
  {
    var us := Merge(bs, b);
    if us[b].size - size < MIN_SPLIT then us else Split(us, b, size)
  }

  /** The free block behind `b` left the list, which gave memory `m`, and the header of `b` then
      covers both. */
  ghost predicate Joined(s: State, s': State, m: Memory, b: nat) {
    && b in s.blocks && End(s.blocks, b) in s.blocks
    && s'.blocks == Merge(s.blocks, b) && s'.chunks == s.chunks && s'.chunkHead == s.chunkHead
    && Linked(m, s'.head, s'.list) && Sorted(s'.list) && OnlyLinks(s.mem, m, s.blocks)
    && (forall x :: x in s'.list <==> x in s.list && x != End(s.blocks, b))
    && s'.mem == m[b := s'.blocks[b].size]
  }

  lemma {:induction false} GrowSound(s: State, s': State, m: Memory, b: nat)
    requires Good(s) && LiveAt(s.blocks, b) && FreeAt(s.blocks, End(s.blocks, b))
    requires Joined(s, s', m, b)
    ensures Sound(s', b) && NoFreePair(s'.blocks) && !FreeAt(s'.blocks, End(s'.blocks, b))
    ensures OnlyHeaders(s.mem, s'.mem, s.blocks)
  {
    var bs, us := s.blocks, s'.blocks;
    MergeKeepsTiled(bs, Homes(s.chunks), b);
    GrowKeepsPairs(bs, b);
    LinksAreHeaders(s.mem, m, bs);
    assert OnlyHeaders(s.mem, s'.mem, bs);
    HeadersKeepChunks(s.mem, s'.mem, bs, s.chunkHead, s.chunks);
    WordsOf(s, 0, b);
    assert forall x | x in s'.list :: x % 16 == 0;
    HeaderWriteKeepsLinks(m, s'.head, s'.list, b, us[b].size);
    LinksKeepStored(s.mem, m, bs, 0);
    GrowStored(m, bs, b);
    GrowListed(bs, s.list, s'.list, b);
  }

  lemma {:induction false} GrowStored(m: Memory, bs: Blocks, b: nat)
    requires Stored(m, bs, 0) && Aligned(bs) && LiveAt(bs, b) && End(bs, b) in bs
    ensures var us := Merge(bs, b); Stored(m[b := us[b].size], us, b)
  {
    var us := Merge(bs, b);
    forall y | y in us ensures At(m[b := us[b].size], y) == Word(us[y]) { }
  }

  lemma {:induction false} GrowListed(bs: Blocks, list: seq<nat>, list': seq<nat>, b: nat)
    requires IsFreeList(bs, list) && LiveAt(bs, b) && FreeAt(bs, End(bs, b))
    requires Sorted(list') && forall y :: y in list' <==> y in list && y != End(bs, b)
    ensures IsFreeList(Merge(bs, b), list')
  {
    forall y ensures y in list' <==> FreeAt(Merge(bs, b), y) { assert y in list <==> FreeAt(bs, y); }
  }

  lemma {:induction false} Settled(s: State, b: nat)
    requires Sound(s, b) && LiveAt(s.blocks, b) && At(s.mem, b) == s.blocks[b].size
    ensures Sound(s, 0)
  {
  }

  /** Growing in place keeps every payload, that of `b` included. */
  lemma {:induction false} GrownKeeps(m0: Memory, m1: Memory, m2: Memory, bs: Blocks, b: nat, size: nat)
    requires Apart(bs) && LiveAt(bs, b) && FreeAt(bs, End(bs, b))
    requires bs[b].size < size <= bs[b].size + HDR + bs[End(bs, b)].size
    requires Apart(Grown(bs, b, size)) && OnlyHeaders(m0, m1, bs) && OnlyHeaders(m1, m2, Grown(bs, b, size))
    ensures var us := Grown(bs, b, size);
            && KeepsLive(m0, bs, m2, us, b) && LiveAt(us, b) && us[b].size >= size
            && SamePayload(m0, m2, b, bs[b].size) && forall y :: LiveAt(us, y) <==> LiveAt(bs, y)
  {
    var us := Grown(bs, b, size);
    GrownBlocks(bs, b, size);
    forall y | LiveAt(bs, y) ensures y in us && (y != b ==> us[y] == bs[y]) && SamePayload(m0, m2, y, bs[y].size) {
      HeadersKeepPayload(m0, m1, bs, y);
      HeadersKeepPayload(m1, m2, us, y);
    }
  }

  lemma {:induction false} GrownBlocks(bs: Blocks, b: nat, size: nat)
    requires Apart(bs) && LiveAt(bs, b) && FreeAt(bs, End(bs, b))
    requires bs[b].size < size <= bs[b].size + HDR + bs[End(bs, b)].size
    ensures var us := Grown(bs, b, size);
            && LiveAt(us, b) && us[b].size >= size && (forall y | LiveAt(bs, y) && y != b :: y in us && us[y] == bs[y])
            && forall y :: LiveAt(us, y) <==> LiveAt(bs, y)
  {
    var vs, n := Merge(bs, b), End(bs, b);
    assert forall y | y in bs :: y <= b || n <= y;
    if vs[b].size - size >= MIN_SPLIT {
      assert n < b + HDR + size < End(bs, n);
      assert b + HDR + size !in bs;
    }
  }

  lemma {:induction false} GrowReady(s: State, b: nat)
    requires Good(s) && LiveAt(s.blocks, b) && FreeAt(s.blocks, End(s.blocks, b))
    ensures var n := End(s.blocks, b);
            CanJoin(s, b) && Merge(s.blocks, b)[b].size == s.blocks[b].size + HDR + s.blocks[n].size
  {
    WordsOf(s, 0, b);
    WordsOf(s, 0, End(s.blocks, b));
  }

  /** What joining needs of the heap. */
  ghost predicate CanJoin(s: State, b: nat) {
    && b in s.blocks && End(s.blocks, b) in s.blocks && End(s.blocks, b) in s.list
    && SizeOf(At(s.mem, b)) == s.blocks[b].size && SizeOf(At(s.mem, End(s.blocks, b))) == s.blocks[End(s.blocks, b)].size
    && Linked(s.mem, s.head, s.list) && Sorted(s.list) && Aligned(s.blocks) && forall x | x in s.list :: x in s.blocks
  }

  /** Chunk header `i`, and when the chunk holds block `b` of chunk `home`. */
  predicate Holds(m: Memory, cs: seq<Chunk>, i: nat, b: nat, home: Chunk)
    requires i < |cs|
  {
    && cs[i].base > 0 && At(m, cs[i].base + 8) == cs[i].size
    && At(m, cs[i].base) == (if i + 1 < |cs| then cs[i + 1].base else 0)
    && (cs[i].base + HDR <= b < Limit(cs[i]) <==> cs[i] == home)
  }

  lemma {:induction false} ChunksHold(s: State, b: nat)
    requires Good(s) && b in s.blocks
    ensures s.blocks[b].home in s.chunks
    ensures forall i {:trigger Holds(s.mem, s.chunks, i, b, s.blocks[b].home)} | 0 <= i < |s.chunks| ::
              Holds(s.mem, s.chunks, i, b, s.blocks[b].home)
  {
    assert Placed(s.blocks, Homes(s.chunks), b);
    forall i | 0 <= i < |s.chunks| ensures Holds(s.mem, s.chunks, i, b, s.blocks[b].home) {
      assert ChunkAt(s.mem, s.chunks, i) && s.chunks[i] in Homes(s.chunks);
    }
  }

  // ----- Resizing

  /** What a successful resize of `ptr` to `r` did: the old contents are at `r`, no other live
      block changed, and exactly `r` replaces `ptr`. */
  ghost predicate Moved(m: Memory, bs: Blocks, m': Memory, bs': Blocks, ptr: nat, r: nat, size: nat) {
    && ptr > HDR && LiveAt(bs, ptr - HDR)
    && r > HDR && r % 16 == 0 && LiveAt(bs', r - HDR) && bs'[r - HDR].size >= size
    && KeepsLive(m, bs, m', bs', ptr - HDR)
    && SameContents(m, ptr, m', r, bs[ptr - HDR].size)
    && forall y: nat :: LiveAt(bs', y) <==> (LiveAt(bs, y) && y != ptr - HDR) || y == r - HDR
  }

  /** The block was handed out, filled from `ptr`, and `ptr` released. */
  lemma {:induction false} MovedByCopy(m0: Memory, bs0: Blocks, m1: Memory, bs1: Blocks, m2: Memory, bs2: Blocks,
                                       ptr: nat, r: nat, size: nat)
    requires 0 !in bs0 && ptr > HDR && LiveAt(bs0, ptr - HDR) && bs0[ptr - HDR].size < size
    requires Handed(m0, bs0, m1, bs1, r, size) && SameContents(m0, ptr, m1, r, bs0[ptr - HDR].size)
    requires KeepsLive(m1, bs1, m2, bs2, ptr - HDR)
    requires forall y: nat :: LiveAt(bs2, y) <==> LiveAt(bs1, y) && y != ptr - HDR
    ensures Moved(m0, bs0, m2, bs2, ptr, r, size)
  {
    var b, c := ptr - HDR, r - HDR;
    assert c != b && LiveAt(bs1, c) && bs2[c] == bs1[c] && SamePayload(m1, m2, c, bs1[c].size);
    ContentsStay(m0, m1, m2, ptr, r, bs0[b].size, bs1[c].size);
    forall y | LiveAt(bs0, y) && y != b ensures y in bs2 && bs2[y] == bs0[y] && SamePayload(m0, m2, y, bs0[y].size) {
      assert y != c && LiveAt(bs1, y) && bs1[y] == bs0[y];
    }
  }

  lemma {:induction false} ContentsStay(m0: Memory, m1: Memory, m2: Memory, ptr: nat, r: nat, n: nat, size: nat)
    requires r > HDR && n < size && SameContents(m0, ptr, m1, r, n) && SamePayload(m1, m2, r - HDR, size)
    ensures SameContents(m0, ptr, m2, r, n)
  {
    forall k | 0 <= k < n / 8 ensures At(m2, r + 8 * k) == At(m0, ptr + 8 * k) {
      assert 8 * k + 8 <= n && At(m1, r + 8 * k) == At(m0, ptr + 8 * k);
      assert At(m2, r + 8 * k) == At(m1, r + 8 * k);
    }
  }

  lemma {:induction false} ContentsCopied(m0: Memory, m1: Memory, m2: Memory, ptr: nat, r: nat, n: nat)
    requires ptr > HDR && SamePayload(m0, m1, ptr - HDR, n) && SameContents(m1, ptr, m2, r, n)
    ensures SameContents(m0, ptr, m2, r, n)
  {
    forall k | 0 <= k < n / 8 ensures At(m2, r + 8 * k) == At(m0, ptr + 8 * k) {
      assert 8 * k + 8 <= n && At(m2, r + 8 * k) == At(m1, ptr + 8 * k);
      assert At(m1, ptr + 8 * k) == At(m0, ptr + 8 * k);
    }
  }

  lemma {:induction false} DuplicateFacts(m0: Memory, bs0: Blocks, m1: Memory, m2: Memory, bs: Blocks, ptr: nat, r: nat, size: nat)
    requires 0 !in bs0 && ptr > HDR && LiveAt(bs0, ptr - HDR) && Handed(m0, bs0, m1, bs, r, size)
    requires KeepsLive(m1, bs, m2, bs, r - HDR) && SameContents(m1, ptr, m2, r, bs0[ptr - HDR].size)
    ensures Handed(m0, bs0, m2, bs, r, size) && SameContents(m0, ptr, m2, r, bs0[ptr - HDR].size)
  {
    HandedKeeps(m0, bs0, m1, bs, r, size, ptr - HDR);
    HandedWrites(m0, bs0, m1, m2, bs, r, size);
    ContentsCopied(m0, m1, m2, ptr, r, bs0[ptr - HDR].size);
  }

  lemma {:induction false} MovedInPlace(m: Memory, bs: Blocks, m': Memory, bs': Blocks, ptr: nat, size: nat)
    requires ptr > HDR && ptr % 16 == 0 && LiveAt(bs, ptr - HDR) && LiveAt(bs', ptr - HDR) && bs'[ptr - HDR].size >= size
    requires KeepsLive(m, bs, m', bs', ptr - HDR) && SamePayload(m, m', ptr - HDR, bs[ptr - HDR].size)
    requires forall y: nat :: LiveAt(bs', y) <==> LiveAt(bs, y)
    ensures Moved(m, bs, m', bs', ptr, ptr, size)
  {
    var n := bs[ptr - HDR].size;
    forall k | 0 <= k < n / 8 ensures At(m', ptr + 8 * k) == At(m, ptr + 8 * k) {
      assert 8 * k + 8 <= n;
    }
  }

  /** The free block behind `b` makes room for `size` bytes. */
  ghost predicate CanGrow(bs: Blocks, b: nat, size: nat)
    requires b in bs
  {
    FreeAt(bs, End(bs, b)) && size <= bs[b].size + HDR + bs[End(bs, b)].size
  }

  /** Another block follows in the chunk exactly if a header fits before its end. */
  lemma {:induction false} FollowedIff(s: State, b: nat)
    requires Good(s) && b in s.blocks
    ensures End(s.blocks, b) + HDR <= Limit(s.blocks[b].home) <==> End(s.blocks, b) in s.blocks
    ensures End(s.blocks, b) in s.blocks ==> At(s.mem, End(s.blocks, b)) == Word(s.blocks[End(s.blocks, b)])
    ensures FreeAt(s.blocks, End(s.blocks, b)) <==>
              End(s.blocks, b) in s.blocks && At(s.mem, End(s.blocks, b)) % 2 == 1
  {
    var bs, n := s.blocks, End(s.blocks, b);
    assert Placed(bs, Homes(s.chunks), b);
    LimitIsNoBlock(bs, Homes(s.chunks), bs[b].home);
    if n in bs {
      assert Placed(bs, Homes(s.chunks), n);
      SizeOfWord(bs[n]);
    }
  }

  /** Live payloads are 16-aligned, lie in their chunk, share no byte with one another, and hold
      no header word of a block or a chunk. */
  lemma {:induction false} LivePayloads(s: State, x: nat, y: nat, w: nat)
    requires Good(s) && LiveAt(s.blocks, x) && LiveAt(s.blocks, y) && x != y
    requires x + HDR <= w < End(s.blocks, x)
    ensures (x + HDR) % 16 == 0 && s.blocks[x].home in s.chunks && s.blocks[x].home.base + 2 * HDR <= w < Limit(s.blocks[x].home)
    ensures !(y + HDR <= w < End(s.blocks, y)) && !HeaderWord(s.blocks, w)
    ensures forall c | c in s.chunks :: w != c.base && w != c.base + 8
  {
    PayloadInHome(s.blocks, Homes(s.chunks), x, w);
    NoHeaderIn(s.blocks, x, w);
    BlocksApart(s.blocks, x, y);
    forall c | c in s.chunks ensures w != c.base && w != c.base + 8 { ChunkHeaderNotIn(s.blocks, Homes(s.chunks), x, c); }
  }

  lemma {:induction false} PayloadInHome(bs: Blocks, cs: set<Chunk>, x: nat, w: nat)
    requires Tiled(bs, cs) && x in bs && x + HDR <= w < End(bs, x)
    ensures (x + HDR) % 16 == 0 && bs[x].home in cs && bs[x].home.base + 2 * HDR <= w < Limit(bs[x].home)
  {
    assert Placed(bs, cs, x);
  }

  lemma {:induction false} NoHeaderIn(bs: Blocks, x: nat, w: nat)
    requires Apart(bs) && x in bs && x + HDR <= w < End(bs, x)
    ensures !HeaderWord(bs, w)
  {
    forall z | z in bs ensures w != z && w != z + 8 { HeaderOutsidePayloads(bs, z, x, w); }
  }

  lemma {:induction false} BlocksApart(bs: Blocks, x: nat, y: nat)
    requires Apart(bs) && x in bs && y in bs && x != y
    ensures End(bs, x) <= y || End(bs, y) <= x
  {
  }

  /** The blocks after the size word of `b` was overwritten with a smaller size. */
  function Shrunk(bs: Blocks, b: nat, size: nat): Blocks
    requires b in bs
  {
    bs[b := bs[b].(size := size)]
  }

  /** Overwriting the size leaves the chunk tiled exactly when it changes nothing. */
  lemma {:induction false} ShrinkKeepsTiledIff(bs: Blocks, cs: set<Chunk>, b: nat, size: nat)
    requires Tiled(bs, cs) && b in bs && size % 16 == 0 && size <= bs[b].size
    ensures Tiled(Shrunk(bs, b, size), cs) <==> size == bs[b].size
  {
    if size < bs[b].size {
      var us := Shrunk(bs, b, size);
      assert Placed(bs, cs, b);
      assert End(us, b) !in bs;
      assert !Placed(us, cs, b);
    } else {
      assert Shrunk(bs, b, size) == bs;
    }
  }

  /** The shrinking branch applies. */
  predicate Shrinks(bs: Blocks, ptr: nat, bytes: nat)
    requires ptr > HDR && ptr - HDR in bs
  {
    bytes != 0 && RoundUp(bytes, 16) + 32 <= bs[ptr - HDR].size
  }

  /** The state the shrinking branch leaves: the size word is overwritten before the split, which
      therefore finds nothing to split off. */
  ghost predicate ShrunkTo(s: State, s': State, b: nat, size: nat)
    requires b in s.blocks
  {
    s' == s.(mem := s.mem[b := size], blocks := Shrunk(s.blocks, b, size))
  }

  lemma {:induction false} ShrunkKeepsRest(s: State, b: nat, size: nat)
    requires Good(s) && LiveAt(s.blocks, b) && size % 16 == 0 && size + 32 <= s.blocks[b].size
    ensures var s' := s.(mem := s.mem[b := size], blocks := Shrunk(s.blocks, b, size));
            && !Tiled(s'.blocks, Homes(s'.chunks)) && !Good(s')
            && KeepsLive(s.mem, s.blocks, s'.mem, s'.blocks, b) && SamePayload(s.mem, s'.mem, b, s.blocks[b].size)
            && IsFreeList(s'.blocks, s'.list) && Stored(s'.mem, s'.blocks, 0)
  {
    ShrinkKeepsTiledIff(s.blocks, Homes(s.chunks), b, size);
    var m := s.mem[b := size];
    assert OnlyHeaders(s.mem, m, s.blocks);
    forall y | LiveAt(s.blocks, y) ensures SamePayload(s.mem, m, y, s.blocks[y].size) {
      HeadersKeepPayload(s.mem, m, s.blocks, y);
    }
    forall x ensures x in s.list <==> FreeAt(Shrunk(s.blocks, b, size), x) { assert x in s.list <==> FreeAt(s.blocks, x); }
  }

  /** Inserting an element writes its own link word and that of its predecessor. */
  lemma {:induction false} InsertFrame(m: Memory, list: seq<nat>, i: nat, b: nat, bs: Blocks)
    requires i <= |list| && b in bs && forall x | x in list :: x in bs
    ensures var m1 := m[b + 8 := Nth(list, i)];
            OnlyLinks(m, if i == 0 then m1 else m1[Slot(list, i) := b], bs)
  {
    if i > 0 { assert list[i - 1] in list; }
  }

  /** What a `realloc` that does not shrink did: it fails exactly when the block is too small,
      cannot grow in place and no other is granted, and then loses nothing. */
  ghost predicate Resized(s: State, s': State, ptr: nat, r: nat, size: nat, grant: nat) {
    && ptr > HDR && LiveAt(s.blocks, ptr - HDR)
    && (r == 0 <==> s.blocks[ptr - HDR].size < size && !CanGrow(s.blocks, ptr - HDR, size) && Refused(s.blocks, size, grant))
    && (r == 0 ==> KeepsLive(s.mem, s.blocks, s'.mem, s'.blocks, 0))
    && (r != 0 ==> Moved(s.mem, s.blocks, s'.mem, s'.blocks, ptr, r, size))
  }

  class Heap {
    var mem: Memory
    var freeList: nat
    var chunkList: nat
    ghost var blocks: Blocks
    ghost var chunks: seq<Chunk>
    ghost var list: seq<nat>

    ghost function Now(): State
      reads this
    {
      State(mem, freeList, chunkList, blocks, chunks, list)
    }

    constructor (initial: Memory)
      ensures Good(Now()) && blocks == map[] && chunks == [] && mem == initial
    {
      mem, freeList, chunkList, blocks, chunks, list := initial, 0, 0, map[], [], [];
    }

    /** Reads the pointer at `pp`; 0 stands for the list head itself. */
    function Load(pp: nat): nat
      reads this
    {
      if pp == 0 then freeList else At(mem, pp)
    }

    /** The slot before the first element above `b`. */
    method FindSlot(b: nat) returns (pp: nat, ghost i: nat)
      requires Linked(mem, freeList, list) && Sorted(list) && b !in list
      requires forall x | x in list :: x > 0
      ensures i <= |list| && pp == Slot(list, i) && Load(pp) == Nth(list, i)
      ensures (forall k | 0 <= k < i :: list[k] < b) && (forall k | i <= k < |list| :: b < list[k])
    {
      pp, i := 0, 0;
      while Load(pp) != 0 && Load(pp) < b
        invariant i <= |list| && pp == Slot(list, i) && Load(pp) == Nth(list, i)
        invariant forall k | 0 <= k < i :: list[k] < b
        decreases |list| - i
      {
        assert LinkAt(mem, list, i);
        pp := Load(pp) + 8;
        i := i + 1;
      }
      if i < |list| { assert list[i] in list; }
    }

    method FreeListInsert(b: nat) returns (ghost i: nat)
      requires Linked(mem, freeList, list) && Sorted(list) && b !in list && Aligned(blocks) && b in blocks
      requires forall x | x in list :: x in blocks
      modifies this`mem, this`freeList, this`list
      ensures Linked(mem, freeList, list) && Sorted(list) && OnlyLinks(old(mem), mem, blocks)
      ensures i <= |old(list)| && list == InsertAt(old(list), i, b) && list[i] == b
      ensures forall x :: x in list <==> x in old(list) || x == b
    {
      var pp;
      pp, i := FindSlot(b);
      InsertLinked(mem, freeList, list, i, b);
      InsertMembers(list, i, b);
      InsertFrame(mem, list, i, b, blocks);
      mem := mem[b + 8 := Load(pp)];
      if pp == 0 { freeList := b; } else { mem := mem[pp := b]; }
      list := InsertAt(list, i, b);
    }

    /** `*pp = b->next` where `pp` points to element `i`. */
    method Unlink(pp: nat, ghost i: nat)
      requires Linked(mem, freeList, list) && Sorted(list) && Aligned(blocks)
      requires forall x | x in list :: x in blocks
      requires i < |list| && pp == Slot(list, i)
      modifies this`mem, this`freeList, this`list
      ensures Linked(mem, freeList, list) && Sorted(list) && OnlyLinks(old(mem), mem, blocks)
      ensures list == RemoveAt(old(list), i)
      ensures forall x :: x in list <==> x in old(list) && x != old(list)[i]
    {
      RemoveLinked(mem, freeList, list, i);
      RemoveMembers(list, i);
      assert LinkAt(mem, list, i);
      assert Load(pp) == list[i] by { if i > 0 { assert LinkAt(mem, list, i - 1); } }
      var next := At(mem, Load(pp) + 8);
      if pp == 0 { freeList := next; } else { mem := mem[pp := next]; }
      list := RemoveAt(list, i);
    }

    method FreeListRemove(b: nat)
      requires Linked(mem, freeList, list) && Sorted(list) && Aligned(blocks) && b in list
      requires forall x | x in list :: x in blocks
      modifies this`mem, this`freeList, this`list
      ensures Linked(mem, freeList, list) && Sorted(list) && OnlyLinks(old(mem), mem, blocks)
      ensures forall x :: x in list <==> x in old(list) && x != b
    {
      var pp := 0;
      ghost var i := 0;
      while Load(pp) != 0 && Load(pp) != b
        invariant i <= |list| && pp == Slot(list, i) && Load(pp) == Nth(list, i)
        invariant forall k | 0 <= k < i :: list[k] != b
        decreases |list| - i
      {
        assert LinkAt(mem, list, i);
        pp := Load(pp) + 8;
        i := i + 1;
      }
      if i < |list| { assert list[i] in blocks; }
      if Load(pp) != 0 { Unlink(pp, i); }
    }

    /** Writes the header of a free block and puts it in the list. */
    method AddFree(b: nat, word: nat)
      requires Linked(mem, freeList, list) && Sorted(list) && b !in list && Aligned(blocks) && b in blocks
      requires forall x | x in list :: x in blocks
      modifies this`mem, this`freeList, this`list
      ensures AddedTo(old(mem), old(list), Now(), b, word)
    {
      HeaderWriteKeepsLinks(mem, freeList, list, b, word);
      mem := mem[b := word];
      HeaderWriteKeepsLinks(mem, freeList, list, b, 0);
      mem := mem[b + 8 := 0];
      ghost var m1 := mem;
      ghost var i := FreeListInsert(b);
      LinksAreHeaders(m1, mem, blocks);
      forall x | x in blocks ensures At(mem, x) == At(m1, x) && (x != b ==> At(m1, x) == At(old(mem), x)) {
        assert !(x >= 8 && x - 8 in blocks);
      }
    }

    /** Writes the header of the rest and then the smaller size of `b`. */
    method CutOff(b: nat, size: nat, rest: nat, restSize: nat)
      requires Linked(mem, freeList, list) && Sorted(list) && Aligned(blocks)
      requires b in blocks && rest in blocks && rest !in list && b != rest
      requires forall x | x in list :: x in blocks
      modifies this`mem, this`freeList, this`list
      ensures CutBy(old(mem), old(list), Now(), b, size, rest, restSize)
    {
      AddFree(rest, restSize + 1);
      HeaderWriteKeepsLinks(mem, freeList, list, b, size);
      mem := mem[b := size];
    }

    method SplitBlock(b: nat, size: nat)
      requires Sound(Now(), b) && NoFreePair(blocks) && LiveAt(blocks, b) && !FreeAt(blocks, End(blocks, b))
      requires size % 16 == 0 && size <= blocks[b].size
      modifies this`mem, this`freeList, this`list, this`blocks
      ensures Sound(Now(), b) && NoFreePair(blocks) && OnlyHeaders(old(mem), mem, blocks)
      ensures blocks == if old(blocks)[b].size - size < 32 then old(blocks) else Split(old(blocks), b, size)
      ensures At(old(mem), b) == old(blocks)[b].size ==> At(mem, b) == blocks[b].size
    {
      WordsOf(Now(), b, b);
      var oldSize := SizeOf(At(mem, b));
      if oldSize - size < MIN_SPLIT { return; }
      ghost var s0 := Now();
      SplitReady(s0, b, size);
      blocks := Split(blocks, b, size);
      CutOff(b, size, b + HDR + size, oldSize - size - HDR);
      SplitSound(s0, Now(), b, size);
    }

    /** Takes block `b`, element `i` of the list, out of it and hands it out. */
    method Claim(pp: nat, b: nat, size: nat, ghost i: nat)
      requires Good(Now()) && i < |list| && list[i] == b && pp == Slot(list, i)
      requires FreeAt(blocks, b) && size <= blocks[b].size && size % 16 == 0
      modifies this`mem, this`freeList, this`list, this`blocks
      ensures Good(Now()) && blocks == Taken(old(blocks), b, size) && OnlyHeaders(old(mem), mem, blocks)
    {
      ghost var s0 := Now();
      WordsOf(s0, 0, b);
      Unlink(pp, i);
      blocks := Marked(blocks, b, false);
      ClaimSound(s0, Now(), b);
      ghost var s1 := Now();
      SplitBlock(b, size);
      ghost var s2 := Now();
      WordsOf(s2, b, b);
      SettleSound(s2, b);
      mem := mem[b := SizeOf(At(mem, b))];
      HeadersTrans(s0.mem, s1.mem, s2.mem, s1.blocks, s2.blocks);
    }

    /** The first-fit search: the slot of the first block that is large enough, or the last slot. */
    method FindFit(size: nat) returns (pp: nat, ghost i: nat)
      requires Sound(Now(), 0)
      ensures i <= |list| && pp == Slot(list, i) && Load(pp) == Nth(list, i)
      ensures forall k | 0 <= k < i :: list[k] in blocks && blocks[list[k]].size < size
      ensures Load(pp) == 0 <==> i == |list|
      ensures i < |list| ==> FreeAt(blocks, list[i]) && size <= blocks[list[i]].size
    {
      pp, i := 0, 0;
      while Load(pp) != 0
        invariant i <= |list| && pp == Slot(list, i) && Load(pp) == Nth(list, i)
        invariant forall k | 0 <= k < i :: list[k] in blocks && blocks[list[k]].size < size
        decreases |list| - i
      {
        var b := Load(pp);
        Element(Now(), i);
        if SizeOf(At(mem, b)) >= size { return; }
        pp := b + 8;
        i := i + 1;
      }
      if i < |list| { Element(Now(), i); }
    }

    /** First fit: the lowest block that is large enough is handed out. */
    method TakeFit(size: nat) returns (r: nat)
      requires Good(Now()) && size % 16 == 0
      modifies this`mem, this`freeList, this`list, this`blocks
      ensures Good(Now())
      ensures r == 0 ==> unchanged(this) && NoFit(blocks, size)
      ensures r != 0 ==> r > HDR && FirstFit(old(blocks), r - HDR, size) &&
                         blocks == Taken(old(blocks), r - HDR, size) && Snug(blocks, r, size) &&
                         OnlyHeaders(old(mem), mem, blocks)
    {
      ghost var i;
      var pp;
      pp, i := FindFit(size);
      FitIsFirst(Now(), i, size);
      var b := Load(pp);
      if b == 0 { return 0; }
      TakenIsSnug(blocks, b, size);
      Claim(pp, b, size, i);
      return b + HDR;
    }

    /** A new chunk from the kernel, put in the free list as one block. */
    method NewChunk(minData: nat, grant: nat) returns (ok: bool)
      requires Good(Now()) && GrantOk(chunks, grant, ChunkBytes(minData))
      modifies this
      ensures Good(Now()) && KeepsLive(old(mem), old(blocks), mem, blocks, 0) && ok == (grant != 0)
      ensures !ok ==> unchanged(this)
      ensures ok ==> var c := Chunk(grant, ChunkBytes(minData) - HDR);
                     chunks == [c] + old(chunks) && grant + HDR !in old(blocks) && blocks == WithChunk(old(blocks), c)
    {
      var total := ChunkBytes(minData);
      if grant == 0 { return false; }
      ghost var s0 := Now();
      ghost var c := Chunk(grant, total - HDR);
      ChunkReady(s0, c);
      mem := mem[grant := chunkList];
      mem := mem[grant + 8 := total - HDR];
      chunkList := grant;
      chunks, blocks := [c] + chunks, WithChunk(blocks, c);
      AddFree(grant + HDR, total - HDR - HDR + 1);
      ChunkSound(s0, Now(), c);
      return true;
    }

    /** Joins element `i` of the list with the next one, which starts where it ends. */
    method MergeNext(x: nat, ghost i: nat)
      requires Sound(Now(), 0) && i + 1 < |list| && list[i] == x && FreeAt(blocks, x)
      requires list[i + 1] == End(blocks, x) && FreeAt(blocks, list[i + 1])
      modifies this`mem, this`list, this`blocks
      ensures Sound(Now(), 0) && OnlyHeaders(old(mem), mem, old(blocks))
      ensures blocks == Merge(old(blocks), x) && list == RemoveAt(old(list), i + 1)
    {
      MergeSound(Now(), i);
      MergeWords(Now(), i);
      Swallow(x);
      blocks, list := Merge(blocks, x), RemoveAt(list, i + 1);
    }

    method Swallow(x: nat)
      requires At(mem, x + 8) > x
      modifies this`mem
      ensures var next := At(old(mem), x + 8);
              mem == old(mem)[x := SizeOf(At(old(mem), x)) + HDR + SizeOf(At(old(mem), next)) + 1][x + 8 := At(old(mem), next + 8)]
    {
      var next := At(mem, x + 8);
      var size := SizeOf(At(mem, x)) + HDR + SizeOf(At(mem, next));
      mem := mem[x := size + 1];
      mem := mem[x + 8 := At(mem, next + 8)];
    }

    method MarkFree(b: nat)
      requires Good(Now()) && LiveAt(blocks, b)
      modifies this`mem, this`freeList, this`list, this`blocks
      ensures Sound(Now(), 0) && blocks == Marked(old(blocks), b, true) && OnlyHeaders(old(mem), mem, old(blocks))
    {
      ghost var s0 := Now();
      WordsOf(s0, 0, b);
      assert b !in list by { assert b in list <==> FreeAt(blocks, b); }
      assert Aligned(Marked(blocks, b, true));
      blocks := Marked(blocks, b, true);
      AddFree(b, SizeOf(At(mem, b)) + 1);
      MarkSound(s0, Now(), b);
    }

    method MergeForward(b: nat)
      requires Sound(Now(), 0) && FreeAt(blocks, b)
      modifies this`mem, this`list, this`blocks
      ensures Sound(Now(), 0) && OnlyHeaders(old(mem), mem, old(blocks))
      ensures blocks == if FreeAt(old(blocks), End(old(blocks), b)) then Merge(old(blocks), b) else old(blocks)
    {
      assert b in list;
      ghost var i :| 0 <= i < |list| && list[i] == b;
      Element(Now(), i);
      NextInList(blocks, list, i);
      var end := b + HDR + SizeOf(At(mem, b));
      var next := At(mem, b + 8);
      if next != 0 && next == end { MergeNext(b, i); }
    }

    method FindBefore(b: nat) returns (prev: nat, ghost i: nat)
      requires Sound(Now(), 0) && FreeAt(blocks, b)
      ensures i < |list| && list[i] == b && prev == if i == 0 then 0 else list[i - 1]
    {
      assert b in list;
      var cur := freeList;
      prev, i := 0, 0;
      while cur != 0 && cur != b
        invariant i <= |list| && cur == Nth(list, i) && prev == if i == 0 then 0 else list[i - 1]
        invariant forall k | 0 <= k < i :: list[k] != b
        decreases |list| - i
      {
        Element(Now(), i);
        prev, cur := cur, At(mem, cur + 8);
        i := i + 1;
      }
      if i < |list| { Element(Now(), i); }
    }

    method MergeBackward(ghost bs: Blocks, b: nat) returns (ghost p: nat)
      requires Sound(Now(), 0) && FreeAt(blocks, b) && LiveAt(bs, b) && blocks == Forward(bs, b)
      modifies this`mem, this`list, this`blocks
      ensures Sound(Now(), 0) && OnlyHeaders(old(mem), mem, old(blocks)) && blocks == Freed(bs, b, p)
      ensures forall x | FreeAt(bs, x) && End(bs, x) == b :: x == p
    {
      var prev;
      ghost var i;
      prev, i := FindBefore(b);
      p := prev;
      OnlyPrev(bs, b, list, i);
      Element(Now(), i);
      if prev != 0 {
        Element(Now(), i - 1);
        if prev + HDR + SizeOf(At(mem, prev)) == b { MergeNext(prev, i - 1); }
      }
    }

    /** Joins the block just marked free with its free neighbours on both sides. */
    method MergeBoth(ghost m0: Memory, ghost bs: Blocks, b: nat) returns (ghost p: nat)
      requires Sound(Now(), 0) && Apart(bs) && LiveAt(bs, b) && blocks == Marked(bs, b, true) && OnlyHeaders(m0, mem, bs)
      modifies this`mem, this`list, this`blocks
      ensures Sound(Now(), 0) && blocks == Freed(bs, b, p) && forall x | FreeAt(bs, x) && End(bs, x) == b :: x == p
      ensures KeepsLive(m0, bs, mem, blocks, b) && forall y :: LiveAt(blocks, y) <==> LiveAt(bs, y) && y != b
    {
      ghost var m1 := mem;
      MergeForward(b);
      ghost var m2 := mem;
      p := MergeBackward(bs, b);
      FreeFrame(m0, m1, m2, mem, bs, b, p);
    }

    /** A released block is joined with its free neighbours; nothing else changes. */
    method Free(ptr: nat)
      requires Good(Now()) && (ptr != 0 ==> ptr > HDR && LiveAt(blocks, ptr - HDR))
      modifies this`mem, this`freeList, this`list, this`blocks
      ensures Good(Now())
      ensures ptr == 0 ==> unchanged(this)
      ensures ptr != 0 ==> KeepsLive(old(mem), old(blocks), mem, blocks, ptr - HDR)
      ensures ptr != 0 ==> forall y: nat :: LiveAt(blocks, y) <==> LiveAt(old(blocks), y) && y != ptr - HDR
    {
      if ptr == 0 { return; }
      var b := ptr - HDR;
      ghost var m0, bs := mem, blocks;
      MarkFree(b);
      ghost var p := MergeBoth(m0, bs, b);
      FreedFacts(bs, Homes(chunks), b, p);
    }

    /** One pass over the list. */
    method TryTake(size: nat) returns (r: nat)
      requires Good(Now()) && size % 16 == 0
      modifies this`mem, this`freeList, this`list, this`blocks
      ensures Good(Now()) && (r == 0 <==> NoFit(old(blocks), size))
      ensures r == 0 ==> unchanged(this)
      ensures r != 0 ==> Handed(old(mem), old(blocks), mem, blocks, r, size) && FirstFit(old(blocks), r - HDR, size)
      ensures r != 0 ==> Snug(blocks, r, size)
    {
      ghost var s0 := Now();
      r := TakeFit(size);
      if r != 0 { TakenIsHanded(s0, Now(), r - HDR, size); }
    }

    /** The retry after a new chunk. */
    method GrowAndTake(size: nat, grant: nat) returns (r: nat)
      requires Good(Now()) && size % 16 == 0 && NoFit(blocks, size) && GrantOk(chunks, grant, ChunkBytes(size))
      modifies this
      ensures Good(Now()) && KeepsLive(old(mem), old(blocks), mem, blocks, 0)
      ensures r == 0 <==> Refused(old(blocks), size, grant)
      ensures r != 0 ==> Handed(old(mem), old(blocks), mem, blocks, r, size) && Snug(blocks, r, size)
      ensures r == 0 ==> forall y: nat :: LiveAt(blocks, y) <==> LiveAt(old(blocks), y)
    {
      ghost var m0, bs0 := mem, blocks;
      var ok := NewChunk(size, grant);
      if !ok { return 0; }
      ghost var m1, c := mem, Chunk(grant, ChunkBytes(size) - HDR);
      ChunkFits(bs0, c, size);
      r := TryTake(size);
      if r != 0 { HandOutAfterChunk(m0, bs0, m1, mem, blocks, c, r, size); }
    }

    method Malloc(bytes: nat, grant: nat) returns (r: nat)
      requires Good(Now()) && bytes < WORD
      requires GrantOk(chunks, grant, ChunkBytes(RoundUp(bytes, ALIGN)))
      modifies this
      ensures Good(Now()) && KeepsLive(old(mem), old(blocks), mem, blocks, 0)
      ensures r == 0 <==> bytes == 0 || Refused(old(blocks), RoundUp(bytes, ALIGN), grant)
      ensures r != 0 ==> Handed(old(mem), old(blocks), mem, blocks, r, RoundUp(bytes, 16)) &&
                         Snug(blocks, r, RoundUp(bytes, 16))
      ensures r == 0 ==> forall y: nat :: LiveAt(blocks, y) <==> LiveAt(old(blocks), y)
    {
      if bytes == 0 { return 0; }
      var size := RoundUp(bytes, ALIGN);
      r := TryTake(size);
      if r == 0 { r := GrowAndTake(size, grant); }
    }

    /** `memset(p, 0, bytes)` */
    method Clear(p: nat, bytes: nat)
      modifies this`mem
      ensures Zeroed(mem, p, bytes) && OnlyPayload(old(mem), mem, p, RoundedTo8(bytes))
      ensures forall j: nat | bytes <= j < RoundedTo8(bytes) :: ByteAt(mem, p, j) == ByteAt(old(mem), p, j)
    {
      var n := bytes / 8;
      for k := 0 to n
        invariant forall j | 0 <= j < k :: At(mem, p + 8 * j) == 0
        invariant OnlyPayload(old(mem), mem, p, 8 * k)
      {
        mem := mem[p + 8 * k := 0];
      }
      var w := At(mem, p + 8 * n);
      if bytes % 8 != 0 { mem := mem[p + 8 * n := Cleared(w, bytes % 8)]; }
      ClearedWords(old(mem), mem, p, bytes);
    }

    /** `memcpy` of whole words. */
    method Copy(to: nat, from: nat, size: nat)
      requires to + size <= from || from + size <= to
      modifies this`mem
      ensures SameContents(old(mem), from, mem, to, size) && OnlyPayload(old(mem), mem, to, size)
    {
      for k := 0 to size / 8
        invariant forall j | 0 <= j < k :: At(mem, to + 8 * j) == At(old(mem), from + 8 * j)
        invariant OnlyPayload(old(mem), mem, to, 8 * k)
      {
        mem := mem[to + 8 * k := At(mem, from + 8 * k)];
      }
    }

    /** `malloc` and `memset`. A total that rounds to an empty block is overrun; for every other
        one the invariant holds and the result is what it should be. */
    method MallocCleared(total: nat, grant: nat) returns (r: nat)
      requires Good(Now()) && total < WORD && GrantOk(chunks, grant, ChunkBytes(RoundUp(total, ALIGN)))
      modifies this
      ensures r == 0 <==> total == 0 || Refused(old(blocks), RoundUp(total, ALIGN), grant)
      ensures total + ALIGN <= WORD || r == 0 ==> Good(Now()) && KeepsLive(old(mem), old(blocks), mem, blocks, 0)
      ensures total + ALIGN <= WORD && r != 0 ==> Handed(old(mem), old(blocks), mem, blocks, r, total)
      ensures r != 0 ==> Zeroed(mem, r, total)
      ensures r == 0 ==> forall y: nat :: LiveAt(blocks, y) <==> LiveAt(old(blocks), y)
    {
      ghost var m0, bs0 := mem, blocks;
      assert 0 !in bs0;
      r := Malloc(total, grant);
      if r == 0 { return; }
      ghost var s1 := Now();
      Clear(r, total);
      if total + ALIGN <= WORD { ClearedFacts(m0, bs0, s1, mem, r, total); }
    }

    /** As `MallocCleared` of the product, unless the product overflows. */
    method Calloc(nmemb: nat, size: nat, grant: nat) returns (r: nat)
      requires Good(Now()) && nmemb < WORD && size < WORD
      requires nmemb * size < WORD ==> GrantOk(chunks, grant, ChunkBytes(RoundUp(nmemb * size, ALIGN)))
      modifies this
      ensures r == 0 <==> nmemb * size >= WORD || nmemb * size == 0 || Refused(old(blocks), RoundUp(nmemb * size, ALIGN), grant)
      ensures nmemb * size + ALIGN <= WORD || r == 0 ==> Good(Now()) && KeepsLive(old(mem), old(blocks), mem, blocks, 0)
      ensures nmemb * size + ALIGN <= WORD && r != 0 ==> Handed(old(mem), old(blocks), mem, blocks, r, nmemb * size)
      ensures r != 0 ==> Zeroed(mem, r, nmemb * size)
      ensures r == 0 ==> forall y: nat :: LiveAt(blocks, y) <==> LiveAt(old(blocks), y)
    {
      ProductOverflowsIff(nmemb, size);
      if nmemb != 0 && size > (WORD - 1) / nmemb { return 0; }
      var total := nmemb * size;
      r := MallocCleared(total, grant);
    }

    /** Takes the block behind `b` out of the list and writes the joint size to `b`. */
    method JoinWords(b: nat) returns (grown: nat, ghost m: Memory)
      requires CanJoin(Now(), b)
      modifies this`mem, this`freeList, this`list, this`blocks
      ensures Joined(old(Now()), Now(), m, b) && grown == blocks[b].size && At(mem, b) == grown
    {
      var oldSize := SizeOf(At(mem, b));
      var next := b + HDR + oldSize;
      grown := oldSize + HDR + SizeOf(At(mem, next));
      FreeListRemove(next);
      m := mem;
      mem := mem[b := grown];
      blocks := Merge(blocks, b);
    }

    /** Live block `b` swallows the free block behind it. */
    method Absorb(b: nat) returns (grown: nat)
      requires Good(Now()) && LiveAt(blocks, b) && FreeAt(blocks, End(blocks, b))
      modifies this`mem, this`freeList, this`list, this`blocks
      ensures Sound(Now(), b) && NoFreePair(blocks) && blocks == Merge(old(blocks), b)
      ensures !FreeAt(blocks, End(blocks, b)) && OnlyHeaders(old(mem), mem, old(blocks))
      ensures At(mem, b) == blocks[b].size == grown
    {
      ghost var s0 := Now();
      GrowReady(s0, b);
      ghost var m;
      grown, m := JoinWords(b);
      GrowSound(s0, Now(), m, b);
    }

    method GrowInPlace(b: nat, size: nat)
      requires Good(Now()) && LiveAt(blocks, b) && FreeAt(blocks, End(blocks, b)) && size % 16 == 0
      requires blocks[b].size < size <= blocks[b].size + HDR + blocks[End(blocks, b)].size
      modifies this`mem, this`freeList, this`list, this`blocks
      ensures Good(Now()) && KeepsLive(old(mem), old(blocks), mem, blocks, b)
      ensures LiveAt(blocks, b) && blocks[b].size >= size && SamePayload(old(mem), mem, b, old(blocks)[b].size)
      ensures Snug(blocks, b + HDR, size)
      ensures forall y :: LiveAt(blocks, y) <==> LiveAt(old(blocks), y)
    {
      ghost var m0, bs := mem, blocks;
      var grown := Absorb(b);
      ghost var m1 := mem;
      if grown - size >= MIN_SPLIT { SplitBlock(b, size); }
      Settled(Now(), b);
      GrownKeeps(m0, m1, mem, bs, b, size);
    }

    method WalkChunks(b: nat, ghost home: Chunk) returns (c: nat)
      requires home in chunks && chunkList == chunks[0].base
      requires forall i {:trigger Holds(mem, chunks, i, b, home)} | 0 <= i < |chunks| :: Holds(mem, chunks, i, b, home)
      ensures c == home.base && At(mem, c + 8) == home.size
    {
      ghost var i := 0;
      ghost var j :| 0 <= j < |chunks| && chunks[j] == home;
      c := chunkList;
      assert Holds(mem, chunks, 0, b, home);
      while c != 0 && !(c + HDR <= b < c + HDR + At(mem, c + 8))
        invariant i <= j && c == chunks[i].base && Holds(mem, chunks, i, b, home)
        decreases |chunks| - i
      {
        assert Holds(mem, chunks, i + 1, b, home);
        c := At(mem, c);
        i := i + 1;
      }
    }

    /** The chunk a block belongs to. */
    method FindChunk(b: nat) returns (c: nat)
      requires Good(Now()) && b in blocks
      ensures c == blocks[b].home.base && At(mem, c + 8) == blocks[b].home.size
    {
      ChunksHold(Now(), b);
      c := WalkChunks(b, blocks[b].home);
    }

    /** Whether the block behind `b` is free and large enough. */
    method CanGrowInPlace(b: nat, size: nat) returns (can: bool)
      requires Good(Now()) && LiveAt(blocks, b)
      ensures can == CanGrow(blocks, b, size)
    {
      WordsOf(Now(), 0, b);
      FollowedIff(Now(), b);
      var chunk := FindChunk(b);
      var chunkEnd := chunk + HDR + At(mem, chunk + 8);
      var oldSize := SizeOf(At(mem, b));
      var next := b + HDR + oldSize;
      can := next + HDR <= chunkEnd && At(mem, next) % 2 == 1;
      if can {
        WordsOf(Now(), 0, next);
        can := oldSize + HDR + SizeOf(At(mem, next)) >= size;
      }
    }

    /** Copies the payload at `ptr` to the start of a larger one. */
    method CopyInto(r: nat, ptr: nat, size: nat)
      requires Good(Now()) && ptr > HDR && r > HDR && ptr != r
      requires LiveAt(blocks, ptr - HDR) && LiveAt(blocks, r - HDR) && size == blocks[ptr - HDR].size <= blocks[r - HDR].size
      modifies this`mem
      ensures Good(Now()) && KeepsLive(old(mem), blocks, mem, blocks, r - HDR)
      ensures SameContents(old(mem), ptr, mem, r, size)
    {
      ghost var s := Now();
      BlocksApart(blocks, ptr - HDR, r - HDR);
      Copy(r, ptr, size);
      PayloadWritesAreSafe(s, mem, r - HDR);
    }

    method SizeOfBlock(b: nat) returns (size: nat)
      requires Good(Now()) && b in blocks
      ensures size == blocks[b].size && b > 0 && b % 16 == 0 && 0 !in blocks
    {
      WordsOf(Now(), 0, b);
      return SizeOf(At(mem, b));
    }

    /** A request that needs no rounding. */
    method MallocAligned(size: nat, grant: nat) returns (r: nat)
      requires Good(Now()) && 0 < size < WORD && size % 16 == 0 && GrantOk(chunks, grant, ChunkBytes(size))
      modifies this
      ensures Good(Now()) && KeepsLive(old(mem), old(blocks), mem, blocks, 0)
      ensures r == 0 <==> Refused(old(blocks), size, grant)
      ensures r != 0 ==> Handed(old(mem), old(blocks), mem, blocks, r, size) && Snug(blocks, r, size)
    {
      assert RoundUp(size, ALIGN) == size;
      r := Malloc(size, grant);
    }

    /** A new block that starts with the contents of `ptr`. */
    method Duplicate(ptr: nat, size: nat, grant: nat) returns (r: nat)
      requires Good(Now()) && ptr > HDR && LiveAt(blocks, ptr - HDR) && blocks[ptr - HDR].size < size
      requires size % 16 == 0 && size < WORD && GrantOk(chunks, grant, ChunkBytes(size))
      modifies this
      ensures Good(Now()) && (r == 0 <==> Refused(old(blocks), size, grant))
      ensures KeepsLive(old(mem), old(blocks), mem, blocks, 0)
      ensures r != 0 ==> Handed(old(mem), old(blocks), mem, blocks, r, size) &&
                         SameContents(old(mem), ptr, mem, r, old(blocks)[ptr - HDR].size)
    {
      var oldSize := SizeOfBlock(ptr - HDR);
      ghost var m0, bs0 := mem, blocks;
      r := MallocAligned(size, grant);
      if r != 0 { FillNew(r, ptr, oldSize, size, m0, bs0); }
    }

    /** Fills the block just handed out from `ptr`. */
    method FillNew(r: nat, ptr: nat, n: nat, ghost size: nat, ghost m0: Memory, ghost bs0: Blocks)
      requires Good(Now()) && 0 !in bs0 && ptr > HDR && LiveAt(bs0, ptr - HDR) && n == bs0[ptr - HDR].size < size
      requires Handed(m0, bs0, mem, blocks, r, size)
      modifies this`mem
      ensures Good(Now()) && Handed(m0, bs0, mem, blocks, r, size) && SameContents(m0, ptr, mem, r, n)
    {
      ghost var m1 := mem;
      HandedKeeps(m0, bs0, m1, blocks, r, size, ptr - HDR);
      CopyInto(r, ptr, n);
      DuplicateFacts(m0, bs0, m1, mem, blocks, ptr, r, size);
    }

    /** Allocate, copy, release. */
    method MoveBlock(ptr: nat, size: nat, grant: nat) returns (r: nat)
      requires Good(Now()) && ptr > HDR && LiveAt(blocks, ptr - HDR) && blocks[ptr - HDR].size < size
      requires size % 16 == 0 && size < WORD && GrantOk(chunks, grant, ChunkBytes(size))
      modifies this
      ensures Good(Now()) && (r == 0 <==> Refused(old(blocks), size, grant))
      ensures r == 0 ==> KeepsLive(old(mem), old(blocks), mem, blocks, 0)
      ensures r != 0 ==> Moved(old(mem), old(blocks), mem, blocks, ptr, r, size)
    {
      ghost var bs0 := blocks;
      assert 0 !in bs0;
      r := Duplicate(ptr, size, grant);
      if r == 0 { return; }
      ghost var m1, bs1 := mem, blocks;
      Free(ptr);
      MovedByCopy(old(mem), bs0, m1, bs1, mem, blocks, ptr, r, size);
    }

    /** The shrinking branch: the new size is written, then `split_block` compares it with itself. */
    method Shrink(b: nat, size: nat) returns (splits: bool)
      requires Good(Now()) && LiveAt(blocks, b) && size % 16 == 0 && size + MIN_SPLIT <= blocks[b].size
      modifies this`mem, this`blocks
      ensures ShrunkTo(old(Now()), Now(), b, size) && !splits && !Good(Now())
    {
      ShrunkKeepsRest(Now(), b, size);
      mem := mem[b := size];
      blocks := Shrunk(blocks, b, size);
      splits := SizeOf(At(mem, b)) - size >= MIN_SPLIT;
    }

    /** The invariant survives exactly when the block is not shrunk by `MIN_SPLIT` bytes or more. */
    method Realloc(ptr: nat, bytes: nat, grant: nat) returns (r: nat)
      requires Good(Now()) && bytes < WORD && GrantOk(chunks, grant, ChunkBytes(RoundUp(bytes, ALIGN)))
      requires ptr != 0 ==> ptr > HDR && LiveAt(blocks, ptr - HDR)
      modifies this
      ensures Good(Now()) <==> !(ptr != 0 && Shrinks(old(blocks), ptr, bytes))
      ensures ptr == 0 ==>
                && (r == 0 <==> bytes == 0 || Refused(old(blocks), RoundUp(bytes, ALIGN), grant))
                && (r != 0 ==> Handed(old(mem), old(blocks), mem, blocks, r, RoundUp(bytes, ALIGN)))
      ensures ptr != 0 && bytes == 0 ==>
                && r == 0 && KeepsLive(old(mem), old(blocks), mem, blocks, ptr - HDR)
                && (forall y: nat :: LiveAt(blocks, y) <==> LiveAt(old(blocks), y) && y != ptr - HDR)
      ensures ptr != 0 && Shrinks(old(blocks), ptr, bytes) ==>
                r == ptr && ShrunkTo(old(Now()), Now(), ptr - HDR, RoundUp(bytes, ALIGN))
      ensures ptr != 0 && bytes != 0 && !Shrinks(old(blocks), ptr, bytes) ==>
                Resized(old(Now()), Now(), ptr, r, RoundUp(bytes, ALIGN), grant)
    {
      if ptr == 0 {
        r := Malloc(bytes, grant);
        return;
      }
      if bytes == 0 {
        Free(ptr);
        return 0;
      }
      r := ReallocLive(ptr, RoundUp(bytes, ALIGN), grant);
    }

    /** `realloc` of a live block to a rounded size. */
    method ReallocLive(ptr: nat, size: nat, grant: nat) returns (r: nat)
      requires Good(Now()) && size % 16 == 0 && size < WORD && GrantOk(chunks, grant, ChunkBytes(size))
      requires ptr > HDR && LiveAt(blocks, ptr - HDR)
      modifies this
      ensures var b := ptr - HDR;
              if size + 32 <= old(blocks)[b].size then
                r == ptr && ShrunkTo(old(Now()), Now(), b, size) && !Good(Now())
              else
                Good(Now()) && Resized(old(Now()), Now(), ptr, r, size, grant)
    {
      var oldSize := SizeOfBlock(ptr - HDR);
      if oldSize >= size && oldSize - size >= MIN_SPLIT {
        var splits := Shrink(ptr - HDR, size);
        return ptr;
      }
      r := Resize(ptr, size, grant);
    }

    /** Every other case. */
    method Resize(ptr: nat, size: nat, grant: nat) returns (r: nat)
      requires Good(Now()) && size % 16 == 0 && size < WORD && GrantOk(chunks, grant, ChunkBytes(size))
      requires ptr > HDR && LiveAt(blocks, ptr - HDR) && blocks[ptr - HDR].size < size + MIN_SPLIT
      modifies this
      ensures Good(Now()) && Resized(old(Now()), Now(), ptr, r, size, grant)
    {
      var b := ptr - HDR;
      var oldSize := SizeOfBlock(b);
      if oldSize >= size {
        MovedInPlace(mem, blocks, mem, blocks, ptr, size);
        return ptr;
      }
      var can := CanGrowInPlace(b, size);
      if can {
        GrowAt(ptr, size);
        return ptr;
      }
      r := MoveBlock(ptr, size, grant);
    }

    method GrowAt(ptr: nat, size: nat)
      requires Good(Now()) && size % 16 == 0 && ptr > HDR && LiveAt(blocks, ptr - HDR)
      requires blocks[ptr - HDR].size < size && CanGrow(blocks, ptr - HDR, size)
      modifies this`mem, this`freeList, this`list, this`blocks
      ensures Good(Now()) && Moved(old(mem), old(blocks), mem, blocks, ptr, ptr, size)
    {
      ghost var m0, bs0 := mem, blocks;
      assert ptr % 16 == 0;
      GrowInPlace(ptr - HDR, size);
      MovedInPlace(m0, bs0, mem, blocks, ptr, size);
    }
  }
}
