/** The words the userspace heap keeps in memory (userspace/libc/malloc.c): block headers and
    the address-sorted free list threaded through them. All accesses are to aligned 8-byte
    words. */
module MallocMemory {
  import opened Basics
  import opened MallocBlocks

  type Memory = map<nat, nat>

  function At(m: Memory, a: nat): nat {
    if a in m then m[a] else 0
  }

  // ----- Header words

  /** Bit 0 is the free flag, the other bits are the payload size. */
  function Word(b: Block): nat {
    b.size + (if b.free then 1 else 0)
  }

  function SizeOf(w: nat): nat {
    w - w % 2
  }

  /** Every header word is right, except that the flag of block `loose` may be stale. */
  ghost predicate Stored(m: Memory, bs: Blocks, loose: nat) {
    forall x | x in bs :: At(m, x) == Word(bs[x]) || (x == loose && SizeOf(At(m, x)) == bs[x].size)
  }

  lemma {:induction false} SizeOfWord(b: Block)
    requires b.size % 16 == 0
    ensures SizeOf(Word(b)) == b.size && Word(b) % 2 == (if b.free then 1 else 0)
  {
  }

  /** The stored size is right for every block. */
  lemma {:induction false} StoredSize(m: Memory, bs: Blocks, loose: nat, b: nat)
    requires Stored(m, bs, loose) && Aligned(bs) && b in bs
    ensures SizeOf(At(m, b)) == bs[b].size
  {
    SizeOfWord(bs[b]);
  }

  // ----- Frames

  ghost predicate HeaderWord(bs: Blocks, w: nat) {
    w in bs || (w >= 8 && w - 8 in bs)
  }

  /** Only link words changed. */
  ghost predicate OnlyLinks(m: Memory, m': Memory, bs: Blocks) {
    forall w: nat | !(w >= 8 && w - 8 in bs) :: At(m', w) == At(m, w)
  }

  /** Only header words changed. */
  ghost predicate OnlyHeaders(m: Memory, m': Memory, bs: Blocks) {
    forall w: nat | !HeaderWord(bs, w) :: At(m', w) == At(m, w)
  }

  lemma {:induction false} LinkKeepsHeader(m: Memory, m': Memory, bs: Blocks, x: nat)
    requires Aligned(bs) && OnlyLinks(m, m', bs) && x in bs
    ensures At(m', x) == At(m, x)
  {
    assert x % 16 == 0;
    assert !(x >= 8 && x - 8 in bs);
  }

  lemma {:induction false} LinksKeepStored(m: Memory, m': Memory, bs: Blocks, loose: nat)
    requires Stored(m, bs, loose) && Aligned(bs) && OnlyLinks(m, m', bs)
    ensures Stored(m', bs, loose)
  {
    forall x | x in bs ensures At(m', x) == Word(bs[x]) || (x == loose && SizeOf(At(m', x)) == bs[x].size) {
      LinkKeepsHeader(m, m', bs, x);
    }
  }

  // ----- The payload of a block

  ghost predicate SamePayload(m: Memory, m': Memory, b: nat, size: nat) {
    forall w: nat | b + HDR <= w < b + HDR + size :: At(m', w) == At(m, w)
  }

  /** Every live block but `except` is still there with its contents. */
  ghost predicate KeepsLive(m: Memory, bs: Blocks, m': Memory, bs': Blocks, except: nat) {
    forall y | LiveAt(bs, y) && y != except ::
      y in bs' && bs'[y] == bs[y] && SamePayload(m, m', y, bs[y].size)
  }

  lemma {:induction false} HeadersKeepPayload(m: Memory, m': Memory, bs: Blocks, y: nat)
    requires Apart(bs) && OnlyHeaders(m, m', bs) && y in bs
    ensures SamePayload(m, m', y, bs[y].size)
  {
    forall w: nat | y + HDR <= w < End(bs, y) ensures !HeaderWord(bs, w) {
      forall x | x in bs ensures w != x && w != x + 8 { HeaderOutsidePayloads(bs, x, y, w); }
    }
  }

  lemma {:induction false} KeepsLiveTrans(m0: Memory, bs0: Blocks, m1: Memory, bs1: Blocks, m2: Memory, bs2: Blocks,
                                          except: nat)
    requires KeepsLive(m0, bs0, m1, bs1, except) && KeepsLive(m1, bs1, m2, bs2, except)
    ensures KeepsLive(m0, bs0, m2, bs2, except)
  {
    forall y | LiveAt(bs0, y) && y != except
      ensures y in bs2 && bs2[y] == bs0[y] && SamePayload(m0, m2, y, bs0[y].size)
    {
      assert LiveAt(bs1, y);
    }
  }

  // ----- The free list

  function Nth(list: seq<nat>, i: nat): nat {
    if i < |list| then list[i] else 0
  }

  ghost predicate Sorted(list: seq<nat>) {
    forall i, j | 0 <= i < j < |list| :: list[i] < list[j]
  }

  predicate LinkAt(m: Memory, list: seq<nat>, i: nat)
    requires i < |list|
  {
    At(m, list[i] + 8) == Nth(list, i + 1)
  }

  ghost predicate Linked(m: Memory, head: nat, list: seq<nat>) {
    head == Nth(list, 0) && forall i {:trigger LinkAt(m, list, i)} | 0 <= i < |list| :: LinkAt(m, list, i)
  }

  /** Exactly the free blocks, in address order. */
  ghost predicate IsFreeList(bs: Blocks, list: seq<nat>) {
    Sorted(list) && forall x :: x in list <==> FreeAt(bs, x)
  }

  /** The word that holds the pointer to element `i`: 0 stands for the list head. */
  function Slot(list: seq<nat>, i: nat): nat
    requires i <= |list|
  {
    if i == 0 then 0 else list[i - 1] + 8
  }

  function InsertAt(list: seq<nat>, i: nat, b: nat): seq<nat>
    requires i <= |list|
  {
    list[..i] + [b] + list[i..]
  }

  lemma {:induction false} InsertLinked(m: Memory, head: nat, list: seq<nat>, i: nat, b: nat)
    requires Linked(m, head, list) && Sorted(list) && i <= |list| && b !in list
    ensures var m1 := m[b + 8 := Nth(list, i)];
            Linked(if i == 0 then m1 else m1[Slot(list, i) := b], if i == 0 then b else head, InsertAt(list, i, b))
  {
    var us := InsertAt(list, i, b);
    var m1 := m[b + 8 := Nth(list, i)];
    var m2 := if i == 0 then m1 else m1[Slot(list, i) := b];
    forall k | 0 <= k < |us| ensures LinkAt(m2, us, k) {
      if k != i { assert LinkAt(m, list, if k < i then k else k - 1); }
      if k < i {
        assert us[k] == list[k] != b;
        if k < i - 1 { assert list[k] != list[i - 1]; }
      } else if k > i {
        assert us[k] == list[k - 1] != b;
        if i > 0 { assert list[i - 1] != list[k - 1]; }
      }
    }
  }

  lemma {:induction false} RemoveLinked(m: Memory, head: nat, list: seq<nat>, i: nat)
    requires Linked(m, head, list) && Sorted(list) && i < |list|
    ensures Linked(if i == 0 then m else m[Slot(list, i) := Nth(list, i + 1)],
                   if i == 0 then Nth(list, 1) else head, RemoveAt(list, i))
  {
    var us := RemoveAt(list, i);
    var m' := if i == 0 then m else m[Slot(list, i) := Nth(list, i + 1)];
    forall k | 0 <= k < |us| ensures LinkAt(m', us, k) {
      var k' := if k < i then k else k + 1;
      assert LinkAt(m, list, k');
      assert us[k] == list[k'];
      if i > 0 && k' != i - 1 { assert list[k'] != list[i - 1]; }
    }
  }

  lemma {:induction false} InsertMembers(list: seq<nat>, i: nat, b: nat)
    requires Sorted(list) && i <= |list|
    requires (forall k | 0 <= k < i :: list[k] < b) && (forall k | i <= k < |list| :: b < list[k])
    ensures Sorted(InsertAt(list, i, b)) && InsertAt(list, i, b)[i] == b
    ensures forall x :: x in InsertAt(list, i, b) <==> x in list || x == b
  {
    var us := InsertAt(list, i, b);
    assert us[i] == b;
    forall x ensures x in us <==> x in list || x == b {
      if x in list { assert list == list[..i] + list[i..]; }
    }
  }

  lemma {:induction false} RemoveMembers(list: seq<nat>, i: nat)
    requires Sorted(list) && i < |list|
    ensures Sorted(RemoveAt(list, i))
    ensures forall x :: x in RemoveAt(list, i) <==> x in list && x != list[i]
  {
    var us := RemoveAt(list, i);
    assert forall k | 0 <= k < |us| :: us[k] == list[if k < i then k else k + 1];
    forall x ensures x in us <==> x in list && x != list[i] {
      if x in list && x != list[i] {
        var k :| 0 <= k < |list| && list[k] == x;
        assert us[if k < i then k else k - 1] == x;
      }
    }
  }

  /** A free block that ends where a free block starts is right before it in the list. */
  lemma {:induction false} NextInList(bs: Blocks, list: seq<nat>, i: nat)
    requires Apart(bs) && IsFreeList(bs, list) && i < |list|
    ensures list[i] in bs
    ensures FreeAt(bs, End(bs, list[i])) <==> i + 1 < |list| && list[i + 1] == End(bs, list[i])
  {
    assert FreeAt(bs, list[i]);
    var n := End(bs, list[i]);
    if i + 1 < |list| { assert FreeAt(bs, list[i + 1]) && n <= list[i + 1]; }
    if FreeAt(bs, n) {
      var k :| 0 <= k < |list| && list[k] == n;
      assert i + 1 <= k;
    }
  }

  // ----- The chunk list

  predicate ChunkAt(m: Memory, cs: seq<Chunk>, i: nat)
    requires i < |cs|
  {
    && At(m, cs[i].base) == (if i + 1 < |cs| then cs[i + 1].base else 0)
    && At(m, cs[i].base + 8) == cs[i].size
  }

  ghost predicate ChunksStored(m: Memory, head: nat, cs: seq<Chunk>) {
    && head == (if cs == [] then 0 else cs[0].base)
    && forall i {:trigger ChunkAt(m, cs, i)} | 0 <= i < |cs| :: ChunkAt(m, cs, i)
  }

  function Homes(cs: seq<Chunk>): set<Chunk> {
    set c | c in cs
  }

  lemma {:induction false} HeadersKeepChunks(m: Memory, m': Memory, bs: Blocks, head: nat, cs: seq<Chunk>)
    requires ChunksStored(m, head, cs) && Tiled(bs, Homes(cs)) && OnlyHeaders(m, m', bs)
    ensures ChunksStored(m', head, cs)
  {
    forall i | 0 <= i < |cs| ensures ChunkAt(m', cs, i) {
      assert ChunkAt(m, cs, i);
      ChunkHeaderIsNoBlock(bs, Homes(cs), cs[i]);
    }
  }

  lemma {:induction false} ChunkHeaderIsNoBlock(bs: Blocks, cs: set<Chunk>, c: Chunk)
    requires Tiled(bs, cs) && c in cs
    ensures !HeaderWord(bs, c.base) && !HeaderWord(bs, c.base + 8)
  {
    LimitIsNoBlock(bs, cs, c);
    assert (c.base + HDR) % 16 == 0;
  }
}
