/** The block map of the userspace heap (userspace/libc/malloc.c): chunks tiled by blocks of a
    16-byte header and a payload. */
module MallocBlocks {

  const HDR: nat := 16
  const MIN_SPLIT: nat := 32

  /** A region from the kernel: a chunk header followed by `size` usable bytes. */
  datatype Chunk = Chunk(base: nat, size: nat)

  function Limit(c: Chunk): nat {
    c.base + HDR + c.size
  }

  /** `size` payload bytes after the header; `home` is the chunk it was cut from. */
  datatype Block = Block(size: nat, free: bool, home: Chunk)

  /** Keyed by header address. */
  type Blocks = map<nat, Block>

  function End(bs: Blocks, b: nat): nat
    requires b in bs
  {
    b + HDR + bs[b].size
  }

  // ----- Invariants

  ghost predicate Apart(bs: Blocks) {
    forall x, y | x in bs && y in bs && x < y :: End(bs, x) <= y
  }

  ghost predicate Aligned(bs: Blocks) {
    forall x | x in bs :: 0 < x && x % 16 == 0 && bs[x].size % 16 == 0
  }

  /** The block lies in its chunk, and what follows it is the chunk's end or its next block. */
  predicate Placed(bs: Blocks, cs: set<Chunk>, x: nat)
    requires x in bs
  {
    var h := bs[x].home;
    && h in cs && h.base + HDR <= x && End(bs, x) <= Limit(h)
    && (End(bs, x) == Limit(h) || (End(bs, x) in bs && bs[End(bs, x)].home == h))
  }

  ghost predicate ChunksApart(cs: set<Chunk>) {
    forall c, d | c in cs && d in cs && c != d :: Limit(c) <= d.base || Limit(d) <= c.base
  }

  /** Each chunk starts with a block. */
  ghost predicate Started(bs: Blocks, cs: set<Chunk>) {
    forall c | c in cs :: c.base + HDR in bs && bs[c.base + HDR].home == c
  }

  ghost predicate AllPlaced(bs: Blocks, cs: set<Chunk>) {
    forall x {:trigger Placed(bs, cs, x)} | x in bs :: Placed(bs, cs, x)
  }

  /** Each chunk starts with a block, and each block continues to the next or to the end. */
  ghost predicate Tiled(bs: Blocks, cs: set<Chunk>) {
    Apart(bs) && Aligned(bs) && ChunksApart(cs) && Started(bs, cs) && AllPlaced(bs, cs)
  }

  ghost predicate FreeAt(bs: Blocks, b: nat) {
    b in bs && bs[b].free
  }

  ghost predicate LiveAt(bs: Blocks, b: nat) {
    b in bs && !bs[b].free
  }

  /** The block and the one behind it are not both free. */
  ghost predicate Coalesced(bs: Blocks, x: nat)
    requires x in bs
  {
    bs[x].free ==> !FreeAt(bs, End(bs, x))
  }

  ghost predicate NoFreePair(bs: Blocks) {
    forall x {:trigger Coalesced(bs, x)} | x in bs :: Coalesced(bs, x)
  }

  // ----- The tiling is exact

  /** Every usable byte of a chunk belongs to a block. */
  lemma {:induction false} TilingCovers(bs: Blocks, cs: set<Chunk>, c: Chunk, a: nat) returns (b: nat)
    requires Tiled(bs, cs) && c in cs && c.base + HDR <= a < Limit(c)
    ensures b in bs && bs[b].home == c && b <= a < End(bs, b)
  {
    b := c.base + HDR;
    while a >= End(bs, b)
      invariant b in bs && bs[b].home == c && b <= a
      decreases a - b
    {
      assert Placed(bs, cs, b);
      b := End(bs, b);
    }
  }

  /** ... and to no other. */
  lemma {:induction false} TilingUnique(bs: Blocks, cs: set<Chunk>, x: nat, y: nat, a: nat)
    requires Tiled(bs, cs) && x in bs && y in bs && x <= a < End(bs, x) && y <= a < End(bs, y)
    ensures x == y
  {
  }

  /** The end of a chunk is never the start of a block, even if chunks are adjacent. */
  lemma {:induction false} LimitIsNoBlock(bs: Blocks, cs: set<Chunk>, c: Chunk)
    requires Tiled(bs, cs) && c in cs
    ensures Limit(c) !in bs && c.base !in bs
  {
    forall y | y in bs ensures y != Limit(c) && y != c.base {
      assert Placed(bs, cs, y);
      var d := bs[y].home;
      assert d != c ==> Limit(c) <= d.base || Limit(d) <= c.base;
    }
  }

  /** What follows a block is free only if it is a block of the same chunk. */
  lemma {:induction false} FollowerAtHome(bs: Blocks, cs: set<Chunk>, x: nat)
    requires Tiled(bs, cs) && x in bs && End(bs, x) in bs
    ensures bs[End(bs, x)].home == bs[x].home
  {
    assert Placed(bs, cs, x);
    LimitIsNoBlock(bs, cs, bs[x].home);
  }

  /** Header words never lie in a payload. */
  lemma {:induction false} HeaderOutsidePayloads(bs: Blocks, x: nat, y: nat, w: nat)
    requires Apart(bs) && x in bs && y in bs && y + HDR <= w < End(bs, y)
    ensures w != x && w != x + 8
  {
  }

  // ----- Changing the map

  function Marked(bs: Blocks, b: nat, free: bool): Blocks
    requires b in bs
  {
    bs[b := bs[b].(free := free)]
  }

  lemma {:induction false} MarkKeepsTiled(bs: Blocks, cs: set<Chunk>, b: nat, free: bool)
    requires Tiled(bs, cs) && b in bs
    ensures Tiled(Marked(bs, b, free), cs)
  {
    var us := Marked(bs, b, free);
    assert AllPlaced(us, cs) by {
      forall x | x in us ensures Placed(us, cs, x) { MarkPlaced(bs, cs, b, free, x); }
    }
    MarkApart(bs, b, free);
  }

  lemma {:induction false} MarkPlaced(bs: Blocks, cs: set<Chunk>, b: nat, free: bool, x: nat)
    requires b in bs && x in bs && Placed(bs, cs, x)
    ensures Placed(Marked(bs, b, free), cs, x)
  {
  }

  lemma {:induction false} MarkApart(bs: Blocks, b: nat, free: bool)
    requires Apart(bs) && b in bs
    ensures Apart(Marked(bs, b, free))
  {
  }

  /** `b` keeps `size` bytes; the rest becomes a free block. */
  function Split(bs: Blocks, b: nat, size: nat): Blocks
    requires b in bs && size + HDR <= bs[b].size
  {
    var rest := Block(bs[b].size - size - HDR, true, bs[b].home);
    bs[b := bs[b].(size := size)][b + HDR + size := rest]
  }

  lemma {:induction false} SplitKeepsTiled(bs: Blocks, cs: set<Chunk>, b: nat, size: nat)
    requires Tiled(bs, cs) && b in bs && size + HDR <= bs[b].size && size % 16 == 0
    ensures Tiled(Split(bs, b, size), cs) && b + HDR + size !in bs
  {
    var us, rest := Split(bs, b, size), b + HDR + size;
    assert rest !in bs;
    assert AllPlaced(us, cs) by {
      forall x | x in us ensures Placed(us, cs, x) {
        assert Placed(bs, cs, if x == rest then b else x);
        SplitPlaced(bs, cs, b, size, x);
      }
    }
    SplitApart(bs, b, size);
    SplitAligned(bs, b, size);
  }

  lemma {:induction false} SplitPlaced(bs: Blocks, cs: set<Chunk>, b: nat, size: nat, x: nat)
    requires b in bs && size + HDR <= bs[b].size && b + HDR + size !in bs
    requires (x in bs && Placed(bs, cs, x)) || (x == b + HDR + size && Placed(bs, cs, b))
    ensures Placed(Split(bs, b, size), cs, x)
  {
  }

  lemma {:induction false} SplitApart(bs: Blocks, b: nat, size: nat)
    requires Apart(bs) && b in bs && size + HDR <= bs[b].size
    ensures Apart(Split(bs, b, size))
  {
  }

  lemma {:induction false} SplitAligned(bs: Blocks, b: nat, size: nat)
    requires Aligned(bs) && b in bs && size + HDR <= bs[b].size && size % 16 == 0
    ensures Aligned(Split(bs, b, size))
  {
  }

  /** `b` swallows the block behind it. */
  function Merge(bs: Blocks, b: nat): Blocks
    requires b in bs && End(bs, b) in bs
  {
    var n := End(bs, b);
    (bs - {n})[b := bs[b].(size := bs[b].size + HDR + bs[n].size)]
  }

  lemma {:induction false} MergeKeepsTiled(bs: Blocks, cs: set<Chunk>, b: nat)
    requires Tiled(bs, cs) && b in bs && End(bs, b) in bs
    ensures Tiled(Merge(bs, b), cs)
  {
    var us, n := Merge(bs, b), End(bs, b);
    assert Placed(bs, cs, b) && Placed(bs, cs, n);
    FollowerAtHome(bs, cs, b);
    assert AllPlaced(us, cs) by {
      forall x | x in us ensures Placed(us, cs, x) {
        assert Placed(bs, cs, x);
        MergePlaced(bs, cs, b, x);
      }
    }
    MergeApart(bs, b);
    MergeAligned(bs, b);
    assert Started(us, cs) by {
      forall c | c in cs ensures c.base + HDR in us && us[c.base + HDR].home == c {
        assert c.base + HDR != n;
      }
    }
  }

  lemma {:induction false} MergePlaced(bs: Blocks, cs: set<Chunk>, b: nat, x: nat)
    requires Apart(bs) && b in bs && End(bs, b) in bs && x in Merge(bs, b)
    requires Placed(bs, cs, x) && Placed(bs, cs, End(bs, b)) && bs[End(bs, b)].home == bs[b].home
    ensures Placed(Merge(bs, b), cs, x)
  {
    var us, n := Merge(bs, b), End(bs, b);
    if x < b { assert End(bs, x) <= b; } else if x > b { assert n <= x; }
    if x == b { assert End(us, b) == End(bs, n) > n; }
  }

  lemma {:induction false} MergeApart(bs: Blocks, b: nat)
    requires Apart(bs) && b in bs && End(bs, b) in bs
    ensures Apart(Merge(bs, b))
  {
    var us, n := Merge(bs, b), End(bs, b);
    forall x, y | x in us && y in us && x < y ensures End(us, x) <= y {
      if x == b { assert n < y; assert End(bs, n) <= y; }
    }
  }

  lemma {:induction false} MergeAligned(bs: Blocks, b: nat)
    requires Aligned(bs) && b in bs && End(bs, b) in bs
    ensures Aligned(Merge(bs, b))
  {
    var n := End(bs, b);
    assert bs[n].size % 16 == 0 && bs[b].size % 16 == 0;
  }

  /** A fresh chunk holds one free block. */
  function WithChunk(bs: Blocks, c: Chunk): Blocks
    requires c.size >= HDR
  {
    bs[c.base + HDR := Block(c.size - HDR, true, c)]
  }

  ghost predicate Fresh(cs: set<Chunk>, c: Chunk) {
    && c.base % 16 == 0 && c.size % 16 == 0 && c.size >= HDR && c !in cs
    && (forall d | d in cs :: Limit(c) <= d.base || Limit(d) <= c.base)
  }

  lemma {:induction false} ChunkKeepsTiled(bs: Blocks, cs: set<Chunk>, c: Chunk)
    requires Tiled(bs, cs) && Fresh(cs, c)
    ensures c.base + HDR !in bs && Tiled(WithChunk(bs, c), cs + {c})
    ensures forall x | x in bs :: End(bs, x) != c.base + HDR
  {
    var us, b := WithChunk(bs, c), c.base + HDR;
    assert OutsideBlocks(bs, c) by {
      forall x | x in bs ensures End(bs, x) <= c.base || Limit(c) <= x {
        assert Placed(bs, cs, x);
      }
    }
    assert b !in bs;
    assert AllPlaced(us, cs + {c}) by {
      forall x | x in us ensures Placed(us, cs + {c}, x) {
        if x == b { assert End(us, b) == Limit(c); } else { assert Placed(bs, cs, x); ChunkPlaced(bs, cs, c, x); }
      }
    }
    ChunkApart(bs, c);
    ChunkStarted(bs, cs, c);
    ChunkAligned(bs, c);
  }

  lemma {:induction false} ChunkStarted(bs: Blocks, cs: set<Chunk>, c: Chunk)
    requires Started(bs, cs) && c.size >= HDR && c.base + HDR !in bs
    ensures Started(WithChunk(bs, c), cs + {c})
  {
  }

  lemma {:induction false} ChunkAligned(bs: Blocks, c: Chunk)
    requires Aligned(bs) && c.base % 16 == 0 && c.size % 16 == 0 && c.size >= HDR
    ensures Aligned(WithChunk(bs, c))
  {
  }

  /** No block reaches into the new chunk. */
  ghost predicate OutsideBlocks(bs: Blocks, c: Chunk) {
    forall x | x in bs :: End(bs, x) <= c.base || Limit(c) <= x
  }

  lemma {:induction false} ChunkPlaced(bs: Blocks, cs: set<Chunk>, c: Chunk, x: nat)
    requires c.size >= HDR && c.base + HDR !in bs && x in bs && Placed(bs, cs, x)
    ensures Placed(WithChunk(bs, c), cs + {c}, x)
  {
  }

  lemma {:induction false} ChunkApart(bs: Blocks, c: Chunk)
    requires Apart(bs) && c.size >= HDR && OutsideBlocks(bs, c)
    ensures Apart(WithChunk(bs, c))
  {
  }

  // ----- No two adjacent blocks are free

  lemma {:induction false} TakeKeepsPairs(bs: Blocks, b: nat)
    requires NoFreePair(bs) && b in bs
    ensures NoFreePair(Marked(bs, b, false))
    ensures bs[b].free ==> !FreeAt(Marked(bs, b, false), End(Marked(bs, b, false), b))
  {
    var us := Marked(bs, b, false);
    assert Coalesced(bs, b);
    forall x | x in us ensures Coalesced(us, x) { assert Coalesced(bs, x); }
  }

  /** The rest is free, so the block behind it must not be. */
  lemma {:induction false} SplitKeepsPairs(bs: Blocks, b: nat, size: nat)
    requires Apart(bs) && NoFreePair(bs) && LiveAt(bs, b) && size + HDR <= bs[b].size
    requires !FreeAt(bs, End(bs, b))
    ensures NoFreePair(Split(bs, b, size))
  {
    var us, rest := Split(bs, b, size), b + HDR + size;
    forall x | x in us ensures Coalesced(us, x) {
      if x != rest && x != b {
        assert Coalesced(bs, x);
        assert End(us, x) == End(bs, x) != rest;
      }
    }
  }

  /** A live block that swallows a free one has no free block behind it. */
  lemma {:induction false} GrowKeepsPairs(bs: Blocks, b: nat)
    requires NoFreePair(bs) && LiveAt(bs, b) && FreeAt(bs, End(bs, b))
    ensures NoFreePair(Merge(bs, b)) && !FreeAt(Merge(bs, b), End(Merge(bs, b), b))
  {
    var us, n := Merge(bs, b), End(bs, b);
    assert Coalesced(bs, n) && End(us, b) == End(bs, n);
    forall x | x in us ensures Coalesced(us, x) { assert Coalesced(bs, x); }
  }

  lemma {:induction false} ChunkKeepsPairs(bs: Blocks, c: Chunk)
    requires NoFreePair(bs) && c.size >= HDR && c.base + HDR !in bs
    requires (forall x | x in bs :: End(bs, x) != c.base + HDR) && Limit(c) !in bs
    ensures NoFreePair(WithChunk(bs, c))
  {
    var us := WithChunk(bs, c);
    forall x | x in us ensures Coalesced(us, x) { if x in bs { assert Coalesced(bs, x); } }
  }

  // ----- Releasing a block

  /** `b` is marked free and joined with a free block behind it. */
  function Forward(bs: Blocks, b: nat): Blocks
    requires b in bs
  {
    var us := Marked(bs, b, true);
    var n := End(bs, b);
    if n in bs && bs[n].free then Merge(us, b) else us
  }

  /** ... and with a free block `p` in front of it. */
  function Freed(bs: Blocks, b: nat, p: nat): Blocks
    requires b in bs
  {
    var us := Forward(bs, b);
    if p in us && us[p].free && End(us, p) == b && b in us then Merge(us, p) else us
  }

  /** Only a block that ends at `b` may have a free follower. */
  ghost predicate PairsOnlyAt(bs: Blocks, b: nat) {
    forall x {:trigger Coalesced(bs, x)} | x in bs :: Coalesced(bs, x) || End(bs, x) == b
  }

  lemma {:induction false} ForwardFacts(bs: Blocks, cs: set<Chunk>, b: nat)
    requires Tiled(bs, cs) && NoFreePair(bs) && LiveAt(bs, b)
    ensures Tiled(Forward(bs, b), cs) && FreeAt(Forward(bs, b), b) && PairsOnlyAt(Forward(bs, b), b)
  {
    MarkKeepsTiled(bs, cs, b, true);
    var us, n := Marked(bs, b, true), End(bs, b);
    if FreeAt(bs, n) { MergeKeepsTiled(us, cs, b); }
    ForwardPairs(bs, b);
  }

  lemma {:induction false} ForwardPairs(bs: Blocks, b: nat)
    requires NoFreePair(bs) && LiveAt(bs, b)
    ensures PairsOnlyAt(Forward(bs, b), b)
  {
    var us, n := Forward(bs, b), End(bs, b);
    forall x | x in us ensures Coalesced(us, x) || End(us, x) == b {
      assert Coalesced(bs, x);
      if FreeAt(bs, n) { assert Coalesced(bs, n); }
    }
  }

  lemma {:induction false} FreedFacts(bs: Blocks, cs: set<Chunk>, b: nat, p: nat)
    requires Tiled(bs, cs) && NoFreePair(bs) && LiveAt(bs, b)
    requires forall x | FreeAt(bs, x) && End(bs, x) == b :: x == p
    ensures Tiled(Freed(bs, b, p), cs) && NoFreePair(Freed(bs, b, p))
  {
    var us := Forward(bs, b);
    ForwardFacts(bs, cs, b);
    if FreeAt(us, p) && End(us, p) == b { MergeKeepsTiled(us, cs, p); }
    FreedPairs(bs, b, p);
  }

  lemma {:induction false} FreedPairs(bs: Blocks, b: nat, p: nat)
    requires Apart(bs) && NoFreePair(bs) && LiveAt(bs, b)
    requires forall x | FreeAt(bs, x) && End(bs, x) == b :: x == p
    requires PairsOnlyAt(Forward(bs, b), b) && FreeAt(Forward(bs, b), b)
    ensures NoFreePair(Freed(bs, b, p))
  {
    var us, vs := Forward(bs, b), Freed(bs, b, p);
    assert Coalesced(us, b) || End(us, b) == b;
    forall x | x in vs ensures Coalesced(vs, x) {
      assert x in us && (Coalesced(us, x) || End(us, x) == b);
      if x != b && us[x].free && End(us, x) == b {
        assert FreeAt(bs, x) && End(bs, x) == b;
        assert x == p;
      }
    }
  }

  /** Nothing but `b` and the blocks joined with it changes. */
  lemma {:induction false} FreedKeepsOthers(bs: Blocks, b: nat, p: nat, y: nat)
    requires LiveAt(bs, b) && LiveAt(bs, y) && y != b
    ensures y in Freed(bs, b, p) && Freed(bs, b, p)[y] == bs[y]
  {
  }
}
