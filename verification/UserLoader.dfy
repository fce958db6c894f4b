/** Loading a user image (kernel/src/loader/user_loader.rs): parsing its segments, staging
    them, relocating, and sharing read-only chunks with later loads. Fixed-size records decoded
    from the file (relocations, symbols, names) are functions of a file offset; running out of
    memory while committing chunks is not part of this model. */
module UserLoader {
  import opened Basics

  const PAGE_SIZE: nat := 4096
  const WORD: nat := 0x1_0000_0000_0000_0000

  // ----- The file

  datatype Header = Load(offset: nat, fileSize: nat, vaddr: nat, memSize: nat, align: nat, writable: bool) | Other

  datatype Rela = Rela(target: nat, kind: nat, symbol: nat, addend: int)

  datatype Symbol = Symbol(defined: bool, value: nat, name: nat)

  datatype File = File(
    bytes: seq<Byte>,
    relaAt: nat -> Rela,
    symbolAt: nat -> Symbol,
    nameAt: nat -> string)

  /** Page-aligned into a chunk for mapping. */
  datatype Segment = Segment(fileOff: nat, fileSize: nat, vaddr: nat, memSize: nat, writable: bool, chunkOff: nat, chunkSize: nat)

  function AlignDown(a: nat): nat {
    a - a % PAGE_SIZE
  }

  function AlignUp(a: nat): nat {
    AlignDown(a + PAGE_SIZE - 1)
  }

  function ChunkEnd(s: Segment): nat {
    s.chunkOff + s.chunkSize
  }

  function ToSegment(h: Header): (s: Segment)
    requires h.Load?
    ensures InChunk(s)
  {
    var off := AlignDown(h.vaddr);
    Segment(h.offset, h.fileSize, h.vaddr, h.memSize, h.writable, off, AlignUp(h.vaddr + h.memSize) - off)
  }

  /** The segment lies in a page-aligned chunk. */
  predicate InChunk(s: Segment) {
    && s.chunkOff % PAGE_SIZE == 0 && s.chunkSize % PAGE_SIZE == 0
    && s.chunkOff <= s.vaddr && s.vaddr + s.memSize <= ChunkEnd(s)
  }

  // ----- Parsing

  predicate HeaderOk(h: Header, len: nat) {
    h.Load? ==> h.align <= PAGE_SIZE && h.offset + h.fileSize <= len
  }

  function Segments(hs: seq<Header>): seq<Segment> {
    if hs == [] then []
    else Segments(hs[..|hs| - 1]) + (if hs[|hs| - 1].Load? then [ToSegment(hs[|hs| - 1])] else [])
  }

  /** Stable insertion: after the segments that start no later. */
  function Insert(ss: seq<Segment>, s: Segment): seq<Segment> {
    if ss == [] || ss[|ss| - 1].chunkOff <= s.chunkOff then ss + [s]
    else Insert(ss[..|ss| - 1], s) + [ss[|ss| - 1]]
  }

  function SortByChunk(ss: seq<Segment>): seq<Segment> {
    if ss == [] then [] else Insert(SortByChunk(ss[..|ss| - 1]), ss[|ss| - 1])
  }

  predicate WindowsOk(ss: seq<Segment>) {
    forall i | 0 <= i < |ss| - 1 :: ChunkEnd(ss[i]) <= ss[i + 1].chunkOff
  }

  function Parse(hs: seq<Header>, len: nat): Option<seq<Segment>> {
    var ss := SortByChunk(Segments(hs));
    if (forall i | 0 <= i < |hs| :: HeaderOk(hs[i], len)) && ss != [] && WindowsOk(ss) then Some(ss) else None
  }

  predicate Sorted(ss: seq<Segment>) {
    forall i, j | 0 <= i < j < |ss| :: ss[i].chunkOff <= ss[j].chunkOff
  }

  predicate Apart(s: Segment, t: Segment) {
    ChunkEnd(s) <= t.chunkOff || ChunkEnd(t) <= s.chunkOff
  }

  predicate Disjoint(ss: seq<Segment>) {
    forall i, j | 0 <= i < j < |ss| :: Apart(ss[i], ss[j])
  }

  /** Sorted, disjoint, page-aligned, each inside the file. */
  predicate Accepted(ss: seq<Segment>, len: nat) {
    && Sorted(ss) && Disjoint(ss)
    && forall i | 0 <= i < |ss| :: InChunk(ss[i]) && ss[i].fileOff + ss[i].fileSize <= len
  }

  lemma {:induction false} InsertFacts(ss: seq<Segment>, s: Segment)
    ensures multiset(Insert(ss, s)) == multiset(ss) + multiset{s}
    ensures Sorted(ss) ==> Sorted(Insert(ss, s))
    ensures |Insert(ss, s)| == |ss| + 1
  {
    if !(ss == [] || ss[|ss| - 1].chunkOff <= s.chunkOff) {
      var rest, last := ss[..|ss| - 1], ss[|ss| - 1];
      InsertFacts(rest, s);
      assert ss == rest + [last];
      var us := Insert(rest, s);
      if Sorted(ss) {
        forall i | 0 <= i < |us| ensures us[i].chunkOff <= last.chunkOff {
          assert us[i] in multiset(us);
          assert us[i] in rest || us[i] == s;
        }
      }
    }
  }

  lemma {:induction false} SortFacts(ss: seq<Segment>)
    ensures Sorted(SortByChunk(ss)) && multiset(SortByChunk(ss)) == multiset(ss) && |SortByChunk(ss)| == |ss|
  {
    if ss != [] {
      SortFacts(ss[..|ss| - 1]);
      InsertFacts(SortByChunk(ss[..|ss| - 1]), ss[|ss| - 1]);
      assert ss == ss[..|ss| - 1] + [ss[|ss| - 1]];
    }
  }

  /** Checking neighbours is enough once the segments are sorted. */
  lemma {:induction false} WindowsMeanDisjoint(ss: seq<Segment>, i: nat, j: nat)
    requires WindowsOk(ss) && i < j < |ss|
    ensures ChunkEnd(ss[i]) <= ss[j].chunkOff
    decreases j
  {
    if i < j - 1 { WindowsMeanDisjoint(ss, i, j - 1); }
  }

  lemma {:induction false} SegmentsFrom(hs: seq<Header>, s: Segment, len: nat)
    requires (forall i | 0 <= i < |hs| :: HeaderOk(hs[i], len)) && s in Segments(hs)
    ensures InChunk(s) && s.fileOff + s.fileSize <= len
  {
    var last := hs[|hs| - 1];
    if s in Segments(hs[..|hs| - 1]) { SegmentsFrom(hs[..|hs| - 1], s, len); } else { assert HeaderOk(last, len); }
  }

  /** An accepted image has sorted, disjoint, page-aligned chunks, one per loadable header. */
  lemma {:induction false} ParseAccepts(hs: seq<Header>, len: nat)
    requires Parse(hs, len).Some?
    ensures var ss := Parse(hs, len).value;
            Accepted(ss, len) && ss != [] && multiset(ss) == multiset(Segments(hs))
  {
    var ss := Parse(hs, len).value;
    SortFacts(Segments(hs));
    forall i, j | 0 <= i < j < |ss| ensures Apart(ss[i], ss[j]) { WindowsMeanDisjoint(ss, i, j); }
    forall i | 0 <= i < |ss| ensures InChunk(ss[i]) && ss[i].fileOff + ss[i].fileSize <= len {
      assert ss[i] in multiset(ss);
      SegmentsFrom(hs, ss[i], len);
    }
  }

  /** The segment is the header's, in the smallest run of whole pages around it. */
  predicate Describes(s: Segment, h: Header) {
    && h.Load? && s.fileOff == h.offset && s.fileSize == h.fileSize && s.vaddr == h.vaddr && s.memSize == h.memSize
    && s.writable == h.writable
    && s.chunkOff % 0x1000 == 0 && s.chunkOff <= h.vaddr < s.chunkOff + 0x1000
    && ChunkEnd(s) % 0x1000 == 0 && h.vaddr + h.memSize <= ChunkEnd(s) < h.vaddr + h.memSize + 0x1000
  }

  ghost predicate FromHeader(s: Segment, hs: seq<Header>) {
    exists i :: 0 <= i < |hs| && Describes(s, hs[i])
  }

  ghost predicate HasSegment(ss: seq<Segment>, h: Header) {
    exists s :: s in ss && Describes(s, h)
  }

  lemma {:induction false} SegmentHasHeader(hs: seq<Header>, s: Segment)
    requires s in Segments(hs)
    ensures FromHeader(s, hs)
  {
    var front, last := hs[..|hs| - 1], hs[|hs| - 1];
    if s in Segments(front) {
      SegmentHasHeader(front, s);
      var i :| 0 <= i < |front| && Describes(s, front[i]);
      assert hs[i] == front[i];
    } else {
      assert Describes(s, hs[|hs| - 1]);
    }
  }

  lemma {:induction false} HeaderHasSegment(hs: seq<Header>, i: nat)
    requires i < |hs| && hs[i].Load?
    ensures HasSegment(Segments(hs), hs[i])
  {
    var front, last := hs[..|hs| - 1], hs[|hs| - 1];
    if i < |front| {
      HeaderHasSegment(front, i);
      var s :| s in Segments(front) && Describes(s, front[i]);
      assert s in Segments(hs);
    } else {
      assert ToSegment(last) in Segments(hs) && Describes(ToSegment(last), hs[i]);
    }
  }

  lemma {:induction false} SameElements(a: seq<Segment>, b: seq<Segment>, s: Segment)
    requires multiset(a) == multiset(b)
    ensures s in a <==> s in b
  {
    assert s in a <==> s in multiset(a);
    assert s in b <==> s in multiset(b);
  }

  /** The segments of an accepted image are those of its loadable headers. */
  lemma {:induction false} ParsedDescribe(hs: seq<Header>, len: nat)
    requires Parse(hs, len).Some?
    ensures forall s :: s in Parse(hs, len).value ==> FromHeader(s, hs)
    ensures forall i | 0 <= i < |hs| && hs[i].Load? :: HasSegment(Parse(hs, len).value, hs[i])
  {
    var ss := Parse(hs, len).value;
    SortFacts(Segments(hs));
    forall s | s in ss ensures FromHeader(s, hs) {
      SameElements(ss, Segments(hs), s);
      SegmentHasHeader(hs, s);
    }
    forall i | 0 <= i < |hs| && hs[i].Load? ensures HasSegment(ss, hs[i]) {
      HeaderHasSegment(hs, i);
      var s :| s in Segments(hs) && Describes(s, hs[i]);
      SameElements(ss, Segments(hs), s);
    }
  }

  /** Some header is loadable. */
  predicate Loadable(hs: seq<Header>) {
    exists i | 0 <= i < |hs| :: hs[i].Load?
  }

  lemma {:induction false} LoadableIff(hs: seq<Header>)
    ensures Segments(hs) != [] <==> Loadable(hs)
  {
    if Segments(hs) != [] {
      SegmentHasHeader(hs, Segments(hs)[0]);
      var i :| 0 <= i < |hs| && Describes(Segments(hs)[0], hs[i]);
      assert hs[i].Load?;
    }
    if Loadable(hs) {
      var i :| 0 <= i < |hs| && hs[i].Load?;
      HeaderHasSegment(hs, i);
    }
  }

  /** Alignments of at most a page, and every file part inside the file. */
  predicate Supported(hs: seq<Header>, len: nat) {
    forall i | 0 <= i < |hs| && hs[i].Load? :: hs[i].align <= 0x1000 && hs[i].offset + hs[i].fileSize <= len
  }

  lemma {:induction false} SupportedIff(hs: seq<Header>, len: nat)
    ensures Supported(hs, len) <==> forall i | 0 <= i < |hs| :: HeaderOk(hs[i], len)
  {
    if Supported(hs, len) {
      forall i | 0 <= i < |hs| ensures HeaderOk(hs[i], len) { }
    }
    if forall i | 0 <= i < |hs| :: HeaderOk(hs[i], len) {
      forall i | 0 <= i < |hs| && hs[i].Load? ensures hs[i].align <= 0x1000 && hs[i].offset + hs[i].fileSize <= len {
        assert HeaderOk(hs[i], len);
      }
    }
  }

  // ----- What the layout check accepts

  /** With `s` before `t`: the chunks are disjoint, and of two that start together the first is
      empty. */
  predicate Precedes(s: Segment, t: Segment) {
    Apart(s, t) && (s.chunkOff == t.chunkOff ==> s.chunkSize == 0)
  }

  predicate AllPrecede(ss: seq<Segment>, t: Segment) {
    forall i | 0 <= i < |ss| :: Precedes(ss[i], t)
  }

  /** No two chunks overlap, and an empty one is listed before another with the same start. */
  predicate LaidOut(ss: seq<Segment>) {
    forall i, j | 0 <= i < j < |ss| :: Precedes(ss[i], ss[j])
  }

  lemma {:induction false} LaidOutAppend(ss: seq<Segment>, t: Segment)
    ensures LaidOut(ss + [t]) <==> LaidOut(ss) && AllPrecede(ss, t)
  {
    var us := ss + [t];
    assert us[|ss|] == t;
    if LaidOut(us) {
      forall i | 0 <= i < |ss| ensures Precedes(ss[i], t) { assert us[i] == ss[i]; }
      forall i, j | 0 <= i < j < |ss| ensures Precedes(ss[i], ss[j]) { assert us[i] == ss[i] && us[j] == ss[j]; }
    }
  }

  lemma {:induction false} AllPrecedeAppend(ss: seq<Segment>, s: Segment, t: Segment)
    ensures AllPrecede(ss + [s], t) <==> AllPrecede(ss, t) && Precedes(s, t)
  {
    var us := ss + [s];
    assert us[|ss|] == s && forall i | 0 <= i < |ss| :: us[i] == ss[i];
  }

  /** Sorting is stable, so it neither makes nor hides a conflict. */
  lemma {:induction false} InsertKeepsLayout(ss: seq<Segment>, s: Segment, t: Segment)
    ensures LaidOut(Insert(ss, s)) <==> LaidOut(ss) && AllPrecede(ss, s)
    ensures AllPrecede(Insert(ss, s), t) <==> AllPrecede(ss, t) && Precedes(s, t)
  {
    if ss == [] || ss[|ss| - 1].chunkOff <= s.chunkOff {
      LaidOutAppend(ss, s);
      AllPrecedeAppend(ss, s, t);
    } else {
      var front, last := ss[..|ss| - 1], ss[|ss| - 1];
      assert ss == front + [last];
      InsertKeepsLayout(front, s, last);
      InsertKeepsLayout(front, s, t);
      LaidOutAppend(Insert(front, s), last);
      LaidOutAppend(front, last);
      AllPrecedeAppend(front, last, s);
      AllPrecedeAppend(Insert(front, s), last, t);
      AllPrecedeAppend(front, last, t);
    }
  }

  lemma {:induction false} SortKeepsLayout(ss: seq<Segment>, t: Segment)
    ensures LaidOut(SortByChunk(ss)) <==> LaidOut(ss)
    ensures AllPrecede(SortByChunk(ss), t) <==> AllPrecede(ss, t)
  {
    if ss != [] {
      var front, last := ss[..|ss| - 1], ss[|ss| - 1];
      assert ss == front + [last];
      SortKeepsLayout(front, last);
      SortKeepsLayout(front, t);
      InsertKeepsLayout(SortByChunk(front), last, t);
      LaidOutAppend(front, last);
      AllPrecedeAppend(front, last, t);
    }
  }

  /** On sorted segments the check of neighbours is the layout condition. */
  lemma {:induction false} WindowsOkIff(ss: seq<Segment>)
    requires Sorted(ss)
    ensures WindowsOk(ss) <==> LaidOut(ss)
  {
    if WindowsOk(ss) {
      forall i, j | 0 <= i < j < |ss| ensures Precedes(ss[i], ss[j]) { WindowsMeanDisjoint(ss, i, j); }
    }
    if LaidOut(ss) {
      forall i | 0 <= i < |ss| - 1 ensures ChunkEnd(ss[i]) <= ss[i + 1].chunkOff {
        assert Precedes(ss[i], ss[i + 1]) && ss[i].chunkOff <= ss[i + 1].chunkOff;
      }
    }
  }

  /** An image is accepted exactly when every loadable header is supported and inside the file,
      there is one, and their chunks, in header order, are laid out without conflict. */
  lemma {:induction false} ParseAcceptsIff(hs: seq<Header>, len: nat)
    ensures Parse(hs, len).Some? <==> Supported(hs, len) && Loadable(hs) && LaidOut(Segments(hs))
  {
    var ss := Segments(hs);
    SupportedIff(hs, len);
    LoadableIff(hs);
    SortFacts(ss);
    WindowsOkIff(SortByChunk(ss));
    if ss != [] { SortKeepsLayout(ss, ss[0]); }
  }

  lemma {:induction false} TwoSegments(a: Header, b: Header)
    requires a.Load? && b.Load?
    ensures Segments([a, b]) == [ToSegment(a), ToSegment(b)]
  {
    assert [a, b][..1] == [a] && [a][..0] == [];
    assert Segments([a]) == [] + [ToSegment(a)];
    assert Segments([a, b]) == Segments([a]) + [ToSegment(b)];
  }

  /** The order of the headers decides: an empty segment that starts where another does is
      accepted before it and refused after it, although nothing overlaps either way. */
  lemma {:induction false} EmptySegmentOrder(a: Header, b: Header, len: nat)
    requires a.Load? && b.Load? && HeaderOk(a, len) && HeaderOk(b, len)
    requires ToSegment(a).chunkOff == ToSegment(b).chunkOff && ToSegment(a).chunkSize > 0 && ToSegment(b).chunkSize == 0
    ensures Parse([a, b], len) == None && Parse([b, a], len).Some? && Apart(ToSegment(a), ToSegment(b))
  {
    TwoSegments(a, b);
    TwoSegments(b, a);
    ParseAcceptsIff([a, b], len);
    ParseAcceptsIff([b, a], len);
    var ss := Segments([a, b]);
    assert !Precedes(ss[0], ss[1]);
  }

  /** The loop over the program headers. */
  method CollectSegments(hs: seq<Header>, len: nat) returns (r: Option<seq<Segment>>)
    ensures r == if forall i | 0 <= i < |hs| :: HeaderOk(hs[i], len) then Some(Segments(hs)) else None
  {
    var segments := [];
    for i := 0 to |hs|
      invariant segments == Segments(hs[..i]) && forall k | 0 <= k < i :: HeaderOk(hs[k], len)
    {
      assert hs[..i + 1][..i] == hs[..i];
      if hs[i].Load? {
        if hs[i].align > PAGE_SIZE { return None; }
        if hs[i].offset + hs[i].fileSize > len { return None; }
        segments := segments + [ToSegment(hs[i])];
      }
    }
    assert hs[..|hs|] == hs;
    r := Some(segments);
  }

  /** The loop over neighbouring segments. */
  method CheckWindows(segments: seq<Segment>) returns (ok: bool)
    ensures ok == WindowsOk(segments)
  {
    for i := 0 to |segments|
      invariant forall k | 0 <= k < i && k < |segments| - 1 :: ChunkEnd(segments[k]) <= segments[k + 1].chunkOff
    {
      if i + 1 < |segments| && segments[i].chunkOff + segments[i].chunkSize > segments[i + 1].chunkOff { return false; }
    }
    ok := true;
  }

  method ParseUserElf(hs: seq<Header>, len: nat) returns (r: Option<seq<Segment>>)
    ensures r == Parse(hs, len)
  {
    var collected := CollectSegments(hs, len);
    if collected.None? { return None; }
    SortFacts(collected.value);
    if collected.value == [] { return None; }
    var segments := SortByChunk(collected.value);
    var ok := CheckWindows(segments);
    r := if ok then Some(segments) else None;
  }

  // ----- Staging

  datatype Chunk = Chunk(offset: nat, writable: bool, data: seq<Byte>)

  function Zeros(n: nat): seq<Byte> {
    seq(n, _ => 0)
  }

  /** The file part fits in the chunk; copying it would fault otherwise. */
  predicate Fits(s: Segment) {
    s.chunkOff <= s.vaddr && s.vaddr + s.fileSize <= ChunkEnd(s)
  }

  function StageOne(s: Segment, bytes: seq<Byte>): (c: Chunk)
    requires Fits(s) && s.fileOff + s.fileSize <= |bytes|
    ensures c.offset == s.chunkOff && |c.data| == s.chunkSize && c.writable == s.writable
  {
    var front := s.vaddr - s.chunkOff;
    var data := Zeros(front) + bytes[s.fileOff..s.fileOff + s.fileSize] + Zeros(s.chunkSize - front - s.fileSize);
    Chunk(s.chunkOff, s.writable, data)
  }

  /** The staged chunk is the memory image: file bytes at their addresses, zeros elsewhere. */
  lemma {:induction false} StagedByte(s: Segment, bytes: seq<Byte>, a: nat)
    requires Fits(s) && s.fileOff + s.fileSize <= |bytes| && s.chunkOff <= a < ChunkEnd(s)
    ensures StageOne(s, bytes).data[a - s.chunkOff] ==
            if s.vaddr <= a < s.vaddr + s.fileSize then bytes[s.fileOff + (a - s.vaddr)] else 0
  {
    var front, k := s.vaddr - s.chunkOff, a - s.chunkOff;
    var mid := bytes[s.fileOff..s.fileOff + s.fileSize];
    if front <= k < front + s.fileSize { assert StageOne(s, bytes).data[k] == mid[k - front]; }
  }

  predicate Stageable(ss: seq<Segment>, len: nat) {
    forall i | 0 <= i < |ss| :: Fits(ss[i]) && ss[i].fileOff + ss[i].fileSize <= len
  }

  /** All chunks on a cold load, only the writable ones on a warm load. */
  function Wanted(ss: seq<Segment>, cold: bool): seq<Segment> {
    if ss == [] then []
    else if cold || ss[0].writable then [ss[0]] + Wanted(ss[1..], cold)
    else Wanted(ss[1..], cold)
  }

  function Staged(ss: seq<Segment>, bytes: seq<Byte>): (cs: seq<Chunk>)
    requires Stageable(ss, |bytes|)
    ensures |cs| == |ss|
  {
    if ss == [] then [] else [StageOne(ss[0], bytes)] + Staged(ss[1..], bytes)
  }

  // ----- Relocation

  const R_X86_64_64: nat := 1
  const R_GLOB_DAT: nat := 6
  const R_JUMP_SLOT: nat := 7
  const R_RELATIVE: nat := 8
  const RELA_SIZE: nat := 24
  const SYM_SIZE: nat := 24

  /** Where the image is loaded, and what its dependencies export. */
  datatype Env = Env(base: nat, imports: string -> Option<nat>)

  datatype Tables = Tables(symtab: Option<nat>, strtab: Option<nat>)

  datatype Patch = Skip | Bad | Write(value: nat)

  function Resolve(file: File, env: Env, t: Tables, index: nat): Option<nat> {
    if t.symtab.None? then None
    else
      var sym := file.symbolAt(t.symtab.value + index * SYM_SIZE);
      if sym.defined then Some(env.base + sym.value)
      else if t.strtab.None? then None
      else env.imports(file.nameAt(t.strtab.value + sym.name))
  }

  /** The word a relocation stores; unknown kinds are skipped. */
  function PatchOf(file: File, env: Env, t: Tables, e: Rela): Patch {
    if e.kind == R_RELATIVE then Write((env.base + e.addend) % WORD)
    else if e.kind == R_X86_64_64 || e.kind == R_GLOB_DAT || e.kind == R_JUMP_SLOT then
      match Resolve(file, env, t, e.symbol)
      case None => Bad
      case Some(v) => Write((if e.kind == R_JUMP_SLOT then v else v + e.addend) % WORD)
    else Skip
  }

  /** The low `n` bytes of `v`, little-endian. */
  function LowBytes(v: nat, n: nat): (b: seq<Byte>)
    ensures |b| == n
  {
    if n == 0 then [] else [v % 256] + LowBytes(v / 256, n - 1)
  }

  function FromBytes(b: seq<Byte>): nat {
    if b == [] then 0 else b[0] + 256 * FromBytes(b[1..])
  }

  function Pow256(n: nat): nat {
    if n == 0 then 1 else 256 * Pow256(n - 1)
  }

  lemma {:induction false} BytesRoundTrip(v: nat, n: nat)
    requires v < Pow256(n)
    ensures FromBytes(LowBytes(v, n)) == v
  {
    if n > 0 {
      BytesRoundTrip(v / 256, n - 1);
      assert LowBytes(v, n)[1..] == LowBytes(v / 256, n - 1);
    }
  }

  predicate HoldsWord(c: Chunk, va: nat) {
    c.offset <= va && va + 8 <= c.offset + |c.data|
  }

  function Patched(c: Chunk, va: nat, v: nat): (r: Chunk)
    requires HoldsWord(c, va)
    ensures r.offset == c.offset && r.writable == c.writable && |r.data| == |c.data|
  {
    var off := va - c.offset;
    c.(data := c.data[..off] + LowBytes(v, 8) + c.data[off + 8..])
  }

  /** Stores a word in the first chunk that holds it. */
  function Store(cs: seq<Chunk>, va: nat, v: nat): Option<seq<Chunk>> {
    if cs == [] then None
    else if HoldsWord(cs[0], va) then Some([Patched(cs[0], va, v)] + cs[1..])
    else match Store(cs[1..], va, v)
      case None => None
      case Some(rest) => Some([cs[0]] + rest)
  }

  function FirstHolder(cs: seq<Chunk>, va: nat): (i: nat)
    ensures i <= |cs| && (i < |cs| ==> HoldsWord(cs[i], va)) && forall k | 0 <= k < i :: !HoldsWord(cs[k], va)
  {
    if cs == [] || HoldsWord(cs[0], va) then 0 else 1 + FirstHolder(cs[1..], va)
  }

  /** A store changes one chunk, and there exactly the eight bytes at `va`, which then read back
      as the stored word. */
  lemma {:induction false} StoreReadsBack(cs: seq<Chunk>, va: nat, v: nat)
    requires v < WORD
    ensures Store(cs, va, v).Some? <==> FirstHolder(cs, va) < |cs|
    ensures Store(cs, va, v).Some? ==>
              var i := FirstHolder(cs, va);
              var c, off := Patched(cs[i], va, v), va - cs[i].offset;
              && Store(cs, va, v).value == cs[i := c]
              && FromBytes(c.data[off..off + 8]) == v
              && c.data[..off] == cs[i].data[..off] && c.data[off + 8..] == cs[i].data[off + 8..]
  {
    if cs != [] {
      if HoldsWord(cs[0], va) {
        var c, off := Patched(cs[0], va, v), va - cs[0].offset;
        assert c.data[off..off + 8] == LowBytes(v, 8);
        WordIsEightBytes();
        BytesRoundTrip(v, 8);
        assert [c] + cs[1..] == cs[0 := c];
      } else {
        StoreReadsBack(cs[1..], va, v);
        if Store(cs, va, v).Some? {
          var i := FirstHolder(cs[1..], va);
          var c := Patched(cs[1..][i], va, v);
          assert [cs[0]] + cs[1..][i := c] == cs[i + 1 := c];
        }
      }
    }
  }

  lemma {:induction false} WordIsEightBytes()
    ensures Pow256(8) == WORD
  {
    assert Pow256(2) == 0x1_0000 && Pow256(4) == 0x1_0000_0000 && Pow256(6) == 0x1_0000_0000_0000;
  }

  function SegmentFor(ss: seq<Segment>, va: nat): (i: nat)
    ensures i <= |ss| && (i < |ss| ==> ss[i].vaddr <= va < ss[i].vaddr + ss[i].memSize)
  {
    if ss == [] || ss[0].vaddr <= va < ss[0].vaddr + ss[0].memSize then 0 else 1 + SegmentFor(ss[1..], va)
  }

  function RelocateOne(ss: seq<Segment>, file: File, env: Env, t: Tables, cs: seq<Chunk>, e: Rela): Option<seq<Chunk>> {
    var i := SegmentFor(ss, e.target);
    if i == |ss| || !ss[i].writable then None
    else match PatchOf(file, env, t, e)
      case Skip => Some(cs)
      case Bad => None
      case Write(v) => Store(cs, e.target, v)
  }

  function Entry(file: File, off: nat, k: nat): Rela {
    file.relaAt(off + k * RELA_SIZE)
  }

  /** The first `n` entries of the table at `off`. */
  function RelocateTable(ss: seq<Segment>, file: File, env: Env, t: Tables, cs: seq<Chunk>, off: nat, n: nat): Option<seq<Chunk>> {
    if n == 0 then Some(cs)
    else match RelocateTable(ss, file, env, t, cs, off, n - 1)
      case None => None
      case Some(cs') => RelocateOne(ss, file, env, t, cs', Entry(file, off, n - 1))
  }

  method ProcessRelaEntries(ss: seq<Segment>, file: File, env: Env, t: Tables, chunks: seq<Chunk>, off: nat, n: nat)
    returns (r: Option<seq<Chunk>>)
    ensures r == RelocateTable(ss, file, env, t, chunks, off, n)
  {
    var cs := chunks;
    for k := 0 to n
      invariant RelocateTable(ss, file, env, t, chunks, off, k) == Some(cs)
    {
      var e := Entry(file, off, k);
      var i := SegmentFor(ss, e.target);
      if i == |ss| || !ss[i].writable {
        TableFailsFor(ss, file, env, t, chunks, off, k + 1, n);
        return None;
      }
      match PatchOf(file, env, t, e)
      case Skip =>
      case Bad =>
        TableFailsFor(ss, file, env, t, chunks, off, k + 1, n);
        return None;
      case Write(v) =>
        var stored := Store(cs, e.target, v);
        if stored == None {
          TableFailsFor(ss, file, env, t, chunks, off, k + 1, n);
          return None;
        }
        cs := stored.value;
    }
    r := Some(cs);
  }

  lemma {:induction false} TableFailsFor(ss: seq<Segment>, file: File, env: Env, t: Tables, cs: seq<Chunk>, off: nat, k: nat, n: nat)
    requires k <= n && RelocateTable(ss, file, env, t, cs, off, k) == None
    ensures RelocateTable(ss, file, env, t, cs, off, n) == None
    decreases n
  {
    if k < n { TableFailsFor(ss, file, env, t, cs, off, k, n - 1); }
  }

  /** The parts of the dynamic section relocation uses; addresses are module-relative. */
  datatype DynInfo = DynInfo(symtab: Option<nat>, strtab: Option<nat>,
                             rela: Option<nat>, relaSize: nat, plt: Option<nat>, pltSize: nat)

  function ToOffset(ss: seq<Segment>, va: nat): Option<nat> {
    if ss == [] then None
    else if ss[0].vaddr <= va < ss[0].vaddr + ss[0].fileSize then Some(ss[0].fileOff + (va - ss[0].vaddr))
    else ToOffset(ss[1..], va)
  }

  function Located(ss: seq<Segment>, va: Option<nat>): Option<nat> {
    match va case None => None case Some(v) => ToOffset(ss, v)
  }

  function RelocateAt(ss: seq<Segment>, file: File, env: Env, t: Tables, cs: seq<Chunk>, va: Option<nat>, size: nat): Option<seq<Chunk>> {
    match va
    case None => Some(cs)
    case Some(v) =>
      match ToOffset(ss, v)
      case None => None
      case Some(off) =>
        if off + size > |file.bytes| then None else RelocateTable(ss, file, env, t, cs, off, size / RELA_SIZE)
  }

  function Relocate(ss: seq<Segment>, file: File, dyn: Option<DynInfo>, env: Env, cs: seq<Chunk>): Option<seq<Chunk>> {
    match dyn
    case None => Some(cs)
    case Some(d) =>
      var t := Tables(Located(ss, d.symtab), Located(ss, d.strtab));
      match RelocateAt(ss, file, env, t, cs, d.rela, d.relaSize)
      case None => None
      case Some(cs') => RelocateAt(ss, file, env, t, cs', d.plt, d.pltSize)
  }

  /** An address that has a file offset shows the byte at that offset after staging. */
  lemma {:induction false} StagedMatchesFile(ss: seq<Segment>, bytes: seq<Byte>, va: nat) returns (i: nat)
    requires Stageable(ss, |bytes|) && ToOffset(ss, va).Some?
    ensures i < |ss| && ss[i].chunkOff <= va < ChunkEnd(ss[i]) && ToOffset(ss, va).value < |bytes|
    ensures Staged(ss, bytes)[i] == StageOne(ss[i], bytes)
    ensures StageOne(ss[i], bytes).data[va - ss[i].chunkOff] == bytes[ToOffset(ss, va).value]
  {
    i := OffsetSegment(ss, va);
    StagedAt(ss, bytes, i);
    StagedByte(ss[i], bytes, va);
  }

  lemma {:induction false} OffsetSegment(ss: seq<Segment>, va: nat) returns (i: nat)
    requires ToOffset(ss, va).Some?
    ensures i < |ss| && ss[i].vaddr <= va < ss[i].vaddr + ss[i].fileSize
    ensures ToOffset(ss, va).value == ss[i].fileOff + (va - ss[i].vaddr)
  {
    if ss[0].vaddr <= va < ss[0].vaddr + ss[0].fileSize {
      i := 0;
    } else {
      var j := OffsetSegment(ss[1..], va);
      i := j + 1;
    }
  }

  lemma {:induction false} StagedAt(ss: seq<Segment>, bytes: seq<Byte>, i: nat)
    requires Stageable(ss, |bytes|) && i < |ss|
    ensures Staged(ss, bytes)[i] == StageOne(ss[i], bytes)
  {
    if i > 0 {
      assert Stageable(ss[1..], |bytes|);
      StagedAt(ss[1..], bytes, i - 1);
    }
  }

  /** Position independence: loaded `delta` higher, a relative word or the address of a defined
      symbol is `delta` higher; an imported one is not moved. */
  lemma {:induction false} PatchMovesWithBase(file: File, env: Env, t: Tables, e: Rela, delta: nat)
    requires PatchOf(file, env, t, e).Write?
    ensures var moved := PatchOf(file, env.(base := env.base + delta), t, e);
            && moved.Write?
            && if e.kind == R_RELATIVE || file.symbolAt(t.symtab.value + e.symbol * SYM_SIZE).defined
               then moved.value == (PatchOf(file, env, t, e).value + delta) % WORD
               else moved == PatchOf(file, env, t, e)
  {
    var env' := env.(base := env.base + delta);
    if e.kind == R_RELATIVE {
      WrapAdds(env.base + e.addend, delta);
    } else if file.symbolAt(t.symtab.value + e.symbol * SYM_SIZE).defined {
      var v := Resolve(file, env, t, e.symbol).value;
      assert Resolve(file, env', t, e.symbol) == Some(v + delta);
      WrapAdds(if e.kind == R_JUMP_SLOT then v else v + e.addend, delta);
    }
  }

  lemma {:induction false} WrapAdds(x: int, d: nat)
    ensures (x + d) % WORD == (x % WORD + d) % WORD
  {
  }

  // ----- Loading

  /** A load commits chunks or is refused; copying a file part that overruns its chunk panics. */
  datatype Outcome = Loaded(chunks: seq<Chunk>) | Refused | Panicked

  /** Every chunk is staged on a cold load, the writable ones on a warm load. */
  function LoadChunks(ss: seq<Segment>, file: File, dyn: Option<DynInfo>, env: Env, cold: bool): Outcome {
    var wanted := Wanted(ss, cold);
    if !Stageable(wanted, |file.bytes|) then Panicked
    else match Relocate(ss, file, dyn, env, Staged(wanted, file.bytes))
      case None => Refused
      case Some(cs) => Loaded(cs)
  }

  function Committed(o: Outcome): Option<seq<Chunk>> {
    if o.Loaded? then Some(o.chunks) else None
  }

  function Pick(cs: seq<Chunk>, writable: bool): seq<Chunk> {
    if cs == [] then []
    else if cs[0].writable == writable then [cs[0]] + Pick(cs[1..], writable)
    else Pick(cs[1..], writable)
  }

  // ----- Relocation stays within writable chunks

  /** The chunks are those of the segments, in order. */
  ghost predicate Matches(cs: seq<Chunk>, ss: seq<Segment>) {
    && |cs| == |ss|
    && forall i | 0 <= i < |cs| ::
         cs[i].offset == ss[i].chunkOff && |cs[i].data| == ss[i].chunkSize && cs[i].writable == ss[i].writable
  }

  /** Whatever chunk holds the word is writable. */
  ghost predicate OnlyWritable(cs: seq<Chunk>, va: nat) {
    forall i | 0 <= i < |cs| && HoldsWord(cs[i], va) :: cs[i].writable
  }

  /** A relocation target in a writable segment lies in that segment's chunk and in no other. */
  lemma {:induction false} TargetIsWritable(cs: seq<Chunk>, ss: seq<Segment>, len: nat, va: nat)
    requires Accepted(ss, len) && Matches(cs, ss)
    requires SegmentFor(ss, va) < |ss| && ss[SegmentFor(ss, va)].writable
    ensures OnlyWritable(cs, va)
  {
    var k := SegmentFor(ss, va);
    forall i | 0 <= i < |cs| && HoldsWord(cs[i], va) ensures cs[i].writable {
      assert InChunk(ss[k]);
      OneChunkHolds(ss, i, k, va);
    }
  }

  lemma {:induction false} OneChunkHolds(ss: seq<Segment>, i: nat, k: nat, va: nat)
    requires Disjoint(ss) && i < |ss| && k < |ss|
    requires ss[i].chunkOff <= va < ChunkEnd(ss[i]) && ss[k].chunkOff <= va < ChunkEnd(ss[k])
    ensures i == k
  {
  }

  /** Storing into a writable chunk commutes with picking the writable chunks, and leaves the
      others alone. */
  lemma {:induction false} StorePicks(cs: seq<Chunk>, va: nat, v: nat)
    requires OnlyWritable(cs, va)
    ensures Store(cs, va, v).Some? <==> Store(Pick(cs, true), va, v).Some?
    ensures Store(cs, va, v).Some? ==>
              && Pick(Store(cs, va, v).value, true) == Store(Pick(cs, true), va, v).value
              && Pick(Store(cs, va, v).value, false) == Pick(cs, false)
  {
    if cs != [] {
      assert OnlyWritable(cs[1..], va);
      StorePicks(cs[1..], va, v);
      if HoldsWord(cs[0], va) {
        var c := Patched(cs[0], va, v);
        assert ([c] + cs[1..])[1..] == cs[1..];
        assert Pick(cs, true) == [cs[0]] + Pick(cs[1..], true);
        assert Pick(cs, true)[1..] == Pick(cs[1..], true);
      } else if Store(cs[1..], va, v).Some? {
        var rest := Store(cs[1..], va, v).value;
        assert ([cs[0]] + rest)[1..] == rest;
        if cs[0].writable { assert Pick(cs, true)[1..] == Pick(cs[1..], true); }
      } else if cs[0].writable {
        assert Pick(cs, true)[1..] == Pick(cs[1..], true);
      }
    }
  }

  lemma {:induction false} StoreMatches(cs: seq<Chunk>, ss: seq<Segment>, va: nat, v: nat)
    requires Matches(cs, ss) && Store(cs, va, v).Some?
    ensures Matches(Store(cs, va, v).value, ss)
  {
    if !HoldsWord(cs[0], va) {
      assert Matches(cs[1..], ss[1..]);
      StoreMatches(cs[1..], ss[1..], va, v);
    }
  }

  /** `part` is what `full` does to the writable chunks; the read-only ones stay `shared`. */
  ghost predicate Agrees(full: Option<seq<Chunk>>, part: Option<seq<Chunk>>, shared: seq<Chunk>, ss: seq<Segment>) {
    && (full.Some? <==> part.Some?)
    && (full.Some? ==>
          && Matches(full.value, ss)
          && Pick(full.value, true) == part.value
          && Pick(full.value, false) == shared)
  }

  lemma {:induction false} OneAgrees(ss: seq<Segment>, len: nat, file: File, env: Env, t: Tables, cs: seq<Chunk>, e: Rela)
    requires Accepted(ss, len) && Matches(cs, ss)
    ensures Agrees(RelocateOne(ss, file, env, t, cs, e), RelocateOne(ss, file, env, t, Pick(cs, true), e), Pick(cs, false), ss)
  {
    var i := SegmentFor(ss, e.target);
    if i < |ss| && ss[i].writable {
      var p := PatchOf(file, env, t, e);
      if p.Write? {
        TargetIsWritable(cs, ss, len, e.target);
        StorePicks(cs, e.target, p.value);
        if Store(cs, e.target, p.value).Some? { StoreMatches(cs, ss, e.target, p.value); }
      }
    }
  }

  lemma {:induction false} TableAgrees(ss: seq<Segment>, len: nat, file: File, env: Env, t: Tables, cs: seq<Chunk>, off: nat, n: nat)
    requires Accepted(ss, len) && Matches(cs, ss)
    ensures Agrees(RelocateTable(ss, file, env, t, cs, off, n), RelocateTable(ss, file, env, t, Pick(cs, true), off, n), Pick(cs, false), ss)
    decreases n
  {
    if n > 0 {
      TableAgrees(ss, len, file, env, t, cs, off, n - 1);
      var r := RelocateTable(ss, file, env, t, cs, off, n - 1);
      if r.Some? { OneAgrees(ss, len, file, env, t, r.value, Entry(file, off, n - 1)); }
    }
  }

  lemma {:induction false} AtAgrees(ss: seq<Segment>, len: nat, file: File, env: Env, t: Tables, cs: seq<Chunk>, va: Option<nat>, size: nat)
    requires Accepted(ss, len) && Matches(cs, ss)
    ensures Agrees(RelocateAt(ss, file, env, t, cs, va, size), RelocateAt(ss, file, env, t, Pick(cs, true), va, size), Pick(cs, false), ss)
  {
    if va.Some? && ToOffset(ss, va.value).Some? {
      TableAgrees(ss, len, file, env, t, cs, ToOffset(ss, va.value).value, size / RELA_SIZE);
    }
  }

  /** Relocation accepts a set of chunks exactly if it accepts their writable part, and never
      changes a read-only chunk. */
  lemma {:induction false} RelocationAgrees(ss: seq<Segment>, len: nat, file: File, dyn: Option<DynInfo>, env: Env, cs: seq<Chunk>)
    requires Accepted(ss, len) && Matches(cs, ss)
    ensures Agrees(Relocate(ss, file, dyn, env, cs), Relocate(ss, file, dyn, env, Pick(cs, true)), Pick(cs, false), ss)
  {
    if dyn.Some? {
      var d := dyn.value;
      var t := Tables(Located(ss, d.symtab), Located(ss, d.strtab));
      AtAgrees(ss, len, file, env, t, cs, d.rela, d.relaSize);
      var r := RelocateAt(ss, file, env, t, cs, d.rela, d.relaSize);
      if r.Some? { AtAgrees(ss, len, file, env, t, r.value, d.plt, d.pltSize); }
    }
  }

  // ----- Warm and cold loads

  lemma {:induction false} WantedCold(ss: seq<Segment>)
    ensures Wanted(ss, true) == ss
  {
    if ss != [] { WantedCold(ss[1..]); }
  }

  lemma {:induction false} StagedFacts(ss: seq<Segment>, bytes: seq<Byte>)
    requires Stageable(ss, |bytes|)
    ensures Matches(Staged(ss, bytes), ss) && Stageable(Wanted(ss, false), |bytes|)
    ensures Pick(Staged(ss, bytes), true) == Staged(Wanted(ss, false), bytes)
  {
    if ss != [] {
      assert Stageable(ss[1..], |bytes|);
      StagedFacts(ss[1..], bytes);
      var c, rest := StageOne(ss[0], bytes), Staged(ss[1..], bytes);
      assert ([c] + rest)[1..] == rest;
      if ss[0].writable {
        var w := Wanted(ss[1..], false);
        assert ([ss[0]] + w)[1..] == w;
      }
    }
  }

  /** A warm load accepts the same images as a cold one and commits the same writable chunks;
      the read-only chunks of a cold load are the staged ones. */
  lemma {:induction false} WarmAgreesWithCold(ss: seq<Segment>, file: File, dyn: Option<DynInfo>, env: Env)
    requires Accepted(ss, |file.bytes|) && Stageable(ss, |file.bytes|)
    ensures Agrees(Committed(LoadChunks(ss, file, dyn, env, true)), Committed(LoadChunks(ss, file, dyn, env, false)), Pick(Staged(ss, file.bytes), false), ss)
  {
    WantedCold(ss);
    StagedFacts(ss, file.bytes);
    RelocationAgrees(ss, |file.bytes|, file, dyn, env, Staged(ss, file.bytes));
  }

  /** Shared pages depend neither on the base nor on the dependencies of the load that made them. */
  lemma {:induction false} SharedChunksAreStable(ss: seq<Segment>, file: File, dyn: Option<DynInfo>, env: Env, env': Env)
    requires Accepted(ss, |file.bytes|) && Stageable(ss, |file.bytes|)
    requires LoadChunks(ss, file, dyn, env, true).Loaded? && LoadChunks(ss, file, dyn, env', true).Loaded?
    ensures Pick(LoadChunks(ss, file, dyn, env, true).chunks, false) == Pick(LoadChunks(ss, file, dyn, env', true).chunks, false)
  {
    WarmAgreesWithCold(ss, file, dyn, env);
    WarmAgreesWithCold(ss, file, dyn, env');
  }

  /** Byte `b` is mapped at module offset `a`. */
  ghost predicate Shows(cs: seq<Chunk>, a: nat, b: Byte) {
    exists c :: c in cs && c.offset <= a < c.offset + |c.data| && c.data[a - c.offset] == b
  }

  lemma {:induction false} PickSplits(cs: seq<Chunk>, c: Chunk)
    ensures c in cs <==> c in Pick(cs, false) || c in Pick(cs, true)
  {
    if cs != [] {
      assert cs == [cs[0]] + cs[1..];
      PickSplits(cs[1..], c);
    }
  }

  /** The process sees the same bytes at the same base, whichever earlier load made the shared
      pages. */
  lemma {:induction false} WarmViewIsColdView(ss: seq<Segment>, file: File, dyn: Option<DynInfo>, first: Env, env: Env, a: nat, b: Byte)
    requires Accepted(ss, |file.bytes|) && Stageable(ss, |file.bytes|)
    requires LoadChunks(ss, file, dyn, first, true).Loaded? && LoadChunks(ss, file, dyn, env, false).Loaded?
    ensures LoadChunks(ss, file, dyn, env, true).Loaded?
    ensures var shared := Pick(LoadChunks(ss, file, dyn, first, true).chunks, false);
            Shows(shared + LoadChunks(ss, file, dyn, env, false).chunks, a, b) <==>
            Shows(LoadChunks(ss, file, dyn, env, true).chunks, a, b)
  {
    WarmAgreesWithCold(ss, file, dyn, env);
    SharedChunksAreStable(ss, file, dyn, first, env);
    var cold := LoadChunks(ss, file, dyn, env, true).chunks;
    var warm := Pick(cold, false) + Pick(cold, true);
    forall c ensures c in warm <==> c in cold { PickSplits(cold, c); }
    if Shows(cold, a, b) {
      var c :| c in cold && c.offset <= a < c.offset + |c.data| && c.data[a - c.offset] == b;
      assert c in warm;
    }
    if Shows(warm, a, b) {
      var c :| c in warm && c.offset <= a < c.offset + |c.data| && c.data[a - c.offset] == b;
      assert c in cold;
    }
  }

  /** No more in the file than in memory means the file part fits its chunk. */
  lemma {:induction false} FitsWithinMemory(ss: seq<Segment>, len: nat)
    requires Accepted(ss, len) && forall i | 0 <= i < |ss| :: ss[i].fileSize <= ss[i].memSize
    ensures Stageable(ss, len)
  {
    forall i | 0 <= i < |ss| ensures Fits(ss[i]) && ss[i].fileOff + ss[i].fileSize <= len {
      assert InChunk(ss[i]) && ss[i].fileSize <= ss[i].memSize;
    }
  }

  /** The writable segments fit their chunks, but some read-only one does not. */
  predicate ReadOnlyOverruns(ss: seq<Segment>, len: nat) {
    Stageable(Wanted(ss, false), len) && !Stageable(ss, len)
  }

  predicate SameKind(o: Outcome, o': Outcome) {
    (o.Loaded? <==> o'.Loaded?) && (o.Refused? <==> o'.Refused?)
  }

  /** Warm and cold loads end differently exactly on images with a read-only segment whose file
      part overruns its chunk: staging it panics a cold load, and a warm load never looks. */
  lemma {:induction false} OutcomeDiffersIff(ss: seq<Segment>, file: File, dyn: Option<DynInfo>, env: Env)
    requires Accepted(ss, |file.bytes|)
    ensures var cold, warm := LoadChunks(ss, file, dyn, env, true), LoadChunks(ss, file, dyn, env, false);
            && (SameKind(cold, warm) <==> !ReadOnlyOverruns(ss, |file.bytes|))
            && (ReadOnlyOverruns(ss, |file.bytes|) ==> cold == Panicked && warm != Panicked)
  {
    WantedCold(ss);
    if Stageable(ss, |file.bytes|) {
      WarmAgreesWithCold(ss, file, dyn, env);
      StagedFacts(ss, file.bytes);
    }
  }

  /** It happens: one read-only page with more than a page of file data. */
  lemma {:induction false} OverrunningImage(file: File, env: Env, s: Segment)
    requires |file.bytes| == PAGE_SIZE + 1 && s == Segment(0, PAGE_SIZE + 1, 0, PAGE_SIZE, false, 0, PAGE_SIZE)
    ensures Parse([Load(0, PAGE_SIZE + 1, 0, PAGE_SIZE, PAGE_SIZE, false)], |file.bytes|) == Some([s])
    ensures LoadChunks([s], file, None, env, true) == Panicked && LoadChunks([s], file, None, env, false) == Loaded([])
  {
    var h := Load(0, PAGE_SIZE + 1, 0, PAGE_SIZE, PAGE_SIZE, false);
    assert [h][..0] == [] && ToSegment(h) == s;
    assert Segments([h]) == [] + [s];
    assert [s][..0] == [] && SortByChunk([s]) == Insert([], s);
    WantedCold([s]);
    assert [s][1..] == [] && Wanted([s], false) == [];
  }
}
