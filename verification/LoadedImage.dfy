/** What a relocated image holds (kernel/src/loader/user_loader.rs): every word a relocation
    wrote, and every byte none did, over both relocation tables. */
module LoadedImage {
  import opened Basics
  import opened UserLoader

  /** The kinds that write a word: 64, GLOB_DAT, JUMP_SLOT and RELATIVE. */
  predicate Patches(e: Rela) {
    e.kind == 1 || e.kind == 6 || e.kind == 7 || e.kind == 8
  }

  /** S of the psABI: an own symbol moves with the base, an import is where its dependency has it. */
  ghost predicate SymbolIs(file: File, env: Env, t: Tables, index: nat, s: nat) {
    && t.symtab.Some?
    && var sym := file.symbolAt(t.symtab.value + index * 24);
       if sym.defined then s == env.base + sym.value
       else t.strtab.Some? && env.imports(file.nameAt(t.strtab.value + sym.name)) == Some(s)
  }

  ghost predicate Resolves(file: File, env: Env, t: Tables, index: nat) {
    exists s: nat :: SymbolIs(file, env, t, index, s)
  }

  /** `w` is the word entry `e` stands for: B + A, S + A, or S, modulo 2^64. */
  ghost predicate WordIs(file: File, env: Env, t: Tables, e: Rela, w: nat) {
    if e.kind == 8 then w == (env.base + e.addend) % 0x1_0000_0000_0000_0000
    else exists s: nat :: SymbolIs(file, env, t, e.symbol, s) &&
                     w == (if e.kind == 7 then s else s + e.addend) % 0x1_0000_0000_0000_0000
  }

  ghost predicate SameLayout(cs: seq<Chunk>, ds: seq<Chunk>) {
    |ds| == |cs| && forall i | 0 <= i < |cs| ::
      ds[i].offset == cs[i].offset && ds[i].writable == cs[i].writable && |ds[i].data| == |cs[i].data|
  }

  /** The word that reads back at `va`. */
  ghost predicate ReadsBack(cs: seq<Chunk>, va: nat, w: nat) {
    var i := FirstHolder(cs, va);
    i < |cs| && FromBytes(cs[i].data[va - cs[i].offset..va - cs[i].offset + 8]) == w
  }

  ghost predicate Clear(e: Rela, f: Rela) {
    Patches(f) ==> e.target + 8 <= f.target || f.target + 8 <= e.target
  }

  ghost predicate ByteClear(a: nat, e: Rela) {
    Patches(e) ==> !(e.target <= a < e.target + 8)
  }

  ghost predicate AllClear(a: nat, es: seq<Rela>) {
    forall k | 0 <= k < |es| :: ByteClear(a, es[k])
  }

  /** No later entry writes over entry `k`. */
  ghost predicate Lasts(es: seq<Rela>, k: nat) {
    k < |es| && Patches(es[k]) && forall j | k < j < |es| :: Clear(es[k], es[j])
  }

  /** Entry `k` reads back as the word it stands for. */
  ghost predicate Wrote(file: File, env: Env, t: Tables, e: Rela, ds: seq<Chunk>) {
    exists w: nat :: ReadsBack(ds, e.target, w) && WordIs(file, env, t, e, w)
  }

  ghost predicate Untouched(es: seq<Rela>, cs: seq<Chunk>, ds: seq<Chunk>) {
    SameLayout(cs, ds) && forall i, k | 0 <= i < |cs| && 0 <= k < |cs[i].data| && AllClear(cs[i].offset + k, es) ::
      ds[i].data[k] == cs[i].data[k]
  }

  /** `ds` is `cs` with the entries applied in order: where no later entry writes over it each
      word reads back as what it stands for, and bytes that no entry writes are as before. */
  ghost predicate Applied(file: File, env: Env, t: Tables, es: seq<Rela>, cs: seq<Chunk>, ds: seq<Chunk>) {
    Untouched(es, cs, ds) && forall k: nat | Lasts(es, k) :: Wrote(file, env, t, es[k], ds)
  }

  // ----- One entry

  lemma {:induction false} PatchMeaning(file: File, env: Env, t: Tables, e: Rela)
    ensures PatchOf(file, env, t, e).Skip? <==> !Patches(e)
    ensures PatchOf(file, env, t, e).Bad? <==> Patches(e) && e.kind != 8 && !Resolves(file, env, t, e.symbol)
    ensures PatchOf(file, env, t, e).Write? ==>
              var v := PatchOf(file, env, t, e).value; v < WORD && WordIs(file, env, t, e, v)
  {
    if Patches(e) && e.kind != 8 {
      var r := Resolve(file, env, t, e.symbol);
      if r.Some? {
        assert SymbolIs(file, env, t, e.symbol, r.value);
      } else {
        assert forall s: nat :: !SymbolIs(file, env, t, e.symbol, s);
      }
    }
  }

  lemma {:induction false} LayoutHolds(cs: seq<Chunk>, ds: seq<Chunk>, va: nat)
    requires SameLayout(cs, ds)
    ensures FirstHolder(ds, va) == FirstHolder(cs, va)
  {
    assert forall i | 0 <= i < |cs| :: HoldsWord(cs[i], va) <==> HoldsWord(ds[i], va);
  }

  lemma {:induction false} StoreApplied(cs: seq<Chunk>, e: Rela, v: nat, ds: seq<Chunk>)
    requires v < WORD && Store(cs, e.target, v) == Some(ds) && Patches(e)
    ensures Untouched([e], cs, ds) && ReadsBack(ds, e.target, v)
  {
    StoreReadsBack(cs, e.target, v);
    LayoutHolds(cs, ds, e.target);
    forall i, k | 0 <= i < |cs| && 0 <= k < |cs[i].data| && AllClear(cs[i].offset + k, [e])
      ensures ds[i].data[k] == cs[i].data[k]
    {
      assert ByteClear(cs[i].offset + k, [e][0]);
      StoredByte(cs, e.target, v, i, k);
    }
  }

  lemma {:induction false} StoredByte(cs: seq<Chunk>, va: nat, v: nat, i: nat, k: nat)
    requires v < WORD && Store(cs, va, v).Some? && i < |cs| && k < |cs[i].data| && !(va <= cs[i].offset + k < va + 8)
    ensures |Store(cs, va, v).value| == |cs| && |Store(cs, va, v).value[i].data| == |cs[i].data|
    ensures Store(cs, va, v).value[i].data[k] == cs[i].data[k]
  {
    StoreReadsBack(cs, va, v);
    var h := FirstHolder(cs, va);
    if i == h {
      var c, off := Patched(cs[i], va, v), va - cs[i].offset;
      if k < off {
        assert c.data[..off][k] == cs[i].data[..off][k];
      } else {
        assert c.data[off + 8..][k - off - 8] == cs[i].data[off + 8..][k - off - 8];
      }
    }
  }

  lemma {:induction false} OneApplied(ss: seq<Segment>, file: File, env: Env, t: Tables, cs: seq<Chunk>, e: Rela, ds: seq<Chunk>)
    requires RelocateOne(ss, file, env, t, cs, e) == Some(ds)
    ensures Applied(file, env, t, [e], cs, ds)
  {
    PatchMeaning(file, env, t, e);
    if Patches(e) {
      StoreApplied(cs, e, PatchOf(file, env, t, e).value, ds);
      assert Wrote(file, env, t, e, ds);
    }
  }

  // ----- One entry after another

  lemma {:induction false} WordKept(fs: seq<Rela>, cs: seq<Chunk>, ds: seq<Chunk>, e: Rela, w: nat)
    requires Untouched(fs, cs, ds) && Patches(e) && (forall j | 0 <= j < |fs| :: Clear(e, fs[j])) && ReadsBack(cs, e.target, w)
    ensures ReadsBack(ds, e.target, w)
  {
    LayoutHolds(cs, ds, e.target);
    var i := FirstHolder(cs, e.target);
    var off := e.target - cs[i].offset;
    forall k | off <= k < off + 8 ensures ds[i].data[k] == cs[i].data[k] {
      assert forall j | 0 <= j < |fs| :: ByteClear(cs[i].offset + k, fs[j]) by {
        forall j | 0 <= j < |fs| ensures ByteClear(cs[i].offset + k, fs[j]) { assert Clear(e, fs[j]); }
      }
      assert AllClear(cs[i].offset + k, fs);
    }
    assert ds[i].data[off..off + 8] == cs[i].data[off..off + 8];
  }

  lemma {:induction false} UntouchedThen(es: seq<Rela>, fs: seq<Rela>, cs: seq<Chunk>, mid: seq<Chunk>, ds: seq<Chunk>)
    requires Untouched(es, cs, mid) && Untouched(fs, mid, ds)
    ensures Untouched(es + fs, cs, ds)
  {
    forall i, k | 0 <= i < |cs| && 0 <= k < |cs[i].data| && AllClear(cs[i].offset + k, es + fs)
      ensures ds[i].data[k] == cs[i].data[k]
    {
      ClearOfBoth(cs[i].offset + k, es, fs);
      assert AllClear(mid[i].offset + k, fs);
    }
  }

  lemma {:induction false} ClearOfBoth(a: nat, es: seq<Rela>, fs: seq<Rela>)
    requires AllClear(a, es + fs)
    ensures AllClear(a, es) && AllClear(a, fs)
  {
    forall j | 0 <= j < |es| ensures ByteClear(a, es[j]) { assert (es + fs)[j] == es[j]; }
    forall j | 0 <= j < |fs| ensures ByteClear(a, fs[j]) { assert (es + fs)[|es| + j] == fs[j]; }
  }

  lemma {:induction false} LastsInBoth(es: seq<Rela>, fs: seq<Rela>, k: nat)
    requires Lasts(es + fs, k)
    ensures k >= |es| ==> Lasts(fs, k - |es|) && (es + fs)[k] == fs[k - |es|]
    ensures k < |es| ==> Lasts(es, k) && (es + fs)[k] == es[k] && forall j | 0 <= j < |fs| :: Clear(es[k], fs[j])
  {
    var gs := es + fs;
    if k >= |es| {
      forall j | k - |es| < j < |fs| ensures Clear(fs[k - |es|], fs[j]) { assert Clear(gs[k], gs[|es| + j]); }
    } else {
      forall j | k < j < |es| ensures Clear(es[k], es[j]) { assert Clear(gs[k], gs[j]); }
      forall j | 0 <= j < |fs| ensures Clear(es[k], fs[j]) { assert Clear(gs[k], gs[|es| + j]); }
    }
  }

  lemma {:induction false} AppliedThen(file: File, env: Env, t: Tables, es: seq<Rela>, fs: seq<Rela>, cs: seq<Chunk>, mid: seq<Chunk>, ds: seq<Chunk>)
    requires Applied(file, env, t, es, cs, mid) && Applied(file, env, t, fs, mid, ds)
    ensures Applied(file, env, t, es + fs, cs, ds)
  {
    UntouchedThen(es, fs, cs, mid, ds);
    forall k: nat | Lasts(es + fs, k) ensures Wrote(file, env, t, (es + fs)[k], ds) {
      LastsInBoth(es, fs, k);
      if k < |es| {
        var w: nat :| ReadsBack(mid, es[k].target, w) && WordIs(file, env, t, es[k], w);
        WordKept(fs, mid, ds, es[k], w);
      }
    }
  }

  // ----- The tables

  /** The first `n` entries of the table at file offset `off`. */
  function TableEntries(file: File, off: nat, n: nat): (es: seq<Rela>)
    ensures |es| == n && forall k | 0 <= k < n :: es[k] == file.relaAt(off + k * 24)
  {
    seq(n, k requires 0 <= k => file.relaAt(off + k * 24))
  }

  lemma {:induction false} NothingApplied(file: File, env: Env, t: Tables, cs: seq<Chunk>)
    ensures Applied(file, env, t, [], cs, cs)
  {
  }

  lemma {:induction false} TableApplied(ss: seq<Segment>, file: File, env: Env, t: Tables, cs: seq<Chunk>, off: nat, n: nat, ds: seq<Chunk>)
    requires RelocateTable(ss, file, env, t, cs, off, n) == Some(ds)
    ensures Applied(file, env, t, TableEntries(file, off, n), cs, ds)
  {
    if n == 0 {
      assert TableEntries(file, off, 0) == [];
      NothingApplied(file, env, t, cs);
    } else {
      var mid := RelocateTable(ss, file, env, t, cs, off, n - 1).value;
      var e := file.relaAt(off + (n - 1) * 24);
      assert TableEntries(file, off, n) == TableEntries(file, off, n - 1) + [e];
      TableApplied(ss, file, env, t, cs, off, n - 1, mid);
      OneApplied(ss, file, env, t, mid, e, ds);
      AppliedThen(file, env, t, TableEntries(file, off, n - 1), [e], cs, mid, ds);
    }
  }

  /** The entries of a table given by its address and its size in bytes. */
  function EntriesAt(ss: seq<Segment>, file: File, va: Option<nat>, size: nat): seq<Rela> {
    match va
    case None => []
    case Some(v) => if ToOffset(ss, v).None? then [] else TableEntries(file, ToOffset(ss, v).value, size / 24)
  }

  lemma {:induction false} TableAtApplied(ss: seq<Segment>, file: File, env: Env, t: Tables, cs: seq<Chunk>, va: Option<nat>, size: nat, ds: seq<Chunk>)
    requires RelocateAt(ss, file, env, t, cs, va, size) == Some(ds)
    ensures Applied(file, env, t, EntriesAt(ss, file, va, size), cs, ds)
  {
    if va.Some? {
      TableApplied(ss, file, env, t, cs, ToOffset(ss, va.value).value, size / 24, ds);
    } else {
      NothingApplied(file, env, t, cs);
    }
  }

  /** Both tables, the general one first. */
  function AllEntries(ss: seq<Segment>, file: File, d: DynInfo): seq<Rela> {
    EntriesAt(ss, file, d.rela, d.relaSize) + EntriesAt(ss, file, d.plt, d.pltSize)
  }

  /** Where the symbol and name tables are in the file. */
  function TablesOf(ss: seq<Segment>, d: DynInfo): Tables {
    Tables(if d.symtab.None? then None else ToOffset(ss, d.symtab.value),
           if d.strtab.None? then None else ToOffset(ss, d.strtab.value))
  }

  /** A successful relocation applies every entry of both tables. */
  lemma {:induction false} RelocationApplies(ss: seq<Segment>, file: File, d: DynInfo, env: Env, cs: seq<Chunk>, ds: seq<Chunk>)
    requires Relocate(ss, file, Some(d), env, cs) == Some(ds)
    ensures Applied(file, env, TablesOf(ss, d), AllEntries(ss, file, d), cs, ds)
  {
    var t := TablesOf(ss, d);
    var mid := RelocateAt(ss, file, env, t, cs, d.rela, d.relaSize).value;
    TableAtApplied(ss, file, env, t, cs, d.rela, d.relaSize, mid);
    TableAtApplied(ss, file, env, t, mid, d.plt, d.pltSize, ds);
    AppliedThen(file, env, t, EntriesAt(ss, file, d.rela, d.relaSize), EntriesAt(ss, file, d.plt, d.pltSize), cs, mid, ds);
  }

  /** With targets that do not overlap, every entry reads back as the word it stands for. */
  lemma {:induction false} EveryWordReadsBack(ss: seq<Segment>, file: File, d: DynInfo, env: Env, cs: seq<Chunk>, ds: seq<Chunk>, k: nat)
    requires Relocate(ss, file, Some(d), env, cs) == Some(ds)
    requires forall i, j | 0 <= i < j < |AllEntries(ss, file, d)| :: Clear(AllEntries(ss, file, d)[i], AllEntries(ss, file, d)[j])
    requires k < |AllEntries(ss, file, d)| && Patches(AllEntries(ss, file, d)[k])
    ensures Wrote(file, env, TablesOf(ss, d), AllEntries(ss, file, d)[k], ds)
  {
    RelocationApplies(ss, file, d, env, cs, ds);
    assert Lasts(AllEntries(ss, file, d), k);
  }

  // ----- When it succeeds

  /** The first segment with the target in it may be written, a symbol that is needed resolves,
      and some chunk has room for the word. */
  ghost predicate EntryOk(ss: seq<Segment>, file: File, env: Env, t: Tables, cs: seq<Chunk>, e: Rela) {
    && (exists i :: FirstWith(ss, e.target, i) && ss[i].writable)
    && (Patches(e) ==> (e.kind == 8 || Resolves(file, env, t, e.symbol)) && exists i :: 0 <= i < |cs| && RoomFor(cs[i], e.target))
  }

  predicate RoomFor(c: Chunk, va: nat) {
    c.offset <= va && va + 8 <= c.offset + |c.data|
  }

  predicate FirstWith(ss: seq<Segment>, va: nat, i: int) {
    0 <= i < |ss| && Has(ss[i], va) && forall j | 0 <= j < i :: !Has(ss[j], va)
  }

  predicate Has(s: Segment, va: nat) {
    s.vaddr <= va < s.vaddr + s.memSize
  }

  lemma {:induction false} SegmentForIsFirst(ss: seq<Segment>, va: nat)
    ensures SegmentFor(ss, va) < |ss| ==> FirstWith(ss, va, SegmentFor(ss, va))
    ensures SegmentFor(ss, va) == |ss| ==> forall i | 0 <= i < |ss| :: !Has(ss[i], va)
  {
    if ss != [] && !Has(ss[0], va) {
      SegmentForIsFirst(ss[1..], va);
      assert forall i | 0 < i < |ss| :: ss[i] == ss[1..][i - 1];
    }
  }

  lemma {:induction false} OneOkIff(ss: seq<Segment>, file: File, env: Env, t: Tables, cs: seq<Chunk>, e: Rela)
    ensures RelocateOne(ss, file, env, t, cs, e).Some? <==> EntryOk(ss, file, env, t, cs, e)
  {
    SegmentForIsFirst(ss, e.target);
    PatchMeaning(file, env, t, e);
    FirstIsOnly(ss, e.target);
    assert forall i | 0 <= i < |cs| :: RoomFor(cs[i], e.target) <==> HoldsWord(cs[i], e.target);
    if PatchOf(file, env, t, e).Write? { StoreReadsBack(cs, e.target, PatchOf(file, env, t, e).value); }
  }

  lemma {:induction false} FirstIsOnly(ss: seq<Segment>, va: nat)
    ensures forall i, j :: FirstWith(ss, va, i) && FirstWith(ss, va, j) ==> i == j
  {
  }

  lemma {:induction false} LayoutDecidesOk(ss: seq<Segment>, file: File, env: Env, t: Tables, cs: seq<Chunk>, ds: seq<Chunk>, e: Rela)
    requires SameLayout(cs, ds)
    ensures EntryOk(ss, file, env, t, cs, e) <==> EntryOk(ss, file, env, t, ds, e)
  {
    assert forall i | 0 <= i < |cs| :: RoomFor(cs[i], e.target) <==> RoomFor(ds[i], e.target);
  }

  ghost predicate AllOk(ss: seq<Segment>, file: File, env: Env, t: Tables, cs: seq<Chunk>, es: seq<Rela>) {
    forall k | 0 <= k < |es| :: EntryOk(ss, file, env, t, cs, es[k])
  }

  lemma {:induction false} AllOkSnoc(ss: seq<Segment>, file: File, env: Env, t: Tables, cs: seq<Chunk>, es: seq<Rela>, e: Rela)
    ensures AllOk(ss, file, env, t, cs, es + [e]) <==> AllOk(ss, file, env, t, cs, es) && EntryOk(ss, file, env, t, cs, e)
  {
    var all := es + [e];
    assert all[|es|] == e && forall k | 0 <= k < |es| :: all[k] == es[k];
  }

  /** The next entry is acceptable before the earlier ones are applied exactly when it is
      afterwards. */
  lemma {:induction false} NextOkIff(ss: seq<Segment>, file: File, env: Env, t: Tables, cs: seq<Chunk>, off: nat, n: nat, ds: seq<Chunk>)
    requires RelocateTable(ss, file, env, t, cs, off, n) == Some(ds)
    ensures RelocateOne(ss, file, env, t, ds, Entry(file, off, n)).Some? <==> EntryOk(ss, file, env, t, cs, Entry(file, off, n))
  {
    TableApplied(ss, file, env, t, cs, off, n, ds);
    OneOkIff(ss, file, env, t, ds, Entry(file, off, n));
    LayoutDecidesOk(ss, file, env, t, cs, ds, Entry(file, off, n));
  }

  lemma {:induction false} TableOkIff(ss: seq<Segment>, file: File, env: Env, t: Tables, cs: seq<Chunk>, off: nat, n: nat)
    ensures RelocateTable(ss, file, env, t, cs, off, n).Some? <==> AllOk(ss, file, env, t, cs, TableEntries(file, off, n))
  {
    if n > 0 {
      var front, e := TableEntries(file, off, n - 1), Entry(file, off, n - 1);
      assert TableEntries(file, off, n) == front + [e];
      TableOkIff(ss, file, env, t, cs, off, n - 1);
      AllOkSnoc(ss, file, env, t, cs, front, e);
      var r := RelocateTable(ss, file, env, t, cs, off, n - 1);
      if r.Some? { NextOkIff(ss, file, env, t, cs, off, n - 1, r.value); }
    }
  }

  /** The table starts inside a segment and ends inside the file. */
  predicate TableInFile(ss: seq<Segment>, file: File, va: Option<nat>, size: nat) {
    va.Some? ==> ToOffset(ss, va.value).Some? && ToOffset(ss, va.value).value + size <= |file.bytes|
  }

  lemma {:induction false} TableAtOkIff(ss: seq<Segment>, file: File, env: Env, t: Tables, cs: seq<Chunk>, va: Option<nat>, size: nat)
    ensures RelocateAt(ss, file, env, t, cs, va, size).Some? <==>
            TableInFile(ss, file, va, size) && AllOk(ss, file, env, t, cs, EntriesAt(ss, file, va, size))
  {
    if va.Some? && ToOffset(ss, va.value).Some? {
      TableOkIff(ss, file, env, t, cs, ToOffset(ss, va.value).value, size / 24);
    }
  }

  /** Relocation succeeds exactly when both tables are in the file and every entry of them is
      acceptable. */
  lemma {:induction false} RelocationOkIff(ss: seq<Segment>, file: File, d: DynInfo, env: Env, cs: seq<Chunk>)
    ensures Relocate(ss, file, Some(d), env, cs).Some? <==>
            && TableInFile(ss, file, d.rela, d.relaSize) && TableInFile(ss, file, d.plt, d.pltSize)
            && AllOk(ss, file, env, TablesOf(ss, d), cs, EntriesAt(ss, file, d.rela, d.relaSize))
            && AllOk(ss, file, env, TablesOf(ss, d), cs, EntriesAt(ss, file, d.plt, d.pltSize))
  {
    var t := TablesOf(ss, d);
    TableAtOkIff(ss, file, env, t, cs, d.rela, d.relaSize);
    var r := RelocateAt(ss, file, env, t, cs, d.rela, d.relaSize);
    if r.Some? {
      TableAtApplied(ss, file, env, t, cs, d.rela, d.relaSize, r.value);
      TableAtOkIff(ss, file, env, t, r.value, d.plt, d.pltSize);
      AllOkKept(ss, file, env, t, cs, r.value, EntriesAt(ss, file, d.plt, d.pltSize));
    }
  }

  lemma {:induction false} AllOkKept(ss: seq<Segment>, file: File, env: Env, t: Tables, cs: seq<Chunk>, ds: seq<Chunk>, es: seq<Rela>)
    requires SameLayout(cs, ds)
    ensures AllOk(ss, file, env, t, cs, es) <==> AllOk(ss, file, env, t, ds, es)
  {
    forall k | 0 <= k < |es| ensures EntryOk(ss, file, env, t, cs, es[k]) <==> EntryOk(ss, file, env, t, ds, es[k]) {
      LayoutDecidesOk(ss, file, env, t, cs, ds, es[k]);
    }
  }

  lemma {:induction false} UntouchedByte(es: seq<Rela>, cs: seq<Chunk>, ds: seq<Chunk>, i: nat, a: nat)
    requires Untouched(es, cs, ds) && i < |cs| && cs[i].offset <= a < cs[i].offset + |cs[i].data| && AllClear(a, es)
    ensures |ds| == |cs| && ds[i].offset == cs[i].offset && |ds[i].data| == |cs[i].data|
    ensures ds[i].data[a - cs[i].offset] == cs[i].data[a - cs[i].offset]
  {
    assert AllClear(cs[i].offset + (a - cs[i].offset), es);
  }

  /** The byte the file holds for address `a` of a segment, or zero. */
  ghost predicate ShowsFile(s: Segment, bytes: seq<Byte>, a: nat, b: Byte) {
    if s.vaddr <= a < s.vaddr + s.fileSize
    then s.fileOff + (a - s.vaddr) < |bytes| && b == bytes[s.fileOff + (a - s.vaddr)]
    else b == 0
  }

  lemma {:induction false} StagedShows(ss: seq<Segment>, bytes: seq<Byte>, i: nat, a: nat)
    requires Stageable(ss, |bytes|) && i < |ss| && ss[i].chunkOff <= a < ChunkEnd(ss[i])
    ensures Staged(ss, bytes)[i].offset == ss[i].chunkOff && |Staged(ss, bytes)[i].data| == ss[i].chunkSize
    ensures ShowsFile(ss[i], bytes, a, Staged(ss, bytes)[i].data[a - ss[i].chunkOff])
  {
    StagedAt(ss, bytes, i);
    StagedByte(ss[i], bytes, a);
  }

  lemma {:induction false} ColdLoadApplies(ss: seq<Segment>, file: File, d: DynInfo, env: Env, cs: seq<Chunk>)
    requires LoadChunks(ss, file, Some(d), env, true) == Loaded(cs)
    ensures Stageable(ss, |file.bytes|)
    ensures Applied(file, env, TablesOf(ss, d), AllEntries(ss, file, d), Staged(ss, file.bytes), cs)
  {
    WantedAll(ss);
    RelocationApplies(ss, file, d, env, Staged(ss, file.bytes), cs);
  }

  /** What a cold load commits: the file's bytes at their addresses and zeros elsewhere, except
      where a relocation wrote. */
  lemma {:induction false} ColdLoadShows(ss: seq<Segment>, file: File, d: DynInfo, env: Env, cs: seq<Chunk>, i: nat, a: nat)
    requires LoadChunks(ss, file, Some(d), env, true) == Loaded(cs) && i < |ss| && ss[i].chunkOff <= a < ChunkEnd(ss[i])
    requires AllClear(a, AllEntries(ss, file, d))
    ensures |cs| == |ss| && cs[i].offset == ss[i].chunkOff && |cs[i].data| == ss[i].chunkSize
    ensures ShowsFile(ss[i], file.bytes, a, cs[i].data[a - ss[i].chunkOff])
  {
    ColdLoadApplies(ss, file, d, env, cs);
    StagedShows(ss, file.bytes, i, a);
    UntouchedByte(AllEntries(ss, file, d), Staged(ss, file.bytes), cs, i, a);
  }

  lemma {:induction false} WantedAll(ss: seq<Segment>)
    ensures Wanted(ss, true) == ss
  {
    if ss != [] { WantedAll(ss[1..]); }
  }
}
