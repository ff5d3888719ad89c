/** The software TLB of one CPU thread as a value, and why it is transparent:
    every lookup gives the pointer mem_ptr would give, over any run. */
module TlbModel {
  import opened Bytes
  import opened GuestMemory
  import opened ForkIsolation
  import opened Mprotect

  const TLB_SIZE: nat := 1024
  const TLB_PAGE_EMPTY: nat := 1

  datatype TlbEntry = TlbEntry(page: nat, pageIfWritable: nat, dataMinusAddr: HostPtr)

  // TLB_INDEX: the low ten bits of the page number xor its high ten bits.
  function TlbIndex(addr: nat): (i: nat)
    requires addr < ADDR_SPACE
    ensures i < TLB_SIZE
  {
    (((addr / PAGE_SIZE) % 1024) as bv10 ^ (addr / PAGE_SIZE / 1024) as bv10) as nat
  }

  function TlbPage(addr: nat): nat { addr / PAGE_SIZE * PAGE_SIZE }

  function Rebase(p: HostPtr, addr: nat): HostPtr { HostPtr(p.block, p.offset + addr) }

  /** What every TLB entry must satisfy: a valid tag sits at its own index and names a mapped
      page, at the host address the page table gives; a writable tag names a page that may be
      stored to without asking mem_ptr. */
  ghost predicate EntryFits(s: Memory, sid: SpaceId, i: nat, e: TlbEntry) {
    && (e.page % PAGE_SIZE == 0 ==>
          && e.page < ADDR_SPACE && TlbIndex(e.page) == i
          && Slot(sid, e.page / PAGE_SIZE) in s.entries
          && Rebase(e.dataMinusAddr, e.page)
             == HostPtr(s.entries[Slot(sid, e.page / PAGE_SIZE)].data, s.entries[Slot(sid, e.page / PAGE_SIZE)].offset))
    && (e.pageIfWritable % PAGE_SIZE == 0 ==>
          && e.pageIfWritable == e.page
          && s.entries[Slot(sid, e.page / PAGE_SIZE)].flags.write
          && !s.entries[Slot(sid, e.page / PAGE_SIZE)].flags.cow)
  }

  ghost predicate Coherent(s: Memory, sid: SpaceId, entries: seq<TlbEntry>) {
    |entries| == TLB_SIZE && forall i | 0 <= i < TLB_SIZE :: EntryFits(s, sid, i, entries[i])
  }

  function Hit(e: TlbEntry, addr: nat, write: bool): bool {
    (if write then e.pageIfWritable else e.page) == TlbPage(addr)
  }

  function Filled(addr: nat, write: bool, p: HostPtr): TlbEntry {
    TlbEntry(TlbPage(addr), if write then TlbPage(addr) else TLB_PAGE_EMPTY, HostPtr(p.block, p.offset - TlbPage(addr)))
  }

  /** __tlb_read_ptr and __tlb_write_ptr, with tlb_handle_miss: the memory, the TLB entries and the pointer. */
  function Lookup(s: Memory, sid: SpaceId, entries: seq<TlbEntry>, addr: nat, write: bool, id: BlockId)
    : (r: (Memory, seq<TlbEntry>, Option<HostPtr>))
    requires addr < ADDR_SPACE && |entries| == TLB_SIZE
    ensures |r.1| == TLB_SIZE
  {
    var e := entries[TlbIndex(addr)];
    if Hit(e, addr, write) then (s, entries, Some(Rebase(e.dataMinusAddr, addr)))
    else
      var t := Touch(s, sid, addr / PAGE_SIZE, write, id);
      var p := Pointer(s, sid, TlbPage(addr), write, id);
      if p.None? then (t, entries, None)
      else
        var f := Filled(addr, write, p.value);
        (t, entries[TlbIndex(addr) := f], Some(Rebase(f.dataMinusAddr, addr)))
  }

  /** A lookup that gives a pointer leaves an entry behind that the next one hits: for reads, and after a write for writes too. */
  lemma LookupFills(s: Memory, sid: SpaceId, entries: seq<TlbEntry>, addr: nat, write: bool, id: BlockId)
    requires addr < ADDR_SPACE && |entries| == TLB_SIZE && Coherent(s, sid, entries)
    ensures var (t, en, p) := Lookup(s, sid, entries, addr, write, id);
            p.Some? ==> Hit(en[TlbIndex(addr)], addr, false) && (write ==> Hit(en[TlbIndex(addr)], addr, true))
  {
    PageFacts(addr);
    hide Touch, Pointer, TlbIndex;
    assert EntryFits(s, sid, TlbIndex(addr), entries[TlbIndex(addr)]);
  }

  // ---------------------------------------------------- one lookup is right

  lemma PageFacts(addr: nat)
    requires addr < ADDR_SPACE
    ensures TlbPage(addr) < ADDR_SPACE && TlbPage(addr) % PAGE_SIZE == 0
    ensures TlbPage(addr) / PAGE_SIZE == addr / PAGE_SIZE && addr == TlbPage(addr) + addr % PAGE_SIZE
    ensures TlbIndex(TlbPage(addr)) == TlbIndex(addr)
  {
  }

  lemma TouchOthers(s: Memory, sid: SpaceId, page: nat, write: bool, id: BlockId, l: Slot)
    requires Inv(s) && sid in s.changes && page < MEM_PAGES && id !in s.blocks && l != Slot(sid, page)
    ensures var t := Touch(s, sid, page, write, id);
            (l in t.entries <==> l in s.entries) && (l in s.entries ==> t.entries[l] == s.entries[l])
  {
    var k := Slot(sid, page);
    hide Counted, SharedIsCow, View, PtMap;
    if k !in s.entries {
      var t := Grow(s, sid, page, id);
      MapOneView(s, k, id, Zeros(PAGE_SIZE), STACK_FLAGS);
      if k in t.entries {
        GrownEntry(s, sid, page, id);
        NotShared(t, k, id);
      }
    } else {
      GrowMapped(s, sid, page, id);
      if s.entries[k].flags.cow {
        ViewAt(s, k);
        MapOneView(s, k, id, PageBytes(s.blocks, s.entries[k]), s.entries[k].flags.(cow := false));
      }
    }
  }

  // On a mapped page that needs no copy, mem_ptr changes nothing.
  lemma TouchNothing(s: Memory, sid: SpaceId, page: nat, write: bool, id: BlockId)
    requires Slot(sid, page) in s.entries && (write ==> !s.entries[Slot(sid, page)].flags.cow)
    ensures Touch(s, sid, page, write, id) == s
  {
  }

  lemma HitIsRight(s: Memory, sid: SpaceId, entries: seq<TlbEntry>, addr: nat, write: bool, id: BlockId)
    requires addr < ADDR_SPACE && Coherent(s, sid, entries) && Hit(entries[TlbIndex(addr)], addr, write)
    ensures Touch(s, sid, addr / PAGE_SIZE, write, id) == s
    ensures Pointer(s, sid, addr, write, id) == Some(Rebase(entries[TlbIndex(addr)].dataMinusAddr, addr))
    ensures write ==> s.entries[Slot(sid, addr / PAGE_SIZE)].flags.write && !s.entries[Slot(sid, addr / PAGE_SIZE)].flags.cow
  {
    PageFacts(addr);
    assert EntryFits(s, sid, TlbIndex(addr), entries[TlbIndex(addr)]);
    TouchNothing(s, sid, addr / PAGE_SIZE, write, id);
    hide Touch;
  }

  lemma CoherentAfterTouch(s: Memory, sid: SpaceId, entries: seq<TlbEntry>, page: nat, write: bool, id: BlockId, i: nat)
    requires Inv(s) && sid in s.changes && page < MEM_PAGES && id !in s.blocks
    requires Coherent(s, sid, entries) && i < TLB_SIZE && entries[i].page != page * PAGE_SIZE
    ensures EntryFits(Touch(s, sid, page, write, id), sid, i, entries[i])
  {
    var e := entries[i];
    assert EntryFits(s, sid, i, e);
    if e.page % PAGE_SIZE == 0 { TouchOthers(s, sid, page, write, id, Slot(sid, e.page / PAGE_SIZE)); }
    hide Touch, Inv;
  }

  /** A lookup through a coherent TLB is mem_ptr: the same pointer, the same memory, and a coherent TLB after it. */
  lemma LookupIsMemPtr(s: Memory, sid: SpaceId, entries: seq<TlbEntry>, addr: nat, write: bool, id: BlockId)
    requires Inv(s) && sid in s.changes && addr < ADDR_SPACE && id !in s.blocks && Coherent(s, sid, entries)
    ensures var (t, filled, p) := Lookup(s, sid, entries, addr, write, id);
            && t == Touch(s, sid, addr / PAGE_SIZE, write, id)
            && p == Pointer(s, sid, addr, write, id)
            && Coherent(t, sid, filled)
  {
    hide Inv, Touch;
    PageFacts(addr);
    var (t, filled, p) := Lookup(s, sid, entries, addr, write, id);
    var i := TlbIndex(addr);
    if Hit(entries[i], addr, write) {
      HitIsRight(s, sid, entries, addr, write, id);
    } else {
      forall j | 0 <= j < TLB_SIZE ensures EntryFits(t, sid, j, filled[j]) {
        if j != i || p.None? {
          MissKeeps(s, sid, entries, addr, write, id, j);
        } else {
          FilledFits(s, sid, addr, write, id);
        }
      }
    }
  }

  lemma MissKeeps(s: Memory, sid: SpaceId, entries: seq<TlbEntry>, addr: nat, write: bool, id: BlockId, j: nat)
    requires Inv(s) && sid in s.changes && addr < ADDR_SPACE && id !in s.blocks && Coherent(s, sid, entries)
    requires j < TLB_SIZE && (j != TlbIndex(addr) || Pointer(s, sid, TlbPage(addr), write, id).None?)
    ensures EntryFits(Touch(s, sid, addr / PAGE_SIZE, write, id), sid, j, entries[j])
  {
    PageFacts(addr);
    var page := addr / PAGE_SIZE;
    assert EntryFits(s, sid, j, entries[j]);
    if entries[j].page != page * PAGE_SIZE {
      CoherentAfterTouch(s, sid, entries, page, write, id, j);
    } else {
      // the page is mapped, so mem_ptr fails only on an unwritable page and then copies nothing
      assert j == TlbIndex(addr);
      GrowMapped(s, sid, page, id);
      UnshareView(s, Slot(sid, page), id);
      hide Counted, SharedIsCow, EntriesOk, View, Unshare;
      assert !s.entries[Slot(sid, page)].flags.write;
      assert Touch(s, sid, page, write, id) == s;
    }
  }

  lemma FilledFits(s: Memory, sid: SpaceId, addr: nat, write: bool, id: BlockId)
    requires Inv(s) && sid in s.changes && addr < ADDR_SPACE && id !in s.blocks
    requires Pointer(s, sid, TlbPage(addr), write, id).Some?
    ensures var p := Pointer(s, sid, TlbPage(addr), write, id).value;
            && EntryFits(Touch(s, sid, addr / PAGE_SIZE, write, id), sid, TlbIndex(addr), Filled(addr, write, p))
            && Pointer(s, sid, addr, write, id) == Some(Rebase(Filled(addr, write, p).dataMinusAddr, addr))
  {
    hide Counted, SharedIsCow, EntriesOk, Touch, View, GrowPages, TlbIndex;
    PageFacts(addr);
    TouchView(s, sid, addr / PAGE_SIZE, write, id);
    var e := Touch(s, sid, addr / PAGE_SIZE, write, id).entries[Slot(sid, addr / PAGE_SIZE)];
    assert Pointer(s, sid, TlbPage(addr), write, id) == Some(HostPtr(e.data, e.offset));
    assert Pointer(s, sid, addr, write, id) == Some(HostPtr(e.data, e.offset + addr % PAGE_SIZE));
  }

  // -------------------------------------------- the change counter is honest

  // The page table entries of sid that were there are there, unchanged.
  ghost predicate Stable(s: Memory, t: Memory, sid: SpaceId) {
    forall k <- s.entries :: k.space == sid ==> k in t.entries && t.entries[k] == s.entries[k]
  }

  lemma StableCoherent(s: Memory, t: Memory, sid: SpaceId, entries: seq<TlbEntry>)
    requires Coherent(s, sid, entries) && Stable(s, t, sid)
    ensures Coherent(t, sid, entries)
  {
    forall i | 0 <= i < TLB_SIZE ensures EntryFits(t, sid, i, entries[i]) {
      assert EntryFits(s, sid, i, entries[i]);
    }
  }

  // The counter of sid never goes back, and while it stands still no entry of sid is lost or altered.
  ghost predicate Honest(s: Memory, t: Memory, sid: SpaceId) {
    && sid in s.changes && sid in t.changes && s.changes[sid] <= t.changes[sid]
    && (t.changes[sid] == s.changes[sid] ==> Stable(s, t, sid))
  }

  lemma HonestTransitive(s: Memory, t: Memory, u: Memory, sid: SpaceId)
    requires Honest(s, t, sid) && Honest(t, u, sid)
    ensures Honest(s, u, sid)
  {
  }

  lemma {:induction false} UnmapOthers(s: Memory, sid: SpaceId, start: nat, n: nat)
    ensures var t := UnmapLoop(s, sid, start, n);
            && t.changes == s.changes
            && forall k <- s.entries :: k.space != sid ==> k in t.entries && t.entries[k] == s.entries[k]
  {
    if n != 0 { UnmapOthers(s, sid, start, n - 1); }
  }

  lemma PlaceHonest(s: Memory, k: Slot, b: BlockId, i: nat, flags: Flags, sid: SpaceId)
    requires sid in s.changes && k.space in s.changes
    ensures Honest(s, Place(s, k, b, i, flags), sid) && Place(s, k, b, i, flags).changes.Keys == s.changes.Keys
  {
  }

  lemma {:induction false} MapHonest(s: Memory, target: SpaceId, start: nat, n: nat, b: BlockId, flags: Flags, sid: SpaceId)
    requires sid in s.changes && target in s.changes
    ensures Honest(s, MapLoop(s, target, start, n, b, flags), sid)
    ensures MapLoop(s, target, start, n, b, flags).changes.Keys == s.changes.Keys
  {
    if n != 0 {
      MapHonest(s, target, start, n - 1, b, flags, sid);
      var t := MapLoop(s, target, start, n - 1, b, flags);
      PlaceHonest(t, Slot(target, start + n - 1), b, n - 1, flags, sid);
      hide Place, Honest;
      HonestTransitive(s, t, MapLoop(s, target, start, n, b, flags), sid);
    }
  }

  lemma PtMapHonest(s: Memory, target: SpaceId, start: nat, pages: nat, b: BlockId, bytes: seq<byte>, flags: Flags, sid: SpaceId)
    requires sid in s.changes && target in s.changes
    ensures Honest(s, PtMap(s, target, start, pages, b, bytes, flags), sid)
    ensures PtMap(s, target, start, pages, b, bytes, flags).changes.Keys == s.changes.Keys
  {
    MapHonest(NewBlock(s, b, bytes), target, start, pages, b, flags, sid);
  }

  lemma HonestReflexive(s: Memory, sid: SpaceId)
    requires sid in s.changes
    ensures Honest(s, s, sid)
  {
  }

  lemma TouchHonest(s: Memory, target: SpaceId, page: nat, write: bool, id: BlockId, sid: SpaceId)
    requires sid in s.changes && target in s.changes
    ensures Honest(s, Touch(s, target, page, write, id), sid)
  {
    HonestReflexive(s, sid);
    PtMapHonest(s, target, page, 1, id, Zeros(PAGE_SIZE), STACK_FLAGS, sid);
    var t := Grow(s, target, page, id);
    assert Honest(s, t, sid) && target in t.changes;
    var k := Slot(target, page);
    if k in t.entries && t.entries[k].flags.cow && EntryOk(t.blocks, t.entries[k]) {
      var flags := t.entries[k].flags.(cow := false);
      PtMapHonest(t, target, page, 1, id, PageBytes(t.blocks, t.entries[k]), flags, sid);
      HonestTransitive(s, t, Unshare(t, k, id), sid);
    }
    hide PtMap, Honest, PageBytes, Grow;
  }

  lemma {:induction false} ShareOthers(s: Memory, src: SpaceId, srcStart: nat, dst: SpaceId, dstStart: nat, n: nat, sid: SpaceId)
    requires sid in s.changes && dst in s.changes && src != dst && sid != src
    ensures Honest(s, ShareLoop(s, src, srcStart, dst, dstStart, n), sid)
    ensures ShareLoop(s, src, srcStart, dst, dstStart, n).changes.Keys == s.changes.Keys
  {
    if n != 0 {
      ShareOthers(s, src, srcStart, dst, dstStart, n - 1, sid);
      var t := ShareLoop(s, src, srcStart, dst, dstStart, n - 1);
      ShareOneHonest(t, Slot(src, srcStart + n - 1), Slot(dst, dstStart + n - 1), sid);
      hide ShareOne, Honest;
      HonestTransitive(s, t, ShareLoop(s, src, srcStart, dst, dstStart, n), sid);
    }
  }

  lemma ShareOneHonest(s: Memory, from: Slot, to: Slot, sid: SpaceId)
    requires sid in s.changes && to.space in s.changes && sid != from.space
    ensures Honest(s, ShareOne(s, from, to), sid)
    ensures ShareOne(s, from, to).changes.Keys == s.changes.Keys
  {
  }

  lemma {:induction false} ShareCounts(s: Memory, src: SpaceId, srcStart: nat, dst: SpaceId, dstStart: nat, n: nat)
    requires src in s.changes && dst in s.changes && src != dst
    ensures var t := ShareLoop(s, src, srcStart, dst, dstStart, n);
            t.changes.Keys == s.changes.Keys && t.changes[src] == s.changes[src]
  {
    if n != 0 { ShareCounts(s, src, srcStart, dst, dstStart, n - 1); }
  }

  /** One operation: the counter of sid moves forward, and it moves whenever an entry of sid is lost or altered. */
  lemma StepHonest(s: Memory, op: Op, sid: SpaceId)
    requires sid in s.changes && Enabled(s, op) && op != DestroyOp(sid)
    ensures Honest(s, Step(s, op).0, sid)
  {
    match op {
      case NewOp(x) =>
      case DestroyOp(x) => UnmapOthers(s, x, 0, MEM_PAGES);
      case MapOp(x, start, pages, bytes, flags, id) => PtMapHonest(s, x, start, pages, id, bytes, flags, sid);
      case UnmapOp(x, start, pages, force) => UnmapOthers(s, x, start, pages);
      case SetFlagsOp(x, start, pages, flags) => SetLoopEntries(s, x, start, pages, flags);
      case CopyOp(src, srcStart, dst, dstStart, pages) => CopyHonest(s, src, srcStart, dst, dstStart, pages, sid);
      case ReadOp(x, addr, id) => TouchHonest(s, x, addr / PAGE_SIZE, false, id, sid);
      case WriteOp(x, addr, v, id) => TouchHonest(s, x, addr / PAGE_SIZE, true, id, sid);
    }
  }

  lemma CopyHonest(s: Memory, src: SpaceId, srcStart: nat, dst: SpaceId, dstStart: nat, pages: nat, sid: SpaceId)
    requires sid in s.changes && src in s.changes && dst in s.changes && src != dst
    ensures Honest(s, PtCopyOnWrite(s, src, srcStart, dst, dstStart, pages), sid)
  {
    if sid == src {
      ShareCounts(s, src, srcStart, dst, dstStart, pages);
    } else {
      ShareOthers(s, src, srcStart, dst, dstStart, pages, sid);
    }
    hide ShareLoop;
  }

  lemma {:induction false} RunHonest(s: Memory, ops: seq<Op>, sid: SpaceId)
    requires sid in s.changes && EnabledRun(s, ops) && DestroyOp(sid) !in ops
    ensures Honest(s, Run(s, ops).0, sid)
    decreases |ops|
  {
    hide Enabled, Step, Honest;
    if ops == [] {
      HonestReflexive(s, sid);
    } else {
      var t := Step(s, ops[0]).0;
      StepHonest(s, ops[0], sid);
      assert sid in t.changes by { HonestAlive(s, t, sid); }
      RunHonest(t, ops[1..], sid);
      HonestTransitive(s, t, Run(s, ops).0, sid);
    }
  }

  lemma HonestAlive(s: Memory, t: Memory, sid: SpaceId)
    requires Honest(s, t, sid)
    ensures sid in t.changes
  {
  }
}
