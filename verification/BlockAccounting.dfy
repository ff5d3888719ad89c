/** Host blocks over runs: reference counts, release and leaks. */
module BlockAccounting {
  import opened Bytes
  import opened GuestMemory
  import opened ForkIsolation
  import opened Mprotect

  // Live blocks whose count is zero, and live blocks that no entry names: under the invariant the same.
  ghost function Unused(s: Memory): set<BlockId> {
    set b | b in s.blocks && s.blocks[b].refcount == 0
  }

  ghost function Orphans(s: Memory): set<BlockId> {
    set b | b in s.blocks && Users(s, b) == {}
  }

  lemma UnusedAreOrphans(s: Memory)
    requires Counted(s)
    ensures Unused(s) == Orphans(s)
  {
    forall b <- s.blocks ensures s.blocks[b].refcount == 0 <==> Users(s, b) == {} {}
  }

  lemma DropUnused(s: Memory, k: Slot)
    requires Inv(s)
    ensures Unused(DropEntry(s, k)) == Unused(s)
  {
    if k in s.entries { assert k in Users(s, s.entries[k].data); }
  }

  lemma {:induction false} UnmapUnused(s: Memory, sid: SpaceId, start: nat, n: nat)
    requires Inv(s)
    ensures Unused(UnmapLoop(s, sid, start, n)) == Unused(s)
  {
    hide Inv, Unused, DropEntry;
    if n != 0 {
      UnmapView(s, sid, start, n - 1);
      UnmapUnused(s, sid, start, n - 1);
      DropUnused(UnmapLoop(s, sid, start, n - 1), Slot(sid, start + n - 1));
    }
  }

  lemma PlaceUnused(s: Memory, sid: SpaceId, start: nat, i: nat, b: BlockId, flags: Flags)
    requires Inv(s) && b in s.blocks && Only(s, b, sid, start, i)
    ensures Unused(Place(s, Slot(sid, start + i), b, i, flags)) == Unused(s) - {b}
  {
    var k := Slot(sid, start + i);
    EvictView(s, k);
    DropUnused(s, k);
    hide Inv, View;
    assert k !in Users(s, b);
  }

  lemma {:induction false} MapUnused(s: Memory, sid: SpaceId, start: nat, n: nat, b: BlockId, flags: Flags)
    requires Inv(s) && sid in s.changes && start + n <= MEM_PAGES
    requires b in s.blocks && n * PAGE_SIZE <= |s.blocks[b].bytes| && Only(s, b, sid, start, 0)
    ensures Unused(MapLoop(s, sid, start, n, b, flags)) == if n == 0 then Unused(s) else Unused(s) - {b}
  {
    hide Counted, SharedIsCow, EntriesOk, View, Unused, Place, Only, MapPages;
    if n != 0 {
      MapLoopView(s, sid, start, n - 1, b, flags);
      MapUnused(s, sid, start, n - 1, b, flags);
      PlaceUnused(MapLoop(s, sid, start, n - 1, b, flags), sid, start, n - 1, b, flags);
    }
  }

  lemma PtMapUnused(s: Memory, sid: SpaceId, start: nat, pages: nat, b: BlockId, bytes: seq<byte>, flags: Flags)
    requires Inv(s) && sid in s.changes && start + pages <= MEM_PAGES && b !in s.blocks && |bytes| == pages * PAGE_SIZE
    ensures Unused(PtMap(s, sid, start, pages, b, bytes, flags)) == Unused(s) + (if pages == 0 then {b} else {})
  {
    hide Counted, SharedIsCow, EntriesOk, View, Unused;
    NewBlockKeeps(s, b, bytes);
    NewBlockUnused(s, b, bytes);
    MapUnused(NewBlock(s, b, bytes), sid, start, pages, b, flags);
  }

  lemma NewBlockUnused(s: Memory, b: BlockId, bytes: seq<byte>)
    requires b !in s.blocks
    ensures Unused(NewBlock(s, b, bytes)) == Unused(s) + {b} && b !in Unused(s)
  {
  }

  lemma ShareUnused(s: Memory, from: Slot, to: Slot)
    requires Inv(s) && from.space != to.space
    ensures Unused(ShareOne(s, from, to)) == Unused(s)
  {
    hide SharedIsCow, View;
    if from in s.entries {
      DropView(s, to);
      DropUnused(s, to);
      var t := DropEntry(s, to);
      assert from in Users(t, t.entries[from].data);
    }
  }

  lemma {:induction false} ShareLoopUnused(s: Memory, src: SpaceId, srcStart: nat, dst: SpaceId, dstStart: nat, n: nat)
    requires Inv(s) && src != dst && dst in s.changes && dstStart + n <= MEM_PAGES
    ensures Unused(ShareLoop(s, src, srcStart, dst, dstStart, n)) == Unused(s)
  {
    hide Counted, SharedIsCow, EntriesOk, View, Unused, ShareOne, CopyPages;
    if n != 0 {
      ShareLoopView(s, src, srcStart, dst, dstStart, n - 1);
      ShareLoopUnused(s, src, srcStart, dst, dstStart, n - 1);
      ShareUnused(ShareLoop(s, src, srcStart, dst, dstStart, n - 1), Slot(src, srcStart + n - 1), Slot(dst, dstStart + n - 1));
    }
  }

  lemma TouchUnused(s: Memory, sid: SpaceId, page: nat, write: bool, id: BlockId)
    requires Inv(s) && sid in s.changes && page < MEM_PAGES && id !in s.blocks
    ensures Unused(Touch(s, sid, page, write, id)) == Unused(s)
  {
    hide Counted, SharedIsCow, View, PtMap, GrowPages, Unused, NextMapped;
    var k := Slot(sid, page);
    var t := Grow(s, sid, page, id);
    GrowView(s, sid, page, id);
    if k !in s.entries {
      PtMapUnused(s, sid, page, 1, id, Zeros(PAGE_SIZE), STACK_FLAGS);
      if k in t.entries {
        GrownEntry(s, sid, page, id);
        NotShared(t, k, id);
      }
    } else {
      GrowMapped(s, sid, page, id);
      if s.entries[k].flags.cow {
        ViewAt(s, k);
        PtMapUnused(s, sid, page, 1, id, PageBytes(s.blocks, s.entries[k]), s.entries[k].flags.(cow := false));
      }
    }
  }

  // The block an operation leaves mapped in the host with no page table entry naming it.
  function Leaked(op: Op): set<BlockId> {
    if op.MapOp? && op.pages == 0 then {op.id} else {}
  }

  /** A block is released exactly when its last entry goes: no step leaves a block
      without users behind, except pt_map of zero pages, whose block is lost. */
  lemma SameUnused(s: Memory, t: Memory)
    requires t.blocks == s.blocks
    ensures Unused(t) == Unused(s)
  {
  }

  lemma StoreUnused(s: Memory, p: HostPtr, vs: seq<byte>)
    requires PtrOk(s.blocks, p, |vs|)
    ensures Unused(Store(s, p, vs)) == Unused(s)
  {
    hide Splice;
  }

  lemma WriteUnused(s: Memory, sid: SpaceId, addr: nat, v: byte, id: BlockId)
    requires Inv(s) && sid in s.changes && addr < ADDR_SPACE && id !in s.blocks
    ensures Unused(WriteByte(s, sid, addr, v, id).0) == Unused(s)
  {
    hide Inv, Touch, Pointer, PtrOk, Store, Unused;
    TouchUnused(s, sid, addr / PAGE_SIZE, true, id);
    var t, p := Touch(s, sid, addr / PAGE_SIZE, true, id), Pointer(s, sid, addr, true, id);
    if p.Some? && PtrOk(t.blocks, p.value, 1) { StoreUnused(t, p.value, [v]); }
  }

  lemma StepUnused(s: Memory, op: Op)
    requires Inv(s) && Enabled(s, op)
    ensures Unused(Step(s, op).0) == Unused(s) + Leaked(op)
  {
    hide Inv, Unused, UnmapLoop, PtMap, ShareLoop, SetLoop, Touch, WriteByte, Pointer, AllMapped, SetFlagsSafe;
    forall t: Memory | t.blocks == s.blocks ensures Unused(t) == Unused(s) { SameUnused(s, t); }
    match op {
      case NewOp(sid) =>
      case DestroyOp(sid) =>
        UnmapUnused(s, sid, 0, MEM_PAGES);
        SameUnused(UnmapLoop(s, sid, 0, MEM_PAGES), Destroy(s, sid));
      case MapOp(sid, start, pages, bytes, flags, id) => PtMapUnused(s, sid, start, pages, id, bytes, flags);
      case UnmapOp(sid, start, pages, force) =>
        UnmapUnused(s, sid, start, pages);
        SameUnused(UnmapLoop(s, sid, start, pages), Bump(UnmapLoop(s, sid, start, pages), sid));
      case SetFlagsOp(sid, start, pages, flags) => SetLoopEntries(s, sid, start, pages, flags);
      case CopyOp(src, srcStart, dst, dstStart, pages) =>
        ShareLoopUnused(s, src, srcStart, dst, dstStart, pages);
        SameUnused(ShareLoop(s, src, srcStart, dst, dstStart, pages), PtCopyOnWrite(s, src, srcStart, dst, dstStart, pages));
      case ReadOp(sid, addr, id) => TouchUnused(s, sid, addr / PAGE_SIZE, false, id);
      case WriteOp(sid, addr, v, id) => WriteUnused(s, sid, addr, v, id);
    }
  }

  function LeakedRun(ops: seq<Op>): set<BlockId> {
    if ops == [] then {} else Leaked(ops[0]) + LeakedRun(ops[1..])
  }

  lemma {:induction false} RunUnused(s: Memory, ops: seq<Op>)
    requires Inv(s) && EnabledRun(s, ops)
    ensures Inv(Run(s, ops).0) && Unused(Run(s, ops).0) == Unused(s) + LeakedRun(ops)
    decreases |ops|
  {
    hide Inv, FlatStep, Step, Enabled, Unused;
    if ops != [] {
      assert Inv(Step(s, ops[0]).0) by { StepSimulated(s, ops[0]); }
      StepUnused(s, ops[0]);
      RunUnused(Step(s, ops[0]).0, ops[1..]);
    }
  }

  /** Block accounting over every run: each block's refcount is the number of entries, over all
      spaces, that name it, and the blocks nobody names are those of the run's zero-page pt_map calls. */
  lemma RunAccounting(s: Memory, ops: seq<Op>)
    requires Inv(s) && EnabledRun(s, ops)
    ensures var t := Run(s, ops).0;
            && (forall b <- t.blocks :: t.blocks[b].refcount == |Users(t, b)|)
            && Orphans(t) == Orphans(s) + LeakedRun(ops)
  {
    RunUnused(s, ops);
    hide SharedIsCow, EntriesOk, Run, EnabledRun, LeakedRun, Unused, Orphans;
    UnusedAreOrphans(s);
    UnusedAreOrphans(Run(s, ops).0);
  }
}
