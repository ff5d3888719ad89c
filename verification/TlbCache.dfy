/** emu/tlb.c and emu/tlb.h as they run: the cache array filled and consulted
    in place, proved against the lookups of TlbModel and the accesses of CpuMemory. */
module TlbCache {
  import opened Bytes
  import opened GuestMemory
  import opened TlbModel
  import opened CpuMemory
  import opened HostMemory
  import CpuRun

  class Tlb {
    const mem: SpaceId
    var dirtyPage: nat
    const entries: array<TlbEntry>

    ghost predicate Valid(h: Host)
      reads this, entries, h, h.Repr
    {
      && entries.Length == TLB_SIZE && entries !in h.Repr && this !in h.Repr
      && h.Valid() && Inv(h.state) && mem in h.mems && Coherent(h.state, mem, entries[..])
    }

    /** tlb_init. */
    constructor (sid: SpaceId)
      ensures mem == sid && fresh(entries) && entries.Length == TLB_SIZE
      ensures dirtyPage == TLB_PAGE_EMPTY && forall s :: Coherent(s, sid, entries[..])
    {
      mem, dirtyPage := sid, TLB_PAGE_EMPTY;
      entries := new TlbEntry[TLB_SIZE](_ => TlbEntry(TLB_PAGE_EMPTY, TLB_PAGE_EMPTY, HostPtr(0, 0)));
      new;
      forall s ensures Coherent(s, sid, entries[..]) {
        forall i | 0 <= i < TLB_SIZE ensures EntryFits(s, sid, i, entries[..][i]) {}
      }
    }

    /** tlb_flush leaves nothing that could hit. */
    method Flush()
      requires entries.Length == TLB_SIZE
      modifies entries
      ensures forall i | 0 <= i < TLB_SIZE :: entries[i] == TlbEntry(TLB_PAGE_EMPTY, TLB_PAGE_EMPTY, HostPtr(0, 0))
      ensures forall s, sid :: Coherent(s, sid, entries[..])
    {
      for i := 0 to TLB_SIZE
        invariant forall j | 0 <= j < i :: entries[j] == TlbEntry(TLB_PAGE_EMPTY, TLB_PAGE_EMPTY, HostPtr(0, 0))
      {
        entries[i] := TlbEntry(TLB_PAGE_EMPTY, TLB_PAGE_EMPTY, HostPtr(0, 0));
      }
      forall s, sid ensures Coherent(s, sid, entries[..]) {
        forall i | 0 <= i < TLB_SIZE ensures EntryFits(s, sid, i, entries[..][i]) {}
      }
    }

    /** tlb_handle_miss. */
    method HandleMiss(h: Host, addr: nat, write: bool, memory: BlockId) returns (ptr: Option<HostPtr>)
      requires Valid(h) && addr < ADDR_SPACE && memory !in h.blocks
      requires !Hit(entries[TlbIndex(addr)], addr, write)
      modifies this`dirtyPage, entries, h`blocks, h`state, h.Repr
      ensures Valid(h)
      ensures (h.state, entries[..], ptr) == Lookup(old(h.state), mem, old(entries[..]), addr, write, memory)
      ensures ptr.Some? ==> dirtyPage == TlbPage(addr)
    {
      hide MemsValid, Mirrors, Inv, Touch, Coherent, GuestMemory.Pointer, TlbIndex;
      h.Alive(mem);
      PageFacts(addr);
      ghost var was := entries[..];
      LookupIsMemPtr(h.state, mem, was, addr, write, memory);
      var p := h.MemPtr(mem, TlbPage(addr), write, memory);
      if p.None? {
        return None;
      }
      dirtyPage := TlbPage(addr);
      var i := TlbIndex(addr);
      var pageIfWritable := if write then TlbPage(addr) else TLB_PAGE_EMPTY;
      var dataMinusAddr := HostPtr(p.value.block, p.value.offset - TlbPage(addr));
      entries[i] := TlbEntry(TlbPage(addr), pageIfWritable, dataMinusAddr);
      assert entries[..] == was[i := entries[i]];
      ptr := Some(Rebase(dataMinusAddr, addr));
    }

    /** __tlb_read_ptr and __tlb_write_ptr. */
    method Ptr(h: Host, addr: nat, write: bool, memory: BlockId) returns (ptr: Option<HostPtr>)
      requires Valid(h) && addr < ADDR_SPACE && memory !in h.blocks
      modifies this`dirtyPage, entries, h`blocks, h`state, h.Repr
      ensures Valid(h)
      ensures (h.state, entries[..], ptr) == Lookup(old(h.state), mem, old(entries[..]), addr, write, memory)
      ensures write && ptr.Some? ==> dirtyPage == TlbPage(addr)
    {
      hide MemsValid, Mirrors, Inv, Touch, Coherent, GuestMemory.Pointer, TlbIndex;
      var entry := entries[TlbIndex(addr)];
      if Hit(entry, addr, write) {
        if write {
          dirtyPage := TlbPage(addr);
        }
        return Some(Rebase(entry.dataMinusAddr, addr));
      }
      ptr := HandleMiss(h, addr, write, memory);
    }

    /** The end of the loop body of cpu_run: flush when the 32-bit change counter moved since it was last read. */
    method Poll(h: Host, changes: nat) returns (now: nat)
      requires h.Valid() && mem in h.mems && entries.Length == TLB_SIZE && entries !in h.Repr
      modifies entries
      ensures mem in h.state.changes
      ensures var c := CpuRun.Cpu(h.state, mem, old(entries[..]), changes, h.state.changes[mem]);
              entries[..] == CpuRun.Poll(c).entries && now == CpuRun.Poll(c).seen
    {
      hide MemsValid, Mirrors;
      h.Alive(mem);
      now := h.Changes(mem);
      if now != changes {
        Flush();
        assert entries[..] == CpuRun.Flushed();
      }
    }

    /** Both pointers of an access, in the order the source takes them; the second lookup is made even if the first failed. */
    method Ptrs(h: Host, addr: nat, size: nat, write: bool, id1: BlockId, id2: BlockId)
      returns (ptr1: Option<HostPtr>, ptr2: Option<HostPtr>)
      requires Valid(h) && AccessOk(h.state, mem, addr, size, id1, id2)
      modifies this`dirtyPage, entries, h`blocks, h`state, h.Repr
      ensures Valid(h)
      ensures (h.state, entries[..], ptr1, ptr2) == Pointers(old(h.state), mem, old(entries[..]), addr, size, write, id1, id2)
    {
      hide MemsValid, Mirrors, Inv, Coherent, Lookup, NextPage;
      NextPageFacts(addr, size);
      h.Alive(mem);
      SecondIdFree(h.state, mem, entries[..], addr, write, id1, id2);
      ptr1 := Ptr(h, addr, write, id1);
      if Crosses(addr, size) {
        ptr2 := Ptr(h, NextPage(addr), write, id2);
      } else {
        ptr2 := None;
      }
    }

    /** tlb_read with __tlb_read_cross_page; None where they return false. */
    method Read(h: Host, addr: nat, size: nat, id1: BlockId, id2: BlockId) returns (value: Option<seq<byte>>)
      requires Valid(h) && AccessOk(h.state, mem, addr, size, id1, id2)
      modifies this`dirtyPage, entries, h`blocks, h`state, h.Repr
      ensures Valid(h)
      ensures (h.state, entries[..], value) == TlbRead(old(h.state), mem, old(entries[..]), addr, size, id1, id2)
      ensures View(h.state) == Reach(View(old(h.state)), mem, addr, size) && value == FlatRead(View(h.state), mem, addr, size)
    {
      hide MemsValid, Mirrors, Counted, SharedIsCow, EntriesOk, Coherent, Pointers, PtrOk, View, Reach, FlatRead;
      ReadRefines(h.state, mem, entries[..], addr, size, id1, id2);
      FollowableRead(h.state, mem, entries[..], addr, size, id1, id2);
      var ptr1, ptr2 := Ptrs(h, addr, size, false, id1, id2);
      if ptr1.None? || (Crosses(addr, size) && ptr2.None?) {
        return None;
      }
      var part1 := Part1(addr, size);
      var first := h.Peek(ptr1.value, part1);
      if Crosses(addr, size) {
        var rest := h.Peek(ptr2.value, size - part1);
        return Some(first + rest);
      }
      assert first + [] == first;
      return Some(first);
    }

    /** tlb_write with __tlb_write_cross_page: both pointers before either memcpy. */
    method Write(h: Host, addr: nat, value: seq<byte>, id1: BlockId, id2: BlockId) returns (ok: bool)
      requires Valid(h) && AccessOk(h.state, mem, addr, |value|, id1, id2)
      modifies this`dirtyPage, entries, h`blocks, h`state, h.Repr
      ensures Valid(h)
      ensures (h.state, entries[..], ok) == TlbWrite(old(h.state), mem, old(entries[..]), addr, value, id1, id2)
      ensures var reached := Reach(View(old(h.state)), mem, addr, |value|);
              && (ok <==> FlatWritable(reached, mem, addr, |value|))
              && View(h.state) == if ok then FlatWrite(reached, mem, addr, value) else reached
    {
      hide MemsValid, Mirrors, Counted, SharedIsCow, EntriesOk, Coherent, Pointers, PtrOk, View, Reach, FlatWrite, FlatWritable;
      WriteRefines(h.state, mem, entries[..], addr, value, id1, id2);
      FollowableWrite(h.state, mem, entries[..], addr, value, id1, id2);
      var ptr1, ptr2 := Ptrs(h, addr, |value|, true, id1, id2);
      if ptr1.None? || (Crosses(addr, |value|) && ptr2.None?) {
        return false;
      }
      var part1 := Part1(addr, |value|);
      h.Poke(ptr1.value, value[..part1]);
      if Crosses(addr, |value|) {
        h.Poke(ptr2.value, value[part1..]);
      }
      return true;
    }
  }

  lemma SecondIdFree(s: Memory, sid: SpaceId, entries: seq<TlbEntry>, addr: nat, write: bool, id1: BlockId, id2: BlockId)
    requires Inv(s) && sid in s.changes && addr < ADDR_SPACE && id1 !in s.blocks && id2 !in s.blocks && id1 != id2
    requires Coherent(s, sid, entries)
    ensures id2 !in Lookup(s, sid, entries, addr, write, id1).0.blocks
  {
    LookupPoints(s, sid, entries, addr, write, id1);
  }

  // When the pointers are there they can be followed, so no access fails for another reason.
  lemma FollowableRead(s: Memory, sid: SpaceId, entries: seq<TlbEntry>, addr: nat, size: nat, id1: BlockId, id2: BlockId)
    requires Inv(s) && AccessOk(s, sid, addr, size, id1, id2) && Coherent(s, sid, entries)
    ensures var (t, en, p1, p2) := Pointers(s, sid, entries, addr, size, false, id1, id2);
            p1.Some? && (Crosses(addr, size) ==> p2.Some?) ==> Followable(t, addr, size, p1, p2)
    ensures 0 < Part1(addr, size) <= size
  {
    NextPageFacts(addr, size);
    PointersPoint(s, sid, entries, addr, size, false, id1, id2);
    var (t, en, p1, p2) := Pointers(s, sid, entries, addr, size, false, id1, id2);
    hide Counted, SharedIsCow, EntriesOk, View, Pointers, NextPage, Coherent, PtrOk;
    if p1.Some? { LoadsPage(t, Slot(sid, addr / PAGE_SIZE), addr % PAGE_SIZE, false, p1, Part1(addr, size)); }
    if Crosses(addr, size) && p2.Some? {
      LoadsPage(t, Slot(sid, NextPage(addr) / PAGE_SIZE), 0, false, p2, size - Part1(addr, size));
    }
  }

  lemma FollowableWrite(s: Memory, sid: SpaceId, entries: seq<TlbEntry>, addr: nat, vs: seq<byte>, id1: BlockId, id2: BlockId)
    requires Inv(s) && AccessOk(s, sid, addr, |vs|, id1, id2) && Coherent(s, sid, entries)
    ensures var (t, en, p1, p2) := Pointers(s, sid, entries, addr, |vs|, true, id1, id2);
            var n := Part1(addr, |vs|);
            p1.Some? && (Crosses(addr, |vs|) ==> p2.Some?) ==>
              && Followable(t, addr, |vs|, p1, p2)
              && (Crosses(addr, |vs|) ==> PtrOk(Store(t, p1.value, vs[..n]).blocks, p2.value, |vs| - n))
    ensures 0 < Part1(addr, |vs|) <= |vs|
  {
    NextPageFacts(addr, |vs|);
    PointersPoint(s, sid, entries, addr, |vs|, true, id1, id2);
    var (t, en, p1, p2) := Pointers(s, sid, entries, addr, |vs|, true, id1, id2);
    hide Counted, SharedIsCow, EntriesOk, View, Pointers, NextPage, Coherent, PtrOk;
    var n := Part1(addr, |vs|);
    if p1.Some? && (Crosses(addr, |vs|) ==> p2.Some?) {
      LoadsPage(t, Slot(sid, addr / PAGE_SIZE), addr % PAGE_SIZE, true, p1, n);
      if Crosses(addr, |vs|) {
        LoadsPage(t, Slot(sid, NextPage(addr) / PAGE_SIZE), 0, true, p2, |vs| - n);
        StoreKeepsPtr(t, p1.value, vs[..n], p2.value, |vs| - n);
      }
    }
  }

  lemma StoreKeepsPtr(s: Memory, p: HostPtr, vs: seq<byte>, q: HostPtr, n: nat)
    requires PtrOk(s.blocks, p, |vs|) && PtrOk(s.blocks, q, n)
    ensures PtrOk(Store(s, p, vs).blocks, q, n)
  {
  }
}
