/** The emulator's memory operations as they run, on address spaces and host
    blocks updated in place, each proved against its function in GuestMemory. */
module HostMemory {
  import opened Bytes
  import opened GuestMemory
  import opened ForkIsolation
  import opened AddressSpace
  import opened PageRanges
  import Mprotect

  // The address spaces of ms are valid, keep to repr, and share no object.
  ghost predicate MemsValid(ms: map<SpaceId, Mem>, repr: set<object>)
    reads repr
  {
    && (forall sid <- ms :: ms[sid] in repr && ms[sid].pgdir in repr && ms[sid].Valid())
    && (forall x, y | x in ms && y in ms && x != y :: ms[x] != ms[y] && ms[x].pgdir != ms[y].pgdir)
  }

  // The page tables and counters of ms are those of s.
  ghost predicate Mirrors(ms: map<SpaceId, Mem>, s: Memory)
    reads ms.Values
  {
    && s.changes.Keys == ms.Keys
    && (forall k <- s.entries :: k.space in ms)
    && (forall sid <- ms :: ms[sid].total == s.changes[sid] && TableOf(ms[sid].pt, s.entries, sid))
  }

  ghost predicate TableOf(pt: map<nat, PtEntry>, entries: map<Slot, PtEntry>, sid: SpaceId) {
    forall p: nat :: (p in pt <==> Slot(sid, p) in entries) && (p in pt ==> pt[p] == entries[Slot(sid, p)])
  }

  const BAD_PAGE: nat := 0x10000
  const HOLE_TOP: nat := 0xf7ffd
  const HOLE_BOTTOM: nat := 0x40000

  // A range pt_find_hole may return.
  ghost predicate Hole(mapped: set<Slot>, sid: SpaceId, start: nat, size: nat) {
    size > 0 && HOLE_BOTTOM < start && start + size <= HOLE_TOP + 1
    && forall p :: start <= p < start + size ==> Slot(sid, p) !in mapped
  }

  class Host {
    var blocks: map<BlockId, Block>       // struct data and the host mapping behind it
    var mems: map<SpaceId, Mem>
    ghost var state: Memory               // the same as a value
    ghost var Repr: set<object>           // what the address spaces consist of

    ghost predicate Valid()
      reads this, Repr
    {
      this !in Repr && MemsValid(mems, Repr) && Mirrors(mems, state) && state.blocks == blocks
    }

    constructor ()
      ensures Valid() && fresh(Repr) && state == Memory(map[], map[], map[])
    {
      blocks, mems, Repr, state := map[], map[], {}, Memory(map[], map[], map[]);
    }

    lemma Alive(sid: SpaceId)
      requires Valid() && sid in mems
      ensures sid in state.changes
    {
    }

    // ------------------------------------------------- single table slots

    method MemPt(sid: SpaceId, page: nat) returns (e: Option<PtEntry>)
      requires Valid() && sid in mems && page < MEM_PAGES
      ensures e == if Slot(sid, page) in state.entries then Some(state.entries[Slot(sid, page)]) else None
    {
      e := mems[sid].Pt(page);
    }

    method SetSlot(sid: SpaceId, page: nat, e: PtEntry)
      requires this !in Repr && MemsValid(mems, Repr) && sid in mems && page < MEM_PAGES
      modifies Repr
      ensures MemsValid(mems, Repr)
      ensures mems[sid].pt == old(mems[sid].pt)[page := e] && mems[sid].total == old(mems[sid].total)
      ensures forall x <- mems | x != sid :: mems[x].pt == old(mems[x].pt) && mems[x].total == old(mems[x].total)
    {
      mems[sid].SetPt(page, e);
    }

    /** The change counter as cpu_run reads it. */
    method Changes(sid: SpaceId) returns (n: nat)
      requires Valid() && sid in mems
      ensures sid in state.changes && n == state.changes[sid] % COUNTER
    {
      n := mems[sid].changes;
    }

    method SetEntry(sid: SpaceId, page: nat, e: PtEntry)
      requires Valid() && sid in mems && page < MEM_PAGES
      modifies Repr, this`state
      ensures Valid()
      ensures state == old(state).(entries := old(state).entries[Slot(sid, page) := e])
    {
      hide MemsValid, TableOf, Mem.Valid;
      SetSlot(sid, page, e);
      ghost var entries := state.entries;
      state := state.(entries := state.entries[Slot(sid, page) := e]);
      forall x <- mems ensures TableOf(mems[x].pt, state.entries, x) {
        TableSet(old(mems[x].pt), entries, x, Slot(sid, page), e);
      }
    }

    method ClearSlot(sid: SpaceId, page: nat)
      requires this !in Repr && MemsValid(mems, Repr) && sid in mems && page < MEM_PAGES
      modifies Repr
      ensures MemsValid(mems, Repr)
      ensures mems[sid].pt == old(mems[sid].pt) - {page} && mems[sid].total == old(mems[sid].total)
      ensures forall x <- mems | x != sid :: mems[x].pt == old(mems[x].pt) && mems[x].total == old(mems[x].total)
    {
      mems[sid].DelPt(page);
    }

    method DelEntry(sid: SpaceId, page: nat)
      requires Valid() && sid in mems && page < MEM_PAGES
      modifies Repr, this`state
      ensures Valid()
      ensures state == old(state).(entries := old(state).entries - {Slot(sid, page)})
    {
      hide MemsValid, TableOf, Mem.Valid;
      ClearSlot(sid, page);
      ghost var entries := state.entries;
      state := state.(entries := state.entries - {Slot(sid, page)});
      forall x <- mems ensures TableOf(mems[x].pt, state.entries, x) {
        TableCleared(old(mems[x].pt), entries, x, Slot(sid, page));
      }
    }

    method Notify(sid: SpaceId)
      requires this !in Repr && MemsValid(mems, Repr) && sid in mems
      modifies Repr
      ensures MemsValid(mems, Repr)
      ensures mems[sid].pt == old(mems[sid].pt) && mems[sid].total == old(mems[sid].total) + 1
      ensures forall x <- mems | x != sid :: mems[x].pt == old(mems[x].pt) && mems[x].total == old(mems[x].total)
    {
      mems[sid].Changed();
    }

    method MemChanged(sid: SpaceId)
      requires Valid() && sid in mems
      modifies Repr, this`state
      ensures Valid()
      ensures state == Bump(old(state), sid)
    {
      hide MemsValid, TableOf, Mem.Valid;
      Notify(sid);
      state := Bump(state, sid);
    }

    // `data->refcount++`
    method GetData(b: BlockId)
      requires Valid() && b in blocks
      modifies this`blocks, this`state
      ensures Valid()
      ensures state == old(state).(blocks := old(blocks)[b := old(blocks)[b].(refcount := old(blocks)[b].refcount + 1)])
    {
      hide MemsValid, TableOf, Mem.Valid;
      blocks := blocks[b := blocks[b].(refcount := blocks[b].refcount + 1)];
      state := state.(blocks := blocks);
    }

    // `--data->refcount == 0` and what follows
    method PutData(b: BlockId)
      requires Valid() && b in blocks && blocks[b].refcount > 0
      modifies this`blocks, this`state
      ensures Valid()
      ensures state == old(state).(blocks := Released(old(blocks), b))
    {
      hide MemsValid, TableOf, Mem.Valid;
      var n := blocks[b].refcount - 1;
      if n == 0 {
        blocks := blocks - {b};
      } else {
        blocks := blocks[b := blocks[b].(refcount := n)];
      }
      state := state.(blocks := blocks);
    }

    // -------------------------------------------------- ranges of pages

    method PtIsHole(sid: SpaceId, start: nat, pages: nat) returns (hole: Option<bool>)
      requires Valid() && sid in mems
      ensures hole == IsHole(state, sid, start, pages)
    {
      hide MemsValid, Mirrors, Mem.Valid;
      for page := start to start + pages
        invariant Valid() && (page > start ==> page <= MEM_PAGES)
        invariant forall p :: start <= p < page ==> Slot(sid, p) !in state.entries
      {
        if page >= MEM_PAGES {
          return None;
        }
        var pt := MemPt(sid, page);
        if pt.Some? {
          return Some(false);
        }
      }
      return Some(true);
    }

    method PtUnmapPage(sid: SpaceId, page: nat)
      requires Valid() && Inv(state) && sid in mems && page < MEM_PAGES
      modifies this`blocks, this`state, Repr
      ensures Valid()
      ensures state == DropEntry(old(state), Slot(sid, page))
    {
      hide MemsValid, Mirrors, Mem.Valid, Inv;
      var pt := MemPt(sid, page);
      if pt.Some? {
        MappedData(state, Slot(sid, page));
        DelEntry(sid, page);
        PutData(pt.value.data);
      }
    }

    method PtUnmap(sid: SpaceId, start: nat, pages: nat, force: bool) returns (err: Option<int>)
      requires Valid() && Inv(state) && sid in mems
      modifies this`blocks, this`state, Repr
      ensures Valid()
      ensures (state, err) == Unmap(old(state), sid, start, pages, force)
    {
      hide MemsValid, Mirrors, Mem.Valid, Inv, DropEntry;
      if !force {
        for page := start to start + pages
          invariant Valid() && state == old(state) && (page > start ==> page <= MEM_PAGES)
          invariant forall p :: start <= p < page ==> Slot(sid, p) in state.entries
        {
          if page >= MEM_PAGES {
            return None;
          }
          var pt := MemPt(sid, page);
          if pt.None? {
            return Some(-1);
          }
        }
      }
      for page := start to start + pages
        invariant Valid() && (page > start ==> page <= MEM_PAGES)
        invariant state == UnmapLoop(old(state), sid, start, page - start)
      {
        if page >= MEM_PAGES {
          return None;
        }
        UnmapView(old(state), sid, start, page - start);
        PtUnmapPage(sid, page);
      }
      MemChanged(sid);
      err := Some(0);
    }

    // One round of the loop in pt_map.
    method PlaceStep(sid: SpaceId, start: nat, i: nat, memory: BlockId, flags: Flags)
      requires Valid() && Inv(state) && sid in mems && start + i < MEM_PAGES
      requires memory in blocks && Only(state, memory, sid, start, i)
      modifies this`blocks, this`state, Repr
      ensures Valid()
      ensures state == Place(old(state), Slot(sid, start + i), memory, i, flags)
    {
      hide MemsValid, Mirrors, Mem.Valid, Inv, DropEntry, View, Only;
      ghost var t, k := state, Slot(sid, start + i);
      PlaceKeepsBlock(t, sid, start, i, memory);
      var pt := MemPt(sid, start + i);
      if pt.Some? {
        AllOneMapped(t.entries.Keys, k);
        assert UnmapLoop(t, sid, start + i, 1) == DropEntry(UnmapLoop(t, sid, start + i, 0), k);
        var _ := PtUnmap(sid, start + i, 1, false);
      }
      assert state == Evict(t, k);
      GetData(memory);
      SetEntry(sid, start + i, PtEntry(memory, i * PAGE_SIZE, flags));
    }

    /** pt_map of the host mapping `bytes`; `memory` is the address of the struct data that malloc finds for it. */
    method PtMap(sid: SpaceId, start: nat, pages: nat, memory: BlockId, bytes: seq<byte>, flags: Flags) returns (err: Option<int>)
      requires Valid() && Inv(state) && sid in mems
      requires memory !in blocks && |bytes| == pages * PAGE_SIZE
      modifies this`blocks, this`state, Repr
      ensures Valid()
      ensures (state, err) == Map(old(state), sid, start, pages, memory, bytes, flags)
    {
      hide MemsValid, Mirrors, Mem.Valid, Inv, Place, Only;
      Alive(sid);
      NewData(memory, bytes);
      ghost var s := state;
      for i := 0 to pages
        invariant Valid() && (i > 0 ==> start + i <= MEM_PAGES)
        invariant state == MapLoop(s, sid, start, i, memory, flags)
      {
        if start + i >= MEM_PAGES {
          return None;
        }
        MapLoopInv(s, sid, start, pages, i, memory, flags);
        PlaceStep(sid, start, i, memory, flags);
      }
      err := Some(0);
    }

    method NewData(memory: BlockId, bytes: seq<byte>)
      requires Valid() && Inv(state) && memory !in blocks
      modifies this`blocks, this`state
      ensures Valid() && Inv(state) && state == NewBlock(old(state), memory, bytes)
      ensures forall k <- state.entries :: state.entries[k].data != memory
    {
      NewBlockKeeps(state, memory, bytes);
      hide MemsValid, TableOf, Inv, View;
      blocks := blocks[memory := Block(bytes, 0)];
      state := NewBlock(state, memory, bytes);
    }

    method PtMapNothing(sid: SpaceId, start: nat, pages: nat, flags: Flags, memory: BlockId) returns (err: Option<int>)
      requires Valid() && Inv(state) && sid in mems && memory !in blocks && pages <= MEM_PAGES
      modifies this`blocks, this`state, Repr
      ensures Valid()
      ensures (state, err) == MapNothing(old(state), sid, start, pages, memory, flags)
    {
      hide MemsValid, Mirrors, Mem.Valid, Inv, Map;
      if pages == 0 {
        return Some(0);
      }
      if pages * PAGE_SIZE % ADDR_SPACE == 0 {
        return Some(EINVAL);
      }
      err := PtMap(sid, start, pages, memory, Zeros(pages * PAGE_SIZE), flags.(anon := true));
    }

    method PtCopyOnWrite(src: SpaceId, srcStart: nat, dst: SpaceId, dstStart: nat, pages: nat)
      requires Valid() && Inv(state) && src in mems && dst in mems && src != dst
      requires srcStart + pages <= MEM_PAGES && dstStart + pages <= MEM_PAGES
      modifies this`blocks, this`state, Repr
      ensures Valid()
      ensures state == GuestMemory.PtCopyOnWrite(old(state), src, srcStart, dst, dstStart, pages)
    {
      hide MemsValid, Mirrors, Mem.Valid, Inv, ShareOne, Bump;
      Alive(dst);
      for i := 0 to pages
        invariant Valid()
        invariant state == ShareLoop(old(state), src, srcStart, dst, dstStart, i)
      {
        ShareLoopInv(old(state), src, srcStart, dst, dstStart, i);
        ShareStep(src, srcStart + i, dst, dstStart + i);
      }
      MemChanged(src);
      MemChanged(dst);
    }

    method ShareStep(src: SpaceId, srcPage: nat, dst: SpaceId, dstPage: nat)
      requires Valid() && Inv(state) && src in mems && dst in mems && src != dst
      requires srcPage < MEM_PAGES && dstPage < MEM_PAGES
      modifies this`blocks, this`state, Repr
      ensures Valid()
      ensures state == ShareOne(old(state), Slot(src, srcPage), Slot(dst, dstPage))
    {
      hide MemsValid, Mirrors, Mem.Valid, Inv, DropEntry, View;
      var entry := MemPt(src, srcPage);
      if entry.Some? {
        ghost var s := state;
        var from, to := Slot(src, srcPage), Slot(dst, dstPage);
        DropView(s, to);
        BumpKeeps(DropEntry(s, to), dst);
        assert UnmapLoop(s, dst, dstPage, 1) == DropEntry(UnmapLoop(s, dst, dstPage, 0), to);
        var _ := PtUnmap(dst, dstPage, 1, true);
        assert state == Bump(DropEntry(s, to), dst);
        assert from in state.entries && state.entries[from] == entry.value by { DropOther(s, to, from); }
        MappedData(state, from);
        var shared := entry.value.(flags := CowFlags(entry.value.flags));
        SetEntry(src, srcPage, shared);
        GetData(shared.data);
        SetEntry(dst, dstPage, shared);
      }
    }

    // -------------------------------------------------------- mem_ptr

    /** mem_ptr; `memory` is where the host puts the page it may have to map. None stands for NULL. */
    method MemPtr(sid: SpaceId, addr: nat, write: bool, memory: BlockId) returns (ptr: Option<HostPtr>)
      requires Valid() && Inv(state) && sid in mems && addr < ADDR_SPACE && memory !in blocks
      modifies this`blocks, this`state, Repr
      ensures Valid() && Inv(state)
      ensures state == Touch(old(state), sid, addr / PAGE_SIZE, write, memory)
      ensures ptr == Pointer(old(state), sid, addr, write, memory)
    {
      hide MemsValid, Mirrors, Mem.Valid, Inv, GuestMemory.PtMap;
      Alive(sid);
      ghost var s := state;
      var page := addr / PAGE_SIZE;
      TouchInv(s, sid, page, write, memory);
      GrowFacts(s, sid, page, memory);
      var grown := GrowTo(sid, page, memory);
      if !grown {
        return None;
      }
      var entry := MemPt(sid, page);
      if write {
        if !entry.value.flags.write {
          return None;
        }
        if entry.value.flags.cow {
          CowFacts(s, sid, page, memory);
          var data := blocks[entry.value.data].bytes;
          var copy := data[entry.value.offset..entry.value.offset + PAGE_SIZE];
          MapInside(state, sid, page, 1, memory, copy, entry.value.flags.(cow := false));
          var _ := PtMap(sid, page, 1, memory, copy, entry.value.flags.(cow := false));
        }
      }
      entry := MemPt(sid, page);
      ptr := Some(HostPtr(entry.value.data, entry.value.offset + addr % PAGE_SIZE));
    }

    // The part of mem_ptr for a page that does not exist: true if the page exists afterwards.
    method GrowTo(sid: SpaceId, page: nat, memory: BlockId) returns (existsNow: bool)
      requires Valid() && Inv(state) && sid in mems && page < MEM_PAGES && memory !in blocks
      modifies this`blocks, this`state, Repr
      ensures Valid()
      ensures state == Grow(old(state), sid, page, memory)
      ensures existsNow <==> Slot(sid, page) in state.entries
    {
      hide MemsValid, Mirrors, Mem.Valid, Inv, GuestMemory.PtMap;
      Alive(sid);
      ghost var s := state;
      var entry := MemPt(sid, page);
      if entry.Some? {
        return true;
      }
      var p := page + 1;
      while p < MEM_PAGES
        invariant page < p <= MEM_PAGES && Valid() && state == s
        invariant NextMapped(s.entries.Keys, sid, page + 1) == NextMapped(s.entries.Keys, sid, p)
      {
        var e := MemPt(sid, p);
        if e.Some? {
          break;
        }
        p := p + 1;
      }
      if p >= MEM_PAGES {
        return false;
      }
      var e := MemPt(sid, p);
      if !e.value.flags.growsdown {
        return false;
      }
      MapInside(s, sid, page, 1, memory, Zeros(PAGE_SIZE), STACK_FLAGS);
      var _ := PtMapNothing(sid, page, 1, Flags(false, true, false, true, false, false, false), memory);
      GrownMapped(s, sid, page, memory);
      return true;
    }

    // ------------------------------------------------- holes and flags

    /** pt_find_hole is exact: it returns the highest start above 0x40000 of an unmapped range of that size
        that ends at or below 0xf7ffe, and BAD_PAGE exactly when there is none. No range has size zero. */
    method PtFindHole(sid: SpaceId, size: nat) returns (start: nat)
      requires Valid() && sid in mems
      ensures start != BAD_PAGE ==> Hole(state.entries.Keys, sid, start, size)
      ensures start != BAD_PAGE ==> forall p: nat :: Hole(state.entries.Keys, sid, p, size) ==> p <= start
      ensures start == BAD_PAGE <==> forall p: nat :: !Hole(state.entries.Keys, sid, p, size)
    {
      hide MemsValid, Mirrors, Mem.Valid;
      var holeEnd: nat := *;
      var inHole := false;
      var page := HOLE_TOP;
      while page > HOLE_BOTTOM
        invariant HOLE_BOTTOM <= page <= HOLE_TOP && Valid()
        invariant inHole ==> page < holeEnd <= HOLE_TOP + 1 && 0 < holeEnd - page - 1 && (holeEnd - page - 1 < size || size == 0)
        invariant inHole ==> (holeEnd == HOLE_TOP + 1 || Slot(sid, holeEnd) in state.entries)
        invariant inHole ==> forall p :: page < p < holeEnd ==> Slot(sid, p) !in state.entries
        invariant !inHole ==> page == HOLE_TOP || Slot(sid, page + 1) in state.entries
        invariant forall p: nat :: page < p ==> !Hole(state.entries.Keys, sid, p, size)
      {
        var pt := MemPt(sid, page);
        if !inHole && pt.None? {
          inHole := true;
          holeEnd := page + 1;
        }
        if pt.Some? {
          inHole := false;
        } else if holeEnd - page == size {
          return page;
        }
        page := page - 1;
      }
      return BAD_PAGE;
    }

    /** pt_set_flags, without the host's mprotect of the backing pages. */
    method PtSetFlags(sid: SpaceId, start: nat, pages: nat, flags: Flags) returns (err: Option<int>)
      requires Valid() && sid in mems
      modifies this`state, Repr
      ensures Valid()
      ensures (state, err) == SetFlags(old(state), sid, start, pages, flags)
    {
      hide MemsValid, Mirrors, Mem.Valid;
      for page := start to start + pages
        invariant Valid() && state == old(state) && (page > start ==> page <= MEM_PAGES)
        invariant forall p :: start <= p < page ==> Slot(sid, p) in state.entries
      {
        if page >= MEM_PAGES {
          return None;
        }
        var pt := MemPt(sid, page);
        if pt.None? {
          return Some(Mprotect.ENOMEM);
        }
      }
      OverwriteFlags(sid, start, pages, flags);
      MemChanged(sid);
      err := Some(0);
    }

    // The second loop of pt_set_flags.
    method OverwriteFlags(sid: SpaceId, start: nat, pages: nat, flags: Flags)
      requires Valid() && sid in mems && InTable(start, pages) && AllMapped(state.entries.Keys, sid, start, pages)
      modifies this`state, Repr
      ensures Valid() && state == Mprotect.SetLoop(old(state), sid, start, pages, flags)
    {
      hide MemsValid, Mirrors, Mem.Valid;
      for page := start to start + pages
        invariant Valid()
        invariant state == Mprotect.SetLoop(old(state), sid, start, page - start, flags)
      {
        Mprotect.SetLoopEntries(old(state), sid, start, page - start, flags);
        var entry := MemPt(sid, page);
        SetEntry(sid, page, entry.value.(flags := flags));
      }
    }

    // ----------------------------------------------- address space life

    /** mem_new, at an identity not in use. */
    method MemNew(sid: SpaceId)
      requires Valid() && sid !in mems
      modifies this
      ensures Valid() && state == Create(old(state), sid) && mems.Keys == old(mems.Keys) + {sid}
      ensures mems[sid].refcount == 1 && fresh(mems[sid]) && fresh(Repr - old(Repr))
    {
      var m := new Mem();
      Attach(sid, m);
    }

    method Attach(sid: SpaceId, m: Mem)
      requires Valid() && sid !in mems && m.Valid() && m.pt == map[] && m.total == 0
      requires m !in Repr && m.pgdir !in Repr
      modifies this`mems, this`Repr, this`state
      ensures Valid() && mems == old(mems)[sid := m] && Repr == old(Repr) + {m, m.pgdir}
      ensures state == Create(old(state), sid)
    {
      hide MemsValid, Mirrors, Mem.Valid;
      MirrorsWith(mems, state, sid, m);
      MemsWith(mems, Repr, sid, m);
      mems := mems[sid := m];
      Repr := Repr + {m, m.pgdir};
      state := Create(state, sid);
    }

    /** mem_retain. */
    method MemRetain(sid: SpaceId)
      requires Valid() && sid in mems
      modifies mems[sid]
      ensures Valid() && mems[sid].refcount == old(mems[sid].refcount) + 1
    {
      mems[sid].refcount := mems[sid].refcount + 1;
      assert forall p | 0 <= p < MEM_PAGES :: old(mems[sid].Agrees(p)) ==> mems[sid].Agrees(p);
    }

    /** mem_release: the last reference takes every page and the space with it. */
    method MemRelease(sid: SpaceId)
      requires Valid() && Inv(state) && sid in mems && mems[sid].refcount > 0
      modifies this, Repr
      ensures Valid()
      ensures if old(mems[sid].refcount) == 1 then state == Destroy(old(state), sid) && mems == old(mems) - {sid}
              else state == old(state) && mems == old(mems) && mems[sid].refcount == old(mems[sid].refcount) - 1
    {
      var n := mems[sid].refcount - 1;
      DropReference(sid, n);
      if n == 0 {
        UnmapAll(sid);
        Forget(sid);
      }
    }

    method DropReference(sid: SpaceId, n: nat)
      requires Valid() && sid in mems
      modifies mems[sid]
      ensures Valid() && mems[sid].refcount == n
    {
      mems[sid].refcount := n;
      assert forall p | 0 <= p < MEM_PAGES :: old(mems[sid].Agrees(p)) ==> mems[sid].Agrees(p);
    }

    method UnmapAll(sid: SpaceId)
      requires Valid() && Inv(state) && sid in mems
      modifies this`blocks, this`state, Repr
      ensures Valid() && state == GuestMemory.PtUnmap(old(state), sid, 0, MEM_PAGES, true).0
      ensures forall k <- state.entries :: k.space != sid
    {
      hide MemsValid, Mirrors, Mem.Valid, Inv, UnmapLoop;
      UnmappedAll(state, sid);
      var _ := PtUnmap(sid, 0, MEM_PAGES, true);
    }

    method Forget(sid: SpaceId)
      requires Valid() && sid in mems && forall k <- state.entries :: k.space != sid
      modifies this`mems, this`state
      ensures Valid() && mems == old(mems) - {sid}
      ensures state == old(state).(changes := old(state).changes - {sid})
    {
      hide MemsValid, Mirrors, Mem.Valid;
      MirrorsWithout(mems, state, sid);
      MemsWithout(mems, Repr, sid);
      mems := mems - {sid};
      state := state.(changes := state.changes - {sid});
    }

    // --------------------------------------------- loads and stores

    /** The address malloc picks for a struct data: none that is in use. */
    method PickAddress() returns (id: BlockId)
      ensures id !in blocks
    {
      UnusedId(blocks.Keys);
      id :| id !in blocks;
    }

    /** memcpy from host memory. */
    method Peek(p: HostPtr, n: nat) returns (vs: seq<byte>)
      requires Valid() && PtrOk(state.blocks, p, n)
      ensures vs == Load(state, p, n)
    {
      vs := blocks[p.block].bytes[p.offset..p.offset + n];
    }

    /** memcpy to host memory. */
    method Poke(p: HostPtr, vs: seq<byte>)
      requires Valid() && PtrOk(state.blocks, p, |vs|)
      modifies this`blocks, this`state
      ensures Valid() && state == Store(old(state), p, vs)
    {
      hide MemsValid, TableOf, Mem.Valid;
      blocks := blocks[p.block := blocks[p.block].(bytes := Splice(blocks[p.block].bytes, p.offset, vs))];
      state := Store(state, p, vs);
    }
  }

  lemma MemsWithout(ms: map<SpaceId, Mem>, repr: set<object>, sid: SpaceId)
    requires MemsValid(ms, repr)
    ensures MemsValid(ms - {sid}, repr)
  {
    hide Mem.Valid;
  }

  lemma MirrorsWithout(ms: map<SpaceId, Mem>, s: Memory, sid: SpaceId)
    requires Mirrors(ms, s) && forall k <- s.entries :: k.space != sid
    ensures Mirrors(ms - {sid}, s.(changes := s.changes - {sid}))
  {
    hide TableOf;
  }

  lemma MemsWith(ms: map<SpaceId, Mem>, repr: set<object>, sid: SpaceId, m: Mem)
    requires MemsValid(ms, repr) && m.Valid() && m !in repr && m.pgdir !in repr
    ensures MemsValid(ms[sid := m], repr + {m, m.pgdir})
  {
    hide Mem.Valid;
  }

  lemma MirrorsWith(ms: map<SpaceId, Mem>, s: Memory, sid: SpaceId, m: Mem)
    requires Mirrors(ms, s) && sid !in ms && m.pt == map[] && m.total == 0
    ensures Mirrors(ms[sid := m], Create(s, sid))
  {
    TableEmpty(s.entries, sid);
    hide TableOf;
  }

  lemma UnusedId(used: set<nat>)
    ensures exists id: nat :: id !in used
  {
    var top := Above(used);
    assert top !in used;
  }

  lemma Above(used: set<nat>) returns (top: nat)
    ensures forall id <- used :: id < top
  {
    if used == {} {
      top := 0;
    } else {
      var x :| x in used;
      var t := Above(used - {x});
      top := if x < t then t else x + 1;
      forall id <- used ensures id < top {
        if id != x { assert id in used - {x}; }
      }
    }
  }

  lemma TableSet(pt: map<nat, PtEntry>, entries: map<Slot, PtEntry>, x: SpaceId, k: Slot, e: PtEntry)
    requires TableOf(pt, entries, x)
    ensures TableOf(if x == k.space then pt[k.page := e] else pt, entries[k := e], x)
  {
  }

  lemma MappedData(s: Memory, k: Slot)
    requires Inv(s) && k in s.entries
    ensures s.entries[k].data in s.blocks && s.blocks[s.entries[k].data].refcount > 0
  {
    ViewAt(s, k);
    assert k in Users(s, s.entries[k].data);
  }

  lemma TableCleared(pt: map<nat, PtEntry>, entries: map<Slot, PtEntry>, x: SpaceId, k: Slot)
    requires TableOf(pt, entries, x)
    ensures TableOf(if x == k.space then pt - {k.page} else pt, entries - {k}, x)
  {
  }

  lemma DropOther(s: Memory, k: Slot, l: Slot)
    requires k != l
    ensures (l in DropEntry(s, k).entries <==> l in s.entries) && (l in s.entries ==> DropEntry(s, k).entries[l] == s.entries[l])
  {
  }

  lemma AllOneMapped(mapped: set<Slot>, k: Slot)
    ensures AllMapped(mapped, k.space, k.page, 1) <==> k in mapped
  {
  }

  lemma PlaceKeepsBlock(s: Memory, sid: SpaceId, start: nat, i: nat, b: BlockId)
    requires Inv(s) && b in s.blocks && Only(s, b, sid, start, i)
    ensures b in Evict(s, Slot(sid, start + i)).blocks
  {
    EvictView(s, Slot(sid, start + i));
    hide Inv, View, Evict;
    assert Slot(sid, start + i) !in Users(s, b);
  }

  lemma ShareLoopInv(s: Memory, src: SpaceId, srcStart: nat, dst: SpaceId, dstStart: nat, n: nat)
    requires Inv(s) && src != dst && dst in s.changes && dstStart + n <= MEM_PAGES
    ensures Inv(ShareLoop(s, src, srcStart, dst, dstStart, n))
  {
    ShareLoopView(s, src, srcStart, dst, dstStart, n);
  }

  lemma MapLoopInv(s: Memory, sid: SpaceId, start: nat, pages: nat, i: nat, b: BlockId, flags: Flags)
    requires Inv(s) && sid in s.changes && start + i <= MEM_PAGES && i <= pages
    requires b in s.blocks && |s.blocks[b].bytes| == pages * PAGE_SIZE
    requires forall k <- s.entries :: s.entries[k].data != b
    ensures var t := MapLoop(s, sid, start, i, b, flags); Inv(t) && b in t.blocks && Only(t, b, sid, start, i)
  {
    MapLoopView(s, sid, start, i, b, flags);
  }

  lemma TouchInv(s: Memory, sid: SpaceId, page: nat, write: bool, id: BlockId)
    requires Inv(s) && sid in s.changes && page < MEM_PAGES && id !in s.blocks
    ensures Inv(Touch(s, sid, page, write, id))
  {
    TouchView(s, sid, page, write, id);
  }

  lemma GrownMapped(s: Memory, sid: SpaceId, page: nat, id: BlockId)
    requires Inv(s) && sid in s.changes && page < MEM_PAGES && id !in s.blocks
    ensures Slot(sid, page) in PtMap(s, sid, page, 1, id, Zeros(PAGE_SIZE), STACK_FLAGS).entries
  {
    MapOneView(s, Slot(sid, page), id, Zeros(PAGE_SIZE), STACK_FLAGS);
  }

  lemma GrowFacts(s: Memory, sid: SpaceId, page: nat, id: BlockId)
    requires Inv(s) && sid in s.changes && page < MEM_PAGES && id !in s.blocks
    ensures Inv(Grow(s, sid, page, id))
  {
    GrowView(s, sid, page, id);
  }

  // A copy-on-write page was there before, so nothing was mapped yet.
  lemma CowFacts(s: Memory, sid: SpaceId, page: nat, id: BlockId)
    requires Inv(s) && sid in s.changes && page < MEM_PAGES && id !in s.blocks
    requires var k := Slot(sid, page);
             k in Grow(s, sid, page, id).entries && Grow(s, sid, page, id).entries[k].flags.cow
    ensures var k, t := Slot(sid, page), Grow(s, sid, page, id);
            && t == s && EntryOk(s.blocks, s.entries[k])
            && PtMap(t, sid, page, 1, id, PageBytes(t.blocks, t.entries[k]), t.entries[k].flags.(cow := false))
               == Unshare(t, k, id)
            && k in Unshare(t, k, id).entries && Unshare(t, k, id).entries[k].flags.write == s.entries[k].flags.write
  {
    var k := Slot(sid, page);
    if k !in s.entries {
      GrownEntry(s, sid, page, id);
    } else {
      GrowMapped(s, sid, page, id);
      ViewAt(s, k);
      UnshareView(s, k, id);
    }
  }

  lemma UnmappedAll(s: Memory, sid: SpaceId)
    requires Inv(s)
    ensures forall k <- GuestMemory.PtUnmap(s, sid, 0, MEM_PAGES, true).0.entries :: k.space != sid
  {
    UnmapView(s, sid, 0, MEM_PAGES);
    var t := UnmapLoop(s, sid, 0, MEM_PAGES);
    ViewKeys(t);
    ViewKeys(s);
    forall k <- t.entries ensures k.space != sid {
      ViewAt(t, k);
      assert k !in Range(sid, 0, MEM_PAGES);
    }
    hide UnmapLoop, Inv, View;
  }

  lemma TableEmpty(entries: map<Slot, PtEntry>, sid: SpaceId)
    requires forall k <- entries :: k.space != sid
    ensures TableOf(map[], entries, sid)
  {
  }
}
