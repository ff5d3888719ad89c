/** The system calls of kernel/mmap.c. They check neither that a range ends inside the address space nor that what lies in
    it belongs to them; what each call does, and exactly when it leaves the page table. */
module MemoryCalls {
  import opened Bytes
  import opened GuestMemory
  import opened PageRanges
  import opened HostMemory
  import Mprotect

  const EFAULT: int := -14
  const ENOMEM: int := -12

  type Addr = n: int | 0 <= n < ADDR_SPACE

  function PageOf(addr: Addr): nat { addr / PAGE_SIZE }

  function AddrOf(page: nat): (a: Addr)
    requires page < MEM_PAGES
    ensures PageOf(a) == page && a % PAGE_SIZE == 0
  {
    page * PAGE_SIZE
  }

  // PAGE_ROUND_UP, in 32-bit arithmetic: zero wraps around to the whole address space.
  function PageRoundUp(n: Addr): nat { (if n == 0 then ADDR_SPACE - 1 else n - 1) / PAGE_SIZE + 1 }

  // The first three P_ bits.
  function ProtFlags(prot: int): Flags { Flags(prot % 2 == 1, prot / 2 % 2 == 1, prot / 4 % 2 == 1, false, false, false, false) }
  predicate ProtOk(prot: int) { 0 <= prot < 8 }

  // --------------------------------------------------- what the calls do

  /** The memory and the result; None stands for a read or write past the page directory. */
  function Munmap(s: Memory, sid: SpaceId, addr: Addr, len: Addr): (Memory, Option<int>) {
    if addr % PAGE_SIZE != 0 || len == 0 then (s, Some(EINVAL))
    else
      var (t, err) := Unmap(s, sid, PageOf(addr), PageRoundUp(len), false);
      (t, if err.Some? && err.value < 0 then Some(EINVAL) else err)
  }

  function Protect(s: Memory, sid: SpaceId, addr: Addr, len: Addr, prot: int): (Memory, Option<int>) {
    if addr % PAGE_SIZE != 0 || !ProtOk(prot) then (s, Some(EINVAL))
    else SetFlags(s, sid, PageOf(addr), PageRoundUp(len), ProtFlags(prot))
  }

  // mmap of anonymous private memory at an address of the caller's choice.
  function MmapAt(s: Memory, sid: SpaceId, addr: Addr, len: Addr, prot: int, id: BlockId): (Memory, Option<int>) {
    if len == 0 || !ProtOk(prot) || addr % PAGE_SIZE != 0 then (s, Some(EINVAL))
    else
      var (t, err) := MapNothing(s, sid, PageOf(addr), PageRoundUp(len), id, ProtFlags(prot));
      (t, if err == Some(0) then Some(addr) else err)
  }

  // mmap at an address of its own choice: the start of a hole, or no memory exactly if there is none.
  ghost predicate MmapInHole(s: Memory, t: Memory, sid: SpaceId, len: Addr, prot: int, id: BlockId, res: Option<int>) {
    if exists p: nat :: Hole(s.entries.Keys, sid, p, PageRoundUp(len))
    then exists a: Addr :: Hole(s.entries.Keys, sid, PageOf(a), PageRoundUp(len)) && (t, res) == MmapAt(s, sid, a, len, prot, id)
                           && res == Some(a)
    else t == s && res == Some(ENOMEM)
  }

  // The walk over the old pages uses an entry exactly when there is none, so it stops for nothing else.
  function Mremap(s: Memory, sid: SpaceId, addr: Addr, oldLen: Addr, newLen: Addr, flags: nat, id: BlockId): (Memory, Option<int>) {
    var page, oldPages, newPages := PageOf(addr), PageOf(oldLen), PageOf(newLen);
    if addr % PAGE_SIZE != 0 || flags > 1 then (s, Some(EINVAL))
    else if newPages <= oldPages then
      var (t, err) := Unmap(s, sid, page + newPages, oldPages - newPages, false);
      (t, if err.None? then None else if err.value < 0 then Some(EFAULT) else Some(addr))
    else if Slot(sid, page) !in s.entries then (s, Some(EFAULT))
    else if !InTable(page, oldPages) || !AllMapped(s.entries.Keys, sid, page, oldPages) then (s, None)
    else if !s.entries[Slot(sid, page)].flags.anon then (s, Some(EFAULT))
    else
      var hole := IsHole(s, sid, page + oldPages, newPages - oldPages);
      if hole.None? then (s, None)
      else if !hole.value then (s, Some(ENOMEM))
      else
        var (t, err) := MapNothing(s, sid, page + oldPages, newPages - oldPages, id, s.entries[Slot(sid, page)].flags);
        (t, if err == Some(0) then Some(addr) else err)
  }

  // The memory, the new mem->brk and the result.
  function Brk(s: Memory, sid: SpaceId, startBrk: Addr, brk: Addr, newBrk: Addr, id: BlockId): (Memory, Addr, Option<int>)
    requires brk > 0
  {
    if newBrk != 0 && newBrk < startBrk then (s, brk, Some(EINVAL))
    else if newBrk == 0 then (s, brk, Some(brk))
    else if newBrk > brk then
      var (t, err) := MapNothing(s, sid, PageRoundUp(brk), PageRoundUp(newBrk) - PageRoundUp(brk), id,
                                 Flags(false, true, false, false, false, false, false));
      if err == Some(0) then (t, newBrk, Some(newBrk)) else (t, brk, err)
    else if newBrk < brk then
      var (t, err) := Unmap(s, sid, PageOf(newBrk), PageOf(brk), true);
      if err.Some? then (t, newBrk, Some(newBrk)) else (t, brk, None)
    else (s, brk, Some(brk))
  }

  // ------------------------------------------------- the calls themselves

  method SysMunmap(h: Host, sid: SpaceId, addr: Addr, len: Addr) returns (res: Option<int>)
    requires h.Valid() && Inv(h.state) && sid in h.mems
    modifies h`blocks, h`state, h.Repr
    ensures h.Valid() && (h.state, res) == Munmap(old(h.state), sid, addr, len)
  {
    if addr % PAGE_SIZE != 0 || len == 0 {
      return Some(EINVAL);
    }
    var err := h.PtUnmap(sid, PageOf(addr), PageRoundUp(len), false);
    if err.Some? && err.value < 0 {
      return Some(EINVAL);
    }
    return err;
  }

  method SysMprotect(h: Host, sid: SpaceId, addr: Addr, len: Addr, prot: int) returns (res: Option<int>)
    requires h.Valid() && sid in h.mems
    modifies h`state, h.Repr
    ensures h.Valid() && (h.state, res) == Protect(old(h.state), sid, addr, len, prot)
  {
    if addr % PAGE_SIZE != 0 || !ProtOk(prot) {
      return Some(EINVAL);
    }
    res := h.PtSetFlags(sid, PageOf(addr), PageRoundUp(len), ProtFlags(prot));
  }

  /** sys_mmap of anonymous private memory; with address 0 it takes the highest hole that fits. */
  method SysMmap(h: Host, sid: SpaceId, addr: Addr, len: Addr, prot: int, id: BlockId) returns (res: Option<int>)
    requires h.Valid() && Inv(h.state) && sid in h.mems && id !in h.blocks
    modifies h`blocks, h`state, h.Repr
    ensures h.Valid()
    ensures addr != 0 || len == 0 || !ProtOk(prot) ==> (h.state, res) == MmapAt(old(h.state), sid, addr, len, prot, id)
    ensures addr == 0 && len != 0 && ProtOk(prot) ==> MmapInHole(old(h.state), h.state, sid, len, prot, id, res)
  {
    hide Host.Valid, Inv, Hole, MapNothing;
    if len == 0 || !ProtOk(prot) {
      return Some(EINVAL);
    }
    var pages, page := PageRoundUp(len), 0;
    if addr == 0 {
      page := h.PtFindHole(sid, pages);
      if page == BAD_PAGE {
        return Some(ENOMEM);
      }
      HoleFits(h.state, sid, page, len, prot, id);
    } else {
      if addr % PAGE_SIZE != 0 {
        return Some(EINVAL);
      }
      page := PageOf(addr);
    }
    var err := h.PtMapNothing(sid, page, pages, ProtFlags(prot), id);
    var a: Addr := AddrOf(page);
    if err != Some(0) {
      return err;
    }
    return Some(a);
  }

  lemma HoleFits(s: Memory, sid: SpaceId, page: nat, len: Addr, prot: int, id: BlockId)
    requires Hole(s.entries.Keys, sid, page, PageRoundUp(len)) && len != 0 && ProtOk(prot)
    ensures page < MEM_PAGES && MmapAt(s, sid, AddrOf(page), len, prot, id).1 == Some(AddrOf(page))
  {
  }

  method SysMremap(h: Host, sid: SpaceId, addr: Addr, oldLen: Addr, newLen: Addr, flags: nat, id: BlockId) returns (res: Option<int>)
    requires h.Valid() && Inv(h.state) && sid in h.mems && id !in h.blocks
    modifies h`blocks, h`state, h.Repr
    ensures h.Valid() && (h.state, res) == Mremap(old(h.state), sid, addr, oldLen, newLen, flags, id)
  {
    hide Host.Valid, Inv, MapNothing, Unmap, IsHole;
    if addr % PAGE_SIZE != 0 || flags > 1 {
      return Some(EINVAL);
    }
    var start, oldPages, newPages := PageOf(addr), PageOf(oldLen), PageOf(newLen);
    if newPages <= oldPages {
      var err := h.PtUnmap(sid, start + newPages, oldPages - newPages, false);
      return if err.None? then None else if err.value < 0 then Some(EFAULT) else Some(addr);
    }
    var entry := h.MemPt(sid, start);
    if entry.None? {
      return Some(EFAULT);
    }
    var ptFlags := entry.value.flags;
    for page := start to start + oldPages
      invariant h.Valid() && h.state == old(h.state) && h.blocks == old(h.blocks) && h.Repr == old(h.Repr) && sid in h.mems
      invariant page > start ==> page <= MEM_PAGES
      invariant forall p :: start <= p < page ==> Slot(sid, p) in h.state.entries
    {
      if page >= MEM_PAGES {
        return None;
      }
      entry := h.MemPt(sid, page);
      if entry.None? {
        return None;   // reads entry->flags of a null entry
      }
    }
    if !ptFlags.anon {
      return Some(EFAULT);
    }
    var hole := h.PtIsHole(sid, start + oldPages, newPages - oldPages);
    if hole != Some(true) {
      return if hole.None? then None else Some(ENOMEM);
    }
    var err := h.PtMapNothing(sid, start + oldPages, newPages - oldPages, ptFlags, id);
    return if err == Some(0) then Some(addr) else err;
  }

  /** sys_brk; the break of the space goes in and comes out. */
  method SysBrk(h: Host, sid: SpaceId, startBrk: Addr, brk: Addr, newBrk: Addr, id: BlockId) returns (brk': Addr, res: Option<int>)
    requires h.Valid() && Inv(h.state) && sid in h.mems && id !in h.blocks && brk > 0
    modifies h`blocks, h`state, h.Repr
    ensures h.Valid() && (h.state, brk', res) == Brk(old(h.state), sid, startBrk, brk, newBrk, id)
  {
    hide Host.Valid, Inv, MapNothing, UnmapLoop, Bump, AllMapped;
    brk' := brk;
    if newBrk != 0 && newBrk < startBrk {
      return brk', Some(EINVAL);
    }
    if newBrk == 0 {
      return brk', Some(brk);
    }
    var err := Some(0);
    if newBrk > brk {
      err := h.PtMapNothing(sid, PageRoundUp(brk), PageRoundUp(newBrk) - PageRoundUp(brk),
                            Flags(false, true, false, false, false, false, false), id);
    } else if newBrk < brk {
      err := h.PtUnmap(sid, PageOf(newBrk), PageOf(brk), true);
    }
    if err != Some(0) {
      return brk', err;
    }
    return newBrk, Some(newBrk);
  }

  // ------------------------------------------------ what the calls mean

  // Every byte of a range of addresses is mapped.
  ghost predicate Covered(mapped: set<Slot>, sid: SpaceId, from: nat, to: nat) {
    forall a :: from <= a < to ==> Slot(sid, a / PAGE_SIZE) in mapped
  }

  // The page holds a byte of the range.
  predicate Overlaps(k: Slot, sid: SpaceId, addr: nat, len: nat) {
    k.space == sid && k.page * PAGE_SIZE < addr + len && addr < k.page * PAGE_SIZE + PAGE_SIZE
  }

  // Whole pages from an aligned address on, in bytes.
  lemma PagesAreBytes(mapped: set<Slot>, sid: SpaceId, addr: Addr, len: Addr)
    requires addr % PAGE_SIZE == 0 && len > 0
    ensures InTable(PageOf(addr), PageRoundUp(len)) <==> addr + len <= ADDR_SPACE
    ensures AllMapped(mapped, sid, PageOf(addr), Inside(PageOf(addr), PageRoundUp(len)))
            <==> Covered(mapped, sid, addr, if addr + len <= ADDR_SPACE then addr + len else ADDR_SPACE)
    ensures forall k: Slot :: k in Range(sid, PageOf(addr), PageRoundUp(len)) <==> Overlaps(k, sid, addr, len)
  {
    var page, pages := PageOf(addr), PageRoundUp(len);
    var end := if addr + len <= ADDR_SPACE then addr + len else ADDR_SPACE;
    RoundUpIs(len);
    var n := Inside(page, pages);
    if AllMapped(mapped, sid, page, n) {
      forall a | addr <= a < end ensures Slot(sid, a / PAGE_SIZE) in mapped {
        assert page <= a / PAGE_SIZE < page + n;
      }
    }
    if Covered(mapped, sid, addr, end) {
      forall p | page <= p < page + n ensures Slot(sid, p) in mapped {
        assert addr <= p * PAGE_SIZE < end && p * PAGE_SIZE / PAGE_SIZE == p;
      }
    }
  }

  lemma RoundUpIs(len: Addr)
    requires len > 0
    ensures (PageRoundUp(len) - 1) * PAGE_SIZE < len <= PageRoundUp(len) * PAGE_SIZE
  {
  }

  /** munmap removes the pages that hold a byte of the range and no others, if all of the range is mapped; otherwise it
      fails and removes none. It runs past the page table exactly if the range ends past the last address and is mapped
      up to there. */
  lemma MunmapMeaning(s: Memory, sid: SpaceId, addr: Addr, len: Addr)
    requires Inv(s) && sid in s.changes
    ensures var (t, res) := Munmap(s, sid, addr, len);
            && Inv(t)
            && (res == Some(0) <==> addr % PAGE_SIZE == 0 && 0 < len <= ADDR_SPACE - addr && Covered(View(s).Keys, sid, addr, addr + len))
            && (res == None <==> addr % PAGE_SIZE == 0 && len > ADDR_SPACE - addr && Covered(View(s).Keys, sid, addr, ADDR_SPACE))
            && (if res == Some(0) then View(t) == map k <- View(s) | !Overlaps(k, sid, addr, len) :: View(s)[k] else t == s)
  {
    hide Inv, View, AllMapped, Covered, Range, Overlaps, UnmapLoop;
    ViewOf(s);
    if addr % PAGE_SIZE == 0 && len > 0 {
      PagesAreBytes(s.entries.Keys, sid, addr, len);
      var t := UnmapLoop(s, sid, PageOf(addr), PageRoundUp(len));
      UnmapView(s, sid, PageOf(addr), PageRoundUp(len));
      BumpKeeps(t, sid);
    }
  }

  lemma ViewOf(s: Memory)
    requires Inv(s)
    ensures View(s).Keys == s.entries.Keys
  {
    ViewKeys(s);
  }

  // One space with its last page mapped.
  function TopMapped(): Memory {
    Memory(map[Slot(0, MEM_PAGES - 1) := PtEntry(0, 0, STACK_FLAGS)], map[0 := 0], map[0 := Block(Zeros(PAGE_SIZE), 1)])
  }

  /** The input: munmap(0xfffff000, 0x2000) with the last page mapped. */
  lemma MunmapPastTop()
    ensures Munmap(TopMapped(), 0, 0xffff_f000, 0x2000).1 == None
  {
  }

  /** mprotect changes the flags of the pages that hold a byte of the range and no bytes, or fails with no change; like
      munmap it runs past the table. A length of zero stands for the whole address space. */
  lemma ProtectMeaning(s: Memory, sid: SpaceId, addr: Addr, len: Addr, prot: int)
    requires Inv(s) && sid in s.changes && len > 0
    ensures var (t, res) := Protect(s, sid, addr, len, prot);
            && (res == Some(0) <==> addr % PAGE_SIZE == 0 && ProtOk(prot) && len <= ADDR_SPACE - addr && Covered(View(s).Keys, sid, addr, addr + len))
            && (res == None <==> addr % PAGE_SIZE == 0 && ProtOk(prot) && len > ADDR_SPACE - addr && Covered(View(s).Keys, sid, addr, ADDR_SPACE))
            && (if res == Some(0) then
                  t.blocks == s.blocks
                  && t.entries == map k <- s.entries :: if Overlaps(k, sid, addr, len) then s.entries[k].(flags := ProtFlags(prot)) else s.entries[k]
                else t == s)
  {
    hide Inv, View, AllMapped, Covered, Range, Overlaps;
    ViewOf(s);
    if addr % PAGE_SIZE == 0 {
      PagesAreBytes(s.entries.Keys, sid, addr, len);
      Mprotect.SetLoopEntries(s, sid, PageOf(addr), PageRoundUp(len), ProtFlags(prot));
      hide Mprotect.SetLoop;
    }
  }

  /** With a length of zero mprotect can only succeed from address zero, and only if every page of the space is mapped. */
  lemma ProtectNothing(s: Memory, sid: SpaceId, addr: Addr, prot: int)
    requires addr % PAGE_SIZE == 0 && ProtOk(prot)
    ensures Protect(s, sid, addr, 0, prot).1 == Some(0) <==> addr == 0 && AllMapped(s.entries.Keys, sid, 0, MEM_PAGES)
    ensures Protect(s, sid, addr, 0, prot).1 == None
            <==> addr > 0 && AllMapped(s.entries.Keys, sid, PageOf(addr), MEM_PAGES - PageOf(addr))
  {
    hide AllMapped, Mprotect.SetLoop;
  }

  // The pages with a byte of the range are zero and there, whatever they were, and all others as before.
  ghost predicate Zeroed(a: map<Slot, Page>, b: map<Slot, Page>, sid: SpaceId, addr: nat, len: nat, flags: Flags) {
    && (forall k :: k in b <==> k in a || Overlaps(k, sid, addr, len))
    && (forall k <- b :: b[k] == if Overlaps(k, sid, addr, len) then Page(Zeros(PAGE_SIZE), flags) else a[k])
  }

  predicate MmapArgsOk(addr: Addr, len: Addr, prot: int) {
    addr % PAGE_SIZE == 0 && 0 < len <= ADDR_SPACE - PAGE_SIZE && ProtOk(prot)
  }

  lemma MmapResult(s: Memory, sid: SpaceId, addr: Addr, len: Addr, prot: int, id: BlockId)
    ensures var (t, res) := MmapAt(s, sid, addr, len, prot, id);
            && (res == Some(addr) <==> MmapArgsOk(addr, len, prot) && addr + len <= ADDR_SPACE)
            && (res == None <==> MmapArgsOk(addr, len, prot) && addr + len > ADDR_SPACE)
            && (res == Some(addr) ==>
                  t == MapLoop(NewBlock(s, id, Zeros(PageRoundUp(len) * PAGE_SIZE)), sid, PageOf(addr), PageRoundUp(len), id,
                               ProtFlags(prot).(anon := true)))
  {
    hide AllMapped, Range, Overlaps, MapLoop, NewBlock, ProtFlags;
    if addr % PAGE_SIZE == 0 && len > 0 && ProtOk(prot) {
      PagesAreBytes({}, sid, addr, len);
      RoundUpIs(len);
    }
  }

  /** Anonymous memory at a fixed address: zero bytes in the pages of the range, whatever was there before, and no other
      page differs. It runs past the table exactly if the range ends past the last address. */
  lemma MmapMeaning(s: Memory, sid: SpaceId, addr: Addr, len: Addr, prot: int, id: BlockId)
    requires Inv(s) && sid in s.changes && id !in s.blocks
    ensures var (t, res) := MmapAt(s, sid, addr, len, prot, id);
            && (res == Some(addr) <==> MmapArgsOk(addr, len, prot) && addr + len <= ADDR_SPACE)
            && (res == None <==> MmapArgsOk(addr, len, prot) && addr + len > ADDR_SPACE)
            && (res == Some(addr) ==> Inv(t) && Zeroed(View(s), View(t), sid, addr, len, ProtFlags(prot).(anon := true)))
  {
    MmapResult(s, sid, addr, len, prot, id);
    hide Inv, View, AllMapped, Range, Overlaps, MapLoop, NewBlock, Visible, MmapAt, Zeros;
    if MmapArgsOk(addr, len, prot) && addr + len <= ADDR_SPACE {
      PagesAreBytes(s.entries.Keys, sid, addr, len);
      SeenAsIs(prot);
      hide ProtFlags;
      ZeroPages(s, sid, PageOf(addr), PageRoundUp(len), id, ProtFlags(prot).(anon := true));
    }
  }

  /** The protection asked for, by its value: a page is writable exactly for 2, 3, 6 and 7 (PROT_WRITE), readable for odd values and
      executable from 4 on; it is neither copy-on-write nor part of the stack. */
  lemma ProtMeans(prot: int)
    requires ProtOk(prot)
    ensures var f := ProtFlags(prot);
            && (f.write <==> prot in {2, 3, 6, 7}) && (f.read <==> prot in {1, 3, 5, 7}) && (f.exec <==> prot in {4, 5, 6, 7})
            && !f.cow && !f.compiled && !f.growsdown && !f.anon
    ensures ProtOk(prot) <==> prot in {0, 1, 2, 3, 4, 5, 6, 7}
  {
  }

  /** After mmap and after mprotect a page of the range is writable exactly if PROT_WRITE was asked for. */
  lemma WritableIff(s: Memory, sid: SpaceId, addr: Addr, len: Addr, prot: int, id: BlockId, k: Slot)
    requires Inv(s) && sid in s.changes && id !in s.blocks && len > 0 && Overlaps(k, sid, addr, len)
    ensures var (t, res) := MmapAt(s, sid, addr, len, prot, id);
            res == Some(addr) ==> Inv(t) && k in View(t) && (View(t)[k].flags.write <==> prot in {2, 3, 6, 7})
    ensures var (t, res) := Protect(s, sid, addr, len, prot);
            res == Some(0) && k in s.entries ==> k in t.entries && (t.entries[k].flags.write <==> prot in {2, 3, 6, 7})
  {
    hide Inv, View, MmapAt, Protect, Overlaps, ProtFlags, Zeros;
    MmapMeaning(s, sid, addr, len, prot, id);
    ProtectMeaning(s, sid, addr, len, prot);
    if ProtOk(prot) { ProtMeans(prot); }
  }

  lemma SeenAsIs(prot: int)
    ensures Visible(ProtFlags(prot).(anon := true)) == ProtFlags(prot).(anon := true)
  {
  }

  // What a mapping of zeros shows.
  lemma ZeroPages(s: Memory, sid: SpaceId, start: nat, pages: nat, id: BlockId, flags: Flags)
    requires Inv(s) && sid in s.changes && id !in s.blocks && start + pages <= MEM_PAGES
    ensures var t := MapLoop(NewBlock(s, id, Zeros(pages * PAGE_SIZE)), sid, start, pages, id, flags);
            && Inv(t)
            && (forall k :: k in View(t) <==> k in View(s) || k in Range(sid, start, pages))
            && forall k <- View(t) :: View(t)[k] == if k in Range(sid, start, pages) then Page(Zeros(PAGE_SIZE), Visible(flags)) else View(s)[k]
  {
    hide Counted, SharedIsCow, EntriesOk, View, Visible;
    PtMapView(s, sid, start, pages, id, Zeros(pages * PAGE_SIZE), flags);
    var t := PtMap(s, sid, start, pages, id, Zeros(pages * PAGE_SIZE), flags);
    hide MapLoop, NewBlock;
    forall k <- View(t) | k in Range(sid, start, pages) ensures View(t)[k] == Page(Zeros(PAGE_SIZE), Visible(flags)) {
      var i := k.page - start;
      SliceOfZeros(pages * PAGE_SIZE, i * PAGE_SIZE, PAGE_SIZE);
    }
  }

  lemma SliceOfZeros(n: nat, i: nat, m: nat)
    requires i + m <= n
    ensures Zeros(n)[i..i + m] == Zeros(m)
  {
  }

  /** mmap and then munmap of the same range leave the pages that were outside it, as they were. */
  lemma MmapMunmap(s: Memory, sid: SpaceId, addr: Addr, len: Addr, prot: int, id: BlockId)
    requires Inv(s) && sid in s.changes && id !in s.blocks && MmapAt(s, sid, addr, len, prot, id).1 == Some(addr)
    ensures var t := MmapAt(s, sid, addr, len, prot, id).0;
            var (u, res) := Munmap(t, sid, addr, len);
            res == Some(0) && Inv(t) && Inv(u) && View(u) == map k <- View(s) | !Overlaps(k, sid, addr, len) :: View(s)[k]
  {
    hide Counted, SharedIsCow, EntriesOk, View, Munmap, PageRoundUp;
    MmapMeaning(s, sid, addr, len, prot, id);
    MmapSpaces(s, sid, addr, len, prot, id);
    hide MmapAt;
    var t := MmapAt(s, sid, addr, len, prot, id).0;
    MunmapMeaning(t, sid, addr, len);
    assert Covered(View(t).Keys, sid, addr, addr + len) by {
      forall a | addr <= a < addr + len ensures Slot(sid, a / PAGE_SIZE) in View(t) {
        assert Overlaps(Slot(sid, a / PAGE_SIZE), sid, addr, len);
      }
    }
  }

  lemma MmapSpaces(s: Memory, sid: SpaceId, addr: Addr, len: Addr, prot: int, id: BlockId)
    requires Inv(s) && sid in s.changes && id !in s.blocks && MmapAt(s, sid, addr, len, prot, id).1 == Some(addr)
    ensures sid in MmapAt(s, sid, addr, len, prot, id).0.changes
  {
    MmapResult(s, sid, addr, len, prot, id);
    PagesAreBytes({}, sid, addr, len);
    var pages := PageRoundUp(len);
    hide Inv, View, MmapAt, Zeros;
    PtMapView(s, sid, PageOf(addr), pages, id, Zeros(pages * PAGE_SIZE), ProtFlags(prot).(anon := true));
  }

  /** mremap to fewer pages cuts off the pages behind the new end, all of which have to be mapped. */
  lemma MremapShrinks(s: Memory, sid: SpaceId, addr: Addr, oldLen: Addr, newLen: Addr, flags: nat, id: BlockId)
    requires Inv(s) && sid in s.changes && addr % PAGE_SIZE == 0 && flags <= 1 && PageOf(newLen) <= PageOf(oldLen)
    ensures var (t, res) := Mremap(s, sid, addr, oldLen, newLen, flags, id);
            var start, cut := PageOf(addr) + PageOf(newLen), PageOf(oldLen) - PageOf(newLen);
            && Inv(t)
            && (res == Some(addr) <==> InTable(start, cut) && AllMapped(View(s).Keys, sid, start, cut))
            && (res == None <==> !InTable(start, cut) && AllMapped(View(s).Keys, sid, start, Inside(start, cut)))
            && View(t) == if res == Some(addr) then View(s) - Range(sid, start, cut) else View(s)
  {
    hide Counted, SharedIsCow, EntriesOk, View, Range, UnmapLoop, AllMapped;
    ViewKeys(s);
    var start, cut := PageOf(addr) + PageOf(newLen), PageOf(oldLen) - PageOf(newLen);
    UnmapView(s, sid, start, cut);
    BumpKeeps(UnmapLoop(s, sid, start, cut), sid);
  }

  // The pages of the range are new and zero, with the flags of the first old page, and all others as before.
  ghost predicate Grown(a: map<Slot, Page>, b: map<Slot, Page>, sid: SpaceId, first: nat, start: nat, pages: nat) {
    && Slot(sid, first) in a
    && Range(sid, start, pages) !! a.Keys && b.Keys == a.Keys + Range(sid, start, pages)
    && (forall k <- a :: b[k] == a[k])
    && (forall k | k in b && k in Range(sid, start, pages) :: b[k] == Page(Zeros(PAGE_SIZE), a[Slot(sid, first)].flags))
  }

  // The old pages are there and belong to anonymous memory.
  ghost predicate MayGrow(a: map<Slot, Page>, sid: SpaceId, page: nat, pages: nat) {
    InTable(page, pages) && AllMapped(a.Keys, sid, page, pages) && Slot(sid, page) in a && a[Slot(sid, page)].flags.anon
  }

  /** mremap to more pages adds zero pages behind the old end and changes no other, if the old pages are mapped and the new
      ones are free; it has no result exactly if an old page after the first is missing, or if the free range behind the
      old pages reaches past the last page. */
  lemma MremapGrows(s: Memory, sid: SpaceId, addr: Addr, oldLen: Addr, newLen: Addr, flags: nat, id: BlockId)
    requires Inv(s) && sid in s.changes && id !in s.blocks && addr % PAGE_SIZE == 0 && flags <= 1 && PageOf(newLen) > PageOf(oldLen)
    ensures var (t, res) := Mremap(s, sid, addr, oldLen, newLen, flags, id);
            var page, pages := PageOf(addr), PageOf(oldLen);
            var more := PageOf(newLen) - pages;
            && Inv(t)
            && (res == Some(addr) <==> MayGrow(View(s), sid, page, pages) && IsHole(s, sid, page + pages, more) == Some(true))
            && (res == None <==> Slot(sid, page) in View(s)
                                 && (!InTable(page, pages) || !AllMapped(View(s).Keys, sid, page, pages)
                                     || (MayGrow(View(s), sid, page, pages) && IsHole(s, sid, page + pages, more) == None)))
            && (if res == Some(addr) then Grown(View(s), View(t), sid, page, page + pages, more) else t == s)
  {
    hide Counted, SharedIsCow, EntriesOk, View, MapLoop, NewBlock, Zeros, AllMapped, IsHole;
    ViewKeys(s);
    var start, more := PageOf(addr) + PageOf(oldLen), PageOf(newLen) - PageOf(oldLen);
    MremapResult(s, sid, addr, oldLen, newLen, flags, id);
    hide Mremap, MayGrow;
    if Mremap(s, sid, addr, oldLen, newLen, flags, id).1 == Some(addr) {
      HoleFacts(s, sid, start, more);
      ZeroPages(s, sid, start, more, id, s.entries[Slot(sid, PageOf(addr))].flags.(anon := true));
    }
  }

  lemma MremapResult(s: Memory, sid: SpaceId, addr: Addr, oldLen: Addr, newLen: Addr, flags: nat, id: BlockId)
    requires Inv(s) && addr % PAGE_SIZE == 0 && flags <= 1 && PageOf(newLen) > PageOf(oldLen)
    ensures var (t, res) := Mremap(s, sid, addr, oldLen, newLen, flags, id);
            var page, pages := PageOf(addr), PageOf(oldLen);
            var more := PageOf(newLen) - pages;
            && (res == Some(addr) <==> MayGrow(View(s), sid, page, pages) && IsHole(s, sid, page + pages, more) == Some(true))
            && (res == None <==> Slot(sid, page) in View(s)
                                 && (!InTable(page, pages) || !AllMapped(View(s).Keys, sid, page, pages)
                                     || (MayGrow(View(s), sid, page, pages) && IsHole(s, sid, page + pages, more) == None)))
            && (if res == Some(addr)
                then Slot(sid, page) in s.entries
                     && t == MapLoop(NewBlock(s, id, Zeros(more * PAGE_SIZE)), sid, page + pages, more, id,
                                     s.entries[Slot(sid, page)].flags.(anon := true))
                else t == s)
  {
    hide Counted, SharedIsCow, EntriesOk, View, MapLoop, NewBlock, Zeros, AllMapped, IsHole;
    ViewKeys(s);
    HoleFacts(s, sid, PageOf(addr) + PageOf(oldLen), PageOf(newLen) - PageOf(oldLen));
  }

  lemma HoleFacts(s: Memory, sid: SpaceId, start: nat, pages: nat)
    requires pages > 0
    ensures IsHole(s, sid, start, pages) == Some(true) ==>
              start + pages <= MEM_PAGES && Inside(start, pages) == pages && Range(sid, start, pages) !! s.entries.Keys
  {
  }

  // Writable anonymous zero pages over whatever the range held, and no other change.
  ghost predicate Overlaid(a: map<Slot, Page>, b: map<Slot, Page>, range: set<Slot>) {
    && b.Keys == a.Keys + range
    && (forall k <- b :: b[k] == if k in range then Page(Zeros(PAGE_SIZE), Flags(false, true, false, false, false, false, true)) else a[k])
  }

  /** A growing heap always gets its pages, whatever was mapped there before. */
  lemma BrkGrows(s: Memory, sid: SpaceId, startBrk: Addr, brk: Addr, newBrk: Addr, id: BlockId)
    requires Inv(s) && sid in s.changes && id !in s.blocks && 0 < brk < newBrk && startBrk <= newBrk
    ensures var (t, brk', res) := Brk(s, sid, startBrk, brk, newBrk, id);
            && Inv(t) && brk' == newBrk && res == Some(newBrk)
            && Overlaid(View(s), View(t), Range(sid, PageRoundUp(brk), PageRoundUp(newBrk) - PageRoundUp(brk)))
  {
    hide Counted, SharedIsCow, EntriesOk, View, MapLoop, NewBlock, Zeros, Range;
    RoundUpIs(brk);
    RoundUpIs(newBrk);
    var start, pages := PageRoundUp(brk), PageRoundUp(newBrk) - PageRoundUp(brk);
    if pages == 0 {
      assert Range(sid, start, pages) == {} by { NoPages(sid, start); }
    } else {
      ZeroPages(s, sid, start, pages, id, Flags(false, true, false, false, false, false, true));
    }
  }

  lemma NoPages(sid: SpaceId, start: nat)
    ensures Range(sid, start, 0) == {}
  {
  }

  /** brk(0), and a break below the start of the heap or where it is, changes nothing; the first asks for the present break, the second
      is EINVAL. */
  lemma BrkQuery(s: Memory, sid: SpaceId, startBrk: Addr, brk: Addr, newBrk: Addr, id: BlockId)
    requires brk > 0
    ensures var (t, brk', res) := Brk(s, sid, startBrk, brk, newBrk, id);
            newBrk == 0 || newBrk < startBrk || newBrk == brk ==>
              t == s && brk' == brk && res == Some(if 0 < newBrk < startBrk then -22 else brk)
  {
  }

  /** The errors: EINVAL (-22) for arguments, ENOMEM (-12) and EFAULT (-14) for what is or is not mapped; then nothing changes. */
  lemma CallErrors(s: Memory, sid: SpaceId, addr: Addr, len: Addr, newLen: Addr, prot: int, flags: nat, id: BlockId)
    ensures var (t, res) := Munmap(s, sid, addr, len);
            res in {Some(0), None, Some(-22)} && (addr % 4096 != 0 || len == 0 ==> res == Some(-22)) && (res == Some(-22) ==> t == s)
    ensures var (t, res) := Protect(s, sid, addr, len, prot);
            && res in {Some(0), None, Some(-12), Some(-22)} && (res != Some(0) ==> t == s)
            && (res == Some(-22) <==> addr % 4096 != 0 || !(0 <= prot <= 7))
    ensures var (t, res) := MmapAt(s, sid, addr, len, prot, id);
            && (res == Some(addr) || res in {None, Some(-22)}) && (res == Some(-22) ==> t == s)
            && (addr % 4096 != 0 || len == 0 || !(0 <= prot <= 7) ==> res == Some(-22))
    ensures var (t, res) := Mremap(s, sid, addr, len, newLen, flags, id);
            var page, pages := addr / 4096, len / 4096;
            && (res == Some(addr) || res in {None, Some(-12), Some(-14), Some(-22)}) && (res != Some(addr) ==> t == s)
            && (res == Some(-22) <==> addr % 4096 != 0 || flags > 1)
            && (res == Some(-14) ==> newLen / 4096 <= pages || Slot(sid, page) !in s.entries || !s.entries[Slot(sid, page)].flags.anon)
            && (res == Some(-12) ==> newLen / 4096 > pages && IsHole(s, sid, page + pages, newLen / 4096 - pages) == Some(false))
  {
    hide UnmapLoop, MapLoop, NewBlock, Zeros, AllMapped, AllFree, Mprotect.SetLoop;
  }

  // What the comments in sys_brk say a shrinking heap loses: the pages from that of the new break to that of the old one.
  ghost function Shrunk(a: map<Slot, Page>, sid: SpaceId, brk: Addr, newBrk: Addr): map<Slot, Page>
    requires newBrk < brk
  {
    a - Range(sid, PageOf(newBrk), PageOf(brk) - PageOf(newBrk) + 1)
  }

  // For a new break in page zero the count is one short.
  ghost predicate ShrinkSafe(a: map<Slot, Page>, sid: SpaceId, page: nat, last: nat) {
    if page == 0 then Slot(sid, last) !in a else AllFree(a.Keys, sid, last + 1, page - 1)
  }

  /** The code passes the last page where pt_unmap takes a number of pages. So brk does what its comments say if and only if
      no page is mapped behind the old break for as many pages as lie below the new one, and these pages are in the table. */
  lemma BrkShrinkIff(s: Memory, sid: SpaceId, startBrk: Addr, brk: Addr, newBrk: Addr, id: BlockId)
    requires Inv(s) && 0 < newBrk < brk && startBrk <= newBrk
    ensures var (t, brk', res) := Brk(s, sid, startBrk, brk, newBrk, id);
            && Inv(t)
            && (res == Some(newBrk) && View(t) == Shrunk(View(s), sid, brk, newBrk)
                <==> PageOf(newBrk) + PageOf(brk) <= MEM_PAGES && ShrinkSafe(View(s), sid, PageOf(newBrk), PageOf(brk)))
  {
    var page, pages := PageOf(newBrk), PageOf(brk);
    hide Counted, SharedIsCow, EntriesOk, View, UnmapLoop;
    UnmapView(s, sid, page, pages);
    UnmapView(s, sid, page, Inside(page, pages));
    BumpKeeps(UnmapLoop(s, sid, page, pages), sid);
    RangeSplit(View(s), sid, page, pages);
  }

  lemma RangeSplit(a: map<Slot, Page>, sid: SpaceId, page: nat, last: nat)
    requires page <= last
    ensures a - Range(sid, page, last) == a - Range(sid, page, last - page + 1) <==> ShrinkSafe(a, sid, page, last)
  {
    var small, big := Range(sid, page, last - page + 1), Range(sid, page, last);
    if a - big == a - small {
      if page == 0 {
        assert Slot(sid, last) in a - big <==> Slot(sid, last) in a;
      } else {
        forall p | last + 1 <= p < page + last ensures Slot(sid, p) !in a {
          assert Slot(sid, p) in a - small <==> Slot(sid, p) in a;
        }
      }
    }
  }

  /** The input: brk from 0x9000000 down to 0x8ff8000 takes a library mapped at 0xa000000 with it. */
  lemma BrkTakesLibrary()
    ensures var k := Slot(0, 0xa000);
            var s := Memory(map[k := PtEntry(0, 0, STACK_FLAGS)], map[0 := 0], map[0 := Block(Zeros(PAGE_SIZE), 1)]);
            Inv(s) && k !in Brk(s, 0, 0x8000000, 0x9000000, 0x8ff8000, 1).0.entries
  {
    var k := Slot(0, 0xa000);
    var s := Memory(map[k := PtEntry(0, 0, STACK_FLAGS)], map[0 := 0], map[0 := Block(Zeros(PAGE_SIZE), 1)]);
    assert Inv(s) by {
      assert Users(s, 0) == {k};
    }
    UnmapView(s, 0, 0x8ff8, 0x9000);
    var t := UnmapLoop(s, 0, 0x8ff8, 0x9000);
    hide UnmapLoop, View, Counted, SharedIsCow;
    ViewKeys(t);
    assert k !in View(t);
  }
}
