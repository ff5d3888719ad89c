/** The memory of the emulated processes as values: page tables over
    reference-counted host blocks, and one function per step of emu/memory.c.
    The classes in AddressSpace.dfy and HostMemory.dfy refine these functions. */
module GuestMemory {
  import opened Bytes

  const PAGE_SIZE: nat := 4096
  const MEM_PAGES: nat := 0x10_0000
  const ADDR_SPACE: nat := 0x1_0000_0000
  const COUNTER: nat := 0x1_0000_0000   // mem->changes is a 32-bit atomic_uint

  type BlockId = nat
  type SpaceId = nat

  // One field for each P_ bit of the source.
  datatype Flags = Flags(read: bool, write: bool, exec: bool, growsdown: bool,
                         cow: bool, compiled: bool, anon: bool)
  const STACK_FLAGS := Flags(false, true, false, true, false, false, true)

  datatype PtEntry = PtEntry(data: BlockId, offset: nat, flags: Flags)
  datatype Block = Block(bytes: seq<byte>, refcount: nat)
  datatype Slot = Slot(space: SpaceId, page: nat)
  datatype HostPtr = HostPtr(block: BlockId, offset: int)

  /** All address spaces at once. `entries` holds the page table slots whose
      data pointer is not null, `changes` the live spaces and how often each
      one asked for a TLB flush, `blocks` the struct datas not yet freed, each with host memory of its own. */
  datatype Memory = Memory(entries: map<Slot, PtEntry>,
                           changes: map<SpaceId, nat>,
                           blocks: map<BlockId, Block>)

  // ---------------------------------------------------------------- steps

  // `--data->refcount`, and munmap and free when that gives zero.
  function Released(blocks: map<BlockId, Block>, b: BlockId): map<BlockId, Block> {
    if b !in blocks then blocks
    else if blocks[b].refcount <= 1 then blocks - {b}
    else blocks[b := blocks[b].(refcount := blocks[b].refcount - 1)]
  }

  function DropEntry(s: Memory, k: Slot): Memory {
    if k !in s.entries then s
    else s.(entries := s.entries - {k}, blocks := Released(s.blocks, s.entries[k].data))
  }

  function AddEntry(s: Memory, k: Slot, e: PtEntry): Memory
    requires e.data in s.blocks
  {
    s.(entries := s.entries[k := e],
       blocks := s.blocks[e.data := s.blocks[e.data].(refcount := s.blocks[e.data].refcount + 1)])
  }

  function Bump(s: Memory, sid: SpaceId): Memory {
    if sid in s.changes then s.(changes := s.changes[sid := s.changes[sid] + 1]) else s
  }

  function UnmapLoop(s: Memory, sid: SpaceId, start: nat, n: nat): Memory {
    if n == 0 then s else DropEntry(UnmapLoop(s, sid, start, n - 1), Slot(sid, start + n - 1))
  }

  predicate AllMapped(mapped: set<Slot>, sid: SpaceId, start: nat, pages: nat) {
    forall p :: start <= p < start + pages ==> Slot(sid, p) in mapped
  }

  /** pt_unmap: without PT_FORCE it does nothing and fails when a page of the range is unmapped. */
  function PtUnmap(s: Memory, sid: SpaceId, start: nat, pages: nat, force: bool): (Memory, int) {
    if !force && !AllMapped(s.entries.Keys, sid, start, pages) then (s, -1)
    else (Bump(UnmapLoop(s, sid, start, pages), sid), 0)
  }

  function Evict(s: Memory, k: Slot): Memory {
    if k in s.entries then Bump(DropEntry(s, k), k.space) else s
  }

  // One round of the loop in pt_map: page i of block b goes to slot k.
  function Place(s: Memory, k: Slot, b: BlockId, i: nat, flags: Flags): Memory {
    var t := Evict(s, k);
    if b in t.blocks then AddEntry(t, k, PtEntry(b, i * PAGE_SIZE, flags)) else t
  }

  function MapLoop(s: Memory, sid: SpaceId, start: nat, n: nat, b: BlockId, flags: Flags): Memory {
    if n == 0 then s
    else Place(MapLoop(s, sid, start, n - 1, b, flags), Slot(sid, start + n - 1), b, n - 1, flags)
  }

  function NewBlock(s: Memory, b: BlockId, bytes: seq<byte>): Memory {
    s.(blocks := s.blocks[b := Block(bytes, 0)])
  }

  /** pt_map of the host memory `bytes`; malloc places its struct data at `b`. */
  function PtMap(s: Memory, sid: SpaceId, start: nat, pages: nat, b: BlockId, bytes: seq<byte>, flags: Flags): Memory {
    MapLoop(NewBlock(s, b, bytes), sid, start, pages, b, flags)
  }

  function CowFlags(f: Flags): Flags { f.(cow := true, compiled := false) }

  // One round of the loop in pt_copy_on_write.
  function ShareOne(s: Memory, from: Slot, to: Slot): Memory {
    if from !in s.entries then s
    else
      var t := Bump(DropEntry(s, to), to.space);
      if from !in t.entries || t.entries[from].data !in t.blocks then t
      else
        var e := t.entries[from].(flags := CowFlags(t.entries[from].flags));
        AddEntry(t.(entries := t.entries[from := e]), to, e)
  }

  function ShareLoop(s: Memory, src: SpaceId, srcStart: nat, dst: SpaceId, dstStart: nat, n: nat): Memory {
    if n == 0 then s
    else ShareOne(ShareLoop(s, src, srcStart, dst, dstStart, n - 1),
                  Slot(src, srcStart + n - 1), Slot(dst, dstStart + n - 1))
  }

  function PtCopyOnWrite(s: Memory, src: SpaceId, srcStart: nat, dst: SpaceId, dstStart: nat, pages: nat): Memory {
    Bump(Bump(ShareLoop(s, src, srcStart, dst, dstStart, pages), src), dst)
  }

  // The first mapped page at or above p, MEM_PAGES when there is none.
  function NextMapped(mapped: set<Slot>, sid: SpaceId, p: nat): (q: nat)
    ensures p <= MEM_PAGES ==> p <= q <= MEM_PAGES
    ensures q < MEM_PAGES ==> Slot(sid, q) in mapped
    ensures forall r :: p <= r < q ==> Slot(sid, r) !in mapped
    decreases MEM_PAGES - p
  {
    if p >= MEM_PAGES then MEM_PAGES
    else if Slot(sid, p) in mapped then p
    else NextMapped(mapped, sid, p + 1)
  }

  /** The stack-growth half of mem_ptr: an unmapped page below a P_GROWSDOWN region appears, zero-filled. */
  function Grow(s: Memory, sid: SpaceId, page: nat, id: BlockId): Memory {
    if Slot(sid, page) in s.entries then s
    else
      var q := NextMapped(s.entries.Keys, sid, page + 1);
      if q >= MEM_PAGES || !s.entries[Slot(sid, q)].flags.growsdown then s
      else PtMap(s, sid, page, 1, id, Zeros(PAGE_SIZE), STACK_FLAGS)
  }

  function PageBytes(blocks: map<BlockId, Block>, e: PtEntry): (bytes: seq<byte>)
    requires EntryOk(blocks, e)
    ensures |bytes| == PAGE_SIZE
  {
    blocks[e.data].bytes[e.offset..e.offset + PAGE_SIZE]
  }

  // The copy-on-write half of mem_ptr.
  function Unshare(s: Memory, k: Slot, id: BlockId): Memory {
    if k in s.entries && s.entries[k].flags.cow && EntryOk(s.blocks, s.entries[k])
    then PtMap(s, k.space, k.page, 1, id, PageBytes(s.blocks, s.entries[k]), s.entries[k].flags.(cow := false))
    else s
  }

  /** The state mem_ptr leaves behind. */
  function Touch(s: Memory, sid: SpaceId, page: nat, write: bool, id: BlockId): Memory {
    var t := Grow(s, sid, page, id);
    var k := Slot(sid, page);
    if write && k in t.entries && t.entries[k].flags.write then Unshare(t, k, id) else t
  }

  /** The pointer mem_ptr returns, None for NULL. */
  function Pointer(s: Memory, sid: SpaceId, addr: nat, write: bool, id: BlockId): Option<HostPtr> {
    var t := Touch(s, sid, addr / PAGE_SIZE, write, id);
    var k := Slot(sid, addr / PAGE_SIZE);
    if k !in t.entries || (write && !t.entries[k].flags.write) then None
    else Some(HostPtr(t.entries[k].data, t.entries[k].offset + addr % PAGE_SIZE))
  }

  // ------------------------------------------------------------ invariant

  ghost function Users(s: Memory, b: BlockId): set<Slot> {
    set k | k in s.entries && s.entries[k].data == b
  }

  predicate EntryOk(blocks: map<BlockId, Block>, e: PtEntry) {
    e.data in blocks && e.offset % PAGE_SIZE == 0 && e.offset + PAGE_SIZE <= |blocks[e.data].bytes|
  }

  ghost predicate EntriesOk(s: Memory) {
    forall k <- s.entries :: k.space in s.changes && k.page < MEM_PAGES && EntryOk(s.blocks, s.entries[k])
  }

  /** Every block's refcount is the number of page table entries, over all spaces, that name it. */
  ghost predicate Counted(s: Memory) {
    forall b <- s.blocks :: s.blocks[b].refcount == |Users(s, b)|
  }

  predicate SamePage(e: PtEntry, f: PtEntry) { e.data == f.data && e.offset == f.offset }

  /** A backing page reachable from two entries has P_COW in both. */
  ghost predicate SharedIsCow(s: Memory) {
    forall k, l | k in s.entries && l in s.entries && k != l && SamePage(s.entries[k], s.entries[l]) ::
      s.entries[k].flags.cow
  }

  ghost predicate Inv(s: Memory) { EntriesOk(s) && Counted(s) && SharedIsCow(s) }

  // ------------------------------------------------- what each step keeps

  lemma UsersAfterDrop(s: Memory, k: Slot, b: BlockId)
    ensures Users(DropEntry(s, k), b) == Users(s, b) - {k}
  {
  }

  // The block that a drop releases had no other user.
  lemma LastUser(s: Memory, k: Slot, l: Slot)
    requires Counted(s) && k in s.entries && l in s.entries && k != l
    requires s.entries[k].data == s.entries[l].data && s.entries[k].data in s.blocks
    ensures s.blocks[s.entries[k].data].refcount >= 2
  {
    var d := s.entries[k].data;
    assert {k, l} <= Users(s, d);
    SubsetSize({k, l}, Users(s, d));
  }

  lemma SubsetSize<T>(a: set<T>, b: set<T>)
    requires a <= b
    ensures |a| <= |b|
  {
    if a != {} {
      var x :| x in a;
      SubsetSize(a - {x}, b - {x});
    }
  }

  lemma DropKeepsEntry(s: Memory, k: Slot, l: Slot)
    requires Counted(s) && k in s.entries && l in s.entries && k != l
    requires s.entries[l].data in s.blocks
    ensures s.entries[l].data in DropEntry(s, k).blocks
    ensures DropEntry(s, k).blocks[s.entries[l].data].bytes == s.blocks[s.entries[l].data].bytes
  {
    if s.entries[k].data == s.entries[l].data { LastUser(s, k, l); }
  }

  lemma DropKeepsCounted(s: Memory, k: Slot)
    requires EntriesOk(s) && Counted(s)
    ensures Counted(DropEntry(s, k))
  {
    var t := DropEntry(s, k);
    forall b <- t.blocks ensures t.blocks[b].refcount == |Users(t, b)| {
      UsersAfterDrop(s, k, b);
      if k in s.entries && s.entries[k].data == b { assert k in Users(s, b); }
    }
  }

  lemma DropKeeps(s: Memory, k: Slot)
    requires Inv(s)
    ensures Inv(DropEntry(s, k))
  {
    DropKeepsCounted(s, k);
    var t := DropEntry(s, k);
    forall l <- t.entries
      ensures l.space in t.changes && l.page < MEM_PAGES && EntryOk(t.blocks, t.entries[l])
    {
      assert EntryOk(s.blocks, s.entries[l]);
      if k in s.entries { DropKeepsEntry(s, k, l); }
    }
  }

  lemma UsersAfterAdd(s: Memory, k: Slot, e: PtEntry, b: BlockId)
    requires k !in s.entries && e.data in s.blocks
    ensures Users(AddEntry(s, k, e), b) == if b == e.data then Users(s, b) + {k} else Users(s, b)
  {
  }

  lemma AddKeepsCounted(s: Memory, k: Slot, e: PtEntry)
    requires Counted(s) && k !in s.entries && e.data in s.blocks
    ensures Counted(AddEntry(s, k, e))
  {
    var t := AddEntry(s, k, e);
    forall b <- t.blocks ensures t.blocks[b].refcount == |Users(t, b)| {
      UsersAfterAdd(s, k, e, b);
    }
  }

  lemma AddKeeps(s: Memory, k: Slot, e: PtEntry)
    requires Inv(s) && k !in s.entries && EntryOk(s.blocks, e)
    requires k.space in s.changes && k.page < MEM_PAGES
    requires forall l <- s.entries :: SamePage(s.entries[l], e) ==> e.flags.cow && s.entries[l].flags.cow
    ensures Inv(AddEntry(s, k, e))
  {
    AddKeepsCounted(s, k, e);
    var t := AddEntry(s, k, e);
    forall l <- t.entries
      ensures l.space in t.changes && l.page < MEM_PAGES && EntryOk(t.blocks, t.entries[l])
    {
      if l != k { assert EntryOk(s.blocks, s.entries[l]); }
    }
  }

  // ------------------------------------------------------ the eager view

  /** What a process can see of a page: its bytes, and its flags without the copy-on-write bookkeeping. */
  datatype Page = Page(bytes: seq<byte>, flags: Flags)

  function Visible(f: Flags): Flags { f.(cow := false, compiled := false) }

  ghost function PageAt(blocks: map<BlockId, Block>, e: PtEntry): Page
    requires EntryOk(blocks, e)
  {
    Page(PageBytes(blocks, e), Visible(e.flags))
  }

  /** The memory without sharing: every mapped page of every space with its own bytes. */
  ghost function View(s: Memory): map<Slot, Page>
    requires EntriesOk(s)
  {
    map k <- s.entries :: PageAt(s.blocks, s.entries[k])
  }

  lemma DropKeepsPage(s: Memory, k: Slot, l: Slot)
    requires EntriesOk(s) && Counted(s) && l in s.entries && k != l
    ensures EntryOk(DropEntry(s, k).blocks, s.entries[l])
    ensures PageAt(DropEntry(s, k).blocks, s.entries[l]) == PageAt(s.blocks, s.entries[l])
  {
    hide Counted;
    if k in s.entries { DropKeepsEntry(s, k, l); }
  }

  // Equal pages behind equal slots give equal views.
  lemma SameView(s: Memory, t: Memory, gone: set<Slot>)
    requires EntriesOk(s) && EntriesOk(t)
    requires t.entries.Keys == s.entries.Keys - gone
    requires forall l <- t.entries :: PageAt(t.blocks, t.entries[l]) == PageAt(s.blocks, s.entries[l])
    ensures View(t) == View(s) - gone
    ensures gone == {} ==> View(t) == View(s)
  {
    hide PageAt, EntryOk;
  }

  lemma ViewKeys(s: Memory)
    requires EntriesOk(s)
    ensures View(s).Keys == s.entries.Keys
    ensures forall l <- s.entries :: View(s)[l].flags == Visible(s.entries[l].flags)
  {
    hide EntryOk;
  }

  lemma ViewAt(s: Memory, k: Slot)
    requires EntriesOk(s) && k in s.entries
    ensures k.space in s.changes && k.page < MEM_PAGES && EntryOk(s.blocks, s.entries[k])
    ensures k in View(s) && View(s)[k] == PageAt(s.blocks, s.entries[k])
  {
    hide EntryOk, PageAt;
  }

  lemma DropView(s: Memory, k: Slot)
    requires Inv(s)
    ensures Inv(DropEntry(s, k)) && View(DropEntry(s, k)) == View(s) - {k}
  {
    DropKeeps(s, k);
    hide Counted, SharedIsCow, EntryOk, PageAt, Released, View;
    forall l <- DropEntry(s, k).entries
      ensures PageAt(DropEntry(s, k).blocks, s.entries[l]) == PageAt(s.blocks, s.entries[l])
    {
      DropKeepsPage(s, k, l);
    }
    SameView(s, DropEntry(s, k), {k});
  }

  lemma AddView(s: Memory, k: Slot, e: PtEntry)
    requires Inv(s) && k !in s.entries && EntryOk(s.blocks, e)
    requires k.space in s.changes && k.page < MEM_PAGES
    requires forall l <- s.entries :: SamePage(s.entries[l], e) ==> e.flags.cow && s.entries[l].flags.cow
    ensures Inv(AddEntry(s, k, e)) && View(AddEntry(s, k, e)) == View(s)[k := PageAt(s.blocks, e)]
  {
    AddKeeps(s, k, e);
    hide Counted, SharedIsCow, PageAt, View;
    var t := AddEntry(s, k, e);
    forall l <- t.entries ensures EntryOk(s.blocks, t.entries[l]) && PageAt(t.blocks, t.entries[l]) == PageAt(s.blocks, t.entries[l]) {
      AddKeepsPage(s, k, e, l);
    }
    AddedView(s, t, k, e);
  }

  lemma AddKeepsPage(s: Memory, k: Slot, e: PtEntry, l: Slot)
    requires EntriesOk(s) && EntryOk(s.blocks, e) && l in AddEntry(s, k, e).entries
    ensures var (t, f) := (AddEntry(s, k, e), AddEntry(s, k, e).entries[l]);
            EntryOk(s.blocks, f) && EntryOk(t.blocks, f) && PageAt(t.blocks, f) == PageAt(s.blocks, f)
  {
    if l != k { assert EntryOk(s.blocks, s.entries[l]); }
  }

  lemma AddedView(s: Memory, t: Memory, k: Slot, e: PtEntry)
    requires EntriesOk(s) && EntriesOk(t) && k !in s.entries && EntryOk(s.blocks, e) && t.entries == s.entries[k := e]
    requires forall l <- t.entries :: EntryOk(s.blocks, t.entries[l]) && PageAt(t.blocks, t.entries[l]) == PageAt(s.blocks, t.entries[l])
    ensures View(t) == View(s)[k := PageAt(s.blocks, e)]
  {
    hide PageAt, EntryOk;
  }

  lemma BumpKeeps(s: Memory, sid: SpaceId)
    requires Inv(s)
    ensures Inv(Bump(s, sid)) && View(Bump(s, sid)) == View(s) && Bump(s, sid).changes.Keys == s.changes.Keys
  {
    var t := Bump(s, sid);
    forall b ensures Users(t, b) == Users(s, b) {}
  }

  function Range(sid: SpaceId, start: nat, n: nat): set<Slot> {
    set p | start <= p < start + n :: Slot(sid, p)
  }

  lemma {:induction false} UnmapView(s: Memory, sid: SpaceId, start: nat, n: nat)
    requires Inv(s)
    ensures Inv(UnmapLoop(s, sid, start, n))
    ensures View(UnmapLoop(s, sid, start, n)) == View(s) - Range(sid, start, n)
  {
    hide Inv, View, DropEntry;
    if n == 0 {
      assert Range(sid, start, 0) == {};
    } else {
      UnmapView(s, sid, start, n - 1);
      DropView(UnmapLoop(s, sid, start, n - 1), Slot(sid, start + n - 1));
      assert Range(sid, start, n) == Range(sid, start, n - 1) + {Slot(sid, start + n - 1)};
    }
  }

  lemma EvictView(s: Memory, k: Slot)
    requires Inv(s)
    ensures Inv(Evict(s, k)) && View(Evict(s, k)) == View(s) - {k}
    ensures Evict(s, k).entries == s.entries - {k} && Evict(s, k).changes.Keys == s.changes.Keys
    ensures forall b <- s.blocks :: k !in Users(s, b) ==> b in Evict(s, k).blocks && Evict(s, k).blocks[b].bytes == s.blocks[b].bytes
  {
    hide Counted, SharedIsCow, EntriesOk, View;
    ViewKeys(s);
    DropView(s, k);
    BumpKeeps(DropEntry(s, k), k.space);
  }

  /** pt_map seen from outside: page i of the range gets slice i of the bytes, the rest stays. */
  ghost function MapPages(a: map<Slot, Page>, sid: SpaceId, start: nat, n: nat, bytes: seq<byte>, flags: Flags): map<Slot, Page>
    requires n * PAGE_SIZE <= |bytes|
  {
    map k | k in a.Keys + Range(sid, start, n) ::
      if k in Range(sid, start, n)
      then Page(bytes[(k.page - start) * PAGE_SIZE..(k.page - start) * PAGE_SIZE + PAGE_SIZE], Visible(flags))
      else a[k]
  }

  // The entries that name b are the first n pages of the range being mapped.
  ghost predicate Only(s: Memory, b: BlockId, sid: SpaceId, start: nat, n: nat) {
    forall k <- s.entries :: s.entries[k].data == b ==>
      k.space == sid && start <= k.page < start + n && s.entries[k].offset == (k.page - start) * PAGE_SIZE
  }

  lemma PlaceView(s: Memory, sid: SpaceId, start: nat, i: nat, b: BlockId, flags: Flags)
    requires Inv(s) && sid in s.changes && start + i < MEM_PAGES
    requires b in s.blocks && (i + 1) * PAGE_SIZE <= |s.blocks[b].bytes|
    requires Only(s, b, sid, start, i)
    ensures var t := Place(s, Slot(sid, start + i), b, i, flags);
            && Inv(t) && t.changes.Keys == s.changes.Keys
            && b in t.blocks && t.blocks[b].bytes == s.blocks[b].bytes
            && Only(t, b, sid, start, i + 1)
            && View(t) == View(s)[Slot(sid, start + i) := PageAt(s.blocks, PtEntry(b, i * PAGE_SIZE, flags))]
  {
    hide Evict, Counted, SharedIsCow, View;
    var k := Slot(sid, start + i);
    EvictView(s, k);
    assert k !in Users(s, b);
    AddView(Evict(s, k), k, PtEntry(b, i * PAGE_SIZE, flags));
  }

  lemma {:induction false} MapLoopView(s: Memory, sid: SpaceId, start: nat, n: nat, b: BlockId, flags: Flags)
    requires Inv(s) && sid in s.changes && start + n <= MEM_PAGES
    requires b in s.blocks && n * PAGE_SIZE <= |s.blocks[b].bytes|
    requires Only(s, b, sid, start, 0)
    ensures var t := MapLoop(s, sid, start, n, b, flags);
            && Inv(t) && t.changes.Keys == s.changes.Keys
            && b in t.blocks && t.blocks[b].bytes == s.blocks[b].bytes
            && Only(t, b, sid, start, n)
            && View(t) == MapPages(View(s), sid, start, n, s.blocks[b].bytes, flags)
  {
    hide Counted, SharedIsCow, EntriesOk, View, Only, Place;
    if n == 0 {
      assert Range(sid, start, 0) == {};
    } else {
      MapLoopView(s, sid, start, n - 1, b, flags);
      PlaceView(MapLoop(s, sid, start, n - 1, b, flags), sid, start, n - 1, b, flags);
      assert Range(sid, start, n) == Range(sid, start, n - 1) + {Slot(sid, start + n - 1)};
    }
  }

  lemma NewBlockKeeps(s: Memory, b: BlockId, bytes: seq<byte>)
    requires Inv(s) && b !in s.blocks
    ensures Inv(NewBlock(s, b, bytes)) && View(NewBlock(s, b, bytes)) == View(s)
    ensures forall k <- s.entries :: s.entries[k].data != b
  {
    var u := NewBlock(s, b, bytes);
    assert Counted(u) by {
      forall c ensures Users(u, c) == Users(s, c) {}
      assert Users(s, b) == {};
    }
    hide Counted, SharedIsCow;
  }

  lemma PtMapView(s: Memory, sid: SpaceId, start: nat, pages: nat, b: BlockId, bytes: seq<byte>, flags: Flags)
    requires Inv(s) && sid in s.changes && start + pages <= MEM_PAGES
    requires b !in s.blocks && |bytes| == pages * PAGE_SIZE
    ensures var t := PtMap(s, sid, start, pages, b, bytes, flags);
            && Inv(t) && t.changes.Keys == s.changes.Keys && b in t.blocks
            && View(t) == MapPages(View(s), sid, start, pages, bytes, flags)
  {
    NewBlockKeeps(s, b, bytes);
    hide Counted, SharedIsCow, EntriesOk, View, MapPages;
    MapLoopView(NewBlock(s, b, bytes), sid, start, pages, b, flags);
  }

  // ------------------------------------------------------- copy on write

  function Marked(s: Memory, k: Slot): Memory
    requires k in s.entries
  {
    s.(entries := s.entries[k := s.entries[k].(flags := CowFlags(s.entries[k].flags))])
  }

  lemma MarkKeepsCounted(s: Memory, k: Slot)
    requires Counted(s) && k in s.entries
    ensures Counted(Marked(s, k))
  {
    forall b ensures Users(Marked(s, k), b) == Users(s, b) {}
  }

  lemma MarkKeepsShared(s: Memory, k: Slot)
    requires SharedIsCow(s) && k in s.entries
    ensures SharedIsCow(Marked(s, k))
  {
    var t := Marked(s, k);
    forall l, m | l in t.entries && m in t.entries && l != m && SamePage(t.entries[l], t.entries[m])
      ensures t.entries[l].flags.cow
    {
      assert SamePage(s.entries[l], s.entries[m]);
    }
  }

  lemma MarkCow(s: Memory, k: Slot)
    requires Inv(s) && k in s.entries
    ensures Inv(Marked(s, k)) && View(Marked(s, k)) == View(s)
  {
    hide Counted, SharedIsCow, EntryOk, View, PageBytes, Visible;
    MarkKeepsCounted(s, k);
    MarkKeepsShared(s, k);
    var t := Marked(s, k);
    forall l <- t.entries ensures EntryOk(t.blocks, t.entries[l]) && PageAt(t.blocks, t.entries[l]) == PageAt(s.blocks, s.entries[l]) {
      MarkKeepsPage(s, k, l);
    }
    SameView(s, t, {});
  }

  lemma MarkKeepsPage(s: Memory, k: Slot, l: Slot)
    requires EntriesOk(s) && k in s.entries && l in s.entries
    ensures EntryOk(s.blocks, Marked(s, k).entries[l])
    ensures PageAt(s.blocks, Marked(s, k).entries[l]) == PageAt(s.blocks, s.entries[l])
  {
    assert EntryOk(s.blocks, s.entries[l]);
  }

  /** Sharing a page leaves both entries with the same backing page and the same flags: those of the source, copy-on-write and without
      compiled code. */
  lemma SharedEntries(s: Memory, from: Slot, to: Slot)
    requires Inv(s) && from != to && from in s.entries
    ensures var t, e := ShareOne(s, from, to), s.entries[from];
            && from in t.entries && to in t.entries && t.entries[from] == t.entries[to]
            && t.entries[from].data == e.data && t.entries[from].offset == e.offset
            && t.entries[from].flags == Flags(e.flags.read, e.flags.write, e.flags.exec, e.flags.growsdown, true, false, e.flags.anon)
  {
    assert EntryOk(s.blocks, s.entries[from]);
    if to in s.entries { DropKeepsEntry(s, to, from); }
    hide Counted, SharedIsCow, Users;
  }

  lemma ShareOneView(s: Memory, from: Slot, to: Slot)
    requires Inv(s) && from.space != to.space && to.space in s.changes && to.page < MEM_PAGES
    ensures var t := ShareOne(s, from, to);
            && Inv(t) && t.changes.Keys == s.changes.Keys
            && View(t) == if from in s.entries then View(s)[to := View(s)[from]] else View(s)
  {
    hide Counted, SharedIsCow, EntriesOk, View, Released;
    ViewKeys(s);
    if from in s.entries {
      var d := DropEntry(s, to);
      DropView(s, to);
      BumpKeeps(d, to.space);
      ShareInto(Bump(d, to.space), from, to);
    }
  }

  lemma ShareInto(u: Memory, from: Slot, to: Slot)
    requires Inv(u) && from in u.entries && to !in u.entries && from != to
    requires to.space in u.changes && to.page < MEM_PAGES
    ensures u.entries[from].data in u.blocks && from in View(u)
    ensures var t := AddEntry(Marked(u, from), to, Marked(u, from).entries[from]);
            Inv(t) && View(t) == View(u)[to := View(u)[from]]
  {
    var m := Marked(u, from);
    hide Counted, SharedIsCow, EntriesOk, View, PageAt;
    ViewKeys(u);
    ViewAt(u, from);
    MarkCow(u, from);
    OnlyCow(u, from);
    ViewAt(m, from);
    AddView(m, to, m.entries[from]);
  }

  // After the source entry is marked, every entry on its backing page is.
  lemma OnlyCow(s: Memory, k: Slot)
    requires SharedIsCow(s) && k in s.entries
    ensures var t := Marked(s, k);
            forall l <- t.entries :: SamePage(t.entries[l], t.entries[k]) ==> t.entries[l].flags.cow
  {
    forall l <- s.entries | SamePage(s.entries[l], s.entries[k]) && l != k ensures s.entries[l].flags.cow {}
  }

  // Slot k of the destination range has a mapped counterpart in the source range.
  predicate Copied(mapped: set<Slot>, src: SpaceId, srcStart: nat, dst: SpaceId, dstStart: nat, n: nat, k: Slot) {
    k.space == dst && dstStart <= k.page < dstStart + n && Slot(src, k.page - dstStart + srcStart) in mapped
  }

  /** pt_copy_on_write seen from outside: an eager copy of every mapped source page. */
  ghost function CopyPages(a: map<Slot, Page>, src: SpaceId, srcStart: nat, dst: SpaceId, dstStart: nat, n: nat): map<Slot, Page> {
    map k | k in a.Keys + Range(dst, dstStart, n) && (k in a || Copied(a.Keys, src, srcStart, dst, dstStart, n, k)) ::
      if Copied(a.Keys, src, srcStart, dst, dstStart, n, k) then a[Slot(src, k.page - dstStart + srcStart)] else a[k]
  }

  lemma CopyPagesNext(a: map<Slot, Page>, src: SpaceId, srcStart: nat, dst: SpaceId, dstStart: nat, n: nat)
    requires src != dst
    ensures var c := CopyPages(a, src, srcStart, dst, dstStart, n);
            var from, to := Slot(src, srcStart + n), Slot(dst, dstStart + n);
            && (from in c <==> from in a)
            && CopyPages(a, src, srcStart, dst, dstStart, n + 1) == if from in c then c[to := c[from]] else c
  {
    assert Range(dst, dstStart, n + 1) == Range(dst, dstStart, n) + {Slot(dst, dstStart + n)};
  }

  lemma CopyNone(a: map<Slot, Page>, src: SpaceId, srcStart: nat, dst: SpaceId, dstStart: nat)
    ensures CopyPages(a, src, srcStart, dst, dstStart, 0) == a
  {
    assert Range(dst, dstStart, 0) == {};
  }

  lemma {:induction false} ShareLoopView(s: Memory, src: SpaceId, srcStart: nat, dst: SpaceId, dstStart: nat, n: nat)
    requires Inv(s) && src != dst && dst in s.changes && dstStart + n <= MEM_PAGES
    ensures var t := ShareLoop(s, src, srcStart, dst, dstStart, n);
            && Inv(t) && t.changes.Keys == s.changes.Keys
            && View(t) == CopyPages(View(s), src, srcStart, dst, dstStart, n)
  {
    hide Counted, SharedIsCow, EntriesOk, View, CopyPages, ShareOne, Copied, Range;
    if n == 0 {
      CopyNone(View(s), src, srcStart, dst, dstStart);
    } else {
      ShareLoopView(s, src, srcStart, dst, dstStart, n - 1);
      var t := ShareLoop(s, src, srcStart, dst, dstStart, n - 1);
      ViewKeys(t);
      ShareOneView(t, Slot(src, srcStart + n - 1), Slot(dst, dstStart + n - 1));
      CopyPagesNext(View(s), src, srcStart, dst, dstStart, n - 1);
    }
  }

  lemma MapOneView(s: Memory, k: Slot, id: BlockId, bytes: seq<byte>, flags: Flags)
    requires Inv(s) && k.space in s.changes && k.page < MEM_PAGES && id !in s.blocks && |bytes| == PAGE_SIZE
    ensures var t := PtMap(s, k.space, k.page, 1, id, bytes, flags);
            && Inv(t) && t.changes.Keys == s.changes.Keys
            && View(t) == View(s)[k := Page(bytes, Visible(flags))]
            && t.entries == s.entries[k := PtEntry(id, 0, flags)]
  {
    hide Counted, SharedIsCow, EntriesOk, View;
    PtMapView(s, k.space, k.page, 1, id, bytes, flags);
    assert Range(k.space, k.page, 1) == {k};
    assert bytes[0..PAGE_SIZE] == bytes;
    assert MapLoop(NewBlock(s, id, bytes), k.space, k.page, 0, id, flags) == NewBlock(s, id, bytes);
  }

  lemma SetSame<K, V>(m: map<K, V>, k: K, v: V)
    requires k in m && m[k] == v
    ensures m[k := v] == m
  {
  }

  lemma UnshareView(s: Memory, k: Slot, id: BlockId)
    requires Inv(s) && id !in s.blocks
    ensures var t := Unshare(s, k, id);
            && Inv(t) && t.changes.Keys == s.changes.Keys && View(t) == View(s)
            && t.entries.Keys == s.entries.Keys
            && (k in s.entries ==> t.entries[k].flags == s.entries[k].flags.(cow := false))
  {
    hide Counted, SharedIsCow, EntriesOk, View, PtMap, EntryOk, PageBytes;
    if k in s.entries && s.entries[k].flags.cow {
      ViewAt(s, k);
      var page := Page(PageBytes(s.blocks, s.entries[k]), Visible(s.entries[k].flags.(cow := false)));
      MapOneView(s, k, id, page.bytes, s.entries[k].flags.(cow := false));
      assert View(s)[k] == page;
      SetSame(View(s), k, page);
    }
  }

  // ------------------------------------------------------- mem_ptr itself

  ghost function GrowPages(a: map<Slot, Page>, sid: SpaceId, page: nat): map<Slot, Page> {
    if Slot(sid, page) in a then a
    else
      var q := NextMapped(a.Keys, sid, page + 1);
      if q >= MEM_PAGES || !a[Slot(sid, q)].flags.growsdown then a
      else a[Slot(sid, page) := Page(Zeros(PAGE_SIZE), STACK_FLAGS)]
  }

  lemma GrowView(s: Memory, sid: SpaceId, page: nat, id: BlockId)
    requires Inv(s) && sid in s.changes && page < MEM_PAGES && id !in s.blocks
    ensures var t := Grow(s, sid, page, id);
            && Inv(t) && t.changes.Keys == s.changes.Keys && View(t) == GrowPages(View(s), sid, page)
  {
    ViewKeys(s);
    hide Counted, SharedIsCow, EntriesOk, View, PtMap;
    if Slot(sid, page) !in s.entries {
      var q := NextMapped(s.entries.Keys, sid, page + 1);
      if q < MEM_PAGES && s.entries[Slot(sid, q)].flags.growsdown {
        MapOneView(s, Slot(sid, page), id, Zeros(PAGE_SIZE), STACK_FLAGS);
      }
    }
  }

  lemma TouchView(s: Memory, sid: SpaceId, page: nat, write: bool, id: BlockId)
    requires Inv(s) && sid in s.changes && page < MEM_PAGES && id !in s.blocks
    ensures var t := Touch(s, sid, page, write, id);
            && Inv(t) && t.changes.Keys == s.changes.Keys && View(t) == GrowPages(View(s), sid, page)
            && (write && Slot(sid, page) in t.entries && t.entries[Slot(sid, page)].flags.write
                ==> !t.entries[Slot(sid, page)].flags.cow)
  {
    hide Counted, SharedIsCow, EntriesOk, View, GrowPages, Unshare, Grow;
    var k := Slot(sid, page);
    GrowView(s, sid, page, id);
    var t := Grow(s, sid, page, id);
    if write && k in t.entries && t.entries[k].flags.write {
      if k in s.entries {
        GrowMapped(s, sid, page, id);
        UnshareView(s, k, id);
      } else {
        GrownEntry(s, sid, page, id);
        NotShared(t, k, id);
      }
    }
  }

  lemma GrowMapped(s: Memory, sid: SpaceId, page: nat, id: BlockId)
    requires Slot(sid, page) in s.entries
    ensures Grow(s, sid, page, id) == s
  {
  }

  lemma NotShared(s: Memory, k: Slot, id: BlockId)
    requires k in s.entries && !s.entries[k].flags.cow
    ensures Unshare(s, k, id) == s
  {
  }

  // A page the stack grew by is its own block, writable, growing down and anonymous, and not copy-on-write.
  lemma GrownEntry(s: Memory, sid: SpaceId, page: nat, id: BlockId)
    requires Inv(s) && sid in s.changes && page < MEM_PAGES && id !in s.blocks
    requires Slot(sid, page) !in s.entries && Slot(sid, page) in Grow(s, sid, page, id).entries
    ensures Grow(s, sid, page, id).entries[Slot(sid, page)] == PtEntry(id, 0, Flags(false, true, false, true, false, false, true))
  {
    hide Counted, SharedIsCow, EntriesOk, View, PtMap;
    MapOneView(s, Slot(sid, page), id, Zeros(PAGE_SIZE), STACK_FLAGS);
  }

  // A pointer to a mapped page that is not copy-on-write moves nothing.
  lemma Points(s: Memory, k: Slot, i: nat, write: bool, id: BlockId)
    requires k in s.entries && i < PAGE_SIZE && (write ==> s.entries[k].flags.write && !s.entries[k].flags.cow)
    ensures var addr := k.page * PAGE_SIZE + i;
            && addr / PAGE_SIZE == k.page && addr % PAGE_SIZE == i && Touch(s, k.space, k.page, write, id) == s
            && Pointer(s, k.space, addr, write, id) == Some(HostPtr(s.entries[k].data, s.entries[k].offset + i))
  {
  }

  // ------------------------------------------- loads and stores by pointer

  // The address i bytes after addr, in 32-bit arithmetic.
  function At(addr: nat, i: nat): nat { (addr + i) % ADDR_SPACE }

  // n bytes can be copied through p without leaving its block.
  predicate PtrOk(blocks: map<BlockId, Block>, p: HostPtr, n: nat) {
    p.block in blocks && 0 <= p.offset && p.offset + n <= |blocks[p.block].bytes|
  }

  function Load(s: Memory, p: HostPtr, n: nat): (vs: seq<byte>)
    requires PtrOk(s.blocks, p, n)
    ensures |vs| == n
  {
    s.blocks[p.block].bytes[p.offset..p.offset + n]
  }

  function Store(s: Memory, p: HostPtr, vs: seq<byte>): Memory
    requires PtrOk(s.blocks, p, |vs|)
  {
    s.(blocks := s.blocks[p.block := s.blocks[p.block].(bytes := Splice(s.blocks[p.block].bytes, p.offset, vs))])
  }

  lemma StoreKeeps(s: Memory, p: HostPtr, vs: seq<byte>)
    requires Inv(s) && PtrOk(s.blocks, p, |vs|)
    ensures Inv(Store(s, p, vs))
  {
    var t := Store(s, p, vs);
    assert Counted(t) by {
      forall b ensures Users(t, b) == Users(s, b) {}
    }
    forall l <- t.entries ensures EntryOk(t.blocks, t.entries[l]) { assert EntryOk(s.blocks, s.entries[l]); }
    hide Counted;
  }

  // Two entries that overlap in a block name the same backing page.
  lemma StoreElsewhere(s: Memory, e: PtEntry, l: PtEntry, i: nat, vs: seq<byte>)
    requires EntryOk(s.blocks, e) && EntryOk(s.blocks, l) && i + |vs| <= PAGE_SIZE && !SamePage(e, l)
    ensures var t := Store(s, HostPtr(e.data, e.offset + i), vs);
            EntryOk(t.blocks, l) && PageBytes(t.blocks, l) == PageBytes(s.blocks, l)
  {
    if e.data == l.data {
      if e.offset < l.offset { assert e.offset + PAGE_SIZE <= l.offset; }
      else { assert l.offset + PAGE_SIZE <= e.offset; }
    }
  }

  lemma StoreHere(s: Memory, e: PtEntry, i: nat, vs: seq<byte>)
    requires EntryOk(s.blocks, e) && i + |vs| <= PAGE_SIZE
    ensures PtrOk(s.blocks, HostPtr(e.data, e.offset + i), |vs|)
    ensures var t := Store(s, HostPtr(e.data, e.offset + i), vs);
            && t.entries == s.entries && EntryOk(t.blocks, e)
            && PageBytes(t.blocks, e) == Splice(PageBytes(s.blocks, e), i, vs)
  {
  }

  lemma SameViewExcept(s: Memory, t: Memory, k: Slot)
    requires EntriesOk(s) && EntriesOk(t) && k in s.entries
    requires t.entries.Keys == s.entries.Keys
    requires forall l <- t.entries | l != k :: PageAt(t.blocks, t.entries[l]) == PageAt(s.blocks, s.entries[l])
    ensures View(t) == View(s)[k := PageAt(t.blocks, t.entries[k])]
  {
    hide PageAt, EntryOk;
  }

  lemma NotSamePage(s: Memory, k: Slot, l: Slot)
    requires SharedIsCow(s) && k in s.entries && l in s.entries && k != l && !s.entries[k].flags.cow
    ensures !SamePage(s.entries[k], s.entries[l])
  {
  }

  lemma StoreOthers(s: Memory, k: Slot, i: nat, vs: seq<byte>, l: Slot)
    requires Inv(s) && k in s.entries && i + |vs| <= PAGE_SIZE && !s.entries[k].flags.cow && l in s.entries && l != k
    requires PtrOk(s.blocks, HostPtr(s.entries[k].data, s.entries[k].offset + i), |vs|)
    ensures var t := Store(s, HostPtr(s.entries[k].data, s.entries[k].offset + i), vs);
            && EntryOk(s.blocks, s.entries[l]) && EntryOk(t.blocks, s.entries[l])
            && PageAt(t.blocks, s.entries[l]) == PageAt(s.blocks, s.entries[l])
  {
    hide Counted, SharedIsCow, EntriesOk, View, PageBytes, EntryOk, Splice, Store, PtrOk;
    ViewAt(s, k);
    ViewAt(s, l);
    NotSamePage(s, k, l);
    StoreElsewhere(s, s.entries[k], s.entries[l], i, vs);
  }

  /** A store through a pointer to a page that is not copy-on-write changes those bytes of that page and nothing else. */
  lemma StoreView(s: Memory, k: Slot, i: nat, vs: seq<byte>)
    requires Inv(s) && k in s.entries && i + |vs| <= PAGE_SIZE && !s.entries[k].flags.cow
    ensures PtrOk(s.blocks, HostPtr(s.entries[k].data, s.entries[k].offset + i), |vs|)
    ensures var t := Store(s, HostPtr(s.entries[k].data, s.entries[k].offset + i), vs);
            Inv(t) && View(t) == View(s)[k := View(s)[k].(bytes := Splice(View(s)[k].bytes, i, vs))]
  {
    hide Counted, SharedIsCow, EntriesOk, View, PageBytes, EntryOk, Splice, Store, PtrOk;
    ViewAt(s, k);
    StoreHere(s, s.entries[k], i, vs);
    var p := HostPtr(s.entries[k].data, s.entries[k].offset + i);
    StoreKeeps(s, p, vs);
    var t := Store(s, p, vs);
    forall l <- t.entries | l != k
      ensures EntryOk(s.blocks, s.entries[l]) && EntryOk(t.blocks, s.entries[l])
      ensures PageAt(t.blocks, t.entries[l]) == PageAt(s.blocks, s.entries[l])
    {
      StoreOthers(s, k, i, vs, l);
    }
    SameViewExcept(s, t, k);
  }
}
