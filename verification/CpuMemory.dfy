/** What a running CPU thread sees through its TLB: a flat byte memory, across
    page boundaries, copy-on-write, stack growth, system calls and the other processes. */
module CpuMemory {
  import opened Bytes
  import opened GuestMemory
  import opened ForkIsolation
  import opened TlbModel

  // -------------------------------------------- tlb_read and tlb_write

  predicate Crosses(addr: nat, size: nat) { addr % PAGE_SIZE + size > PAGE_SIZE }

  // The page after addr's, in 32-bit arithmetic.
  function NextPage(addr: nat): nat { (addr / PAGE_SIZE + 1) * PAGE_SIZE % ADDR_SPACE }

  predicate AccessOk(s: Memory, sid: SpaceId, addr: nat, size: nat, id1: BlockId, id2: BlockId) {
    sid in s.changes && addr < ADDR_SPACE && 1 <= size <= PAGE_SIZE
    && id1 !in s.blocks && id2 !in s.blocks && id1 != id2
  }

  /** The pointers of an access, second one None unless it crosses a page, and the number of bytes behind the first. */
  function Pointers(s: Memory, sid: SpaceId, entries: seq<TlbEntry>, addr: nat, size: nat, write: bool, id1: BlockId, id2: BlockId)
    : (Memory, seq<TlbEntry>, Option<HostPtr>, Option<HostPtr>)
    requires addr < ADDR_SPACE && |entries| == TLB_SIZE
  {
    var (t, en, p1) := Lookup(s, sid, entries, addr, write, id1);
    if Crosses(addr, size) then
      var (u, en2, p2) := Lookup(t, sid, en, NextPage(addr), write, id2);
      (u, en2, p1, p2)
    else (t, en, p1, None)
  }

  function Part1(addr: nat, size: nat): nat {
    if Crosses(addr, size) then PAGE_SIZE - addr % PAGE_SIZE else size
  }

  // Both pointers are there and can be followed for their share of the bytes.
  predicate Followable(s: Memory, addr: nat, size: nat, p1: Option<HostPtr>, p2: Option<HostPtr>) {
    p1.Some? && PtrOk(s.blocks, p1.value, Part1(addr, size))
    && (Crosses(addr, size) ==> size >= Part1(addr, size) && p2.Some? && PtrOk(s.blocks, p2.value, size - Part1(addr, size)))
  }

  function TlbRead(s: Memory, sid: SpaceId, entries: seq<TlbEntry>, addr: nat, size: nat, id1: BlockId, id2: BlockId)
    : (Memory, seq<TlbEntry>, Option<seq<byte>>)
    requires addr < ADDR_SPACE && |entries| == TLB_SIZE
  {
    var (t, en, p1, p2) := Pointers(s, sid, entries, addr, size, false, id1, id2);
    if !Followable(t, addr, size, p1, p2) then (t, en, None)
    else
      var n := Part1(addr, size);
      (t, en, Some(Load(t, p1.value, n) + if Crosses(addr, size) then Load(t, p2.value, size - n) else []))
  }

  function TlbWrite(s: Memory, sid: SpaceId, entries: seq<TlbEntry>, addr: nat, vs: seq<byte>, id1: BlockId, id2: BlockId)
    : (Memory, seq<TlbEntry>, bool)
    requires addr < ADDR_SPACE && |entries| == TLB_SIZE
  {
    var (t, en, p1, p2) := Pointers(s, sid, entries, addr, |vs|, true, id1, id2);
    if !Followable(t, addr, |vs|, p1, p2) then (t, en, false)
    else
      var n := Part1(addr, |vs|);
      var u := Store(t, p1.value, vs[..n]);
      if Crosses(addr, |vs|) && PtrOk(u.blocks, p2.value, |vs| - n) then (Store(u, p2.value, vs[n..]), en, true)
      else (u, en, true)
  }

  // -------------------------------------------------- the flat reference

  /** The pages an access brings in by growing the stack, first page first. */
  ghost function Reach(a: map<Slot, Page>, sid: SpaceId, addr: nat, size: nat): map<Slot, Page> {
    var b := GrowPages(a, sid, addr / PAGE_SIZE);
    if Crosses(addr, size) then GrowPages(b, sid, NextPage(addr) / PAGE_SIZE) else b
  }

  ghost predicate Readable(a: map<Slot, Page>, sid: SpaceId, addr: nat, size: nat) {
    forall i | 0 <= i < size :: ReadPage(a, sid, At(addr, i)).Some?
  }

  ghost function ByteAt(a: map<Slot, Page>, sid: SpaceId, addr: nat): byte
    requires ReadPage(a, sid, addr).Some?
  {
    ReadPage(a, sid, addr).value
  }

  /** A read as a flat memory does it: the bytes at addr, addr + 1, ... if all of them are mapped. */
  ghost function FlatRead(a: map<Slot, Page>, sid: SpaceId, addr: nat, size: nat): Option<seq<byte>> {
    if Readable(a, sid, addr, size) then Some(seq(size, i requires 0 <= i < size => ByteAt(a, sid, At(addr, i))))
    else None
  }

  ghost predicate FlatWritable(a: map<Slot, Page>, sid: SpaceId, addr: nat, size: nat) {
    forall i | 0 <= i < size :: Writable(a, sid, At(addr, i))
  }

  // How far byte j of a page lies behind addr, going up and around the 32-bit address space.
  function Distance(page: nat, j: nat, addr: nat): nat { (page * PAGE_SIZE + j - addr) % ADDR_SPACE }

  ghost function WrittenPage(p: Page, page: nat, addr: nat, vs: seq<byte>): Page {
    p.(bytes := seq(|p.bytes|, j requires 0 <= j < |p.bytes| =>
      if Distance(page, j, addr) < |vs| then vs[Distance(page, j, addr)] else p.bytes[j]))
  }

  /** A write as a flat memory does it: the byte at distance d from addr becomes vs[d], every other byte stays. */
  ghost function FlatWrite(a: map<Slot, Page>, sid: SpaceId, addr: nat, vs: seq<byte>): map<Slot, Page> {
    map k <- a :: if k.space == sid then WrittenPage(a[k], k.page, addr, vs) else a[k]
  }

  // ------------------------------------------------------ two lookups in a row

  lemma TouchBlocks(s: Memory, sid: SpaceId, page: nat, write: bool, id: BlockId)
    requires Inv(s) && sid in s.changes && page < MEM_PAGES && id !in s.blocks
    ensures Touch(s, sid, page, write, id).blocks.Keys <= s.blocks.Keys + {id}
  {
    var k := Slot(sid, page);
    hide Counted, SharedIsCow, View, PtMap;
    PtMapBlocks(s, sid, page, id, Zeros(PAGE_SIZE), STACK_FLAGS);
    if k !in s.entries {
      var t := Grow(s, sid, page, id);
      if k in t.entries {
        GrownEntry(s, sid, page, id);
        NotShared(t, k, id);
      }
    } else {
      GrowMapped(s, sid, page, id);
      if s.entries[k].flags.cow {
        ViewAt(s, k);
        PtMapBlocks(s, sid, page, id, PageBytes(s.blocks, s.entries[k]), s.entries[k].flags.(cow := false));
      }
    }
  }

  lemma PtMapBlocks(s: Memory, sid: SpaceId, page: nat, id: BlockId, bytes: seq<byte>, flags: Flags)
    ensures PtMap(s, sid, page, 1, id, bytes, flags).blocks.Keys <= s.blocks.Keys + {id}
  {
    var u := NewBlock(s, id, bytes);
    assert MapLoop(u, sid, page, 0, id, flags) == u;
  }

  // A pointer obtained by a lookup, and what the next lookup of another page leaves of it.
  ghost predicate PointsInto(s: Memory, k: Slot, i: nat, write: bool, p: Option<HostPtr>) {
    && (p.Some? <==> k in s.entries && (write ==> s.entries[k].flags.write))
    && (p.Some? ==> p.value == HostPtr(s.entries[k].data, s.entries[k].offset + i) && (write ==> !s.entries[k].flags.cow))
  }

  lemma LookupPoints(s: Memory, sid: SpaceId, entries: seq<TlbEntry>, addr: nat, write: bool, id: BlockId)
    requires Inv(s) && sid in s.changes && addr < ADDR_SPACE && id !in s.blocks && Coherent(s, sid, entries)
    ensures var (t, en, p) := Lookup(s, sid, entries, addr, write, id);
            && Inv(t) && t.changes.Keys == s.changes.Keys && Coherent(t, sid, en)
            && View(t) == GrowPages(View(s), sid, addr / PAGE_SIZE)
            && t.blocks.Keys <= s.blocks.Keys + {id}
            && PointsInto(t, Slot(sid, addr / PAGE_SIZE), addr % PAGE_SIZE, write, p)
  {
    hide Counted, SharedIsCow, EntriesOk, View, GrowPages, Touch, Coherent, Lookup;
    LookupIsMemPtr(s, sid, entries, addr, write, id);
    TouchView(s, sid, addr / PAGE_SIZE, write, id);
    TouchBlocks(s, sid, addr / PAGE_SIZE, write, id);
  }

  /** A pointer already obtained for one page stays good while another page of the space is looked up, grown or copied. */
  lemma PointerSurvives(s: Memory, sid: SpaceId, entries: seq<TlbEntry>, addr: nat, write: bool, id: BlockId,
                        k: Slot, i: nat, p: Option<HostPtr>)
    requires Inv(s) && sid in s.changes && addr < ADDR_SPACE && id !in s.blocks && Coherent(s, sid, entries)
    requires k != Slot(sid, addr / PAGE_SIZE) && PointsInto(s, k, i, write, p)
    ensures PointsInto(Lookup(s, sid, entries, addr, write, id).0, k, i, write, p)
  {
    hide Inv, GrowPages, Touch, Coherent, Lookup;
    LookupIsMemPtr(s, sid, entries, addr, write, id);
    TouchOthers(s, sid, addr / PAGE_SIZE, write, id, k);
  }

  lemma NextPageFacts(addr: nat, size: nat)
    requires addr < ADDR_SPACE && 1 <= size <= PAGE_SIZE
    ensures NextPage(addr) < ADDR_SPACE && NextPage(addr) % PAGE_SIZE == 0
    ensures NextPage(addr) / PAGE_SIZE == if addr / PAGE_SIZE + 1 == MEM_PAGES then 0 else addr / PAGE_SIZE + 1
    ensures NextPage(addr) / PAGE_SIZE != addr / PAGE_SIZE
    ensures 0 < Part1(addr, size) <= size && (Crosses(addr, size) ==> Part1(addr, size) < size)
  {
  }

  // What both kinds of access rest on.
  lemma PointersPoint(s: Memory, sid: SpaceId, entries: seq<TlbEntry>, addr: nat, size: nat, write: bool, id1: BlockId, id2: BlockId)
    requires Inv(s) && AccessOk(s, sid, addr, size, id1, id2) && Coherent(s, sid, entries)
    ensures var (t, en, p1, p2) := Pointers(s, sid, entries, addr, size, write, id1, id2);
            && Inv(t) && t.changes.Keys == s.changes.Keys && Coherent(t, sid, en)
            && View(t) == Reach(View(s), sid, addr, size)
            && PointsInto(t, Slot(sid, addr / PAGE_SIZE), addr % PAGE_SIZE, write, p1)
            && (Crosses(addr, size) ==> PointsInto(t, Slot(sid, NextPage(addr) / PAGE_SIZE), 0, write, p2))
  {
    assert |entries| == TLB_SIZE;
    hide Counted, SharedIsCow, EntriesOk, View, GrowPages, Coherent, Lookup, PointsInto, NextPage;
    NextPageFacts(addr, size);
    LookupPoints(s, sid, entries, addr, write, id1);
    if Crosses(addr, size) {
      var (t, en, p1) := Lookup(s, sid, entries, addr, write, id1);
      LookupPoints(t, sid, en, NextPage(addr), write, id2);
      PointerSurvives(t, sid, en, NextPage(addr), write, id2, Slot(sid, addr / PAGE_SIZE), addr % PAGE_SIZE, p1);
    }
  }

  // ------------------------------------------------------------ the reads

  // Where byte i of an access lies: on the first page, or on the next one.
  lemma AtFacts(addr: nat, size: nat, i: nat)
    requires addr < ADDR_SPACE && 1 <= size <= PAGE_SIZE && i < size
    ensures At(addr, i) < ADDR_SPACE
    ensures At(addr, i) / PAGE_SIZE == if i < Part1(addr, size) then addr / PAGE_SIZE else NextPage(addr) / PAGE_SIZE
    ensures At(addr, i) % PAGE_SIZE == if i < Part1(addr, size) then addr % PAGE_SIZE + i else i - Part1(addr, size)
  {
  }

  lemma LoadsPage(s: Memory, k: Slot, i: nat, write: bool, p: Option<HostPtr>, n: nat)
    requires Inv(s) && PointsInto(s, k, i, write, p) && p.Some? && i + n <= PAGE_SIZE
    ensures k in View(s) && |View(s)[k].bytes| == PAGE_SIZE
    ensures PtrOk(s.blocks, p.value, n) && Load(s, p.value, n) == View(s)[k].bytes[i..i + n]
  {
    hide Counted, SharedIsCow, EntriesOk, View;
    ViewAt(s, k);
    var e := s.entries[k];
    SliceOfSlice(s.blocks[e.data].bytes, e.offset, e.offset + PAGE_SIZE, i, n);
  }

  ghost predicate Sized(a: map<Slot, Page>) { forall k <- a :: |a[k].bytes| == PAGE_SIZE }

  lemma ViewSized(s: Memory)
    requires EntriesOk(s)
    ensures Sized(View(s))
  {
    forall k <- s.entries ensures |View(s)[k].bytes| == PAGE_SIZE { ViewAt(s, k); }
  }

  ghost predicate Usable(a: map<Slot, Page>, k: Slot, write: bool) { k in a && (write ==> a[k].flags.write) }

  // An access can be made byte by byte exactly when its page, or both its pages, can be used.
  lemma AccessMeansPages(a: map<Slot, Page>, sid: SpaceId, addr: nat, size: nat)
    requires Sized(a) && addr < ADDR_SPACE && 1 <= size <= PAGE_SIZE
    ensures var k1, k2 := Slot(sid, addr / PAGE_SIZE), Slot(sid, NextPage(addr) / PAGE_SIZE);
            && (Readable(a, sid, addr, size) <==> Usable(a, k1, false) && (Crosses(addr, size) ==> Usable(a, k2, false)))
            && (FlatWritable(a, sid, addr, size) <==> Usable(a, k1, true) && (Crosses(addr, size) ==> Usable(a, k2, true)))
  {
    var k1, k2 := Slot(sid, addr / PAGE_SIZE), Slot(sid, NextPage(addr) / PAGE_SIZE);
    NextPageFacts(addr, size);
    forall i | 0 <= i < size
      ensures Slot(sid, At(addr, i) / PAGE_SIZE) == if i < Part1(addr, size) then k1 else k2
    {
      AtFacts(addr, size, i);
    }
    assert At(addr, 0) == addr;
    var n := Part1(addr, size);
    hide At, NextPage;
    assert Readable(a, sid, addr, size) ==>
      ReadPage(a, sid, At(addr, 0)).Some? && (Crosses(addr, size) ==> ReadPage(a, sid, At(addr, n)).Some?);
    assert FlatWritable(a, sid, addr, size) ==>
      Writable(a, sid, At(addr, 0)) && (Crosses(addr, size) ==> Writable(a, sid, At(addr, n)));
  }

  lemma PointersMeanMapped(s: Memory, sid: SpaceId, addr: nat, size: nat, write: bool, p1: Option<HostPtr>, p2: Option<HostPtr>)
    requires Inv(s) && addr < ADDR_SPACE && 1 <= size <= PAGE_SIZE
    requires PointsInto(s, Slot(sid, addr / PAGE_SIZE), addr % PAGE_SIZE, write, p1)
    requires Crosses(addr, size) ==> PointsInto(s, Slot(sid, NextPage(addr) / PAGE_SIZE), 0, write, p2)
    ensures Followable(s, addr, size, p1, p2)
            <==> if write then FlatWritable(View(s), sid, addr, size) else Readable(View(s), sid, addr, size)
  {
    var k1, k2 := Slot(sid, addr / PAGE_SIZE), Slot(sid, NextPage(addr) / PAGE_SIZE);
    ViewSized(s);
    ViewKeys(s);
    AccessMeansPages(View(s), sid, addr, size);
    hide Counted, SharedIsCow, EntriesOk, View, NextPage, Readable, FlatWritable, PtrOk;
    NextPageFacts(addr, size);
    if p1.Some? { LoadsPage(s, k1, addr % PAGE_SIZE, write, p1, Part1(addr, size)); }
    if Crosses(addr, size) && p2.Some? { LoadsPage(s, k2, 0, write, p2, size - Part1(addr, size)); }
  }

  /** A read of one CPU access, page-crossing or not: it returns what a flat memory holds at those
      addresses and fails only if one of them is unmapped; it leaves every byte of every process alone. */
  lemma ReadRefines(s: Memory, sid: SpaceId, entries: seq<TlbEntry>, addr: nat, size: nat, id1: BlockId, id2: BlockId)
    requires Inv(s) && AccessOk(s, sid, addr, size, id1, id2) && Coherent(s, sid, entries)
    ensures var (t, en, r) := TlbRead(s, sid, entries, addr, size, id1, id2);
            && Inv(t) && t.changes.Keys == s.changes.Keys && Coherent(t, sid, en)
            && View(t) == Reach(View(s), sid, addr, size)
            && r == FlatRead(View(t), sid, addr, size)
  {
    assert |entries| == TLB_SIZE;
    hide Counted, SharedIsCow, EntriesOk, View, Coherent, Pointers, PointsInto, NextPage, Reach, Readable, ReadPage;
    PointersPoint(s, sid, entries, addr, size, false, id1, id2);
    var (t, en, p1, p2) := Pointers(s, sid, entries, addr, size, false, id1, id2);
    PointersMeanMapped(t, sid, addr, size, false, p1, p2);
    if Followable(t, addr, size, p1, p2) { ReadBytes(t, sid, addr, size, p1, p2); }
  }

  lemma ReadBytes(t: Memory, sid: SpaceId, addr: nat, size: nat, p1: Option<HostPtr>, p2: Option<HostPtr>)
    requires Inv(t) && addr < ADDR_SPACE && 1 <= size <= PAGE_SIZE
    requires PointsInto(t, Slot(sid, addr / PAGE_SIZE), addr % PAGE_SIZE, false, p1)
    requires Crosses(addr, size) ==> PointsInto(t, Slot(sid, NextPage(addr) / PAGE_SIZE), 0, false, p2)
    requires Followable(t, addr, size, p1, p2) && Readable(View(t), sid, addr, size)
    ensures var n := Part1(addr, size);
            Load(t, p1.value, n) + (if Crosses(addr, size) then Load(t, p2.value, size - n) else [])
            == FlatRead(View(t), sid, addr, size).value
  {
    hide Counted, SharedIsCow, EntriesOk, View, NextPage, PointsInto, PtrOk, Load;
    var n := Part1(addr, size);
    LoadsPage(t, Slot(sid, addr / PAGE_SIZE), addr % PAGE_SIZE, false, p1, n);
    if Crosses(addr, size) { LoadsPage(t, Slot(sid, NextPage(addr) / PAGE_SIZE), 0, false, p2, size - n); }
    var vs := Load(t, p1.value, n) + (if Crosses(addr, size) then Load(t, p2.value, size - n) else []);
    forall i | 0 <= i < size ensures vs[i] == ByteAt(View(t), sid, At(addr, i)) {
      AtFacts(addr, size, i);
    }
  }

  // ----------------------------------------------------------- the writes

  lemma DistanceFacts(page: nat, j: nat, addr: nat, size: nat)
    requires page < MEM_PAGES && j < PAGE_SIZE && addr < ADDR_SPACE && 1 <= size <= PAGE_SIZE
    ensures var d, off, n := Distance(page, j, addr), addr % PAGE_SIZE, Part1(addr, size);
            if page == addr / PAGE_SIZE then (d < size <==> off <= j < off + n) && (off <= j ==> d == j - off)
            else if page == NextPage(addr) / PAGE_SIZE && Crosses(addr, size) then (d < size <==> j < size - n) && (j < size - n ==> d == n + j)
            else d >= size
  {
    var p1, off := addr / PAGE_SIZE, addr % PAGE_SIZE;
    var x := page * PAGE_SIZE + j - addr;
    assert x == (page - p1) * PAGE_SIZE + j - off;
    NextPageFacts(addr, size);
    if x >= 0 {
      assert Distance(page, j, addr) == x;
    } else {
      assert Distance(page, j, addr) == x + ADDR_SPACE;
    }
  }

  // One page of a flat write, as the memcpy of the part of vs that falls on it.
  lemma WrittenPageIsSplice(p: Page, page: nat, addr: nat, vs: seq<byte>)
    requires page < MEM_PAGES && |p.bytes| == PAGE_SIZE && addr < ADDR_SPACE && 1 <= |vs| <= PAGE_SIZE
    ensures var n := Part1(addr, |vs|);
            WrittenPage(p, page, addr, vs)
            == if page == addr / PAGE_SIZE then p.(bytes := Splice(p.bytes, addr % PAGE_SIZE, vs[..n]))
               else if page == NextPage(addr) / PAGE_SIZE && Crosses(addr, |vs|) then p.(bytes := Splice(p.bytes, 0, vs[n..]))
               else p
  {
    var n := Part1(addr, |vs|);
    NextPageFacts(addr, |vs|);
    var want := if page == addr / PAGE_SIZE then Splice(p.bytes, addr % PAGE_SIZE, vs[..n])
                else if page == NextPage(addr) / PAGE_SIZE && Crosses(addr, |vs|) then Splice(p.bytes, 0, vs[n..])
                else p.bytes;
    var got := WrittenPage(p, page, addr, vs).bytes;
    hide NextPage, Distance, Splice;
    forall j | 0 <= j < PAGE_SIZE ensures got[j] == want[j] {
      DistanceFacts(page, j, addr, |vs|);
    }
    assert got == want;
  }

  lemma FlatWriteIsSplices(a: map<Slot, Page>, sid: SpaceId, addr: nat, vs: seq<byte>)
    requires Sized(a) && addr < ADDR_SPACE && 1 <= |vs| <= PAGE_SIZE && FlatWritable(a, sid, addr, |vs|)
    requires forall k <- a :: k.page < MEM_PAGES
    ensures var k1, k2, n := Slot(sid, addr / PAGE_SIZE), Slot(sid, NextPage(addr) / PAGE_SIZE), Part1(addr, |vs|);
            && k1 in a && (Crosses(addr, |vs|) ==> k2 in a)
            && var b := a[k1 := a[k1].(bytes := Splice(a[k1].bytes, addr % PAGE_SIZE, vs[..n]))];
            FlatWrite(a, sid, addr, vs) == if Crosses(addr, |vs|) then b[k2 := a[k2].(bytes := Splice(a[k2].bytes, 0, vs[n..]))] else b
  {
    NextPageFacts(addr, |vs|);
    AccessMeansPages(a, sid, addr, |vs|);
    hide NextPage, WrittenPage, Splice, FlatWritable;
    forall k <- a | k.space == sid { WrittenPageIsSplice(a[k], k.page, addr, vs); }
  }

  lemma StoreThrough(s: Memory, k: Slot, i: nat, p: Option<HostPtr>, vs: seq<byte>)
    requires Inv(s) && PointsInto(s, k, i, true, p) && p.Some? && i + |vs| <= PAGE_SIZE
    ensures PtrOk(s.blocks, p.value, |vs|) && k in View(s) && |View(s)[k].bytes| == PAGE_SIZE
    ensures var t := Store(s, p.value, vs);
            && Inv(t) && t.entries == s.entries && t.changes == s.changes
            && View(t) == View(s)[k := View(s)[k].(bytes := Splice(View(s)[k].bytes, i, vs))]
  {
    hide Counted, SharedIsCow, EntriesOk, View;
    ViewAt(s, k);
    StoreView(s, k, i, vs);
  }

  lemma PagesBelow(t: Memory)
    requires EntriesOk(t)
    ensures forall k <- t.entries :: k.page < MEM_PAGES
  {
  }

  lemma StoresWrite(t: Memory, sid: SpaceId, addr: nat, vs: seq<byte>, p1: Option<HostPtr>, p2: Option<HostPtr>)
    requires Inv(t) && addr < ADDR_SPACE && 1 <= |vs| <= PAGE_SIZE
    requires PointsInto(t, Slot(sid, addr / PAGE_SIZE), addr % PAGE_SIZE, true, p1) && p1.Some?
    requires Crosses(addr, |vs|) ==> PointsInto(t, Slot(sid, NextPage(addr) / PAGE_SIZE), 0, true, p2) && p2.Some?
    requires FlatWritable(View(t), sid, addr, |vs|)
    ensures var n := Part1(addr, |vs|);
            && PtrOk(t.blocks, p1.value, n)
            && var u := Store(t, p1.value, vs[..n]);
            && (Crosses(addr, |vs|) ==> PtrOk(u.blocks, p2.value, |vs| - n))
            && var w := if Crosses(addr, |vs|) then Store(u, p2.value, vs[n..]) else u;
            Inv(w) && w.entries == t.entries && w.changes == t.changes && View(w) == FlatWrite(View(t), sid, addr, vs)
  {
    hide Counted, SharedIsCow, EntriesOk, View, NextPage, FlatWrite, FlatWritable, Splice, PtrOk, Store;
    var k1, k2, n := Slot(sid, addr / PAGE_SIZE), Slot(sid, NextPage(addr) / PAGE_SIZE), Part1(addr, |vs|);
    NextPageFacts(addr, |vs|);
    ViewSized(t);
    ViewKeys(t);
    PagesBelow(t);
    FlatWriteIsSplices(View(t), sid, addr, vs);
    StoreThrough(t, k1, addr % PAGE_SIZE, p1, vs[..n]);
    if Crosses(addr, |vs|) {
      StoreThrough(Store(t, p1.value, vs[..n]), k2, 0, p2, vs[n..]);
    }
  }

  /** A write of one CPU access, page-crossing or not: it succeeds exactly when every byte is writable, then it changes
      what a flat memory would; when it fails it changes no byte. Bytes of other processes never change. */
  lemma WriteRefines(s: Memory, sid: SpaceId, entries: seq<TlbEntry>, addr: nat, vs: seq<byte>, id1: BlockId, id2: BlockId)
    requires Inv(s) && AccessOk(s, sid, addr, |vs|, id1, id2) && Coherent(s, sid, entries)
    ensures var (t, en, ok) := TlbWrite(s, sid, entries, addr, vs, id1, id2);
            var reached := Reach(View(s), sid, addr, |vs|);
            && Inv(t) && t.changes.Keys == s.changes.Keys && Coherent(t, sid, en)
            && (ok <==> FlatWritable(reached, sid, addr, |vs|))
            && View(t) == if ok then FlatWrite(reached, sid, addr, vs) else reached
  {
    assert |entries| == TLB_SIZE;
    hide Counted, SharedIsCow, EntriesOk, View, Pointers, PointsInto, NextPage, Reach, FlatWritable, FlatWrite, PtrOk, Store;
    PointersPoint(s, sid, entries, addr, |vs|, true, id1, id2);
    var (t, en, p1, p2) := Pointers(s, sid, entries, addr, |vs|, true, id1, id2);
    PointersMeanMapped(t, sid, addr, |vs|, true, p1, p2);
    if Followable(t, addr, |vs|, p1, p2) {
      StoresWrite(t, sid, addr, vs, p1, p2);
      StableCoherent(t, TlbWrite(s, sid, entries, addr, vs, id1, id2).0, sid, en);
    }
  }
}
