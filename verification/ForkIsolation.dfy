/** Runs of memory operations by several processes. The concrete run shares
    blocks copy-on-write; the reference run copies pages eagerly at fork and
    shares nothing. Both give the same outputs, for every run. */
module ForkIsolation {
  import opened Bytes
  import opened GuestMemory
  import opened Mprotect

  datatype Output = Done | Code(err: int) | Value(b: byte) | Fault

  // The block ids are the addresses malloc happens to pick for a struct data.
  datatype Op =
    | NewOp(sid: SpaceId)
    | DestroyOp(sid: SpaceId)
    | MapOp(sid: SpaceId, start: nat, pages: nat, bytes: seq<byte>, flags: Flags, id: BlockId)
    | UnmapOp(sid: SpaceId, start: nat, pages: nat, force: bool)
    | SetFlagsOp(sid: SpaceId, start: nat, pages: nat, flags: Flags)
    | CopyOp(src: SpaceId, srcStart: nat, dst: SpaceId, dstStart: nat, pages: nat)
    | ReadOp(sid: SpaceId, addr: nat, id: BlockId)
    | WriteOp(sid: SpaceId, addr: nat, value: byte, id: BlockId)

  // A range inside the page table, a struct data that is not in use, and a safe pt_set_flags. MemoryCalls says when the
  // system calls leave the table, Mprotect when pt_set_flags is safe, and HostRegions when a block has memory of its own.
  ghost predicate Enabled(s: Memory, op: Op) {
    match op
    case NewOp(sid) => sid !in s.changes
    case DestroyOp(sid) => sid in s.changes
    case MapOp(sid, start, pages, bytes, _, id) =>
      sid in s.changes && start + pages <= MEM_PAGES && |bytes| == pages * PAGE_SIZE && id !in s.blocks
    case UnmapOp(sid, start, pages, _) => sid in s.changes && start + pages <= MEM_PAGES
    case SetFlagsOp(sid, start, pages, flags) =>
      sid in s.changes && start + pages <= MEM_PAGES && SetFlagsSafe(s, sid, start, pages, flags)
    case CopyOp(src, srcStart, dst, dstStart, pages) =>
      src in s.changes && dst in s.changes && src != dst && srcStart + pages <= MEM_PAGES && dstStart + pages <= MEM_PAGES
    case ReadOp(sid, addr, id) => sid in s.changes && addr < ADDR_SPACE && id !in s.blocks
    case WriteOp(sid, addr, _, id) => sid in s.changes && addr < ADDR_SPACE && id !in s.blocks
  }

  // ------------------------------------------------- the program's own run

  function Create(s: Memory, sid: SpaceId): Memory { s.(changes := s.changes[sid := 0]) }

  // mem_release of the last reference.
  function Destroy(s: Memory, sid: SpaceId): Memory {
    var t := PtUnmap(s, sid, 0, MEM_PAGES, true).0;
    t.(changes := t.changes - {sid})
  }

  // One byte of user_write_task or user_read_task.
  function WriteByte(s: Memory, sid: SpaceId, addr: nat, v: byte, id: BlockId): (Memory, bool) {
    var t := Touch(s, sid, addr / PAGE_SIZE, true, id);
    var p := Pointer(s, sid, addr, true, id);
    if p.Some? && PtrOk(t.blocks, p.value, 1) then (Store(t, p.value, [v]), true) else (t, false)
  }

  function ReadByte(s: Memory, sid: SpaceId, addr: nat, id: BlockId): (Memory, Option<byte>) {
    var t := Touch(s, sid, addr / PAGE_SIZE, false, id);
    var p := Pointer(s, sid, addr, false, id);
    if p.Some? && PtrOk(t.blocks, p.value, 1) then (t, Some(Load(t, p.value, 1)[0])) else (t, None)
  }

  function Step(s: Memory, op: Op): (Memory, Output) {
    match op
    case NewOp(sid) => (Create(s, sid), Done)
    case DestroyOp(sid) => (Destroy(s, sid), Done)
    case MapOp(sid, start, pages, bytes, flags, id) => (PtMap(s, sid, start, pages, id, bytes, flags), Code(0))
    case UnmapOp(sid, start, pages, force) =>
      var (t, err) := PtUnmap(s, sid, start, pages, force); (t, Code(err))
    case SetFlagsOp(sid, start, pages, flags) =>
      var (t, err) := PtSetFlags(s, sid, start, pages, flags); (t, Code(err))
    case CopyOp(src, srcStart, dst, dstStart, pages) =>
      (PtCopyOnWrite(s, src, srcStart, dst, dstStart, pages), Code(0))
    case ReadOp(sid, addr, id) =>
      var (t, r) := ReadByte(s, sid, addr, id); (t, if r.Some? then Value(r.value) else Fault)
    case WriteOp(sid, addr, v, id) =>
      var (t, ok) := WriteByte(s, sid, addr, v, id); (t, if ok then Done else Fault)
  }

  // ------------------------------------------------------ the reference run

  /** Memory without blocks, sharing or reference counts: each space maps its own pages. */
  datatype Flat = Flat(pages: map<Slot, Page>, live: set<SpaceId>)

  ghost function ReadPage(a: map<Slot, Page>, sid: SpaceId, addr: nat): Option<byte> {
    var k := Slot(sid, addr / PAGE_SIZE);
    if k in a && addr % PAGE_SIZE < |a[k].bytes| then Some(a[k].bytes[addr % PAGE_SIZE]) else None
  }

  ghost predicate Writable(a: map<Slot, Page>, sid: SpaceId, addr: nat) {
    var k := Slot(sid, addr / PAGE_SIZE);
    k in a && a[k].flags.write && addr % PAGE_SIZE < |a[k].bytes|
  }

  ghost function WritePage(a: map<Slot, Page>, sid: SpaceId, addr: nat, v: byte): map<Slot, Page>
    requires Writable(a, sid, addr)
  {
    var k := Slot(sid, addr / PAGE_SIZE);
    a[k := a[k].(bytes := Splice(a[k].bytes, addr % PAGE_SIZE, [v]))]
  }

  ghost function FlatStep(a: Flat, op: Op): (Flat, Output) {
    match op
    case NewOp(sid) => (a.(live := a.live + {sid}), Done)
    case DestroyOp(sid) => (Flat(a.pages - Range(sid, 0, MEM_PAGES), a.live - {sid}), Done)
    case MapOp(sid, start, pages, bytes, flags, _) =>
      (if pages * PAGE_SIZE <= |bytes| then a.(pages := MapPages(a.pages, sid, start, pages, bytes, flags)) else a, Code(0))
    case UnmapOp(sid, start, pages, force) =>
      if !force && !AllMapped(a.pages.Keys, sid, start, pages) then (a, Code(-1))
      else (a.(pages := a.pages - Range(sid, start, pages)), Code(0))
    case SetFlagsOp(sid, start, pages, flags) =>
      if !AllMapped(a.pages.Keys, sid, start, pages) then (a, Code(ENOMEM))
      else (a.(pages := SetPages(a.pages, sid, start, pages, flags)), Code(0))
    case CopyOp(src, srcStart, dst, dstStart, pages) =>
      (a.(pages := CopyPages(a.pages, src, srcStart, dst, dstStart, pages)), Code(0))
    case ReadOp(sid, addr, _) =>
      var p := GrowPages(a.pages, sid, addr / PAGE_SIZE);
      var r := ReadPage(p, sid, addr);
      (a.(pages := p), if r.Some? then Value(r.value) else Fault)
    case WriteOp(sid, addr, v, _) =>
      var p := GrowPages(a.pages, sid, addr / PAGE_SIZE);
      if Writable(p, sid, addr) then (a.(pages := WritePage(p, sid, addr, v)), Done) else (a.(pages := p), Fault)
  }

  // ------------------------------------------------------------ simulation

  ghost function Abs(s: Memory): Flat
    requires Inv(s)
  {
    Flat(View(s), s.changes.Keys)
  }

  // The step keeps the invariant and does to the reference memory what the reference step does.
  ghost predicate Simulated(s: Memory, op: Op)
    requires Inv(s)
  {
    var (t, out) := Step(s, op);
    Inv(t) && FlatStep(Abs(s), op) == (Abs(t), out)
  }

  lemma PointerAt(s: Memory, sid: SpaceId, addr: nat, write: bool, id: BlockId, n: nat)
    requires addr % PAGE_SIZE + n <= PAGE_SIZE && Inv(s) && sid in s.changes && addr < ADDR_SPACE && id !in s.blocks
    ensures var t := Touch(s, sid, addr / PAGE_SIZE, write, id);
            var k := Slot(sid, addr / PAGE_SIZE);
            && Inv(t) && t.changes.Keys == s.changes.Keys
            && View(t) == GrowPages(View(s), sid, addr / PAGE_SIZE)
            && (Pointer(s, sid, addr, write, id).Some? <==> k in View(t) && (write ==> View(t)[k].flags.write))
            && (k in View(t) ==> |View(t)[k].bytes| == PAGE_SIZE)
            && (Pointer(s, sid, addr, write, id).Some? ==>
                  && PtrOk(t.blocks, Pointer(s, sid, addr, write, id).value, n)
                  && Load(t, Pointer(s, sid, addr, write, id).value, n) == View(t)[k].bytes[addr % PAGE_SIZE..addr % PAGE_SIZE + n])
  {
    hide Counted, SharedIsCow, View, EntriesOk, GrowPages, Touch;
    var page, i := addr / PAGE_SIZE, addr % PAGE_SIZE;
    TouchView(s, sid, page, write, id);
    var t := Touch(s, sid, page, write, id);
    var k := Slot(sid, page);
    ViewKeys(t);
    if k in t.entries {
      ViewAt(t, k);
      assert PageBytes(t.blocks, t.entries[k])[i..i + n]
             == t.blocks[t.entries[k].data].bytes[t.entries[k].offset + i..t.entries[k].offset + i + n];
    }
  }

  lemma ReadSimulated(s: Memory, sid: SpaceId, addr: nat, id: BlockId)
    requires Inv(s) && Enabled(s, ReadOp(sid, addr, id))
    ensures Simulated(s, ReadOp(sid, addr, id))
  {
    hide Counted, SharedIsCow, View, EntriesOk, GrowPages, Touch, Pointer, PtrOk;
    PointerAt(s, sid, addr, false, id, 1);
  }

  lemma WriteSimulated(s: Memory, sid: SpaceId, addr: nat, v: byte, id: BlockId)
    requires Inv(s) && Enabled(s, WriteOp(sid, addr, v, id))
    ensures Simulated(s, WriteOp(sid, addr, v, id))
  {
    hide Counted, SharedIsCow, View, EntriesOk, GrowPages, Touch, PtrOk;
    PointerAt(s, sid, addr, true, id, 1);
    TouchView(s, sid, addr / PAGE_SIZE, true, id);
    var t := Touch(s, sid, addr / PAGE_SIZE, true, id);
    if Pointer(s, sid, addr, true, id).Some? {
      StoreView(t, Slot(sid, addr / PAGE_SIZE), addr % PAGE_SIZE, [v]);
    }
  }

  lemma UnmapSimulated(s: Memory, sid: SpaceId, start: nat, pages: nat, force: bool)
    requires Inv(s) && Enabled(s, UnmapOp(sid, start, pages, force))
    ensures Simulated(s, UnmapOp(sid, start, pages, force))
  {
    hide Counted, SharedIsCow, View, EntriesOk, AllMapped, UnmapLoop;
    ViewKeys(s);
    UnmapView(s, sid, start, pages);
    UnmapChanges(s, sid, start, pages);
    BumpKeeps(UnmapLoop(s, sid, start, pages), sid);
  }

  lemma {:induction false} UnmapChanges(s: Memory, sid: SpaceId, start: nat, n: nat)
    ensures UnmapLoop(s, sid, start, n).changes == s.changes
  {
    if n != 0 { UnmapChanges(s, sid, start, n - 1); }
  }

  lemma DestroySimulated(s: Memory, sid: SpaceId)
    requires Inv(s) && Enabled(s, DestroyOp(sid))
    ensures Simulated(s, DestroyOp(sid))
  {
    UnmapSimulated(s, sid, 0, MEM_PAGES, true);
    var t := PtUnmap(s, sid, 0, MEM_PAGES, true).0;
    hide Counted, SharedIsCow, View, UnmapLoop, PtUnmap;
    ViewKeys(t);
    DropSpace(t, sid);
  }

  lemma DropSpace(t: Memory, sid: SpaceId)
    requires Inv(t) && forall k <- t.entries :: k !in Range(sid, 0, MEM_PAGES)
    ensures var u := t.(changes := t.changes - {sid}); Inv(u) && View(u) == View(t)
  {
    var u := t.(changes := t.changes - {sid});
    assert Counted(u) by {
      forall b ensures Users(u, b) == Users(t, b) {}
    }
    hide Counted, SharedIsCow, View, EntryOk;
    forall k <- u.entries ensures k.space in u.changes {
      assert k.page < MEM_PAGES && k.space in t.changes;
      assert k.space != sid;
    }
    SameView(t, u, {});
  }

  lemma NewSimulated(s: Memory, sid: SpaceId)
    requires Inv(s) && Enabled(s, NewOp(sid))
    ensures Simulated(s, NewOp(sid))
  {
    var t := Create(s, sid);
    assert Counted(t) by {
      forall b ensures Users(t, b) == Users(s, b) {}
    }
    hide Counted, SharedIsCow, View;
    SameView(s, t, {});
    assert t.changes.Keys == s.changes.Keys + {sid};
  }

  lemma CopySimulated(s: Memory, src: SpaceId, srcStart: nat, dst: SpaceId, dstStart: nat, pages: nat)
    requires Inv(s) && Enabled(s, CopyOp(src, srcStart, dst, dstStart, pages))
    ensures Simulated(s, CopyOp(src, srcStart, dst, dstStart, pages))
  {
    hide Counted, SharedIsCow, View, EntriesOk, ShareLoop, CopyPages;
    ShareLoopView(s, src, srcStart, dst, dstStart, pages);
    var t := ShareLoop(s, src, srcStart, dst, dstStart, pages);
    BumpKeeps(t, src);
    BumpKeeps(Bump(t, src), dst);
  }

  lemma MapSimulated(s: Memory, op: Op)
    requires op.MapOp? && Inv(s) && Enabled(s, op)
    ensures Simulated(s, op)
  {
    hide Counted, SharedIsCow, View, EntriesOk, PtMap, MapPages;
    PtMapView(s, op.sid, op.start, op.pages, op.id, op.bytes, op.flags);
  }

  lemma SetFlagsSimulated(s: Memory, sid: SpaceId, start: nat, pages: nat, flags: Flags)
    requires Inv(s) && Enabled(s, SetFlagsOp(sid, start, pages, flags))
    ensures Simulated(s, SetFlagsOp(sid, start, pages, flags))
  {
    hide Counted, SharedIsCow, View, EntriesOk, AllMapped, SetPages, PtSetFlags, SetFlagsSafe;
    SetFlagsView(s, sid, start, pages, flags);
  }

  lemma StepSimulated(s: Memory, op: Op)
    requires Inv(s) && Enabled(s, op)
    ensures Simulated(s, op)
  {
    match op {
      case NewOp(sid) => NewSimulated(s, sid);
      case DestroyOp(sid) => DestroySimulated(s, sid);
      case MapOp(_, _, _, _, _, _) => MapSimulated(s, op);
      case UnmapOp(sid, start, pages, force) => UnmapSimulated(s, sid, start, pages, force);
      case SetFlagsOp(sid, start, pages, flags) => SetFlagsSimulated(s, sid, start, pages, flags);
      case CopyOp(src, srcStart, dst, dstStart, pages) => CopySimulated(s, src, srcStart, dst, dstStart, pages);
      case ReadOp(sid, addr, id) => ReadSimulated(s, sid, addr, id);
      case WriteOp(sid, addr, v, id) => WriteSimulated(s, sid, addr, v, id);
    }
  }

  // ------------------------------------------------------------------ runs

  ghost predicate EnabledRun(s: Memory, ops: seq<Op>)
    decreases |ops|
  {
    ops == [] || (Enabled(s, ops[0]) && EnabledRun(Step(s, ops[0]).0, ops[1..]))
  }

  function Run(s: Memory, ops: seq<Op>): (Memory, seq<Output>)
    decreases |ops|
  {
    if ops == [] then (s, [])
    else
      var (t, out) := Step(s, ops[0]);
      var (u, outs) := Run(t, ops[1..]);
      (u, [out] + outs)
  }

  ghost function FlatRun(a: Flat, ops: seq<Op>): (Flat, seq<Output>)
    decreases |ops|
  {
    if ops == [] then (a, [])
    else
      var (b, out) := FlatStep(a, ops[0]);
      var (c, outs) := FlatRun(b, ops[1..]);
      (c, [out] + outs)
  }

  /** Fork isolation, over every run: sharing pages copy-on-write cannot be told from copying them at fork. */
  lemma {:induction false} RunSimulated(s: Memory, ops: seq<Op>)
    requires Inv(s) && EnabledRun(s, ops)
    ensures var (t, outs) := Run(s, ops);
            Inv(t) && FlatRun(Abs(s), ops) == (Abs(t), outs)
    decreases |ops|
  {
    if ops != [] {
      StepSimulated(s, ops[0]);
      hide Inv, FlatStep, Step, Enabled;
      RunSimulated(Step(s, ops[0]).0, ops[1..]);
    }
  }

  // ------------------------------------------------ what isolation means

  // The space whose own page table the operation may change.
  predicate Targets(op: Op, sid: SpaceId) {
    match op
    case NewOp(x) => x == sid
    case DestroyOp(x) => x == sid
    case MapOp(x, _, _, _, _, _) => x == sid
    case UnmapOp(x, _, _, _) => x == sid
    case SetFlagsOp(x, _, _, _) => x == sid
    case CopyOp(_, _, x, _, _) => x == sid
    case ReadOp(x, _, _) => x == sid
    case WriteOp(x, _, _, _) => x == sid
  }

  lemma {:induction false} OthersKeepPages(a: Flat, ops: seq<Op>, k: Slot)
    requires forall op <- ops :: !Targets(op, k.space)
    ensures var b := FlatRun(a, ops).0;
            (k in b.pages <==> k in a.pages) && (k in a.pages ==> b.pages[k] == a.pages[k])
    decreases |ops|
  {
    if ops != [] {
      assert !Targets(ops[0], k.space);
      OthersKeepPages(FlatStep(a, ops[0]).0, ops[1..], k);
    }
  }

  /** After a fork into an empty space, whatever other processes do, every page
      of the child is the page its parent had at the fork. */
  lemma ChildKeepsForkImage(s: Memory, src: SpaceId, dst: SpaceId, ops: seq<Op>, page: nat)
    requires Inv(s) && EnabledRun(s, [CopyOp(src, 0, dst, 0, MEM_PAGES)] + ops)
    requires src != dst && forall k <- s.entries :: k.space != dst
    requires forall op <- ops :: !Targets(op, dst)
    ensures var t := Run(s, [CopyOp(src, 0, dst, 0, MEM_PAGES)] + ops).0;
            && Inv(t)
            && (Slot(dst, page) in View(t) <==> Slot(src, page) in View(s))
            && (Slot(src, page) in View(s) ==> View(t)[Slot(dst, page)] == View(s)[Slot(src, page)])
  {
    hide Counted, SharedIsCow, EntriesOk, View;
    var fork := CopyOp(src, 0, dst, 0, MEM_PAGES);
    assert ([fork] + ops)[0] == fork && ([fork] + ops)[1..] == ops;
    RunSimulated(s, [fork] + ops);
    OthersKeepPages(FlatStep(Abs(s), fork).0, ops, Slot(dst, page));
    if Slot(src, page) in s.entries { ViewAt(s, Slot(src, page)); }
    ViewKeys(s);
  }

  lemma EmptyMemory()
    ensures Inv(Memory(map[], map[], map[]))
  {
    var s := Memory(map[], map[], map[]);
    forall b ensures Users(s, b) == {} {}
  }
}
