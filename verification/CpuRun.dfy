/** Whole runs of a CPU thread: loads and stores through the TLB, traps whose
    system calls change any address space, the poll of the change counter that
    flushes the TLB afterwards, and the operations of other processes. */
module CpuRun {
  import opened Bytes
  import opened GuestMemory
  import opened ForkIsolation
  import opened Mprotect
  import opened TlbModel
  import opened CpuMemory

  /** `seen` is the counter value cpu_run saved at its last poll; `polled` is how many changes there had been. */
  datatype Cpu = Cpu(memory: Memory, sid: SpaceId, entries: seq<TlbEntry>, seen: nat, polled: nat)

  datatype Event =
    | LoadEvent(addr: nat, size: nat, id1: BlockId, id2: BlockId)
    | StoreEvent(addr: nat, value: seq<byte>, id1: BlockId, id2: BlockId)
    | TrapEvent(ops: seq<Op>)
    | OthersEvent(ops: seq<Op>)

  datatype Result = Loaded(value: Option<seq<byte>>) | Stored(ok: bool) | Outputs(outs: seq<Output>)

  function Flushed(): (f: seq<TlbEntry>)
    ensures |f| == TLB_SIZE
  {
    seq(TLB_SIZE, _ => TlbEntry(TLB_PAGE_EMPTY, TLB_PAGE_EMPTY, HostPtr(0, 0)))
  }

  // The end of the loop body of cpu_run, after handle_interrupt.
  function Poll(c: Cpu): Cpu
    requires c.sid in c.memory.changes
  {
    var now := c.memory.changes[c.sid];
    if now % COUNTER != c.seen then c.(entries := Flushed(), seen := now % COUNTER, polled := now) else c
  }

  predicate Runnable(c: Cpu) { |c.entries| == TLB_SIZE && c.sid in c.memory.changes }

  function CpuStep(c: Cpu, ev: Event): (Cpu, Result)
    requires Runnable(c) && EventOk(c, ev)
  {
    match ev
    case LoadEvent(addr, size, id1, id2) =>
      var (t, en, r) := TlbRead(c.memory, c.sid, c.entries, addr, size, id1, id2);
      (c.(memory := t, entries := en), Loaded(r))
    case StoreEvent(addr, vs, id1, id2) =>
      var (t, en, ok) := TlbWrite(c.memory, c.sid, c.entries, addr, vs, id1, id2);
      (c.(memory := t, entries := en), Stored(ok))
    case TrapEvent(ops) =>
      var (t, outs) := Run(c.memory, ops);
      (if c.sid in t.changes then Poll(c.(memory := t)) else c.(memory := t), Outputs(outs))
    case OthersEvent(ops) =>
      var (t, outs) := Run(c.memory, ops);
      (c.(memory := t), Outputs(outs))
  }

  // An operation of another process: it neither changes this page table nor copies from it.
  predicate Elsewhere(op: Op, sid: SpaceId) { !Targets(op, sid) && (op.CopyOp? ==> op.src != sid) }

  ghost predicate EventOk(c: Cpu, ev: Event) {
    match ev
    case LoadEvent(addr, size, id1, id2) => AccessOk(c.memory, c.sid, addr, size, id1, id2)
    case StoreEvent(addr, vs, id1, id2) => AccessOk(c.memory, c.sid, addr, |vs|, id1, id2)
    case TrapEvent(ops) =>
      // the process lives on, and fewer than 2^32 changes happened since the last poll
      EnabledRun(c.memory, ops) && DestroyOp(c.sid) !in ops
      && var t := Run(c.memory, ops).0; c.sid in t.changes ==> t.changes[c.sid] < c.polled + COUNTER
    case OthersEvent(ops) => EnabledRun(c.memory, ops) && forall op <- ops :: Elsewhere(op, c.sid)
  }

  /** The same event on flat memory. */
  ghost function FlatEvent(a: Flat, sid: SpaceId, ev: Event): (Flat, Result) {
    match ev
    case LoadEvent(addr, size, _, _) =>
      var p := Reach(a.pages, sid, addr, size);
      (a.(pages := p), Loaded(FlatRead(p, sid, addr, size)))
    case StoreEvent(addr, vs, _, _) =>
      var p := Reach(a.pages, sid, addr, |vs|);
      if FlatWritable(p, sid, addr, |vs|) then (a.(pages := FlatWrite(p, sid, addr, vs)), Stored(true))
      else (a.(pages := p), Stored(false))
    case TrapEvent(ops) => var (b, outs) := FlatRun(a, ops); (b, Outputs(outs))
    case OthersEvent(ops) => var (b, outs) := FlatRun(a, ops); (b, Outputs(outs))
  }

  ghost predicate CpuInv(c: Cpu) {
    && Inv(c.memory) && c.sid in c.memory.changes && Coherent(c.memory, c.sid, c.entries)
    && c.polled <= c.memory.changes[c.sid] && c.seen == c.polled % COUNTER
  }

  // -------------------------------------------------- the poll is in time

  lemma LookupHonest(s: Memory, sid: SpaceId, entries: seq<TlbEntry>, addr: nat, write: bool, id: BlockId)
    requires sid in s.changes && addr < ADDR_SPACE && |entries| == TLB_SIZE
    ensures Honest(s, Lookup(s, sid, entries, addr, write, id).0, sid)
  {
    HonestReflexive(s, sid);
    TouchHonest(s, sid, addr / PAGE_SIZE, write, id, sid);
    hide Honest, Touch, TlbIndex;
  }

  lemma PointersHonest(s: Memory, sid: SpaceId, entries: seq<TlbEntry>, addr: nat, size: nat, write: bool, id1: BlockId, id2: BlockId)
    requires sid in s.changes && AccessOk(s, sid, addr, size, id1, id2) && |entries| == TLB_SIZE
    ensures Honest(s, Pointers(s, sid, entries, addr, size, write, id1, id2).0, sid)
  {
    NextPageFacts(addr, size);
    LookupHonest(s, sid, entries, addr, write, id1);
    var (t, en, p1) := Lookup(s, sid, entries, addr, write, id1);
    HonestAlive(s, t, sid);
    if Crosses(addr, size) {
      LookupHonest(t, sid, en, NextPage(addr), write, id2);
      HonestTransitive(s, t, Lookup(t, sid, en, NextPage(addr), write, id2).0, sid);
    }
    hide Honest, Lookup;
  }

  lemma FlushedCoherent(s: Memory, sid: SpaceId)
    ensures Coherent(s, sid, Flushed())
  {
    forall i | 0 <= i < TLB_SIZE ensures EntryFits(s, sid, i, Flushed()[i]) {}
  }

  /** If fewer than 2^32 changes happened since the last poll, the poll leaves a coherent TLB. */
  lemma PollCoherent(c: Cpu, t: Memory)
    requires CpuInv(c) && Inv(t) && Honest(c.memory, t, c.sid)
    requires t.changes[c.sid] < c.polled + COUNTER
    ensures CpuInv(Poll(c.(memory := t)))
  {
    FlushedCoherent(t, c.sid);
    var now := t.changes[c.sid];
    if now % COUNTER == c.seen {
      SmallMod(now, c.polled);
      StableCoherent(c.memory, t, c.sid, c.entries);
    }
    hide Inv, Coherent, Stable;
  }

  lemma SmallMod(a: nat, b: nat)
    requires b <= a < b + COUNTER && a % COUNTER == b % COUNTER
    ensures a == b
  {
  }

  ghost predicate CountKept(s: Memory, t: Memory, sid: SpaceId) {
    sid in s.changes && sid in t.changes && t.changes[sid] == s.changes[sid]
  }

  lemma {:induction false} MapElsewhere(s: Memory, target: SpaceId, start: nat, n: nat, b: BlockId, flags: Flags, sid: SpaceId)
    requires sid in s.changes && sid != target
    ensures CountKept(s, MapLoop(s, target, start, n, b, flags), sid)
  {
    if n != 0 { MapElsewhere(s, target, start, n - 1, b, flags, sid); }
  }

  lemma {:induction false} ShareElsewhere(s: Memory, src: SpaceId, srcStart: nat, dst: SpaceId, dstStart: nat, n: nat, sid: SpaceId)
    requires sid in s.changes && sid != dst
    ensures CountKept(s, ShareLoop(s, src, srcStart, dst, dstStart, n), sid)
  {
    if n != 0 { ShareElsewhere(s, src, srcStart, dst, dstStart, n - 1, sid); }
  }

  lemma TouchElsewhere(s: Memory, target: SpaceId, page: nat, write: bool, id: BlockId, sid: SpaceId)
    requires sid in s.changes && sid != target
    ensures CountKept(s, Touch(s, target, page, write, id), sid)
  {
    MapElsewhere(NewBlock(s, id, Zeros(PAGE_SIZE)), target, page, 1, id, STACK_FLAGS, sid);
    var t := Grow(s, target, page, id);
    assert CountKept(s, t, sid);
    var k := Slot(target, page);
    if k in t.entries && t.entries[k].flags.cow && EntryOk(t.blocks, t.entries[k]) {
      var bytes := PageBytes(t.blocks, t.entries[k]);
      MapElsewhere(NewBlock(t, id, bytes), target, page, 1, id, t.entries[k].flags.(cow := false), sid);
      hide MapLoop;
    }
    hide MapLoop, Grow;
  }

  lemma StepElsewhere(s: Memory, op: Op, sid: SpaceId)
    requires sid in s.changes && Enabled(s, op) && Elsewhere(op, sid)
    ensures CountKept(s, Step(s, op).0, sid)
  {
    match op {
      case NewOp(x) =>
      case DestroyOp(x) => UnmapChanges(s, x, 0, MEM_PAGES);
      case MapOp(x, start, pages, bytes, flags, id) => MapElsewhere(NewBlock(s, id, bytes), x, start, pages, id, flags, sid);
      case UnmapOp(x, start, pages, force) => UnmapChanges(s, x, start, pages);
      case SetFlagsOp(x, start, pages, flags) => SetLoopEntries(s, x, start, pages, flags);
      case CopyOp(src, srcStart, dst, dstStart, pages) => ShareElsewhere(s, src, srcStart, dst, dstStart, pages, sid);
      case ReadOp(x, addr, id) => TouchElsewhere(s, x, addr / PAGE_SIZE, false, id, sid);
      case WriteOp(x, addr, v, id) => TouchElsewhere(s, x, addr / PAGE_SIZE, true, id, sid);
    }
  }

  lemma {:induction false} RunElsewhere(s: Memory, ops: seq<Op>, sid: SpaceId)
    requires sid in s.changes && EnabledRun(s, ops) && forall op <- ops :: Elsewhere(op, sid)
    ensures CountKept(s, Run(s, ops).0, sid)
    decreases |ops|
  {
    hide Enabled, Step;
    if ops != [] {
      assert Elsewhere(ops[0], sid);
      StepElsewhere(s, ops[0], sid);
      RunElsewhere(Step(s, ops[0]).0, ops[1..], sid);
    }
  }

  // ------------------------------------------------------------ simulation

  // The event keeps the invariant and does to flat memory what the flat event does, with the same result.
  ghost predicate EventRefines(c: Cpu, ev: Event)
    requires CpuInv(c) && EventOk(c, ev)
  {
    var (d, r) := CpuStep(c, ev);
    CpuInv(d) && d.sid == c.sid && FlatEvent(Abs(c.memory), c.sid, ev) == (Abs(d.memory), r)
  }

  lemma LoadRefines(c: Cpu, ev: Event)
    requires ev.LoadEvent? && CpuInv(c) && EventOk(c, ev)
    ensures EventRefines(c, ev)
  {
    ReadRefines(c.memory, c.sid, c.entries, ev.addr, ev.size, ev.id1, ev.id2);
    PointersHonest(c.memory, c.sid, c.entries, ev.addr, ev.size, false, ev.id1, ev.id2);
    hide Inv, View, Coherent, Pointers, Followable, Reach, FlatRead, Stable, Load;
  }

  lemma StoreRefines(c: Cpu, ev: Event)
    requires ev.StoreEvent? && CpuInv(c) && EventOk(c, ev)
    ensures EventRefines(c, ev)
  {
    WriteRefines(c.memory, c.sid, c.entries, ev.addr, ev.value, ev.id1, ev.id2);
    PointersHonest(c.memory, c.sid, c.entries, ev.addr, |ev.value|, true, ev.id1, ev.id2);
    hide Inv, View, Coherent, Pointers, Followable, Reach, FlatWrite, FlatWritable, Stable, PtrOk;
  }

  lemma TrapRefines(c: Cpu, ev: Event)
    requires ev.TrapEvent? && CpuInv(c) && EventOk(c, ev)
    ensures EventRefines(c, ev)
  {
    RunSimulated(c.memory, ev.ops);
    RunHonest(c.memory, ev.ops, c.sid);
    hide Inv, View, Coherent, Run, FlatRun, EnabledRun;
    HonestAlive(c.memory, Run(c.memory, ev.ops).0, c.sid);
    PollCoherent(c, Run(c.memory, ev.ops).0);
  }

  lemma OthersRefine(c: Cpu, ev: Event)
    requires ev.OthersEvent? && CpuInv(c) && EventOk(c, ev)
    ensures EventRefines(c, ev)
  {
    RunSimulated(c.memory, ev.ops);
    var t := Run(c.memory, ev.ops).0;
    forall op <- ev.ops ensures op != DestroyOp(c.sid) { assert Elsewhere(op, c.sid); }
    RunHonest(c.memory, ev.ops, c.sid);
    RunElsewhere(c.memory, ev.ops, c.sid);
    StableCoherent(c.memory, t, c.sid, c.entries);
    hide Inv, View, Coherent, Run, FlatRun, EnabledRun, Stable;
  }

  lemma EventRefined(c: Cpu, ev: Event)
    requires CpuInv(c) && EventOk(c, ev)
    ensures EventRefines(c, ev)
  {
    hide CpuInv, EventRefines, EventOk;
    match ev {
      case LoadEvent(_, _, _, _) => LoadRefines(c, ev);
      case StoreEvent(_, _, _, _) => StoreRefines(c, ev);
      case TrapEvent(_) => TrapRefines(c, ev);
      case OthersEvent(_) => OthersRefine(c, ev);
    }
  }

  // Every event of the run finds its callers' guarantees.
  ghost predicate EventsOk(c: Cpu, evs: seq<Event>)
    decreases |evs|
  {
    evs == [] || (Runnable(c) ==> EventOk(c, evs[0]) && EventsOk(CpuStep(c, evs[0]).0, evs[1..]))
  }

  function Events(c: Cpu, evs: seq<Event>): (Cpu, seq<Result>)
    requires EventsOk(c, evs)
    decreases |evs|
  {
    if evs == [] || !Runnable(c) then (c, [])
    else
      var (d, r) := CpuStep(c, evs[0]);
      var (e, rs) := Events(d, evs[1..]);
      (e, [r] + rs)
  }

  ghost function FlatEvents(a: Flat, sid: SpaceId, evs: seq<Event>): (Flat, seq<Result>)
    decreases |evs|
  {
    if evs == [] then (a, [])
    else
      var (b, r) := FlatEvent(a, sid, evs[0]);
      var (c, rs) := FlatEvents(b, sid, evs[1..]);
      (c, [r] + rs)
  }

  /** The TLB and the page table together are a flat byte memory, over every run of the CPU. */
  lemma {:induction false} EventsRefine(c: Cpu, evs: seq<Event>)
    requires CpuInv(c) && EventsOk(c, evs)
    ensures var (d, rs) := Events(c, evs);
            CpuInv(d) && FlatEvents(Abs(c.memory), c.sid, evs) == (Abs(d.memory), rs)
    decreases |evs|
  {
    if evs != [] {
      assert Runnable(c);
      EventRefined(c, evs[0]);
      hide Inv, Coherent, EventOk, FlatEvent, CpuStep, View;
      EventsRefine(CpuStep(c, evs[0]).0, evs[1..]);
    }
  }

  /** A write hit happens only on a writable page that is not copy-on-write, and every hit is the pointer of mem_ptr. */
  lemma HitsAreSafe(c: Cpu, addr: nat, write: bool, id: BlockId)
    requires CpuInv(c) && addr < ADDR_SPACE && Hit(c.entries[TlbIndex(addr)], addr, write)
    ensures Pointer(c.memory, c.sid, addr, write, id) == Some(Rebase(c.entries[TlbIndex(addr)].dataMinusAddr, addr))
    ensures var k := Slot(c.sid, addr / PAGE_SIZE);
            write ==> k in c.memory.entries && c.memory.entries[k].flags.write && !c.memory.entries[k].flags.cow
  {
    PageFacts(addr);
    assert EntryFits(c.memory, c.sid, TlbIndex(addr), c.entries[TlbIndex(addr)]);
    HitIsRight(c.memory, c.sid, c.entries, addr, write, id);
  }

  /** Reads return the last bytes written, also across a page boundary and around the end of the address space. */
  lemma ReadBack(a: map<Slot, Page>, sid: SpaceId, addr: nat, vs: seq<byte>)
    requires addr < ADDR_SPACE && 1 <= |vs| <= PAGE_SIZE && FlatWritable(a, sid, addr, |vs|)
    ensures FlatRead(FlatWrite(a, sid, addr, vs), sid, addr, |vs|) == Some(vs)
  {
    var b := FlatWrite(a, sid, addr, vs);
    forall i | 0 <= i < |vs|
      ensures ReadPage(b, sid, At(addr, i)) == Some(vs[i])
    {
      var x := At(addr, i);
      assert Writable(a, sid, x);
      assert x == x / PAGE_SIZE * PAGE_SIZE + x % PAGE_SIZE;
      assert Distance(x / PAGE_SIZE, x % PAGE_SIZE, addr) == i;
    }
    assert FlatRead(b, sid, addr, |vs|).value == vs;
  }

  /** The 32-bit counter misses exactly the runs of a multiple of 2^32 changes. */
  lemma PollMisses(c: Cpu)
    requires c.sid in c.memory.changes && c.seen == c.polled % COUNTER && c.polled <= c.memory.changes[c.sid]
    ensures Poll(c) == c <==> (c.memory.changes[c.sid] - c.polled) % COUNTER == 0
  {
  }

  // n times munmap of one page.
  function Unmaps(sid: SpaceId, page: nat, n: nat): seq<Op> { seq(n, _ => UnmapOp(sid, page, 1, true)) }

  lemma UnmapStep(s: Memory, sid: SpaceId, page: nat)
    requires sid in s.changes
    ensures var t := Step(s, UnmapOp(sid, page, 1, true)).0;
            t.changes == s.changes[sid := s.changes[sid] + 1] && Slot(sid, page) !in t.entries
  {
    assert UnmapLoop(s, sid, page, 0) == s;
    assert UnmapLoop(s, sid, page, 1) == DropEntry(s, Slot(sid, page));
    hide UnmapLoop;
  }

  lemma {:induction false} UnmapMany(s: Memory, sid: SpaceId, page: nat, n: nat)
    requires sid in s.changes && page < MEM_PAGES
    ensures var t := Run(s, Unmaps(sid, page, n)).0;
            && EnabledRun(s, Unmaps(sid, page, n))
            && sid in t.changes && t.changes[sid] == s.changes[sid] + n && (n > 0 ==> Slot(sid, page) !in t.entries)
    decreases n
  {
    if n > 0 {
      var ops := Unmaps(sid, page, n);
      UnmapStep(s, sid, page);
      hide Step;
      assert ops[1..] == Unmaps(sid, page, n - 1);
      assert Enabled(s, ops[0]);
      UnmapMany(Step(s, ops[0]).0, sid, page, n - 1);
      if n == 1 { assert Unmaps(sid, page, 0) == []; }
    }
  }

  /** The input: a page is read, so that the TLB has it, and then unmapped 2^32 times before the next poll. The poll sees no
      change, and a read of the page, which is gone, still hits. */
  lemma StaleHit(c: Cpu, addr: nat, id: BlockId)
    requires CpuInv(c) && c.polled == c.memory.changes[c.sid] && addr < ADDR_SPACE && Slot(c.sid, addr / PAGE_SIZE) in c.memory.entries
    ensures var (s, entries, p) := Lookup(c.memory, c.sid, c.entries, addr, false, id);
            var ops := Unmaps(c.sid, addr / PAGE_SIZE, COUNTER);
            && EnabledRun(s, ops) && c.sid in Run(s, ops).0.changes
            && var d := Poll(c.(memory := Run(s, ops).0, entries := entries));
            Hit(d.entries[TlbIndex(addr)], addr, false) && Slot(d.sid, addr / PAGE_SIZE) !in d.memory.entries
  {
    hide Inv, EnabledRun, Run, Pointer;
    assert Touch(c.memory, c.sid, addr / PAGE_SIZE, false, id) == c.memory;
    ReadFills(c, addr, id);
    UnmapMany(c.memory, c.sid, addr / PAGE_SIZE, COUNTER);
    hide Unmaps, Touch, Lookup;
  }

  lemma ReadFills(c: Cpu, addr: nat, id: BlockId)
    requires |c.entries| == TLB_SIZE && addr < ADDR_SPACE && Slot(c.sid, addr / PAGE_SIZE) in c.memory.entries
    ensures var (s, entries, p) := Lookup(c.memory, c.sid, c.entries, addr, false, id);
            s == c.memory && |entries| == TLB_SIZE && Hit(entries[TlbIndex(addr)], addr, false)
  {
    hide TlbIndex;
    assert Touch(c.memory, c.sid, addr / PAGE_SIZE, false, id) == c.memory;
  }
}
