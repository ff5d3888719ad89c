/** Blocks and the host memory behind them. GuestMemory takes a block for a struct data together with host memory of its
    own. Here the struct data is named by the address malloc gave it and names a region of host memory, which two of them
    may share: exec maps the same static vdso into every process. */
module HostRegions {
  import opened Bytes
  import opened GuestMemory
  import opened ForkIsolation
  import opened Mprotect

  type Region = nat                  // the host address of a mapping
  datatype Data = Data(region: Region, refcount: nat)

  datatype World = World(entries: map<Slot, PtEntry>, changes: map<SpaceId, nat>, datas: map<BlockId, Data>,
                         regions: map<Region, seq<byte>>)

  // Where the memory handed to pt_map comes from: mmap just placed it there, or it was there all along.
  datatype Source = Mapped(region: Region) | Static(region: Region)

  /** The memory with each block's bytes put into the block. */
  function Inlined(w: World): Memory {
    Memory(w.entries, w.changes,
           map b | b in w.datas && w.datas[b].region in w.regions :: Block(w.regions[w.datas[b].region], w.datas[b].refcount))
  }

  // Every live struct data has its host memory.
  predicate Backed(w: World) { forall b <- w.datas :: w.datas[b].region in w.regions }

  predicate Alone(w: World, b: BlockId)
    requires b in w.datas
  {
    forall c <- w.datas | c != b :: w.datas[c].region != w.datas[b].region
  }

  // No two live struct datas name one region.
  ghost predicate Distinct(w: World) { forall b <- w.datas :: Alone(w, b) }

  predicate Used(w: World, r: Region) { exists b <- w.datas :: w.datas[b].region == r }

  // ----------------------------------------------------- one operation

  // The struct data an operation may allocate, and the one it may store through.
  function NewIds(op: Op): set<BlockId> {
    match op
    case MapOp(_, _, _, _, _, id) => {id}
    case ReadOp(_, _, id) => {id}
    case WriteOp(_, _, _, id) => {id}
    case _ => {}
  }

  function Target(s: Memory, op: Op): Option<BlockId> {
    if op.WriteOp? && Pointer(s, op.sid, op.addr, true, op.id).Some?
    then Some(Pointer(s, op.sid, op.addr, true, op.id).value.block) else None
  }

  function RegionOf(w: World, b: BlockId, src: Source): Region { if b in w.datas then w.datas[b].region else src.region }

  // munmap of memory that is not page aligned fails and is not looked at again.
  predicate Unmappable(r: Region) { r % PAGE_SIZE == 0 }

  // The regions of the struct datas that are gone, as far as munmap takes them.
  function Unmapped(w: World, m: Memory): set<Region> {
    set b | b in w.datas && b !in m.blocks && Unmappable(w.datas[b].region) :: w.datas[b].region
  }

  // The regions with the bytes that were placed or stored.
  function RegionsStored(w: World, m: Memory, op: Op, src: Source): map<Region, seq<byte>> {
    var target := Target(Inlined(w), op);
    var placed := if src.Mapped? && NewIds(op) != {} && op.id in m.blocks && op.id !in w.datas
                  then w.regions[src.region := m.blocks[op.id].bytes] else w.regions;
    if target.Some? && target.value in m.blocks then placed[RegionOf(w, target.value, src) := m.blocks[target.value].bytes] else placed
  }

  function RegionsAfter(w: World, m: Memory, op: Op, src: Source): map<Region, seq<byte>> {
    RegionsStored(w, m, op, src) - Unmapped(w, m)
  }

  /** An operation on struct datas and regions: entries, counters and reference counts change as they do anyway; a store
      goes to the region, whoever else names it, and the last reference unmaps the region, whoever else names it. */
  function RegionStep(w: World, op: Op, src: Source): World {
    var m := Step(Inlined(w), op).0;
    World(m.entries, m.changes, map b | b in m.blocks :: Data(RegionOf(w, b, src), m.blocks[b].refcount), RegionsAfter(w, m, op, src))
  }

  // mmap returns memory not in use; static memory is there, with the bytes that are mapped.
  predicate SourceOk(w: World, op: Op, src: Source) {
    match src
    case Mapped(r) => r !in w.regions
    case Static(r) => op.MapOp? && r in w.regions && w.regions[r] == op.bytes
  }

  // -------------------------------------------- which bytes a step changes

  // Blocks outside ids were there before, with the same bytes.
  ghost predicate KeptBut(s: Memory, t: Memory, ids: set<BlockId>) {
    forall b <- t.blocks | b !in ids :: b in s.blocks && t.blocks[b].bytes == s.blocks[b].bytes
  }

  lemma KeptThen(s: Memory, t: Memory, u: Memory, ids: set<BlockId>)
    requires KeptBut(s, t, ids) && KeptBut(t, u, ids)
    ensures KeptBut(s, u, ids)
  {
  }

  lemma {:induction false} UnmapKept(s: Memory, sid: SpaceId, start: nat, n: nat)
    ensures KeptBut(s, UnmapLoop(s, sid, start, n), {})
  {
    if n != 0 { UnmapKept(s, sid, start, n - 1); }
  }

  lemma PlaceKept(s: Memory, k: Slot, b: BlockId, i: nat, flags: Flags)
    ensures KeptBut(s, Place(s, k, b, i, flags), {})
  {
  }

  lemma {:induction false} MapKept(s: Memory, sid: SpaceId, start: nat, n: nat, b: BlockId, flags: Flags)
    ensures KeptBut(s, MapLoop(s, sid, start, n, b, flags), {})
  {
    if n != 0 {
      MapKept(s, sid, start, n - 1, b, flags);
      PlaceKept(MapLoop(s, sid, start, n - 1, b, flags), Slot(sid, start + n - 1), b, n - 1, flags);
      hide Place, KeptBut;
      KeptThen(s, MapLoop(s, sid, start, n - 1, b, flags), MapLoop(s, sid, start, n, b, flags), {});
    }
  }

  lemma PtMapKept(s: Memory, sid: SpaceId, start: nat, n: nat, b: BlockId, bytes: seq<byte>, flags: Flags)
    ensures var t := PtMap(s, sid, start, n, b, bytes, flags);
            KeptBut(s, t, {b}) && (b in t.blocks ==> t.blocks[b].bytes == bytes)
  {
    MapKept(NewBlock(s, b, bytes), sid, start, n, b, flags);
  }

  lemma ShareKept(s: Memory, from: Slot, to: Slot)
    ensures KeptBut(s, ShareOne(s, from, to), {})
  {
  }

  lemma {:induction false} ShareLoopKept(s: Memory, src: SpaceId, srcStart: nat, dst: SpaceId, dstStart: nat, n: nat)
    ensures KeptBut(s, ShareLoop(s, src, srcStart, dst, dstStart, n), {})
  {
    if n != 0 {
      ShareLoopKept(s, src, srcStart, dst, dstStart, n - 1);
      var t := ShareLoop(s, src, srcStart, dst, dstStart, n - 1);
      ShareKept(t, Slot(src, srcStart + n - 1), Slot(dst, dstStart + n - 1));
      hide ShareOne, KeptBut;
      KeptThen(s, t, ShareLoop(s, src, srcStart, dst, dstStart, n), {});
    }
  }

  lemma TouchKept(s: Memory, sid: SpaceId, page: nat, write: bool, id: BlockId)
    ensures KeptBut(s, Touch(s, sid, page, write, id), {id})
  {
    PtMapKept(s, sid, page, 1, id, Zeros(PAGE_SIZE), STACK_FLAGS);
    var t := Grow(s, sid, page, id);
    var k := Slot(sid, page);
    if k in t.entries && t.entries[k].flags.cow && EntryOk(t.blocks, t.entries[k]) {
      PtMapKept(t, sid, page, 1, id, PageBytes(t.blocks, t.entries[k]), t.entries[k].flags.(cow := false));
    }
    hide PtMap, PageBytes;
  }

  /** An operation changes the bytes of no block but the one it allocates and the one it stores through. */
  lemma StepKept(s: Memory, op: Op)
    ensures var target := Target(s, op);
            KeptBut(s, Step(s, op).0, NewIds(op) + if target.Some? then {target.value} else {})
    ensures Step(s, op).0.blocks.Keys <= s.blocks.Keys + NewIds(op)
    ensures op.MapOp? && op.id in Step(s, op).0.blocks ==> Step(s, op).0.blocks[op.id].bytes == op.bytes
  {
    match op {
      case NewOp(_) =>
      case DestroyOp(sid) => UnmapKept(s, sid, 0, MEM_PAGES);
      case MapOp(sid, start, pages, bytes, flags, id) => PtMapKept(s, sid, start, pages, id, bytes, flags);
      case UnmapOp(sid, start, pages, _) => UnmapKept(s, sid, start, pages);
      case SetFlagsOp(sid, start, pages, flags) => SetLoopEntries(s, sid, start, pages, flags);
      case CopyOp(src, srcStart, dst, dstStart, pages) => ShareLoopKept(s, src, srcStart, dst, dstStart, pages);
      case ReadOp(sid, addr, id) => TouchKept(s, sid, addr / PAGE_SIZE, false, id);
      case WriteOp(sid, addr, v, id) => TouchKept(s, sid, addr / PAGE_SIZE, true, id);
    }
    hide Touch, PtMap, UnmapLoop, ShareLoop, SetLoop, Pointer;
  }

  // --------------------------- regions can be thought of as inside blocks

  // Nobody else sees the store, and nobody else loses the memory that is unmapped.
  ghost predicate SharingOk(w: World, op: Op, src: Source) {
    var m, target := Step(Inlined(w), op).0, Target(Inlined(w), op);
    && (target.Some? && target.value in w.datas ==> Alone(w, target.value))
    && (forall b, c | b in w.datas && b !in m.blocks && Unmappable(w.datas[b].region) && c in m.blocks ::
          RegionOf(w, c, src) != w.datas[b].region)
  }

  // What a surviving block finds in its region, before others are unmapped.
  lemma OldHolds(w: World, m: Memory, op: Op, src: Source, b: BlockId)
    requires Backed(w) && SourceOk(w, op, src) && NewIds(op) !! w.datas.Keys && b in w.datas && b in m.blocks
    requires var target := Target(Inlined(w), op);
             && KeptBut(Inlined(w), m, NewIds(op) + if target.Some? then {target.value} else {})
             && m.blocks.Keys <= w.datas.Keys + NewIds(op)
             && (target.Some? && target.value in w.datas ==> Alone(w, target.value))
    ensures var r := w.datas[b].region;
            r in RegionsStored(w, m, op, src) && RegionsStored(w, m, op, src)[r] == m.blocks[b].bytes
  {
    var target := Target(Inlined(w), op);
    assert target.Some? ==> op.WriteOp?;
    hide Target;
    if target != Some(b) {
      assert m.blocks[b].bytes == Inlined(w).blocks[b].bytes == w.regions[w.datas[b].region];
    }
  }

  lemma NewHolds(w: World, m: Memory, op: Op, src: Source, b: BlockId)
    requires Backed(w) && SourceOk(w, op, src) && NewIds(op) !! w.datas.Keys && b in NewIds(op) && b in m.blocks
    requires m.blocks.Keys <= w.datas.Keys + NewIds(op) && (op.MapOp? ==> m.blocks[b].bytes == op.bytes)
    ensures var r := src.region;
            r in RegionsStored(w, m, op, src) && RegionsStored(w, m, op, src)[r] == m.blocks[b].bytes
  {
    assert Target(Inlined(w), op).Some? ==> op.WriteOp?;
    hide Target;
  }

  lemma RegionHolds(w: World, op: Op, src: Source, b: BlockId)
    requires Backed(w) && SourceOk(w, op, src) && SharingOk(w, op, src) && NewIds(op) !! w.datas.Keys
    requires var m := Step(Inlined(w), op).0; b in m.blocks
    ensures var m := Step(Inlined(w), op).0;
            var r := RegionOf(w, b, src);
            r in RegionsAfter(w, m, op, src) && RegionsAfter(w, m, op, src)[r] == m.blocks[b].bytes
  {
    StepKept(Inlined(w), op);
    hide Step, Target, Unmappable, RegionsStored, SourceOk, KeptBut, Backed;
    if b in w.datas {
      OldHolds(w, Step(Inlined(w), op).0, op, src, b);
    } else {
      NewHolds(w, Step(Inlined(w), op).0, op, src, b);
    }
  }

  lemma NewIdsNew(w: World, op: Op)
    requires Backed(w) && Enabled(Inlined(w), op)
    ensures NewIds(op) !! w.datas.Keys
  {
  }

  /** As long as nobody stores through, or unmaps, memory that another live struct data names, each block behaves as if its
      memory were its own; memory that is only read may be shared, as the vdso is by every process that called exec. */
  lemma StepInlines(w: World, op: Op, src: Source)
    requires Backed(w) && SourceOk(w, op, src) && SharingOk(w, op, src) && Enabled(Inlined(w), op)
    ensures var u := RegionStep(w, op, src); Inlined(u) == Step(Inlined(w), op).0 && Backed(u)
  {
    NewIdsNew(w, op);
    hide Step, Enabled, RegionsAfter, Inlined, SourceOk, SharingOk, Backed;
    var u, m := RegionStep(w, op, src), Step(Inlined(w), op).0;
    forall b <- m.blocks
      ensures u.datas[b].region in u.regions && u.regions[u.datas[b].region] == m.blocks[b].bytes
    {
      RegionHolds(w, op, src, b);
    }
    hide RegionStep;
    InlinedIs(u, m);
  }

  // Static memory is nobody else's.
  predicate Unused(w: World, src: Source) { src.Static? ==> !Used(w, src.region) }

  /** Regions of one's own are enough for that, and they stay so unless static memory is mapped twice. */
  lemma OwnRegions(w: World, op: Op, src: Source)
    requires Backed(w) && Distinct(w) && SourceOk(w, op, src) && Unused(w, src) && Enabled(Inlined(w), op)
    ensures SharingOk(w, op, src) && Distinct(RegionStep(w, op, src))
  {
    NewIdsNew(w, op);
    StepKept(Inlined(w), op);
    hide Step, Enabled, Target, Inlined, SourceOk, Distinct, Unmappable, Unused;
    var u, m := RegionStep(w, op, src), Step(Inlined(w), op).0;
    forall b, c | (b in m.blocks || b in w.datas) && c in m.blocks && c != b ensures RegionOf(w, b, src) != RegionOf(w, c, src) {
      RegionsApart(w, op, src, b, c);
    }
    forall b <- w.datas ensures Alone(w, b) { DistinctAt(w, b); }
    DistinctIs(u);
  }

  lemma DistinctAt(w: World, b: BlockId)
    requires Distinct(w) && b in w.datas
    ensures Alone(w, b)
  {
  }

  lemma RegionsApart(w: World, op: Op, src: Source, b: BlockId, c: BlockId)
    requires Backed(w) && Distinct(w) && SourceOk(w, op, src) && Unused(w, src) && NewIds(op) !! w.datas.Keys && b != c
    requires (b in w.datas || b in NewIds(op)) && (c in w.datas || c in NewIds(op))
    ensures RegionOf(w, b, src) != RegionOf(w, c, src)
  {
    if b in w.datas { assert Alone(w, b); }
    if c in w.datas { assert Alone(w, c); }
  }

  lemma InlinedIs(u: World, m: Memory)
    requires u.entries == m.entries && u.changes == m.changes && u.datas.Keys == m.blocks.Keys
    requires forall b <- m.blocks ::
               && u.datas[b].refcount == m.blocks[b].refcount
               && u.datas[b].region in u.regions && u.regions[u.datas[b].region] == m.blocks[b].bytes
    ensures Inlined(u) == m && Backed(u)
  {
    assert Inlined(u).blocks == m.blocks;
  }

  lemma DistinctIs(u: World)
    requires forall b, c | b in u.datas && c in u.datas && c != b :: u.datas[c].region != u.datas[b].region
    ensures Distinct(u)
  {
  }

  ghost predicate RunOk(w: World, ops: seq<(Op, Source)>)
    decreases |ops|
  {
    ops == [] || (var (op, src) := ops[0];
                  Enabled(Inlined(w), op) && SourceOk(w, op, src) && SharingOk(w, op, src) && RunOk(RegionStep(w, op, src), ops[1..]))
  }

  function RegionRun(w: World, ops: seq<(Op, Source)>): World
    decreases |ops|
  {
    if ops == [] then w else RegionRun(RegionStep(w, ops[0].0, ops[0].1), ops[1..])
  }

  function Ops(ops: seq<(Op, Source)>): seq<Op> { if ops == [] then [] else [ops[0].0] + Ops(ops[1..]) }

  /** Over such runs fork isolation and the accounting of blocks hold of struct datas and host memory as they are. */
  lemma {:induction false} RunInlines(w: World, ops: seq<(Op, Source)>)
    requires Inv(Inlined(w)) && Backed(w) && RunOk(w, ops)
    ensures var u := RegionRun(w, ops);
            && EnabledRun(Inlined(w), Ops(ops)) && Inlined(u) == Run(Inlined(w), Ops(ops)).0
            && Inv(Inlined(u)) && Backed(u)
    decreases |ops|
  {
    hide Inv, Backed, Enabled, SourceOk, SharingOk, Step, RegionStep, Inlined;
    if ops != [] {
      var u := RegionStep(w, ops[0].0, ops[0].1);
      StepInlines(w, ops[0].0, ops[0].1);
      StepKeepsInv(Inlined(w), ops[0].0);
      RunInlines(u, ops[1..]);
      assert ([ops[0].0] + Ops(ops[1..]))[1..] == Ops(ops[1..]);
    }
  }

  lemma StepKeepsInv(s: Memory, op: Op)
    requires Inv(s) && Enabled(s, op)
    ensures Inv(Step(s, op).0)
  {
    StepSimulated(s, op);
    hide Inv, Enabled, Step;
  }

  // ---------------------------------------------------- and are needed

  // A store of v at position i of the host memory of b.
  function StoreAt(w: World, b: BlockId, i: nat, v: byte): World
    requires b in w.datas && w.datas[b].region in w.regions && i < |w.regions[w.datas[b].region]|
  {
    w.(regions := w.regions[w.datas[b].region := Splice(w.regions[w.datas[b].region], i, [v])])
  }

  // The last reference to b goes.
  function Release(w: World, b: BlockId): World
    requires b in w.datas
  {
    w.(datas := w.datas - {b}, regions := if Unmappable(w.datas[b].region) then w.regions - {w.datas[b].region} else w.regions)
  }

  /** Stores through a block are not seen through any other if and only if no other live struct data has its region. */
  lemma StoreIsolatedIff(w: World, b: BlockId)
    requires Backed(w) && b in w.datas && w.regions[w.datas[b].region] != []
    ensures (forall i: nat, v: byte, c | i < |w.regions[w.datas[b].region]| && c in w.datas && c != b ::
               StoreAt(w, b, i, v).regions[w.datas[c].region] == w.regions[w.datas[c].region])
            <==> Alone(w, b)
  {
    var bytes := w.regions[w.datas[b].region];
    if !Alone(w, b) {
      var c :| c in w.datas && c != b && w.datas[c].region == w.datas[b].region;
      var v: byte := if bytes[0] == 0 then 1 else 0;
      assert StoreAt(w, b, 0, v).regions[w.datas[c].region][0] == v;
    }
  }

  /** Releasing a block leaves every other its memory if and only if munmap refuses or no other live struct data has the region. */
  lemma ReleaseSafeIff(w: World, b: BlockId)
    requires Backed(w) && b in w.datas
    ensures Backed(Release(w, b)) <==> !Unmappable(w.datas[b].region) || Alone(w, b)
  {
    var u := Release(w, b);
    if Unmappable(w.datas[b].region) && !Alone(w, b) {
      var c :| c in w.datas && c != b && w.datas[c].region == w.datas[b].region;
      assert c in u.datas && u.datas[c].region !in u.regions;
    }
  }

  // --------------------------------------------------------- two execs

  const VDSO: Region := 0x5000_7000
  const VDSO_PAGE: nat := 0xf7ffc
  const NO_FLAGS := Flags(false, false, false, false, false, false, false)
  const WRITABLE := Flags(true, true, false, false, false, false, false)

  function VdsoOp(sid: SpaceId, id: BlockId): Op { MapOp(sid, VDSO_PAGE, 2, Zeros(2 * PAGE_SIZE), NO_FLAGS, id) }

  function TwoPages(entries: map<Slot, PtEntry>, sid: SpaceId, id: BlockId): map<Slot, PtEntry> {
    entries[Slot(sid, VDSO_PAGE) := PtEntry(id, 0, NO_FLAGS)][Slot(sid, VDSO_PAGE + 1) := PtEntry(id, PAGE_SIZE, NO_FLAGS)]
  }

  // Two processes before either has mapped anything, and after both have mapped the vdso.
  function NoExec(): World { World(map[], map[0 := 0, 1 := 0], map[], map[VDSO := Zeros(2 * PAGE_SIZE)]) }
  function OneExec(): World { NoExec().(entries := TwoPages(map[], 0, 1), datas := map[1 := Data(VDSO, 2)]) }
  function TwoExecs(): World {
    NoExec().(entries := TwoPages(TwoPages(map[], 0, 1), 1, 2), datas := map[1 := Data(VDSO, 2), 2 := Data(VDSO, 2)])
  }

  lemma MapsTwoPages(s: Memory, sid: SpaceId, id: BlockId)
    requires id !in s.blocks && Slot(sid, VDSO_PAGE) !in s.entries && Slot(sid, VDSO_PAGE + 1) !in s.entries
    ensures Step(s, VdsoOp(sid, id)).0
            == s.(entries := TwoPages(s.entries, sid, id), blocks := s.blocks[id := Block(Zeros(2 * PAGE_SIZE), 2)])
  {
    var t := NewBlock(s, id, Zeros(2 * PAGE_SIZE));
    assert MapLoop(t, sid, VDSO_PAGE, 0, id, NO_FLAGS) == t;
    var u := MapLoop(t, sid, VDSO_PAGE, 1, id, NO_FLAGS);
    assert u == Place(t, Slot(sid, VDSO_PAGE), id, 0, NO_FLAGS);
    assert MapLoop(t, sid, VDSO_PAGE, 2, id, NO_FLAGS) == Place(u, Slot(sid, VDSO_PAGE + 1), id, 1, NO_FLAGS);
    assert s.blocks[id := Block(Zeros(2 * PAGE_SIZE), 0)][id := Block(Zeros(2 * PAGE_SIZE), 1)][id := Block(Zeros(2 * PAGE_SIZE), 2)]
        == s.blocks[id := Block(Zeros(2 * PAGE_SIZE), 2)];
  }

  lemma ExecMaps(w: World, sid: SpaceId, id: BlockId)
    requires Backed(w) && id !in w.datas && Slot(sid, VDSO_PAGE) !in w.entries && Slot(sid, VDSO_PAGE + 1) !in w.entries
    ensures RegionStep(w, VdsoOp(sid, id), Static(VDSO))
            == w.(entries := TwoPages(w.entries, sid, id), datas := w.datas[id := Data(VDSO, 2)])
  {
    hide Step, TwoPages, RegionsAfter;
    var op := VdsoOp(sid, id);
    MapsTwoPages(Inlined(w), sid, id);
    var m := Step(Inlined(w), op).0;
    RegionsSame(w, m, op, Static(VDSO));
    assert (map b | b in m.blocks :: Data(RegionOf(w, b, Static(VDSO)), m.blocks[b].refcount)) == w.datas[id := Data(VDSO, 2)];
  }

  lemma RegionsSame(w: World, m: Memory, op: Op, src: Source)
    requires !op.WriteOp? && (src.Mapped? ==> !op.MapOp? && !op.ReadOp?) && w.datas.Keys <= m.blocks.Keys
    ensures RegionsAfter(w, m, op, src) == w.regions
  {
    assert Unmapped(w, m) == {};
    assert w.regions - {} == w.regions;
  }

  /** The first exec maps the vdso and so does the second, which leaves two struct datas with the same memory. */
  lemma ExecTwice()
    ensures SourceOk(NoExec(), VdsoOp(0, 1), Static(VDSO)) && RegionStep(NoExec(), VdsoOp(0, 1), Static(VDSO)) == OneExec()
    ensures SourceOk(OneExec(), VdsoOp(1, 2), Static(VDSO)) && RegionStep(OneExec(), VdsoOp(1, 2), Static(VDSO)) == TwoExecs()
    ensures Backed(TwoExecs()) && !Unused(OneExec(), Static(VDSO)) && !Distinct(TwoExecs())
  {
    hide RegionStep;
    ExecMaps(NoExec(), 0, 1);
    ExecMaps(OneExec(), 1, 2);
    assert 1 in OneExec().datas && OneExec().datas[1].region == VDSO;
    assert 1 in TwoExecs().datas && 2 in TwoExecs().datas && !Alone(TwoExecs(), 1) by {
      assert TwoExecs().datas[2].region == VDSO && TwoExecs().datas[1].region == VDSO;
    }
  }

  /** Neither exec disturbs the other: as long as the vdso is only read, sharing it cannot be told from having one's own. */
  lemma ExecsShare()
    ensures SharingOk(NoExec(), VdsoOp(0, 1), Static(VDSO)) && SharingOk(OneExec(), VdsoOp(1, 2), Static(VDSO))
  {
    ExecShares(NoExec(), 0, 1);
    ExecShares(OneExec(), 1, 2);
  }

  lemma ExecShares(w: World, sid: SpaceId, id: BlockId)
    requires Backed(w) && id !in w.datas && Slot(sid, VDSO_PAGE) !in w.entries && Slot(sid, VDSO_PAGE + 1) !in w.entries
    ensures SharingOk(w, VdsoOp(sid, id), Static(VDSO))
  {
    hide Step, TwoPages;
    MapsTwoPages(Inlined(w), sid, id);
  }

  // Two entries of different struct datas with the same backing memory.
  predicate Twins(w: World, k: Slot, l: Slot) {
    && k in w.entries && l in w.entries && k != l
    && w.entries[k].data in w.datas && w.entries[l].data in w.datas && w.entries[k].data != w.entries[l].data
    && w.datas[w.entries[k].data].region == w.datas[w.entries[l].data].region && w.entries[k].offset == w.entries[l].offset
    && EntryOk(Inlined(w).blocks, w.entries[k])
  }

  // The world with the flags of k overwritten, and with byte v stored at position i of the region of k.
  function Protected(w: World, k: Slot, flags: Flags): World
    requires k in w.entries
  {
    w.(entries := w.entries[k := w.entries[k].(flags := flags)],
       changes := if k.space in w.changes then w.changes[k.space := w.changes[k.space] + 1] else w.changes)
  }

  function Stored(w: World, k: Slot, i: nat, v: byte): World
    requires k in w.entries && w.entries[k].data in w.datas && EntryOk(Inlined(w).blocks, w.entries[k]) && i < PAGE_SIZE
  {
    var r := w.datas[w.entries[k].data].region;
    w.(regions := w.regions[r := Splice(w.regions[r], w.entries[k].offset + i, [v])])
  }

  lemma InlinedFields(w: World)
    requires Backed(w)
    ensures var s := Inlined(w);
            && s.entries == w.entries && s.changes == w.changes && s.blocks.Keys == w.datas.Keys
            && forall b <- w.datas :: s.blocks[b] == Block(w.regions[w.datas[b].region], w.datas[b].refcount)
  {
  }

  lemma ProtectsPage(w: World, k: Slot, flags: Flags)
    requires Backed(w) && k in w.entries
    ensures RegionStep(w, SetFlagsOp(k.space, k.page, 1, flags), Mapped(0)) == Protected(w, k, flags)
  {
    hide PtSetFlags, RegionsAfter, Inlined, NewIds;
    var op := SetFlagsOp(k.space, k.page, 1, flags);
    var s := Inlined(w);
    InlinedFields(w);
    SetsOne(s, k, flags);
    var m := Step(s, op).0;
    assert m == PtSetFlags(s, k.space, k.page, 1, flags).0;
    hide Step;
    RegionsSame(w, m, op, Mapped(0));
    assert m.entries == Protected(w, k, flags).entries;
    assert (map b | b in m.blocks :: Data(RegionOf(w, b, Mapped(0)), m.blocks[b].refcount)) == w.datas;
  }

  lemma StoresByte(w: World, k: Slot, i: nat, v: byte, id: BlockId)
    requires Backed(w) && k in w.entries && w.entries[k].data in w.datas && EntryOk(Inlined(w).blocks, w.entries[k])
    requires i < PAGE_SIZE && w.entries[k].flags.write && !w.entries[k].flags.cow && id !in w.datas
    ensures RegionStep(w, WriteOp(k.space, k.page * PAGE_SIZE + i, v, id), Mapped(0)) == Stored(w, k, i, v)
  {
    hide Touch, Pointer, RegionsAfter, Splice;
    var op := WriteOp(k.space, k.page * PAGE_SIZE + i, v, id);
    var s, b := Inlined(w), w.entries[k].data;
    Points(s, k, i, true, id);
    var m := Step(s, op).0;
    assert m == Store(s, HostPtr(b, w.entries[k].offset + i), [v]);
    StoredRegions(w, m, op, b);
    hide Step;
    assert (map b | b in m.blocks :: Data(RegionOf(w, b, Mapped(0)), m.blocks[b].refcount)) == w.datas;
  }

  lemma StoredRegions(w: World, m: Memory, op: Op, b: BlockId)
    requires op.WriteOp? && Target(Inlined(w), op) == Some(b) && m.blocks.Keys == w.datas.Keys && b in w.datas && op.id !in w.datas
    ensures RegionsAfter(w, m, op, Mapped(0)) == w.regions[w.datas[b].region := m.blocks[b].bytes]
  {
    hide Target;
    assert Unmapped(w, m) == {};
  }

  /** What goes wrong when two struct datas name one region: no backing page is shared as pt_set_flags and mem_ptr see it, and
      yet, once the page is writable in one process, a store there is read in the other. */
  lemma TwinStoreSeen(w: World, k: Slot, l: Slot, flags: Flags, i: nat, v: byte, id: BlockId)
    requires Backed(w) && Twins(w, k, l) && flags.write && !flags.cow && i < PAGE_SIZE && id !in w.datas
    ensures !SamePage(w.entries[k], w.entries[l])
    ensures var u := RegionStep(w, SetFlagsOp(k.space, k.page, 1, flags), Mapped(0));
            var x := RegionStep(u, WriteOp(k.space, k.page * PAGE_SIZE + i, v, id), Mapped(0));
            ReadByte(Inlined(x), l.space, l.page * PAGE_SIZE + i, id).1 == Some(v)
  {
    hide RegionStep, Touch, Pointer;
    ProtectsPage(w, k, flags);
    var u := Protected(w, k, flags);
    StoresByte(u, k, i, v, id);
    var x := Stored(u, k, i, v);
    Points(Inlined(x), l, i, false, id);
  }

  lemma VdsoTwins()
    ensures Backed(TwoExecs()) && Twins(TwoExecs(), Slot(0, VDSO_PAGE), Slot(1, VDSO_PAGE))
    ensures SetFlagsSafe(Inlined(TwoExecs()), 0, VDSO_PAGE, 1, WRITABLE) && 9 !in TwoExecs().datas
  {
  }

  /** After two execs: mprotect of the vdso in one process meets the condition under which pt_set_flags is safe, and the other
      process reads the byte stored there. */
  lemma VdsoStoreSeen(v: byte)
    ensures SetFlagsSafe(Inlined(TwoExecs()), 0, VDSO_PAGE, 1, WRITABLE)
    ensures var u := RegionStep(TwoExecs(), SetFlagsOp(0, VDSO_PAGE, 1, WRITABLE), Mapped(0));
            var x := RegionStep(u, WriteOp(0, VDSO_PAGE * PAGE_SIZE, v, 9), Mapped(0));
            ReadByte(Inlined(x), 1, VDSO_PAGE * PAGE_SIZE, 9).1 == Some(v)
  {
    hide RegionStep, TwoExecs, SetFlagsSafe, Twins, Inlined, ReadByte, Backed;
    VdsoTwins();
    TwinStoreSeen(TwoExecs(), Slot(0, VDSO_PAGE), Slot(1, VDSO_PAGE), WRITABLE, 0, v, 9);
  }

  lemma DropsTwo(s: Memory, sid: SpaceId, page: nat)
    ensures UnmapLoop(s, sid, page, 2) == DropEntry(DropEntry(s, Slot(sid, page)), Slot(sid, page + 1))
  {
    hide DropEntry;
    assert UnmapLoop(s, sid, page, 0) == s;
    assert UnmapLoop(s, sid, page, 1) == DropEntry(s, Slot(sid, page));
  }

  // A block that two neighbouring pages and no others name goes with them.
  lemma DropsBlock(s: Memory, sid: SpaceId, page: nat, b: BlockId, c: BlockId)
    requires var k, l := Slot(sid, page), Slot(sid, page + 1);
             && k in s.entries && l in s.entries && s.entries[k].data == b && s.entries[l].data == b
             && b in s.blocks && s.blocks[b].refcount == 2 && c in s.blocks && c != b
    ensures var m := Step(s, UnmapOp(sid, page, 2, true)).0; b !in m.blocks && c in m.blocks
  {
    hide UnmapLoop;
    DropsTwo(s, sid, page);
  }

  lemma VdsoDropped()
    ensures var m := Step(Inlined(TwoExecs()), UnmapOp(0, VDSO_PAGE, 2, true)).0; 1 !in m.blocks && 2 in m.blocks
  {
    VdsoTwins();
    hide Step, Inlined, Zeros;
    InlinedFields(TwoExecs());
    DropsBlock(Inlined(TwoExecs()), 0, VDSO_PAGE, 1, 2);
  }

  // The last reference to b takes the region from c.
  lemma GoneUnmaps(w: World, op: Op, src: Source, b: BlockId, c: BlockId)
    requires Backed(w) && b in w.datas && c in w.datas && w.datas[b].region == w.datas[c].region && Unmappable(w.datas[b].region)
    requires b !in Step(Inlined(w), op).0.blocks && c in Step(Inlined(w), op).0.blocks
    ensures !Backed(RegionStep(w, op, src))
  {
    hide Step, Target;
    assert w.datas[b].region in Unmapped(w, Step(Inlined(w), op).0);
    assert c in RegionStep(w, op, src).datas;
  }

  /** And if the vdso is page aligned, the end of one process takes it from the other. */
  lemma VdsoUnmapped()
    ensures !Backed(RegionStep(TwoExecs(), UnmapOp(0, VDSO_PAGE, 2, true), Mapped(0)))
  {
    hide Step, RegionStep;
    VdsoDropped();
    GoneUnmaps(TwoExecs(), UnmapOp(0, VDSO_PAGE, 2, true), Mapped(0), 1, 2);
  }
}
