/** Ranges of pages as emu/memory.c takes them: start and number of pages, not checked against the size of the table.
    None stands for an index past the end of pgdir, where the source has no defined result. */
module PageRanges {
  import opened Bytes
  import opened GuestMemory
  import Mprotect

  predicate InTable(start: nat, pages: nat) { pages == 0 || start + pages <= MEM_PAGES }

  // How many pages of the range are in the table.
  function Inside(start: nat, pages: nat): nat {
    if start >= MEM_PAGES then 0 else if start + pages <= MEM_PAGES then pages else MEM_PAGES - start
  }

  predicate AllFree(mapped: set<Slot>, sid: SpaceId, start: nat, pages: nat) {
    forall p :: start <= p < start + pages ==> Slot(sid, p) !in mapped
  }

  function IsHole(s: Memory, sid: SpaceId, start: nat, pages: nat): Option<bool> {
    if !AllFree(s.entries.Keys, sid, start, Inside(start, pages)) then Some(false)
    else if InTable(start, pages) then Some(true) else None
  }

  function Unmap(s: Memory, sid: SpaceId, start: nat, pages: nat, force: bool): (Memory, Option<int>) {
    if !force && !AllMapped(s.entries.Keys, sid, start, Inside(start, pages)) then (s, Some(-1))
    else if InTable(start, pages) then (GuestMemory.PtUnmap(s, sid, start, pages, true).0, Some(0))
    else if force then (UnmapLoop(s, sid, start, Inside(start, pages)), None)
    else (s, None)
  }

  function Map(s: Memory, sid: SpaceId, start: nat, pages: nat, b: BlockId, bytes: seq<byte>, flags: Flags): (Memory, Option<int>) {
    (MapLoop(NewBlock(s, b, bytes), sid, start, Inside(start, pages), b, flags), if InTable(start, pages) then Some(0) else None)
  }

  const EINVAL: int := -22

  // The size passed to mmap is 32 bits wide, so a whole address space of pages makes it zero and mmap fails.
  function MapNothing(s: Memory, sid: SpaceId, start: nat, pages: nat, b: BlockId, flags: Flags): (Memory, Option<int>) {
    if pages == 0 then (s, Some(0))
    else if pages == MEM_PAGES then (s, Some(EINVAL))
    else Map(s, sid, start, pages, b, Zeros(pages * PAGE_SIZE), flags.(anon := true))
  }

  function SetFlags(s: Memory, sid: SpaceId, start: nat, pages: nat, flags: Flags): (Memory, Option<int>) {
    if !AllMapped(s.entries.Keys, sid, start, Inside(start, pages)) then (s, Some(Mprotect.ENOMEM))
    else if InTable(start, pages) then (Mprotect.PtSetFlags(s, sid, start, pages, flags).0, Some(0))
    else (s, None)
  }

  /** A range is a hole if every page of it is in the table and unmapped, no hole if some page in the table is mapped, and neither if it
      is unmapped up to the end of the table and goes on. */
  lemma HoleMeans(s: Memory, sid: SpaceId, start: nat, pages: nat)
    ensures IsHole(s, sid, start, pages) == Some(true) <==>
              (pages == 0 || start + pages <= 0x10_0000) && forall p: nat | start <= p < start + pages :: Slot(sid, p) !in s.entries
    ensures IsHole(s, sid, start, pages) == Some(false) <==>
              exists p: nat | start <= p < start + pages :: p < 0x10_0000 && Slot(sid, p) in s.entries
  {
  }

  /** On a range inside the table these are the operations that processes are proved isolated under. */
  lemma UnmapInside(s: Memory, sid: SpaceId, start: nat, pages: nat, force: bool)
    requires InTable(start, pages)
    ensures var (t, err) := PtUnmap(s, sid, start, pages, force); Unmap(s, sid, start, pages, force) == (t, Some(err))
  {
  }

  lemma MapInside(s: Memory, sid: SpaceId, start: nat, pages: nat, b: BlockId, bytes: seq<byte>, flags: Flags)
    requires InTable(start, pages)
    ensures Map(s, sid, start, pages, b, bytes, flags) == (PtMap(s, sid, start, pages, b, bytes, flags), Some(0))
  {
  }

  lemma SetFlagsInside(s: Memory, sid: SpaceId, start: nat, pages: nat, flags: Flags)
    requires InTable(start, pages)
    ensures var (t, err) := Mprotect.PtSetFlags(s, sid, start, pages, flags); SetFlags(s, sid, start, pages, flags) == (t, Some(err))
  {
  }
}
