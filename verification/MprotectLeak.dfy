/** What becomes of memory when pt_set_flags takes P_COW off a shared page. */
module MprotectLeak {
  import opened Bytes
  import opened GuestMemory
  import opened ForkIsolation
  import opened Mprotect

  /** What goes wrong: once P_COW is gone from a shared, writable page, a write by one process changes the other's memory. */
  lemma SetFlagsLeak(s: Memory, k: Slot, l: Slot, flags: Flags, i: nat, v: byte)
    requires Inv(s) && k in s.entries && l in s.entries && k != l && SamePage(s.entries[k], s.entries[l])
    requires flags.write && !flags.cow && i < PAGE_SIZE
    ensures var t := PtSetFlags(s, k.space, k.page, 1, flags).0;
            && k in t.entries && PtrOk(t.blocks, HostPtr(t.entries[k].data, t.entries[k].offset + i), 1)
            && var u := Store(t, HostPtr(t.entries[k].data, t.entries[k].offset + i), [v]);
            && l in u.entries && EntryOk(u.blocks, u.entries[l]) && PageBytes(u.blocks, u.entries[l])[i] == v
  {
    hide PtSetFlags, Counted, SharedIsCow, Splice;
    SetsOne(s, k, flags);
    ViewAt(s, k);
    ViewAt(s, l);
    hide EntriesOk;
    var t := PtSetFlags(s, k.space, k.page, 1, flags).0;
    StoreHere(t, t.entries[k], i, [v]);
    SplicedAt(PageBytes(t.blocks, t.entries[k]), i, v);
  }

  lemma SplicedAt(s: seq<byte>, i: nat, v: byte)
    requires i < |s|
    ensures Splice(s, i, [v])[i] == v
  {
  }

  // Two spaces after a fork, one page each, backed by the same block.
  function Forked(): Memory {
    var e := PtEntry(0, 0, Flags(true, true, false, false, true, false, true));
    Memory(map[Slot(0, 5) := e, Slot(1, 5) := e], map[0 := 1, 1 := 1], map[0 := Block(Zeros(PAGE_SIZE), 2)])
  }

  lemma ForkedInv()
    ensures Inv(Forked())
  {
    assert Users(Forked(), 0) == {Slot(0, 5), Slot(1, 5)};
  }

  /** A concrete run: after a fork, mprotect in space 0 and a write of 7 there, space 1 reads 7 where it had 0. */
  lemma SetFlagsCounterexample()
    ensures Inv(Forked())
    ensures var s := Forked();
            var t := PtSetFlags(s, 0, 5, 1, Flags(true, true, false, false, false, false, false)).0;
            && ReadByte(s, 1, 5 * PAGE_SIZE, 9).1 == Some(0)
            && ReadByte(WriteByte(t, 0, 5 * PAGE_SIZE, 7, 9).0, 1, 5 * PAGE_SIZE, 9).1 == Some(7)
  {
    ForkedInv();
    var s := Forked();
    hide PtSetFlags, Touch, Pointer, Splice;
    var flags := Flags(true, true, false, false, false, false, false);
    SetsOne(s, Slot(0, 5), flags);
    var t := PtSetFlags(s, 0, 5, 1, flags).0;
    Points(s, Slot(1, 5), 0, false, 9);
    Points(t, Slot(0, 5), 0, true, 9);
    Points(WriteByte(t, 0, 5 * PAGE_SIZE, 7, 9).0, Slot(1, 5), 0, false, 9);
  }
}
