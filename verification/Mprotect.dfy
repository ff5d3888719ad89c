/** pt_set_flags, and exactly when it breaks the isolation that copy-on-write gives. */
module Mprotect {
  import opened Bytes
  import opened GuestMemory

  const ENOMEM: int := -12

  function SetOne(s: Memory, k: Slot, flags: Flags): Memory {
    if k in s.entries then s.(entries := s.entries[k := s.entries[k].(flags := flags)]) else s
  }

  function SetLoop(s: Memory, sid: SpaceId, start: nat, n: nat, flags: Flags): Memory {
    if n == 0 then s else SetOne(SetLoop(s, sid, start, n - 1, flags), Slot(sid, start + n - 1), flags)
  }

  /** pt_set_flags: it overwrites every flag of the range, P_COW included. */
  function PtSetFlags(s: Memory, sid: SpaceId, start: nat, pages: nat, flags: Flags): (Memory, int) {
    if !AllMapped(s.entries.Keys, sid, start, pages) then (s, ENOMEM)
    else (Bump(SetLoop(s, sid, start, pages, flags), sid), 0)
  }

  lemma {:induction false} SetLoopEntries(s: Memory, sid: SpaceId, start: nat, n: nat, flags: Flags)
    ensures var t := SetLoop(s, sid, start, n, flags);
            && t.blocks == s.blocks && t.changes == s.changes
            && t.entries == map k <- s.entries :: if k in Range(sid, start, n) then s.entries[k].(flags := flags) else s.entries[k]
  {
    if n != 0 { SetLoopEntries(s, sid, start, n - 1, flags); }
  }

  lemma SetsOne(s: Memory, k: Slot, flags: Flags)
    requires k in s.entries
    ensures var t := PtSetFlags(s, k.space, k.page, 1, flags).0;
            t == Bump(s, k.space).(entries := s.entries[k := s.entries[k].(flags := flags)])
  {
    assert Range(k.space, k.page, 1) == {k};
    assert AllMapped(s.entries.Keys, k.space, k.page, 1);
    SetLoopEntries(s, k.space, k.page, 1, flags);
    hide SetLoop;
  }

  lemma SetFlagsKeepsRest(s: Memory, sid: SpaceId, start: nat, pages: nat, flags: Flags)
    requires Inv(s)
    ensures EntriesOk(PtSetFlags(s, sid, start, pages, flags).0) && Counted(PtSetFlags(s, sid, start, pages, flags).0)
  {
    hide SetLoop, SharedIsCow, AllMapped;
    SetLoopEntries(s, sid, start, pages, flags);
    var t := PtSetFlags(s, sid, start, pages, flags).0;
    assert EntriesOk(t) by {
      forall k <- t.entries ensures EntryOk(t.blocks, t.entries[k]) { assert EntryOk(s.blocks, s.entries[k]); }
    }
    hide EntriesOk;
    forall b <- t.blocks ensures t.blocks[b].refcount == |Users(t, b)| {
      assert Users(t, b) == Users(s, b);
    }
  }

  // Some page of the range shares its backing page with another entry of any space.
  ghost predicate RangeShared(s: Memory, sid: SpaceId, start: nat, pages: nat) {
    exists k, l :: k in s.entries && l in s.entries && k in Range(sid, start, pages) && k != l && SamePage(s.entries[k], s.entries[l])
  }

  // Without P_COW on a shared page the invariant is broken.
  lemma SharedBreaks(s: Memory, sid: SpaceId, start: nat, pages: nat, flags: Flags)
    requires Inv(s) && AllMapped(s.entries.Keys, sid, start, pages) && !flags.cow && RangeShared(s, sid, start, pages)
    ensures !SharedIsCow(PtSetFlags(s, sid, start, pages, flags).0)
  {
    SetLoopEntries(s, sid, start, pages, flags);
    var t := PtSetFlags(s, sid, start, pages, flags).0;
    hide SetLoop, EntriesOk, Counted, AllMapped;
    var k, l :| k in s.entries && l in s.entries && k in Range(sid, start, pages) && k != l && SamePage(s.entries[k], s.entries[l]);
    assert SamePage(t.entries[k], t.entries[l]) && !t.entries[k].flags.cow;
  }

  lemma UnsharedKeeps(s: Memory, sid: SpaceId, start: nat, pages: nat, flags: Flags)
    requires Inv(s) && (flags.cow || !RangeShared(s, sid, start, pages))
    ensures SharedIsCow(PtSetFlags(s, sid, start, pages, flags).0)
  {
    SetLoopEntries(s, sid, start, pages, flags);
    var t := PtSetFlags(s, sid, start, pages, flags).0;
    hide SetLoop, EntriesOk, Counted, AllMapped;
    forall k, l | k in t.entries && l in t.entries && k != l && SamePage(t.entries[k], t.entries[l])
      ensures t.entries[k].flags.cow
    {
      assert SamePage(s.entries[k], s.entries[l]);
    }
  }

  /** pt_set_flags keeps the copy-on-write invariant exactly when it fails, or its new flags have P_COW,
      or no page of the range is shared. sys_mprotect never passes P_COW. */
  lemma SetFlagsSafeIff(s: Memory, sid: SpaceId, start: nat, pages: nat, flags: Flags)
    requires Inv(s)
    ensures Inv(PtSetFlags(s, sid, start, pages, flags).0)
            <==> !AllMapped(s.entries.Keys, sid, start, pages) || flags.cow || !RangeShared(s, sid, start, pages)
  {
    hide SetLoop, EntriesOk, Counted, SharedIsCow, AllMapped, RangeShared;
    SetFlagsKeepsRest(s, sid, start, pages, flags);
    if AllMapped(s.entries.Keys, sid, start, pages) {
      if !flags.cow && RangeShared(s, sid, start, pages) {
        SharedBreaks(s, sid, start, pages, flags);
      } else {
        UnsharedKeeps(s, sid, start, pages, flags);
      }
    }
  }

  // The flags seen change, in the range and nowhere else.
  ghost function SetPages(a: map<Slot, Page>, sid: SpaceId, start: nat, pages: nat, flags: Flags): map<Slot, Page> {
    map k <- a :: if k in Range(sid, start, pages) then a[k].(flags := Visible(flags)) else a[k]
  }

  // The guard under which the operation is safe.
  ghost predicate SetFlagsSafe(s: Memory, sid: SpaceId, start: nat, pages: nat, flags: Flags) {
    !AllMapped(s.entries.Keys, sid, start, pages) || flags.cow || !RangeShared(s, sid, start, pages)
  }

  /** pt_set_flags changes the flags processes see and none of their bytes. */
  lemma SetFlagsView(s: Memory, sid: SpaceId, start: nat, pages: nat, flags: Flags)
    requires Inv(s) && SetFlagsSafe(s, sid, start, pages, flags)
    ensures var (t, err) := PtSetFlags(s, sid, start, pages, flags);
            && Inv(t) && t.changes.Keys == s.changes.Keys && t.blocks == s.blocks
            && err == (if AllMapped(View(s).Keys, sid, start, pages) then 0 else ENOMEM)
            && View(t) == if err == 0 then SetPages(View(s), sid, start, pages, flags) else View(s)
  {
    hide Counted, SharedIsCow, EntriesOk, View, AllMapped, RangeShared, SetLoop, SetPages;
    SetFlagsSafeIff(s, sid, start, pages, flags);
    ViewKeys(s);
    SetLoopEntries(s, sid, start, pages, flags);
    var t := PtSetFlags(s, sid, start, pages, flags).0;
    if AllMapped(s.entries.Keys, sid, start, pages) {
      FlagsSeen(s, t, sid, start, pages, flags);
    }
  }

  lemma FlagsSeen(s: Memory, t: Memory, sid: SpaceId, start: nat, pages: nat, flags: Flags)
    requires EntriesOk(s) && EntriesOk(t) && t.blocks == s.blocks && t.entries.Keys == s.entries.Keys
    requires forall k <- s.entries ::
               t.entries[k] == if k in Range(sid, start, pages) then s.entries[k].(flags := flags) else s.entries[k]
    ensures View(t) == SetPages(View(s), sid, start, pages, flags)
  {
    hide EntriesOk, View, Visible;
    ViewKeys(s);
    ViewKeys(t);
    forall k <- s.entries ensures View(t)[k] == if k in Range(sid, start, pages) then View(s)[k].(flags := Visible(flags)) else View(s)[k] {
      ViewAt(s, k);
      ViewAt(t, k);
      hide Range;
    }
  }
}
