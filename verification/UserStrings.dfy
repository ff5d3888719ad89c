/** The string copies of kernel/user.c. */
module UserStrings {
  import opened Bytes
  import opened GuestMemory
  import opened ForkIsolation
  import opened HostMemory
  import opened UserCopy

  // A C string's characters, without its terminator.
  predicate NulFree(s: seq<byte>) { forall i | 0 <= i < |s| :: s[i] != 0 }

  /** Reading characters up to a NUL, or max of them: what grew, and the characters if all were mapped. */
  ghost function ReadString(a: map<Slot, Page>, sid: SpaceId, addr: nat, max: nat): (map<Slot, Page>, Option<seq<byte>>)
    decreases max
  {
    if max == 0 then (a, Some([]))
    else
      var b := GrowPages(a, sid, addr / PAGE_SIZE);
      var v := ReadPage(b, sid, addr);
      if v.None? then (b, None)
      else if v.value == 0 then (b, Some([]))
      else Prepend([v.value], ReadString(b, sid, At(addr, 1), max - 1))
  }

  lemma ReadStringStep(a: map<Slot, Page>, sid: SpaceId, addr: nat, max: nat)
    ensures ReadString(a, sid, addr, max) ==
      if max == 0 then (a, Some([]))
      else
        var b := GrowPages(a, sid, addr / PAGE_SIZE);
        var v := ReadPage(b, sid, addr);
        if v.None? then (b, None)
        else if v.value == 0 then (b, Some([]))
        else Prepend([v.value], ReadString(b, sid, At(addr, 1), max - 1))
  {
    hide GrowPages, ReadPage, Prepend, At;
  }

  /** user_read_string: the characters before the NUL, or max characters without one; None where the source returns 1. */
  method UserReadString(h: Host, sid: SpaceId, addr: nat, max: nat) returns (buf: Option<seq<byte>>)
    requires h.Valid() && Inv(h.state) && sid in h.mems && addr < ADDR_SPACE
    modifies h`blocks, h`state, h.Repr
    ensures h.Valid() && Inv(h.state)
    ensures (View(h.state), buf) == if addr == 0 then (View(old(h.state)), None) else ReadString(View(old(h.state)), sid, addr, max)
  {
    hide MemsValid, Mirrors, Counted, SharedIsCow, EntriesOk, View, GrowPages, ReadPage, ReadString;
    if addr == 0 {
      return None;
    }
    var s: seq<byte> := [];
    var i := 0;
    PrependFacts([], [], ReadString(View(h.state), sid, addr, max));
    while i < max
      invariant 0 <= i <= max && h.Valid() && Inv(h.state)
      invariant ReadString(View(old(h.state)), sid, addr, max) == Prepend(s, ReadString(View(h.state), sid, At(addr, i), max - i))
    {
      assert At(At(addr, i), 1) == At(addr, i + 1);
      ReadStringStep(View(h.state), sid, At(addr, i), max - i);
      var v := ReadOne(h, sid, At(addr, i));
      if v.None? {
        return None;
      }
      if v.value == 0 {
        assert s + [] == s;
        return Some(s);
      }
      PrependFacts(s, [v.value], ReadString(View(h.state), sid, At(addr, i + 1), max - i - 1));
      s := s + [v.value];
      i := i + 1;
    }
    assert s + [] == s;
    ReadStringStep(View(h.state), sid, At(addr, i), 0);
    buf := Some(s);
  }

  // Writing vs and then ws behind it.
  lemma {:induction false} WriteTwo(a: map<Slot, Page>, sid: SpaceId, addr: nat, vs: seq<byte>, ws: seq<byte>)
    requires addr < ADDR_SPACE
    ensures var (b, ok) := WriteMany(a, sid, addr, vs);
            WriteMany(a, sid, addr, vs + ws) == if ok then WriteMany(b, sid, At(addr, |vs|), ws) else (b, false)
    decreases |vs|
  {
    hide GrowPages, Writable, WritePage, WriteMany, At;
    AtFirst(addr);
    if vs == [] {
      assert vs + ws == ws;
      WriteNothing(a, sid, addr);
    } else {
      WriteManyStep(a, sid, addr, vs);
      WriteManyStep(a, sid, addr, vs + ws);
      assert (vs + ws)[1..] == vs[1..] + ws;
      var b := GrowPages(a, sid, addr / PAGE_SIZE);
      if Writable(b, sid, addr) {
        WriteTwo(WritePage(b, sid, addr, vs[0]), sid, At(addr, 1), vs[1..], ws);
        AtNext(addr, |vs| - 1);
      }
    }
  }

  lemma WriteNothing(a: map<Slot, Page>, sid: SpaceId, addr: nat)
    ensures WriteMany(a, sid, addr, []) == (a, true)
  {
  }

  /** user_write_string: the characters and a NUL; false where the source returns 1. */
  method UserWriteString(h: Host, sid: SpaceId, addr: nat, s: seq<byte>) returns (ok: bool)
    requires h.Valid() && Inv(h.state) && sid in h.mems && addr < ADDR_SPACE
    modifies h`blocks, h`state, h.Repr
    ensures h.Valid() && Inv(h.state)
    ensures (View(h.state), ok) == if addr == 0 then (View(old(h.state)), false) else WriteMany(View(old(h.state)), sid, addr, s + [0])
  {
    hide MemsValid, Mirrors, Counted, SharedIsCow, EntriesOk, View, WriteMany;
    if addr == 0 {
      return false;
    }
    ghost var a := View(h.state);
    WriteNothing(a, sid, addr);
    for i := 0 to |s|
      invariant h.Valid() && Inv(h.state) && WriteMany(a, sid, addr, s[..i]) == (View(h.state), true)
    {
      WriteTwo(a, sid, addr, s[..i], [s[i]]);
      assert s[..i] + [s[i]] == s[..i + 1];
      WriteTwo(a, sid, addr, s[..i + 1], s[i + 1..] + [0]);
      assert s[..i + 1] + (s[i + 1..] + [0]) == s + [0];
      ok := UserWrite(h, sid, At(addr, i), [s[i]]);
      if !ok {
        return;
      }
    }
    WriteTwo(a, sid, addr, s[..|s|], [0]);
    assert s[..|s|] == s;
    ok := UserWrite(h, sid, At(addr, |s|), [0]);
  }

  // ReadString of characters that are there.
  lemma {:induction false} ReadsBack(a: map<Slot, Page>, sid: SpaceId, addr: nat, s: seq<byte>, max: nat)
    requires addr < ADDR_SPACE && NulFree(s) && forall i | 0 <= i <= |s| :: ReadPage(a, sid, At(addr, i)) == Some((s + [0])[i])
    ensures ReadString(a, sid, addr, max) == (a, Some(if |s| < max then s else s[..max]))
    decreases max
  {
    if max != 0 {
      hide ReadString, ReadPage, At, GrowPages;
      AtFirst(addr);
      assert ReadPage(a, sid, At(addr, 0)) == Some((s + [0])[0]);
      GrownRead(a, sid, addr);
      ReadStringStep(a, sid, addr, max);
      if s != [] {
        forall i | 0 <= i <= |s[1..]| ensures ReadPage(a, sid, At(At(addr, 1), i)) == Some((s[1..] + [0])[i]) {
          AtNext(addr, i);
          assert (s[1..] + [0])[i] == (s + [0])[i + 1];
        }
        ReadsBack(a, sid, At(addr, 1), s[1..], max - 1);
        CutFront(s, max);
      }
    }
  }

  lemma CutFront(s: seq<byte>, max: nat)
    requires s != [] && max > 0
    ensures [s[0]] + (if |s[1..]| < max - 1 then s[1..] else s[1..][..max - 1]) == if |s| < max then s else s[..max]
  {
  }

  /** A string written to a process is read back, cut to max characters and then without its end if it is longer. */
  lemma StringRoundTrip(a: map<Slot, Page>, sid: SpaceId, addr: nat, s: seq<byte>, max: nat)
    requires addr < ADDR_SPACE && NulFree(s) && |s| < ADDR_SPACE && WriteMany(a, sid, addr, s + [0]).1
    ensures var b := WriteMany(a, sid, addr, s + [0]).0;
            ReadString(b, sid, addr, max) == (b, Some(if |s| < max then s else s[..max]))
  {
    var b := WriteMany(a, sid, addr, s + [0]).0;
    hide ReadString, ReadPage, At, WriteMany;
    forall i | 0 <= i <= |s| ensures ReadPage(b, sid, At(addr, i)) == Some((s + [0])[i]) {
      WrittenBytes(a, sid, addr, s + [0], i);
    }
    ReadsBack(b, sid, addr, s, max);
  }

  lemma {:induction false} ReadStringKeeps(a: map<Slot, Page>, sid: SpaceId, addr: nat, max: nat, x: nat)
    requires ReadPage(a, sid, x).Some?
    ensures ReadPage(ReadString(a, sid, addr, max).0, sid, x) == ReadPage(a, sid, x)
    decreases max
  {
    if max != 0 {
      var b := GrowPages(a, sid, addr / PAGE_SIZE);
      assert ReadPage(b, sid, x) == ReadPage(a, sid, x);
      hide GrowPages, ReadPage;
      ReadStringKeeps(b, sid, At(addr, 1), max - 1, x);
    }
  }

  /** Whatever the memory holds: a string read is what is there up to the first NUL, or max characters without one, and reading
      fails exactly if a character in front of both is not mapped. The result k is where the copy stopped. */
  lemma {:induction false} ReadStringMeans(a: map<Slot, Page>, sid: SpaceId, addr: nat, max: nat) returns (k: nat)
    requires addr < ADDR_SPACE
    ensures var (m, r) := ReadString(a, sid, addr, max);
            && k <= max
            && (forall i | 0 <= i < k :: ReadPage(m, sid, At(addr, i)).Some? && ReadPage(m, sid, At(addr, i)) != Some(0))
            && (k < max ==> ReadPage(m, sid, At(addr, k)) == if r.Some? then Some(0) else None)
            && (k == max ==> r.Some?)
            && (r.Some? ==> |r.value| == k && forall i | 0 <= i < k :: ReadPage(m, sid, At(addr, i)) == Some(r.value[i]))
    decreases max
  {
    hide GrowPages, ReadPage, At;
    ReadStringStep(a, sid, addr, max);
    AtFirst(addr);
    k := 0;
    if max != 0 {
      var b := GrowPages(a, sid, addr / PAGE_SIZE);
      var v := ReadPage(b, sid, addr);
      if v.Some? {
        ReadStringKeeps(b, sid, At(addr, 1), max - 1, addr);
        ReadStringKeeps(b, sid, addr, 0, addr);
        if v.value != 0 {
          k := ReadStringMeans(b, sid, At(addr, 1), max - 1);
          forall i | 0 <= i <= k ensures At(addr, i + 1) == At(At(addr, 1), i) { AtNext(addr, i); }
          var (m, r) := ReadString(b, sid, At(addr, 1), max - 1);
          hide ReadString;
          forall i | 0 <= i < k + 1
            ensures ReadPage(m, sid, At(addr, i)).Some? && ReadPage(m, sid, At(addr, i)) != Some(0)
            ensures r.Some? ==> ReadPage(m, sid, At(addr, i)) == Some(([v.value] + r.value)[i])
          {
            if i > 0 { assert At(addr, i) == At(At(addr, 1), i - 1); }
          }
          k := k + 1;
        }
      }
    }
  }
}
