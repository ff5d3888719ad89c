/** The byte loops of kernel/user.c: copies between the kernel and a process. */
module UserCopy {
  import opened Bytes
  import opened GuestMemory
  import opened ForkIsolation
  import opened HostMemory
  import opened Dwords

  /** Reading n bytes one at a time from memory without sharing: what grew, and the bytes if all were mapped. */
  ghost function ReadMany(a: map<Slot, Page>, sid: SpaceId, addr: nat, n: nat): (map<Slot, Page>, Option<seq<byte>>)
    decreases n
  {
    if n == 0 then (a, Some([]))
    else
      var b := GrowPages(a, sid, addr / PAGE_SIZE);
      var v := ReadPage(b, sid, addr);
      if v.None? then (b, None) else Prepend([v.value], ReadMany(b, sid, At(addr, 1), n - 1))
  }

  ghost function Prepend(vs: seq<byte>, r: (map<Slot, Page>, Option<seq<byte>>)): (map<Slot, Page>, Option<seq<byte>>) {
    (r.0, if r.1.Some? then Some(vs + r.1.value) else None)
  }

  /** What such a copy has put in its buffer when it ends, whether or not it got to the end. */
  ghost function ReadPrefix(a: map<Slot, Page>, sid: SpaceId, addr: nat, n: nat): (got: seq<byte>)
    ensures |got| <= n
    decreases n
  {
    if n == 0 then []
    else
      var b := GrowPages(a, sid, addr / PAGE_SIZE);
      var v := ReadPage(b, sid, addr);
      if v.None? then [] else [v.value] + ReadPrefix(b, sid, At(addr, 1), n - 1)
  }

  // A copy that got to the end has all the bytes.
  lemma {:induction false} PrefixIsAll(a: map<Slot, Page>, sid: SpaceId, addr: nat, n: nat)
    ensures var r := ReadMany(a, sid, addr, n).1;
            if r.Some? then r.value == ReadPrefix(a, sid, addr, n) && |r.value| == n else |ReadPrefix(a, sid, addr, n)| < n
    decreases n
  {
    hide GrowPages, ReadPage;
    if n != 0 { PrefixIsAll(GrowPages(a, sid, addr / PAGE_SIZE), sid, At(addr, 1), n - 1); }
  }

  lemma ReadPrefixStep(a: map<Slot, Page>, sid: SpaceId, addr: nat, n: nat)
    ensures ReadPrefix(a, sid, addr, n) ==
      if n == 0 then []
      else
        var b := GrowPages(a, sid, addr / PAGE_SIZE);
        var v := ReadPage(b, sid, addr);
        if v.None? then [] else [v.value] + ReadPrefix(b, sid, At(addr, 1), n - 1)
  {
    hide GrowPages, ReadPage;
  }

  /** Writing bytes one at a time: those before the first unwritable address stay written. */
  ghost function WriteMany(a: map<Slot, Page>, sid: SpaceId, addr: nat, vs: seq<byte>): (map<Slot, Page>, bool)
    decreases |vs|
  {
    if vs == [] then (a, true)
    else
      var b := GrowPages(a, sid, addr / PAGE_SIZE);
      if Writable(b, sid, addr) then WriteMany(WritePage(b, sid, addr, vs[0]), sid, At(addr, 1), vs[1..]) else (b, false)
  }

  lemma PrependFacts(vs: seq<byte>, ws: seq<byte>, r: (map<Slot, Page>, Option<seq<byte>>))
    ensures Prepend([], r) == r && Prepend(vs, Prepend(ws, r)) == Prepend(vs + ws, r)
  {
    if r.1.Some? {
      assert [] + r.1.value == r.1.value;
      assert vs + (ws + r.1.value) == vs + ws + r.1.value;
    }
  }

  // One pass of the loop in user_read_task.
  method ReadOne(h: Host, sid: SpaceId, addr: nat) returns (v: Option<byte>)
    requires h.Valid() && Inv(h.state) && sid in h.mems && addr < ADDR_SPACE
    modifies h`blocks, h`state, h.Repr
    ensures h.Valid() && Inv(h.state)
    ensures View(h.state) == GrowPages(View(old(h.state)), sid, addr / PAGE_SIZE)
    ensures v == ReadPage(View(h.state), sid, addr)
  {
    hide MemsValid, Mirrors, Counted, SharedIsCow, EntriesOk, View, GrowPages, Touch, Pointer, PtrOk;
    h.Alive(sid);
    var id := h.PickAddress();
    PointerAt(h.state, sid, addr, false, id, 1);
    var ptr := h.MemPtr(sid, addr, false, id);
    if ptr.None? {
      return None;
    }
    var vs := h.Peek(ptr.value, 1);
    v := Some(vs[0]);
  }

  method WriteOne(h: Host, sid: SpaceId, addr: nat, v: byte) returns (ok: bool)
    requires h.Valid() && Inv(h.state) && sid in h.mems && addr < ADDR_SPACE
    modifies h`blocks, h`state, h.Repr
    ensures h.Valid() && Inv(h.state)
    ensures var b := GrowPages(View(old(h.state)), sid, addr / PAGE_SIZE);
            && (ok <==> Writable(b, sid, addr))
            && View(h.state) == if ok then WritePage(b, sid, addr, v) else b
  {
    hide MemsValid, Mirrors, Counted, SharedIsCow, EntriesOk, View, GrowPages, Touch, PtrOk;
    h.Alive(sid);
    var id := h.PickAddress();
    ghost var s := h.state;
    PointerAt(s, sid, addr, true, id, 1);
    WriteSimulated(s, sid, addr, v, id);
    var ptr := h.MemPtr(sid, addr, true, id);
    if ptr.None? {
      return false;
    }
    h.Poke(ptr.value, [v]);
    ok := true;
  }

  lemma ReadManyStep(a: map<Slot, Page>, sid: SpaceId, addr: nat, n: nat)
    ensures ReadMany(a, sid, addr, n) ==
      if n == 0 then (a, Some([]))
      else
        var b := GrowPages(a, sid, addr / PAGE_SIZE);
        var v := ReadPage(b, sid, addr);
        if v.None? then (b, None) else Prepend([v.value], ReadMany(b, sid, At(addr, 1), n - 1))
  {
    hide GrowPages, ReadPage, Prepend;
  }

  /** user_read_task: the bytes, or None where the source returns 1; and those that got into the caller's buffer. */
  method UserRead(h: Host, sid: SpaceId, addr: nat, count: nat) returns (buf: Option<seq<byte>>, got: seq<byte>)
    requires h.Valid() && Inv(h.state) && sid in h.mems && addr < ADDR_SPACE
    modifies h`blocks, h`state, h.Repr
    ensures h.Valid() && Inv(h.state)
    ensures (View(h.state), buf) == ReadMany(View(old(h.state)), sid, addr, count)
    ensures got == ReadPrefix(View(old(h.state)), sid, addr, count)
  {
    hide MemsValid, Mirrors, Counted, SharedIsCow, EntriesOk, View, GrowPages, ReadPage, ReadMany, ReadPrefix;
    var cbuf: seq<byte> := [];
    var i := 0;
    assert cbuf + ReadPrefix(View(h.state), sid, addr, count) == ReadPrefix(View(h.state), sid, addr, count);
    PrependFacts([], [], ReadMany(View(h.state), sid, addr, count));
    while i < count
      invariant 0 <= i <= count && h.Valid() && Inv(h.state)
      invariant ReadMany(View(old(h.state)), sid, addr, count) == Prepend(cbuf, ReadMany(View(h.state), sid, At(addr, i), count - i))
      invariant ReadPrefix(View(old(h.state)), sid, addr, count) == cbuf + ReadPrefix(View(h.state), sid, At(addr, i), count - i)
    {
      assert At(At(addr, i), 1) == At(addr, i + 1);
      ReadManyStep(View(h.state), sid, At(addr, i), count - i);
      ReadPrefixStep(View(h.state), sid, At(addr, i), count - i);
      var v := ReadOne(h, sid, At(addr, i));
      if v.None? {
        assert cbuf + [] == cbuf;
        return None, cbuf;
      }
      Associate(cbuf, [v.value], ReadPrefix(View(h.state), sid, At(addr, i + 1), count - i - 1));
      PrependFacts(cbuf, [v.value], ReadMany(View(h.state), sid, At(addr, i + 1), count - i - 1));
      cbuf := cbuf + [v.value];
      i := i + 1;
    }
    assert cbuf + [] == cbuf;
    ReadManyStep(View(h.state), sid, At(addr, i), 0);
    ReadPrefixStep(View(h.state), sid, At(addr, i), 0);
    buf, got := Some(cbuf), cbuf;
  }

  /** user_write_task: false where the source returns 1. */
  method UserWrite(h: Host, sid: SpaceId, addr: nat, buf: seq<byte>) returns (ok: bool)
    requires h.Valid() && Inv(h.state) && sid in h.mems && addr < ADDR_SPACE
    modifies h`blocks, h`state, h.Repr
    ensures h.Valid() && Inv(h.state)
    ensures (View(h.state), ok) == WriteMany(View(old(h.state)), sid, addr, buf)
  {
    hide MemsValid, Mirrors, Counted, SharedIsCow, EntriesOk, View, GrowPages, Writable, WritePage;
    var i := 0;
    while i < |buf|
      invariant 0 <= i <= |buf| && h.Valid() && Inv(h.state)
      invariant WriteMany(View(old(h.state)), sid, addr, buf) == WriteMany(View(h.state), sid, At(addr, i), buf[i..])
    {
      assert At(At(addr, i), 1) == At(addr, i + 1);
      var done := WriteOne(h, sid, At(addr, i), buf[i]);
      if !done {
        return false;
      }
      i := i + 1;
    }
    ok := true;
  }

  // A word as a program loads it.
  ghost function LoadWord(a: map<Slot, Page>, sid: SpaceId, x: nat): Option<nat> {
    var b := ReadMany(a, sid, x, 4).1;
    if b.Some? && |b.value| == 4 then Some(WordAt(b.value, 0)) else None
  }

  // ------------------------------------------------------- the round trip

  lemma {:induction false} WriteManyKeeps(a: map<Slot, Page>, sid: SpaceId, addr: nat, vs: seq<byte>, x: nat)
    requires addr < ADDR_SPACE && x < ADDR_SPACE && ReadPage(a, sid, x).Some?
    requires forall i | 0 <= i < |vs| :: At(addr, i) != x
    ensures ReadPage(WriteMany(a, sid, addr, vs).0, sid, x) == ReadPage(a, sid, x)
    decreases |vs|
  {
    if vs != [] {
      var b := GrowPages(a, sid, addr / PAGE_SIZE);
      assert ReadPage(b, sid, x) == ReadPage(a, sid, x);
      if Writable(b, sid, addr) {
        var c := WritePage(b, sid, addr, vs[0]);
        assert At(addr, 0) == addr;
        WriteElsewhere(b, sid, addr, vs[0], x);
        forall i | 0 <= i < |vs[1..]| ensures At(At(addr, 1), i) != x { assert At(At(addr, 1), i) == At(addr, i + 1); }
        WriteManyKeeps(c, sid, At(addr, 1), vs[1..], x);
      }
    }
  }

  lemma WriteElsewhere(a: map<Slot, Page>, sid: SpaceId, addr: nat, v: byte, x: nat)
    requires Writable(a, sid, addr) && addr != x && ReadPage(a, sid, x).Some?
    ensures ReadPage(WritePage(a, sid, addr, v), sid, x) == ReadPage(a, sid, x)
  {
    if addr / PAGE_SIZE == x / PAGE_SIZE { assert addr % PAGE_SIZE != x % PAGE_SIZE; }
  }

  lemma {:induction false} WrittenBytes(a: map<Slot, Page>, sid: SpaceId, addr: nat, vs: seq<byte>, i: nat)
    requires addr < ADDR_SPACE && |vs| <= ADDR_SPACE && i < |vs| && WriteMany(a, sid, addr, vs).1
    ensures ReadPage(WriteMany(a, sid, addr, vs).0, sid, At(addr, i)) == Some(vs[i])
    decreases |vs|
  {
    hide GrowPages, WriteMany, Writable, WritePage, ReadPage, At;
    WriteManyStep(a, sid, addr, vs);
    var b := GrowPages(a, sid, addr / PAGE_SIZE);
    WrittenHere(b, sid, addr, vs[0]);
    var c := WritePage(b, sid, addr, vs[0]);
    AtFirst(addr);
    if i == 0 {
      forall j | 0 <= j < |vs[1..]| ensures At(At(addr, 1), j) != addr { NotAround(addr, j); }
      WriteManyKeeps(c, sid, At(addr, 1), vs[1..], addr);
    } else {
      AtNext(addr, i - 1);
      WrittenBytes(c, sid, At(addr, 1), vs[1..], i - 1);
    }
  }

  lemma WriteManyStep(a: map<Slot, Page>, sid: SpaceId, addr: nat, vs: seq<byte>)
    requires vs != []
    ensures var b := GrowPages(a, sid, addr / PAGE_SIZE);
            WriteMany(a, sid, addr, vs) ==
              if Writable(b, sid, addr) then WriteMany(WritePage(b, sid, addr, vs[0]), sid, At(addr, 1), vs[1..]) else (b, false)
  {
    hide GrowPages, Writable, WritePage, At;
  }

  lemma WrittenHere(b: map<Slot, Page>, sid: SpaceId, addr: nat, v: byte)
    requires Writable(b, sid, addr)
    ensures ReadPage(WritePage(b, sid, addr, v), sid, addr) == Some(v)
  {
  }

  // Fewer than ADDR_SPACE addresses further on is elsewhere.
  lemma NotAround(addr: nat, j: nat)
    requires addr < ADDR_SPACE && j < ADDR_SPACE - 1
    ensures At(At(addr, 1), j) != addr
  {
    AtNext(addr, j);
  }

  lemma AtFirst(addr: nat)
    requires addr < ADDR_SPACE
    ensures At(addr, 0) == addr && At(addr, 1) < ADDR_SPACE
  {
  }

  lemma AtNext(addr: nat, i: nat)
    ensures At(At(addr, 1), i) == At(addr, i + 1)
  {
  }

  lemma GrownRead(a: map<Slot, Page>, sid: SpaceId, addr: nat)
    requires ReadPage(a, sid, addr).Some?
    ensures GrowPages(a, sid, addr / PAGE_SIZE) == a
  {
  }

  lemma {:induction false} ReadAll(a: map<Slot, Page>, sid: SpaceId, addr: nat, vs: seq<byte>)
    requires addr < ADDR_SPACE && forall i | 0 <= i < |vs| :: ReadPage(a, sid, At(addr, i)) == Some(vs[i])
    ensures ReadMany(a, sid, addr, |vs|) == (a, Some(vs))
    decreases |vs|
  {
    if vs != [] {
      hide ReadMany, ReadPage, At, GrowPages;
      AtFirst(addr);
      GrownRead(a, sid, addr);
      ReadManyStep(a, sid, addr, |vs|);
      forall i | 0 <= i < |vs[1..]| ensures ReadPage(a, sid, At(At(addr, 1), i)) == Some(vs[1..][i]) {
        AtNext(addr, i);
      }
      ReadAll(a, sid, At(addr, 1), vs[1..]);
      assert [vs[0]] + vs[1..] == vs;
    }
  }

  /** What the kernel wrote to a process it reads back, whatever pages the write grew, copied or crossed. */
  lemma UserRoundTrip(a: map<Slot, Page>, sid: SpaceId, addr: nat, vs: seq<byte>)
    requires addr < ADDR_SPACE && |vs| <= ADDR_SPACE && WriteMany(a, sid, addr, vs).1
    ensures var b := WriteMany(a, sid, addr, vs).0;
            ReadMany(b, sid, addr, |vs|) == (b, Some(vs))
  {
    var b := WriteMany(a, sid, addr, vs).0;
    forall i | 0 <= i < |vs| ensures ReadPage(b, sid, At(addr, i)) == Some(vs[i]) {
      WrittenBytes(a, sid, addr, vs, i);
    }
    ReadAll(b, sid, addr, vs);
  }

  // ------------------------------------------------- copies that stop early

  // Bytes that are mapped stay what they are while others are read.
  lemma {:induction false} ReadManyKeeps(a: map<Slot, Page>, sid: SpaceId, addr: nat, n: nat, x: nat)
    requires ReadPage(a, sid, x).Some?
    ensures ReadPage(ReadMany(a, sid, addr, n).0, sid, x) == ReadPage(a, sid, x)
    decreases n
  {
    if n != 0 {
      var b := GrowPages(a, sid, addr / PAGE_SIZE);
      assert ReadPage(b, sid, x) == ReadPage(a, sid, x);
      hide GrowPages, ReadPage;
      ReadManyKeeps(b, sid, At(addr, 1), n - 1, x);
    }
  }

  /** A copy from a process gets the bytes in front of the first one that is not mapped, and fails exactly if there is one. */
  lemma {:induction false} ReadStops(a: map<Slot, Page>, sid: SpaceId, addr: nat, n: nat)
    requires addr < ADDR_SPACE
    ensures var (m, r) := ReadMany(a, sid, addr, n);
            var got := ReadPrefix(a, sid, addr, n);
            && (forall i | 0 <= i < |got| :: ReadPage(m, sid, At(addr, i)) == Some(got[i]))
            && (|got| < n ==> ReadPage(m, sid, At(addr, |got|)) == None)
            && r == if |got| == n then Some(got) else None
    decreases n
  {
    hide GrowPages, ReadPage, At;
    ReadManyStep(a, sid, addr, n);
    ReadPrefixStep(a, sid, addr, n);
    AtFirst(addr);
    if n != 0 {
      var b := GrowPages(a, sid, addr / PAGE_SIZE);
      var v := ReadPage(b, sid, addr);
      if v.Some? {
        ReadStops(b, sid, At(addr, 1), n - 1);
        ReadManyKeeps(b, sid, At(addr, 1), n - 1, addr);
        var (m, rest) := (ReadMany(a, sid, addr, n).0, ReadPrefix(b, sid, At(addr, 1), n - 1));
        forall i | 0 <= i <= |rest| ensures At(addr, i + 1) == At(At(addr, 1), i) { AtNext(addr, i); }
        hide ReadMany, ReadPrefix;
        forall i | 0 <= i < |rest| + 1 ensures ReadPage(m, sid, At(addr, i)) == Some(([v.value] + rest)[i]) {
          if i > 0 { assert At(addr, i) == At(At(addr, 1), i - 1); }
        }
      }
    }
  }

  /** A copy to a process stores the bytes in front of the first address that cannot be written, and fails exactly if there is one. */
  lemma {:induction false} WriteStops(a: map<Slot, Page>, sid: SpaceId, addr: nat, vs: seq<byte>) returns (k: nat)
    requires addr < ADDR_SPACE && |vs| <= ADDR_SPACE
    ensures var (m, ok) := WriteMany(a, sid, addr, vs);
            && k <= |vs| && (ok <==> k == |vs|)
            && (forall i | 0 <= i < k :: ReadPage(m, sid, At(addr, i)) == Some(vs[i]))
            && (k < |vs| ==> !Writable(m, sid, At(addr, k)))
    decreases |vs|
  {
    hide GrowPages, Writable, WritePage, ReadPage, At;
    AtFirst(addr);
    k := 0;
    if vs != [] {
      WriteManyStep(a, sid, addr, vs);
      var b := GrowPages(a, sid, addr / PAGE_SIZE);
      if Writable(b, sid, addr) {
        var c, rest := WritePage(b, sid, addr, vs[0]), vs[1..];
        WrittenHere(b, sid, addr, vs[0]);
        forall j | 0 <= j < |rest| ensures At(At(addr, 1), j) != addr { NotAround(addr, j); }
        WriteManyKeeps(c, sid, At(addr, 1), rest, addr);
        k := WriteStops(c, sid, At(addr, 1), rest);
        hide WriteMany;
        var m := WriteMany(a, sid, addr, vs).0;
        forall i | 0 <= i <= k ensures At(addr, i + 1) == At(At(addr, 1), i) { AtNext(addr, i); }
        forall i | 0 <= i < k + 1 ensures ReadPage(m, sid, At(addr, i)) == Some(vs[i]) {
          if i > 0 { assert At(addr, i) == At(At(addr, 1), i - 1) && vs[i] == rest[i - 1]; }
        }
        k := k + 1;
      }
    }
  }
}
