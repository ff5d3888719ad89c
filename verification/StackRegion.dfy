/** The growing stack of a process as plain zero-filled memory. */
module StackRegion {
  import opened Bytes
  import opened GuestMemory
  import opened ForkIsolation
  import opened UserCopy

  const STACK_PAGE: nat := 0xffffd
  const STACK_TOP: nat := 0xffff_e000

  /** From page `low` up to the stack page, whatever is mapped is writable stack that grows down; the stack page is mapped. */
  ghost predicate StackOk(a: map<Slot, Page>, sid: SpaceId, low: nat) {
    && low <= STACK_PAGE && Slot(sid, STACK_PAGE) in a
    && forall p: nat | low <= p <= STACK_PAGE && Slot(sid, p) in a :: StackPage(a[Slot(sid, p)])
  }

  predicate StackPage(p: Page) { p.flags.write && p.flags.growsdown && |p.bytes| == PAGE_SIZE }

  // The byte a process finds there: zero where no page is mapped yet.
  ghost function ByteAt(a: map<Slot, Page>, sid: SpaceId, x: nat): byte {
    var r := ReadPage(a, sid, x);
    if r.Some? then r.value else 0
  }

  ghost function BytesAt(a: map<Slot, Page>, sid: SpaceId, x: nat, n: nat): (b: seq<byte>)
    ensures |b| == n
  {
    seq<byte>(n, i requires 0 <= i < n => ByteAt(a, sid, x + i))
  }

  // b differs from a by vs at addr, as far as bytes go.
  ghost predicate Wrote(a: map<Slot, Page>, b: map<Slot, Page>, sid: SpaceId, addr: nat, vs: seq<byte>) {
    forall y: nat :: ByteAt(b, sid, y) == if addr <= y < addr + |vs| then vs[y - addr] else ByteAt(a, sid, y)
  }

  lemma GrowStack(a: map<Slot, Page>, sid: SpaceId, low: nat, p: nat)
    requires StackOk(a, sid, low) && low <= p <= STACK_PAGE
    ensures var b := GrowPages(a, sid, p);
            StackOk(b, sid, low) && Slot(sid, p) in b && Wrote(a, b, sid, 0, [])
  {
    if Slot(sid, p) !in a {
      var q := NextMapped(a.Keys, sid, p + 1);
      assert q <= STACK_PAGE;
      assert StackPage(a[Slot(sid, q)]);
    }
  }

  lemma StoreStack(a: map<Slot, Page>, sid: SpaceId, low: nat, x: nat, v: byte)
    requires StackOk(a, sid, low) && low <= x / PAGE_SIZE <= STACK_PAGE && Slot(sid, x / PAGE_SIZE) in a
    ensures Writable(a, sid, x)
    ensures StackOk(WritePage(a, sid, x, v), sid, low) && Wrote(a, WritePage(a, sid, x, v), sid, x, [v])
  {
    var k := Slot(sid, x / PAGE_SIZE);
    assert StackPage(a[k]);
    var b := WritePage(a, sid, x, v);
    forall y: nat ensures ByteAt(b, sid, y) == if y == x then v else ByteAt(a, sid, y) {
      if y / PAGE_SIZE == x / PAGE_SIZE && y != x {
        assert y % PAGE_SIZE != x % PAGE_SIZE;
      }
    }
  }

  lemma WroteThen(a: map<Slot, Page>, b: map<Slot, Page>, c: map<Slot, Page>, sid: SpaceId, addr: nat, vs: seq<byte>, at: nat, ws: seq<byte>)
    requires Wrote(a, b, sid, addr, vs) && Wrote(b, c, sid, at, ws)
    ensures addr + |vs| == at ==> Wrote(a, c, sid, addr, vs + ws)
    ensures at + |ws| == addr ==> Wrote(a, c, sid, at, ws + vs)
    ensures ws == [] ==> Wrote(a, c, sid, addr, vs)
    ensures vs == [] ==> Wrote(a, c, sid, at, ws)
  {
    hide ByteAt;
  }

  /** Writing anywhere in the region succeeds and changes just those bytes. */
  lemma {:induction false} WriteStack(a: map<Slot, Page>, sid: SpaceId, low: nat, addr: nat, vs: seq<byte>)
    requires StackOk(a, sid, low) && low * PAGE_SIZE <= addr && addr + |vs| <= STACK_TOP
    ensures var (b, ok) := WriteMany(a, sid, addr, vs);
            ok && StackOk(b, sid, low) && Wrote(a, b, sid, addr, vs)
    decreases |vs|
  {
    hide ByteAt, StackOk, GrowPages, WritePage, Writable, Wrote;
    if vs == [] {
      NothingWrote(a, sid, addr);
    } else {
      GrowStack(a, sid, low, addr / PAGE_SIZE);
      var b := GrowPages(a, sid, addr / PAGE_SIZE);
      StoreStack(b, sid, low, addr, vs[0]);
      var c := WritePage(b, sid, addr, vs[0]);
      WroteThen(a, b, c, sid, 0, [], addr, [vs[0]]);
      assert At(addr, 1) == addr + 1;
      WriteStack(c, sid, low, addr + 1, vs[1..]);
      var d := WriteMany(c, sid, addr + 1, vs[1..]).0;
      WroteThen(a, c, d, sid, addr, [vs[0]], addr + 1, vs[1..]);
      assert [vs[0]] + vs[1..] == vs;
    }
  }

  lemma NothingWrote(a: map<Slot, Page>, sid: SpaceId, addr: nat)
    ensures Wrote(a, a, sid, addr, [])
  {
  }

  lemma BytesFront(a: map<Slot, Page>, sid: SpaceId, x: nat, n: nat)
    requires n > 0
    ensures BytesAt(a, sid, x, n) == [ByteAt(a, sid, x)] + BytesAt(a, sid, x + 1, n - 1)
  {
    hide ByteAt;
  }

  lemma SameBytes(a: map<Slot, Page>, b: map<Slot, Page>, sid: SpaceId, addr: nat, vs: seq<byte>, x: nat, n: nat)
    requires Wrote(a, b, sid, addr, vs) && (x + n <= addr || addr + |vs| <= x)
    ensures BytesAt(b, sid, x, n) == BytesAt(a, sid, x, n)
  {
    hide ByteAt;
  }

  lemma WrittenBack(a: map<Slot, Page>, b: map<Slot, Page>, sid: SpaceId, addr: nat, vs: seq<byte>)
    requires Wrote(a, b, sid, addr, vs)
    ensures BytesAt(b, sid, addr, |vs|) == vs
  {
    hide ByteAt;
  }

  /** Reading anywhere in the region returns its bytes, and changes none. */
  lemma {:induction false} ReadStack(a: map<Slot, Page>, sid: SpaceId, low: nat, addr: nat, n: nat)
    requires StackOk(a, sid, low) && low * PAGE_SIZE <= addr && addr + n <= STACK_TOP
    ensures var (b, r) := ReadMany(a, sid, addr, n);
            && StackOk(b, sid, low) && Wrote(a, b, sid, addr, []) && r == Some(BytesAt(a, sid, addr, n))
    decreases n
  {
    hide ByteAt, BytesAt, StackOk, GrowPages, Wrote;
    if n == 0 {
      NothingWrote(a, sid, addr);
      assert BytesAt(a, sid, addr, n) == [];
    } else {
      GrowStack(a, sid, low, addr / PAGE_SIZE);
      var b := GrowPages(a, sid, addr / PAGE_SIZE);
      MappedByte(b, sid, low, addr);
      assert At(addr, 1) == addr + 1;
      ReadStack(b, sid, low, addr + 1, n - 1);
      var c := ReadMany(b, sid, addr + 1, n - 1).0;
      WroteThen(a, b, c, sid, 0, [], addr + 1, []);
      EmptyWrote(a, c, sid, addr + 1, addr);
      SameBytes(a, b, sid, 0, [], addr, n);
      BytesFront(b, sid, addr, n);
    }
  }

  lemma MappedByte(b: map<Slot, Page>, sid: SpaceId, low: nat, x: nat)
    requires StackOk(b, sid, low) && low <= x / PAGE_SIZE <= STACK_PAGE && Slot(sid, x / PAGE_SIZE) in b
    ensures ReadPage(b, sid, x) == Some(ByteAt(b, sid, x))
  {
    assert StackPage(b[Slot(sid, x / PAGE_SIZE)]);
  }

  lemma EmptyWrote(a: map<Slot, Page>, b: map<Slot, Page>, sid: SpaceId, addr: nat, at: nat)
    requires Wrote(a, b, sid, addr, [])
    ensures Wrote(a, b, sid, at, [])
  {
    hide ByteAt;
  }
}
