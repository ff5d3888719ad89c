/** The initial stack exec builds in kernel/exec.c, and what the new program finds there. */
module ExecStack {
  import opened Bytes
  import opened Dwords
  import opened GuestMemory
  import opened HostMemory
  import opened UserCopy
  import opened UserStrings
  import opened StackRegion

  const HOST_WORD: nat := 8                       // sizeof(void *) on the host
  const AUX_WORDS: nat := 42
  const PLATFORM: seq<byte> := [105, 54, 56, 54]  // "i686"

  // Strings one after another, each with its terminator.
  function Pack(ss: seq<seq<byte>>): seq<byte> { if ss == [] then [] else ss[0] + [0] + Pack(ss[1..]) }

  // Where the strings packed at base start.
  function Pointers(base: nat, ss: seq<seq<byte>>): (ps: seq<nat>)
    ensures |ps| == |ss|
    decreases |ss|
  {
    if ss == [] then [] else [base] + Pointers(base + |ss[0]| + 1, ss[1..])
  }

  // What the program and its mappings contribute to the auxiliary vector.
  datatype Info = Info(sysinfo: nat, vdso: nat, phdr: nat, phent: nat, phnum: nat, base: nat, entry: nat)

  predicate InfoOk(i: Info) {
    i.sysinfo < DWORD && i.vdso < DWORD && i.phdr < DWORD && i.phent < DWORD && i.phnum < DWORD && i.base < DWORD && i.entry < DWORD
  }

  function Aux(i: Info, random: nat, file: nat, platform: nat): (ws: seq<nat>)
    ensures |ws| == AUX_WORDS
  {
    [32, i.sysinfo, 33, i.vdso, 16, 0, 6, PAGE_SIZE, 17, 0x64, 3, i.phdr, 4, i.phent, 5, i.phnum, 7, i.base, 8, 0, 9, i.entry,
     11, 0, 12, 0, 13, 0, 14, 0, 23, 0, 25, random, 26, 0, 31, file, 15, platform, 0, 0]
  }

  // sp & ~0xf
  function AlignStack(sp: int): (r: int)
    ensures r % 16 == 0 && sp - 16 < r <= sp
  {
    sp - sp % 16
  }

  /** The addresses of everything on the stack, in the order it is put there. */
  datatype Layout = Layout(file: int, envp: int, argv: int, platform: int, random: int, sp: int)

  function LayoutOf(file: seq<byte>, argv: seq<seq<byte>>, envp: seq<seq<byte>>): Layout {
    var f := STACK_TOP - HOST_WORD - (|file| + 1);
    var e := f - |Pack(envp)|;
    var a := e - |Pack(argv)|;
    var p := AlignStack(a) - (|PLATFORM| + 1);
    var r := p - 16;
    var s := r - 4 * (|argv| + 1 + |envp| + 1 + 1) - 4 * AUX_WORDS;
    Layout(f, e, a, p, r, AlignStack(s))
  }

  function Table(argv: seq<seq<byte>>, envp: seq<seq<byte>>, info: Info, l: Layout): seq<nat>
    requires l.file >= 0 && l.envp >= 0 && l.argv >= 0 && l.platform >= 0 && l.random >= 0
  {
    [|argv|] + Pointers(l.argv, argv) + [0] + Pointers(l.envp, envp) + [0] + Aux(info, l.random, l.file, l.platform)
  }

  ghost predicate Ready(h: Host, sid: SpaceId, low: nat)
    reads h, h.Repr
  {
    h.Valid() && Inv(h.state) && sid in h.mems && low > 0 && StackOk(View(h.state), sid, low)
  }

  /** Mapping the one stack page into a space with nothing between `low` and the top makes the stack ready and blank. */
  lemma FreshStack(a: map<Slot, Page>, sid: SpaceId, low: nat)
    requires low <= STACK_PAGE && forall p: nat | low <= p <= STACK_PAGE :: Slot(sid, p) !in a
    ensures var b := MapPages(a, sid, STACK_PAGE, 1, Zeros(PAGE_SIZE), STACK_FLAGS);
            StackOk(b, sid, low) && Blank(b, sid, low, STACK_TOP)
  {
    var b := MapPages(a, sid, STACK_PAGE, 1, Zeros(PAGE_SIZE), STACK_FLAGS);
    assert Slot(sid, STACK_PAGE) in Range(sid, STACK_PAGE, 1);
    forall p: nat | low <= p <= STACK_PAGE && Slot(sid, p) in b ensures p == STACK_PAGE {}
    assert b[Slot(sid, STACK_PAGE)] == Page(Zeros(PAGE_SIZE)[0..PAGE_SIZE], Visible(STACK_FLAGS));
    forall y: nat | low * PAGE_SIZE <= y < STACK_TOP ensures ByteAt(b, sid, y) == 0 {
      assert low <= y / PAGE_SIZE <= STACK_PAGE;
    }
  }

  // ----------------------------------------------------------- in place

  // user_write inside the stack region.
  method Put(h: Host, sid: SpaceId, addr: nat, vs: seq<byte>, ghost low: nat)
    requires Ready(h, sid, low) && low * PAGE_SIZE <= addr && addr + |vs| <= STACK_TOP
    modifies h`blocks, h`state, h.Repr
    ensures Ready(h, sid, low) && Wrote(View(old(h.state)), View(h.state), sid, addr, vs)
  {
    hide MemsValid, Mirrors, Counted, SharedIsCow, EntriesOk, View, WriteMany, StackOk, Wrote;
    WriteStack(View(h.state), sid, low, addr, vs);
    var _ := UserWrite(h, sid, addr, vs);
  }

  // user_get of one character.
  method GetByte(h: Host, sid: SpaceId, addr: nat, ghost low: nat) returns (c: byte)
    requires Ready(h, sid, low) && low * PAGE_SIZE <= addr < STACK_TOP
    modifies h`blocks, h`state, h.Repr
    ensures Ready(h, sid, low) && Wrote(View(old(h.state)), View(h.state), sid, addr, [])
    ensures BytesAt(View(old(h.state)), sid, addr, 1) == [c]
  {
    hide MemsValid, Mirrors, Counted, SharedIsCow, EntriesOk, View, ReadMany, StackOk, Wrote, BytesAt;
    ReadStack(View(h.state), sid, low, addr, 1);
    var r, _ := UserRead(h, sid, addr, 1);
    c := r.value[0];
    assert [c] == r.value;
  }

  /** copy_string: user_write_string just below sp. */
  method CopyString(h: Host, sid: SpaceId, sp: nat, s: seq<byte>, ghost low: nat) returns (p: nat)
    requires Ready(h, sid, low) && low * PAGE_SIZE + |s| + 1 <= sp <= STACK_TOP
    modifies h`blocks, h`state, h.Repr
    ensures Ready(h, sid, low) && p == sp - (|s| + 1) && Wrote(View(old(h.state)), View(h.state), sid, p, s + [0])
  {
    hide MemsValid, Mirrors, Counted, SharedIsCow, EntriesOk, View, StackOk, Wrote, WriteMany;
    p := sp - (|s| + 1);
    WriteStack(View(h.state), sid, low, p, s + [0]);
    var _ := UserWriteString(h, sid, p, s);
  }

  lemma PackFront(ss: seq<seq<byte>>, i: nat)
    requires i < |ss|
    ensures Pack(ss[i..]) == ss[i] + [0] + Pack(ss[i + 1..]) && |Pack(ss[i..])| <= |Pack(ss)|
    decreases i
  {
    assert ss[i..][0] == ss[i] && ss[i..][1..] == ss[i + 1..];
    if i > 0 {
      PackFront(ss, i - 1);
    } else {
      assert ss[0..] == ss;
    }
  }

  /** copy_strings: last string first, so the first one ends up lowest. */
  method CopyStrings(h: Host, sid: SpaceId, top: nat, ss: seq<seq<byte>>, ghost low: nat) returns (sp: nat)
    requires Ready(h, sid, low) && low * PAGE_SIZE + |Pack(ss)| <= top <= STACK_TOP
    modifies h`blocks, h`state, h.Repr
    ensures Ready(h, sid, low) && sp == top - |Pack(ss)| && Wrote(View(old(h.state)), View(h.state), sid, sp, Pack(ss))
  {
    hide MemsValid, Mirrors, Counted, SharedIsCow, EntriesOk, View, StackOk, Wrote, Pack;
    sp := top;
    ghost var a := View(h.state);
    NothingWrote(a, sid, sp);
    var i := |ss|;
    PackNothing(ss);
    while i > 0
      invariant 0 <= i <= |ss| && Ready(h, sid, low) && low * PAGE_SIZE <= sp <= top && sp == top - |Pack(ss[i..])|
      invariant Wrote(a, View(h.state), sid, sp, Pack(ss[i..]))
    {
      ghost var b, above := View(h.state), sp;
      PackFront(ss, i - 1);
      sp := CopyString(h, sid, sp, ss[i - 1], low);
      WroteThen(a, b, View(h.state), sid, above, Pack(ss[i..]), sp, ss[i - 1] + [0]);
      i := i - 1;
    }
    assert ss[0..] == ss;
  }

  lemma PackNothing(ss: seq<seq<byte>>)
    ensures Pack(ss[|ss|..]) == []
  {
  }

  /** user_strlen of a string in the stack region. */
  method UserStrlen(h: Host, sid: SpaceId, p: nat, ghost s: seq<byte>, ghost low: nat) returns (n: nat)
    requires Ready(h, sid, low) && low * PAGE_SIZE <= p && p + |s| + 1 <= STACK_TOP
    requires NulFree(s) && BytesAt(View(h.state), sid, p, |s| + 1) == s + [0]
    modifies h`blocks, h`state, h.Repr
    ensures Ready(h, sid, low) && n == |s| && Wrote(View(old(h.state)), View(h.state), sid, 0, [])
  {
    hide MemsValid, Mirrors, Counted, SharedIsCow, EntriesOk, View, StackOk, Wrote, BytesAt;
    ghost var a := View(h.state);
    NothingWrote(a, sid, 0);
    var i: nat := 0;
    while true
      invariant i <= |s| && Ready(h, sid, low) && Wrote(a, View(h.state), sid, 0, [])
      decreases |s| - i
    {
      ghost var b := View(h.state);
      SameBytes(a, b, sid, 0, [], p, |s| + 1);
      OneOf(b, sid, p, s + [0], i);
      var c := GetByte(h, sid, p + i, low);
      WroteThen(a, b, View(h.state), sid, 0, [], p + i, []);
      EmptyWrote(a, View(h.state), sid, p + i, 0);
      i := i + 1;
      if c == 0 {
        break;
      }
    }
    n := i - 1;
  }

  lemma OneOf(a: map<Slot, Page>, sid: SpaceId, p: nat, s: seq<byte>, i: nat)
    requires BytesAt(a, sid, p, |s|) == s && i < |s|
    ensures BytesAt(a, sid, p + i, 1) == [s[i]]
  {
    hide ByteAt;
    assert BytesAt(a, sid, p, |s|)[i] == s[i];
  }

  // The words put at p take 4 bytes each.
  lemma ToBytesMore(ws: seq<nat>, w: nat)
    ensures ToBytes(ws + [w]) == ToBytes(ws) + ToBytes([w])
  {
    hide ByteOf;
  }

  lemma ToBytesConcat(ws: seq<nat>, vs: seq<nat>)
    ensures ToBytes(ws + vs) == ToBytes(ws) + ToBytes(vs)
  {
    hide ByteOf;
  }

  lemma PartOf(a: map<Slot, Page>, sid: SpaceId, p: nat, s: seq<byte>, t: seq<byte>)
    requires BytesAt(a, sid, p, |s + t|) == s + t
    ensures BytesAt(a, sid, p, |s|) == s && BytesAt(a, sid, p + |s|, |t|) == t
  {
    hide ByteAt;
    forall i | 0 <= i < |s| ensures BytesAt(a, sid, p, |s|)[i] == s[i] {
      assert BytesAt(a, sid, p, |s + t|)[i] == (s + t)[i];
    }
    forall i | 0 <= i < |t| ensures BytesAt(a, sid, p + |s|, |t|)[i] == t[i] {
      assert BytesAt(a, sid, p, |s + t|)[|s| + i] == (s + t)[|s| + i];
    }
  }

  lemma PointersMore(base: nat, ss: seq<seq<byte>>, i: nat)
    requires i < |ss|
    ensures Pointers(base, ss[..i + 1]) == Pointers(base, ss[..i]) + [base + |Pack(ss[..i])|]
    ensures |Pack(ss[..i + 1])| == |Pack(ss[..i])| + |ss[i]| + 1
    decreases i
  {
    if i == 0 {
      assert ss[..1] == [ss[0]] && ss[..0] == [];
      assert ss[..1][1..] == [];
    } else {
      PointersMore(base + |ss[0]| + 1, ss[1..], i - 1);
      assert ss[1..][..i] == ss[..i + 1][1..] && ss[1..][..i - 1] == ss[..i][1..];
    }
  }

  lemma PackSplit(ss: seq<seq<byte>>, i: nat)
    requires i <= |ss|
    ensures Pack(ss) == Pack(ss[..i]) + Pack(ss[i..])
    decreases i
  {
    if i == 0 {
      assert ss[..0] == [] && ss[0..] == ss;
    } else {
      PackSplit(ss[1..], i - 1);
      assert ss[1..][..i - 1] == ss[..i][1..] && ss[1..][i - 1..] == ss[i..];
      assert ss[0] + [0] + (Pack(ss[..i][1..]) + Pack(ss[i..])) == ss[0] + [0] + Pack(ss[..i][1..]) + Pack(ss[i..]);
    }
  }

  /** The argv or envp loop: walk over the strings packed at base and put their addresses at p. */
  method PutPointers(h: Host, sid: SpaceId, p0: nat, base: nat, ss: seq<seq<byte>>, ghost low: nat) returns (p: nat)
    requires Ready(h, sid, low) && low * PAGE_SIZE <= p0 && p0 + 4 * |ss| <= base && base + |Pack(ss)| <= STACK_TOP
    requires (forall s <- ss :: NulFree(s)) && BytesAt(View(h.state), sid, base, |Pack(ss)|) == Pack(ss)
    modifies h`blocks, h`state, h.Repr
    ensures Ready(h, sid, low) && p == p0 + 4 * |ss|
    ensures Wrote(View(old(h.state)), View(h.state), sid, p0, ToBytes(Pointers(base, ss)))
  {
    hide MemsValid, Mirrors, Counted, SharedIsCow, EntriesOk, View, StackOk, Wrote, BytesAt, Pack, Pointers, ToBytes;
    ghost var a := View(h.state);
    NothingWrote(a, sid, p0);
    NoPointers(base, ss);
    p := p0;
    var addr: nat := base;
    for i := 0 to |ss|
      invariant Ready(h, sid, low) && p == p0 + 4 * i && addr == base + |Pack(ss[..i])|
      invariant Wrote(a, View(h.state), sid, p0, ToBytes(Pointers(base, ss[..i])))
    {
      ghost var b := View(h.state);
      PointersMore(base, ss, i);
      Put(h, sid, p, ToBytes([addr]), low);
      WroteThen(a, b, View(h.state), sid, p0, ToBytes(Pointers(base, ss[..i])), p, ToBytes([addr]));
      ToBytesMore(Pointers(base, ss[..i]), addr);
      ghost var c := View(h.state);
      SameBytes(a, c, sid, p0, ToBytes(Pointers(base, ss[..i + 1])), base, |Pack(ss)|);
      StringAt(c, sid, base, ss, i);
      var n := UserStrlen(h, sid, addr, ss[i], low);
      WroteThen(a, c, View(h.state), sid, p0, ToBytes(Pointers(base, ss[..i + 1])), 0, []);
      addr := addr + n + 1;
      p := p + 4;
    }
    assert ss[..|ss|] == ss;
  }

  lemma NoPointers(base: nat, ss: seq<seq<byte>>)
    ensures ToBytes(Pointers(base, ss[..0])) == [] && |Pack(ss[..0])| == 0
  {
  }

  // String i of those packed at base.
  lemma StringAt(a: map<Slot, Page>, sid: SpaceId, base: nat, ss: seq<seq<byte>>, i: nat)
    requires i < |ss| && BytesAt(a, sid, base, |Pack(ss)|) == Pack(ss)
    ensures var p := base + |Pack(ss[..i])|;
            p + |ss[i]| + 1 <= base + |Pack(ss)| && BytesAt(a, sid, p, |ss[i]| + 1) == ss[i] + [0]
  {
    PackSplit(ss, i);
    PackFront(ss, i);
    hide BytesAt, Pack;
    PartOf(a, sid, base, Pack(ss[..i]), Pack(ss[i..]));
    PartOf(a, sid, base + |Pack(ss[..i])|, ss[i] + [0], Pack(ss[i + 1..]));
  }

  // -------------------------------------------------------- the whole stack

  // Room for everything above page low.
  predicate Fits(file: seq<byte>, argv: seq<seq<byte>>, envp: seq<seq<byte>>, low: nat) {
    LayoutOf(file, argv, envp).sp >= low * PAGE_SIZE
  }

  /** From the top down: 8 empty bytes, the file name, the environment and argument strings, the platform on a 16-byte boundary, the
      random bytes right below it, and then the table on the next boundary that leaves it room. */
  lemma LayoutIs(file: seq<byte>, argv: seq<seq<byte>>, envp: seq<seq<byte>>)
    ensures var l := LayoutOf(file, argv, envp);
            var table := 4 * (|argv| + |envp| + 3) + 168;
            && l.file + |file| + 1 == 0xffff_e000 - 8 && l.envp + |Pack(envp)| == l.file && l.argv + |Pack(argv)| == l.envp
            && (l.platform + 5) % 16 == 0 && l.argv - 16 < l.platform + 5 <= l.argv && l.random + 16 == l.platform
            && l.sp % 16 == 0 && l.random - 16 < l.sp + table <= l.random
  {
    hide Pack, AlignStack;
  }

  lemma LayoutFacts(file: seq<byte>, argv: seq<seq<byte>>, envp: seq<seq<byte>>, low: nat)
    requires Fits(file, argv, envp, low)
    ensures var l := LayoutOf(file, argv, envp);
            && low * PAGE_SIZE <= l.sp && l.sp % 16 == 0 && l.sp + 4 * (|argv| + |envp| + 3 + AUX_WORDS) <= l.random
            && l.random + 16 == l.platform && l.platform + 5 <= l.argv && l.argv + |Pack(argv)| == l.envp
            && l.envp + |Pack(envp)| == l.file && l.file + |file| + 1 == STACK_TOP - HOST_WORD
  {
    hide Pack, AlignStack;
  }

  // Nothing has been stored in the stack region below `top`.
  ghost predicate Blank(a: map<Slot, Page>, sid: SpaceId, low: nat, top: int) {
    forall y: nat | low * PAGE_SIZE <= y < top :: ByteAt(a, sid, y) == 0
  }

  ghost predicate StringsThere(a: map<Slot, Page>, sid: SpaceId, l: Layout, file: seq<byte>, argv: seq<seq<byte>>, envp: seq<seq<byte>>,
                               random: seq<byte>)
  {
    && l.argv >= 0 && BytesAt(a, sid, l.argv, |Pack(argv)|) == Pack(argv)
    && l.envp >= 0 && BytesAt(a, sid, l.envp, |Pack(envp)|) == Pack(envp)
    && l.file >= 0 && BytesAt(a, sid, l.file, |file| + 1) == file + [0]
    && l.platform >= 0 && BytesAt(a, sid, l.platform, 5) == PLATFORM + [0]
    && l.random >= 0 && BytesAt(a, sid, l.random, |random|) == random
  }

  lemma StillBlank(a: map<Slot, Page>, b: map<Slot, Page>, sid: SpaceId, low: nat, top: int, addr: nat, vs: seq<byte>)
    requires Wrote(a, b, sid, addr, vs) && Blank(a, sid, low, top)
    ensures addr <= top ==> Blank(b, sid, low, addr)
    ensures top <= addr ==> Blank(b, sid, low, top)
  {
    hide ByteAt;
  }

  // What the first half of the stack set-up leaves: the strings and the random bytes.
  method CopyAll(h: Host, sid: SpaceId, file: seq<byte>, argv: seq<seq<byte>>, envp: seq<seq<byte>>, random: seq<byte>, ghost low: nat)
    returns (l: Layout)
    requires Ready(h, sid, low) && Blank(View(h.state), sid, low, STACK_TOP) && Fits(file, argv, envp, low) && |random| == 16
    modifies h`blocks, h`state, h.Repr
    ensures Ready(h, sid, low) && l == LayoutOf(file, argv, envp).(sp := l.random)
    ensures StringsThere(View(h.state), sid, l, file, argv, envp, random) && Blank(View(h.state), sid, low, l.random)
  {
    hide MemsValid, Mirrors, Counted, SharedIsCow, EntriesOk, View, StackOk, Wrote, BytesAt, Pack, Blank, AlignStack;
    LayoutFacts(file, argv, envp, low);
    ghost var want := LayoutOf(file, argv, envp);
    ghost var a := View(h.state);
    var sp: nat := STACK_TOP - HOST_WORD;
    var fileAddr := CopyString(h, sid, sp, file, low);
    ghost var b := View(h.state);
    var envpAddr := CopyStrings(h, sid, fileAddr, envp, low);
    ghost var c := View(h.state);
    var argvAddr := CopyStrings(h, sid, envpAddr, argv, low);
    ghost var d := View(h.state);
    var platformAddr := CopyString(h, sid, AlignStack(argvAddr), PLATFORM, low);
    ghost var e := View(h.state);
    var randomAddr: nat := platformAddr - 16;
    Put(h, sid, randomAddr, random, low);
    l := Layout(fileAddr, envpAddr, argvAddr, platformAddr, randomAddr, randomAddr);
    StillBlank(a, b, sid, low, STACK_TOP, fileAddr, file + [0]);
    StillBlank(b, c, sid, low, fileAddr, envpAddr, Pack(envp));
    StillBlank(c, d, sid, low, envpAddr, argvAddr, Pack(argv));
    StillBlank(d, e, sid, low, argvAddr, platformAddr, PLATFORM + [0]);
    StillBlank(e, View(h.state), sid, low, platformAddr, randomAddr, random);
    WrittenBack(a, b, sid, fileAddr, file + [0]);
    WrittenBack(b, c, sid, envpAddr, Pack(envp));
    WrittenBack(c, d, sid, argvAddr, Pack(argv));
    WrittenBack(d, e, sid, platformAddr, PLATFORM + [0]);
    WrittenBack(e, View(h.state), sid, randomAddr, random);
    SameBytes(b, c, sid, envpAddr, Pack(envp), fileAddr, |file| + 1);
    SameBytes(c, d, sid, argvAddr, Pack(argv), fileAddr, |file| + 1);
    SameBytes(c, d, sid, argvAddr, Pack(argv), envpAddr, |Pack(envp)|);
    KeepsAbove(d, e, sid, platformAddr, PLATFORM + [0], fileAddr, |file| + 1, envpAddr, |Pack(envp)|, argvAddr, |Pack(argv)|);
    KeepsAbove(e, View(h.state), sid, randomAddr, random, fileAddr, |file| + 1, envpAddr, |Pack(envp)|, argvAddr, |Pack(argv)|);
    SameBytes(e, View(h.state), sid, randomAddr, random, platformAddr, 5);
  }

  lemma KeepsAbove(a: map<Slot, Page>, b: map<Slot, Page>, sid: SpaceId, addr: nat, vs: seq<byte>,
                   x: nat, n: nat, y: nat, m: nat, z: nat, k: nat)
    requires Wrote(a, b, sid, addr, vs) && addr + |vs| <= x && addr + |vs| <= y && addr + |vs| <= z
    ensures BytesAt(b, sid, x, n) == BytesAt(a, sid, x, n) && BytesAt(b, sid, y, m) == BytesAt(a, sid, y, m)
    ensures BytesAt(b, sid, z, k) == BytesAt(a, sid, z, k)
  {
    SameBytes(a, b, sid, addr, vs, x, n);
    SameBytes(a, b, sid, addr, vs, y, m);
    SameBytes(a, b, sid, addr, vs, z, k);
    hide Wrote, BytesAt;
  }

  // A word of zeros where nothing was stored need not be stored.
  lemma ZeroWrote(a: map<Slot, Page>, b: map<Slot, Page>, sid: SpaceId, low: nat, top: int, addr: nat, ws: seq<nat>)
    requires Wrote(a, b, sid, addr, ToBytes(ws)) && Blank(a, sid, low, top)
    requires low * PAGE_SIZE <= addr && addr + 4 * |ws| + 4 <= top
    ensures Wrote(a, b, sid, addr, ToBytes(ws + [0]))
  {
    ToBytesMore(ws, 0);
    assert ToBytes([0]) == [0, 0, 0, 0];
    hide ByteAt, ToBytes;
  }

  // The second half: argc, the two pointer vectors and the auxiliary vector.
  method PutTable(h: Host, sid: SpaceId, l: Layout, argv: seq<seq<byte>>, envp: seq<seq<byte>>, info: Info, ghost low: nat)
    requires Ready(h, sid, low) && l.random >= 0 && Blank(View(h.state), sid, low, l.random)
    requires (forall s <- argv :: NulFree(s)) && forall s <- envp :: NulFree(s)
    requires low * PAGE_SIZE <= l.sp && l.sp + 4 * (|argv| + |envp| + 3 + AUX_WORDS) <= l.random <= l.argv && l.random <= l.envp
    requires l.argv + |Pack(argv)| <= STACK_TOP && BytesAt(View(h.state), sid, l.argv, |Pack(argv)|) == Pack(argv)
    requires l.envp + |Pack(envp)| <= STACK_TOP && BytesAt(View(h.state), sid, l.envp, |Pack(envp)|) == Pack(envp)
    requires l.file >= 0 && l.platform >= 0
    modifies h`blocks, h`state, h.Repr
    ensures Ready(h, sid, low) && Wrote(View(old(h.state)), View(h.state), sid, l.sp, ToBytes(Table(argv, envp, info, l)))
  {
    hide MemsValid, Mirrors, Counted, SharedIsCow, EntriesOk, View, StackOk, Wrote, BytesAt, Pack, Blank, ToBytes, Pointers, Aux;
    ghost var a := View(h.state);
    ghost var sp: nat := l.sp;
    var p: nat := l.sp;
    Put(h, sid, p, ToBytes([|argv|]), low);
    p := p + 4;
    ghost var b := View(h.state);
    SameBytes(a, b, sid, sp, ToBytes([|argv|]), l.argv, |Pack(argv)|);
    p := PutPointers(h, sid, p, l.argv, argv, low);
    ghost var ws := [|argv|] + Pointers(l.argv, argv);
    ToBytesConcat([|argv|], Pointers(l.argv, argv));
    ghost var c := View(h.state);
    WroteThen(a, b, c, sid, sp, ToBytes([|argv|]), sp + 4, ToBytes(Pointers(l.argv, argv)));
    // null terminator, left as the zeros of a fresh page
    p := p + 4;
    ZeroWrote(a, c, sid, low, l.random, sp, ws);
    SameBytes(a, c, sid, sp, ToBytes(ws + [0]), l.envp, |Pack(envp)|);
    p := PutPointers(h, sid, p, l.envp, envp, low);
    ghost var vs := ws + [0] + Pointers(l.envp, envp);
    ToBytesConcat(ws + [0], Pointers(l.envp, envp));
    ghost var d := View(h.state);
    WroteThen(a, c, d, sid, sp, ToBytes(ws + [0]), p - 4 * |envp|, ToBytes(Pointers(l.envp, envp)));
    p := p + 4;
    ZeroWrote(a, d, sid, low, l.random, sp, vs);
    Put(h, sid, p, ToBytes(Aux(info, l.random, l.file, l.platform)), low);
    ToBytesConcat(vs + [0], Aux(info, l.random, l.file, l.platform));
    WroteThen(a, d, View(h.state), sid, sp, ToBytes(vs + [0]), p, ToBytes(Aux(info, l.random, l.file, l.platform)));
  }

  /** The stack-building part of elf_exec, up to the value it gives esp. */
  method BuildStack(h: Host, sid: SpaceId, file: seq<byte>, argv: seq<seq<byte>>, envp: seq<seq<byte>>, random: seq<byte>, info: Info,
                    ghost low: nat) returns (esp: nat)
    requires Ready(h, sid, low) && Blank(View(h.state), sid, low, STACK_TOP) && Fits(file, argv, envp, low) && |random| == 16
    requires (forall s <- argv :: NulFree(s)) && forall s <- envp :: NulFree(s)
    modifies h`blocks, h`state, h.Repr
    ensures Ready(h, sid, low) && esp == LayoutOf(file, argv, envp).sp && low * PAGE_SIZE <= esp
    ensures Built(View(h.state), sid, esp, file, argv, envp, random, info)
  {
    hide MemsValid, Mirrors, Counted, SharedIsCow, EntriesOk, View, StackOk, Wrote, BytesAt, Pack, Blank, ToBytes, Pointers, Aux, Fits, AlignStack;
    LayoutFacts(file, argv, envp, low);
    var l := CopyAll(h, sid, file, argv, envp, random, low);
    var sp := l.sp;
    sp := sp - 4 * (|argv| + 1 + |envp| + 1 + 1);
    sp := sp - 4 * AUX_WORDS;
    sp := AlignStack(sp);
    l := l.(sp := sp);
    ghost var a := View(h.state);
    PutTable(h, sid, l, argv, envp, info, low);
    ghost var t := ToBytes(Table(argv, envp, info, l));
    KeepsAbove(a, View(h.state), sid, sp, t, l.file, |file| + 1, l.envp, |Pack(envp)|, l.argv, |Pack(argv)|);
    KeepsAbove(a, View(h.state), sid, sp, t, l.platform, 5, l.random, 16, l.random, 16);
    WrittenBack(a, View(h.state), sid, sp, t);
    esp := sp;
  }

  /** What exec leaves on the stack, byte by byte. */
  ghost predicate Built(a: map<Slot, Page>, sid: SpaceId, esp: nat, file: seq<byte>, argv: seq<seq<byte>>, envp: seq<seq<byte>>,
                        random: seq<byte>, info: Info)
  {
    var l := LayoutOf(file, argv, envp);
    && StringsThere(a, sid, l, file, argv, envp, random)
    && BytesAt(a, sid, esp, 4 * |Table(argv, envp, info, l)|) == ToBytes(Table(argv, envp, info, l))
  }

  // ------------------------------------------- what the program finds there

  // n characters as the program loads them.
  ghost function Load(a: map<Slot, Page>, sid: SpaceId, x: nat, n: nat): Option<seq<byte>> { ReadMany(a, sid, x, n).1 }

  ghost predicate PointsAt(a: map<Slot, Page>, sid: SpaceId, p: Option<nat>, s: seq<byte>) {
    p.Some? && p.value != 0 && Load(a, sid, p.value, |s| + 1) == Some(s + [0])
  }

  // The words of a vector at x: one for each string, not null and pointing at it with its terminator, and then a null.
  ghost predicate Vector(a: map<Slot, Page>, sid: SpaceId, x: nat, ss: seq<seq<byte>>) {
    && (forall i: nat | i < |ss| :: PointsAt(a, sid, LoadWord(a, sid, x + 4 * i), ss[i]))
    && LoadWord(a, sid, x + 4 * |ss|) == Some(0)
  }

  lemma TableWord(a: map<Slot, Page>, sid: SpaceId, low: nat, esp: nat, ws: seq<nat>, k: nat)
    requires StackOk(a, sid, low) && low * PAGE_SIZE <= esp && esp + 4 * |ws| <= STACK_TOP
    requires BytesAt(a, sid, esp, 4 * |ws|) == ToBytes(ws) && k < |ws| && ws[k] < DWORD
    ensures LoadWord(a, sid, esp + 4 * k) == Some(ws[k])
  {
    hide StackOk, ByteAt, ReadMany, ByteOf;
    ReadStack(a, sid, low, esp + 4 * k, 4);
    DwordRoundTrip(ws, k);
    var b, all := BytesAt(a, sid, esp + 4 * k, 4), BytesAt(a, sid, esp, 4 * |ws|);
    forall j | 0 <= j < 4 ensures b[j] == all[4 * k + j] {}
  }

  lemma PointerIs(base: nat, ss: seq<seq<byte>>, i: nat)
    requires i < |ss|
    ensures Pointers(base, ss)[i] == base + |Pack(ss[..i])| < base + |Pack(ss)|
    decreases i
  {
    if i == 0 {
      assert ss[..0] == [];
    } else {
      PointerIs(base + |ss[0]| + 1, ss[1..], i - 1);
      assert ss[1..][..i - 1] == ss[..i][1..];
    }
  }

  // The part of the table that is one vector.
  lemma VectorThere(a: map<Slot, Page>, sid: SpaceId, low: nat, esp: nat, ws: seq<nat>, k: nat, base: nat, ss: seq<seq<byte>>)
    requires StackOk(a, sid, low) && low > 0 && low * PAGE_SIZE <= esp && esp + 4 * |ws| <= STACK_TOP
    requires BytesAt(a, sid, esp, 4 * |ws|) == ToBytes(ws)
    requires k + |ss| < |ws| && ws[k..k + |ss|] == Pointers(base, ss) && ws[k + |ss|] == 0
    requires low * PAGE_SIZE <= base && base + |Pack(ss)| <= STACK_TOP && BytesAt(a, sid, base, |Pack(ss)|) == Pack(ss)
    ensures Vector(a, sid, esp + 4 * k, ss)
  {
    hide StackOk, BytesAt, ReadMany, Pack, Pointers, ToBytes, LoadWord;
    TableWord(a, sid, low, esp, ws, k + |ss|);
    var x := esp + 4 * k;
    assert LoadWord(a, sid, x + 4 * |ss|) == Some(0);
    forall i: nat | i < |ss|
      ensures PointsAt(a, sid, LoadWord(a, sid, x + 4 * i), ss[i])
    {
      assert ws[k + i] == ws[k..k + |ss|][i];
      PointerIs(base, ss, i);
      StringAt(a, sid, base, ss, i);
      TableWord(a, sid, low, esp, ws, k + i);
      ReadStack(a, sid, low, base + |Pack(ss[..i])|, |ss[i]| + 1);
    }
  }

  /** From esp, 16-aligned, the program reads argc, every argv string and a null, every envp string and a null, and the
      auxiliary vector, which leads to the file name, the platform and the random bytes. */
  lemma WalkStack(a: map<Slot, Page>, sid: SpaceId, low: nat, esp: nat, file: seq<byte>, argv: seq<seq<byte>>, envp: seq<seq<byte>>,
                  random: seq<byte>, info: Info)
    requires StackOk(a, sid, low) && low > 0 && Fits(file, argv, envp, low) && InfoOk(info) && |random| == 16
    requires esp == LayoutOf(file, argv, envp).sp && Built(a, sid, esp, file, argv, envp, random, info)
    ensures esp % 16 == 0 && LoadWord(a, sid, esp) == Some(|argv|)
    ensures Vector(a, sid, esp + 4, argv) && Vector(a, sid, esp + 4 * (|argv| + 2), envp)
    ensures var l := LayoutOf(file, argv, envp);
            && l.random >= 0 && l.file >= 0 && l.platform >= 0
            && (forall k: nat | k < AUX_WORDS ::
                  LoadWord(a, sid, esp + 4 * (|argv| + |envp| + 3) + 4 * k) == Some(Aux(info, l.random, l.file, l.platform)[k]))
            && Load(a, sid, l.file, |file| + 1) == Some(file + [0])
            && Load(a, sid, l.platform, 5) == Some(PLATFORM + [0]) && Load(a, sid, l.random, 16) == Some(random)
  {
    hide StackOk, BytesAt, ReadMany, Pack, Pointers, ToBytes, LoadWord, LayoutOf, Vector, Aux;
    LayoutFacts(file, argv, envp, low);
    var l := LayoutOf(file, argv, envp);
    var ws := Table(argv, envp, info, l);
    var n, m := |argv|, |envp|;
    TableParts(argv, envp, info, l);
    TableWord(a, sid, low, esp, ws, 0);
    VectorThere(a, sid, low, esp, ws, 1, l.argv, argv);
    VectorThere(a, sid, low, esp, ws, n + 2, l.envp, envp);
    AuxFits(info, l.random, l.file, l.platform);
    forall k: nat | k < AUX_WORDS
      ensures LoadWord(a, sid, esp + 4 * (n + m + 3) + 4 * k) == Some(Aux(info, l.random, l.file, l.platform)[k])
    {
      assert ws[n + m + 3 + k] == ws[n + m + 3..][k];
      TableWord(a, sid, low, esp, ws, n + m + 3 + k);
    }
    ReadStack(a, sid, low, l.file, |file| + 1);
    ReadStack(a, sid, low, l.platform, 5);
    ReadStack(a, sid, low, l.random, 16);
  }

  // What a program finds that searches the auxiliary vector at x for a tag, up to the null tag: the word behind it.
  ghost function AuxValue(a: map<Slot, Page>, sid: SpaceId, x: nat, tag: nat): Option<nat>
    decreases STACK_TOP - x
  {
    if x >= STACK_TOP || LoadWord(a, sid, x) == None || LoadWord(a, sid, x) == Some(0) then None
    else if LoadWord(a, sid, x) == Some(tag) then LoadWord(a, sid, x + 4)
    else AuxValue(a, sid, x + 8, tag)
  }

  // The words at x are those of ws.
  ghost predicate WordsAt(a: map<Slot, Page>, sid: SpaceId, x: nat, ws: seq<nat>) {
    forall k: nat | k < |ws| :: LoadWord(a, sid, x + 4 * k) == Some(ws[k])
  }

  lemma WordIs(a: map<Slot, Page>, sid: SpaceId, x: nat, ws: seq<nat>, k: nat)
    requires WordsAt(a, sid, x, ws) && k < |ws|
    ensures LoadWord(a, sid, x + 4 * k) == Some(ws[k])
  {
  }

  // A search that comes past pair i finds pair j.
  lemma {:induction false} AuxFound(a: map<Slot, Page>, sid: SpaceId, x: nat, ws: seq<nat>, i: nat, j: nat)
    requires x + 4 * |ws| <= STACK_TOP && i <= j && 2 * j + 1 < |ws| && ws[2 * j] != 0 && forall m | i <= m < j :: ws[2 * m] != ws[2 * j] && ws[2 * m] != 0
    requires WordsAt(a, sid, x, ws)
    ensures AuxValue(a, sid, x + 8 * i, ws[2 * j]) == Some(ws[2 * j + 1])
    decreases j - i
  {
    hide LoadWord, WordsAt;
    WordIs(a, sid, x, ws, 2 * i);
    WordIs(a, sid, x, ws, 2 * i + 1);
    assert x + 4 * (2 * i) == x + 8 * i && x + 4 * (2 * i + 1) == x + 8 * i + 4;
    if i < j {
      AuxFound(a, sid, x, ws, i + 1, j);
      assert x + 8 * (i + 1) == x + 8 * i + 8;
    }
  }

  // The tags in the order of the vector.
  function TagOf(j: nat): nat {
    match j
    case 0 => 32 case 1 => 33 case 2 => 16 case 3 => 6 case 4 => 17 case 5 => 3 case 6 => 4 case 7 => 5 case 8 => 7 case 9 => 8
    case 10 => 9 case 11 => 11 case 12 => 12 case 13 => 13 case 14 => 14 case 15 => 23 case 16 => 25 case 17 => 26 case 18 => 31
    case 19 => 15 case _ => 0
  }

  // And what stands behind them.
  function ValueOf(i: Info, random: nat, file: nat, platform: nat, j: nat): nat {
    match j
    case 0 => i.sysinfo case 1 => i.vdso case 3 => PAGE_SIZE case 4 => 100 case 5 => i.phdr case 6 => i.phent case 7 => i.phnum
    case 8 => i.base case 10 => i.entry case 16 => random case 18 => file case 19 => platform case _ => 0
  }

  lemma ValueAt(i: Info, random: nat, file: nat, platform: nat, j: nat)
    requires j < 20
    ensures Aux(i, random, file, platform)[2 * j + 1] == ValueOf(i, random, file, platform, j)
  {
  }

  lemma TagsDiffer(m: nat, j: nat)
    requires m < j < 20
    ensures TagOf(m) != TagOf(j) && TagOf(m) != 0 && TagOf(j) != 0
  {
  }

  lemma TagAt(i: Info, random: nat, file: nat, platform: nat, j: nat)
    requires j < 20
    ensures Aux(i, random, file, platform)[2 * j] == TagOf(j)
  {
  }

  lemma AuxTag(a: map<Slot, Page>, sid: SpaceId, x: nat, i: Info, random: nat, file: nat, platform: nat, j: nat)
    requires x + 4 * AUX_WORDS <= STACK_TOP && j < 20 && WordsAt(a, sid, x, Aux(i, random, file, platform))
    ensures AuxValue(a, sid, x, TagOf(j)) == Some(Aux(i, random, file, platform)[2 * j + 1])
  {
    hide LoadWord, WordsAt, AuxValue, Aux, TagOf;
    var ws := Aux(i, random, file, platform);
    TagAt(i, random, file, platform, j);
    if j == 0 { TagsDiffer(0, 1); } else { TagsDiffer(0, j); }
    forall m | 0 <= m < j ensures ws[2 * m] != ws[2 * j] && ws[2 * m] != 0 {
      TagAt(i, random, file, platform, m);
      TagsDiffer(m, j);
    }
    AuxFound(a, sid, x, ws, 0, j);
  }

  // Pair j leads from tag to v.
  lemma AuxLeads(a: map<Slot, Page>, sid: SpaceId, x: nat, i: Info, random: nat, file: nat, platform: nat, j: nat, tag: nat, v: nat)
    requires x + 4 * AUX_WORDS <= STACK_TOP && WordsAt(a, sid, x, Aux(i, random, file, platform))
    requires j < 20 && TagOf(j) == tag && ValueOf(i, random, file, platform, j) == v
    ensures AuxValue(a, sid, x, tag) == Some(v)
  {
    ValueAt(i, random, file, platform, j);
    hide Aux, TagOf, ValueOf, AuxValue, WordsAt;
    AuxTag(a, sid, x, i, random, file, platform, j);
  }

  // By tag: AT_PHDR (3), AT_PHENT (4), AT_PHNUM (5), AT_PAGESZ (6), AT_BASE (7), AT_ENTRY (9), AT_CLKTCK (17), AT_SYSINFO (32) and
  // AT_SYSINFO_EHDR (33) have those values; AT_FLAGS (8), AT_HWCAP (16, 26), the user and group ids (11 to 14) and AT_SECURE
  // (23) are 0.
  ghost predicate AuxNumbers(a: map<Slot, Page>, sid: SpaceId, x: nat, i: Info) {
    && AuxValue(a, sid, x, 3) == Some(i.phdr) && AuxValue(a, sid, x, 4) == Some(i.phent) && AuxValue(a, sid, x, 5) == Some(i.phnum)
    && AuxValue(a, sid, x, 6) == Some(4096) && AuxValue(a, sid, x, 7) == Some(i.base) && AuxValue(a, sid, x, 9) == Some(i.entry)
    && AuxValue(a, sid, x, 17) == Some(100) && AuxValue(a, sid, x, 32) == Some(i.sysinfo) && AuxValue(a, sid, x, 33) == Some(i.vdso)
    && AuxValue(a, sid, x, 8) == AuxValue(a, sid, x, 16) == AuxValue(a, sid, x, 23) == AuxValue(a, sid, x, 26) == Some(0)
    && AuxValue(a, sid, x, 11) == AuxValue(a, sid, x, 12) == AuxValue(a, sid, x, 13) == AuxValue(a, sid, x, 14) == Some(0)
  }

  // The word behind the tag points at those bytes.
  ghost predicate AuxPoints(a: map<Slot, Page>, sid: SpaceId, x: nat, tag: nat, b: seq<byte>) {
    AuxValue(a, sid, x, tag).Some? && Load(a, sid, AuxValue(a, sid, x, tag).value, |b|) == Some(b)
  }

  ghost predicate AuxFinds(a: map<Slot, Page>, sid: SpaceId, x: nat, i: Info, file: seq<byte>, random: seq<byte>) {
    && AuxNumbers(a, sid, x, i)
    && AuxPoints(a, sid, x, 25, random) && AuxPoints(a, sid, x, 31, file + [0]) && AuxPoints(a, sid, x, 15, [105, 54, 56, 54, 0])
  }

  lemma AuxNumbersFound(a: map<Slot, Page>, sid: SpaceId, x: nat, i: Info, r: nat, f: nat, p: nat)
    requires x + 4 * AUX_WORDS <= STACK_TOP && WordsAt(a, sid, x, Aux(i, r, f, p))
    ensures AuxNumbers(a, sid, x, i)
    ensures AuxValue(a, sid, x, 25) == Some(r) && AuxValue(a, sid, x, 31) == Some(f) && AuxValue(a, sid, x, 15) == Some(p)
  {
    hide AuxValue, WordsAt, LoadWord, Aux;
    AuxLeads(a, sid, x, i, r, f, p, 0, 32, i.sysinfo); AuxLeads(a, sid, x, i, r, f, p, 1, 33, i.vdso);
    AuxLeads(a, sid, x, i, r, f, p, 2, 16, 0); AuxLeads(a, sid, x, i, r, f, p, 3, 6, 4096); AuxLeads(a, sid, x, i, r, f, p, 4, 17, 100);
    AuxLeads(a, sid, x, i, r, f, p, 5, 3, i.phdr); AuxLeads(a, sid, x, i, r, f, p, 6, 4, i.phent);
    AuxLeads(a, sid, x, i, r, f, p, 7, 5, i.phnum); AuxLeads(a, sid, x, i, r, f, p, 8, 7, i.base);
    AuxLeads(a, sid, x, i, r, f, p, 9, 8, 0); AuxLeads(a, sid, x, i, r, f, p, 10, 9, i.entry);
    AuxLeads(a, sid, x, i, r, f, p, 11, 11, 0); AuxLeads(a, sid, x, i, r, f, p, 12, 12, 0); AuxLeads(a, sid, x, i, r, f, p, 13, 13, 0);
    AuxLeads(a, sid, x, i, r, f, p, 14, 14, 0); AuxLeads(a, sid, x, i, r, f, p, 15, 23, 0); AuxLeads(a, sid, x, i, r, f, p, 16, 25, r);
    AuxLeads(a, sid, x, i, r, f, p, 17, 26, 0); AuxLeads(a, sid, x, i, r, f, p, 18, 31, f); AuxLeads(a, sid, x, i, r, f, p, 19, 15, p);
  }

  /** What a program finds that searches the vector BuildStack leaves: the numbers above, and behind AT_RANDOM (25), AT_EXECFN (31)
      and AT_PLATFORM (15) the random bytes, the file name and "i686". */
  lemma AuxByTag(a: map<Slot, Page>, sid: SpaceId, low: nat, esp: nat, file: seq<byte>, argv: seq<seq<byte>>, envp: seq<seq<byte>>,
                 random: seq<byte>, info: Info)
    requires StackOk(a, sid, low) && low > 0 && Fits(file, argv, envp, low) && InfoOk(info) && |random| == 16
    requires esp == LayoutOf(file, argv, envp).sp && Built(a, sid, esp, file, argv, envp, random, info)
    ensures AuxFinds(a, sid, esp + 4 * (|argv| + |envp| + 3), info, file, random)
  {
    hide StackOk, Built, Vector, LoadWord, Load, LayoutOf, AuxValue, Aux, AuxNumbers;
    WalkStack(a, sid, low, esp, file, argv, envp, random, info);
    LayoutFacts(file, argv, envp, low);
    var l := LayoutOf(file, argv, envp);
    AuxNumbersFound(a, sid, esp + 4 * (|argv| + |envp| + 3), info, l.random, l.file, l.platform);
    assert PLATFORM + [0] == [105, 54, 56, 54, 0];
  }

  lemma TableParts(argv: seq<seq<byte>>, envp: seq<seq<byte>>, info: Info, l: Layout)
    requires l.file >= 0 && l.envp >= 0 && l.argv >= 0 && l.platform >= 0 && l.random >= 0
    ensures var ws, n, m := Table(argv, envp, info, l), |argv|, |envp|;
            && |ws| == n + m + 3 + AUX_WORDS && ws[0] == n && ws[1..n + 1] == Pointers(l.argv, argv) && ws[n + 1] == 0
            && ws[n + 2..n + m + 2] == Pointers(l.envp, envp) && ws[n + m + 2] == 0
            && ws[n + m + 3..] == Aux(info, l.random, l.file, l.platform)
  {
    hide Pointers, Aux;
  }

  lemma AuxFits(info: Info, random: nat, file: nat, platform: nat)
    requires InfoOk(info) && random < DWORD && file < DWORD && platform < DWORD
    ensures forall k | 0 <= k < AUX_WORDS :: Aux(info, random, file, platform)[k] < DWORD
  {
  }
}
