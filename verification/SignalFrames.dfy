/** Signal frames on the guest stack: receive_signal builds one, rt_sigreturn
    takes it apart, and any nesting of handlers comes back to where it started. */
module SignalFrames {
  import opened Bytes
  import opened Bits
  import opened Dwords
  import opened LazyFlags
  import opened SignalMasks
  import opened GuestMemory
  import opened ForkIsolation
  import opened UserCopy

  datatype Regs = Regs(eax: nat, ebx: nat, ecx: nat, edx: nat, esi: nat, edi: nat, ebp: nat, esp: nat, eip: nat)

  /** What the signal code sees of a task: its CPU, its masks and handlers, and its memory. */
  datatype Task = Task(regs: Regs, f: FlagState, trapno: nat, masks: Masks, handlers: seq<nat>,
                       sid: SpaceId, pretcode: nat, memory: map<Slot, Page>)

  // ------------------------------------------------- struct sigframe_

  const FRAME_WORDS: nat := 183
  const FRAME_SIZE: nat := 732
  const SC_OFFSET: nat := 8

  // Word positions of the fields that are filled in.
  function FrameWord(t: Task, sig: nat, i: nat): nat {
    if i == 0 then t.pretcode
    else if i == 1 then sig
    else if i == 6 then t.regs.edi
    else if i == 7 then t.regs.esi
    else if i == 8 then t.regs.ebp
    else if i == 9 then t.regs.esp
    else if i == 10 then t.regs.ebx
    else if i == 11 then t.regs.edx
    else if i == 12 then t.regs.ecx
    else if i == 13 then t.regs.eax
    else if i == 14 then t.trapno
    else if i == 16 then t.regs.eip
    else if i == 18 then Word(Collapsed(t.f).eflags)
    else if i == 19 then t.regs.esp
    else if i == 22 then t.masks.blocked % DWORD
    else if i == 180 then t.masks.blocked / DWORD
    else if i == 181 then 0x00ad_b858
    else if i == 182 then 0x80cd_0000
    else 0
  }

  function FrameBytes(t: Task, sig: nat): (b: seq<byte>)
    ensures |b| == FRAME_SIZE
  {
    ToBytes(seq(FRAME_WORDS, i requires 0 <= i < FRAME_WORDS => FrameWord(t, sig, i)))
  }

  // sp below esp for one frame, with sp + 4 on a 16-byte boundary, in 32-bit arithmetic.
  function FrameAddress(esp: nat): nat {
    var sp := (esp - FRAME_SIZE) % DWORD;
    var up := (sp + 4) % DWORD;
    (up - up % 16 - 4) % DWORD
  }

  /** receive_signal for a signal with a handler: the state after it, and whether the frame could be written. */
  ghost function Deliver(t: Task, sig: nat): (Task, bool)
    requires |t.handlers| == NUM_SIGS && sig < NUM_SIGS
  {
    var sp := FrameAddress(t.regs.esp);
    var (memory, ok) := WriteMany(t.memory, t.sid, sp, FrameBytes(t, sig));
    (t.(regs := t.regs.(eax := sig, eip := t.handlers[sig], esp := sp), f := Collapsed(t.f),
        masks := Received(t.masks, t.handlers, sig), memory := memory), ok)
  }

  /** sys_rt_sigreturn. It does not look whether the frame could be read; what could not is what the kernel's stack held,
      `stale`. */
  ghost function Sigreturn(t: Task, stale: seq<byte>): Task
    requires |stale| == FRAME_SIZE
  {
    var addr := (t.regs.esp - SC_OFFSET) % DWORD;
    var got := ReadPrefix(t.memory, t.sid, addr, FRAME_SIZE);
    Resumed(t.(memory := ReadMany(t.memory, t.sid, addr, FRAME_SIZE).0), got + stale[|got|..])
  }

  function Resumed(t: Task, b: seq<byte>): Task
    requires |b| == FRAME_SIZE
  {
    t.(regs := Regs(WordAt(b, 13), WordAt(b, 10), WordAt(b, 12), WordAt(b, 11), WordAt(b, 7), WordAt(b, 6), WordAt(b, 8),
                    WordAt(b, 9), WordAt(b, 16)),
       f := Collapsed(t.f).(eflags := FromWord(WordAt(b, 18))),
       masks := MaskSet(t.masks, SIG_SETMASK, WordAt(b, 180) * DWORD + WordAt(b, 22)))
  }

  // --------------------------------------------------- one frame, there and back

  predicate RegsOk(r: Regs) {
    r.eax < DWORD && r.ebx < DWORD && r.ecx < DWORD && r.edx < DWORD && r.esi < DWORD && r.edi < DWORD && r.ebp < DWORD
    && r.esp < DWORD && r.eip < DWORD
  }

  predicate TaskOk(t: Task) {
    RegsOk(t.regs) && Wf(t.f) && t.masks.blocked < DWORD * DWORD && |t.handlers| == NUM_SIGS
  }

  /** What a handler must not disturb: registers, stack and instruction pointer, the flags other than CF and OF, and the mask. */
  datatype Context = Context(regs: Regs, zf: bool, sf: bool, pf: bool, af: bool, tf: bit, df: bit, iopl: nat, rest: nat, blocked: nat)

  function ContextOf(t: Task): Context {
    Context(t.regs, ZF(t.f), SF(t.f), PF(t.f), AF(t.f), t.f.eflags.tf, t.f.eflags.df, t.f.eflags.iopl, t.f.eflags.rest, t.masks.blocked)
  }

  lemma FrameWordIs(t: Task, sig: nat, i: nat)
    requires i < FRAME_WORDS && FrameWord(t, sig, i) < DWORD
    ensures WordAt(FrameBytes(t, sig), i) == FrameWord(t, sig, i)
  {
    hide FrameWord;
    DwordRoundTrip(seq(FRAME_WORDS, i requires 0 <= i < FRAME_WORDS => FrameWord(t, sig, i)), i);
  }

  lemma FrameWordAt(t: Task, sig: nat, i: nat)
    requires TaskOk(t) && (6 <= i <= 13 || i == 16 || i == 18 || i == 22 || i == 180)
    ensures WordAt(FrameBytes(t, sig), i) == FrameWord(t, sig, i)
  {
    WordFits(Collapsed(t.f).eflags);
    hide Word, Collapsed, FrameBytes;
    FrameWordIs(t, sig, i);
  }

  lemma MaskIs(m: Masks, blocked: nat)
    ensures MaskSet(m, SIG_SETMASK, blocked).blocked == blocked
  {
    hide Union, Common, Minus;
  }

  // The flags of the interrupted code, read back from their word.
  lemma FlagsRestored(f: FlagState, g: FlagState)
    requires Wf(f)
    ensures var r := Collapsed(g).(eflags := FromWord(Word(Collapsed(f).eflags)));
            && ZF(r) == ZF(f) && SF(r) == SF(f) && PF(r) == PF(f) && AF(r) == AF(f)
            && r.eflags.tf == f.eflags.tf && r.eflags.df == f.eflags.df && r.eflags.iopl == f.eflags.iopl && r.eflags.rest == f.eflags.rest
            && r.cf == g.cf && r.of == g.of && (Wf(g) ==> Wf(r))
  {
    LazyFlags.WordRoundTrip(Collapsed(f).eflags);
    hide Word, FromWord, Bit, Bitwise, BitSum;
  }

  lemma ResumedRegs(t: Task, sig: nat, u: Task)
    requires TaskOk(t)
    ensures Resumed(u, FrameBytes(t, sig)).regs == t.regs
  {
    hide FrameBytes, Word, FromWord, Bit, Bitwise, BitSum, Wf, Collapsed;
    FrameWordAt(t, sig, 6); FrameWordAt(t, sig, 7); FrameWordAt(t, sig, 8); FrameWordAt(t, sig, 9); FrameWordAt(t, sig, 10);
    FrameWordAt(t, sig, 11); FrameWordAt(t, sig, 12); FrameWordAt(t, sig, 13); FrameWordAt(t, sig, 16);
  }

  lemma ResumedFlags(t: Task, sig: nat, u: Task)
    requires TaskOk(t)
    ensures Resumed(u, FrameBytes(t, sig)).f == Collapsed(u.f).(eflags := FromWord(Word(Collapsed(t.f).eflags)))
  {
    hide FrameBytes, Word, FromWord, Wf, Collapsed, MaskSet;
    FrameWordAt(t, sig, 18);
  }

  lemma ResumedMask(t: Task, sig: nat, u: Task)
    requires TaskOk(t)
    ensures Resumed(u, FrameBytes(t, sig)).masks.blocked == t.masks.blocked
  {
    hide FrameBytes, Word, FromWord, Wf, Collapsed, MaskSet;
    var b := FrameBytes(t, sig);
    assert WordAt(b, 22) == t.masks.blocked % DWORD by { FrameWordAt(t, sig, 22); }
    assert WordAt(b, 180) == t.masks.blocked / DWORD by { FrameWordAt(t, sig, 180); }
    hide WordAt;
    MaskIs(u.masks, WordAt(b, 180) * DWORD + WordAt(b, 22));
  }

  lemma ResumedRest(u: Task, b: seq<byte>)
    requires |b| == FRAME_SIZE
    ensures Resumed(u, b).memory == u.memory && Resumed(u, b).handlers == u.handlers
  {
    hide FromWord, Collapsed, MaskSet;
  }

  /** rt_sigreturn on the frame of an interrupted task t brings t's context back, whatever the handler left
      in the registers, the flags and the masks; only CF and OF stay the handler's. */
  lemma ResumedRestores(t: Task, sig: nat, u: Task)
    requires TaskOk(t) && TaskOk(u)
    ensures var r := Resumed(u, FrameBytes(t, sig));
            && ContextOf(r) == ContextOf(t)
            && r.f.cf == u.f.cf && r.f.of == u.f.of
            && r.memory == u.memory && r.handlers == u.handlers && TaskOk(r)
  {
    hide Resumed, FrameBytes, Word, FromWord, Bit, Bitwise, BitSum, Wf, ZF, SF, PF, AF, Collapsed;
    ResumedRegs(t, sig, u);
    ResumedFlags(t, sig, u);
    ResumedMask(t, sig, u);
    ResumedRest(u, FrameBytes(t, sig));
    FlagsRestored(t.f, u.f);
  }

  /** CF and OF come back exactly if the handler returns with the values the interrupted code had: sigreturn stores
      eflags but does not expand it into the cf and of bytes. */
  lemma CarryRestoredIff(t: Task, sig: nat, u: Task)
    requires TaskOk(t) && TaskOk(u)
    ensures var r := Resumed(u, FrameBytes(t, sig));
            (r.f.cf == t.f.cf && r.f.of == t.f.of) <==> (u.f.cf == t.f.cf && u.f.of == t.f.of)
  {
    ResumedRestores(t, sig, u);
    hide FrameBytes, Resumed;
  }

  /** The input: a handler that returns with the other CF leaves it to the interrupted code. */
  lemma CarryLost(t: Task, sig: nat, u: Task)
    requires TaskOk(t) && TaskOk(u) && u.f == t.f.(cf := !t.f.cf)
    ensures Resumed(u, FrameBytes(t, sig)).f.cf != t.f.cf
  {
    ResumedRestores(t, sig, u);
    hide FrameBytes, Resumed;
  }

  // -------------------------------------------------- frames in memory

  // The bytes of b from the saved context on are in memory at addr; the two words before it, which the handler's ret and
  // the pop after it consume, are mapped.
  ghost predicate Intact(a: map<Slot, Page>, sid: SpaceId, addr: nat, b: seq<byte>) {
    && (forall i | 0 <= i < |b| :: ReadPage(a, sid, At(addr, i)).Some?)
    && (forall i | SC_OFFSET <= i < |b| :: ReadPage(a, sid, At(addr, i)) == Some(b[i]))
  }

  lemma FrameAddressFacts(esp: nat)
    requires FRAME_SIZE + 16 <= esp < DWORD
    ensures var sp := FrameAddress(esp);
            (sp + 4) % 16 == 0 && sp + FRAME_SIZE <= esp && esp < sp + FRAME_SIZE + 16
  {
  }

  // What is read back: the context as it was stored, behind two words of which nothing is known.
  lemma IntactReads(a: map<Slot, Page>, sid: SpaceId, addr: nat, b: seq<byte>) returns (c: seq<byte>)
    requires addr < ADDR_SPACE && Intact(a, sid, addr, b)
    ensures ReadMany(a, sid, addr, |b|) == (a, Some(c)) && |c| == |b|
    ensures forall i | SC_OFFSET <= i < |b| :: c[i] == b[i]
  {
    c := seq(|b|, i requires 0 <= i < |b| => ReadPage(a, sid, At(addr, i)).value);
    ReadAll(a, sid, addr, c);
  }

  // rt_sigreturn uses nothing before the saved context.
  lemma ResumedSame(t: Task, b: seq<byte>, c: seq<byte>)
    requires |b| == |c| == FRAME_SIZE && forall i | SC_OFFSET <= i < |b| :: c[i] == b[i]
    ensures Resumed(t, c) == Resumed(t, b)
  {
    forall i | 2 <= i < FRAME_WORDS ensures WordAt(c, i) == WordAt(b, i) {}
    hide WordAt, FromWord, Collapsed, MaskSet;
  }

  lemma WrittenIntact(a: map<Slot, Page>, sid: SpaceId, addr: nat, b: seq<byte>)
    requires addr < ADDR_SPACE && |b| <= ADDR_SPACE && WriteMany(a, sid, addr, b).1
    ensures Intact(WriteMany(a, sid, addr, b).0, sid, addr, b)
  {
    forall i | 0 <= i < |b| ensures ReadPage(WriteMany(a, sid, addr, b).0, sid, At(addr, i)) == Some(b[i]) {
      WrittenBytes(a, sid, addr, b, i);
    }
  }

  // A write below a stored context leaves it alone.
  lemma WriteBelowIntact(a: map<Slot, Page>, sid: SpaceId, addr: nat, b: seq<byte>, low: nat, vs: seq<byte>)
    requires low + |vs| <= addr + SC_OFFSET && addr + |b| <= ADDR_SPACE && Intact(a, sid, addr, b)
    requires low < ADDR_SPACE && addr < ADDR_SPACE
    ensures Intact(WriteMany(a, sid, low, vs).0, sid, addr, b)
  {
    var n := WriteMany(a, sid, low, vs).0;
    forall i | 0 <= i < |b| ensures ReadPage(n, sid, At(addr, i)).Some? {
      WriteManyMapped(a, sid, low, vs, At(addr, i));
    }
    forall i | SC_OFFSET <= i < |b| ensures ReadPage(n, sid, At(addr, i)) == Some(b[i]) {
      forall j | 0 <= j < |vs| ensures At(low, j) != At(addr, i) {}
      WriteManyKeeps(a, sid, low, vs, At(addr, i));
    }
  }

  // Mapped bytes stay mapped.
  lemma {:induction false} WriteManyMapped(a: map<Slot, Page>, sid: SpaceId, addr: nat, vs: seq<byte>, x: nat)
    requires addr < ADDR_SPACE && x < ADDR_SPACE && ReadPage(a, sid, x).Some?
    ensures ReadPage(WriteMany(a, sid, addr, vs).0, sid, x).Some?
    decreases |vs|
  {
    if vs != [] {
      var b := GrowPages(a, sid, addr / PAGE_SIZE);
      assert ReadPage(b, sid, x).Some?;
      if Writable(b, sid, addr) {
        WriteOneMapped(b, sid, addr, vs[0], x);
        WriteManyMapped(WritePage(b, sid, addr, vs[0]), sid, At(addr, 1), vs[1..], x);
      }
    }
  }

  lemma WriteOneMapped(a: map<Slot, Page>, sid: SpaceId, addr: nat, v: byte, x: nat)
    requires Writable(a, sid, addr) && ReadPage(a, sid, x).Some?
    ensures ReadPage(WritePage(a, sid, addr, v), sid, x).Some?
  {
  }

  // ------------------------------------------------ what a handler finds

  // A word of what was written, as a program loads it.
  lemma WordLoaded(a: map<Slot, Page>, sid: SpaceId, sp: nat, b: seq<byte>, i: nat)
    requires sp < ADDR_SPACE && |b| <= ADDR_SPACE && 4 * i + 4 <= |b| && WriteMany(a, sid, sp, b).1
    ensures LoadWord(WriteMany(a, sid, sp, b).0, sid, At(sp, 4 * i)) == Some(WordAt(b, i))
  {
    hide WriteMany, ReadMany, ReadPage;
    var m, w := WriteMany(a, sid, sp, b).0, b[4 * i..4 * i + 4];
    assert WordAt(w, 0) == WordAt(b, i);
    hide WordAt;
    forall j | 0 <= j < 4 ensures ReadPage(m, sid, At(At(sp, 4 * i), j)) == Some(w[j]) {
      WrittenBytes(a, sid, sp, b, 4 * i + j);
      AtAt(sp, 4 * i, j);
    }
    assert At(sp, 4 * i) < ADDR_SPACE;
    hide At;
    ReadAll(m, sid, At(sp, 4 * i), w);
  }

  lemma AtAt(x: nat, i: nat, j: nat)
    ensures At(At(x, i), j) == At(x, i + j)
  {
  }

  lemma AddressFits(esp: nat)
    ensures FrameAddress(esp) < ADDR_SPACE
  {
  }

  // The word `offset` bytes above esp is w.
  ghost predicate OnStack(n: Task, offset: nat, w: nat) { LoadWord(n.memory, n.sid, At(n.regs.esp, offset)) == Some(w) }

  lemma FrameWordLoaded(t: Task, sig: nat, i: nat)
    requires sig < NUM_SIGS && |t.handlers| == NUM_SIGS && Deliver(t, sig).1 && i < FRAME_WORDS && FrameWord(t, sig, i) < DWORD
    ensures OnStack(Deliver(t, sig).0, 4 * i, FrameWord(t, sig, i))
  {
    hide FrameBytes, FrameWord, FrameAddress, WordAt, WriteMany, LoadWord, Deliver;
    DeliverParts(t, sig);
    AddressFits(t.regs.esp);
    FrameWordIs(t, sig, i);
    WordLoaded(t.memory, t.sid, FrameAddress(t.regs.esp), FrameBytes(t, sig), i);
  }

  // struct sigframe_, at the offsets of its members: the return address and the signal number; struct sigcontext_ with the
  // interrupted registers; the rest of the mask; and the return code, pop %eax, mov $173, %eax, int $0x80.
  ghost predicate FrameOf(n: Task, t: Task, sig: nat) {
    && OnStack(n, 0, t.pretcode) && OnStack(n, 4, sig)
    && OnStack(n, 24, t.regs.edi) && OnStack(n, 28, t.regs.esi) && OnStack(n, 32, t.regs.ebp) && OnStack(n, 36, t.regs.esp)
    && OnStack(n, 40, t.regs.ebx) && OnStack(n, 44, t.regs.edx) && OnStack(n, 48, t.regs.ecx) && OnStack(n, 52, t.regs.eax)
    && OnStack(n, 56, t.trapno) && OnStack(n, 64, t.regs.eip) && OnStack(n, 72, Word(Collapsed(t.f).eflags))
    && OnStack(n, 76, t.regs.esp) && OnStack(n, 88, t.masks.blocked % 0x1_0000_0000)
    && OnStack(n, 720, t.masks.blocked / 0x1_0000_0000) && OnStack(n, 724, 0x00ad_b858) && OnStack(n, 728, 0x80cd_0000)
  }

  /** What a handler finds when it starts: its signal number in eax and as its argument above the return address, which is the vdso's
      __kernel_rt_sigreturn, and the state it interrupted in the frame; all other registers are as they were. */
  lemma HandlerFinds(t: Task, sig: nat)
    requires TaskOk(t) && sig < NUM_SIGS && t.pretcode < DWORD && t.trapno < DWORD && Deliver(t, sig).1
    ensures FrameOf(Deliver(t, sig).0, t, sig)
  {
    FrameWordsFit(t, sig);
    FrameWords(t, sig);
    hide OnStack, Word, Collapsed, Deliver, FrameWord;
    FrameWordLoaded(t, sig, 0); FrameWordLoaded(t, sig, 1); FrameWordLoaded(t, sig, 6); FrameWordLoaded(t, sig, 7);
    FrameWordLoaded(t, sig, 8); FrameWordLoaded(t, sig, 9); FrameWordLoaded(t, sig, 10); FrameWordLoaded(t, sig, 11);
    FrameWordLoaded(t, sig, 12); FrameWordLoaded(t, sig, 13); FrameWordLoaded(t, sig, 14);
    FrameWordLoaded(t, sig, 16); FrameWordLoaded(t, sig, 18); FrameWordLoaded(t, sig, 19);
    FrameWordLoaded(t, sig, 22); FrameWordLoaded(t, sig, 180); FrameWordLoaded(t, sig, 181);
    FrameWordLoaded(t, sig, 182);
  }

  lemma FrameWords(t: Task, sig: nat)
    ensures FrameWord(t, sig, 0) == t.pretcode && FrameWord(t, sig, 1) == sig
    ensures FrameWord(t, sig, 6) == t.regs.edi && FrameWord(t, sig, 7) == t.regs.esi && FrameWord(t, sig, 8) == t.regs.ebp
    ensures FrameWord(t, sig, 9) == t.regs.esp && FrameWord(t, sig, 10) == t.regs.ebx && FrameWord(t, sig, 11) == t.regs.edx
    ensures FrameWord(t, sig, 12) == t.regs.ecx && FrameWord(t, sig, 13) == t.regs.eax && FrameWord(t, sig, 14) == t.trapno
    ensures FrameWord(t, sig, 16) == t.regs.eip && FrameWord(t, sig, 18) == Word(Collapsed(t.f).eflags)
    ensures FrameWord(t, sig, 19) == t.regs.esp && FrameWord(t, sig, 22) == t.masks.blocked % DWORD
    ensures FrameWord(t, sig, 180) == t.masks.blocked / DWORD && FrameWord(t, sig, 181) == 0x00ad_b858
    ensures FrameWord(t, sig, 182) == 0x80cd_0000
  {
    hide Word, Collapsed;
  }

  lemma FrameWordsFit(t: Task, sig: nat)
    requires TaskOk(t) && sig < NUM_SIGS && t.pretcode < DWORD && t.trapno < DWORD
    ensures forall i | 0 <= i < FRAME_WORDS :: FrameWord(t, sig, i) < DWORD
  {
    WordFits(Collapsed(t.f).eflags);
    hide Word, Collapsed;
  }

  /** The registers and the mask a handler starts with. */
  lemma HandlerStarts(t: Task, sig: nat)
    requires sig < NUM_SIGS && |t.handlers| == NUM_SIGS
    ensures var n := Deliver(t, sig).0;
            && n.regs == t.regs.(eax := sig, eip := t.handlers[sig], esp := FrameAddress(t.regs.esp))
            && n.f == Collapsed(t.f) && n.handlers == t.handlers && n.sid == t.sid
            && (forall i | 0 <= i < NUM_SIGS :: Has(n.masks.blocked, i) <==> Has(t.masks.blocked, i) || (i == sig && Handled(t.handlers, i)))
  {
    hide FrameBytes, WriteMany, FrameAddress, Collapsed, Has, Union, Minus, SignalMasks.Only, SignalAction;
    forall i | 0 <= i < NUM_SIGS
      ensures Has(Deliver(t, sig).0.masks.blocked, i) <==> Has(t.masks.blocked, i) || (i == sig && Handled(t.handlers, i))
    {
      ActionIs(t.handlers, i);
      BitFacts(t.masks.blocked, SignalMasks.Only(sig), sig, i);
    }
  }

  // ------------------------------------------------------ nested handlers

  // One interrupted activation: the state when the signal came, and where its frame is.
  datatype Activation = Activation(addr: nat, task: Task, sig: nat)

  datatype Machine = Machine(task: Task, stack: seq<Activation>)

  datatype Step =
    | Interrupt(sig: nat)          // receive_signal with a handler
    | Work(task: Task)             // anything the handler, or the main program, does
    | Return(stale: seq<byte>)     // rt_sigreturn

  ghost predicate FramesIntact(a: map<Slot, Page>, sid: SpaceId, stack: seq<Activation>) {
    forall k | 0 <= k < |stack| :: Intact(a, sid, stack[k].addr, FrameBytes(stack[k].task, stack[k].sig))
  }

  /** Frames are aligned as the ABI asks, each below the context of the one before: it may lie over its first two words. */
  ghost predicate Placed(stack: seq<Activation>) {
    && (forall k | 0 <= k < |stack| :: (stack[k].addr + 4) % 16 == 0 && stack[k].addr + FRAME_SIZE <= ADDR_SPACE)
    && (forall j, k | 0 <= j < k < |stack| :: stack[k].addr + FRAME_SIZE <= stack[j].addr + SC_OFFSET)
  }

  /** The live frames are in place and hold what was stored. */
  ghost predicate Inv(m: Machine) {
    && TaskOk(m.task)
    && (forall k | 0 <= k < |m.stack| :: TaskOk(m.stack[k].task) && m.stack[k].task.sid == m.task.sid)
    && Placed(m.stack)
    && FramesIntact(m.task.memory, m.task.sid, m.stack)
  }

  ghost predicate StepOk(m: Machine, step: Step) {
    match step
    case Interrupt(sig) =>
      // the stack pointer is at or below the live contexts, with room for one more frame, and that can be written
      && sig < NUM_SIGS && |m.task.handlers| == NUM_SIGS && m.task.handlers[sig] < DWORD
      && FRAME_SIZE + 16 <= m.task.regs.esp < DWORD && (m.stack != [] ==> m.task.regs.esp <= m.stack[|m.stack| - 1].addr + SC_OFFSET)
      && Deliver(m.task, sig).1
    case Work(t) => TaskOk(t) && t.sid == m.task.sid && FramesIntact(t.memory, t.sid, m.stack)
    // the handler's ret and the vdso's pop took the two words below the saved context
    case Return(stale) => |stale| == FRAME_SIZE && m.stack != [] && m.task.regs.esp == m.stack[|m.stack| - 1].addr + SC_OFFSET
  }

  ghost function Next(m: Machine, step: Step): Machine
    requires StepOk(m, step)
  {
    match step
    case Interrupt(sig) =>
      Machine(Deliver(m.task, sig).0, m.stack + [Activation(FrameAddress(m.task.regs.esp), m.task, sig)])
    case Work(t) => m.(task := t)
    case Return(stale) => Machine(Sigreturn(m.task, stale), m.stack[..|m.stack| - 1])
  }

  lemma DeliverOk(t: Task, sig: nat)
    requires TaskOk(t) && sig < NUM_SIGS && t.handlers[sig] < DWORD
    ensures TaskOk(Deliver(t, sig).0)
  {
    assert Received(t.masks, t.handlers, sig).blocked < DWORD * DWORD by { Word64(); }
    hide Bit, Bitwise, BitSum, Pow2, FrameBytes;
  }

  lemma Word64()
    ensures Pow2(64) == DWORD * DWORD
  {
    assert Pow2(4) == 16 && Pow2(8) == 16 * Pow2(4) && Pow2(12) == 16 * Pow2(8) && Pow2(16) == 16 * Pow2(12);
    assert Pow2(20) == 16 * Pow2(16) && Pow2(24) == 16 * Pow2(20) && Pow2(28) == 16 * Pow2(24) && Pow2(32) == 16 * Pow2(28);
    assert Pow2(36) == 16 * Pow2(32) && Pow2(40) == 16 * Pow2(36) && Pow2(44) == 16 * Pow2(40) && Pow2(48) == 16 * Pow2(44);
    assert Pow2(52) == 16 * Pow2(48) && Pow2(56) == 16 * Pow2(52) && Pow2(60) == 16 * Pow2(56) && Pow2(64) == 16 * Pow2(60);
  }

  // The parts of the machine after a delivery that later steps look at.
  lemma DeliverParts(t: Task, sig: nat)
    requires |t.handlers| == NUM_SIGS && sig < NUM_SIGS
    ensures var (n, ok) := Deliver(t, sig);
            && n.sid == t.sid && n.regs.esp == FrameAddress(t.regs.esp)
            && (n.memory, ok) == WriteMany(t.memory, t.sid, FrameAddress(t.regs.esp), FrameBytes(t, sig))
  {
    hide FrameBytes, FrameAddress, WriteMany, Collapsed, Received;
  }

  lemma FramesKept(a: map<Slot, Page>, sid: SpaceId, stack: seq<Activation>, low: nat, vs: seq<byte>)
    requires FramesIntact(a, sid, stack)
    requires low < ADDR_SPACE
    requires forall k | 0 <= k < |stack| :: low + |vs| <= stack[k].addr + SC_OFFSET && stack[k].addr + FRAME_SIZE <= ADDR_SPACE
    ensures FramesIntact(WriteMany(a, sid, low, vs).0, sid, stack)
  {
    forall k | 0 <= k < |stack|
      ensures Intact(WriteMany(a, sid, low, vs).0, sid, stack[k].addr, FrameBytes(stack[k].task, stack[k].sig))
    {
      hide FrameBytes, Intact, WriteMany;
      WriteBelowIntact(a, sid, stack[k].addr, FrameBytes(stack[k].task, stack[k].sig), low, vs);
    }
  }

  // The newest frame is the lowest.
  lemma TopIsLowest(m: Machine, k: nat)
    requires Placed(m.stack) && k < |m.stack|
    ensures m.stack[|m.stack| - 1].addr <= m.stack[k].addr
  {
  }

  lemma InterruptKeeps(m: Machine, sig: nat)
    requires Inv(m) && StepOk(m, Interrupt(sig))
    ensures Inv(Next(m, Interrupt(sig)))
  {
    hide FrameBytes, FrameAddress, TaskOk, WriteMany, Intact, Deliver, FramesIntact, Placed;
    var n := Next(m, Interrupt(sig));
    var sp := FrameAddress(m.task.regs.esp);
    var b := FrameBytes(m.task, sig);
    FrameAddressFacts(m.task.regs.esp);
    DeliverOk(m.task, sig);
    DeliverParts(m.task, sig);
    forall k | 0 <= k < |m.stack|
      ensures sp + FRAME_SIZE <= m.stack[k].addr + SC_OFFSET && m.stack[k].addr + FRAME_SIZE <= ADDR_SPACE
    {
      TopIsLowest(m, k);
      PlacedAt(m.stack, k);
    }
    FramesKept(m.task.memory, m.task.sid, m.stack, sp, b);
    WrittenIntact(m.task.memory, m.task.sid, sp, b);
    PlacedMore(m.stack, Activation(sp, m.task, sig));
    FramesMore(n.task.memory, m.task.sid, m.stack, Activation(sp, m.task, sig));
  }

  lemma PlacedAt(stack: seq<Activation>, k: nat)
    requires Placed(stack) && k < |stack|
    ensures stack[k].addr + FRAME_SIZE <= ADDR_SPACE
  {
  }

  lemma PlacedMore(stack: seq<Activation>, a: Activation)
    requires Placed(stack) && (a.addr + 4) % 16 == 0 && a.addr + FRAME_SIZE <= ADDR_SPACE
    requires forall k | 0 <= k < |stack| :: a.addr + FRAME_SIZE <= stack[k].addr + SC_OFFSET
    ensures Placed(stack + [a])
  {
  }

  lemma FramesMore(a: map<Slot, Page>, sid: SpaceId, stack: seq<Activation>, top: Activation)
    requires FramesIntact(a, sid, stack) && Intact(a, sid, top.addr, FrameBytes(top.task, top.sig))
    ensures FramesIntact(a, sid, stack + [top])
  {
    hide FrameBytes, Intact;
  }

  // rt_sigreturn reads the frame it finds 8 bytes below the stack pointer, whatever has become of its first two words.
  lemma FrameFound(t: Task, addr: nat, b: seq<byte>, stale: seq<byte>)
    requires |stale| == FRAME_SIZE
    requires t.regs.esp == addr + SC_OFFSET && t.regs.esp < DWORD && |b| == FRAME_SIZE && Intact(t.memory, t.sid, addr, b)
    ensures Sigreturn(t, stale) == Resumed(t, b)
  {
    hide Intact, Resumed, ReadMany;
    assert (t.regs.esp - SC_OFFSET) % DWORD == addr;
    var c := IntactReads(t.memory, t.sid, addr, b);
    PrefixIsAll(t.memory, t.sid, addr, FRAME_SIZE);
    hide ReadPrefix;
    SigreturnOn(t, stale, c);
    ResumedSame(t, b, c);
  }

  lemma SigreturnOn(t: Task, stale: seq<byte>, c: seq<byte>)
    requires |stale| == |c| == FRAME_SIZE
    requires ReadPrefix(t.memory, t.sid, (t.regs.esp - SC_OFFSET) % DWORD, FRAME_SIZE) == c
    requires ReadMany(t.memory, t.sid, (t.regs.esp - SC_OFFSET) % DWORD, FRAME_SIZE).0 == t.memory
    ensures Sigreturn(t, stale) == Resumed(t, c)
  {
    hide Resumed, ReadPrefix, ReadMany;
    assert c + stale[FRAME_SIZE..] == c;
    assert t.(memory := t.memory) == t;
  }

  /** A return finds the newest frame and brings back the context it interrupted; CF and OF stay the handler's. */
  lemma ReturnRestores(m: Machine, stale: seq<byte>)
    requires Inv(m) && StepOk(m, Return(stale))
    ensures var n := Next(m, Return(stale));
            var top := m.stack[|m.stack| - 1];
            && Inv(n) && n.stack == m.stack[..|m.stack| - 1]
            && ContextOf(n.task) == ContextOf(top.task)
            && n.task.memory == m.task.memory
            && n.task.f.cf == m.task.f.cf && n.task.f.of == m.task.f.of
  {
    hide FrameBytes, ContextOf, Resumed, Intact, Sigreturn, Placed;
    var top := m.stack[|m.stack| - 1];
    assert m.task.regs.esp < DWORD;
    FrameFound(m.task, top.addr, FrameBytes(top.task, top.sig), stale);
    hide TaskOk;
    ResumedRestores(top.task, top.sig, m.task);
    ResumedSid(m.task, FrameBytes(top.task, top.sig));
    PlacedLess(m.stack);
  }

  lemma PlacedLess(stack: seq<Activation>)
    requires Placed(stack) && stack != []
    ensures Placed(stack[..|stack| - 1])
  {
  }

  lemma ResumedSid(t: Task, b: seq<byte>)
    requires |b| == FRAME_SIZE
    ensures Resumed(t, b).sid == t.sid
  {
  }

  lemma StepKeeps(m: Machine, step: Step)
    requires Inv(m) && StepOk(m, step)
    ensures Inv(Next(m, step))
    ensures Next(m, step).stack == match step
            case Interrupt(sig) => m.stack + [Activation(FrameAddress(m.task.regs.esp), m.task, sig)]
            case Work(_) => m.stack
            case Return(_) => m.stack[..|m.stack| - 1]
    ensures step.Work? ==> Next(m, step).task == step.task
  {
    match step {
      case Interrupt(sig) => InterruptKeeps(m, sig);
      case Work(t) =>
      case Return(stale) => ReturnRestores(m, stale);
    }
    hide TaskOk, FramesIntact, Sigreturn, Deliver;
  }

  ghost predicate RunOk(m: Machine, steps: seq<Step>, depth: nat)
    decreases |steps|
  {
    |m.stack| >= depth && (steps == [] || (StepOk(m, steps[0]) && RunOk(Next(m, steps[0]), steps[1..], depth)))
  }

  ghost function Run(m: Machine, steps: seq<Step>, depth: nat): Machine
    requires RunOk(m, steps, depth)
    decreases |steps|
  {
    if steps == [] then m else Run(Next(m, steps[0]), steps[1..], depth)
  }

  // While no more than `depth` handlers have returned, the activations below that depth stay as they are.
  lemma {:induction false} RunKeeps(m: Machine, steps: seq<Step>, depth: nat)
    requires Inv(m) && RunOk(m, steps, depth)
    ensures var n := Run(m, steps, depth);
            Inv(n) && |n.stack| >= depth && n.stack[..depth] == m.stack[..depth]
    decreases |steps|
  {
    hide Inv, StepOk, Next;
    if steps != [] {
      StepKeeps(m, steps[0]);
      var n := Next(m, steps[0]);
      assert |n.stack| >= depth;
      assert n.stack[..depth] == m.stack[..depth];
      RunKeeps(n, steps[1..], depth);
    }
  }

  /** Delivery and sigreturn are inverse for any depth: a signal interrupts m; then anything may run, further signals
      and their returns included, as long as this handler does not return; when it does, the context is that of m. */
  lemma NestedHandlersReturn(m: Machine, sig: nat, mid: seq<Step>, stale: seq<byte>)
    requires Inv(m) && StepOk(m, Interrupt(sig))
    requires RunOk(Next(m, Interrupt(sig)), mid, |m.stack| + 1)
    requires var h := Run(Next(m, Interrupt(sig)), mid, |m.stack| + 1);
             |h.stack| == |m.stack| + 1 && StepOk(h, Return(stale))
    ensures var n := Next(Run(Next(m, Interrupt(sig)), mid, |m.stack| + 1), Return(stale));
            Inv(n) && ContextOf(n.task) == ContextOf(m.task) && n.stack == m.stack
  {
    hide Inv, StepOk, Next, ContextOf;
    StepKeeps(m, Interrupt(sig));
    var i := Next(m, Interrupt(sig));
    RunKeeps(i, mid, |m.stack| + 1);
    var h := Run(i, mid, |m.stack| + 1);
    assert h.stack[..|m.stack| + 1] == h.stack && i.stack[..|m.stack| + 1] == i.stack;
    ReturnRestores(h, stale);
    assert h.stack[..|m.stack|] == m.stack;
  }
}
