/** The signal state of a process updated in place, as kernel/user-signal.c does, proved against the
    functions of SignalMasks and SignalFrames. */
module SignalTask {
  import opened Bytes
  import opened Bits
  import opened Dwords
  import opened LazyFlags
  import opened SignalMasks
  import opened SignalFrames
  import opened GuestMemory
  import opened HostMemory
  import CpuFlags
  import opened UserCopy

  // receive_signal, by action: the state after it and whether do_exit_group ended it.
  ghost function ReceiveOne(t: SignalFrames.Task, sig: nat): (SignalFrames.Task, bool)
    requires |t.handlers| == NUM_SIGS && sig < NUM_SIGS
  {
    match SignalAction(t.handlers, sig)
    case CALL_HANDLER => (Deliver(t, sig).0, false)
    case IGNORE => (t.(masks := Received(t.masks, t.handlers, sig)), false)
    case KILL => (t.(masks := Received(t.masks, t.handlers, sig)), true)
  }

  // receive_signals from signal number sig on.
  ghost function ReceiveFrom(t: SignalFrames.Task, sig: nat): (SignalFrames.Task, Option<nat>)
    requires |t.handlers| == NUM_SIGS && sig <= NUM_SIGS
    decreases NUM_SIGS - sig
  {
    if sig == NUM_SIGS then (t, None)
    else if !Has(t.masks.pending, sig) then ReceiveFrom(t, sig + 1)
    else
      var (u, killed) := ReceiveOne(t, sig);
      if killed then (u, Some(sig)) else ReceiveFrom(u, sig + 1)
  }

  class Task {
    const sid: SpaceId
    const pretcode: nat                    // the vdso's __kernel_rt_sigreturn
    const cpu: CpuFlags.Cpu
    var regs: Regs
    var trapno: nat
    var blocked: nat
    var queued: nat
    var pending: nat
    var handlers: seq<nat>                 // sighand->action[].handler

    constructor (sid: SpaceId, pretcode: nat, cpu: CpuFlags.Cpu, regs: Regs, handlers: seq<nat>)
      ensures this.sid == sid && this.pretcode == pretcode && this.cpu == cpu && this.regs == regs && this.handlers == handlers
      ensures trapno == blocked == queued == pending == 0
    {
      this.sid, this.pretcode, this.cpu, this.regs, this.handlers := sid, pretcode, cpu, regs, handlers;
      trapno, blocked, queued, pending := 0, 0, 0, 0;
    }

    function MasksOf(): Masks
      reads this
    {
      Masks(blocked, queued, pending)
    }

    // This object as a value, with the memory it would see if nothing were shared.
    ghost function Snapshot(h: Host): SignalFrames.Task
      requires GuestMemory.Inv(h.state)
      reads this, cpu, h
    {
      SignalFrames.Task(regs, cpu.f, trapno, MasksOf(), handlers, sid, pretcode, View(h.state))
    }

    // ------------------------------------------------------------- masks

    /** deliver_signal: whether the receiving thread is interrupted, and whether what it waits on is notified first. */
    method DeliverSignal(sig: nat, current: bool, waiting: bool) returns (notified: bool, killed: bool)
      requires sig < NUM_SIGS
      modifies this`pending
      ensures MasksOf() == Delivered(old(MasksOf()), sig)
      ensures killed == !current && notified == (!current && waiting)
    {
      pending := Union(pending, SignalMasks.Only(sig));
      notified, killed := false, false;
      if !current {
        if waiting {
          notified := true;
        }
        killed := true;
      }
    }

    /** send_signal: whether the thread is interrupted. A thread is interrupted exactly for a signal that becomes pending. */
    method SendSignal(sig: nat, zombie: bool, current: bool, waiting: bool) returns (notified: bool, killed: bool)
      requires sig < NUM_SIGS && |handlers| == NUM_SIGS
      modifies this`pending, this`queued
      ensures MasksOf() == if zombie then old(MasksOf()) else Sent(old(MasksOf()), handlers, sig)
      ensures killed <==> !current && !zombie && sig != 0 && SignalAction(handlers, sig) != IGNORE
                          && !(Has(blocked, sig) && Blockable(sig))
      ensures notified == (killed && waiting)
    {
      notified, killed := false, false;
      if sig == 0 {
        return;
      }
      if zombie {
        return;
      }
      if SignalAction(handlers, sig) != IGNORE {
        if Has(blocked, sig) && Blockable(sig) {
          queued := Union(queued, SignalMasks.Only(sig));
        } else {
          notified, killed := DeliverSignal(sig, current, waiting);
        }
      }
    }

    /** do_sigprocmask_unlocked. */
    method Sigprocmask(how: nat, change: nat) returns (err: int, oldset: nat)
      modifies this`blocked, this`queued, this`pending
      ensures err == 0 <==> how <= SIG_SETMASK
      ensures err != 0 ==> err == EINVAL && MasksOf() == old(MasksOf())
      ensures err == 0 ==> oldset == old(blocked) && MasksOf() == MaskSet(old(MasksOf()), how, change)
    {
      oldset := blocked;
      if how == SIG_BLOCK {
        blocked := Union(blocked, change);
      } else if how == SIG_UNBLOCK {
        blocked := Minus(blocked, change);
      } else if how == SIG_SETMASK {
        blocked := change;
      } else {
        return EINVAL, oldset;
      }
      // transfer unblocked signals from queued to pending
      var unblocked := Minus(oldset, blocked);
      pending := Union(pending, Common(queued, unblocked));
      queued := Minus(queued, unblocked);
      // transfer blocked signals from pending to queued
      var newly := Minus(blocked, oldset);
      queued := Union(queued, Common(pending, newly));
      pending := Minus(pending, newly);
      err := 0;
    }

    // ------------------------------------------------------------ frames

    // The frame on the kernel's stack, filled in field by field.
    method BuildFrame(sig: nat, ghost t: SignalFrames.Task) returns (frame: seq<byte>)
      requires t.regs == regs && t.f == cpu.f && t.trapno == trapno && t.masks.blocked == blocked && t.pretcode == pretcode
      requires Wf(cpu.f)
      modifies cpu
      ensures Wf(cpu.f) && cpu.f == Collapsed(old(cpu.f)) && frame == FrameBytes(t, sig)
    {
      hide Word, Collapsed;
      var ws: seq<nat> := seq(FRAME_WORDS, _ => 0);
      ws := ws[1 := sig];
      ws := ws[22 := blocked % DWORD];
      ws := ws[180 := blocked / DWORD];
      ws := ws[13 := regs.eax][10 := regs.ebx][12 := regs.ecx][11 := regs.edx];
      ws := ws[6 := regs.edi][7 := regs.esi][8 := regs.ebp][9 := regs.esp];
      ws := ws[19 := regs.esp][16 := regs.eip];
      cpu.Collapse();
      ws := ws[18 := Word(cpu.f.eflags)];
      ws := ws[14 := trapno];
      ws := ws[0 := pretcode];
      ws := ws[181 := 0x00ad_b858][182 := 0x80cd_0000];
      assert ws == seq(FRAME_WORDS, i requires 0 <= i < FRAME_WORDS => FrameWord(t, sig, i));
      frame := ToBytes(ws);
    }

    // The registers and mask on entry to a handler.
    method EnterHandler(sig: nat) returns (sp: nat)
      requires sig < NUM_SIGS && |handlers| == NUM_SIGS
      modifies this`regs, this`blocked
      ensures sp == FrameAddress(old(regs.esp))
      ensures regs == old(regs).(eax := sig, eip := handlers[sig], esp := sp)
      ensures blocked == Union(old(blocked), SignalMasks.Only(sig))
    {
      regs := regs.(eax := sig, eip := handlers[sig]);
      sp := (regs.esp - FRAME_SIZE) % DWORD;
      sp := (sp + 4) % DWORD;
      sp := (sp - sp % 16 - 4) % DWORD;
      regs := regs.(esp := sp);
      blocked := Union(blocked, SignalMasks.Only(sig));
    }

    // receive_signal once the signal is known to have a handler.
    method CallHandler(h: Host, sig: nat)
      requires h.Valid() && GuestMemory.Inv(h.state) && sid in h.mems && sig < NUM_SIGS && |handlers| == NUM_SIGS
      requires this !in h.Repr && cpu !in h.Repr && Wf(cpu.f)
      modifies this`regs, this`blocked, cpu, h`blocks, h`state, h.Repr
      ensures h.Valid() && GuestMemory.Inv(h.state)
      ensures regs == old(regs).(eax := sig, eip := handlers[sig], esp := FrameAddress(old(regs.esp)))
      ensures Wf(cpu.f) && cpu.f == Collapsed(old(cpu.f)) && blocked == Union(old(blocked), SignalMasks.Only(sig))
      ensures View(h.state) == WriteMany(View(old(h.state)), sid, FrameAddress(old(regs.esp)), FrameBytes(old(Snapshot(h)), sig)).0
    {
      hide Minus, Union, SignalMasks.Only, GuestMemory.Inv, View, Bit, FrameBytes, WriteMany, MemsValid, Mirrors, Collapsed, FrameAddress, Wf;
      ghost var t := Snapshot(h);
      var frame := BuildFrame(sig, t);
      var sp := EnterHandler(sig);
      SpFits(t.regs.esp);
      // nothing can be done if this fails
      var _ := UserWrite(h, sid, sp, frame);
    }

    /** receive_signal; true if it was deadly. */
    method ReceiveSignal(h: Host, sig: nat) returns (killed: bool)
      requires h.Valid() && GuestMemory.Inv(h.state) && sid in h.mems && sig < NUM_SIGS && |handlers| == NUM_SIGS
      requires this !in h.Repr && cpu !in h.Repr && Wf(cpu.f)
      modifies this`regs, this`blocked, this`pending, cpu, h`blocks, h`state, h.Repr
      ensures h.Valid() && GuestMemory.Inv(h.state) && Wf(cpu.f)
      ensures (Snapshot(h), killed) == ReceiveOne(old(Snapshot(h)), sig)
    {
      hide Minus, Union, SignalMasks.Only, SignalAction, GuestMemory.Inv, View, Bit, FrameBytes, WriteMany, MemsValid, Mirrors, Collapsed, FrameAddress, Wf;
      ghost var t := Snapshot(h);
      pending := Minus(pending, SignalMasks.Only(sig));
      match SignalAction(handlers, sig) {
        case IGNORE => return false;
        case KILL => return true;
        case CALL_HANDLER =>
      }
      ghost var u := Snapshot(h);
      FramePending(t, u, sig);
      CallHandler(h, sig);
      killed := false;
    }

    /** receive_signals: every pending signal in order, until one kills. */
    method ReceiveSignals(h: Host) returns (killed: Option<nat>)
      requires h.Valid() && GuestMemory.Inv(h.state) && sid in h.mems && |handlers| == NUM_SIGS
      requires this !in h.Repr && cpu !in h.Repr && Wf(cpu.f)
      modifies this`regs, this`blocked, this`pending, cpu, h`blocks, h`state, h.Repr
      ensures h.Valid() && GuestMemory.Inv(h.state)
      ensures (Snapshot(h), killed) == ReceiveFrom(old(Snapshot(h)), 0)
    {
      hide GuestMemory.Inv, View, Bit, MemsValid, Mirrors, Wf, ReceiveOne;
      ghost var t := Snapshot(h);
      if pending != 0 {
        for sig := 0 to NUM_SIGS
          invariant h.Valid() && GuestMemory.Inv(h.state) && sid in h.mems && |handlers| == NUM_SIGS
          invariant this !in h.Repr && cpu !in h.Repr && Wf(cpu.f)
          invariant ReceiveFrom(t, 0) == ReceiveFrom(Snapshot(h), sig)
        {
          if Has(pending, sig) {
            var dead := ReceiveSignal(h, sig);
            if dead {
              return Some(sig);
            }
          }
        }
      } else {
        NothingPending(t, 0);
      }
      killed := None;
    }

    /** sys_rt_sigreturn, on a stack that holds `stale` where it puts the frame. */
    method RtSigreturn(h: Host, stale: seq<byte>) returns (eax: nat)
      requires |stale| == FRAME_SIZE
      requires h.Valid() && GuestMemory.Inv(h.state) && sid in h.mems
      requires this !in h.Repr && cpu !in h.Repr && Wf(cpu.f)
      modifies this`regs, this`blocked, this`queued, this`pending, cpu, h`blocks, h`state, h.Repr
      ensures h.Valid() && GuestMemory.Inv(h.state)
      ensures Snapshot(h) == Sigreturn(old(Snapshot(h)), stale) && eax == regs.eax
    {
      hide GuestMemory.Inv, View, MemsValid, Mirrors, Wf, Collapsed, ReadMany, ReadPrefix, WordAt, FromWord, MaskSet;
      ghost var t := Snapshot(h);
      var _, got := UserRead(h, sid, (regs.esp - SC_OFFSET) % DWORD, FRAME_SIZE);
      var b := got + stale[|got|..];
      regs := regs.(eax := WordAt(b, 13), ebx := WordAt(b, 10), ecx := WordAt(b, 12), edx := WordAt(b, 11));
      regs := regs.(edi := WordAt(b, 6), esi := WordAt(b, 7), ebp := WordAt(b, 8));
      regs := regs.(esp := WordAt(b, 9), eip := WordAt(b, 16));
      cpu.Collapse();
      cpu.f := cpu.f.(eflags := FromWord(WordAt(b, 18)));
      var oldmask := WordAt(b, 180) * DWORD + WordAt(b, 22);
      var _, _ := Sigprocmask(SIG_SETMASK, oldmask);
      eax := regs.eax;
    }

    /** do_sigaction: the handler that was installed. A negative number passes the source's test and is None here: it
        indexes in front of the table. */
    method Sigaction(sig: int, handler: Option<nat>) returns (err: Option<int>, oldhandler: nat)
      requires |handlers| == NUM_SIGS
      modifies this`handlers
      ensures err == None <==> sig < 0
      ensures err == Some(0) <==> 0 <= sig < NUM_SIGS && Blockable(sig)
      ensures err != Some(0) ==> err in {None, Some(EINVAL)} && handlers == old(handlers)
      ensures err == Some(0) ==> oldhandler == old(handlers[sig])
                                 && handlers == if handler.Some? then old(handlers)[sig := handler.value] else old(handlers)
    {
      if sig >= NUM_SIGS {
        return Some(EINVAL), 0;
      }
      if sig < 0 {
        return None, 0;
      }
      if !Blockable(sig) {
        return Some(EINVAL), 0;
      }
      oldhandler := handlers[sig];
      if handler.Some? {
        handlers := handlers[sig := handler.value];
      }
      err := Some(0);
    }
  }

  lemma {:induction false} NothingPending(t: SignalFrames.Task, sig: nat)
    requires |t.handlers| == NUM_SIGS && sig <= NUM_SIGS && t.masks.pending == 0
    ensures ReceiveFrom(t, sig) == (t, None)
    decreases NUM_SIGS - sig
  {
    if sig != NUM_SIGS {
      ZeroBit(sig);
      NothingPending(t, sig + 1);
    }
  }

  // What receive_signal does to the masks, signal by signal.
  lemma ReceiveOneBits(t: SignalFrames.Task, sig: nat, i: nat)
    requires |t.handlers| == NUM_SIGS && sig < NUM_SIGS && i < NUM_SIGS
    ensures var u := ReceiveOne(t, sig).0;
            && u.handlers == t.handlers && u.masks.queued == t.masks.queued
            && (Has(u.masks.pending, i) <==> Has(t.masks.pending, i) && i != sig)
            && (Has(u.masks.blocked, i) <==> Has(t.masks.blocked, i) || (i == sig && SignalAction(t.handlers, i) == CALL_HANDLER))
            && (ReceiveOne(t, sig).1 <==> SignalAction(t.handlers, sig) == KILL)
  {
    BitFacts(t.masks.pending, SignalMasks.Only(sig), sig, i);
    BitFacts(t.masks.blocked, SignalMasks.Only(sig), sig, i);
    hide Has, Union, Minus, SignalMasks.Only, SignalAction, FrameBytes, WriteMany, FrameAddress, Collapsed;
  }

  /** receive_signals, signal by signal: without a deadly one pending, nothing stays pending, each handled signal
      becomes blocked and no other; otherwise the lowest deadly one kills and the signals below it were received. */
  lemma {:induction false} ReceiveFromBits(t: SignalFrames.Task, sig: nat, i: nat)
    requires |t.handlers| == NUM_SIGS && sig <= NUM_SIGS && i < NUM_SIGS
    ensures var (u, killed) := ReceiveFrom(t, sig);
            var stop := if killed.Some? then killed.value else NUM_SIGS;
            && (killed.Some? ==> sig <= killed.value < NUM_SIGS && Has(t.masks.pending, killed.value)
                                 && SignalAction(t.handlers, killed.value) == KILL)
            && (sig <= i < stop && Has(t.masks.pending, i) ==> SignalAction(t.handlers, i) != KILL)
            && (Has(u.masks.pending, i) <==> Has(t.masks.pending, i) && (i < sig || (killed.Some? && i > killed.value)))
            && (Has(u.masks.blocked, i) <==> (Has(t.masks.blocked, i)
                 || (sig <= i < stop && Has(t.masks.pending, i) && SignalAction(t.handlers, i) == CALL_HANDLER)))
            && u.masks.queued == t.masks.queued && u.handlers == t.handlers
    decreases NUM_SIGS - sig
  {
    hide Has, SignalAction, ReceiveOne;
    if sig != NUM_SIGS {
      if Has(t.masks.pending, sig) {
        ReceiveOneBits(t, sig, i);
        var (u, killed) := ReceiveOne(t, sig);
        if !killed {
          ReceiveFromBits(u, sig + 1, i);
          var k := ReceiveFrom(u, sig + 1).1;
          if k.Some? {
            ReceiveOneBits(t, sig, k.value);
          }
        }
      } else {
        ReceiveFromBits(t, sig + 1, i);
      }
    }
  }

  // None of the pending signals from lo to hi calls a handler; none from lo on is deadly.
  ghost predicate Quiet(t: SignalFrames.Task, lo: nat, hi: nat)
    requires |t.handlers| == NUM_SIGS && hi <= NUM_SIGS
  {
    forall j | lo <= j < hi && Has(t.masks.pending, j) :: !Handled(t.handlers, j)
  }

  ghost predicate Harmless(t: SignalFrames.Task, lo: nat)
    requires |t.handlers| == NUM_SIGS
  {
    forall j | lo <= j < NUM_SIGS && Has(t.masks.pending, j) :: Handled(t.handlers, j) || Ignored(t.handlers, j)
  }

  // One signal received: which are pending afterwards, and what else changes.
  lemma ReceivedOne(t: SignalFrames.Task, sig: nat)
    requires |t.handlers| == NUM_SIGS && sig < NUM_SIGS && (Handled(t.handlers, sig) || Ignored(t.handlers, sig))
    ensures var (u, killed) := ReceiveOne(t, sig);
            && !killed && u.handlers == t.handlers
            && (forall j | 0 <= j < NUM_SIGS :: Has(u.masks.pending, j) <==> Has(t.masks.pending, j) && j != sig)
            && (Ignored(t.handlers, sig) ==> u.regs == t.regs && u.memory == t.memory && u.f == t.f)
            && (Handled(t.handlers, sig) ==> u == Deliver(t, sig).0)
  {
    ActionIs(t.handlers, sig);
    hide Has, SignalAction, Deliver;
    forall j | 0 <= j < NUM_SIGS ensures Has(ReceiveOne(t, sig).0.masks.pending, j) <==> Has(t.masks.pending, j) && j != sig {
      ReceiveOneBits(t, sig, j);
    }
    ReceiveOneBits(t, sig, 0);
  }

  lemma {:induction false} ReceiveQuiet(t: SignalFrames.Task, sig: nat)
    requires |t.handlers| == NUM_SIGS && sig <= NUM_SIGS && Quiet(t, sig, NUM_SIGS) && Harmless(t, sig)
    ensures var (u, killed) := ReceiveFrom(t, sig);
            killed == None && u.regs == t.regs && u.memory == t.memory && u.f == t.f
    decreases NUM_SIGS - sig
  {
    hide Has, ReceiveOne, Deliver, Handled, Ignored;
    if sig != NUM_SIGS {
      if Has(t.masks.pending, sig) {
        ReceivedOne(t, sig);
        ReceiveQuiet(ReceiveOne(t, sig).0, sig + 1);
      } else {
        ReceiveQuiet(t, sig + 1);
      }
    }
  }

  /** Signals are received lowest first, so the handler of the highest one runs first. It interrupts v, which is about to run the handler
      of the next lower one, or, if there is none, is what the signals found. */
  lemma {:induction false} HandlersNest(t: SignalFrames.Task, sig: nat, i: nat) returns (v: SignalFrames.Task)
    requires |t.handlers| == NUM_SIGS && sig <= i < NUM_SIGS && Has(t.masks.pending, i) && Handled(t.handlers, i)
    requires Quiet(t, i + 1, NUM_SIGS) && Harmless(t, sig)
    ensures var (u, killed) := ReceiveFrom(t, sig);
            && killed == None && v.handlers == t.handlers
            && u.regs == Deliver(v, i).0.regs && u.memory == Deliver(v, i).0.memory && u.f == Deliver(v, i).0.f
            && u.regs.eip == t.handlers[i] && u.regs.eax == i
    ensures forall j | sig <= j < i && Has(t.masks.pending, j) && Handled(t.handlers, j) && Quiet(t, j + 1, i) ::
              v.regs.eip == t.handlers[j] && v.regs.eax == j
    ensures Quiet(t, sig, i) ==> v.regs == t.regs && v.memory == t.memory && v.f == t.f
    decreases NUM_SIGS - sig
  {
    hide Has, ReceiveOne, Handled, Ignored, Deliver;
    HandlerStarts(t, sig);
    if !Has(t.masks.pending, sig) {
      v := HandlersNest(t, sig + 1, i);
    } else {
      ReceivedOne(t, sig);
      HandledNotIgnored(t.handlers, i);
      var u := ReceiveOne(t, sig).0;
      if sig == i {
        v := t;
        ReceiveQuiet(u, sig + 1);
        hide ReceiveFrom;
      } else {
        v := HandlersNest(u, sig + 1, i);
        forall j | sig < j < i && Has(t.masks.pending, j) && Quiet(t, j + 1, i) ensures Quiet(u, j + 1, i) {}
        assert Quiet(t, sig + 1, i) ==> Quiet(u, sig + 1, i);
      }
    }
  }

  lemma HandledNotIgnored(handlers: seq<nat>, i: nat)
    requires |handlers| == NUM_SIGS && i < NUM_SIGS && Handled(handlers, i)
    ensures !Ignored(handlers, i)
  {
  }

  lemma SpFits(esp: nat)
    ensures FrameAddress(esp) < ADDR_SPACE
  {
  }

  // The pending set is not part of the frame.
  lemma FramePending(t: SignalFrames.Task, u: SignalFrames.Task, sig: nat)
    requires u == t.(masks := t.masks.(pending := u.masks.pending))
    ensures FrameBytes(u, sig) == FrameBytes(t, sig)
  {
    hide Word, Collapsed;
    assert seq(FRAME_WORDS, i requires 0 <= i < FRAME_WORDS => FrameWord(u, sig, i))
        == seq(FRAME_WORDS, i requires 0 <= i < FRAME_WORDS => FrameWord(t, sig, i));
  }
}
