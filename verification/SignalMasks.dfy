/** The blocked, queued and pending sets of kernel/user-signal.c under sends,
    mask changes and receptions, and what they conserve. */
module SignalMasks {
  import opened Bytes
  import opened Bits

  const NUM_SIGS: nat := 64
  const SIGKILL: nat := 9
  const SIGCHLD: nat := 17
  const SIGCONT: nat := 18
  const SIGSTOP: nat := 19
  const SIGURG: nat := 23
  const SIGWINCH: nat := 28
  const SIGIO: nat := 29
  const SIG_DFL: nat := 0
  const SIG_IGN: nat := 1
  const SIG_BLOCK: nat := 0
  const SIG_UNBLOCK: nat := 1
  const SIG_SETMASK: nat := 2
  const EINVAL: int := -22

  // A sigset_t_ is a 64-bit word; signal i is its bit i.
  predicate Has(m: nat, sig: nat) { Bit(m, sig) == 1 }
  function Union(a: nat, b: nat): nat { Bitwise(OR, a, b, NUM_SIGS) }
  function Common(a: nat, b: nat): nat { Bitwise(AND, a, b, NUM_SIGS) }
  function Minus(a: nat, b: nat): nat { Bitwise(ANDNOT, a, b, NUM_SIGS) }
  function Only(sig: nat): nat { Pow2(sig) }

  predicate Blockable(sig: nat) { sig != SIGKILL && sig != SIGSTOP }

  datatype Action = IGNORE | KILL | CALL_HANDLER

  /** signal_action. */
  function SignalAction(handlers: seq<nat>, sig: nat): Action
    requires |handlers| == NUM_SIGS && sig < NUM_SIGS
  {
    if Blockable(sig) && handlers[sig] == SIG_IGN then IGNORE
    else if Blockable(sig) && handlers[sig] != SIG_DFL then CALL_HANDLER
    else if sig in {SIGURG, SIGCONT, SIGCHLD, SIGIO, SIGWINCH} then IGNORE
    else KILL
  }

  datatype Masks = Masks(blocked: nat, queued: nat, pending: nat)

  /** send_signal to a task that is not a zombie. */
  function Sent(m: Masks, handlers: seq<nat>, sig: nat): Masks
    requires |handlers| == NUM_SIGS && sig < NUM_SIGS
  {
    if sig == 0 || SignalAction(handlers, sig) == IGNORE then m
    else if Has(m.blocked, sig) && Blockable(sig) then m.(queued := Union(m.queued, Only(sig)))
    else Delivered(m, sig)
  }

  /** deliver_signal, which asks nobody. */
  function Delivered(m: Masks, sig: nat): Masks { m.(pending := Union(m.pending, Only(sig))) }

  function NewBlocked(blocked: nat, how: nat, change: nat): nat {
    if how == SIG_BLOCK then Union(blocked, change) else if how == SIG_UNBLOCK then Minus(blocked, change) else change
  }

  /** do_sigprocmask_unlocked for a valid `how`: signals move between queued and pending as their bits change. */
  function MaskSet(m: Masks, how: nat, change: nat): Masks {
    var blocked := NewBlocked(m.blocked, how, change);
    var unblocked := Minus(m.blocked, blocked);
    var pending := Union(m.pending, Common(m.queued, unblocked));
    var queued := Minus(m.queued, unblocked);
    var newly := Minus(blocked, m.blocked);
    Masks(blocked, Union(queued, Common(pending, newly)), Minus(pending, newly))
  }

  /** The masks after receive_signal. */
  function Received(m: Masks, handlers: seq<nat>, sig: nat): Masks
    requires |handlers| == NUM_SIGS && sig < NUM_SIGS
  {
    var n := m.(pending := Minus(m.pending, Only(sig)));
    if SignalAction(handlers, sig) == CALL_HANDLER then n.(blocked := Union(n.blocked, Only(sig))) else n
  }

  // ------------------------------------------------ signal by signal

  lemma BitFacts(a: nat, b: nat, sig: nat, i: nat)
    requires i < NUM_SIGS
    ensures Has(Union(a, b), i) <==> Has(a, i) || Has(b, i)
    ensures Has(Common(a, b), i) <==> Has(a, i) && Has(b, i)
    ensures Has(Minus(a, b), i) <==> Has(a, i) && !Has(b, i)
    ensures Has(Only(sig), i) <==> i == sig
  {
    BitwiseBit(OR, a, b, NUM_SIGS, i);
    BitwiseBit(AND, a, b, NUM_SIGS, i);
    BitwiseBit(ANDNOT, a, b, NUM_SIGS, i);
    Pow2Bit(sig, i);
    hide Bitwise, Pow2, Bit;
  }

  /** A mask change, signal by signal: pending or queued before is pending or queued after, and where it is depends on the new
      mask if its bit changed, and else stays. */
  lemma MaskSetBits(m: Masks, how: nat, change: nat, i: nat)
    requires i < NUM_SIGS && how <= SIG_SETMASK
    ensures var n := MaskSet(m, how, change);
            && (Has(n.pending, i) || Has(n.queued, i) <==> Has(m.pending, i) || Has(m.queued, i))
            && (Has(n.blocked, i) <==> if how == SIG_BLOCK then Has(m.blocked, i) || Has(change, i)
                                       else if how == SIG_UNBLOCK then Has(m.blocked, i) && !Has(change, i) else Has(change, i))
            && ((Has(m.queued, i) ==> Has(m.blocked, i)) ==> (Has(n.queued, i) ==> Has(n.blocked, i)))
            && (Has(n.pending, i) && Has(n.blocked, i) ==> Has(m.pending, i) && Has(m.blocked, i))
            && (Has(n.pending, i) <==> if Has(n.blocked, i) == Has(m.blocked, i) then Has(m.pending, i)
                                       else !Has(n.blocked, i) && (Has(m.pending, i) || Has(m.queued, i)))
            && (Has(n.queued, i) <==> if Has(n.blocked, i) == Has(m.blocked, i) then Has(m.queued, i)
                                      else Has(n.blocked, i) && (Has(m.pending, i) || Has(m.queued, i)))
  {
    var blocked := NewBlocked(m.blocked, how, change);
    var unblocked := Minus(m.blocked, blocked);
    var pending := Union(m.pending, Common(m.queued, unblocked));
    var queued := Minus(m.queued, unblocked);
    var newly := Minus(blocked, m.blocked);
    BitFacts(m.blocked, change, 0, i);
    BitFacts(m.blocked, blocked, 0, i);
    BitFacts(m.queued, unblocked, 0, i);
    BitFacts(m.pending, Common(m.queued, unblocked), 0, i);
    BitFacts(blocked, m.blocked, 0, i);
    BitFacts(pending, newly, 0, i);
    BitFacts(queued, Common(pending, newly), 0, i);
    hide Has, Union, Common, Minus;
  }

  // -------------------------------------------------------------- runs

  /** `forced` remembers the signals handed over by deliver_signal directly, without regard for the mask. */
  datatype State = State(m: Masks, handlers: seq<nat>, forced: set<nat>)

  datatype Event =
    | Send(sig: nat)
    | Force(sig: nat)
    | Mask(how: nat, change: nat)
    | Receive(sig: nat)
    | SetHandler(sig: nat, handler: nat)

  predicate EventOk(s: State, e: Event) {
    match e
    case Send(sig) => sig < NUM_SIGS
    case Force(sig) => sig < NUM_SIGS
    case Mask(_, _) => true
    case Receive(sig) => |s.handlers| == NUM_SIGS && sig < NUM_SIGS && Has(s.m.pending, sig) && SignalAction(s.handlers, sig) != KILL
    case SetHandler(sig, _) => sig < NUM_SIGS && Blockable(sig)
  }

  function Next(s: State, e: Event): State
    requires |s.handlers| == NUM_SIGS && EventOk(s, e)
  {
    match e
    case Send(sig) => s.(m := Sent(s.m, s.handlers, sig))
    case Force(sig) => s.(m := Delivered(s.m, sig), forced := s.forced + {sig})
    case Mask(how, change) => if how <= SIG_SETMASK then s.(m := MaskSet(s.m, how, change)) else s
    case Receive(sig) => s.(m := Received(s.m, s.handlers, sig), forced := s.forced - {sig})
    case SetHandler(sig, handler) => s.(handlers := s.handlers[sig := handler])
  }

  /** Queued signals are blocked ones, and only forced or unblockable signals are both pending and blocked. */
  ghost predicate Inv(s: State) {
    && |s.handlers| == NUM_SIGS
    && (forall i | 0 <= i < NUM_SIGS && Has(s.m.queued, i) :: Has(s.m.blocked, i))
    && (forall i | 0 <= i < NUM_SIGS && Blockable(i) && Has(s.m.pending, i) && Has(s.m.blocked, i) :: i in s.forced)
  }

  // Sent and not yet received.
  predicate Outstanding(m: Masks, i: nat) { Has(m.pending, i) || Has(m.queued, i) }

  // What an event does to signal i.
  lemma NextBit(s: State, e: Event, i: nat)
    requires Inv(s) && EventOk(s, e) && i < NUM_SIGS
    ensures var t := Next(s, e);
            && |t.handlers| == NUM_SIGS
            && (Has(t.m.queued, i) ==> Has(t.m.blocked, i))
            && (Blockable(i) && Has(t.m.pending, i) && Has(t.m.blocked, i) ==> i in t.forced)
            && (Outstanding(s.m, i) && e != Receive(i) ==> Outstanding(t.m, i))
            && (Outstanding(t.m, i) ==> Outstanding(s.m, i) || e == Send(i) || e == Force(i))
            && (e == Receive(i) ==> !Has(t.m.pending, i))
            && (e.Mask? ==> (Outstanding(t.m, i) <==> Outstanding(s.m, i)))
  {
    hide Has, Union, Common, Minus, SignalAction, MaskSet, Only;
    match e {
      case Send(sig) =>
        BitFacts(s.m.queued, Only(sig), sig, i);
        BitFacts(s.m.pending, Only(sig), sig, i);
      case Force(sig) => BitFacts(s.m.pending, Only(sig), sig, i);
      case Mask(how, change) => if how <= SIG_SETMASK { MaskSetBits(s.m, how, change, i); }
      case Receive(sig) =>
        BitFacts(s.m.pending, Only(sig), sig, i);
        BitFacts(s.m.blocked, Only(sig), sig, i);
      case SetHandler(_, _) =>
    }
  }

  // ---------------------------------------------- what the events mean

  // Ignored by signal number: SIGKILL (9) and SIGSTOP (19) never are; SIG_IGN (1) ignores; by default (0) only SIGCHLD (17),
  // SIGCONT (18), SIGURG (23), SIGWINCH (28) and SIGIO (29) are.
  predicate Ignored(handlers: seq<nat>, sig: nat)
    requires |handlers| == NUM_SIGS && sig < NUM_SIGS
  {
    sig != 9 && sig != 19 && (handlers[sig] == 1 || (handlers[sig] == 0 && sig in {17, 18, 23, 28, 29}))
  }

  // Sent to a handler: one is installed, and the signal can have one.
  predicate Handled(handlers: seq<nat>, sig: nat)
    requires |handlers| == NUM_SIGS && sig < NUM_SIGS
  {
    sig != 9 && sig != 19 && handlers[sig] > 1
  }

  /** What a signal does, number by number: whatever is neither ignored nor handled ends the process. */
  lemma ActionIs(handlers: seq<nat>, sig: nat)
    requires |handlers| == NUM_SIGS && sig < NUM_SIGS
    ensures SignalAction(handlers, sig) == IGNORE <==> Ignored(handlers, sig)
    ensures SignalAction(handlers, sig) == CALL_HANDLER <==> Handled(handlers, sig)
    ensures SignalAction(handlers, sig) == KILL <==> !Ignored(handlers, sig) && !Handled(handlers, sig)
  {
  }

  // Held back until it is unblocked.
  predicate Held(m: Masks, i: nat) { Has(m.blocked, i) && i != 9 && i != 19 }

  /** What every event but a mask change does to signal i. A sent signal is queued if it is held back, else pending; a forced
      one is pending; a received one is no longer pending, and blocked if it has a handler; nothing else changes. */
  lemma EventBits(s: State, e: Event, i: nat)
    requires |s.handlers| == NUM_SIGS && EventOk(s, e) && i < NUM_SIGS && !e.Mask?
    ensures var m, n := s.m, Next(s, e).m;
            var sent := e == Send(i) && i != 0 && !Ignored(s.handlers, i);
            && (Has(n.blocked, i) <==> Has(m.blocked, i) || (e == Receive(i) && Handled(s.handlers, i)))
            && (Has(n.queued, i) <==> Has(m.queued, i) || (sent && Held(m, i)))
            && (Has(n.pending, i) <==> (Has(m.pending, i) && e != Receive(i)) || (sent && !Held(m, i)) || e == Force(i))
    ensures var h := Next(s, e).handlers;
            |h| == NUM_SIGS && h[i] == if e.SetHandler? && e.sig == i then e.handler else s.handlers[i]
    ensures Next(s, e).forced == if e.Force? then s.forced + {e.sig} else if e.Receive? then s.forced - {e.sig} else s.forced
  {
    hide Has, Union, Common, Minus, SignalAction, Only;
    ActionIs(s.handlers, i);
    match e {
      case Send(sig) =>
        BitFacts(s.m.queued, Only(sig), sig, i);
        BitFacts(s.m.pending, Only(sig), sig, i);
      case Force(sig) => BitFacts(s.m.pending, Only(sig), sig, i);
      case Receive(sig) =>
        BitFacts(s.m.pending, Only(sig), sig, i);
        BitFacts(s.m.blocked, Only(sig), sig, i);
      case SetHandler(_, _) =>
    }
  }

  /** And a mask change: by SIG_BLOCK (0) the signals of the set become blocked, by SIG_UNBLOCK (1) unblocked, by SIG_SETMASK (2) those
      and no others are blocked; a signal whose bit changes moves between queued and pending. Any other `how` does nothing. */
  lemma MaskBits(s: State, how: nat, change: nat, i: nat)
    requires |s.handlers| == NUM_SIGS && i < NUM_SIGS
    ensures var m, t := s.m, Next(s, Mask(how, change));
            var n, before, out := t.m, Has(s.m.blocked, i), Outstanding(s.m, i);
            var now := if how == 0 then before || Has(change, i) else if how == 1 then before && !Has(change, i)
                       else if how == 2 then Has(change, i) else before;
            && t.handlers == s.handlers && t.forced == s.forced && (how > 2 ==> n == m)
            && (Has(n.blocked, i) <==> now)
            && (Has(n.queued, i) <==> if now == before then Has(m.queued, i) else now && out)
            && (Has(n.pending, i) <==> if now == before then Has(m.pending, i) else !now && out)
  {
    hide Has, MaskSet;
    if how <= 2 { MaskSetBits(s.m, how, change, i); }
  }

  lemma NextKeeps(s: State, e: Event)
    requires Inv(s) && EventOk(s, e)
    ensures Inv(Next(s, e))
  {
    hide Has, Next, Blockable;
    NextBit(s, e, 0);
    forall i | 0 <= i < NUM_SIGS
      ensures Has(Next(s, e).m.queued, i) ==> Has(Next(s, e).m.blocked, i)
      ensures Blockable(i) && Has(Next(s, e).m.pending, i) && Has(Next(s, e).m.blocked, i) ==> i in Next(s, e).forced
    {
      NextBit(s, e, i);
    }
  }

  predicate RunOk(s: State, es: seq<Event>)
    decreases |es|
  {
    es == [] || (|s.handlers| == NUM_SIGS && EventOk(s, es[0]) && RunOk(Next(s, es[0]), es[1..]))
  }

  function Run(s: State, es: seq<Event>): State
    requires RunOk(s, es)
    decreases |es|
  {
    if es == [] then s else Run(Next(s, es[0]), es[1..])
  }

  /** Conservation over every run: the invariant holds, a signal outstanding at the start is still outstanding
      unless the run received it, and one outstanding at the end was so at the start or was sent. */
  lemma {:induction false} RunConserves(s: State, es: seq<Event>, i: nat)
    requires Inv(s) && RunOk(s, es) && i < NUM_SIGS
    ensures var t := Run(s, es);
            && Inv(t)
            && (Outstanding(s.m, i) && Receive(i) !in es ==> Outstanding(t.m, i))
            && (Outstanding(t.m, i) ==> Outstanding(s.m, i) || Send(i) in es || Force(i) in es)
    decreases |es|
  {
    hide Inv, Outstanding, EventOk, Next;
    if es != [] {
      NextKeeps(s, es[0]);
      NextBit(s, es[0], i);
      RunConserves(Next(s, es[0]), es[1..], i);
    }
  }

  /** A signal that the run sends while it is not ignored, or forces, and does not receive afterwards is outstanding at the end. */
  lemma {:induction false} SentStays(s: State, es: seq<Event>, i: nat, k: nat)
    requires Inv(s) && RunOk(s, es) && i < NUM_SIGS && k < |es| && Receive(i) !in es[k + 1..]
    requires es[k] == Force(i) || (es[k] == Send(i) && i != 0 && NotIgnoredAt(s, es, i, k))
    ensures Outstanding(Run(s, es).m, i)
    decreases |es|
  {
    hide Inv, EventOk, Next, Has, Ignored;
    NextKeeps(s, es[0]);
    if k == 0 {
      EventBits(s, es[0], i);
      RunConserves(Next(s, es[0]), es[1..], i);
    } else {
      assert es[k + 1..] == es[1..][k..];
      SentStays(Next(s, es[0]), es[1..], i, k - 1);
    }
  }

  // The signal is not ignored when step k of the run comes.
  predicate NotIgnoredAt(s: State, es: seq<Event>, i: nat, k: nat)
    requires RunOk(s, es) && i < NUM_SIGS && k < |es|
    decreases k
  {
    if k == 0 then !Ignored(s.handlers, i) else NotIgnoredAt(Next(s, es[0]), es[1..], i, k - 1)
  }
}
