/** futex_wait and futex_wake as interleaved steps of many threads: the lock, the
    condition variables and the guest's own stores, and why no wakeup is lost. */
module FutexProtocol {
  import opened Bytes
  import opened FutexTable

  // Where a thread is. `at` is the number of steps taken before its futex_load.
  datatype Pc =
    | Running                                             // guest code
    | WaitGot(f: FutexId, val: nat)                       // futex_wait after futex_get
    | WillWait(f: FutexId, at: nat)                       // the word was val: about to call wait_for
    | Asleep(f: FutexId, at: nat)                         // in pthread_cond_wait, lock released
    | Woken(f: FutexId, timedOut: bool)                   // notified, timed out or spurious: wants the lock back
    | WakeGot(f: FutexId, val: nat)                       // futex_wake after futex_get
    | Putting(f: FutexId, res: int)                       // about to call futex_put and return res

  // `result` is what the thread's last futex call returned.
  datatype Thread = Thread(mem: MemId, pc: Pc, result: int)

  datatype Word = Word(mem: MemId, addr: nat)

  /** The whole system: `memory` holds the mapped guest words, `lock` the holder of futex_lock. */
  datatype System = System(table: Table, threads: map<Tid, Thread>, lock: Option<Tid>, memory: map<Word, nat>, now: nat)

  const WAKE_ALL: nat := 0x7fffffff
  const EINTR: int := -4
  const EAGAIN: int := -11
  const EFAULT: int := -14
  const ETIMEDOUT: int := -110

  datatype Step =
    | StoreStep(w: Word, v: nat)                          // any guest store, no lock needed
    | UnmapStep(w: Word)
    | WaitGetStep(t: Tid, addr: nat, val: nat, f: FutexId)
    | LoadStep(t: Tid)
    | SleepStep(t: Tid, signalled: bool)
    | WakeUpStep(t: Tid, timedOut: bool)                  // timeout, or a signal or spurious
    | RelockStep(t: Tid, signalled: bool)
    | WakeGetStep(t: Tid, addr: nat, val: nat, f: FutexId)
    | NotifyStep(t: Tid, chosen: Option<Tid>)
    | PutStep(t: Tid)

  // -------------------------------------------------------------- a step

  function Holding(pc: Pc): bool { pc.WaitGot? || pc.WillWait? || pc.WakeGot? || pc.Putting? }

  // The futex a thread has a reference to, between its futex_get and its futex_put.
  function Ref(pc: Pc): Option<FutexId> { if pc.Running? then None else Some(pc.f) }

  function At(s: System, t: Tid): Pc { if t in s.threads then s.threads[t].pc else Running }

  function Moved(s: System, t: Tid, pc: Pc): map<Tid, Thread>
    requires t in s.threads
  {
    s.threads[t := s.threads[t].(pc := pc)]
  }

  function Returned(s: System, t: Tid, res: int): map<Tid, Thread>
    requires t in s.threads
  {
    s.threads[t := s.threads[t].(pc := Running, result := res)]
  }

  function SetWaiters(t: Table, f: FutexId, waiters: set<Tid>): Table {
    if f in t.futexes then t.(futexes := t.futexes[f := t.futexes[f].(waiters := waiters)]) else t
  }

  function Waiters(t: Table, f: FutexId): set<Tid> { if f in t.futexes then t.futexes[f].waiters else {} }

  // Threads that notify() takes out of the wait queue go on to reacquire the lock.
  function WakeSet(threads: map<Tid, Thread>, ts: set<Tid>): map<Tid, Thread> {
    map t <- threads :: if t in ts && threads[t].pc.Asleep? then threads[t].(pc := Woken(threads[t].pc.f, false)) else threads[t]
  }

  ghost predicate Enabled(s: System, step: Step) {
    match step
    case StoreStep(w, v) => w in s.memory
    case UnmapStep(w) => true
    case WaitGetStep(t, addr, val, f) =>
      t in s.threads && s.threads[t].pc.Running? && s.lock.None? && MayGet(s.table, s.threads[t].mem, addr, f)
    case WakeGetStep(t, addr, val, f) =>
      t in s.threads && s.threads[t].pc.Running? && s.lock.None? && MayGet(s.table, s.threads[t].mem, addr, f)
      && (val == 1 || val == WAKE_ALL)
    case LoadStep(t) => At(s, t).WaitGot?
    case SleepStep(t, _) => At(s, t).WillWait?
    case WakeUpStep(t, _) => At(s, t).Asleep?
    case RelockStep(t, _) => At(s, t).Woken? && s.lock.None?
    case NotifyStep(t, chosen) =>
      At(s, t).WakeGot?
      && (if chosen.Some? then chosen.value in Waiters(s.table, At(s, t).f) else Waiters(s.table, At(s, t).f) == {})
    case PutStep(t) => At(s, t).Putting?
  }

  // futex_load and the comparison: the next place of the waiting thread.
  function AfterLoad(s: System, t: Tid, pc: Pc): Pc
    requires pc.WaitGot?
  {
    var w := if pc.f in s.table.futexes then Word(s.table.futexes[pc.f].mem, s.table.futexes[pc.f].addr) else Word(0, 0);
    if w !in s.memory then Putting(pc.f, EFAULT)
    else if s.memory[w] != pc.val then Putting(pc.f, EAGAIN)
    else WillWait(pc.f, s.now)
  }

  ghost function Next(s: System, step: Step): System
    requires |s.table.buckets| == FUTEX_HASH_SIZE && Enabled(s, step)
  {
    var u := s.(now := s.now + 1);
    match step
    case StoreStep(w, v) => u.(memory := s.memory[w := v])
    case UnmapStep(w) => u.(memory := s.memory - {w})
    case WaitGetStep(t, addr, val, f) =>
      u.(table := Gotten(s.table, s.threads[t].mem, addr, f), lock := Some(t), threads := Moved(s, t, WaitGot(f, val)))
    case WakeGetStep(t, addr, val, f) =>
      u.(table := Gotten(s.table, s.threads[t].mem, addr, f), lock := Some(t), threads := Moved(s, t, WakeGot(f, val)))
    case LoadStep(t) => u.(threads := Moved(s, t, AfterLoad(s, t, At(s, t))))
    case SleepStep(t, signalled) =>
      var f := At(s, t).f;
      // wait_for returns _EINTR at once if a signal is pending
      if signalled then u.(threads := Moved(s, t, Putting(f, EINTR)))
      else u.(threads := Moved(s, t, Asleep(f, At(s, t).at)), lock := None,
              table := SetWaiters(s.table, f, Waiters(s.table, f) + {t}))
    case WakeUpStep(t, timedOut) =>
      var f := At(s, t).f;
      u.(threads := Moved(s, t, Woken(f, timedOut)), table := SetWaiters(s.table, f, Waiters(s.table, f) - {t}))
    case RelockStep(t, signalled) =>
      var res := if At(s, t).timedOut then ETIMEDOUT else if signalled then EINTR else 0;
      u.(threads := Moved(s, t, Putting(At(s, t).f, res)), lock := Some(t))
    case NotifyStep(t, chosen) =>
      var f := At(s, t).f;
      var woken := if At(s, t).val == 1 then (if chosen.Some? then {chosen.value} else {}) else Waiters(s.table, f);
      u.(threads := WakeSet(Moved(s, t, Putting(f, At(s, t).val)), woken), table := SetWaiters(s.table, f, Waiters(s.table, f) - woken))
    case PutStep(t) =>
      var f := At(s, t).f;
      u.(threads := Returned(s, t, At(s, t).res), lock := None,
         table := if f in s.table.futexes && s.table.futexes[f].refcount > 0 then Dropped(s.table, f) else s.table)
  }

  // ------------------------------------------------------------ invariant

  ghost predicate LockOk(s: System) {
    forall t <- s.threads :: Holding(s.threads[t].pc) <==> s.lock == Some(t)
  }

  ghost predicate LockHolderKnown(s: System) { s.lock.Some? ==> s.lock.value in s.threads }

  // A thread's futex is live and belongs to the thread's address space.
  ghost predicate RefsLive(s: System) {
    forall t <- s.threads :: Ref(s.threads[t].pc).Some? ==>
      s.threads[t].pc.f in s.table.futexes && s.table.futexes[s.threads[t].pc.f].mem == s.threads[t].mem
  }

  ghost function Holders(s: System, f: FutexId): set<Tid> {
    set t | t in s.threads && Ref(s.threads[t].pc) == Some(f)
  }

  /** refcount is the number of threads between futex_get and futex_put. */
  ghost predicate RefsCounted(s: System) {
    forall f <- s.table.futexes :: s.table.futexes[f].refcount == |Holders(s, f)| > 0
  }

  // The wait queue of a futex is the set of threads asleep on it.
  ghost predicate QueuesOk(s: System) {
    forall f <- s.table.futexes :: s.table.futexes[f].waiters == set t | t in s.threads && s.threads[t].pc.Asleep? && s.threads[t].pc.f == f
  }

  ghost predicate StampsOk(s: System) {
    forall t <- s.threads :: s.threads[t].pc.Asleep? || s.threads[t].pc.WillWait? ==> s.threads[t].pc.at < s.now
  }

  ghost predicate Inv(s: System) {
    TableOk(s.table) && LockOk(s) && LockHolderKnown(s) && RefsLive(s) && RefsCounted(s) && QueuesOk(s) && StampsOk(s)
  }

  // -------------------------------------------- what each step keeps

  lemma TableSize(t: Table)
    requires TableOk(t)
    ensures |t.buckets| == FUTEX_HASH_SIZE
  {
  }

  lemma InvSize(s: System)
    requires Inv(s)
    ensures |s.table.buckets| == FUTEX_HASH_SIZE
  {
    TableSize(s.table);
  }

  lemma SetWaitersOk(t: Table, f: FutexId, ws: set<Tid>)
    requires TableOk(t)
    ensures TableOk(SetWaiters(t, f, ws))
  {
    var u := SetWaiters(t, f, ws);
    hide Hash;
    forall h | 0 <= h < FUTEX_HASH_SIZE ensures BucketOk(u.buckets[h], h, u.futexes) {
      assert BucketOk(t.buckets[h], h, t.futexes);
    }
  }

  // The state after a futex_get by t that takes it to pc.
  function AfterGet(s: System, t: Tid, addr: nat, f: FutexId, pc: Pc): System
    requires |s.table.buckets| == FUTEX_HASH_SIZE && t in s.threads
  {
    s.(now := s.now + 1, table := Gotten(s.table, s.threads[t].mem, addr, f), lock := Some(t), threads := Moved(s, t, pc))
  }

  ghost predicate GetOk(s: System, t: Tid, addr: nat, f: FutexId, pc: Pc) {
    && |s.table.buckets| == FUTEX_HASH_SIZE && t in s.threads && s.threads[t].pc.Running? && s.lock.None?
    && (pc.WaitGot? || pc.WakeGot?) && pc.f == f
    && (f in s.table.futexes ==> Matches(s.table.futexes[f], s.threads[t].mem, addr))
  }

  lemma GetLive(s: System, t: Tid, addr: nat, f: FutexId, pc: Pc)
    requires GetOk(s, t, addr, f, pc) && RefsLive(s) && LockOk(s) && LockHolderKnown(s) && StampsOk(s)
    ensures var u := AfterGet(s, t, addr, f, pc); RefsLive(u) && LockOk(u) && LockHolderKnown(u) && StampsOk(u)
  {
    hide Hash;
  }

  lemma GetCounts(s: System, t: Tid, addr: nat, f: FutexId, pc: Pc)
    requires GetOk(s, t, addr, f, pc) && RefsLive(s) && RefsCounted(s)
    ensures RefsCounted(AfterGet(s, t, addr, f, pc))
  {
    hide Hash, Holders;
    var u := AfterGet(s, t, addr, f, pc);
    NoHolders(s, f);
    hide RefsLive;
    forall g <- u.table.futexes ensures u.table.futexes[g].refcount == |Holders(u, g)| > 0 {
      GetHolders(s, t, addr, f, pc, g);
    }
  }

  lemma NoHolders(s: System, f: FutexId)
    requires RefsLive(s)
    ensures f !in s.table.futexes ==> Holders(s, f) == {}
  {
  }

  lemma GetHolders(s: System, t: Tid, addr: nat, f: FutexId, pc: Pc, g: FutexId)
    requires GetOk(s, t, addr, f, pc)
    ensures Holders(AfterGet(s, t, addr, f, pc), g) == (if g == f then Holders(s, g) + {t} else Holders(s, g)) && t !in Holders(s, g)
  {
    hide Hash, Gotten;
  }

  lemma GetQueues(s: System, t: Tid, addr: nat, f: FutexId, pc: Pc)
    requires GetOk(s, t, addr, f, pc) && QueuesOk(s) && RefsLive(s)
    ensures QueuesOk(AfterGet(s, t, addr, f, pc))
  {
    hide Hash;
  }

  lemma GetKeeps(s: System, t: Tid, addr: nat, f: FutexId, pc: Pc)
    requires Inv(s) && t in s.threads && s.threads[t].pc.Running? && s.lock.None?
    requires MayGet(s.table, s.threads[t].mem, addr, f) && (pc.WaitGot? || pc.WakeGot?) && pc.f == f
    ensures Inv(AfterGet(s, t, addr, f, pc))
  {
    hide TableOk, Hash, Known, RefsLive, RefsCounted, LockOk, QueuesOk, StampsOk, LockHolderKnown;
    TableSize(s.table);
    GottenOk(s.table, s.threads[t].mem, addr, f);
    GetLive(s, t, addr, f, pc);
    GetCounts(s, t, addr, f, pc);
    GetQueues(s, t, addr, f, pc);
  }

  // The state after a futex_put of f by t.
  function AfterPut(s: System, t: Tid, f: FutexId): System
    requires |s.table.buckets| == FUTEX_HASH_SIZE && t in s.threads && f in s.table.futexes && s.table.futexes[f].refcount > 0
    requires s.threads[t].pc.Putting?
  {
    s.(now := s.now + 1, threads := Returned(s, t, s.threads[t].pc.res), lock := None, table := Dropped(s.table, f))
  }

  ghost predicate PutOk(s: System, t: Tid, f: FutexId) {
    && |s.table.buckets| == FUTEX_HASH_SIZE && t in s.threads && s.threads[t].pc.Putting? && s.threads[t].pc.f == f
    && f in s.table.futexes && s.table.futexes[f].refcount > 0
  }

  lemma PutHolders(s: System, t: Tid, f: FutexId, g: FutexId)
    requires PutOk(s, t, f)
    ensures Holders(AfterPut(s, t, f), g) == Holders(s, g) - {t}
    ensures t in Holders(s, g) <==> g == f
  {
    hide Hash, Dropped;
  }

  lemma PutCounts(s: System, t: Tid, f: FutexId)
    requires PutOk(s, t, f) && RefsCounted(s)
    ensures RefsCounted(AfterPut(s, t, f))
  {
    var u := AfterPut(s, t, f);
    hide Hash, Holders;
    forall g <- u.table.futexes ensures u.table.futexes[g].refcount == |Holders(u, g)| > 0 {
      PutHolders(s, t, f, g);
    }
  }

  lemma PutLive(s: System, t: Tid, f: FutexId)
    requires PutOk(s, t, f) && RefsLive(s) && RefsCounted(s)
    ensures RefsLive(AfterPut(s, t, f))
  {
    var u := AfterPut(s, t, f);
    hide Hash;
    forall x <- u.threads | Ref(u.threads[x].pc).Some?
      ensures u.threads[x].pc.f in u.table.futexes && u.table.futexes[u.threads[x].pc.f].mem == u.threads[x].mem
    {
      if s.threads[x].pc.f == f { TwoHolders(Holders(s, f), t, x); }
    }
  }

  lemma PutRest(s: System, t: Tid, f: FutexId)
    requires PutOk(s, t, f) && QueuesOk(s) && LockOk(s) && StampsOk(s)
    ensures var u := AfterPut(s, t, f); QueuesOk(u) && LockOk(u) && StampsOk(u) && LockHolderKnown(u)
  {
    hide Hash, Without;
  }

  lemma PutReady(s: System, t: Tid)
    requires RefsLive(s) && RefsCounted(s) && At(s, t).Putting? && |s.table.buckets| == FUTEX_HASH_SIZE
    ensures PutOk(s, t, At(s, t).f)
  {
  }

  lemma PutKeeps(s: System, t: Tid)
    requires Inv(s) && Enabled(s, PutStep(t))
    ensures Inv(Next(s, PutStep(t)))
  {
    hide TableOk, Hash, RefsLive, RefsCounted, LockOk, QueuesOk, StampsOk, LockHolderKnown, Dropped;
    TableSize(s.table);
    var f := At(s, t).f;
    PutReady(s, t);
    DroppedOk(s.table, f);
    PutCounts(s, t, f);
    PutLive(s, t, f);
    PutRest(s, t, f);
  }

  lemma TwoHolders(ts: set<Tid>, t: Tid, x: Tid)
    requires t in ts && x in ts && t != x
    ensures |ts| >= 2
  {
    assert {t, x} <= ts;
    assert |ts - {t}| >= 1 by { assert x in ts - {t}; }
  }

  // Moves of one thread that stays with its futex.
  lemma StayKeeps(s: System, u: System, t: Tid)
    requires Inv(s) && t in s.threads && u.table.futexes.Keys == s.table.futexes.Keys
    requires forall f <- s.table.futexes :: u.table.futexes[f].mem == s.table.futexes[f].mem && u.table.futexes[f].refcount == s.table.futexes[f].refcount
    requires u.threads.Keys == s.threads.Keys
    requires forall x <- s.threads :: u.threads[x].mem == s.threads[x].mem && Ref(u.threads[x].pc) == Ref(s.threads[x].pc)
    ensures RefsLive(u) && RefsCounted(u)
  {
    hide TableOk, LockOk, QueuesOk, StampsOk;
    forall f <- u.table.futexes ensures Holders(u, f) == Holders(s, f) {}
  }

  lemma LoadKeeps(s: System, t: Tid)
    requires Inv(s) && Enabled(s, LoadStep(t))
    ensures Inv(Next(s, LoadStep(t)))
  {
    hide TableOk, RefsCounted;
    TableSize(s.table);
    StayKeeps(s, Next(s, LoadStep(t)), t);
  }

  lemma SleepKeeps(s: System, t: Tid, signalled: bool)
    requires Inv(s) && Enabled(s, SleepStep(t, signalled))
    ensures Inv(Next(s, SleepStep(t, signalled)))
  {
    hide TableOk, RefsCounted;
    TableSize(s.table);
    SetWaitersOk(s.table, At(s, t).f, Waiters(s.table, At(s, t).f) + {t});
    StayKeeps(s, Next(s, SleepStep(t, signalled)), t);
  }

  lemma WakeUpKeeps(s: System, t: Tid, timedOut: bool)
    requires Inv(s) && Enabled(s, WakeUpStep(t, timedOut))
    ensures Inv(Next(s, WakeUpStep(t, timedOut)))
  {
    hide TableOk, RefsCounted;
    TableSize(s.table);
    SetWaitersOk(s.table, At(s, t).f, Waiters(s.table, At(s, t).f) - {t});
    StayKeeps(s, Next(s, WakeUpStep(t, timedOut)), t);
  }

  lemma RelockKeeps(s: System, t: Tid, signalled: bool)
    requires Inv(s) && Enabled(s, RelockStep(t, signalled))
    ensures Inv(Next(s, RelockStep(t, signalled)))
  {
    hide TableOk, RefsCounted;
    TableSize(s.table);
    StayKeeps(s, Next(s, RelockStep(t, signalled)), t);
  }

  function Chosen(s: System, t: Tid, chosen: Option<Tid>): set<Tid>
    requires At(s, t).WakeGot?
  {
    if At(s, t).val == 1 then (if chosen.Some? then {chosen.value} else {}) else Waiters(s.table, At(s, t).f)
  }

  lemma NotifyQueues(s: System, t: Tid, chosen: Option<Tid>)
    requires |s.table.buckets| == FUTEX_HASH_SIZE && Enabled(s, NotifyStep(t, chosen))
    requires QueuesOk(s) && RefsLive(s) && LockOk(s) && StampsOk(s) && LockHolderKnown(s)
    ensures var u := Next(s, NotifyStep(t, chosen)); QueuesOk(u) && LockOk(u) && StampsOk(u) && LockHolderKnown(u)
  {
  }

  lemma NotifyKeeps(s: System, t: Tid, chosen: Option<Tid>)
    requires Inv(s) && Enabled(s, NotifyStep(t, chosen))
    ensures Inv(Next(s, NotifyStep(t, chosen)))
  {
    hide TableOk, RefsCounted, RefsLive, QueuesOk, LockOk, StampsOk, LockHolderKnown;
    TableSize(s.table);
    NotifyQueues(s, t, chosen);
    var f := At(s, t).f;
    SetWaitersOk(s.table, f, Waiters(s.table, f) - Chosen(s, t, chosen));
    StayKeeps(s, Next(s, NotifyStep(t, chosen)), t);
  }

  lemma MemoryKeeps(s: System, memory: map<Word, nat>)
    requires Inv(s)
    ensures Inv(s.(now := s.now + 1, memory := memory))
  {
    var u := s.(now := s.now + 1, memory := memory);
    hide TableOk;
    forall f <- u.table.futexes ensures Holders(u, f) == Holders(s, f) {}
  }

  lemma StepKeeps(s: System, step: Step)
    requires Inv(s) && Enabled(s, step)
    ensures Inv(Next(s, step))
  {
    hide LockOk, RefsLive, RefsCounted, QueuesOk, StampsOk, LockHolderKnown;
    match step {
      case StoreStep(w, v) => MemoryKeeps(s, s.memory[w := v]);
      case UnmapStep(w) => MemoryKeeps(s, s.memory - {w});
      case WaitGetStep(t, addr, val, f) => GetKeeps(s, t, addr, f, WaitGot(f, val));
      case WakeGetStep(t, addr, val, f) => GetKeeps(s, t, addr, f, WakeGot(f, val));
      case LoadStep(t) => LoadKeeps(s, t);
      case SleepStep(t, signalled) => SleepKeeps(s, t, signalled);
      case WakeUpStep(t, timedOut) => WakeUpKeeps(s, t, timedOut);
      case RelockStep(t, signalled) => RelockKeeps(s, t, signalled);
      case NotifyStep(t, chosen) => NotifyKeeps(s, t, chosen);
      case PutStep(t) => PutKeeps(s, t);
    }
  }

  // ------------------------------------------------------------------ runs

  ghost predicate EnabledRun(s: System, steps: seq<Step>)
    decreases |steps|
  {
    steps == [] || (|s.table.buckets| == FUTEX_HASH_SIZE && Enabled(s, steps[0]) && EnabledRun(Next(s, steps[0]), steps[1..]))
  }

  ghost function Run(s: System, steps: seq<Step>): System
    requires EnabledRun(s, steps)
    decreases |steps|
  {
    if steps == [] then s else Run(Next(s, steps[0]), steps[1..])
  }

  /** Before any futex call: an empty table, every thread in guest code. */
  ghost predicate Init(s: System) {
    && |s.table.buckets| == FUTEX_HASH_SIZE && (forall h | 0 <= h < FUTEX_HASH_SIZE :: s.table.buckets[h] == [])
    && s.table.futexes == map[] && s.lock.None? && forall t <- s.threads :: s.threads[t].pc.Running?
  }

  lemma InitInv(s: System)
    requires Init(s)
    ensures Inv(s)
  {
    forall h | 0 <= h < FUTEX_HASH_SIZE ensures BucketOk(s.table.buckets[h], h, s.table.futexes) {}
  }

  lemma {:induction false} RunKeeps(s: System, steps: seq<Step>)
    requires Inv(s) && EnabledRun(s, steps)
    ensures Inv(Run(s, steps)) && Run(s, steps).now == s.now + |steps|
    decreases |steps|
  {
    hide Inv, Enabled, Next;
    if steps != [] {
      StepKeeps(s, steps[0]);
      NextNow(s, steps[0]);
      RunKeeps(Next(s, steps[0]), steps[1..]);
    }
  }

  /** In every reachable state there is one live futex per address space and address, its refcount is the
      number of threads between futex_get and futex_put, and with no such thread there is no futex left. */
  lemma ReachableFutexes(s: System, steps: seq<Step>)
    requires Init(s) && EnabledRun(s, steps)
    ensures var u := Run(s, steps);
            && UniqueKeys(u.table.futexes)
            && (forall f <- u.table.futexes :: u.table.futexes[f].refcount == |Holders(u, f)|)
            && ((forall t <- u.threads :: u.threads[t].pc.Running?) ==> u.table.futexes == map[])
  {
    InitInv(s);
    RunKeeps(s, steps);
    var u := Run(s, steps);
    hide RefsLive, QueuesOk, StampsOk, LockOk, Init, Run, EnabledRun;
    if forall t <- u.threads :: u.threads[t].pc.Running? {
      forall f ensures f !in u.table.futexes { assert Holders(u, f) == {}; }
    }
  }

  // ------------------------------------------------- who waits, and why

  // The guest word a thread's futex stands for.
  function WordOf(s: System, t: Tid): Word
    requires t in s.threads && Ref(s.threads[t].pc).Some? && s.threads[t].pc.f in s.table.futexes
  {
    Word(s.threads[t].mem, s.table.futexes[s.threads[t].pc.f].addr)
  }

  /** futex_wait goes to sleep exactly if the word is mapped and holds val; otherwise it returns EFAULT or EAGAIN. */
  lemma LoadDecides(s: System, t: Tid)
    requires Inv(s) && Enabled(s, LoadStep(t))
    ensures s.threads[t].pc.f in s.table.futexes
    ensures var w, val, pc := WordOf(s, t), s.threads[t].pc.val, Next(s, LoadStep(t)).threads[t].pc;
            && (pc.WillWait? <==> w in s.memory && s.memory[w] == val)
            && (w in s.memory && s.memory[w] == val ==> pc == WillWait(s.threads[t].pc.f, s.now))
            && (w in s.memory && s.memory[w] != val ==> pc == Putting(s.threads[t].pc.f, EAGAIN))
            && (w !in s.memory ==> pc == Putting(s.threads[t].pc.f, EFAULT))
  {
    hide TableOk, LockOk, RefsCounted, QueuesOk, StampsOk, LockHolderKnown;
    TableSize(s.table);
  }

  // Those whom a notify of f may wake.
  ghost function Sleepers(s: System, f: FutexId): set<Tid> {
    set t | t in s.threads && s.threads[t].pc.Asleep? && s.threads[t].pc.f == f
  }

  // The thread goes from sleep to wanting the lock back, and nothing else about it changes.
  predicate WokenUp(a: Thread, b: Thread, timedOut: bool) { a.pc.Asleep? && b == a.(pc := Woken(a.pc.f, timedOut)) }

  /** FUTEX_WAKE of one wakes exactly one sleeper of its futex if there is one, FUTEX_WAKE of all wakes them all; everybody else
      but the caller stays as they were, and the caller returns the number it was given. */
  lemma NotifyWakes(s: System, t: Tid, chosen: Option<Tid>)
    requires Inv(s) && Enabled(s, NotifyStep(t, chosen))
    ensures var u, f, val := Next(s, NotifyStep(t, chosen)), s.threads[t].pc.f, s.threads[t].pc.val;
            var woken := Sleepers(s, f) - Sleepers(u, f);
            && u.threads.Keys == s.threads.Keys && Sleepers(u, f) <= Sleepers(s, f)
            && (val == 1 && Sleepers(s, f) != {} ==> chosen.Some? && woken == {chosen.value})
            && (val == WAKE_ALL ==> woken == Sleepers(s, f))
            && (forall x <- woken :: WokenUp(s.threads[x], u.threads[x], false))
            && (forall x <- s.threads | x != t && x !in woken :: u.threads[x] == s.threads[x])
            && u.threads[t] == s.threads[t].(pc := Putting(f, val))
            && f in u.table.futexes && u.table.futexes[f].waiters == Sleepers(s, f) - woken
            && u.memory == s.memory && u.lock == s.lock
  {
    hide TableOk, LockOk, RefsCounted, StampsOk, LockHolderKnown;
    TableSize(s.table);
    var f := s.threads[t].pc.f;
    assert Waiters(s.table, f) == Sleepers(s, f);
    var u := Next(s, NotifyStep(t, chosen));
    hide Next;
    assert forall x <- Sleepers(u, f) :: x in Sleepers(s, f);
  }

  /** The rest of futex_wait: a pending signal keeps a thread from sleeping; one that sleeps gives up the lock and joins the queue;
      a timeout or signal takes it out; once it has the lock back it returns ETIMEDOUT, EINTR or 0; and futex_put gives the
      lock up and returns what was decided. */
  lemma WaitReturns(s: System, step: Step)
    requires Inv(s) && Enabled(s, step) && (step.SleepStep? || step.WakeUpStep? || step.RelockStep? || step.PutStep?)
    ensures var u, t := Next(s, step), step.t;
            var was, now, f := s.threads[t], u.threads[t], s.threads[t].pc.f;
            match step
            case SleepStep(_, signalled) =>
              if signalled then now == was.(pc := Putting(f, EINTR)) && u.lock == Some(t) && Sleepers(u, f) == Sleepers(s, f)
              else now == was.(pc := Asleep(f, was.pc.at)) && u.lock == None && Sleepers(u, f) == Sleepers(s, f) + {t}
            case WakeUpStep(_, timedOut) => WokenUp(was, now, timedOut) && u.lock == s.lock && Sleepers(u, f) == Sleepers(s, f) - {t}
            case RelockStep(_, signalled) =>
              now == was.(pc := Putting(f, if was.pc.timedOut then ETIMEDOUT else if signalled then EINTR else 0)) && u.lock == Some(t)
            case PutStep(_) => now == was.(pc := Running, result := was.pc.res) && u.lock == None
  {
    hide TableOk, RefsCounted, QueuesOk, StampsOk, RefsLive, Hash, Without;
    TableSize(s.table);
  }

  // The thread whose step it is; guest stores are nobody's.
  predicate Mine(step: Step, t: Tid) { !step.StoreStep? && !step.UnmapStep? && step.t == t }

  /** A step changes the thread whose step it is, and no other except that a notify wakes sleepers; only guest stores and
      unmaps change memory. */
  lemma StepFrame(s: System, step: Step, x: Tid)
    requires Inv(s) && Enabled(s, step)
    ensures var u := Next(s, step);
            && u.threads.Keys == s.threads.Keys
            && (x in s.threads ==> u.threads[x].mem == s.threads[x].mem)
            && (x in s.threads && !Mine(step, x) ==>
                  u.threads[x] == s.threads[x] || (step.NotifyStep? && WokenUp(s.threads[x], u.threads[x], false)))
            && (forall f <- s.table.futexes | f in u.table.futexes ::
                  u.table.futexes[f].mem == s.table.futexes[f].mem && u.table.futexes[f].addr == s.table.futexes[f].addr)
            && u.memory == match step case StoreStep(w, v) => s.memory[w := v] case UnmapStep(w) => s.memory - {w} case _ => s.memory
  {
    hide TableOk, LockOk, RefsCounted, QueuesOk, StampsOk, LockHolderKnown, RefsLive, Hash, Without;
    TableSize(s.table);
  }

  // Step j of the run is the thread's futex_get for that word, with that futex and val, and its last step before n.
  ghost predicate GotAt(steps: seq<Step>, t: Tid, f: FutexId, addr: nat, val: nat, j: nat, n: nat) {
    j < n <= |steps| && steps[j] == WaitGetStep(t, addr, val, f) && forall i | j < i < n :: !Mine(steps[i], t)
  }

  // The thread's futex_wait has come to its futex_load.
  ghost predicate Fetched(s: System, steps: seq<Step>, t: Tid, f: FutexId, val: nat)
    requires EnabledRun(s, steps) && t in s.threads
  {
    exists j, addr :: GotAt(steps, t, f, addr, val, j, |steps|)
                      && f in Run(s, steps).table.futexes && Matches(Run(s, steps).table.futexes[f], s.threads[t].mem, addr)
  }

  // Step k is the thread's load, and the word at addr held the val of its futex_wait in the state before it.
  ghost predicate LoadedVal(s: System, steps: seq<Step>, t: Tid, f: FutexId, addr: nat, k: nat)
    requires EnabledRun(s, steps) && t in s.threads && k < |steps|
  {
    EnabledPrefix(s, steps, k);
    exists j, val :: GotAt(steps, t, f, addr, val, j, k) && steps[k] == LoadStep(t)
      && var memory, w := Run(s, steps[..k]).memory, Word(s.threads[t].mem, addr); w in memory && memory[w] == val
  }

  lemma {:induction false} EnabledPrefix(s: System, steps: seq<Step>, k: nat)
    requires EnabledRun(s, steps) && k <= |steps|
    ensures EnabledRun(s, steps[..k])
    decreases |steps|
  {
    hide Enabled, Next;
    if k > 0 {
      EnabledPrefix(Next(s, steps[0]), steps[1..], k - 1);
      assert steps[..k][1..] == steps[1..][..k - 1];
    }
  }

  // The last step of a run.
  lemma {:induction false} RunLast(s: System, steps: seq<Step>, step: Step)
    requires EnabledRun(s, steps + [step])
    ensures EnabledRun(s, steps)
    ensures var a := Run(s, steps);
            |a.table.buckets| == FUTEX_HASH_SIZE && Enabled(a, step) && Run(s, steps + [step]) == Next(a, step)
    decreases |steps|
  {
    hide Enabled, Next;
    var all := steps + [step];
    if steps == [] {
      assert all == [step] && all[1..] == [];
    } else {
      assert all[1..] == steps[1..] + [step];
      RunLast(Next(s, steps[0]), steps[1..], step);
    }
  }

  // What the run says about a thread inside futex_wait.
  ghost predicate WaitExplained(s: System, steps: seq<Step>, t: Tid)
    requires EnabledRun(s, steps) && t in s.threads
  {
    var u := Run(s, steps);
    && u.threads.Keys == s.threads.Keys && u.threads[t].mem == s.threads[t].mem
    && (u.threads[t].pc.WaitGot? ==> Fetched(s, steps, t, u.threads[t].pc.f, u.threads[t].pc.val))
    && (u.threads[t].pc.WillWait? || u.threads[t].pc.Asleep? ==>
          var pc := u.threads[t].pc;
          && s.now <= pc.at < s.now + |steps| && pc.f in u.table.futexes
          && LoadedVal(s, steps, t, pc.f, u.table.futexes[pc.f].addr, pc.at - s.now))
  }

  lemma GotMore(steps: seq<Step>, x: Step, t: Tid, f: FutexId, addr: nat, val: nat, j: nat, n: nat)
    requires GotAt(steps, t, f, addr, val, j, n)
    ensures GotAt(steps + [x], t, f, addr, val, j, n)
    ensures n == |steps| && !Mine(x, t) ==> GotAt(steps + [x], t, f, addr, val, j, n + 1)
  {
  }

  lemma LoadedMore(s: System, steps: seq<Step>, x: Step, t: Tid, f: FutexId, addr: nat, k: nat)
    requires EnabledRun(s, steps) && EnabledRun(s, steps + [x]) && t in s.threads && k < |steps|
    requires LoadedVal(s, steps, t, f, addr, k)
    ensures LoadedVal(s, steps + [x], t, f, addr, k)
  {
    hide Enabled, Next, Run, GotAt, EnabledRun, Matches;
    var j, val :| GotAt(steps, t, f, addr, val, j, k) && steps[k] == LoadStep(t)
      && (EnabledPrefix(s, steps, k); var memory, w := Run(s, steps[..k]).memory, Word(s.threads[t].mem, addr); w in memory && memory[w] == val);
    GotMore(steps, x, t, f, addr, val, j, k);
    assert (steps + [x])[..k] == steps[..k];
  }

  // What a thread's own steps do to it, as far as futex_wait goes.
  lemma OwnStep(s: System, x: Step, t: Tid)
    requires Inv(s) && Enabled(s, x) && Mine(x, t)
    ensures var u := Next(s, x);
            && t in s.threads && t in u.threads
            && (u.threads[t].pc.WaitGot? ==>
                  && x.WaitGetStep? && u.threads[t].pc == WaitGot(x.f, x.val)
                  && x.f in u.table.futexes && Matches(u.table.futexes[x.f], s.threads[t].mem, x.addr))
            && (u.threads[t].pc.WillWait? ==> x.LoadStep?)
            && (u.threads[t].pc.Asleep? ==> x.SleepStep? && s.threads[t].pc == WillWait(u.threads[t].pc.f, u.threads[t].pc.at))
  {
    hide TableOk, LockOk, RefsCounted, StampsOk, LockHolderKnown, Hash, Without;
    TableSize(s.table);
  }

  lemma LiveRef(s: System, t: Tid)
    requires Inv(s) && t in s.threads && Ref(s.threads[t].pc).Some?
    ensures s.threads[t].pc.f in s.table.futexes && s.table.futexes[s.threads[t].pc.f].mem == s.threads[t].mem
  {
  }

  // The witnesses behind Fetched.
  lemma FetchedBy(s: System, p: seq<Step>, t: Tid, f: FutexId, val: nat) returns (j: nat, addr: nat)
    requires EnabledRun(s, p) && t in s.threads && Fetched(s, p, t, f, val)
    ensures GotAt(p, t, f, addr, val, j, |p|)
    ensures f in Run(s, p).table.futexes && Matches(Run(s, p).table.futexes[f], s.threads[t].mem, addr)
  {
    hide Enabled, Next, Run, EnabledRun, GotAt;
    j, addr :| GotAt(p, t, f, addr, val, j, |p|) && f in Run(s, p).table.futexes && Matches(Run(s, p).table.futexes[f], s.threads[t].mem, addr);
  }

  lemma LoadedBy(s: System, p: seq<Step>, t: Tid, f: FutexId, addr: nat, val: nat, j: nat)
    requires EnabledRun(s, p) && EnabledRun(s, p + [LoadStep(t)]) && t in s.threads && GotAt(p, t, f, addr, val, j, |p|)
    requires var memory, w := Run(s, p).memory, Word(s.threads[t].mem, addr); w in memory && memory[w] == val
    ensures LoadedVal(s, p + [LoadStep(t)], t, f, addr, |p|)
  {
    hide Enabled, Next, Run, EnabledRun, GotAt;
    GotMore(p, LoadStep(t), t, f, addr, val, j, |p|);
    assert (p + [LoadStep(t)])[..|p|] == p;
  }

  // The step extends the run p, which explains t.
  ghost predicate Extends(s: System, p: seq<Step>, x: Step, t: Tid) {
    && EnabledRun(s, p + [x]) && EnabledRun(s, p) && t in s.threads && WaitExplained(s, p, t)
    && var a := Run(s, p);
       Inv(a) && a.now == s.now + |p| && |a.table.buckets| == FUTEX_HASH_SIZE && Enabled(a, x) && Run(s, p + [x]) == Next(a, x)
  }

  // A thread that did not move keeps its explanation.
  lemma StillExplained(s: System, p: seq<Step>, x: Step, t: Tid)
    requires Extends(s, p, x, t) && !Mine(x, t)
    ensures WaitExplained(s, p + [x], t)
  {
    hide Inv, Enabled, Next, Run, EnabledRun, LoadedVal, GotAt;
    var a, u := Run(s, p), Run(s, p + [x]);
    StepFrame(a, x, t);
    StepKeeps(a, x);
    var pc := u.threads[t].pc;
    if pc.WaitGot? {
      var j, addr := FetchedBy(s, p, t, pc.f, pc.val);
      GotMore(p, x, t, pc.f, addr, pc.val, j, |p|);
      LiveRef(u, t);
    } else if pc.WillWait? || pc.Asleep? {
      LiveRef(u, t);
      LoadedMore(s, p, x, t, pc.f, a.table.futexes[pc.f].addr, pc.at - s.now);
    }
  }

  // A load leaves its thread putting, or about to wait because the word held val.
  lemma LoadFacts(s: System, t: Tid)
    requires Inv(s) && Enabled(s, LoadStep(t))
    ensures var u := Next(s, LoadStep(t));
            && t in s.threads && s.threads[t].pc.WaitGot? && s.threads[t].pc.f in s.table.futexes
            && u.threads.Keys == s.threads.Keys && u.threads[t].mem == s.threads[t].mem && u.table == s.table
            && (u.threads[t].pc.Putting?
                || (u.threads[t].pc == WillWait(s.threads[t].pc.f, s.now)
                    && WordOf(s, t) in s.memory && s.memory[WordOf(s, t)] == s.threads[t].pc.val))
  {
    LoadDecides(s, t);
    hide TableOk, LockOk, RefsCounted, QueuesOk, StampsOk, LockHolderKnown, AfterLoad;
    TableSize(s.table);
  }

  lemma LoadExplained(s: System, p: seq<Step>, t: Tid)
    requires Extends(s, p, LoadStep(t), t)
    ensures WaitExplained(s, p + [LoadStep(t)], t)
  {
    hide Inv, Enabled, Next, Run, EnabledRun, GotAt, LoadedVal, Fetched;
    var a := Run(s, p);
    LoadFacts(a, t);
    var pc := a.threads[t].pc;
    var j, addr := FetchedBy(s, p, t, pc.f, pc.val);
    if !Next(a, LoadStep(t)).threads[t].pc.Putting? {
      LoadedBy(s, p, t, pc.f, addr, pc.val, j);
    }
  }

  lemma GetExplained(s: System, p: seq<Step>, x: Step, t: Tid)
    requires Extends(s, p, x, t) && x.WaitGetStep? && x.t == t
    ensures WaitExplained(s, p + [x], t)
  {
    hide Inv, Enabled, Next, Run, EnabledRun, LoadedVal;
    var a, u := Run(s, p), Run(s, p + [x]);
    OwnStep(a, x, t);
    StepFrame(a, x, t);
    if u.threads[t].pc.WaitGot? {
      assert GotAt(p + [x], t, u.threads[t].pc.f, x.addr, u.threads[t].pc.val, |p|, |p| + 1);
    }
  }

  lemma OtherExplained(s: System, p: seq<Step>, x: Step, t: Tid)
    requires Extends(s, p, x, t) && Mine(x, t) && !x.WaitGetStep? && !x.LoadStep?
    ensures WaitExplained(s, p + [x], t)
  {
    hide Inv, Enabled, Next, Run, EnabledRun, LoadedVal, Fetched;
    var a, u := Run(s, p), Run(s, p + [x]);
    OwnStep(a, x, t);
    StepFrame(a, x, t);
    StepKeeps(a, x);
    var pc := u.threads[t].pc;
    if pc.Asleep? {
      LiveRef(u, t);
      LoadedMore(s, p, x, t, pc.f, a.table.futexes[pc.f].addr, pc.at - s.now);
    }
  }

  lemma StepExplained(s: System, p: seq<Step>, x: Step, t: Tid)
    requires Extends(s, p, x, t)
    ensures WaitExplained(s, p + [x], t)
  {
    hide Inv, Enabled, Next, Run, EnabledRun, WaitExplained;
    if !Mine(x, t) {
      StillExplained(s, p, x, t);
    } else if x.LoadStep? {
      LoadExplained(s, p, t);
    } else if x.WaitGetStep? {
      GetExplained(s, p, x, t);
    } else {
      OtherExplained(s, p, x, t);
    }
  }

  /** Over every run from the start: a thread that sleeps, or is about to, with stamp `at` found its word mapped and holding the
      val of its own futex_wait in the state before step `at`. */
  lemma {:induction false} WaitersLoadedVal(s: System, steps: seq<Step>, t: Tid)
    requires Init(s) && EnabledRun(s, steps) && t in s.threads
    ensures WaitExplained(s, steps, t)
    decreases |steps|
  {
    if steps != [] {
      hide Inv, Enabled, Next, Run, EnabledRun, Init, WaitExplained;
      var n := |steps| - 1;
      var p, x := steps[..n], steps[n];
      assert steps == p + [x];
      RunLast(s, p, x);
      WaitersLoadedVal(s, p, t);
      InitInv(s);
      RunKeeps(s, p);
      StepExplained(s, p, x, t);
    }
  }

  // ------------------------------------------------------ no lost wakeup

  // Thread t sleeps, or is about to, on the futex of w.
  ghost predicate WaitsOn(s: System, t: Tid, w: Word) {
    && t in s.threads && (s.threads[t].pc.Asleep? || s.threads[t].pc.WillWait?)
    && s.threads[t].pc.f in s.table.futexes && Matches(s.table.futexes[s.threads[t].pc.f], w.mem, w.addr)
  }

  // Every thread waiting on w made its futex_load at step `since` or later.
  ghost predicate LoadedSince(s: System, w: Word, since: nat) {
    forall t | WaitsOn(s, t, w) :: s.threads[t].pc.at >= since
  }

  // The step is the notify of a FUTEX_WAKE of all waiters of w.
  ghost predicate WakesAll(s: System, step: Step, w: Word) {
    && step.NotifyStep? && Enabled(s, step) && At(s, step.t).val == WAKE_ALL
    && At(s, step.t).f in s.table.futexes && Matches(s.table.futexes[At(s, step.t).f], w.mem, w.addr)
  }

  // The step is the notify of a FUTEX_WAKE of one while at most one thread sleeps on w.
  ghost predicate WakesOnly(s: System, step: Step, w: Word) {
    && step.NotifyStep? && Enabled(s, step) && At(s, step.t).val == 1
    && At(s, step.t).f in s.table.futexes && Matches(s.table.futexes[At(s, step.t).f], w.mem, w.addr)
    && forall x, y | WaitsOn(s, x, w) && s.threads[x].pc.Asleep? && WaitsOn(s, y, w) && s.threads[y].pc.Asleep? :: x == y
  }

  /** A wake-all, or a wake of one while no two threads sleep there, leaves nobody waiting on its word: those asleep are woken,
      and nobody can be between load and sleep. */
  lemma WakeClears(s: System, step: Step, w: Word)
    requires Inv(s) && (WakesAll(s, step, w) || WakesOnly(s, step, w))
    ensures forall t :: !WaitsOn(Next(s, step), t, w)
  {
    if WakesAll(s, step, w) { WakeAllClears(s, step, w); } else { WakeOneClears(s, step, w); }
  }

  lemma WakeOneClears(s: System, step: Step, w: Word)
    requires Inv(s) && WakesOnly(s, step, w)
    ensures forall t :: !WaitsOn(Next(s, step), t, w)
  {
    var f, u := At(s, step.t).f, Next(s, step);
    WakeUnpack(s, step);
    SleeperWoken(s, step, w);
    hide Next, Inv, Enabled, WakesOnly;
    forall t | t in u.threads && u.threads[t].pc.Asleep? ensures !WaitsOn(u, t, w) {
      KeyDiffers(s.table.futexes, f, u.threads[t].pc.f, w);
    }
  }

  lemma OneSleeper(s: System, step: Step, w: Word)
    requires WakesOnly(s, step, w)
    ensures var f := At(s, step.t).f; forall x, y | x in Sleepers(s, f) && y in Sleepers(s, f) :: x == y
  {
    var f := At(s, step.t).f;
    hide Enabled;
    forall x <- Sleepers(s, f) ensures WaitsOn(s, x, w) {}
  }

  // A wake of one takes the only sleeper.
  lemma NobodySleeps(s: System, step: Step, w: Word)
    requires Inv(s) && WakesOnly(s, step, w)
    ensures Sleepers(Next(s, step), s.threads[step.t].pc.f) == {}
  {
    var f, u := s.threads[step.t].pc.f, Next(s, step);
    OneSleeper(s, step, w);
    hide Inv, Enabled, WakesOnly, Next;
    NotifyWakes(s, step.t, step.chosen);
    hide Sleepers, WokenUp;
    assert forall x <- Sleepers(u, f) :: x in Sleepers(s, f);
  }

  // So whoever still sleeps does so on another futex.
  lemma SleeperWoken(s: System, step: Step, w: Word)
    requires Inv(s) && WakesOnly(s, step, w)
    ensures var u := Next(s, step);
            forall x <- u.threads :: !u.threads[x].pc.WillWait? && (u.threads[x].pc.Asleep? ==> u.threads[x].pc.f != s.threads[step.t].pc.f)
  {
    var f, u := s.threads[step.t].pc.f, Next(s, step);
    WakeUnpack(s, step);
    NobodySleeps(s, step, w);
    hide Inv, Enabled, WakesOnly, Next;
    forall x <- u.threads ensures !u.threads[x].pc.WillWait? && (u.threads[x].pc.Asleep? ==> u.threads[x].pc.f != f) {
      assert x !in Sleepers(u, f);
      StepFrame(s, step, x);
      NotifierPuts(s, step);
    }
  }

  lemma NotifierPuts(s: System, step: Step)
    requires Inv(s) && Enabled(s, step) && step.NotifyStep?
    ensures Next(s, step).threads[step.t].pc.Putting?
  {
    NotifyWakes(s, step.t, step.chosen);
    hide Inv, Enabled, Next;
  }

  // What the proof above needs of the invariant and the frame.
  lemma WakeUnpack(s: System, step: Step)
    requires Inv(s) && step.NotifyStep? && Enabled(s, step)
    ensures UniqueKeys(s.table.futexes) && step.t in s.threads && s.threads[step.t].pc.WakeGot?
    ensures Next(s, step).table.futexes.Keys == s.table.futexes.Keys
    ensures forall f <- s.table.futexes :: Next(s, step).table.futexes[f].mem == s.table.futexes[f].mem
                                           && Next(s, step).table.futexes[f].addr == s.table.futexes[f].addr
    ensures forall x <- s.threads :: !s.threads[x].pc.WillWait?
  {
    TableSize(s.table);
    hide BucketOk, RefsCounted, QueuesOk, StampsOk, RefsLive;
  }

  /** A wake-all leaves nobody waiting on its word: those asleep are woken, and nobody can be between load and sleep. */
  lemma WakeAllClears(s: System, step: Step, w: Word)
    requires Inv(s) && WakesAll(s, step, w)
    ensures forall t :: !WaitsOn(Next(s, step), t, w)
  {
    var f := At(s, step.t).f;
    var u := Next(s, step);
    forall t ensures !WaitsOn(u, t, w) {
      if t in s.threads && s.threads[t].pc.Asleep? && s.threads[t].pc.f != f {
        KeyDiffers(s.table.futexes, f, s.threads[t].pc.f, w);
      }
    }
    hide RefsCounted, BucketOk;
  }

  lemma KeyDiffers(futexes: map<FutexId, Futex>, f: FutexId, g: FutexId, w: Word)
    requires UniqueKeys(futexes) && f != g && f in futexes && Matches(futexes[f], w.mem, w.addr)
    ensures g in futexes ==> !Matches(futexes[g], w.mem, w.addr)
  {
  }

  // The key of a live futex never changes, and a thread keeps its stamp while it waits.
  lemma WaitsOnBefore(s: System, step: Step, t: Tid, w: Word)
    requires Inv(s) && Enabled(s, step) && WaitsOn(Next(s, step), t, w)
    ensures Next(s, step).threads[t].pc.at == s.now || (WaitsOn(s, t, w) && Next(s, step).threads[t].pc.at == s.threads[t].pc.at)
  {
    hide TableOk, LockOk, RefsCounted, QueuesOk, Hash, MayGet, Without, StampsOk;
    TableSize(s.table);
  }

  lemma StepLoadedSince(s: System, step: Step, w: Word, since: nat)
    requires Inv(s) && Enabled(s, step) && LoadedSince(s, w, since) && since <= s.now
    ensures LoadedSince(Next(s, step), w, since)
  {
    hide TableOk, LockOk, RefsCounted, QueuesOk, RefsLive, StampsOk, Enabled, Next;
    TableSize(s.table);
    forall t | WaitsOn(Next(s, step), t, w) ensures Next(s, step).threads[t].pc.at >= since {
      WaitsOnBefore(s, step, t, w);
    }
  }

  lemma {:induction false} RunLoadedSince(s: System, steps: seq<Step>, w: Word, since: nat)
    requires Inv(s) && EnabledRun(s, steps) && LoadedSince(s, w, since) && since <= s.now
    ensures LoadedSince(Run(s, steps), w, since)
    decreases |steps|
  {
    hide Inv, Enabled, LoadedSince;
    if steps != [] {
      StepKeeps(s, steps[0]);
      StepLoadedSince(s, steps[0], w, since);
      NextNow(s, steps[0]);
      RunLoadedSince(Next(s, steps[0]), steps[1..], w, since);
    }
  }

  lemma NextNow(s: System, step: Step)
    requires |s.table.buckets| == FUTEX_HASH_SIZE && Enabled(s, step)
    ensures Next(s, step).now == s.now + 1
  {
  }

  /** No lost wakeup, over all interleavings and whatever hashes together: a store to w, anything, a wake-all on w, or a wake of
      one while at most one thread sleeps there, anything; then every thread still waiting on w loaded the word after the store, and even after the wake-all. */
  lemma NoLostWakeup(s: System, w: Word, v: nat, mid: seq<Step>, wake: Step, after: seq<Step>)
    requires Inv(s) && Enabled(s, StoreStep(w, v))
    requires var a := Next(s, StoreStep(w, v));
             EnabledRun(a, mid) && (WakesAll(Run(a, mid), wake, w) || WakesOnly(Run(a, mid), wake, w))
             && |Run(a, mid).table.buckets| == FUTEX_HASH_SIZE && EnabledRun(Next(Run(a, mid), wake), after)
    ensures var end := Run(Next(Run(Next(s, StoreStep(w, v)), mid), wake), after);
            forall t | WaitsOn(end, t, w) :: end.threads[t].pc.at >= s.now + |mid| + 2
  {
    hide Inv, Enabled, LoadedSince, WaitsOn, Next;
    InvSize(s);
    var a := Next(s, StoreStep(w, v));
    StepKeeps(s, StoreStep(w, v));
    NextNow(s, StoreStep(w, v));
    RunKeeps(a, mid);
    var b := Run(a, mid);
    WakeClears(b, wake, w);
    StepKeeps(b, wake);
    NextNow(b, wake);
    var c := Next(b, wake);
    assert LoadedSince(c, w, c.now) by { NobodyWaits(c, w, c.now); }
    RunLoadedSince(c, after, w, c.now);
    LoadedSinceMeans(Run(c, after), w, c.now);
  }

  lemma NobodyWaits(s: System, w: Word, since: nat)
    requires forall t :: !WaitsOn(s, t, w)
    ensures LoadedSince(s, w, since)
  {
  }

  lemma LoadedSinceMeans(s: System, w: Word, since: nat)
    requires LoadedSince(s, w, since)
    ensures forall t | WaitsOn(s, t, w) :: s.threads[t].pc.at >= since
  {
  }
}
