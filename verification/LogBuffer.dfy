/** The kernel log of kernel/log.c: a ring of bytes that keeps the newest ones. */
module LogBuffer {
  import opened Bytes
  import opened GuestMemory
  import opened HostMemory
  import opened UserCopy
  import ForkIsolation

  const LOG_BYTES: nat := 0x10_0000
  const EFAULT: int := -14
  const EINVAL: int := -22

  const CLOSE: int := 0
  const OPEN: int := 1
  const READ: int := 2
  const READ_ALL: int := 3
  const READ_CLEAR: int := 4
  const CLEAR: int := 5
  const CONSOLE_OFF: int := 6
  const CONSOLE_ON: int := 7
  const CONSOLE_LEVEL: int := 8
  const SIZE_UNREAD: int := 9
  const SIZE_BUFFER: int := 10

  /** What a ring can keep of a stream: its last LOG_BYTES bytes. */
  function Window(s: seq<byte>): (w: seq<byte>)
    ensures |w| <= LOG_BYTES
  {
    if |s| <= LOG_BYTES then s else s[|s| - LOG_BYTES..]
  }

  // The number of bytes a read of `total` returns; a negative count is a huge one after conversion to size_t.
  function Taken(size: nat, total: int): (n: nat)
    ensures n <= size
  {
    if total < 0 || total > size then size else total
  }

  // ---------------------------------------------------- what appends keep

  lemma WindowAppend(a: seq<byte>, b: seq<byte>)
    ensures Window(Window(a) + b) == Window(a + b)
  {
    var n := |a + b|;
    if |a| > LOG_BYTES {
      assert Window(a) + b == (a + b)[|a| - LOG_BYTES..];
    }
  }

  lemma WindowSelf(a: seq<byte>)
    requires |a| <= LOG_BYTES
    ensures Window(a + []) == a
  {
    assert a + [] == a;
  }

  function Concat(msgs: seq<seq<byte>>): seq<byte> { if msgs == [] then [] else msgs[0] + Concat(msgs[1..]) }

  function Appended(log: seq<byte>, msgs: seq<seq<byte>>): seq<byte>
    decreases |msgs|
  {
    if msgs == [] then log else Appended(Window(log + msgs[0]), msgs[1..])
  }

  /** After any appends the log is the last LOG_BYTES bytes of what was unread and what was appended. */
  lemma {:induction false} AppendsKeepNewest(log: seq<byte>, msgs: seq<seq<byte>>)
    requires |log| <= LOG_BYTES
    ensures Appended(log, msgs) == Window(log + Concat(msgs))
    decreases |msgs|
  {
    hide Window;
    if msgs == [] {
      WindowSelf(log);
    } else {
      AppendsKeepNewest(Window(log + msgs[0]), msgs[1..]);
      WindowAppend(log + msgs[0], Concat(msgs[1..]));
      Associate(log, msgs[0], Concat(msgs[1..]));
    }
  }

  // ------------------------------------------------------------ the ring

  /** size bytes of the ring from position head on. */
  function Ring(buf: seq<byte>, head: nat, size: nat): (s: seq<byte>)
    requires |buf| == LOG_BYTES && head < LOG_BYTES && size <= LOG_BYTES
    ensures |s| == size
  {
    seq(size, i requires 0 <= i < size => buf[(head + i) % LOG_BYTES])
  }

  lemma RingAt(buf: seq<byte>, head: nat, size: nat, i: nat)
    requires |buf| == LOG_BYTES && head < LOG_BYTES && i < size <= LOG_BYTES
    ensures Ring(buf, head, size)[i] == if head + i < LOG_BYTES then buf[head + i] else buf[head + i - LOG_BYTES]
  {
  }

  // A stretch of the contents that does not wrap.
  lemma RingSlice(buf: seq<byte>, head: nat, size: nat, done: nat, p: nat, len: nat)
    requires |buf| == LOG_BYTES && head < LOG_BYTES && size <= LOG_BYTES && done + len <= size
    requires p == (head + done) % LOG_BYTES && p + len <= LOG_BYTES
    ensures buf[p..p + len] == Ring(buf, head, size)[done..done + len]
  {
    var left, right := buf[p..p + len], Ring(buf, head, size)[done..done + len];
    forall i | 0 <= i < len ensures left[i] == right[i] {
      RingAt(buf, head, size, done + i);
      hide Ring;
    }
  }

  lemma Advance(head: nat, done: nat, len: nat)
    ensures ((head + done) % LOG_BYTES + len) % LOG_BYTES == (head + (done + len)) % LOG_BYTES
  {
  }

  // The new head and size after len more bytes.
  function NewHead(head: nat, size: nat, len: nat): nat {
    if size + len > LOG_BYTES then (head + size + len - LOG_BYTES) % LOG_BYTES else head
  }
  function NewSize(size: nat, len: nat): nat { if size + len > LOG_BYTES then LOG_BYTES else size + len }

  // The positions without the modulus.
  function Wrap(x: nat): nat { if x < LOG_BYTES then x else x - LOG_BYTES }

  lemma Positions(head: nat, size: nat, len: nat)
    requires head < LOG_BYTES && size <= LOG_BYTES && (head + size) % LOG_BYTES + len <= LOG_BYTES
    ensures (head + size) % LOG_BYTES == Wrap(head + size)
    ensures NewHead(head, size, len) == if size + len > LOG_BYTES then Wrap(head + size + len - LOG_BYTES) else head
    ensures NewHead(head, size, len) < LOG_BYTES && NewSize(size, len) <= LOG_BYTES
    ensures ((head + size) % LOG_BYTES + len) % LOG_BYTES == (NewHead(head, size, len) + NewSize(size, len)) % LOG_BYTES
  {
  }

  // Byte i of the new contents, counted from the first byte it keeps.
  lemma RingAppendAt(b: seq<byte>, c: seq<byte>, head: nat, size: nat, h: nat, n: nat, tail: nat, vs: seq<byte>, i: nat)
    requires |b| == LOG_BYTES && |c| == LOG_BYTES && head < LOG_BYTES && size <= LOG_BYTES && h < LOG_BYTES && n == NewSize(size, |vs|)
    requires tail == Wrap(head + size) && tail + |vs| <= LOG_BYTES && i < n
    requires h == if size + |vs| > LOG_BYTES then Wrap(head + size + |vs| - LOG_BYTES) else head
    requires forall j | 0 <= j < LOG_BYTES :: c[j] == if tail <= j < tail + |vs| then vs[j - tail] else b[j]
    ensures Ring(c, h, n)[i] == (Ring(b, head, size) + vs)[size + |vs| - n + i]
  {
    var k := size + |vs| - n + i;
    RingAt(c, h, n, i);
    if k < size { RingAt(b, head, size, k); }
    hide Ring;
  }

  lemma RingAppend(b: seq<byte>, c: seq<byte>, head: nat, size: nat, vs: seq<byte>)
    requires |b| == LOG_BYTES && head < LOG_BYTES && size <= LOG_BYTES && (head + size) % LOG_BYTES + |vs| <= LOG_BYTES
    requires c == Splice(b, (head + size) % LOG_BYTES, vs)
    ensures NewHead(head, size, |vs|) < LOG_BYTES && NewSize(size, |vs|) <= LOG_BYTES
    ensures Ring(c, NewHead(head, size, |vs|), NewSize(size, |vs|)) == Window(Ring(b, head, size) + vs)
    ensures ((head + size) % LOG_BYTES + |vs|) % LOG_BYTES == (NewHead(head, size, |vs|) + NewSize(size, |vs|)) % LOG_BYTES
  {
    Positions(head, size, |vs|);
    hide Ring, NewHead, Wrap, Window, Splice;
    var h, n, tail := NewHead(head, size, |vs|), NewSize(size, |vs|), (head + size) % LOG_BYTES;
    var all := Ring(b, head, size) + vs;
    forall i | 0 <= i < n ensures Ring(c, h, n)[i] == all[|all| - n + i] {
      RingAppendAt(b, c, head, size, h, n, tail, vs, i);
    }
    WindowIs(all, Ring(c, h, n));
  }

  lemma WindowIs(all: seq<byte>, w: seq<byte>)
    requires |w| == if |all| > LOG_BYTES then LOG_BYTES else |all|
    requires forall i | 0 <= i < |w| :: w[i] == all[|all| - |w| + i]
    ensures w == Window(all)
  {
  }

  class Log {
    const buf: array<byte>
    var head: nat
    var size: nat

    constructor ()
      ensures Valid() && fresh(buf) && Contents() == []
    {
      buf := new byte[LOG_BYTES](_ => 0);
      head, size := 0, 0;
    }

    ghost predicate Valid()
      reads this
    {
      buf.Length == LOG_BYTES && head < LOG_BYTES && size <= LOG_BYTES
    }

    // The unread bytes, oldest first.
    ghost function Contents(): (s: seq<byte>)
      requires Valid()
      reads this, buf
      ensures |s| == size
    {
      Ring(buf[..], head, size)
    }

    // memcpy into the ring, which the caller keeps from wrapping.
    method CopyIn(at: nat, msg: seq<byte>, m: nat, len: nat)
      requires buf.Length == LOG_BYTES && at + len <= LOG_BYTES && m + len <= |msg|
      modifies buf
      ensures buf[..] == Splice(old(buf[..]), at, msg[m..m + len])
    {
      for i := 0 to len
        invariant forall k | 0 <= k < LOG_BYTES :: buf[k] == if at <= k < at + i then msg[m + k - at] else old(buf[k])
      {
        buf[at + i] := msg[m + i];
      }
    }

    /** log_buf_append. */
    method Append(msg: seq<byte>)
      requires Valid()
      modifies this`head, this`size, buf
      ensures Valid() && Contents() == Window(old(Contents()) + msg)
    {
      ghost var s := Contents();
      var p := (head + size) % LOG_BYTES;
      var m: nat, remaining: nat := 0, |msg|;
      assert s + msg[..0] == s;
      while m < |msg|
        invariant Valid() && 0 <= m && m + remaining == |msg| && p == (head + size) % LOG_BYTES
        invariant Contents() == Window(s + msg[..m])
      {
        m, p, remaining := AppendChunk(msg, m, p, remaining, s);
      }
      assert msg[..m] == msg;
    }

    // One round of the loop.
    method AppendChunk(msg: seq<byte>, m: nat, p: nat, remaining: nat, ghost s: seq<byte>) returns (m': nat, p': nat, remaining': nat)
      requires Valid() && m < |msg| && m + remaining == |msg| && p == (head + size) % LOG_BYTES
      requires Contents() == Window(s + msg[..m])
      modifies this`head, this`size, buf
      ensures Valid() && m < m' <= |msg| && m' + remaining' == |msg| && p' == (head + size) % LOG_BYTES
      ensures Contents() == Window(s + msg[..m'])
    {
      hide Ring, Window, Splice;
      var tail := (head + size) % LOG_BYTES;
      var len := LOG_BYTES - tail;
      if len > remaining {
        len := remaining;
      }
      m' := m + len;
      RingAppend(buf[..], Splice(buf[..], p, msg[m..m']), head, size, msg[m..m']);
      CopyIn(p, msg, m, len);
      size := size + len;
      if size > LOG_BYTES {
        head := (head + size - LOG_BYTES) % LOG_BYTES;
        size := LOG_BYTES;
      }
      p', remaining' := (p + len) % LOG_BYTES, remaining - len;
      WindowAppend(s + msg[..m], msg[m..m']);
      assert s + msg[..m] + msg[m..m'] == s + msg[..m'];
    }

    // The loop of syslog_read: its chunks are bounded by the distance of `head`, not of the cursor, from the end.
    method Gather(total: nat) returns (b: seq<byte>)
      requires Valid() && total <= size
      ensures b == Contents()[..total]
    {
      hide Ring;
      var remaining := total;
      var p := head;
      b := [];
      while remaining > 0
        invariant 0 <= remaining <= total && p == (head + (total - remaining)) % LOG_BYTES
        invariant total - remaining == 0 || total - remaining >= LOG_BYTES - head || remaining == 0
        invariant b == Contents()[..total - remaining]
      {
        var len := remaining;
        if len > LOG_BYTES - head {
          len := LOG_BYTES - head;
        }
        ghost var done := total - remaining;
        RingSlice(buf[..], head, size, done, p, len);
        assert Contents()[..done] + Contents()[done..done + len] == Contents()[..done + len];
        b := b + buf[p..p + len];
        Advance(head, done, len);
        p := (p + len) % LOG_BYTES;
        remaining := remaining - len;
      }
    }

    /** syslog_read, which does not look at the start position it is given; -1 if the copy to the process fails. */
    method SyslogRead(h: Host, sid: SpaceId, addr: nat, total: int) returns (n: int)
      requires Valid() && h.Valid() && Inv(h.state) && sid in h.mems && addr < ADDR_SPACE && this !in h.Repr && buf !in h.Repr
      modifies h`blocks, h`state, h.Repr
      ensures h.Valid() && Inv(h.state)
      ensures var data := Contents()[..Taken(size, total)];
              && View(h.state) == WriteMany(View(old(h.state)), sid, addr, data).0
              && n == if WriteMany(View(old(h.state)), sid, addr, data).1 then |data| else -1
    {
      hide Inv, View, Ring, MemsValid, Mirrors, WriteMany;
      var count := Taken(size, total);
      var data := Gather(count);
      var ok := UserWrite(h, sid, addr, data);
      n := if ok then count else -1;
    }

    method Clear()
      requires Valid()
      modifies this`head, this`size
      ensures Valid() && Contents() == []
    {
      head, size := 0, 0;
    }

    // The READ action's last three lines.
    method Drop(n: nat)
      requires Valid() && n <= size
      modifies this`head, this`size
      ensures Valid() && Contents() == old(Contents())[n..]
    {
      RingDrop(buf[..], head, size, n);
      hide Ring;
      head := (head + n) % LOG_BYTES;
      size := size - n;
    }

    /** do_syslog. */
    method DoSyslog(h: Host, sid: SpaceId, action: int, addr: nat, len: int) returns (ret: int)
      requires Valid() && h.Valid() && Inv(h.state) && sid in h.mems && addr < ADDR_SPACE && this !in h.Repr && buf !in h.Repr
      modifies this`head, this`size, h`blocks, h`state, h.Repr
      ensures Valid() && h.Valid() && Inv(h.state)
      ensures (Contents(), View(h.state), ret) == Syslog(old(Contents()), View(old(h.state)), sid, action, addr, len)
    {
      hide Inv, View, Ring, MemsValid, Mirrors, WriteMany;
      if action == READ {
        var n := SyslogRead(h, sid, addr, len);
        if n < 0 {
          return EFAULT;
        }
        Drop(n);
        return n;
      } else if action == READ_ALL {
        ret := SyslogRead(h, sid, addr, len);
      } else if action == READ_CLEAR {
        ret := SyslogRead(h, sid, addr, len);
        Clear();
      } else if action == CLEAR {
        Clear();
        return 0;
      } else if action == SIZE_UNREAD {
        return size;
      } else if action == SIZE_BUFFER {
        return LOG_BYTES;
      } else if action in {CLOSE, OPEN, CONSOLE_OFF, CONSOLE_ON, CONSOLE_LEVEL} {
        return 0;
      } else {
        return EINVAL;
      }
    }
  }

  /** do_syslog on the unread bytes and the caller's memory. */
  ghost function Syslog(log: seq<byte>, a: map<Slot, Page>, sid: SpaceId, action: int, addr: nat, len: int): (seq<byte>, map<Slot, Page>, int) {
    var n := Taken(|log|, len);
    var (b, ok) := WriteMany(a, sid, addr, log[..n]);
    if action == READ then (if ok then (log[n..], b, n) else (log, b, EFAULT))
    else if action == READ_ALL then (log, b, if ok then n else -1)
    else if action == READ_CLEAR then ([], b, if ok then n else -1)
    else if action == CLEAR then ([], a, 0)
    else if action == SIZE_UNREAD then (log, a, |log|)
    else if action == SIZE_BUFFER then (log, a, LOG_BYTES)
    else (log, a, if action in {CLOSE, OPEN, CONSOLE_OFF, CONSOLE_ON, CONSOLE_LEVEL} then 0 else EINVAL)
  }

  lemma RingDrop(buf: seq<byte>, head: nat, size: nat, n: nat)
    requires |buf| == LOG_BYTES && head < LOG_BYTES && n <= size <= LOG_BYTES
    ensures Ring(buf, (head + n) % LOG_BYTES, size - n) == Ring(buf, head, size)[n..]
  {
    var h := (head + n) % LOG_BYTES;
    var before, after := Ring(buf, head, size), Ring(buf, h, size - n);
    forall i | 0 <= i < size - n ensures after[i] == before[n..][i] {
      RingAt(buf, h, size - n, i);
      RingAt(buf, head, size, n + i);
      hide Ring;
    }
    hide Ring;
  }

  /** READ_ALL is documented to return the newest bytes. Whatever the log holds, it does so exactly if the count takes
      nothing or everything. */
  lemma ReadAllNewestIff(size: nat, len: int)
    ensures (forall log: seq<byte> | |log| == size :: log[..Taken(size, len)] == log[size - Taken(size, len)..])
            <==> len == 0 || len < 0 || len >= size
  {
    var n := Taken(size, len);
    if 0 < len < size {
      var log: seq<byte> := seq(size, i => if i == 0 then 1 else 0);
      assert log[..n][0] == 1 && log[size - n..][0] == 0;
    } else {
      assert forall log: seq<byte> | |log| == size :: log[..n] == log[size - n..];
    }
  }

  // ------------------------------------------------------ what calls mean

  // What a call leaves in the caller's memory, and what it returns.
  datatype Answer = Answer(memory: map<Slot, Page>, ret: int)

  // The bytes b are what the process reads at addr, and every byte elsewhere that was mapped is as before.
  ghost predicate Got(a: map<Slot, Page>, m: map<Slot, Page>, sid: SpaceId, addr: nat, b: seq<byte>) {
    && ReadMany(m, sid, addr, |b|).1 == Some(b)
    && (forall x: nat | x < ADDR_SPACE && ForkIsolation.ReadPage(a, sid, x).Some? && (forall i | 0 <= i < |b| :: At(addr, i) != x) ::
          ForkIsolation.ReadPage(m, sid, x) == ForkIsolation.ReadPage(a, sid, x))
  }

  // A read of the oldest bytes: as many as asked for, all of them for a negative count.
  ghost predicate ReadsOldest(log: seq<byte>, a: map<Slot, Page>, sid: SpaceId, addr: nat, len: int, ans: Answer, error: int) {
    if ans.ret >= 0
    then ans.ret == (if len < 0 || len > |log| then |log| else len) && Got(a, ans.memory, sid, addr, log[..ans.ret])
    else ans.ret == error && !WriteMany(a, sid, addr, log[..Taken(|log|, len)]).1
  }

  /** READ takes the bytes it returns out of the log, and none if it fails. READ_ALL takes none. READ_CLEAR and CLEAR leave
      nothing unread. The others look at neither the log's bytes nor the process. */
  lemma CallMeaning(log: seq<byte>, a: map<Slot, Page>, sid: SpaceId, action: int, addr: nat, len: int)
    requires |log| <= LOG_BYTES && addr < ADDR_SPACE
    ensures var (rest, memory, ret) := Syslog(log, a, sid, action, addr, len);
            var ans := Answer(memory, ret);
            && (action == 2 ==> ReadsOldest(log, a, sid, addr, len, ans, EFAULT)
                                && (if ret >= 0 then log == log[..ret] + rest && |rest| == |log| - ret else rest == log))
            && (action == 3 ==> ReadsOldest(log, a, sid, addr, len, ans, -1) && rest == log)
            && (action == 4 ==> ReadsOldest(log, a, sid, addr, len, ans, -1) && rest == [])
            && (action == 5 ==> ret == 0 && rest == [])
            && (action == 9 ==> ret == |log|)
            && (action == 10 ==> ret == 0x10_0000)
            && (action in {0, 1, 6, 7, 8} ==> ret == 0)
            && (!(0 <= action <= 10) ==> ret == -22)
            && (!(2 <= action <= 4) ==> memory == a)
            && (!(2 <= action <= 5) ==> rest == log)
  {
    var n := Taken(|log|, len);
    if WriteMany(a, sid, addr, log[..n]).1 {
      TakenGot(a, sid, addr, log[..n]);
    }
    hide WriteMany, Got;
  }

  lemma TakenGot(a: map<Slot, Page>, sid: SpaceId, addr: nat, b: seq<byte>)
    requires |b| <= ADDR_SPACE && addr < ADDR_SPACE && WriteMany(a, sid, addr, b).1
    ensures Got(a, WriteMany(a, sid, addr, b).0, sid, addr, b)
  {
    var m := WriteMany(a, sid, addr, b).0;
    UserRoundTrip(a, sid, addr, b);
    forall x: nat | x < ADDR_SPACE && ForkIsolation.ReadPage(a, sid, x).Some? && (forall i | 0 <= i < |b| :: At(addr, i) != x)
      ensures ForkIsolation.ReadPage(m, sid, x) == ForkIsolation.ReadPage(a, sid, x)
    {
      WriteManyKeeps(a, sid, addr, b, x);
    }
  }

  // ----------------------------------------------------------------- runs

  // A message is logged, or a process calls syslog with its memory as it is then.
  datatype Event = Put(msg: seq<byte>) | Call(memory: map<Slot, Page>, sid: SpaceId, action: int, addr: nat, len: int)

  ghost function Step(log: seq<byte>, e: Event): (seq<byte>, Answer) {
    match e
    case Put(msg) => (Window(log + msg), Answer(map[], 0))
    case Call(a, sid, action, addr, len) => var (rest, m, ret) := Syslog(log, a, sid, action, addr, len); (rest, Answer(m, ret))
  }

  ghost function Run(log: seq<byte>, es: seq<Event>): (seq<byte>, seq<Answer>)
    decreases |es|
  {
    if es == [] then (log, [])
    else
      var (next, ans) := Step(log, es[0]);
      var (last, rest) := Run(next, es[1..]);
      (last, [ans] + rest)
  }

  /** The reference: the whole stream ever logged, and the position of the first unread byte in it. */
  datatype Tape = Tape(stream: seq<byte>, pos: nat)

  // Logging moves the position only to keep at most LOG_BYTES bytes unread; a READ that returns a number moves it by as many;
  // READ_CLEAR (4) and CLEAR (5) move it to the end.
  function TapeNext(t: Tape, e: Event, ret: int): Tape {
    match e
    case Put(msg) =>
      var n := |t.stream| + |msg|;
      Tape(t.stream + msg, if n - t.pos > LOG_BYTES then n - LOG_BYTES else t.pos)
    case Call(_, _, action, _, _) =>
      if action == 2 && ret >= 0 then t.(pos := t.pos + ret)
      else if action == 4 || action == 5 then t.(pos := |t.stream|)
      else t
  }

  // What the caller gets: the oldest unread bytes of the stream, or their number.
  ghost predicate Right(t: Tape, e: Event, ans: Answer)
    requires t.pos <= |t.stream|
  {
    e.Call? ==>
      && (e.action in {2, 3, 4} ==>
            ReadsOldest(t.stream[t.pos..], e.memory, e.sid, e.addr, e.len, ans, if e.action == 2 then EFAULT else -1))
      && (e.action == 9 ==> ans.ret == |t.stream| - t.pos)
  }

  // The tape after the run, and whether every answer was right.
  ghost predicate TapeRun(t: Tape, es: seq<Event>, answers: seq<Answer>, u: Tape)
    decreases |es|
  {
    && |answers| == |es| && t.pos <= |t.stream|
    && if es == [] then u == t
       else Right(t, es[0], answers[0]) && TapeRun(TapeNext(t, es[0], answers[0].ret), es[1..], answers[1..], u)
  }

  lemma PutReadsTape(t: Tape, msg: seq<byte>)
    requires t.pos <= |t.stream|
    ensures var u := TapeNext(t, Put(msg), 0);
            u.pos <= |u.stream| && |u.stream| - u.pos <= LOG_BYTES && Step(t.stream[t.pos..], Put(msg)).0 == u.stream[u.pos..]
  {
    assert t.stream[t.pos..] + msg == (t.stream + msg)[t.pos..];
  }

  lemma CallReadsTape(t: Tape, e: Event)
    requires t.pos <= |t.stream| && |t.stream| - t.pos <= LOG_BYTES && e.Call? && e.addr < ADDR_SPACE
    ensures var (rest, ans) := Step(t.stream[t.pos..], e);
            var u := TapeNext(t, e, ans.ret);
            u.pos <= |u.stream| && |u.stream| - u.pos <= LOG_BYTES && rest == u.stream[u.pos..] && Right(t, e, ans)
  {
    var log := t.stream[t.pos..];
    CallMeaning(log, e.memory, e.sid, e.action, e.addr, e.len);
    hide Syslog, Got, WriteMany;
    var (rest, ans) := Step(log, e);
    if e.action == 2 && ans.ret >= 0 {
      assert rest == log[ans.ret..];
      assert log[ans.ret..] == t.stream[t.pos + ans.ret..];
    }
    assert t.stream[|t.stream|..] == [];
  }

  /** Over every run of appends and syslog calls the ring is a window on the stream: each READ returns the oldest unread bytes,
      in order and once, and a byte is lost only to a clear, or when LOG_BYTES newer ones are unread. */
  lemma {:induction false} RunReadsTape(t: Tape, es: seq<Event>)
    requires t.pos <= |t.stream| && |t.stream| - t.pos <= LOG_BYTES && forall e <- es :: e.Call? ==> e.addr < ADDR_SPACE
    ensures var (last, answers) := Run(t.stream[t.pos..], es);
            exists u: Tape :: u.pos <= |u.stream| && last == u.stream[u.pos..] && TapeRun(t, es, answers, u)
    decreases |es|
  {
    hide Step, TapeNext, Right;
    if es == [] {
      assert TapeRun(t, es, [], t);
    } else {
      var log, e := t.stream[t.pos..], es[0];
      var (next, ans) := Step(log, e);
      if e.Put? { PutReadsTape(t, e.msg); PutAnswers(t, e, ans); } else { CallReadsTape(t, e); }
      var v := TapeNext(t, e, ans.ret);
      RunReadsTape(v, es[1..]);
      var (last, rest) := Run(next, es[1..]);
      var u: Tape :| u.pos <= |u.stream| && last == u.stream[u.pos..] && TapeRun(v, es[1..], rest, u);
      assert ([ans] + rest)[1..] == rest;
      assert TapeRun(t, es, [ans] + rest, u);
    }
  }

  lemma PutAnswers(t: Tape, e: Event, ans: Answer)
    requires e.Put? && t.pos <= |t.stream|
    ensures Right(t, e, ans) && TapeNext(t, e, ans.ret) == TapeNext(t, e, 0)
  {
  }
}
