/** The futex hash table of kernel/futex.c: futex_get and futex_put on bucket
    lists with reference counts. Callers hold futex_lock. */
module FutexTable {
  import opened Bytes

  const FUTEX_HASH_SIZE: nat := 4096

  type FutexId = nat      // where malloc put a struct futex
  type MemId = nat        // a struct mem pointer
  type Tid = nat

  datatype Futex = Futex(refcount: nat, mem: MemId, addr: nat, waiters: set<Tid>)
  datatype Table = Table(buckets: seq<seq<FutexId>>, futexes: map<FutexId, Futex>)

  // (addr ^ mem) % FUTEX_HASH_SIZE, the low twelve bits of the exclusive or.
  function Hash(mem: MemId, addr: nat): (h: nat)
    ensures h < FUTEX_HASH_SIZE
  {
    ((addr % 4096) as bv12 ^ (mem % 4096) as bv12) as nat
  }

  predicate Matches(f: Futex, mem: MemId, addr: nat) { f.mem == mem && f.addr == addr }

  ghost predicate NoDup(s: seq<FutexId>) { forall i, j | 0 <= i < j < |s| :: s[i] != s[j] }

  function HashOf(x: Futex): nat { Hash(x.mem, x.addr) }

  // Bucket h lists exactly the live futexes that hash to h, once each.
  ghost predicate BucketOk(bucket: seq<FutexId>, h: nat, futexes: map<FutexId, Futex>) {
    NoDup(bucket) && forall f :: f in bucket <==> f in futexes && HashOf(futexes[f]) == h
  }

  ghost predicate UniqueKeys(futexes: map<FutexId, Futex>) {
    forall f, g | f in futexes && g in futexes && f != g :: !Matches(futexes[g], futexes[f].mem, futexes[f].addr)
  }

  /** The table invariant: every live futex is in the one bucket its key hashes to, once, and no two have the same key. */
  ghost predicate TableOk(t: Table) {
    && |t.buckets| == FUTEX_HASH_SIZE
    && (forall h | 0 <= h < FUTEX_HASH_SIZE :: BucketOk(t.buckets[h], h, t.futexes))
    && UniqueKeys(t.futexes)
  }

  ghost predicate Known(t: Table, mem: MemId, addr: nat) {
    exists f :: f in t.futexes && Matches(t.futexes[f], mem, addr)
  }

  /** The state futex_get leaves, given the futex it returns: one more reference, or a new futex at the head of its bucket. */
  function Gotten(t: Table, mem: MemId, addr: nat, f: FutexId): Table
    requires |t.buckets| == FUTEX_HASH_SIZE
  {
    if f in t.futexes then t.(futexes := t.futexes[f := t.futexes[f].(refcount := t.futexes[f].refcount + 1)])
    else Table(t.buckets[Hash(mem, addr) := [f] + t.buckets[Hash(mem, addr)]], t.futexes[f := Futex(1, mem, addr, {})])
  }

  // f is what futex_get may return: the futex of that key if there is one, otherwise a fresh one.
  ghost predicate MayGet(t: Table, mem: MemId, addr: nat, f: FutexId) {
    if f in t.futexes then Matches(t.futexes[f], mem, addr) else !Known(t, mem, addr)
  }

  function Without(s: seq<FutexId>, f: FutexId): seq<FutexId> {
    if s == [] then [] else if s[0] == f then s[1..] else [s[0]] + Without(s[1..], f)
  }

  /** The state futex_put leaves: one reference less, and no futex when that was the last. */
  function Dropped(t: Table, f: FutexId): Table
    requires |t.buckets| == FUTEX_HASH_SIZE && f in t.futexes && t.futexes[f].refcount > 0
  {
    var x := t.futexes[f];
    if x.refcount == 1 then
      Table(t.buckets[Hash(x.mem, x.addr) := Without(t.buckets[Hash(x.mem, x.addr)], f)], t.futexes - {f})
    else t.(futexes := t.futexes[f := x.(refcount := x.refcount - 1)])
  }

  lemma GottenOk(t: Table, mem: MemId, addr: nat, f: FutexId)
    requires TableOk(t) && MayGet(t, mem, addr, f)
    ensures var u := Gotten(t, mem, addr, f); TableOk(u) && f in u.futexes && Matches(u.futexes[f], mem, addr)
  {
    var u := Gotten(t, mem, addr, f);
    hide Hash;
    forall h | 0 <= h < FUTEX_HASH_SIZE ensures BucketOk(u.buckets[h], h, u.futexes) {
      assert BucketOk(t.buckets[h], h, t.futexes);
      if f !in t.futexes && h == Hash(mem, addr) { assert f !in t.buckets[h]; }
    }
  }

  lemma {:induction false} WithoutFacts(s: seq<FutexId>, f: FutexId)
    requires NoDup(s)
    ensures NoDup(Without(s, f)) && forall g :: g in Without(s, f) <==> g in s && g != f
  {
    if s != [] {
      WithoutFacts(s[1..], f);
      if s[0] != f { assert s[0] !in s[1..]; }
    }
  }

  lemma DroppedOk(t: Table, f: FutexId)
    requires TableOk(t) && f in t.futexes && t.futexes[f].refcount > 0
    ensures TableOk(Dropped(t, f))
  {
    var u := Dropped(t, f);
    hide Hash, Without;
    forall h | 0 <= h < FUTEX_HASH_SIZE ensures BucketOk(u.buckets[h], h, u.futexes) {
      assert BucketOk(t.buckets[h], h, t.futexes);
      WithoutFacts(t.buckets[h], f);
    }
  }

  class FutexHash {
    const hash: array<seq<FutexId>>
    var futexes: map<FutexId, Futex>

    ghost function Value(): Table
      reads this, hash
    {
      Table(hash[..], futexes)
    }

    ghost predicate Valid()
      reads this, hash
    {
      TableOk(Value())
    }

    constructor ()
      ensures Valid() && futexes == map[] && fresh(hash)
    {
      hash := new seq<FutexId>[FUTEX_HASH_SIZE](_ => []);
      futexes := map[];
    }

    // The scan of the bucket in futex_get.
    method Find(mem: MemId, addr: nat) returns (f: Option<FutexId>)
      requires Valid()
      ensures if f.Some? then f.value in futexes && Matches(futexes[f.value], mem, addr) else !Known(Value(), mem, addr)
    {
      var bucket := hash[Hash(mem, addr)];
      assert BucketOk(Value().buckets[Hash(mem, addr)], Hash(mem, addr), futexes);
      var i := 0;
      while i < |bucket|
        invariant 0 <= i <= |bucket|
        invariant forall j | 0 <= j < i :: bucket[j] in futexes && !Matches(futexes[bucket[j]], mem, addr)
      {
        var x := futexes[bucket[i]];
        if x.addr == addr && x.mem == mem {
          return Some(bucket[i]);
        }
        i := i + 1;
      }
      NotKnown(Value(), mem, addr);
      return None;
    }

    /** futex_get: `memory` is what malloc returns if a futex has to be made. */
    method Get(mem: MemId, addr: nat, memory: FutexId) returns (f: FutexId)
      requires Valid() && memory !in futexes
      modifies this, hash
      ensures Valid() && MayGet(old(Value()), mem, addr, f)
      ensures Value() == Gotten(old(Value()), mem, addr, f)
      ensures f in futexes && Matches(futexes[f], mem, addr)
    {
      ghost var t := Value();
      hide Known, Hash;
      var found := Find(mem, addr);
      if found.Some? {
        f := found.value;
        GottenOk(t, mem, addr, f);
        hide TableOk;
        futexes := futexes[f := futexes[f].(refcount := futexes[f].refcount + 1)];
      } else {
        f := memory;
        GottenOk(t, mem, addr, f);
        hide TableOk;
        var b := Hash(mem, addr);
        futexes := futexes[f := Futex(1, mem, addr, {})];
        hash[b] := [f] + hash[b];
        assert hash[..] == Gotten(t, mem, addr, f).buckets;
      }
    }

    /** futex_put. */
    method Put(f: FutexId)
      requires Valid() && f in futexes && futexes[f].refcount > 0
      modifies this, hash
      ensures Valid() && Value() == Dropped(old(Value()), f)
    {
      ghost var t := Value();
      DroppedOk(t, f);
      var n := futexes[f].refcount - 1;
      if n == 0 {
        var b := Hash(futexes[f].mem, futexes[f].addr);
        var rest := ListRemove(hash[b], f);
        hash[b] := rest;
        futexes := futexes - {f};
        assert hash[..] == Dropped(t, f).buckets;
      } else {
        futexes := futexes[f := futexes[f].(refcount := n)];
      }
    }
  }

  lemma NotKnown(t: Table, mem: MemId, addr: nat)
    requires TableOk(t)
    requires forall j | 0 <= j < |t.buckets[Hash(mem, addr)]| ::
               t.buckets[Hash(mem, addr)][j] in t.futexes && !Matches(t.futexes[t.buckets[Hash(mem, addr)][j]], mem, addr)
    ensures !Known(t, mem, addr)
  {
    assert BucketOk(t.buckets[Hash(mem, addr)], Hash(mem, addr), t.futexes);
    forall f <- t.futexes ensures !Matches(t.futexes[f], mem, addr) {
      assert HashOf(t.futexes[f]) == Hash(mem, addr) ==> f in t.buckets[Hash(mem, addr)];
    }
  }

  /** list_remove of a member of the list. */
  method ListRemove(s: seq<FutexId>, f: FutexId) returns (r: seq<FutexId>)
    ensures r == Without(s, f)
  {
    r := [];
    var i := 0;
    while i < |s|
      invariant 0 <= i <= |s| && Without(s, f) == r + Without(s[i..], f)
    {
      WithoutStep(r, s[i..], f);
      assert s[i..][1..] == s[i + 1..];
      if s[i] == f {
        return r + s[i + 1..];
      }
      r := r + [s[i]];
      i := i + 1;
    }
  }

  lemma WithoutStep(r: seq<FutexId>, s: seq<FutexId>, f: FutexId)
    requires s != []
    ensures r + Without(s, f) == if s[0] == f then r + s[1..] else r + [s[0]] + Without(s[1..], f)
  {
  }
}
