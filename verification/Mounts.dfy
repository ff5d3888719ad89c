/** The mount table of fs/mount.c, and the lookups fs/generic.c makes in it. */
module Mounts {
  import opened Bytes
  import opened Paths

  const EBUSY: int := -16
  const EINVAL: int := -22
  const NUL := '\0'

  // The pointer to a mount is its serial number: mounts are numbered as they are made.
  datatype Mount = Mount(serial: nat, point: Text, source: Text, refcount: nat)

  // The comparison mount_find makes: point is a prefix of path that ends at a component boundary.
  predicate Matches(path: Text, point: Text) {
    |point| <= |path| && path[..|point|] == point && (|path| == |point| || path[|point|] == '/')
  }

  /** The position of the first mount that matches, or |ms|, where the source would use the list head as a mount. */
  function Find(ms: seq<Mount>, path: Text): (i: nat)
    ensures i <= |ms| && (i < |ms| ==> Matches(path, ms[i].point))
    ensures forall j | 0 <= j < i :: !Matches(path, ms[j].point)
  {
    if ms == [] || Matches(path, ms[0].point) then 0 else 1 + Find(ms[1..], path)
  }

  // The position of the first mount at this very point.
  function FindPoint(ms: seq<Mount>, point: Text): (i: nat)
    ensures i <= |ms| && (i < |ms| ==> ms[i].point == point)
    ensures forall j | 0 <= j < i :: ms[j].point != point
  {
    if ms == [] || ms[0].point == point then 0 else 1 + FindPoint(ms[1..], point)
  }

  // Before the first mount whose point is not longer.
  function Insert(ms: seq<Mount>, m: Mount): seq<Mount> {
    if ms == [] || |ms[0].point| <= |m.point| then [m] + ms else [ms[0]] + Insert(ms[1..], m)
  }

  function Remove(ms: seq<Mount>, i: nat): seq<Mount>
    requires i < |ms|
  {
    ms[..i] + ms[i + 1..]
  }

  function Referenced(ms: seq<Mount>, i: nat, change: int): seq<Mount>
    requires i < |ms| && ms[i].refcount + change >= 0
  {
    ms[i := ms[i].(refcount := ms[i].refcount + change)]
  }

  // --------------------------------------------------------- the table's order

  /** Descending point length, and newest first among points of one length. */
  ghost predicate Ordered(ms: seq<Mount>) {
    forall i, j | 0 <= i < j < |ms| :: Before(ms[i], ms[j])
  }

  lemma {:induction false} InsertOrdered(ms: seq<Mount>, m: Mount)
    requires Ordered(ms) && forall x <- ms :: x.serial < m.serial
    ensures Ordered(Insert(ms, m)) && |Insert(ms, m)| == |ms| + 1
    ensures forall x :: x in Insert(ms, m) <==> x == m || x in ms
  {
    if ms == [] || |ms[0].point| <= |m.point| {
      assert forall x :: x in [m] + ms <==> x == m || x in ms;
      forall x | x in ms ensures Before(m, x) {
        var k :| 0 <= k < |ms| && ms[k] == x;
      }
      FrontOrdered(m, ms);
    } else {
      hide Ordered;
      TailOrdered(ms);
      assert ms == [ms[0]] + ms[1..];
      InsertOrdered(ms[1..], m);
      var rest := Insert(ms[1..], m);
      assert forall x :: x in rest ==> Before(ms[0], x);
      FrontOrdered(ms[0], rest);
      assert forall x :: x in [ms[0]] + rest <==> x == ms[0] || x in rest;
    }
  }

  predicate Before(m: Mount, x: Mount) {
    |m.point| > |x.point| || (|m.point| == |x.point| && m.serial > x.serial)
  }

  lemma FrontOrdered(m: Mount, ms: seq<Mount>)
    requires Ordered(ms) && forall x <- ms :: Before(m, x)
    ensures Ordered([m] + ms)
  {
  }

  lemma TailOrdered(ms: seq<Mount>)
    requires Ordered(ms) && ms != []
    ensures Ordered(ms[1..]) && forall x <- ms[1..] :: Before(ms[0], x)
  {
  }

  // ------------------------------------------------------------ lookups

  // On normalised paths, a match is a prefix in components.
  lemma MatchIsPrefix(cs: seq<Text>, ps: seq<Text>)
    requires (forall c <- cs :: Comp(c)) && forall c <- ps :: Comp(c)
    ensures Matches(Join(cs), Join(ps)) <==> ps <= cs
    ensures ps <= cs ==> Join(cs) == Join(ps) + Join(cs[|ps|..])
  {
    if ps <= cs {
      assert cs == ps + cs[|ps|..];
      JoinConcat(ps, cs[|ps|..]);
      CompsJoin(cs[|ps|..]);
    }
    if Matches(Join(cs), Join(ps)) {
      var b := Join(cs)[|Join(ps)|..];
      assert Join(cs) == Join(ps) + b;
      CompsAppend(Join(ps), b);
      CompsJoin(cs);
      CompsJoin(ps);
    }
  }

  lemma {:induction false} JoinConcat(a: seq<Text>, b: seq<Text>)
    ensures Join(a + b) == Join(a) + Join(b)
    decreases |b|
  {
    if b == [] {
      assert a + b == a && Join(a) + "" == Join(a);
    } else {
      var l := |b| - 1;
      JoinConcat(a, b[..l]);
      assert (a + b)[..|a| + l] == a + b[..l];
      assert Join(a) + Join(b[..l]) + "/" + b[l] == Join(a) + (Join(b[..l]) + "/" + b[l]);
    }
  }

  // The components of a mount point.
  ghost predicate PointsOk(ms: seq<Mount>) { forall m <- ms :: m.point == Join(Comps(m.point)) }

  /** mount_find on a table in order: the mount whose point is the longest component prefix of the path, and the newest
      of those at that point; what is left of the path is a normalised path, and the two together are the path. */
  lemma FindLongest(ms: seq<Mount>, cs: seq<Text>)
    requires Ordered(ms) && PointsOk(ms) && (forall c <- cs :: Comp(c)) && exists m <- ms :: m.point == ""
    ensures var i := Find(ms, Join(cs));
            && i < |ms| && Comps(ms[i].point) <= cs
            && (forall j | 0 <= j < |ms| && Comps(ms[j].point) <= cs ::
                  |Comps(ms[j].point)| <= |Comps(ms[i].point)| && (ms[j].point == ms[i].point && j != i ==> ms[j].serial < ms[i].serial))
            && Join(cs) == ms[i].point + Join(cs[|Comps(ms[i].point)|..])
  {
    var i := Find(ms, Join(cs));
    hide Comps, Join, Matches, Find;
    FindsRoot(ms, cs);
    forall j | 0 <= j < |ms| ensures Matches(Join(cs), ms[j].point) <==> Comps(ms[j].point) <= cs {
      assert ms[j] in ms;
      CompsOk(ms[j].point);
      MatchIsPrefix(cs, Comps(ms[j].point));
    }
    assert ms[i] in ms;
    CompsOk(ms[i].point);
    MatchIsPrefix(cs, Comps(ms[i].point));
    forall j | 0 <= j < |ms| && Comps(ms[j].point) <= cs
      ensures |Comps(ms[j].point)| <= |Comps(ms[i].point)| && (ms[j].point == ms[i].point && j != i ==> ms[j].serial < ms[i].serial)
    {
      assert j >= i;
      assert ms[j] in ms;
      CompsOk(ms[j].point);
      if |Comps(ms[j].point)| > |Comps(ms[i].point)| {
        LongerPrefix(cs, Comps(ms[i].point), Comps(ms[j].point));
        assert false;
      }
    }
  }

  lemma FindsRoot(ms: seq<Mount>, cs: seq<Text>)
    requires (forall c <- cs :: Comp(c)) && exists m <- ms :: m.point == ""
    ensures Find(ms, Join(cs)) < |ms|
  {
    var m :| m in ms && m.point == "";
    var j :| 0 <= j < |ms| && ms[j] == m;
    CompsJoin(cs);
    if cs == [] { EmptyText(); }
    assert Matches(Join(cs), ms[j].point);
  }

  lemma LongerPrefix(cs: seq<Text>, a: seq<Text>, b: seq<Text>)
    requires a <= cs && b <= cs && |b| > |a|
    ensures |Join(b)| > |Join(a)|
  {
    hide Join;
    PrefixSplit(cs, a, b);
    LongerJoin(a, b[|a|..]);
  }

  lemma PrefixSplit<T>(cs: seq<T>, a: seq<T>, b: seq<T>)
    requires a <= cs && b <= cs && |b| > |a|
    ensures b == a + b[|a|..]
  {
  }

  lemma LongerJoin(a: seq<Text>, rest: seq<Text>)
    requires rest != []
    ensures |Join(a + rest)| > |Join(a)|
  {
    JoinConcat(a, rest);
    hide Join;
    assert rest == [rest[0]] + rest[1..];
    JoinFront(rest[0], rest[1..]);
  }

  lemma FindFront(m: Mount, ms: seq<Mount>, path: Text)
    ensures Find([m] + ms, path) == if Matches(path, m.point) then 0 else 1 + Find(ms, path)
  {
    assert ([m] + ms)[1..] == ms;
    hide Matches;
  }

  lemma NoLonger(ms: seq<Mount>, i: nat)
    requires Ordered(ms)
    ensures i < |ms| ==> |ms[i].point| <= |ms[0].point|
  {
    assert 0 < i < |ms| ==> Before(ms[0], ms[i]);
  }

  /** A new mount takes over exactly the paths at or below its point that no longer point had. */
  lemma {:induction false} MountShadows(ms: seq<Mount>, m: Mount, path: Text)
    requires Ordered(ms)
    ensures var n := Insert(ms, m);
            var i, j := Find(ms, path), Find(n, path);
            if Matches(path, m.point) && (i == |ms| || |ms[i].point| <= |m.point|) then j < |n| && n[j] == m
            else if i == |ms| then j == |n|
            else j < |n| && n[j] == ms[i]
  {
    hide Matches, Find, Ordered;
    if ms == [] || |ms[0].point| <= |m.point| {
      FindFront(m, ms, path);
      NoLonger(ms, Find(ms, path));
    } else {
      FindFront(ms[0], Insert(ms[1..], m), path);
      FindFront(ms[0], ms[1..], path);
      assert [ms[0]] + ms[1..] == ms;
      TailOrdered(ms);
      MountShadows(ms[1..], m, path);
    }
  }

  // --------------------------------------------------------------- undo

  // A new mount is the first of its point.
  lemma {:induction false} InsertedFirst(ms: seq<Mount>, m: Mount)
    ensures var i := FindPoint(Insert(ms, m), m.point);
            i < |Insert(ms, m)| && Insert(ms, m)[i] == m && Remove(Insert(ms, m), i) == ms
  {
    if ms == [] || |ms[0].point| <= |m.point| {
      assert ([m] + ms)[1..] == ms;
    } else {
      InsertedFirst(ms[1..], m);
      var s, rest := Insert(ms, m), Insert(ms[1..], m);
      assert s == [ms[0]] + rest && s[1..] == rest;
      var i := FindPoint(rest, m.point);
      assert FindPoint(s, m.point) == i + 1;
      hide Insert, FindPoint;
      RemoveTail(ms[0], rest, i);
      assert [ms[0]] + ms[1..] == ms;
    }
  }

  lemma RemoveTail(m: Mount, ms: seq<Mount>, i: nat)
    requires i < |ms|
    ensures Remove([m] + ms, i + 1) == [m] + Remove(ms, i)
  {
  }

  // ----------------------------------------------------------------- runs

  /** `held` counts the results of mount_find not yet released, by serial number. */
  datatype Table = Table(mounts: seq<Mount>, next: nat, held: multiset<nat>)

  datatype Event =
    | DoMount(source: Text, point: Text, err: int)     // err is what the file system's own mount returns
    | DoUmount(point: Text)
    | Lookup(path: Text)
    | Release(serial: nat)

  // Events the rest of the kernel makes: normalised points and paths, and only what was found is released.
  predicate EventOk(t: Table, e: Event) {
    match e
    case DoMount(_, point, _) => point == Join(Comps(point))
    case DoUmount(point) => true
    case Lookup(path) => Find(t.mounts, path) < |t.mounts|
    case Release(serial) => serial in t.held
  }

  function UmountErr(ms: seq<Mount>, point: Text): int {
    var i := FindPoint(ms, point);
    if i == |ms| then EINVAL else if ms[i].refcount != 0 then EBUSY else 0
  }

  function SerialAt(ms: seq<Mount>, serial: nat): (i: nat)
    ensures i <= |ms| && (i < |ms| ==> ms[i].serial == serial)
    ensures i == |ms| ==> forall m <- ms :: m.serial != serial
  {
    if ms == [] || ms[0].serial == serial then 0 else 1 + SerialAt(ms[1..], serial)
  }

  function Next(t: Table, e: Event): (Table, int)
    requires EventOk(t, e)
  {
    match e
    case DoMount(source, point, err) =>
      if err < 0 then (t, err) else (t.(mounts := Insert(t.mounts, Mount(t.next, point, source, 0)), next := t.next + 1), 0)
    case DoUmount(point) =>
      var err := UmountErr(t.mounts, point);
      (if err == 0 then t.(mounts := Remove(t.mounts, FindPoint(t.mounts, point))) else t, err)
    case Lookup(path) =>
      var i := Find(t.mounts, path);
      (t.(mounts := Referenced(t.mounts, i, 1), held := t.held + multiset{t.mounts[i].serial}), t.mounts[i].serial)
    case Release(serial) =>
      var i := SerialAt(t.mounts, serial);
      (if i < |t.mounts| && t.mounts[i].refcount > 0
       then t.(mounts := Referenced(t.mounts, i, -1), held := t.held - multiset{serial}) else t, 0)
  }

  ghost predicate HasSerial(ms: seq<Mount>, s: nat) { exists i :: 0 <= i < |ms| && ms[i].serial == s }

  // Reference counts are the numbers of holders.
  ghost predicate Counted(t: Table) {
    forall i | 0 <= i < |t.mounts| :: t.mounts[i].serial < t.next && t.mounts[i].refcount == t.held[t.mounts[i].serial]
  }

  ghost predicate Distinct(ms: seq<Mount>) { forall i, j | 0 <= i < j < |ms| :: ms[i].serial != ms[j].serial }

  /** The list is in order, serials are distinct and used, each reference count is the number of holders, and whatever
      is held is still mounted. */
  ghost predicate Inv(t: Table) {
    Ordered(t.mounts) && PointsOk(t.mounts) && Counted(t) && Distinct(t.mounts) && forall s <- t.held :: HasSerial(t.mounts, s)
  }

  lemma MountKeeps(t: Table, source: Text, point: Text)
    requires Inv(t) && point == Join(Comps(point))
    ensures Inv(Next(t, DoMount(source, point, 0)).0)
  {
    hide Comps, Join, Insert, Ordered, Distinct, PointsOk, Counted, HasSerial;
    var m := Mount(t.next, point, source, 0);
    var n := Insert(t.mounts, m);
    SerialsOld(t);
    InsertOrdered(t.mounts, m);
    InsertDistinct(t.mounts, m);
    InsertPoints(t.mounts, n, m);
    InsertCounted(t, n, m);
    forall s <- t.held ensures HasSerial(n, s) {
      SerialStays(t.mounts, n, s);
    }
  }

  lemma SerialsOld(t: Table)
    requires Counted(t)
    ensures forall x <- t.mounts :: x.serial < t.next
    ensures forall i | 0 <= i < |t.mounts| :: t.mounts[i].serial < t.next
  {
  }

  lemma InsertPoints(ms: seq<Mount>, n: seq<Mount>, m: Mount)
    requires PointsOk(ms) && m.point == Join(Comps(m.point)) && forall x :: x in n <==> x == m || x in ms
    ensures PointsOk(n)
  {
  }

  lemma InsertCounted(t: Table, n: seq<Mount>, m: Mount)
    requires Inv(t) && m.serial == t.next && m.refcount == 0 && forall x :: x in n <==> x == m || x in t.mounts
    ensures Counted(t.(mounts := n, next := t.next + 1))
  {
    NewUnheld(t);
    hide Ordered, PointsOk, HasSerial, Distinct;
    forall i | 0 <= i < |n| ensures n[i].serial < t.next + 1 && n[i].refcount == t.held[n[i].serial] {
      assert n[i] in n;
    }
  }

  // A mount that stays in the list can still be found by its serial number.
  lemma SerialStays(ms: seq<Mount>, n: seq<Mount>, s: nat)
    requires HasSerial(ms, s) && forall i | 0 <= i < |ms| && ms[i].serial == s :: ms[i] in n
    ensures HasSerial(n, s)
  {
    var i :| 0 <= i < |ms| && ms[i].serial == s;
    var j :| 0 <= j < |n| && n[j] == ms[i];
  }

  lemma NewUnheld(t: Table)
    requires Inv(t)
    ensures t.held[t.next] == 0
  {
    assert t.next in t.held ==> HasSerial(t.mounts, t.next);
  }

  lemma {:induction false} InsertDistinct(ms: seq<Mount>, m: Mount)
    requires Distinct(ms) && forall i | 0 <= i < |ms| :: ms[i].serial < m.serial
    ensures Distinct(Insert(ms, m)) && forall i | 0 <= i < |Insert(ms, m)| :: Insert(ms, m)[i] == m || Insert(ms, m)[i] in ms
  {
    if ms != [] && |ms[0].point| > |m.point| {
      InsertDistinct(ms[1..], m);
      var rest := Insert(ms[1..], m);
      forall j | 0 <= j < |rest| ensures rest[j].serial != ms[0].serial {
        if rest[j] != m {
          var k :| 0 <= k < |ms[1..]| && ms[1..][k] == rest[j];
        }
      }
    }
  }

  lemma RemoveOrdered(ms: seq<Mount>, i: nat)
    requires i < |ms| && Ordered(ms) && Distinct(ms) && PointsOk(ms)
    ensures Ordered(Remove(ms, i)) && Distinct(Remove(ms, i)) && PointsOk(Remove(ms, i))
  {
    var n := Remove(ms, i);
    hide Comps, Join;
    forall j | 0 <= j < |n| ensures n[j] == ms[if j < i then j else j + 1] {}
    forall m <- n ensures m in ms {}
  }

  lemma UmountKeeps(t: Table, point: Text)
    requires Inv(t)
    ensures Inv(Next(t, DoUmount(point)).0)
  {
    var i := FindPoint(t.mounts, point);
    if UmountErr(t.mounts, point) == 0 {
      hide Comps, Join, FindPoint, Ordered, PointsOk, Counted, HasSerial, Distinct, Remove;
      RemoveOrdered(t.mounts, i);
      RemoveCounted(t, i);
      forall s <- t.held ensures HasSerial(Remove(t.mounts, i), s) {
        RemoveStays(t, i, s);
      }
    }
  }

  lemma RemoveCounted(t: Table, i: nat)
    requires Counted(t) && i < |t.mounts|
    ensures Counted(t.(mounts := Remove(t.mounts, i)))
  {
    var n := Remove(t.mounts, i);
    forall j | 0 <= j < |n| ensures n[j] == t.mounts[if j < i then j else j + 1] {}
  }

  lemma RemoveStays(t: Table, i: nat, s: nat)
    requires Counted(t) && i < |t.mounts| && t.mounts[i].refcount == 0 && s in t.held && HasSerial(t.mounts, s)
    ensures HasSerial(Remove(t.mounts, i), s)
  {
    var j :| 0 <= j < |t.mounts| && t.mounts[j].serial == s;
    assert j != i;
    assert Remove(t.mounts, i)[if j < i then j else j - 1].serial == s;
  }

  lemma ReferencedOrdered(ms: seq<Mount>, i: nat, change: int)
    requires i < |ms| && ms[i].refcount + change >= 0 && Ordered(ms)
    ensures Ordered(Referenced(ms, i, change))
  {
  }

  lemma ReferencedKeeps(t: Table, i: nat, change: int, held: multiset<nat>)
    requires Inv(t) && i < |t.mounts| && t.mounts[i].refcount + change >= 0
    requires held == t.held[t.mounts[i].serial := t.held[t.mounts[i].serial] + change]
    ensures Inv(t.(mounts := Referenced(t.mounts, i, change), held := held))
  {
    hide Ordered, PointsOk, Counted, Distinct, HasSerial, Referenced;
    var n := Referenced(t.mounts, i, change);
    ReferencedOrdered(t.mounts, i, change);
    ReferencedSame(t.mounts, i, change);
    ReferencedPoints(t.mounts, n);
    ReferencedCounted(t, i, change, held);
    SerialsKept(t, n, i, held);
  }

  lemma ReferencedSame(ms: seq<Mount>, i: nat, change: int)
    requires i < |ms| && ms[i].refcount + change >= 0
    ensures var n := Referenced(ms, i, change);
            |n| == |ms| && forall j | 0 <= j < |n| :: n[j].serial == ms[j].serial && n[j].point == ms[j].point
  {
  }

  lemma ReferencedPoints(ms: seq<Mount>, n: seq<Mount>)
    requires |n| == |ms| && (forall j | 0 <= j < |n| :: n[j].serial == ms[j].serial && n[j].point == ms[j].point)
    requires PointsOk(ms) && Distinct(ms)
    ensures PointsOk(n) && Distinct(n)
  {
    hide Comps, Join;
    forall m <- n ensures m.point == Join(Comps(m.point)) {
      var j :| 0 <= j < |n| && n[j] == m;
      assert ms[j] in ms;
    }
  }

  lemma ReferencedCounted(t: Table, i: nat, change: int, held: multiset<nat>)
    requires Counted(t) && Distinct(t.mounts) && i < |t.mounts| && t.mounts[i].refcount + change >= 0
    requires held == t.held[t.mounts[i].serial := t.held[t.mounts[i].serial] + change]
    ensures Counted(t.(mounts := Referenced(t.mounts, i, change), held := held))
    ensures forall s <- held :: s == t.mounts[i].serial || s in t.held
  {
    forall s <- held ensures s == t.mounts[i].serial || s in t.held {
      if s != t.mounts[i].serial { assert held[s] == t.held[s]; }
    }
  }

  lemma SerialsKept(t: Table, n: seq<Mount>, i: nat, held: multiset<nat>)
    requires i < |t.mounts| == |n| && (forall j | 0 <= j < |n| :: n[j].serial == t.mounts[j].serial)
    requires (forall s <- t.held :: HasSerial(t.mounts, s)) && forall s <- held :: s == t.mounts[i].serial || s in t.held
    ensures forall s <- held :: HasSerial(n, s)
  {
    forall s <- held ensures HasSerial(n, s) {
      if s == t.mounts[i].serial { assert n[i].serial == s; } else {
        var j :| 0 <= j < |t.mounts| && t.mounts[j].serial == s;
        assert n[j].serial == s;
      }
    }
  }

  lemma NextKeeps(t: Table, e: Event)
    requires Inv(t) && EventOk(t, e)
    ensures Inv(Next(t, e).0)
    ensures e.Release? ==> Next(t, e).0.held == t.held - multiset{e.serial}
  {
    match e {
      case DoMount(source, point, err) => if err >= 0 { MountKeeps(t, source, point); }
      case DoUmount(point) => UmountKeeps(t, point);
      case Lookup(path) => LookupKeeps(t, path);
      case Release(serial) => ReleaseKeeps(t, serial);
    }
    hide Inv, Insert, Remove, UmountErr, Find, FindPoint, SerialAt;
  }

  lemma LookupKeeps(t: Table, path: Text)
    requires Inv(t) && Find(t.mounts, path) < |t.mounts|
    ensures Inv(Next(t, Lookup(path)).0)
  {
    hide Inv, Find;
    var i := Find(t.mounts, path);
    var s := t.mounts[i].serial;
    assert t.held + multiset{s} == t.held[s := t.held[s] + 1];
    ReferencedKeeps(t, i, 1, t.held + multiset{s});
  }

  lemma HeldIsMounted(t: Table, serial: nat)
    requires Inv(t) && serial in t.held
    ensures var i := SerialAt(t.mounts, serial); i < |t.mounts| && t.mounts[i].refcount == t.held[serial] > 0
  {
    assert HasSerial(t.mounts, serial);
    hide Ordered, PointsOk, Distinct;
  }

  lemma ReleaseKeeps(t: Table, serial: nat)
    requires Inv(t) && serial in t.held
    ensures Inv(Next(t, Release(serial)).0) && Next(t, Release(serial)).0.held == t.held - multiset{serial}
  {
    hide Inv, SerialAt;
    HeldIsMounted(t, serial);
    assert t.held - multiset{serial} == t.held[serial := t.held[serial] - 1];
    ReferencedKeeps(t, SerialAt(t.mounts, serial), -1, t.held - multiset{serial});
  }

  // The mount at that point made last.
  ghost predicate Newest(ms: seq<Mount>, m: Mount, point: Text) {
    m in ms && m.point == point && forall x <- ms | x.point == point :: x.serial <= m.serial
  }

  /** umount by its results: EINVAL (-22) exactly if nothing is mounted at that point, EBUSY (-16) exactly if the newest mount there is
      held, and else that mount is gone and no other. */
  lemma UmountMeans(t: Table, point: Text)
    requires Inv(t)
    ensures var (u, err) := Next(t, DoUmount(point));
            && (err == -22 <==> forall m <- t.mounts :: m.point != point)
            && (err == -16 <==> exists m :: Newest(t.mounts, m, point) && t.held[m.serial] > 0)
            && (err == 0 <==> exists m :: Newest(t.mounts, m, point) && t.held[m.serial] == 0)
            && err in {-22, -16, 0}
            && (err != 0 ==> u == t)
            && (err == 0 ==> forall x :: x in u.mounts <==> x in t.mounts && !Newest(t.mounts, x, point))
            && u.next == t.next && u.held == t.held
  {
    var ms, i := t.mounts, FindPoint(t.mounts, point);
    hide PointsOk, HasSerial;
    if i < |ms| {
      FirstIsNewest(t, point);
      RemoveOne(ms, i);
    } else {
      forall m <- ms ensures m.point != point {
        var j :| 0 <= j < |ms| && ms[j] == m;
      }
    }
    hide Inv, FindPoint, Ordered;
  }

  lemma FirstIsNewest(t: Table, point: Text)
    requires Inv(t) && FindPoint(t.mounts, point) < |t.mounts|
    ensures var i := FindPoint(t.mounts, point);
            && t.mounts[i].refcount == t.held[t.mounts[i].serial]
            && (forall j | 0 <= j < |t.mounts| && t.mounts[j] == t.mounts[i] :: j == i)
            && (forall m :: Newest(t.mounts, m, point) <==> m == t.mounts[i])
  {
    var ms, i := t.mounts, FindPoint(t.mounts, point);
    hide PointsOk, HasSerial, FindPoint;
    forall x <- ms | x.point == point ensures x.serial <= ms[i].serial && (x.serial == ms[i].serial ==> x == ms[i]) {
      var j :| 0 <= j < |ms| && ms[j] == x;
      if j > i { assert Before(ms[i], ms[j]); }
    }
  }

  lemma RemoveOne(ms: seq<Mount>, i: nat)
    requires i < |ms| && forall j | 0 <= j < |ms| && ms[j] == ms[i] :: j == i
    ensures forall x :: x in Remove(ms, i) <==> x in ms && x != ms[i]
  {
    forall x | x in ms && x != ms[i] ensures x in Remove(ms, i) {
      var j :| 0 <= j < |ms| && ms[j] == x;
      assert Remove(ms, i)[if j < i then j else j - 1] == x;
    }
    forall x | x in Remove(ms, i) ensures x in ms && x != ms[i] {
      var j :| 0 <= j < |Remove(ms, i)| && Remove(ms, i)[j] == x;
      assert ms[if j < i then j else j + 1] == x;
    }
  }

  /** mount by its results: an error of the file system comes back and nothing changes; else there is one mount more, at that point and
      held by nobody. */
  lemma MountMeans(t: Table, source: Text, point: Text, err: int)
    requires Inv(t) && point == Join(Comps(point))
    ensures var (u, ret) := Next(t, DoMount(source, point, err));
            if err < 0 then u == t && ret == err
            else ret == 0 && u.held == t.held && |u.mounts| == |t.mounts| + 1
                 && forall x :: x in u.mounts <==> x == Mount(t.next, point, source, 0) || x in t.mounts
  {
    hide Comps, Join, Insert, PointsOk, HasSerial, Distinct;
    if err >= 0 {
      SerialsOld(t);
      InsertOrdered(t.mounts, Mount(t.next, point, source, 0));
    }
  }

  predicate RunOk(t: Table, es: seq<Event>)
    decreases |es|
  {
    es == [] || (EventOk(t, es[0]) && RunOk(Next(t, es[0]).0, es[1..]))
  }

  function Run(t: Table, es: seq<Event>): Table
    requires RunOk(t, es)
    decreases |es|
  {
    if es == [] then t else Run(Next(t, es[0]).0, es[1..])
  }

  /** Over every run of mounts, umounts, lookups and releases: the list stays in order, so FindLongest applies to it,
      and no mount goes away while somebody holds it. */
  lemma {:induction false} RunKeeps(t: Table, es: seq<Event>)
    requires Inv(t) && RunOk(t, es)
    ensures Inv(Run(t, es))
    decreases |es|
  {
    hide Inv, EventOk, Next;
    if es != [] {
      NextKeeps(t, es[0]);
      RunKeeps(Next(t, es[0]).0, es[1..]);
    }
  }

  /** Mounting somewhere and unmounting again gives the list, and so every lookup, back as it was. */
  lemma MountUmount(t: Table, source: Text, point: Text)
    requires EventOk(t, DoMount(source, point, 0))
    ensures var u := Next(t, DoMount(source, point, 0)).0;
            Next(u, DoUmount(point)) == (t.(next := t.next + 1), 0)
  {
    InsertedFirst(t.mounts, Mount(t.next, point, source, 0));
    hide Comps, Join, Insert, FindPoint;
  }

  // ------------------------------------------------------------ in place

  lemma InsertStep(ms: seq<Mount>, i: nat, m: Mount)
    requires i < |ms| && |ms[i].point| > |m.point|
    ensures ms[..i] + Insert(ms[i..], m) == ms[..i + 1] + Insert(ms[i + 1..], m)
  {
    assert ms[i..][0] == ms[i] && ms[i..][1..] == ms[i + 1..];
    assert Insert(ms[i..], m) == [ms[i]] + Insert(ms[i + 1..], m);
    hide Insert;
    assert ms[..i + 1] == ms[..i] + [ms[i]];
    assert ms[..i] + ([ms[i]] + Insert(ms[i + 1..], m)) == ms[..i] + [ms[i]] + Insert(ms[i + 1..], m);
  }

  class MountTable {
    var mounts: seq<Mount>
    var next: nat

    constructor ()
      ensures mounts == [] && next == 0
    {
      mounts, next := [], 0;
    }

    /** mount_find; None where no mount matches and the source goes on with the list head. */
    method MountFind(path: Text) returns (mount: Option<nat>)
      modifies this`mounts
      ensures var i := Find(old(mounts), path);
              if i < |old(mounts)| then mount == Some(i) && mounts == Referenced(old(mounts), i, 1)
              else mount == None && mounts == old(mounts)
    {
      var i := 0;
      while i < |mounts|
        invariant 0 <= i <= |mounts| && mounts == old(mounts) && Find(mounts, path) == i + Find(mounts[i..], path)
      {
        assert mounts[i..][1..] == mounts[i + 1..];
        var matches := StartsWith(path, mounts[i].point);
        if matches {
          mounts := mounts[i := mounts[i].(refcount := mounts[i].refcount + 1)];
          return Some(i);
        }
        i := i + 1;
      }
      mount := None;
    }

    method MountRelease(serial: nat)
      requires var i := SerialAt(mounts, serial); i < |mounts| && mounts[i].refcount > 0
      modifies this`mounts
      ensures mounts == Referenced(old(mounts), SerialAt(old(mounts), serial), -1)
    {
      var i := 0;
      while mounts[i].serial != serial
        invariant 0 <= i < |mounts| && mounts == old(mounts) && SerialAt(mounts, serial) == i + SerialAt(mounts[i..], serial)
        decreases |mounts| - i
      {
        assert mounts[i..][1..] == mounts[i + 1..];
        i := i + 1;
      }
      mounts := mounts[i := mounts[i].(refcount := mounts[i].refcount - 1)];
    }

    /** do_mount; fsErr is what the file system's mount operation returns. */
    method DoMount(source: Text, point: Text, fsErr: int) returns (err: int)
      modifies this
      ensures err == if fsErr < 0 then fsErr else 0
      ensures mounts == if fsErr < 0 then old(mounts) else Insert(old(mounts), Mount(old(next), point, source, 0))
      ensures next == if fsErr < 0 then old(next) else old(next) + 1
    {
      if fsErr < 0 {
        return fsErr;
      }
      var m := Mount(next, point, source, 0);
      // the list must stay in descending order of mount point length
      var i := 0;
      while i < |mounts| && |mounts[i].point| > |point|
        invariant 0 <= i <= |mounts| && mounts == old(mounts) && next == old(next) && Insert(mounts, m) == mounts[..i] + Insert(mounts[i..], m)
      {
        InsertStep(mounts, i, m);
        i := i + 1;
      }
      assert Insert(mounts[i..], m) == [m] + mounts[i..];
      assert mounts[..i] + ([m] + mounts[i..]) == mounts[..i] + [m] + mounts[i..];
      mounts := mounts[..i] + [m] + mounts[i..];
      next := next + 1;
      err := 0;
    }

    method MountRemove(i: nat) returns (err: int)
      requires i < |mounts|
      modifies this`mounts
      ensures err == if old(mounts)[i].refcount != 0 then EBUSY else 0
      ensures mounts == if err == 0 then Remove(old(mounts), i) else old(mounts)
    {
      if mounts[i].refcount != 0 {
        return EBUSY;
      }
      mounts := mounts[..i] + mounts[i + 1..];
      err := 0;
    }

    method DoUmount(point: Text) returns (err: int)
      modifies this`mounts
      ensures err == UmountErr(old(mounts), point)
      ensures mounts == if err == 0 then Remove(old(mounts), FindPoint(old(mounts), point)) else old(mounts)
    {
      var i := 0;
      while i < |mounts|
        invariant 0 <= i <= |mounts| && mounts == old(mounts) && FindPoint(mounts, point) == i + FindPoint(mounts[i..], point)
      {
        assert mounts[i..][1..] == mounts[i + 1..];
        if point == mounts[i].point {
          err := MountRemove(i);
          return;
        }
        i := i + 1;
      }
      err := EINVAL;
    }

    /** contains_mount_point: a mount lies at the path or below it. */
    method ContainsMountPoint(path: Text) returns (found: bool)
      ensures found <==> exists i :: 0 <= i < |mounts| && Matches(mounts[i].point, path)
    {
      var i := 0;
      while i < |mounts|
        invariant 0 <= i <= |mounts| && forall j | 0 <= j < i :: !Matches(mounts[j].point, path)
      {
        found := StartsWith(mounts[i].point, path);
        if found {
          return true;
        }
        i := i + 1;
      }
      found := false;
    }

    /** find_mount_and_trim_path on the C string at the start of `path`. */
    method FindMountAndTrimPath(path: array<char>, ghost text: Text) returns (mount: Option<nat>)
      requires |text| < path.Length && path[..|text|] == text && path[|text|] == NUL && NUL !in text
      modifies this`mounts, path
      ensures var i := Find(old(mounts), text);
              if i < |old(mounts)| then
                && mount == Some(i) && mounts == Referenced(old(mounts), i, 1)
                && var n := |old(mounts)[i].point|; n <= |text| && path[..|text| - n] == text[n..] && path[|text| - n] == NUL
              else mount == None && mounts == old(mounts)
    {
      assert forall k | 0 <= k < |text| :: path[k] == path[..|text|][k] == text[k] && text[k] in text;
      var len := 0;
      while path[len] != NUL
        invariant 0 <= len <= |text|
        decreases |text| - len
      {
        len := len + 1;
      }
      assert len == |text|;
      mount := MountFind(path[..len]);
      if mount.None? {
        return;
      }
      ghost var here := mounts;
      var n := |mounts[mount.value].point|;
      var dst, src := 0, n;
      while path[src] != NUL
        invariant mounts == here && 0 <= dst && n <= src <= |text| && dst == src - n && path[|text|] == NUL
        invariant forall k | 0 <= k < dst :: path[k] == text[n + k]
        invariant forall k | src <= k < |text| :: path[k] == text[k]
        decreases |text| - src
      {
        path[dst] := path[src];
        dst := dst + 1;
        src := src + 1;
      }
      assert src == |text|;
      path[dst] := NUL;
    }
  }

  // strncmp(path, point, n) == 0 and the character after it, with n the length of point.
  method StartsWith(path: Text, point: Text) returns (r: bool)
    ensures r <==> Matches(path, point)
  {
    var k := 0;
    while k < |point|
      invariant 0 <= k <= |point| && k <= |path| && path[..k] == point[..k]
    {
      if k == |path| || path[k] != point[k] {
        return false;
      }
      assert path[..k + 1] == path[..k] + [path[k]];
      assert point[..k + 1] == point[..k] + [point[k]];
      k := k + 1;
    }
    assert point[..k] == point;
    r := k == |path| || path[k] == '/';
  }
}
