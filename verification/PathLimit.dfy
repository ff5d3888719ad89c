/** The length limit fs/path.h documents for path_normalize, against the one its code keeps. */
module PathLimit {
  import opened Bytes
  import opened Paths
  import opened PathResolve
  import opened PathNormalize

  // The directory a component leads to when no link is followed.
  function Enter(stack: seq<Text>, c: Text): seq<Text> {
    if c == "." then stack else if c == ".." then Parent(stack) else stack + [c]
  }

  function Dir(stack: seq<Text>, todo: seq<Text>): seq<Text>
    decreases |todo|
  {
    if todo == [] then stack else Dir(Enter(stack, todo[0]), todo[1..])
  }

  predicate Ordinary(c: Text) { c != "." && c != ".." }

  // No component of the path is a link that would be followed.
  ghost predicate NoneFollowed(links: Links, stack: seq<Text>, todo: seq<Text>, follow: bool) {
    forall k | 0 <= k < |todo| && Ordinary(todo[k]) :: !Followed(links, Dir(stack, todo[..k]) + [todo[k]], follow, k + 1 == |todo|)
  }

  /** The documented outcome: the path if it and its terminator fit MAX_PATH characters, else ENAMETOOLONG. */
  function Documented(r: seq<Text>): Outcome { if |Join(r)| + 1 > MAX_PATH then TooLong else Done(r) }

  // Component k neither leaves the root nor makes a path of MAX_PATH - 1 characters or more.
  predicate Fits(stack: seq<Text>, todo: seq<Text>, k: nat)
    requires k < |todo|
  {
    var d := Dir(stack, todo[..k]);
    if todo[k] == ".." then d != [] else todo[k] == "." || |Join(d + [todo[k]])| < MAX_PATH - 1
  }

  // Component k does make such a path, from a directory that leaves room for a slash and two characters.
  predicate Overflows(stack: seq<Text>, todo: seq<Text>, k: nat)
    requires k < |todo|
  {
    var d := Dir(stack, todo[..k]);
    Ordinary(todo[k]) && |Join(d)| < MAX_PATH - 2 && |Join(d + [todo[k]])| >= MAX_PATH - 1
  }

  /** Every directory on the way fits; or the first one that does not is made from one with room, and the result is too
      long itself. */
  ghost predicate WithinLimit(stack: seq<Text>, todo: seq<Text>) {
    || (forall k | 0 <= k < |todo| :: Fits(stack, todo, k))
    || (|Join(Dir(stack, todo))| >= MAX_PATH
        && exists k | 0 <= k < |todo| :: Overflows(stack, todo, k) && forall j | 0 <= j < k :: Fits(stack, todo, j))
  }

  // ---------------------------------------------------------- one component

  lemma DirShift(stack: seq<Text>, c: Text, rest: seq<Text>, k: nat)
    requires k <= |rest|
    ensures Dir(stack, ([c] + rest)[..k + 1]) == Dir(Enter(stack, c), rest[..k])
  {
    var t := ([c] + rest)[..k + 1];
    assert t[0] == c && t[1..] == rest[..k];
  }

  lemma FitsShift(stack: seq<Text>, c: Text, rest: seq<Text>, k: nat)
    requires k < |rest|
    ensures Fits(stack, [c] + rest, k + 1) == Fits(Enter(stack, c), rest, k)
    ensures Overflows(stack, [c] + rest, k + 1) == Overflows(Enter(stack, c), rest, k)
  {
    DirShift(stack, c, rest, k);
    hide Dir, Join, Enter;
  }

  lemma FitsFirst(stack: seq<Text>, c: Text, rest: seq<Text>)
    ensures Fits(stack, [c] + rest, 0) == (if c == ".." then stack != [] else c == "." || |Join(stack)| + 1 + |c| < MAX_PATH - 1)
    ensures Overflows(stack, [c] + rest, 0) == (Ordinary(c) && |Join(stack)| < MAX_PATH - 2 && |Join(stack)| + 1 + |c| >= MAX_PATH - 1)
  {
    hide Join;
    assert ([c] + rest)[..0] == [];
    assert Dir(stack, []) == stack;
    hide Dir;
    JoinMore(stack, c);
  }

  lemma NotBoth(stack: seq<Text>, todo: seq<Text>, k: nat)
    requires k < |todo|
    ensures !(Fits(stack, todo, k) && Overflows(stack, todo, k))
  {
    hide Dir, Join;
  }

  lemma DirStep(stack: seq<Text>, c: Text, rest: seq<Text>)
    ensures Dir(stack, [c] + rest) == Dir(Enter(stack, c), rest)
  {
    assert ([c] + rest)[1..] == rest;
  }

  lemma WithinStep(stack: seq<Text>, c: Text, rest: seq<Text>)
    ensures WithinLimit(stack, [c] + rest) ==
              if Fits(stack, [c] + rest, 0) then WithinLimit(Enter(stack, c), rest)
              else Overflows(stack, [c] + rest, 0) && |Join(Dir(stack, [c] + rest))| >= MAX_PATH
  {
    hide Fits, Overflows, Join, Dir, Enter;
    var todo, here := [c] + rest, Enter(stack, c);
    DirStep(stack, c, rest);
    forall k | 0 <= k < |rest|
      ensures Fits(stack, todo, k + 1) == Fits(here, rest, k) && Overflows(stack, todo, k + 1) == Overflows(here, rest, k)
    {
      FitsShift(stack, c, rest, k);
    }
    if Fits(stack, todo, 0) {
      if forall k | 0 <= k < |rest| :: Fits(here, rest, k) {
        forall k | 0 <= k < |todo| ensures Fits(stack, todo, k) {
          if k > 0 { assert Fits(here, rest, k - 1); }
        }
      }
      if forall k | 0 <= k < |todo| :: Fits(stack, todo, k) {
        forall k | 0 <= k < |rest| ensures Fits(here, rest, k) { assert Fits(stack, todo, k + 1); }
      }
      NotBoth(stack, todo, 0);
      FirstShift(stack, c, rest);
    }
  }

  // The first component that overflows, counted from the next one.
  lemma FirstShift(stack: seq<Text>, c: Text, rest: seq<Text>)
    requires Fits(stack, [c] + rest, 0) && !Overflows(stack, [c] + rest, 0)
    requires forall k | 0 <= k < |rest| ::
               Fits(stack, [c] + rest, k + 1) == Fits(Enter(stack, c), rest, k)
               && Overflows(stack, [c] + rest, k + 1) == Overflows(Enter(stack, c), rest, k)
    ensures (exists k | 0 <= k < |[c] + rest| :: Overflows(stack, [c] + rest, k) && forall j | 0 <= j < k :: Fits(stack, [c] + rest, j))
            <==> exists k | 0 <= k < |rest| :: Overflows(Enter(stack, c), rest, k) && forall j | 0 <= j < k :: Fits(Enter(stack, c), rest, j)
  {
    hide Fits, Overflows, Enter;
    var todo, here := [c] + rest, Enter(stack, c);
    if k :| 0 <= k < |todo| && Overflows(stack, todo, k) && forall j | 0 <= j < k :: Fits(stack, todo, j) {
      assert Overflows(here, rest, k - 1);
      forall j | 0 <= j < k - 1 ensures Fits(here, rest, j) { assert Fits(stack, todo, j + 1); }
    }
    if k :| 0 <= k < |rest| && Overflows(here, rest, k) && forall j | 0 <= j < k :: Fits(here, rest, j) {
      assert Overflows(stack, todo, k + 1);
      forall j | 0 <= j < k + 1 ensures Fits(stack, todo, j) {
        if j > 0 { assert Fits(here, rest, j - 1); }
      }
    }
  }

  lemma NoneFollowedStep(links: Links, stack: seq<Text>, c: Text, rest: seq<Text>, follow: bool)
    requires NoneFollowed(links, stack, [c] + rest, follow)
    ensures NoneFollowed(links, Enter(stack, c), rest, follow)
    ensures Ordinary(c) ==> !Followed(links, stack + [c], follow, rest == [])
  {
    hide Followed, Enter;
    var todo := [c] + rest;
    assert todo[..0] == [];
    if Ordinary(c) { assert Ordinary(todo[0]) && !Followed(links, Dir(stack, todo[..0]) + [todo[0]], follow, 0 + 1 == |todo|); }
    forall k | 0 <= k < |rest| && Ordinary(rest[k])
      ensures !Followed(links, Dir(Enter(stack, c), rest[..k]) + [rest[k]], follow, k + 1 == |rest|)
    {
      DirShift(stack, c, rest, k);
      assert Ordinary(todo[k + 1]);
    }
  }

  // ------------------------------------------------------------- the limit

  /** A path that follows no link resolves to what its components spell out, and path_normalize meets its documented limit on
      it exactly if the walk stays within the limit above. */
  lemma {:induction false} DocumentedLimitIff(links: Links, stack: seq<Text>, p: Text, follow: bool, fuel: nat)
    requires (p == "" || p[0] != '/') && |Join(stack)| < MAX_PATH && NoneFollowed(links, stack, Comps(p), follow)
    ensures Resolve(links, stack, Comps(p), follow, fuel) == Some(Dir(stack, Comps(p)))
    ensures Walk(links, stack, p, follow, fuel) == Documented(Dir(stack, Comps(p))) <==> WithinLimit(stack, Comps(p))
    decreases |p|
  {
    hide Comps, Join, Resolve, Walk, NoneFollowed, WithinLimit, Followed, Fits, Overflows, Dir;
    if p == "" {
      EmptyText();
      NothingLeft(links, stack, follow, fuel);
    } else {
      CompsHead(p);
      var c, rest := Head(p), Comps(Rest(p));
      NoneFollowedStep(links, stack, c, rest, follow);
      DirStep(stack, c, rest);
      WithinStep(stack, c, rest);
      FitsFirst(stack, c, rest);
      ResolveStep(links, stack, c, rest, follow, fuel);
      WalkStep(links, stack, p, follow, fuel);
      EnterLength(stack, c);
      if c == "." || (c == ".." && stack != []) || (Ordinary(c) && |Join(stack)| + 1 + |c| < MAX_PATH - 1) {
        DocumentedLimitIff(links, Enter(stack, c), Rest(p), follow, fuel);
      } else {
        ResolvesToDir(links, Enter(stack, c), rest, follow, fuel);
      }
    }
  }

  lemma EnterLength(stack: seq<Text>, c: Text)
    ensures |Join(Enter(stack, c))| <= if Ordinary(c) then |Join(stack)| + 1 + |c| else |Join(stack)|
  {
    JoinMore(stack, c);
    if stack != [] { ParentLength(stack); }
    hide Join;
  }

  lemma NothingLeft(links: Links, stack: seq<Text>, follow: bool, fuel: nat)
    requires |Join(stack)| < MAX_PATH
    ensures Resolve(links, stack, [], follow, fuel) == Some(Dir(stack, []))
    ensures Walk(links, stack, "", follow, fuel) == Documented(Dir(stack, [])) && WithinLimit(stack, [])
  {
  }

  lemma {:induction false} ResolvesToDir(links: Links, stack: seq<Text>, todo: seq<Text>, follow: bool, fuel: nat)
    requires NoneFollowed(links, stack, todo, follow)
    ensures Resolve(links, stack, todo, follow, fuel) == Some(Dir(stack, todo))
    decreases |todo|
  {
    hide Comps, Join, NoneFollowed, Followed, Resolve;
    if todo == [] {
      ResolveNothing(links, stack, follow, fuel);
    } else {
      assert todo == [todo[0]] + todo[1..];
      NoneFollowedStep(links, stack, todo[0], todo[1..], follow);
      ResolveStep(links, stack, todo[0], todo[1..], follow, fuel);
      ResolvesToDir(links, Enter(stack, todo[0]), todo[1..], follow, fuel);
    }
  }

  /** A link is followed exactly as far as the two 4096-character buffers reach: its target has to fit behind the directory and a slash
      in the output, and target, slash and what is left of the path in the other; else the source writes outside one of them. */
  lemma LinkLimitIff(links: Links, stack: seq<Text>, p: Text, follow: bool, fuel: nat)
    requires p != "" && p[0] != '/' && Ordinary(Head(p)) && Followed(links, stack + [Head(p)], follow, Rest(p) == "")
    requires |Join(stack)| < 4094 && |Join(stack)| + 1 + |Head(p)| < 4095
    ensures var target := links[Join(stack + [Head(p)])];
            var there := if target != "" && target[0] == '/' then |target| else |Join(stack)| + 1 + |target|;
            var fits := |Join(stack)| + 1 + |target| <= 4095 && there + 1 + |Rest(p)| <= 4095;
            Walk(links, stack, p, follow, fuel) ==
              if !fits then Undefined else if fuel == 0 then Looping
              else Walk(links, [], SkipSlashes(Expanded(stack, target, Rest(p))), follow, fuel - 1)
  {
    StepLink(links, stack, p, follow, fuel);
    hide Walk, Resolve, Climbs, Head, Rest, Join, SkipSlashes;
  }

  // -------------------------------------------------------- failing inputs

  function Long(n: nat): Text { seq(n, _ => 'a') }

  lemma LongIs(n: nat)
    requires n > 2
    ensures Comp(Long(n)) && Ordinary(Long(n)) && Head(Long(n)) == Long(n) && Rest(Long(n)) == ""
  {
    HeadComp(Long(n));
    assert Long(n)[n..] == "";
  }

  /** Three inputs that miss the limit. A path that comes back to the root is refused for a long name on the way; a result
      of MAX_PATH - 1 characters, which fits, is refused; and from a directory of MAX_PATH - 2 characters the copy runs past
      the buffer where the result is too long. */
  lemma LimitMissed(links: Links)
    requires links == map[]
    ensures Walk(links, [], Long(MAX_PATH - 2) + "/..", false, 0) == TooLong
            && Resolve(links, [], [Long(MAX_PATH - 2), ".."], false, 0) == Some([])
    ensures Walk(links, [], Long(MAX_PATH - 2), false, 0) == TooLong
            && Documented([Long(MAX_PATH - 2)]) == Done([Long(MAX_PATH - 2)])
    ensures Walk(links, [Long(MAX_PATH - 3)], "a", false, 0) == Undefined
            && Documented([Long(MAX_PATH - 3), "a"]) == TooLong
  {
    var c, d := Long(MAX_PATH - 2), Long(MAX_PATH - 3);
    LongIs(MAX_PATH - 2);
    HeadAppend(c, "/..");
    JoinMore([], c);
    JoinMore([], d);
    JoinMore([d], "a");
    assert [] + [c] == [c] && [] + [d] == [d] && [d] + ["a"] == [d, "a"];
    HeadComp("a");
    WalkStep(links, [], c + "/..", false, 0);
    WalkStep(links, [], c, false, 0);
    WalkStep(links, [d], "a", false, 0);
    ResolveStep(links, [], c, [".."], false, 0);
    assert [c] + [".."] == [c, ".."];
    ResolveStep(links, [c], "..", [], false, 0);
    ResolveNothing(links, [], false, 0);
    hide Walk, Resolve, Join, Head, Long;
  }
}
