/** path_normalize as it runs: cursors into the path and the output buffer. */
module PathNormalize {
  import opened Bytes
  import opened Paths
  import opened PathResolve

  const SLASH := '/'
  const NUL := '\0'

  datatype Status = OK | ENAMETOOLONG | UNDEFINED | LOOPING

  function StatusOf(w: Outcome): Status {
    match w
    case Done(_) => OK
    case TooLong => ENAMETOOLONG
    case Undefined => UNDEFINED
    case Looping => LOOPING
  }

  // What generic_getpath returns.
  predicate DirPath(at: Text) { |at| < MAX_PATH && (at == "/" || at == Join(Comps(at))) }

  function StartOf(dir: Option<Text>): seq<Text> {
    if dir.None? || dir.value == "/" then [] else Comps(dir.value)
  }

  // The `at` argument: __NO_AT, AT_PWD or an open directory, here by its path.
  datatype At = NoAt | Pwd | Dir(path: Text)

  // The directory to start from, None for none. root and pwd are those of the process; they are null before it has any.
  function Base(at: At, root: Option<Text>, pwd: Option<Text>, path: Text): Option<Text> {
    if at.NoAt? then None
    else if path != "" && path[0] == SLASH then root
    else if at.Pwd? then pwd
    else Some(at.path)
  }

  /** An absolute path starts at the root of the process, a relative one at its working directory or at the directory given, and its
      text continues that directory's. Without a directory both start with nothing. */
  lemma StartsAt(at: At, root: Text, pwd: Text, dir: Text, path: Text)
    requires DirPath(root) && DirPath(pwd) && DirPath(dir) && dir != "/" && pwd != "/"
    ensures path != "" && path[0] == '/' ==> Base(Pwd, Some(root), Some(pwd), path) == Base(Dir(dir), Some(root), Some(pwd), path) == Some(root)
    ensures path == "" || path[0] != '/' ==>
              && Join(StartOf(Base(Pwd, Some(root), Some(pwd), path))) == pwd
              && Join(StartOf(Base(Dir(dir), Some(root), Some(pwd), path))) == dir
    ensures Join(StartOf(Some(root))) == if root == "/" then "" else root
    ensures Join(StartOf(Base(NoAt, Some(root), Some(pwd), path))) == ""
  {
    EmptyText();
    hide Comps, Join;
  }

  // `while (*p == '/') p++;`
  method EatSlashes(path: Text, p: nat) returns (q: nat)
    requires p <= |path|
    ensures p <= q <= |path| && path[q..] == SkipSlashes(path[p..])
  {
    q := p;
    while q < |path| && path[q] == SLASH
      invariant p <= q <= |path| && SkipSlashes(path[q..]) == SkipSlashes(path[p..])
    {
      assert path[q..][1..] == path[q + 1..];
      q := q + 1;
    }
  }

  // strcpy of s to position at of out.
  method Copy(out: array<char>, at: nat, s: Text)
    requires at + |s| < out.Length
    modifies out
    ensures out[..at] == old(out[..at]) && out[at..at + |s|] == s && out[at + |s|] == NUL
  {
    for i := 0 to |s|
      invariant out[..at] == old(out[..at]) && out[at..at + i] == s[..i]
    {
      out[at + i] := s[i];
      assert out[at..at + (i + 1)] == out[at..at + i] + [s[i]];
      assert s[..i + 1] == s[..i] + [s[i]];
    }
    out[at + |s|] := NUL;
    assert s[..|s|] == s;
  }

  // The loop that copies one component and counts down n.
  method CopyComponent(path: Text, p: nat, out: array<char>, o: nat, n: int) returns (q: nat, e: nat, m: int)
    requires p < |path| && path[p] != SLASH && out.Length == MAX_PATH && n == MAX_PATH - 1 - o && n > 0
    modifies out
    ensures out[..o] == old(out[..o])
    ensures var h := Head(path[p..]);
            if o + |h| < MAX_PATH - 1 then
              q == p + |h| && e == o + |h| && m == MAX_PATH - 1 - e && out[..e] == old(out[..o]) + h
            else m == 0
    ensures q <= |path|
  {
    q, e, m := p, o, n;
    ghost var h := Head(path[p..]);
    HeadChars(path, p);
    hide Head;
    while q < |path| && path[q] != SLASH
      invariant p <= q <= p + |h| && e == o + (q - p) && m == MAX_PATH - 1 - e && m > 0
      invariant out[..o] == old(out[..o]) && forall i | 0 <= i < q - p :: out[o + i] == h[i]
    {
      m := m - 1;
      if m <= 0 {
        return;
      }
      out[e] := path[q];
      e := e + 1;
      q := q + 1;
    }
    assert out[..e] == out[..o] + h;
  }

  lemma HeadChars(path: Text, p: nat)
    requires p <= |path|
    ensures var h := Head(path[p..]);
            && p + |h| <= |path| && (p + |h| < |path| ==> path[p + |h|] == SLASH)
            && forall k | 0 <= k < |h| :: path[p + k] == h[k] && h[k] != SLASH
  {
    var s := path[p..];
    var h := Head(s);
    forall k | 0 <= k < |h| ensures path[p + k] == h[k] && h[k] != SLASH {
      assert h[k] == s[..|h|][k] == path[p + k];
      assert h[k] in h;
    }
  }

  // The loop that takes the last component off the output again.
  method DropLast(out: array<char>, o: nat, n: int, ghost stack: seq<Text>) returns (e: nat, m: int)
    requires out.Length == MAX_PATH && o <= out.Length && n == MAX_PATH - 1 - o
    requires stack != [] && out[..o] == Join(stack) && forall c <- stack :: Comp(c)
    ensures e <= o && m == MAX_PATH - 1 - e && out[..e] == Join(stack[..|stack| - 1])
  {
    ghost var kept, c := Join(stack[..|stack| - 1]), stack[|stack| - 1];
    assert c in stack && Join(stack) == kept + "/" + c;
    forall k | |kept| < k < o ensures out[k] != SLASH {
      assert out[k] == out[..o][k] == c[k - |kept| - 1];
    }
    e, m := o - 1, n + 1;
    assert out[..o][|kept|] == SLASH;
    while out[e] != SLASH
      invariant |kept| <= e < o && m == MAX_PATH - 1 - e
      decreases e
    {
      e := e - 1;
      m := m + 1;
    }
    assert out[..e] == out[..o][..e];
  }

  // The text path_normalize calls itself on after readlink has put the target at position c of out.
  method Expand(out: array<char>, c: nat, target: Text, p: Text, ghost stack: seq<Text>) returns (expanded: Text)
    requires out.Length == MAX_PATH && c + |target| < MAX_PATH && c == |Join(stack)| + 1 && out[..c] == Join(stack) + "/"
    modifies out
    ensures expanded == Expanded(stack, target, p)
  {
    Copy(out, c, target);
    var len := c + |target|;
    assert out[..len] == out[..c] + out[c..len];
    if target != "" && target[0] == SLASH {
      // restart from the root: copy down
      Copy(out, 0, target);
      len := |target|;
    }
    expanded := out[..len];
    expanded := expanded + "/";
    expanded := expanded + p;
  }

  // A slash, the next component, and past the slashes behind it.
  method OneComponent(path: Text, p: nat, out: array<char>, o: nat, n: int, ghost stack: seq<Text>) returns (q: nat, e: nat, m: int)
    requires p < |path| && path[p] != SLASH && out.Length == MAX_PATH && n == MAX_PATH - 1 - o && n > 1 && out[..o] == Join(stack)
    modifies out
    ensures q <= |path|
    ensures var h := Head(path[p..]);
            if o + 1 + |h| < MAX_PATH - 1 then
              && o < e < MAX_PATH && m == MAX_PATH - 1 - e && m > 0 && path[q..] == Rest(path[p..])
              && out[..e] == Join(stack + [h]) && out[..o + 1] == Join(stack) + "/"
            else m == 0
  {
    hide Head, Rest, SkipSlashes, Join;
    ghost var h := Head(path[p..]);
    out[o] := SLASH;
    assert out[..o + 1] == out[..o] + "/";
    HeadFits(path, p);
    q, e, m := CopyComponent(path, p, out, o + 1, n - 1);
    if m != 0 {
      assert path[q..] == path[p..][|h|..];
      RestIs(path[p..]);
      JoinMore(stack, h);
    }
    q := EatSlashes(path, q);
  }

  datatype LinkStep = NotLink | Overrun | Restart(expanded: Text)

  // readlink of the path in out[..o], whose last component starts at c, and what the restart works on.
  method ReadLink(links: Links, out: array<char>, o: nat, c: nat, p: Text, ghost stack: seq<Text>) returns (step: LinkStep)
    requires out.Length == MAX_PATH && c <= o < MAX_PATH && out[..c] == Join(stack) + "/"
    modifies out
    ensures step.NotLink? <==> old(out[..o]) !in links
    ensures step.NotLink? ==> out[..] == old(out[..])
    ensures step.Overrun? ==> !ExpansionFits(stack, links[old(out[..o])], p)
    ensures step.Restart? ==> var t := links[old(out[..o])];
                              ExpansionFits(stack, t, p) && step.expanded == Expanded(stack, t, p)
  {
    hide Join;
    var possibleSymlink := out[..o];
    if possibleSymlink !in links {
      return NotLink;
    }
    var target := links[possibleSymlink];
    assert c == |Join(stack)| + 1;
    if |target| >= MAX_PATH - c {
      return Overrun;
    }
    var expanded := Expand(out, c, target, p, stack);
    step := if |expanded| >= MAX_PATH then Overrun else Restart(expanded);
  }

  // The start directory's path, copied to the output.
  method Begin(dir: Option<Text>, out: array<char>) returns (o: nat, n: int)
    requires out.Length == MAX_PATH && (dir.Some? ==> DirPath(dir.value))
    modifies out
    ensures o < MAX_PATH && n == MAX_PATH - 1 - o && out[..o] == Join(StartOf(dir)) && forall c <- StartOf(dir) :: Comp(c)
  {
    hide Join, Comps;
    o, n := 0, MAX_PATH - 1;
    out[0] := NUL;
    EmptyText();
    if dir.Some? && dir.value != "/" {
      Copy(out, 0, dir.value);
      n := n - |dir.value|;
      o := o + |dir.value|;
      CompsOk(dir.value);
    }
  }

  // Start with root or cwd, depending on whether the path starts with a slash.
  method Choose(at: At, root: Option<Text>, pwd: Option<Text>, path: Text) returns (dir: Option<Text>)
    requires (at.Dir? ==> DirPath(at.path)) && (root.Some? ==> DirPath(root.value)) && (pwd.Some? ==> DirPath(pwd.value))
    ensures dir == Base(at, root, pwd, path) && (dir.Some? ==> DirPath(dir.value))
  {
    dir := None;
    if !at.NoAt? {
      dir := if at.Dir? then Some(at.path) else pwd;
      if path != "" && path[0] == SLASH {
        dir := root;
      }
    }
  }

  datatype Step = Go | Fail(status: Status) | Again(expanded: Text)

  // The loop body for an ordinary component: copy it and look whether it is a link.
  method Plain(links: Links, path: Text, p: nat, out: array<char>, o: nat, n: int, ghost stack: seq<Text>, follow: bool, ghost fuel: nat)
    returns (step: Step, q: nat, e: nat, m: int)
    requires out.Length == MAX_PATH && p < |path| && path[p] != SLASH && Head(path[p..]) != "." && Head(path[p..]) != ".."
    requires 0 <= o < MAX_PATH && n == MAX_PATH - 1 - o && out[..o] == Join(stack) && forall c <- stack :: Comp(c)
    modifies out
    ensures var w, h := Walk(links, stack, path[p..], follow, fuel), Head(path[p..]);
            match step
            case Go =>
              && p < q <= |path| && (path[q..] == "" || path[q..][0] != SLASH) && w == Walk(links, stack + [h], path[q..], follow, fuel)
              && e < MAX_PATH && m == MAX_PATH - 1 - e && out[..e] == Join(stack + [h]) && Comp(h)
            case Fail(status) => !w.Done? && status == StatusOf(w)
            case Again(expanded) =>
              w == if fuel == 0 then Looping else Walk(links, [], SkipSlashes(expanded), follow, fuel - 1)
  {
    hide Walk, Join, Comps, Head, Rest, SkipSlashes, Followed, ExpansionFits, Expanded;
    HeadOf(path[p..]);
    WalkPlain(links, stack, path[p..], follow, fuel);
    step, q, e, m := Go, p, o, n;
    if n <= 1 {
      // the source's n passes zero unseen and the copy runs past the buffer
      return Fail(UNDEFINED), q, e, m;
    }
    var c := o + 1;
    q, e, m := OneComponent(path, p, out, o, n, stack);
    if m == 0 {
      return Fail(ENAMETOOLONG), q, e, m;
    }
    if follow || q < |path| {
      var link := ReadLink(links, out, e, c, path[q..], stack);
      if link.Overrun? {
        return Fail(UNDEFINED), q, e, m;
      }
      if link.Restart? {
        return Again(link.expanded), q, e, m;
      }
    }
  }

  /** path_normalize; `fuel` bounds the links it may follow. */
  method PathNormalize(links: Links, at: At, root: Option<Text>, pwd: Option<Text>, path: Text, out: array<char>, follow: bool, fuel: nat)
    returns (status: Status, len: nat)
    requires out.Length == MAX_PATH && (at.Dir? ==> DirPath(at.path))
    requires (root.Some? ==> DirPath(root.value)) && (pwd.Some? ==> DirPath(pwd.value))
    modifies out
    ensures var w := Walk(links, StartOf(Base(at, root, pwd, path)), SkipSlashes(path), follow, fuel);
            && status == StatusOf(w)
            && (w.Done? ==> len < MAX_PATH && out[..len] == Join(w.out) && out[len] == NUL)
    decreases fuel
  {
    hide Walk, Join, Comps, Head, Rest, SkipSlashes, Followed, ExpansionFits, Expanded, StartOf, Base, DirPath;
    len := 0;
    var dir := Choose(at, root, pwd, path);
    var o, n := Begin(dir, out);
    ghost var stack := StartOf(dir);
    var p := EatSlashes(path, 0);
    assert path[0..] == path;
    ghost var w := Walk(links, stack, path[p..], follow, fuel);
    while p < |path|
      invariant p <= |path| && (path[p..] == "" || path[p..][0] != SLASH)
      invariant 0 <= o < MAX_PATH && n == MAX_PATH - 1 - o && out[..o] == Join(stack) && forall c <- stack :: Comp(c)
      invariant w == Walk(links, stack, path[p..], follow, fuel)
    {
      ghost var before := path[p..];
      if path[p] == '.' && (p + 1 == |path| || path[p + 1] == SLASH) {
        // single dot: ignore
        DotHead(before);
        WalkStep(links, stack, before, follow, fuel);
        assert path[p + 1..] == before[1..];
        p := EatSlashes(path, p + 1);
        continue;
      } else if path[p] == '.' && path[p + 1] == '.' && (p + 2 == |path| || path[p + 2] == SLASH) {
        // double dot: delete the last component
        DotDotHead(before);
        WalkStep(links, stack, before, follow, fuel);
        JoinEmpty(stack);
        if o == 0 {
          // the source walks off the front of its buffer
          return UNDEFINED, 0;
        }
        o, n := DropLast(out, o, n, stack);
        stack := stack[..|stack| - 1];
        assert path[p + 2..] == before[2..];
        p := EatSlashes(path, p + 2);
        continue;
      }
      PlainHead(before);
      var step: Step;
      step, p, o, n := Plain(links, path, p, out, o, n, stack, follow, fuel);
      if step.Fail? {
        return step.status, 0;
      }
      if step.Again? {
        if fuel == 0 {
          return LOOPING, 0;
        }
        status, len := PathNormalize(links, NoAt, root, pwd, step.expanded, out, follow, fuel - 1);
        NoStart(root, pwd, step.expanded);
        return;
      }
      stack := stack + [Head(before)];
    }
    out[o] := NUL;
    assert path[p..] == "";
    WalkEnd(links, stack, follow, fuel);
    status, len := OK, o;
  }

  lemma NoStart(root: Option<Text>, pwd: Option<Text>, path: Text)
    ensures StartOf(Base(NoAt, root, pwd, path)) == []
  {
  }

  lemma HeadFits(path: Text, p: nat)
    requires p < |path| && path[p] != SLASH
    ensures p + |Head(path[p..])| <= |path|
  {
  }

  lemma JoinEmpty(stack: seq<Text>)
    ensures |Join(stack)| == 0 <==> stack == []
  {
  }

  lemma HeadOf(p: Text)
    requires p != "" && p[0] != SLASH
    ensures Head(p) != "" && SLASH !in Head(p)
  {
  }

  lemma RestIs(p: Text)
    ensures Rest(p) == SkipSlashes(p[|Head(p)|..])
  {
  }

  lemma DotHead(p: Text)
    requires p != "" && p[0] == '.' && (|p| == 1 || p[1] == SLASH)
    ensures Head(p) == "." && Rest(p) == SkipSlashes(p[1..])
  {
    assert Head(p[1..]) == "";
  }

  lemma DotDotHead(p: Text)
    requires |p| > 1 && p[0] == '.' && p[1] == '.' && (|p| == 2 || p[2] == SLASH)
    ensures Head(p) == ".." && Rest(p) == SkipSlashes(p[2..])
  {
    assert p[1..][1..] == p[2..];
    assert Head(p[2..]) == "";
  }

  lemma PlainHead(p: Text)
    requires p != "" && p[0] != SLASH
    requires !(p[0] == '.' && (|p| == 1 || p[1] == SLASH))
    requires !(|p| > 1 && p[0] == '.' && p[1] == '.' && (|p| == 2 || p[2] == SLASH))
    ensures Head(p) != "." && Head(p) != ".."
  {
    var h := Head(p);
    assert |h| > 0 ==> h[0] == p[..|h|][0] == p[0];
    assert |h| > 1 ==> h[1] == p[..|h|][1] == p[1];
  }

  lemma WalkEnd(links: Links, stack: seq<Text>, follow: bool, fuel: nat)
    ensures Walk(links, stack, "", follow, fuel) == Done(stack)
  {
  }

  lemma WalkStep(links: Links, stack: seq<Text>, p: Text, follow: bool, fuel: nat)
    requires p != "" && p[0] != SLASH
    ensures var h := Head(p);
            var here := stack + [h];
            Walk(links, stack, p, follow, fuel) ==
              if h == "." then Walk(links, stack, Rest(p), follow, fuel)
              else if h == ".." then (if stack == [] then Undefined else Walk(links, stack[..|stack| - 1], Rest(p), follow, fuel))
              else if |Join(stack)| >= MAX_PATH - 2 then Undefined
              else if |Join(stack)| + 1 + |h| >= MAX_PATH - 1 then TooLong
              else if !Followed(links, here, follow, Rest(p) == "") then Walk(links, here, Rest(p), follow, fuel)
              else if !ExpansionFits(stack, links[Join(here)], Rest(p)) then Undefined
              else if fuel == 0 then Looping
              else Walk(links, [], SkipSlashes(Expanded(stack, links[Join(here)], Rest(p))), follow, fuel - 1)
  {
    hide Head, Rest, Join, Expanded, ExpansionFits, SkipSlashes, Followed;
  }

  // The step over an ordinary component.
  lemma WalkPlain(links: Links, stack: seq<Text>, p: Text, follow: bool, fuel: nat)
    requires p != "" && p[0] != SLASH && Head(p) != "." && Head(p) != ".."
    ensures var here := stack + [Head(p)];
            Walk(links, stack, p, follow, fuel) ==
              if |Join(stack)| >= MAX_PATH - 2 then Undefined
              else if |Join(stack)| + 1 + |Head(p)| >= MAX_PATH - 1 then TooLong
              else if (!follow && Rest(p) == "") || Join(here) !in links then Walk(links, here, Rest(p), follow, fuel)
              else if !ExpansionFits(stack, links[Join(here)], Rest(p)) then Undefined
              else if fuel == 0 then Looping
              else Walk(links, [], SkipSlashes(Expanded(stack, links[Join(here)], Rest(p))), follow, fuel - 1)
  {
    WalkStep(links, stack, p, follow, fuel);
    hide Walk, Head, Rest, Join, Expanded, ExpansionFits, SkipSlashes;
  }

  // ------------------------------------------------------------- results

  /** A successful normalisation gives the path the reference resolver finds: normalised text, no dot components, no link
      on the way, and none at its end if links are followed. */
  lemma NormalizeIsResolve(links: Links, start: seq<Text>, path: Text, follow: bool, fuel: nat)
    requires LinkFree(links, start) && Normal(start) && Walk(links, start, SkipSlashes(path), follow, fuel).Done?
    ensures var r := Walk(links, start, SkipSlashes(path), follow, fuel).out;
            && Resolve(links, start, Comps(path), follow, fuel) == Some(r)
            && Normal(r) && LinkFree(links, if follow then r else Parent(r)) && IsNormalized(Join(r))
  {
    hide Walk, Resolve, SkipSlashes, Comps, Join, LinkFree, IsNormalized, Climbs, Roomy;
    SkipTwice(path);
    WalkAgrees(links, start, SkipSlashes(path), follow, fuel, 0);
    CompsOk(path);
    ResolveNormal(links, start, Comps(path), follow, fuel);
    var r := Walk(links, start, SkipSlashes(path), follow, fuel).out;
    CompsJoin(r);
    IsNormalizedIff(Join(r));
  }

  /** With room for the expansions, normalisation fails only where a `..` leaves the root or links never end. */
  lemma NormalizeSucceedsIff(links: Links, start: seq<Text>, path: Text, follow: bool, fuel: nat, w: nat)
    requires LinkFree(links, start) && Normal(start) && Roomy(links, start, SkipSlashes(path), fuel, w)
    ensures var o := Walk(links, start, SkipSlashes(path), follow, fuel);
            && (o == Undefined <==> Climbs(links, start, Comps(path), follow, fuel))
            && (o.Done? <==> !Climbs(links, start, Comps(path), follow, fuel) && Resolve(links, start, Comps(path), follow, fuel).Some?)
  {
    hide Walk, Resolve, SkipSlashes, Comps, Join, LinkFree, Climbs, Roomy;
    SkipTwice(path);
    WalkAgrees(links, start, SkipSlashes(path), follow, fuel, w);
  }
}
