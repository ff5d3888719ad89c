/** Pathname resolution: what path_normalize computes, text and limits included,
    against a resolver in the manner of section 4.13 of IEEE Std 1003.1-2017. */
module PathResolve {
  import opened Bytes
  import opened Paths

  const MAX_PATH: nat := 4096

  // Every mounted file system's symbolic links: normalised path to target. It does not change during a resolution.
  type Links = map<Text, Text>

  predicate Absolute(target: Text) { target != "" && target[0] == '/' }

  function Parent(stack: seq<Text>): seq<Text> { if stack == [] then [] else stack[..|stack| - 1] }

  // A component is followed if it is not the last one, or if asked for.
  predicate Followed(links: Links, here: seq<Text>, follow: bool, last: bool) { (follow || !last) && Join(here) in links }

  /** The reference: resolve the components `todo` from the directory `stack`; None after more than `fuel` links. */
  function Resolve(links: Links, stack: seq<Text>, todo: seq<Text>, follow: bool, fuel: nat): Option<seq<Text>>
    decreases fuel, |todo|
  {
    if todo == [] then Some(stack)
    else if todo[0] == "." then Resolve(links, stack, todo[1..], follow, fuel)
    else if todo[0] == ".." then Resolve(links, Parent(stack), todo[1..], follow, fuel)
    else if !Followed(links, stack + [todo[0]], follow, todo[1..] == []) then
      Resolve(links, stack + [todo[0]], todo[1..], follow, fuel)
    else if fuel == 0 then None
    else
      var target := links[Join(stack + [todo[0]])];
      Resolve(links, if Absolute(target) then [] else stack, Comps(target) + todo[1..], follow, fuel - 1)
  }

  /** The same walk takes the parent of the root at some point. */
  predicate Climbs(links: Links, stack: seq<Text>, todo: seq<Text>, follow: bool, fuel: nat)
    decreases fuel, |todo|
  {
    if todo == [] then false
    else if todo[0] == "." then Climbs(links, stack, todo[1..], follow, fuel)
    else if todo[0] == ".." then stack == [] || Climbs(links, Parent(stack), todo[1..], follow, fuel)
    else if !Followed(links, stack + [todo[0]], follow, todo[1..] == []) then
      Climbs(links, stack + [todo[0]], todo[1..], follow, fuel)
    else if fuel == 0 then false
    else
      var target := links[Join(stack + [todo[0]])];
      Climbs(links, if Absolute(target) then [] else stack, Comps(target) + todo[1..], follow, fuel - 1)
  }

  // ----------------------------------------------------- path_normalize

  /** Undefined: the source writes outside a buffer. Looping: more links than the fuel. */
  datatype Outcome = Done(out: seq<Text>) | TooLong | Undefined | Looping

  // The text the loop restarts on after reading a link: what is already resolved, the target, what is left.
  function Expanded(stack: seq<Text>, target: Text, p: Text): Text {
    (if Absolute(target) then target else Join(stack) + "/" + target) + "/" + p
  }

  // The link's text fits behind `out`, and the expanded path fits its buffer.
  predicate ExpansionFits(stack: seq<Text>, target: Text, p: Text) {
    |Join(stack)| + 1 + |target| < MAX_PATH && |Expanded(stack, target, p)| < MAX_PATH
  }

  /** path_normalize once `stack` is in the output buffer and p, without leading slashes, is left of the path. */
  function Walk(links: Links, stack: seq<Text>, p: Text, follow: bool, fuel: nat): Outcome
    requires p == "" || p[0] != '/'
    decreases fuel, |p|
  {
    if p == "" then Done(stack)
    else if Head(p) == "." then Walk(links, stack, Rest(p), follow, fuel)
    else if Head(p) == ".." then
      if stack == [] then Undefined else Walk(links, stack[..|stack| - 1], Rest(p), follow, fuel)
    else if |Join(stack)| >= MAX_PATH - 2 then Undefined
    else if |Join(stack)| + 1 + |Head(p)| >= MAX_PATH - 1 then TooLong
    else if !Followed(links, stack + [Head(p)], follow, Rest(p) == "") then
      Walk(links, stack + [Head(p)], Rest(p), follow, fuel)
    else
      var target := links[Join(stack + [Head(p)])];
      if !ExpansionFits(stack, target, Rest(p)) then Undefined
      else if fuel == 0 then Looping
      else Walk(links, [], SkipSlashes(Expanded(stack, target, Rest(p))), follow, fuel - 1)
  }

  // ------------------------------------------------------------- results

  // No directory on the way to `stack`, nor itself, is a link.
  ghost predicate LinkFree(links: Links, stack: seq<Text>) {
    forall k | 0 < k <= |stack| :: Join(stack[..k]) !in links
  }

  lemma LinkFreeMore(links: Links, stack: seq<Text>, c: Text)
    requires LinkFree(links, stack) && Join(stack + [c]) !in links
    ensures LinkFree(links, stack + [c])
  {
    forall k | 0 < k <= |stack| + 1 ensures Join((stack + [c])[..k]) !in links {
      if k <= |stack| { assert (stack + [c])[..k] == stack[..k]; } else { assert (stack + [c])[..k] == stack + [c]; }
    }
  }

  lemma LinkFreeParent(links: Links, stack: seq<Text>)
    requires LinkFree(links, stack)
    ensures LinkFree(links, Parent(stack))
  {
    forall k | 0 < k <= |Parent(stack)| ensures Join(Parent(stack)[..k]) !in links {
      assert Parent(stack)[..k] == stack[..k];
    }
  }

  /** What a resolution returns: ordinary components only, no link on the way, and none at the end if links are followed. */
  lemma {:induction false} ResolveNormal(links: Links, stack: seq<Text>, todo: seq<Text>, follow: bool, fuel: nat)
    requires LinkFree(links, stack) && Normal(stack) && forall c <- todo :: Comp(c)
    ensures var r := Resolve(links, stack, todo, follow, fuel);
            r.Some? ==> Normal(r.value) && LinkFree(links, if follow then r.value else Parent(r.value))
    decreases fuel, |todo|
  {
    hide Comps, Join, LinkFree, Absolute, Normal;
    LinkFreeParent(links, stack);
    NormalParent(stack);
    if todo != [] {
      var here := stack + [todo[0]];
      if todo[0] == "." {
        ResolveNormal(links, stack, todo[1..], follow, fuel);
      } else if todo[0] == ".." {
        ResolveNormal(links, Parent(stack), todo[1..], follow, fuel);
      } else if !Followed(links, here, follow, todo[1..] == []) {
        NormalMore(stack, todo[0]);
        if Join(here) !in links {
          LinkFreeMore(links, stack, todo[0]);
          ResolveNormal(links, here, todo[1..], follow, fuel);
        }
      } else if fuel != 0 {
        LinkFreeRoot(links);
        NormalRoot();
        CompsOk(links[Join(here)]);
        ResolveNormal(links, if Absolute(links[Join(here)]) then [] else stack, Comps(links[Join(here)]) + todo[1..], follow, fuel - 1);
      }
    }
  }

  lemma NormalParent(stack: seq<Text>)
    requires Normal(stack)
    ensures Normal(Parent(stack))
  {
  }

  lemma NormalRoot()
    ensures Normal([])
  {
  }

  lemma NormalMore(stack: seq<Text>, c: Text)
    requires Normal(stack) && Comp(c) && c != "." && c != ".."
    ensures Normal(stack + [c]) && Parent(stack + [c]) == stack
  {
  }

  lemma NotFollowed(links: Links, stack: seq<Text>, k: nat)
    requires LinkFree(links, stack) && 0 < k <= |stack|
    ensures Join(stack[..k]) !in links
  {
  }

  // Walking again over components already known to be ordinary changes nothing.
  lemma {:induction false} Rewalk(links: Links, done: seq<Text>, again: seq<Text>, todo: seq<Text>, follow: bool, fuel: nat)
    requires LinkFree(links, done + again) && Normal(again)
    ensures Resolve(links, done, again + todo, follow, fuel) == Resolve(links, done + again, todo, follow, fuel)
    ensures Climbs(links, done, again + todo, follow, fuel) == Climbs(links, done + again, todo, follow, fuel)
    decreases |again|
  {
    if again == [] {
      assert again + todo == todo && done + again == done;
    } else {
      assert (done + again)[..|done| + 1] == done + [again[0]];
      assert again[0] in again && (again + todo)[0] == again[0];
      NotFollowed(links, done + again, |done| + 1);
      assert (again + todo)[1..] == again[1..] + todo;
      assert done + [again[0]] + again[1..] == done + again;
      Rewalk(links, done + [again[0]], again[1..], todo, follow, fuel);
    }
  }

  // The restart after a link is the reference's step.
  lemma Restart(links: Links, stack: seq<Text>, target: Text, p: Text, follow: bool, fuel: nat)
    requires LinkFree(links, stack) && Normal(stack)
    ensures var base := if Absolute(target) then [] else stack;
            var text := SkipSlashes(Expanded(stack, target, p));
            && Resolve(links, [], Comps(text), follow, fuel) == Resolve(links, base, Comps(target) + Comps(p), follow, fuel)
            && Climbs(links, [], Comps(text), follow, fuel) == Climbs(links, base, Comps(target) + Comps(p), follow, fuel)
  {
    SkipTwice(Expanded(stack, target, p));
    hide Resolve, Climbs, Comps, SkipSlashes, Join, LinkFree;
    if Absolute(target) {
      CompsSlash(target, p);
    } else {
      CompsSlash(Join(stack) + "/" + target, p);
      CompsSlash(Join(stack), target);
      CompsJoin(stack);
      assert [] + stack == stack;
      assert stack + Comps(target) + Comps(p) == stack + (Comps(target) + Comps(p));
      Rewalk(links, [], stack, Comps(target) + Comps(p), follow, fuel);
    }
  }

  // ---------------------------------------------- the normaliser is right

  // The text already resolved and the text still to come.
  function Length(stack: seq<Text>, p: Text): nat { |Join(stack)| + if p == "" then 0 else 1 + |p| }

  // How much longer the text can get by `fuel` expansions, and one more being tried.
  function Growth(fuel: nat, w: nat): nat { (fuel + 1) * (w + 1) }

  lemma GrowthStep(fuel: nat, w: nat)
    ensures Growth(fuel, w) >= w + 1 && (fuel > 0 ==> Growth(fuel, w) == Growth(fuel - 1, w) + w + 1)
  {
    assert (fuel + 1) * (w + 1) == fuel * (w + 1) + (w + 1);
  }

  // Room for every expansion: targets of at most w characters, at most `fuel` of them.
  predicate Roomy(links: Links, stack: seq<Text>, p: Text, fuel: nat, w: nat) {
    (forall k <- links :: |links[k]| <= w) && Length(stack, p) + Growth(fuel, w) <= MAX_PATH - 2
  }

  /** What the outcome of the code says about the reference. */
  predicate Agrees(o: Outcome, r: Option<seq<Text>>, climbs: bool, roomy: bool) {
    && (o.Done? ==> !climbs && r == Some(o.out))
    && (o.Looping? ==> !climbs && r == None)
    && (roomy ==> (climbs <==> o == Undefined) && o != TooLong)
  }

  lemma CompsHead(p: Text)
    requires p != "" && p[0] != '/'
    ensures Comps(p) == [Head(p)] + Comps(Rest(p)) && Comps(p)[0] == Head(p) && Comps(p)[1..] == Comps(Rest(p))
    ensures Comps(Rest(p)) == [] <==> Rest(p) == ""
    ensures |p| >= |Head(p)| + if Rest(p) == "" then 0 else 1 + |Rest(p)|
  {
  }

  lemma ParentLength(stack: seq<Text>)
    requires stack != []
    ensures |Join(stack[..|stack| - 1])| < |Join(stack)|
  {
  }

  lemma RoomyExpansion(links: Links, stack: seq<Text>, p: Text, target: Text, fuel: nat, w: nat)
    requires p != "" && p[0] != '/' && |target| <= w && Roomy(links, stack, p, fuel, w)
    ensures ExpansionFits(stack, target, Rest(p))
    ensures fuel > 0 ==> Roomy(links, [], SkipSlashes(Expanded(stack, target, Rest(p))), fuel - 1, w)
  {
    hide Growth, Join;
    CompsHead(p);
    GrowthStep(fuel, w);
    var e := Expanded(stack, target, Rest(p));
    assert |e| <= |Join(stack)| + 1 + w + 1 + |Rest(p)|;
    EmptyText();
    assert Length([], SkipSlashes(e)) <= 1 + |e|;
  }

  lemma {:induction false} WalkAgrees(links: Links, stack: seq<Text>, p: Text, follow: bool, fuel: nat, w: nat)
    requires (p == "" || p[0] != '/') && LinkFree(links, stack) && Normal(stack)
    ensures Agrees(Walk(links, stack, p, follow, fuel), Resolve(links, stack, Comps(p), follow, fuel),
                   Climbs(links, stack, Comps(p), follow, fuel), Roomy(links, stack, p, fuel, w))
    decreases fuel, |p|, 1
  {
    if p != "" {
      hide Resolve, Climbs, Walk, Comps, Join, Roomy, LinkFree, Growth, Agrees;
      if Head(p) == "." {
        WalkAgrees(links, stack, Rest(p), follow, fuel, w);
        StepDotAgrees(links, stack, p, follow, fuel, w);
      } else if Head(p) == ".." {
        if stack != [] {
          LinkFreeParent(links, stack);
          WalkAgrees(links, Parent(stack), Rest(p), follow, fuel, w);
        }
        StepUpAgrees(links, stack, p, follow, fuel, w);
      } else {
        WalkComponent(links, stack, p, follow, fuel, w);
      }
    } else {
      LastComponent(links, stack, follow, fuel, w);
    }
  }

  lemma StepDotAgrees(links: Links, stack: seq<Text>, p: Text, follow: bool, fuel: nat, w: nat)
    requires p != "" && p[0] != '/' && Head(p) == "."
    requires Agrees(Walk(links, stack, Rest(p), follow, fuel), Resolve(links, stack, Comps(Rest(p)), follow, fuel),
                    Climbs(links, stack, Comps(Rest(p)), follow, fuel), Roomy(links, stack, Rest(p), fuel, w))
    ensures Agrees(Walk(links, stack, p, follow, fuel), Resolve(links, stack, Comps(p), follow, fuel),
                   Climbs(links, stack, Comps(p), follow, fuel), Roomy(links, stack, p, fuel, w))
  {
    CompsHead(p);
    hide Head, Rest, Comps, Join, Growth;
  }

  lemma StepUpAgrees(links: Links, stack: seq<Text>, p: Text, follow: bool, fuel: nat, w: nat)
    requires p != "" && p[0] != '/' && Head(p) == ".."
    requires stack != [] ==>
               Agrees(Walk(links, Parent(stack), Rest(p), follow, fuel), Resolve(links, Parent(stack), Comps(Rest(p)), follow, fuel),
                      Climbs(links, Parent(stack), Comps(Rest(p)), follow, fuel), Roomy(links, Parent(stack), Rest(p), fuel, w))
    ensures Agrees(Walk(links, stack, p, follow, fuel), Resolve(links, stack, Comps(p), follow, fuel),
                   Climbs(links, stack, Comps(p), follow, fuel), Roomy(links, stack, p, fuel, w))
  {
    CompsHead(p);
    if stack != [] { ParentLength(stack); }
    hide Head, Rest, Comps, Join, Growth;
  }

  // One step of each of the three walks over an ordinary component.
  lemma StepForward(links: Links, stack: seq<Text>, p: Text, follow: bool, fuel: nat)
    requires p != "" && p[0] != '/' && Head(p) != "." && Head(p) != ".." && !Followed(links, stack + [Head(p)], follow, Rest(p) == "")
    ensures var here := stack + [Head(p)];
            && Resolve(links, stack, Comps(p), follow, fuel) == Resolve(links, here, Comps(Rest(p)), follow, fuel)
            && Climbs(links, stack, Comps(p), follow, fuel) == Climbs(links, here, Comps(Rest(p)), follow, fuel)
            && Walk(links, stack, p, follow, fuel) ==
               if |Join(stack)| >= MAX_PATH - 2 then Undefined
               else if |Join(stack)| + 1 + |Head(p)| >= MAX_PATH - 1 then TooLong
               else Walk(links, here, Rest(p), follow, fuel)
  {
    CompsHead(p);
    hide Head, Rest, Comps, Join, Followed;
  }

  lemma StepLink(links: Links, stack: seq<Text>, p: Text, follow: bool, fuel: nat)
    requires p != "" && p[0] != '/' && Head(p) != "." && Head(p) != ".." && Followed(links, stack + [Head(p)], follow, Rest(p) == "")
    ensures var target := links[Join(stack + [Head(p)])];
            var base := if Absolute(target) then [] else stack;
            && Resolve(links, stack, Comps(p), follow, fuel) ==
               (if fuel == 0 then None else Resolve(links, base, Comps(target) + Comps(Rest(p)), follow, fuel - 1))
            && Climbs(links, stack, Comps(p), follow, fuel) ==
               (if fuel == 0 then false else Climbs(links, base, Comps(target) + Comps(Rest(p)), follow, fuel - 1))
            && Walk(links, stack, p, follow, fuel) ==
               if |Join(stack)| >= MAX_PATH - 2 then Undefined
               else if |Join(stack)| + 1 + |Head(p)| >= MAX_PATH - 1 then TooLong
               else if !ExpansionFits(stack, target, Rest(p)) then Undefined
               else if fuel == 0 then Looping
               else Walk(links, [], SkipSlashes(Expanded(stack, target, Rest(p))), follow, fuel - 1)
  {
    CompsHead(p);
    hide Head, Rest, Comps, Join, Expanded, ExpansionFits, SkipSlashes, Absolute;
  }

  lemma StepForwardAgrees(links: Links, stack: seq<Text>, p: Text, follow: bool, fuel: nat, w: nat)
    requires p != "" && p[0] != '/' && Head(p) != "." && Head(p) != ".." && !Followed(links, stack + [Head(p)], follow, Rest(p) == "")
    requires var here := stack + [Head(p)];
             Agrees(Walk(links, here, Rest(p), follow, fuel), Resolve(links, here, Comps(Rest(p)), follow, fuel),
                    Climbs(links, here, Comps(Rest(p)), follow, fuel), Roomy(links, here, Rest(p), fuel, w))
    ensures Agrees(Walk(links, stack, p, follow, fuel), Resolve(links, stack, Comps(p), follow, fuel),
                   Climbs(links, stack, Comps(p), follow, fuel), Roomy(links, stack, p, fuel, w))
  {
    StepForward(links, stack, p, follow, fuel);
    RoomyNext(links, stack, p, fuel, w);
    hide Resolve, Climbs, Walk, Head, Rest, Comps, Join, Followed, Roomy;
  }

  lemma StepLinkAgrees(links: Links, stack: seq<Text>, p: Text, follow: bool, fuel: nat, w: nat)
    requires p != "" && p[0] != '/' && Head(p) != "." && Head(p) != ".." && Followed(links, stack + [Head(p)], follow, Rest(p) == "")
    requires LinkFree(links, stack) && Normal(stack)
    requires fuel > 0 ==>
               var text := SkipSlashes(Expanded(stack, links[Join(stack + [Head(p)])], Rest(p)));
               Agrees(Walk(links, [], text, follow, fuel - 1), Resolve(links, [], Comps(text), follow, fuel - 1),
                      Climbs(links, [], Comps(text), follow, fuel - 1), Roomy(links, [], text, fuel - 1, w))
    ensures Agrees(Walk(links, stack, p, follow, fuel), Resolve(links, stack, Comps(p), follow, fuel),
                   Climbs(links, stack, Comps(p), follow, fuel), Roomy(links, stack, p, fuel, w))
  {
    hide Resolve, Climbs, Walk, Head, Rest, Comps, Join, Roomy, Expanded, ExpansionFits, SkipSlashes, LinkFree, Normal, Absolute;
    StepLink(links, stack, p, follow, fuel);
    LinkRoom(links, stack, p, Join(stack + [Head(p)]), fuel, w);
    if fuel > 0 {
      Restart(links, stack, links[Join(stack + [Head(p)])], Rest(p), follow, fuel - 1);
    }
  }

  // Room for the component and for the expansion of the link it is.
  lemma LinkRoom(links: Links, stack: seq<Text>, p: Text, k: Text, fuel: nat, w: nat)
    requires p != "" && p[0] != '/' && k in links
    ensures Roomy(links, stack, p, fuel, w) ==>
              && |Join(stack)| + 1 + |Head(p)| < MAX_PATH - 1 && ExpansionFits(stack, links[k], Rest(p))
              && (fuel > 0 ==> Roomy(links, [], SkipSlashes(Expanded(stack, links[k], Rest(p))), fuel - 1, w))
  {
    hide Head, Rest, Join, Roomy, Expanded, ExpansionFits, SkipSlashes;
    RoomyNext(links, stack, p, fuel, w);
    if Roomy(links, stack, p, fuel, w) {
      RoomyTarget(links, stack, p, k, fuel, w);
      RoomyExpansion(links, stack, p, links[k], fuel, w);
    }
  }

  // The step over an ordinary component.
  lemma WalkComponent(links: Links, stack: seq<Text>, p: Text, follow: bool, fuel: nat, w: nat)
    requires p != "" && p[0] != '/' && LinkFree(links, stack) && Normal(stack) && Head(p) != "." && Head(p) != ".."
    ensures Agrees(Walk(links, stack, p, follow, fuel), Resolve(links, stack, Comps(p), follow, fuel),
                   Climbs(links, stack, Comps(p), follow, fuel), Roomy(links, stack, p, fuel, w))
    decreases fuel, |p|, 0
  {
    hide Resolve, Climbs, Walk, Comps, Join, Roomy, Expanded, ExpansionFits, SkipSlashes, LinkFree, Growth, Agrees;
    var here := stack + [Head(p)];
    if !Followed(links, here, follow, Rest(p) == "") {
      if Join(here) in links {
        LastComponent(links, here, follow, fuel, w);
      } else {
        LinkFreeMore(links, stack, Head(p));
        WalkAgrees(links, here, Rest(p), follow, fuel, w);
      }
      StepForwardAgrees(links, stack, p, follow, fuel, w);
    } else {
      if fuel > 0 {
        LinkFreeRoot(links);
        WalkAgrees(links, [], SkipSlashes(Expanded(stack, links[Join(here)], Rest(p))), follow, fuel - 1, w);
      }
      StepLinkAgrees(links, stack, p, follow, fuel, w);
    }
  }

  lemma LinkFreeRoot(links: Links)
    ensures LinkFree(links, [])
  {
  }

  lemma LastComponent(links: Links, here: seq<Text>, follow: bool, fuel: nat, w: nat)
    ensures Agrees(Walk(links, here, "", follow, fuel), Resolve(links, here, Comps(""), follow, fuel),
                   Climbs(links, here, Comps(""), follow, fuel), Roomy(links, here, "", fuel, w))
  {
  }

  lemma RoomyTarget(links: Links, stack: seq<Text>, p: Text, k: Text, fuel: nat, w: nat)
    requires Roomy(links, stack, p, fuel, w) && k in links
    ensures |links[k]| <= w
  {
  }

  lemma RoomyNext(links: Links, stack: seq<Text>, p: Text, fuel: nat, w: nat)
    requires p != "" && p[0] != '/'
    ensures Roomy(links, stack, p, fuel, w) ==>
              && Roomy(links, stack + [Head(p)], Rest(p), fuel, w)
              && |Join(stack)| + 1 + |Head(p)| < MAX_PATH - 1
  {
    CompsHead(p);
    JoinMore(stack, Head(p));
    GrowthStep(fuel, w);
    hide Growth, Join, Head, Rest;
  }

  // ------------------------------------------------------ trailing slashes

  // A final dot makes the component before it a directory to be entered.
  lemma {:induction false} DotFollows(links: Links, stack: seq<Text>, todo: seq<Text>, follow: bool, fuel: nat)
    ensures Resolve(links, stack, todo + ["."], follow, fuel) == Resolve(links, stack, todo, true, fuel)
    decreases fuel, |todo|
  {
    if todo == [] {
      assert todo + ["."] == ["."] + [];
      ResolveStep(links, stack, ".", [], follow, fuel);
    } else {
      hide Comps, Join, Resolve, Absolute;
      var c, rest := todo[0], todo[1..];
      assert todo == [c] + rest;
      assert todo + ["."] == [c] + (rest + ["."]);
      ResolveStep(links, stack, c, rest, true, fuel);
      ResolveStep(links, stack, c, rest + ["."], follow, fuel);
      if c == "." {
        DotFollows(links, stack, rest, follow, fuel);
      } else if c == ".." {
        DotFollows(links, Parent(stack), rest, follow, fuel);
      } else if !Followed(links, stack + [c], true, rest == []) {
        DotFollows(links, stack + [c], rest, follow, fuel);
      } else if fuel > 0 {
        var target := links[Join(stack + [c])];
        DotFollows(links, if Absolute(target) then [] else stack, Comps(target) + rest, follow, fuel - 1);
        assert Comps(target) + rest + ["."] == Comps(target) + (rest + ["."]);
      }
    }
  }

  lemma {:induction false} FollowSame(links: Links, stack: seq<Text>, todo: seq<Text>, fuel: nat)
    requires var r := Resolve(links, stack, todo, false, fuel); r.Some? && Join(r.value) !in links
    ensures Resolve(links, stack, todo, true, fuel) == Resolve(links, stack, todo, false, fuel)
    decreases fuel, |todo|
  {
    if todo != [] {
      hide Comps, Join, Resolve, Absolute;
      var c, rest := todo[0], todo[1..];
      assert todo == [c] + rest;
      ResolveStep(links, stack, c, rest, true, fuel);
      ResolveStep(links, stack, c, rest, false, fuel);
      if c == "." {
        FollowSame(links, stack, rest, fuel);
      } else if c == ".." {
        FollowSame(links, Parent(stack), rest, fuel);
      } else if !Followed(links, stack + [c], false, rest == []) {
        if rest == [] { ResolveNothing(links, stack + [c], false, fuel); }
        FollowSame(links, stack + [c], rest, fuel);
      } else {
        var target := links[Join(stack + [c])];
        FollowSame(links, if Absolute(target) then [] else stack, Comps(target) + rest, fuel - 1);
      }
    }
  }

  lemma ResolveNothing(links: Links, stack: seq<Text>, follow: bool, fuel: nat)
    ensures Resolve(links, stack, [], follow, fuel) == Some(stack)
  {
  }

  /** The standard reads a trailing slash as a final dot; the code drops it. The two agree exactly if the last link is
      followed anyway or the path does not end at a link. */
  lemma TrailingSlashIff(links: Links, stack: seq<Text>, path: Text, follow: bool, fuel: nat)
    requires LinkFree(links, stack) && Normal(stack) && "" !in links && Resolve(links, stack, Comps(path), follow, fuel).Some?
    ensures Comps(path + "/") == Comps(path)
    ensures var r := Resolve(links, stack, Comps(path), follow, fuel);
            Resolve(links, stack, Comps(path) + ["."], follow, fuel) == r <==> follow || Join(r.value) !in links
  {
    assert path + "/" == path + "/" + "";
    CompsSlash(path, "");
    CompsOk(path);
    EmptyText();
    hide Comps, Join, Resolve;
    var r := Resolve(links, stack, Comps(path), follow, fuel).value;
    DotFollows(links, stack, Comps(path), follow, fuel);
    ResolveNormal(links, stack, Comps(path), true, fuel);
    if !follow {
      if Join(r) !in links {
        FollowSame(links, stack, Comps(path), fuel);
      } else if Resolve(links, stack, Comps(path), true, fuel) == Some(r) {
        LinkFreeSelf(links, r);
      }
    }
  }

  /** The input: the link /l to t, and the path /l/. */
  lemma TrailingSlashMissed(links: Links)
    requires links == map["/l" := "t"]
    ensures Resolve(links, [], Comps("/l/"), false, 1) == Some(["l"])
    ensures Resolve(links, [], Comps("/l/") + ["."], false, 1) == Some(["t"])
  {
    hide Resolve, Comps, Join;
    assert "/l/" == "/l" + "/" + "";
    CompsSlash("/l", "");
    CompsJoin(["l"]);
    JoinMore([], "l");
    JoinMore([], "t");
    assert [] + ["l"] == ["l"] && [] + ["t"] == ["t"] && "" + "/" + "l" == "/l";
    EmptyText();
    CompsOne("t");
    ResolveStep(links, [], "l", [], false, 1);
    ResolveNothing(links, ["l"], false, 1);
    ResolveStep(links, [], "l", ["."], false, 1);
    ResolveStep(links, [], "t", ["."], false, 0);
    ResolveStep(links, ["t"], ".", [], false, 0);
    ResolveNothing(links, ["t"], false, 0);
    assert Comps("/l/") == ["l"];
    assert "" + "/" + "t" == "/t" && "/t"[1] != "/l"[1];
    assert ["l"] + ["."] == ["l", "."] && ["t"] + ["."] == ["t", "."] && ["l"] + [] == ["l"] && ["."] + [] == ["."];
  }

  lemma LinkFreeSelf(links: Links, r: seq<Text>)
    requires LinkFree(links, r)
    ensures r == [] || Join(r) !in links
  {
    assert r[..|r|] == r;
  }

  // --------------------------------------------------------- termination

  /** More fuel does not change an answer. */
  lemma {:induction false} FuelMonotone(links: Links, stack: seq<Text>, todo: seq<Text>, follow: bool, f: nat, g: nat)
    requires f <= g && Resolve(links, stack, todo, follow, f).Some?
    ensures Resolve(links, stack, todo, follow, g) == Resolve(links, stack, todo, follow, f)
    decreases f, |todo|
  {
    hide Comps, Join;
    if todo != [] {
      if todo[0] == "." {
        FuelMonotone(links, stack, todo[1..], follow, f, g);
      } else if todo[0] == ".." {
        FuelMonotone(links, Parent(stack), todo[1..], follow, f, g);
      } else if !Followed(links, stack + [todo[0]], follow, todo[1..] == []) {
        FuelMonotone(links, stack + [todo[0]], todo[1..], follow, f, g);
      } else {
        var target := links[Join(stack + [todo[0]])];
        FuelMonotone(links, if Absolute(target) then [] else stack, Comps(target) + todo[1..], follow, f - 1, g - 1);
      }
    }
  }

  // One step of the reference.
  lemma ResolveStep(links: Links, stack: seq<Text>, c: Text, rest: seq<Text>, follow: bool, fuel: nat)
    ensures Resolve(links, stack, [c] + rest, follow, fuel) ==
              if c == "." then Resolve(links, stack, rest, follow, fuel)
              else if c == ".." then Resolve(links, Parent(stack), rest, follow, fuel)
              else if !Followed(links, stack + [c], follow, rest == []) then Resolve(links, stack + [c], rest, follow, fuel)
              else if fuel == 0 then None
              else
                var target := links[Join(stack + [c])];
                Resolve(links, if Absolute(target) then [] else stack, Comps(target) + rest, follow, fuel - 1)
  {
    assert ([c] + rest)[1..] == rest;
    hide Comps, Join, Followed;
  }

  // Resolving a, then b from where a leads, is resolving a followed by b.
  lemma {:induction false} Compose(links: Links, stack: seq<Text>, a: seq<Text>, b: seq<Text>, follow: bool, f: nat, g: nat)
    requires b != [] || follow
    requires var r := Resolve(links, stack, a, true, f); r.Some? && Resolve(links, r.value, b, follow, g).Some?
    ensures var r := Resolve(links, stack, a, true, f).value;
            Resolve(links, stack, a + b, follow, f + g) == Resolve(links, r, b, follow, g)
    decreases f, |a|, 1
  {
    if a == [] {
      assert a + b == b;
      FuelMonotone(links, stack, b, follow, g, f + g);
    } else {
      hide Comps, Join, Resolve, Absolute;
      var c, rest := a[0], a[1..];
      assert a == [c] + rest;
      assert a + b == [c] + (rest + b);
      if c != "." && c != ".." && Followed(links, stack + [c], true, rest == []) {
        ComposeLink(links, stack, c, rest, b, follow, f, g);
      } else {
        ResolveStep(links, stack, c, rest, true, f);
        ResolveStep(links, stack, c, rest + b, follow, f + g);
        Compose(links, if c == "." then stack else if c == ".." then Parent(stack) else stack + [c], rest, b, follow, f, g);
      }
    }
  }

  lemma ComposeLink(links: Links, stack: seq<Text>, c: Text, rest: seq<Text>, b: seq<Text>, follow: bool, f: nat, g: nat)
    requires b != [] || follow
    requires c != "." && c != ".." && Followed(links, stack + [c], true, rest == [])
    requires var r := Resolve(links, stack, [c] + rest, true, f); r.Some? && Resolve(links, r.value, b, follow, g).Some?
    ensures var r := Resolve(links, stack, [c] + rest, true, f).value;
            Resolve(links, stack, [c] + (rest + b), follow, f + g) == Resolve(links, r, b, follow, g)
    decreases f, |rest| + 1, 0
  {
    hide Comps, Join, Resolve, Absolute;
    ResolveStep(links, stack, c, rest, true, f);
    ResolveStep(links, stack, c, rest + b, follow, f + g);
    var target := links[Join(stack + [c])];
    Compose(links, if Absolute(target) then [] else stack, Comps(target) + rest, b, follow, f - 1, g);
    assert Comps(target) + rest + b == Comps(target) + (rest + b);
  }

  ghost predicate Terminates(links: Links, stack: seq<Text>, todo: seq<Text>, follow: bool) {
    exists f: nat :: Resolve(links, stack, todo, follow, f).Some?
  }

  predicate Proper(links: Links, stack: seq<Text>, c: Text) {
    Comp(c) && c != "." && c != ".." && Join(stack + [c]) in links
  }

  // The link's own target resolves.
  ghost predicate LinkResolves(links: Links, stack: seq<Text>, c: Text)
    requires Proper(links, stack, c)
  {
    var target := links[Join(stack + [c])];
    Terminates(links, if Absolute(target) then [] else stack, Comps(target), true)
  }

  // Every link that sits in a directory resolves on its own.
  ghost predicate WellFounded(links: Links) {
    forall stack, c | LinkFree(links, stack) && Normal(stack) && Proper(links, stack, c) :: LinkResolves(links, stack, c)
  }

  lemma {:induction false} WellFoundedTerminates(links: Links, stack: seq<Text>, todo: seq<Text>, follow: bool)
    requires WellFounded(links) && LinkFree(links, stack) && Normal(stack) && forall c <- todo :: Comp(c)
    ensures Terminates(links, stack, todo, follow)
    decreases |todo|
  {
    hide WellFounded, LinkFree, Comps, Join;
    if todo == [] {
      assert Resolve(links, stack, todo, follow, 0).Some?;
    } else if todo[0] == "." {
      WellFoundedTerminates(links, stack, todo[1..], follow);
      var f: nat :| Resolve(links, stack, todo[1..], follow, f).Some?;
      assert Resolve(links, stack, todo, follow, f).Some?;
    } else if todo[0] == ".." {
      LinkFreeParent(links, stack);
      WellFoundedTerminates(links, Parent(stack), todo[1..], follow);
      var f: nat :| Resolve(links, Parent(stack), todo[1..], follow, f).Some?;
      assert Resolve(links, stack, todo, follow, f).Some?;
    } else if !Followed(links, stack + [todo[0]], follow, todo[1..] == []) {
      ForwardTerminates(links, stack, todo, follow);
    } else {
      LinkTerminates(links, stack, todo, follow);
    }
  }

  lemma ForwardTerminates(links: Links, stack: seq<Text>, todo: seq<Text>, follow: bool)
    requires WellFounded(links) && LinkFree(links, stack) && Normal(stack) && forall c <- todo :: Comp(c)
    requires todo != [] && todo[0] != "." && todo[0] != ".." && !Followed(links, stack + [todo[0]], follow, todo[1..] == [])
    ensures Terminates(links, stack, todo, follow)
    decreases |todo|, 0
  {
    hide WellFounded, LinkFree, Comps, Join;
    var here := stack + [todo[0]];
    if Join(here) in links {
      assert Resolve(links, here, todo[1..], follow, 0).Some?;
      assert Resolve(links, stack, todo, follow, 0).Some?;
    } else {
      LinkFreeMore(links, stack, todo[0]);
      WellFoundedTerminates(links, here, todo[1..], follow);
      var f: nat :| Resolve(links, here, todo[1..], follow, f).Some?;
      assert Resolve(links, stack, todo, follow, f).Some?;
    }
  }

  lemma LinkTerminates(links: Links, stack: seq<Text>, todo: seq<Text>, follow: bool)
    requires WellFounded(links) && LinkFree(links, stack) && Normal(stack) && forall c <- todo :: Comp(c)
    requires todo != [] && todo[0] != "." && todo[0] != ".." && Followed(links, stack + [todo[0]], follow, todo[1..] == [])
    ensures Terminates(links, stack, todo, follow)
    decreases |todo|, 0
  {
    var target := links[Join(stack + [todo[0]])];
    var base := if Absolute(target) then [] else stack;
    assert Proper(links, stack, todo[0]) && LinkResolves(links, stack, todo[0]);
    hide WellFounded, LinkFree, Comps, Join;
    var f: nat :| Resolve(links, base, Comps(target), true, f).Some?;
    var r := Resolve(links, base, Comps(target), true, f).value;
    CompsOk(target);
    LinkFreeRoot(links);
    ResolveNormal(links, base, Comps(target), true, f);
    WellFoundedTerminates(links, r, todo[1..], follow);
    var g: nat :| Resolve(links, r, todo[1..], follow, g).Some?;
    Compose(links, base, Comps(target), todo[1..], follow, f, g);
    assert Resolve(links, stack, todo, follow, f + g + 1).Some?;
  }

  /** Every path resolves exactly if every link resolves on its own. */
  lemma TerminatesIff(links: Links)
    ensures WellFounded(links) <==>
              forall stack, todo, follow | LinkFree(links, stack) && Normal(stack) && (forall c <- todo :: Comp(c)) ::
                Terminates(links, stack, todo, follow)
  {
    hide LinkFree, Terminates, Comps, Join;
    if WellFounded(links) {
      forall stack, todo, follow | LinkFree(links, stack) && Normal(stack) && (forall c <- todo :: Comp(c))
        ensures Terminates(links, stack, todo, follow)
      {
        WellFoundedTerminates(links, stack, todo, follow);
      }
    }
    if forall stack, todo, follow | LinkFree(links, stack) && Normal(stack) && (forall c <- todo :: Comp(c)) ::
         Terminates(links, stack, todo, follow)
    {
      forall stack, c | LinkFree(links, stack) && Normal(stack) && Proper(links, stack, c)
        ensures LinkResolves(links, stack, c)
      {
        LinkFreeRoot(links);
        CompsOk(links[Join(stack + [c])]);
      }
    }
  }

  // --------------------------------------------- path_normalize terminates

  /** A larger bound on the links followed changes no outcome but that of running into it. */
  lemma {:induction false} WalkFuel(links: Links, stack: seq<Text>, p: Text, follow: bool, f: nat, g: nat)
    requires (p == "" || p[0] != '/') && f <= g && Walk(links, stack, p, follow, f) != Looping
    ensures Walk(links, stack, p, follow, g) == Walk(links, stack, p, follow, f)
    decreases f, |p|
  {
    hide Comps, Join, Head, Rest, Expanded, ExpansionFits, SkipSlashes;
    if p != "" {
      var h := Head(p);
      RestShorter(p);
      if h == "." {
        WalkFuel(links, stack, Rest(p), follow, f, g);
      } else if h == ".." {
        if stack != [] { WalkFuel(links, stack[..|stack| - 1], Rest(p), follow, f, g); }
      } else if |Join(stack)| < MAX_PATH - 2 && |Join(stack)| + 1 + |h| < MAX_PATH - 1 {
        if !Followed(links, stack + [h], follow, Rest(p) == "") {
          WalkFuel(links, stack + [h], Rest(p), follow, f, g);
        } else if f > 0 && ExpansionFits(stack, links[Join(stack + [h])], Rest(p)) {
          WalkFuel(links, [], SkipSlashes(Expanded(stack, links[Join(stack + [h])], Rest(p))), follow, f - 1, g - 1);
        }
      }
    }
  }

  lemma RestShorter(p: Text)
    requires p != "" && p[0] != '/'
    ensures |Rest(p)| < |p| && |Head(p)| > 0
  {
  }

  /** If every link resolves on its own, path_normalize comes to an end on every path. */
  lemma WalkStops(links: Links, stack: seq<Text>, p: Text, follow: bool)
    requires WellFounded(links) && LinkFree(links, stack) && Normal(stack) && (p == "" || p[0] != '/')
    ensures exists f: nat :: forall g: nat | g >= f :: Walk(links, stack, p, follow, g) == Walk(links, stack, p, follow, f) != Looping
  {
    hide WellFounded, LinkFree, Normal, Comps, Join, Walk, Resolve, Climbs, Roomy;
    CompsOk(p);
    WellFoundedTerminates(links, stack, Comps(p), follow);
    var f: nat :| Resolve(links, stack, Comps(p), follow, f).Some?;
    WalkAgrees(links, stack, p, follow, f, 0);
    forall g: nat | g >= f ensures Walk(links, stack, p, follow, g) == Walk(links, stack, p, follow, f) {
      WalkFuel(links, stack, p, follow, f, g);
    }
  }

  /** And on a link to itself it does not, whatever the bound. */
  lemma {:induction false} LinkLoops(links: Links, p: Text, fuel: nat)
    requires links == map["/a" := "a"] && (p == "a" || p == "a/")
    ensures Walk(links, [], p, true, fuel) == Looping
    decreases fuel
  {
    SelfLink(p);
    assert Followed(links, [] + [Head(p)], true, Rest(p) == "");
    StepLink(links, [], p, true, fuel);
    hide Walk, Resolve, Climbs, SkipSlashes, Head, Rest;
    if fuel > 0 { LinkLoops(links, "a/", fuel - 1); }
  }

  lemma SelfLink(p: Text)
    requires p == "a" || p == "a/"
    ensures Head(p) == "a" && Rest(p) == "" && Join([] + [Head(p)]) == "/a"
    ensures SkipSlashes(Expanded([], "a", "")) == "a/" && ExpansionFits([], "a", "")
  {
    HeadComp("a");
    HeadAppend("a", "/");
    assert "a" + "/" == "a/";
    assert p[1..] == if p == "a" then "" else "/";
    assert "/"[1..] == "";
    JoinMore([], "a");
    EmptyText();
    assert [] + ["a"] == ["a"] && "" + "/" + "a" == "/a";
    assert Expanded([], "a", "") == "/a/";
    assert "/a/"[1..] == "a/";
    assert SkipSlashes("/a/") == SkipSlashes("a/") == "a/";
  }
}
