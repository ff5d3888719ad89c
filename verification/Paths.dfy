/** Path text and its components. */
module Paths {
  type Text = string                      // a C string: the terminating NUL is the end of the sequence

  // What is left after any leading slashes.
  function SkipSlashes(s: Text): (t: Text)
    ensures |t| <= |s| && (t == "" || t[0] != '/')
  {
    if s != "" && s[0] == '/' then SkipSlashes(s[1..]) else s
  }

  // The characters up to a slash or the end.
  function Head(s: Text): (h: Text)
    ensures |h| <= |s| && h == s[..|h|] && '/' !in h && (|h| < |s| ==> s[|h|] == '/')
  {
    if s == "" || s[0] == '/' then "" else [s[0]] + Head(s[1..])
  }

  // What follows the head and the slashes after it.
  function Rest(s: Text): (t: Text)
    ensures |t| + |Head(s)| <= |s| && (t == "" || t[0] != '/')
  {
    SkipSlashes(s[|Head(s)|..])
  }

  /** The non-empty components of a path. */
  function Comps(s: Text): seq<Text>
    decreases |s|
  {
    var t := SkipSlashes(s);
    if t == "" then [] else [Head(t)] + Comps(Rest(t))
  }

  /** The text of a normalised path: each component after a slash. */
  function Join(cs: seq<Text>): Text {
    if cs == [] then "" else Join(cs[..|cs| - 1]) + "/" + cs[|cs| - 1]
  }

  predicate Comp(c: Text) { c != "" && '/' !in c }

  // No component is empty, contains a slash, or is a dot or two.
  predicate Normal(cs: seq<Text>) { forall c <- cs :: Comp(c) && c != "." && c != ".." }

  // ------------------------------------------------------------- lemmas

  lemma {:induction false} SkipTwice(s: Text)
    ensures SkipSlashes(SkipSlashes(s)) == SkipSlashes(s) && Comps(SkipSlashes(s)) == Comps(s)
    decreases |s|
  {
    if s != "" && s[0] == '/' { SkipTwice(s[1..]); }
  }

  lemma {:induction false} CompsOk(s: Text)
    ensures forall c <- Comps(s) :: Comp(c)
    decreases |s|
  {
    var t := SkipSlashes(s);
    if t != "" { CompsOk(Rest(t)); }
  }

  lemma {:induction false} HeadAppend(a: Text, b: Text)
    requires b == "" || b[0] == '/'
    ensures Head(a + b) == Head(a)
  {
    if a == "" {
      assert a + b == b;
    } else if a[0] != '/' {
      assert (a + b)[1..] == a[1..] + b;
      HeadAppend(a[1..], b);
    }
  }

  lemma {:induction false} SkipAppend(a: Text, b: Text)
    ensures SkipSlashes(a + b) == if SkipSlashes(a) == "" then SkipSlashes(b) else SkipSlashes(a) + b
  {
    if a == "" {
      assert a + b == b;
    } else if a[0] == '/' {
      assert (a + b)[1..] == a[1..] + b;
      SkipAppend(a[1..], b);
    }
  }

  lemma RestAppend(t: Text, b: Text)
    requires t != "" && t[0] != '/' && (b == "" || b[0] == '/')
    ensures Head(t + b) == Head(t) && Rest(t + b) == if Rest(t) == "" then SkipSlashes(b) else Rest(t) + b
  {
    HeadAppend(t, b);
    var u := t[|Head(t)|..];
    assert (t + b)[|Head(t)|..] == u + b;
    SkipAppend(u, b);
  }

  // Text that starts with a slash, put after other text, adds its components.
  lemma {:induction false} CompsAppend(a: Text, b: Text)
    requires b == "" || b[0] == '/'
    ensures Comps(a + b) == Comps(a) + Comps(b)
    decreases |a|
  {
    hide Comps, Rest, SkipSlashes, Head;
    var t := SkipSlashes(a);
    SkipAppend(a, b);
    CompsUnfold(a);
    if t == "" {
      SkipTwice(b);
      SkipTwice(a + b);
    } else {
      CompsUnfold(a + b);
      RestAppend(t, b);
      if Rest(t) == "" {
        EmptyText();
        SkipTwice(b);
      } else {
        CompsAppend(Rest(t), b);
        assert [Head(t)] + Comps(Rest(t)) + Comps(b) == [Head(t)] + (Comps(Rest(t)) + Comps(b));
        assert SkipSlashes(a + b) == t + b && (t + b)[0] == t[0];
        assert Comps(a + b) == [Head(t)] + Comps(Rest(t) + b);
      }
    }
  }

  lemma CompsUnfold(s: Text)
    ensures var t := SkipSlashes(s);
            Comps(s) == if t == "" then [] else [Head(t)] + Comps(Rest(t))
  {
  }

  lemma CompsStep(s: Text)
    requires |s| > 1 && s[0] == '/' && s[1] != '/'
    ensures Comps(s) == [Head(s[1..])] + Comps(s[1 + |Head(s[1..])|..])
  {
    var t := s[1..];
    assert SkipSlashes(s) == t;
    assert t[|Head(t)|..] == s[1 + |Head(t)|..];
    SkipTwice(t[|Head(t)|..]);
  }

  lemma CompsSlash(a: Text, b: Text)
    ensures Comps(a + "/" + b) == Comps(a) + Comps(b)
  {
    assert a + "/" + b == a + ("/" + b);
    CompsAppend(a, "/" + b);
    assert ("/" + b)[1..] == b;
    SkipTwice(b);
    SkipTwice("/" + b);
  }

  lemma {:induction false} HeadComp(c: Text)
    requires '/' !in c
    ensures Head(c) == c
  {
    if c != "" {
      assert c[0] != '/';
      assert '/' !in c[1..];
      HeadComp(c[1..]);
    }
  }

  lemma CompsOne(c: Text)
    requires Comp(c)
    ensures Comps(c) == [c]
  {
    assert c[0] != '/';
    HeadComp(c);
    assert c[|c|..] == "";
  }

  lemma {:induction false} CompsJoin(cs: seq<Text>)
    requires forall c <- cs :: Comp(c)
    ensures Comps(Join(cs)) == cs && (cs == [] || Join(cs)[0] == '/')
  {
    if cs != [] {
      var l := |cs| - 1;
      CompsJoin(cs[..l]);
      CompsSlash(Join(cs[..l]), cs[l]);
      CompsOne(cs[l]);
      assert cs[..l] + [cs[l]] == cs;
    }
  }

  lemma JoinMore(cs: seq<Text>, c: Text)
    ensures Join(cs + [c]) == Join(cs) + "/" + c && |Join(cs + [c])| == |Join(cs)| + 1 + |c|
  {
    assert (cs + [c])[..|cs|] == cs;
  }

  // The text read from the front.
  lemma {:induction false} JoinFront(c: Text, cs: seq<Text>)
    ensures Join([c] + cs) == "/" + c + Join(cs)
  {
    if cs == [] {
      assert [c] + cs == [c];
      assert [c][..0] == [];
      assert "/" + c + "" == "" + "/" + c;
    } else {
      var l := |cs| - 1;
      JoinFront(c, cs[..l]);
      assert ([c] + cs)[..|cs|] == [c] + cs[..l];
      assert "/" + c + Join(cs[..l]) + "/" + cs[l] == "/" + c + (Join(cs[..l]) + "/" + cs[l]);
    }
  }

  // ---------------------------------------------------- path_is_normalized

  /** path_is_normalized, as a recursion over the text. */
  predicate IsNormalized(s: Text)
    decreases |s|
  {
    s == "" || (s[0] == '/' && !(|s| > 1 && s[1] == '/') && IsNormalized(s[1 + |Head(s[1..])|..]))
  }

  /** It accepts exactly the texts of component lists, and those with one slash behind them. */
  lemma {:induction false} IsNormalizedIff(s: Text)
    ensures IsNormalized(s) <==> s == Join(Comps(s)) || s == Join(Comps(s)) + "/"
    decreases |s|
  {
    hide Comps, Head;
    if s == "" {
      EmptyText();
    } else if s[0] != '/' {
      NotSlash(s);
    } else if |s| == 1 {
      assert s == "/";
      OneSlash();
    } else if s[1] == '/' {
      TwoSlashes(s);
    } else {
      IsNormalizedIff(s[1 + |Head(s[1..])|..]);
      assert IsNormalized(s) <==> IsNormalized(s[1 + |Head(s[1..])|..]);
      hide IsNormalized, Join;
      TextStep(s);
    }
  }

  // Past the first component.
  lemma TextStep(s: Text)
    requires |s| > 1 && s[0] == '/' && s[1] != '/'
    ensures var u := s[1 + |Head(s[1..])|..];
            && (s == Join(Comps(s)) <==> u == Join(Comps(u))) && (s == Join(Comps(s)) + "/" <==> u == Join(Comps(u)) + "/")
  {
    hide Comps, Head, Join;
    var h := Head(s[1..]);
    var u := s[1 + |h|..];
    CompsStep(s);
    JoinFront(h, Comps(u));
    assert s[1..] == s[1..][..|h|] + s[1..][|h|..];
    assert s == "/" + h + u;
    SameBehind("/" + h, u, Join(Comps(u)));
  }

  lemma SameBehind(p: Text, a: Text, b: Text)
    ensures p + a == p + b <==> a == b
    ensures p + a == p + b + "/" <==> a == b + "/"
  {
    SamePrefix(p, a, b);
    SamePrefix(p, a, b + "/");
    assert p + b + "/" == p + (b + "/");
  }

  lemma SamePrefix(p: Text, a: Text, b: Text)
    ensures p + a == p + b <==> a == b
  {
    assert (p + a)[|p|..] == a && (p + b)[|p|..] == b;
  }

  lemma EmptyText()
    ensures Comps("") == [] && Join([]) == ""
  {
  }

  lemma OneSlash()
    ensures Comps("/") == [] && Join([]) + "/" == "/" && IsNormalized("/")
  {
    assert "/"[1..] == "";
  }

  lemma NotSlash(s: Text)
    requires s != "" && s[0] != '/'
    ensures s != Join(Comps(s)) && s != Join(Comps(s)) + "/"
  {
    CompsOk(s);
    CompsJoin(Comps(s));
    assert Comps(s) != [];
  }

  lemma TwoSlashes(s: Text)
    requires |s| > 1 && s[0] == '/' && s[1] == '/'
    ensures s != Join(Comps(s)) && s != Join(Comps(s)) + "/"
  {
    CompsOk(s);
    var cs := Comps(s);
    if cs != [] {
      assert cs == [cs[0]] + cs[1..];
      JoinFront(cs[0], cs[1..]);
      assert Join(cs)[1] == cs[0][0];
      assert cs[0][0] in cs[0];
    }
  }

  // The inner loop: to the next slash or the end.
  method PastHead(path: Text, start: nat) returns (p: nat)
    requires start <= |path|
    ensures start <= p <= |path| && p == start + |Head(path[start..])|
  {
    p := start;
    while p < |path| && path[p] != '/'
      invariant start <= p <= |path| && |Head(path[start..])| == p - start + |Head(path[p..])|
    {
      assert path[p..][1..] == path[p + 1..];
      p := p + 1;
    }
  }

  method PathIsNormalized(path: Text) returns (r: bool)
    ensures r <==> IsNormalized(path)
  {
    var p := 0;
    while p < |path|
      invariant 0 <= p <= |path|
      invariant IsNormalized(path) <==> IsNormalized(path[p..])
    {
      if path[p] != '/' {
        return false;
      }
      ghost var s := path[p..];
      p := p + 1;
      if p < |path| && path[p] == '/' {
        return false;
      }
      assert s[1..] == path[p..];
      p := PastHead(path, p);
      assert s[1 + |Head(s[1..])|..] == path[p..];
    }
    r := true;
  }
}
