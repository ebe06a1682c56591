/** Slash-separated paths: cleaning, and containment by whole components. */
module Paths {
  import opened Text

  /** A usable path component. */
  predicate Component(c: string)
  {
    c != "" && '/' !in c
  }

  ghost predicate Components(cs: seq<string>)
  {
    forall i :: 0 <= i < |cs| ==> Component(cs[i])
  }

  /** Drops empty and "." pieces and lets ".." take back one component. */
  function Resolve(pieces: seq<string>, done: seq<string>, rooted: bool): (r: seq<string>)
    requires forall i :: 0 <= i < |pieces| ==> '/' !in pieces[i]
    requires Components(done)
    ensures Components(r)
  {
    if pieces == [] then done
    else
      var c, rest := pieces[0], pieces[1..];
      if c == "" || c == "." then Resolve(rest, done, rooted)
      else if c != ".." then Resolve(rest, done + [c], rooted)
      else if done != [] && done[|done| - 1] != ".." then Resolve(rest, done[..|done| - 1], rooted)
      else if rooted then Resolve(rest, done, rooted)
      else Resolve(rest, done + [c], rooted)
  }

  /** Components written out, each after a slash. */
  function Joined(cs: seq<string>): string
  {
    if cs == [] then "" else Joined(cs[..|cs| - 1]) + "/" + cs[|cs| - 1]
  }

  /** The absolute path of some components. */
  function Absolute(cs: seq<string>): string
  {
    if cs == [] then "/" else Joined(cs)
  }

  predicate Rooted(p: string)
  {
    p != "" && p[0] == '/'
  }

  function ComponentsOf(p: string): (cs: seq<string>)
    ensures Components(cs)
  {
    Resolve(SplitOn(p, '/'), [], Rooted(p))
  }

  /** The shortest path naming the same file lexically. */
  function Clean(p: string): string
  {
    var cs := ComponentsOf(p);
    if Rooted(p) then Absolute(cs)
    else if cs == [] then "."
    else Joined(cs)[1..]
  }

  /** Whether mount point mnt holds path. */
  predicate Contains(mnt: string, path: string)
  {
    var m := Clean(mnt);
    if m == "/" then Rooted(path) else path == m || m + "/" <= path
  }

  // ---------------------------------------------------------------------
  // Containment is the prefix relation on components
  // ---------------------------------------------------------------------

  lemma {:induction false} JoinedCons(c: string, cs: seq<string>)
    ensures Joined([c] + cs) == "/" + c + Joined(cs)
  {
    if cs == [] {
      assert [c] + cs == [c] && [c][..0] == [];
      assert Joined([c]) == Joined([]) + "/" + c;
    } else {
      var n := |cs| - 1;
      JoinedCons(c, cs[..n]);
      assert ([c] + cs)[..|cs|] == [c] + cs[..n];
      assert Joined([c] + cs) == ("/" + c + Joined(cs[..n])) + "/" + cs[n];
      assert Joined(cs) == Joined(cs[..n]) + "/" + cs[n];
    }
  }

  /** Two components followed by a slash agree, and so does what follows. */
  lemma {:induction false} FirstComponent(c: string, x: string, d: string, y: string)
    requires '/' !in c && '/' !in d && Rooted(x) && Rooted(y)
    ensures c + x <= d + y <==> c == d && x <= y
  {
    if c == "" && d == "" {
      assert c + x == x && d + y == y;
    } else if c == "" {
      assert d[0] in d && (c + x)[0] == '/' && (d + y)[0] == d[0];
    } else if d == "" {
      assert c[0] in c && (c + x)[0] == c[0] && (d + y)[0] == '/';
    } else {
      var c1, d1 := c[1..], d[1..];
      FirstComponent(c1, x, d1, y);
      assert c == [c[0]] + c1 && d == [d[0]] + d1;
      assert c + x == [c[0]] + (c1 + x) && d + y == [d[0]] + (d1 + y);
      ConsPrefix(c[0], c1 + x, d[0], d1 + y);
    }
  }

  lemma {:induction false} ConsPrefix<T>(a: T, x: seq<T>, b: T, y: seq<T>)
    ensures [a] + x <= [b] + y <==> a == b && x <= y
  {
    if [a] + x <= [b] + y {
      assert ([a] + x)[0] == ([b] + y)[0];
      assert x == ([a] + x)[1..] && y == ([b] + y)[1..];
      assert ([b] + y)[..1 + |x|] == [a] + x;
      assert y[..|x|] == ([b] + y)[1..1 + |x|];
    }
  }

  lemma {:induction false} PrefixOfComponents(m: seq<string>, p: seq<string>)
    requires Components(m) && Components(p)
    ensures Joined(m) + "/" <= Joined(p) + "/" <==> m <= p
    decreases |m|
  {
    StartsWithSlash(p);
    if m != [] {
      hide Joined;
      Unfold(m);
      if p == [] {
        assert Joined(p) == "" by { JoinedNone(); }
        assert |Joined(m) + "/"| > 1;
      } else {
        Unfold(p);
        PrefixOfComponents(m[1..], p[1..]);
        StepIn(m[0], Joined(m[1..]) + "/", p[0], Joined(p[1..]) + "/");
        ConsPrefix(m[0], m[1..], p[0], p[1..]);
        assert m == [m[0]] + m[1..] && p == [p[0]] + p[1..];
      }
    }
  }

  lemma {:induction false} JoinedNone()
    ensures Joined([]) == ""
  {}

  lemma {:induction false} Unfold(cs: seq<string>)
    requires cs != [] && Components(cs)
    ensures Joined(cs) + "/" == "/" + (cs[0] + (Joined(cs[1..]) + "/"))
    ensures Rooted(Joined(cs[1..]) + "/") && '/' !in cs[0] && Components(cs[1..])
  {
    assert cs == [cs[0]] + cs[1..];
    JoinedCons(cs[0], cs[1..]);
    StartsWithSlash(cs[1..]);
    assert Component(cs[0]);
    assert forall i :: 0 <= i < |cs[1..]| ==> cs[1..][i] == cs[i + 1];
  }

  lemma {:induction false} StartsWithSlash(cs: seq<string>)
    ensures Rooted(Joined(cs) + "/") && (cs != [] ==> Rooted(Joined(cs)))
  {
    if cs != [] {
      JoinedCons(cs[0], cs[1..]);
      assert [cs[0]] + cs[1..] == cs;
    }
  }

  lemma {:induction false} StepIn(c: string, x: string, d: string, y: string)
    requires '/' !in c && '/' !in d && Rooted(x) && Rooted(y)
    ensures "/" + (c + x) <= "/" + (d + y) <==> c == d && x <= y
  {
    FirstComponent(c, x, d, y);
    ConsPrefix('/', c + x, '/', d + y);
  }

  lemma {:induction false} SlashAfter(a: string, b: string)
    ensures a + "/" <= b + "/" <==> b == a || a + "/" <= b
  {
    if a + "/" <= b + "/" && |a| != |b| {
      assert b == (b + "/")[..|b|];
      assert (b + "/")[..|a| + 1] == a + "/";
      assert b[..|a| + 1] == (b + "/")[..|a| + 1];
    }
    if a + "/" <= b {
      assert b[..|a| + 1] == a + "/";
      assert (b + "/")[..|a| + 1] == b[..|a| + 1];
    }
  }

  /** A cleaned mount point holds a cleaned path exactly when its components
      are the first components of the path. */
  lemma {:induction false} ContainsIsPrefix(mnt: string, p: seq<string>)
    requires Rooted(mnt) && Components(p)
    ensures Contains(mnt, Absolute(p)) <==> ComponentsOf(mnt) <= p
  {
    var m := ComponentsOf(mnt);
    StartsWithSlash(m);
    StartsWithSlash(p);
    LongerWithMore(m, 0, |m|);
    assert m[..|m|] == m && m[..0] == [];
    if m != [] {
      PrefixOfComponents(m, p);
      if p != [] {
        SlashAfter(Joined(m), Joined(p));
      } else {
        assert !(m <= p);
      }
    }
  }

  /** Deeper ancestors have longer names. */
  lemma {:induction false} LongerWithMore(p: seq<string>, i: nat, j: nat)
    requires Components(p) && i <= j <= |p|
    ensures i < j ==> |Absolute(p[..i])| < |Absolute(p[..j])|
    decreases j
  {
    if i < j {
      LongerWithMore(p, i, j - 1);
      assert p[..j][..j - 1] == p[..j - 1];
      assert Component(p[j - 1]);
      assert Joined(p[..j]) == Joined(p[..j - 1]) + "/" + p[j - 1];
    }
  }

  // ---------------------------------------------------------------------
  // Cleaning, one component at a time
  // ---------------------------------------------------------------------

  lemma {:induction false} SplitSnoc(p: string, c: string)
    requires '/' !in c
    ensures SplitOn(p + "/" + c, '/') == SplitOn(p, '/') + [c]
  {
    if p == "" {
      OnePiece(c);
      SplitOffFirst("", '/', c);
      assert "" + ['/'] + c == p + "/" + c;
    } else {
      assert (p + "/" + c)[1..] == p[1..] + "/" + c;
      SplitSnoc(p[1..], c);
    }
  }

  lemma {:induction false} OnePiece(c: string)
    requires '/' !in c
    ensures SplitOn(c, '/') == [c]
  {
    if c != "" {
      OnePiece(c[1..]);
      assert c == [c[0]] + c[1..];
    }
  }

  /** What one more piece does to the components so far. */
  function Into(done: seq<string>, c: string, rooted: bool): seq<string>
  {
    if c == "" || c == "." then done
    else if c != ".." then done + [c]
    else if done != [] && done[|done| - 1] != ".." then done[..|done| - 1]
    else if rooted then done
    else done + [c]
  }

  lemma {:induction false} ResolveSnoc(pieces: seq<string>, c: string, done: seq<string>, rooted: bool)
    requires '/' !in c && (forall i :: 0 <= i < |pieces| ==> '/' !in pieces[i]) && Components(done)
    ensures Resolve(pieces + [c], done, rooted) == Into(Resolve(pieces, done, rooted), c, rooted)
    decreases |pieces|
  {
    if pieces == [] {
      assert [] + [c] == [c] && [c][1..] == [];
    } else {
      assert (pieces + [c])[1..] == pieces[1..] + [c];
      var next := Into(done, pieces[0], rooted);
      ResolveSnoc(pieces[1..], c, next, rooted);
    }
  }

  ghost predicate NoDots(cs: seq<string>)
  {
    forall i :: 0 <= i < |cs| ==> cs[i] != "." && cs[i] != ".."
  }

  lemma {:induction false} RootedHasNoDots(pieces: seq<string>, done: seq<string>)
    requires (forall i :: 0 <= i < |pieces| ==> '/' !in pieces[i]) && Components(done) && NoDots(done)
    ensures NoDots(Resolve(pieces, done, true))
    decreases |pieces|
  {
    if pieces != [] {
      RootedHasNoDots(pieces[1..], Into(done, pieces[0], true));
    }
  }

  /** Cleaning an absolute path follows it one component at a time: "" and "."
      stay, ".." goes to the parent, at the root nowhere, and any other name goes
      down; with "/" itself that says what every path is cleaned to. */
  lemma {:induction false} CleaningFollowsThePath(p: string, c: string)
    requires Rooted(p) && '/' !in c
    ensures var cs := ComponentsOf(p);
            && NoDots(cs)
            && ComponentsOf(p + "/" + c) ==
               (if c == "" || c == "." then cs
                else if c == ".." then (if cs == [] then [] else cs[..|cs| - 1])
                else cs + [c])
    ensures ComponentsOf("/") == [] && Clean(p) == Absolute(ComponentsOf(p))
  {
    SplitSnoc(p, c);
    ResolveSnoc(SplitOn(p, '/'), c, [], true);
    RootedHasNoDots(SplitOn(p, '/'), []);
    assert SplitOn("/", '/') == ["", ""] by { assert "/"[1..] == ""; }
    RootIsEmpty();
  }

  lemma {:induction false} RootIsEmpty()
    ensures Resolve(["", ""], [], true) == []
  {
    assert ["", ""][1..] == [""] && [""][1..] == [];
  }

  lemma {:induction false} ComponentsOfAbsolute(cs: seq<string>)
    requires Components(cs) && NoDots(cs)
    ensures ComponentsOf(Absolute(cs)) == cs && Rooted(Absolute(cs))
  {
    if cs == [] {
      CleaningFollowsThePath("/", "");
    } else {
      var n := |cs| - 1;
      var init, c := cs[..n], cs[n];
      assert Component(c) && c != "." && c != "..";
      StartsWithSlash(cs);
      ComponentsOfAbsolute(init);
      if n == 0 {
        assert cs == [c] && Joined(cs) == "" + "/" + c;
        SplitSnoc("", c);
        assert SplitOn("", '/') + [c] == ["", c] && ["", c][1..] == [c] && [c][1..] == [];
        ResolveSnoc([""], c, [], true);
        assert [""][1..] == [] && [""] + [c] == ["", c] && [] + [c] == [c];
      } else {
        CleaningFollowsThePath(Joined(init), c);
        assert init + [c] == cs;
      }
    }
  }

  /** Cleaning is idempotent. */
  lemma {:induction false} CleanIsIdempotent(p: string)
    requires Rooted(p)
    ensures Clean(Clean(p)) == Clean(p) && ComponentsOf(Clean(p)) == ComponentsOf(p)
  {
    CleaningFollowsThePath(p, "");
    ComponentsOfAbsolute(ComponentsOf(p));
  }
}
