/**
 The mount table: which filesystem a path lives on, which mount points a
 pattern matches, and which filesystems are the server's own. The library's
 glob matching is a parameter of the functions that use it.
 */
module Mounts {
  import opened Text
  import opened Paths

  datatype Entry = Entry(device: string, path: string, fsType: string)

  const NO_ENTRY := Entry("", "", "")

  // ---------------------------------------------------------------------
  // Finding the filesystem of a path
  // ---------------------------------------------------------------------

  /** One pass over the table, keeping the longest containing mount point and,
      among equally long ones, the latest. */
  function OnePass(entries: seq<Entry>, path: string): Option<Entry>
  {
    if entries == [] then None
    else
      var best, e := OnePass(entries[..|entries| - 1], path), entries[|entries| - 1];
      if Contains(e.path, path) && (best.None? || |e.path| >= |best.value.path|) then Some(e) else best
  }

  /** The loop that computes it. */
  method Find(entries: seq<Entry>, path: string) returns (best: Entry, found: bool)
    ensures OnePass(entries, Clean(path)) == if found then Some(best) else None
    ensures !found ==> best == NO_ENTRY
  {
    var cleaned := Clean(path);
    best, found := NO_ENTRY, false;
    for i := 0 to |entries|
      invariant OnePass(entries[..i], cleaned) == if found then Some(best) else None
      invariant !found ==> best == NO_ENTRY
    {
      assert entries[..i + 1][..i] == entries[..i];
      var e := entries[i];
      if !Contains(e.path, cleaned) {
        continue;
      }
      if !found || |e.path| >= |best.path| {
        best, found := e, true;
      }
    }
    assert entries[..|entries|] == entries;
  }

  /** The last table entry mounted exactly at a path. */
  function LastAt(entries: seq<Entry>, path: string): Option<Entry>
  {
    if entries == [] then None
    else if entries[|entries| - 1].path == path then Some(entries[|entries| - 1])
    else LastAt(entries[..|entries| - 1], path)
  }

  /** The simple specification: walk up from the path until an ancestor is a
      mount point, and take what was mounted there last. */
  function WalkUp(entries: seq<Entry>, p: seq<string>, n: nat): Option<Entry>
    requires n <= |p|
  {
    var here := LastAt(entries, Absolute(p[..n]));
    if here.Some? then here
    else if n == 0 then None
    else WalkUp(entries, p, n - 1)
  }

  /** The kernel prints mount points absolute and clean. */
  ghost predicate CleanEntry(e: Entry)
  {
    Rooted(e.path) && Clean(e.path) == e.path
  }

  ghost predicate CleanTable(entries: seq<Entry>)
  {
    forall i :: 0 <= i < |entries| ==> CleanEntry(entries[i])
  }

  lemma {:induction false} LastAtSnoc(entries: seq<Entry>, e: Entry, path: string)
    ensures LastAt(entries + [e], path) == if e.path == path then Some(e) else LastAt(entries, path)
  {}

  lemma {:induction false} LastAtPath(entries: seq<Entry>, path: string)
    ensures LastAt(entries, path).Some? ==> LastAt(entries, path).value.path == path
    ensures LastAt(entries, path).Some? <==> MountedAt(entries, path)
  {
    if entries != [] {
      var n := |entries| - 1;
      LastAtPath(entries[..n], path);
      if entries[n].path != path && LastAt(entries[..n], path).Some? {
        var i :| 0 <= i < |entries[..n]| && entries[..n][i].path == path;
        assert entries[i].path == path;
      }
    }
  }

  /** What the walk finds is no deeper than where it starts. */
  lemma {:induction false} WalkUpDepth(entries: seq<Entry>, p: seq<string>, n: nat)
    requires n <= |p| && Components(p)
    ensures var w := WalkUp(entries, p, n);
            w.Some? ==> |w.value.path| <= |Absolute(p[..n])|
  {
    LastAtPath(entries, Absolute(p[..n]));
    if n > 0 {
      WalkUpDepth(entries, p, n - 1);
      LongerWithMore(p, n - 1, n);
    }
  }

  /** Mounting on an ancestor replaces what the walk finds unless that is deeper. */
  lemma {:induction false} WalkUpAfterMount(entries: seq<Entry>, e: Entry, p: seq<string>, k: nat, n: nat)
    requires Components(p) && k <= n <= |p| && e.path == Absolute(p[..k])
    ensures var found := WalkUp(entries, p, n);
            WalkUp(entries + [e], p, n) ==
            if found.Some? && |found.value.path| > |e.path| then found else Some(e)
  {
    hide LastAt, Absolute;
    var here := Absolute(p[..n]);
    LastAtSnoc(entries, e, here);
    LastAtPath(entries, here);
    WalkUpDepth(entries, p, n);
    if k < n {
      LongerWithMore(p, k, n);
      if LastAt(entries, here).None? {
        WalkUpAfterMount(entries, e, p, k, n - 1);
      }
    }
  }

  /** Mounting anywhere else does not matter. */
  lemma {:induction false} WalkUpElsewhere(entries: seq<Entry>, e: Entry, p: seq<string>, n: nat)
    requires n <= |p| && forall k :: 0 <= k <= n ==> e.path != Absolute(p[..k])
    ensures WalkUp(entries + [e], p, n) == WalkUp(entries, p, n)
  {
    LastAtSnoc(entries, e, Absolute(p[..n]));
    if n > 0 {
      WalkUpElsewhere(entries, e, p, n - 1);
    }
  }

  lemma {:induction false} WalkUpEmpty(p: seq<string>, n: nat)
    requires n <= |p|
    ensures WalkUp([], p, n) == None
  {
    if n > 0 {
      WalkUpEmpty(p, n - 1);
    }
  }

  lemma {:induction false} OneMoreMount(entries: seq<Entry>, e: Entry, p: seq<string>)
    requires CleanEntry(e) && Components(p)
    requires OnePass(entries, Absolute(p)) == WalkUp(entries, p, |p|)
    ensures OnePass(entries + [e], Absolute(p)) == WalkUp(entries + [e], p, |p|)
  {
    hide WalkUp, OnePass, Contains, ComponentsOf, Absolute;
    MountSeen(e, p);
    if Contains(e.path, Absolute(p)) {
      WalkUpAfterMount(entries, e, p, |ComponentsOf(e.path)|, |p|);
    } else {
      WalkUpElsewhere(entries, e, p, |p|);
    }
    OnePassSnoc(entries, e, Absolute(p));
  }

  lemma {:induction false} OnePassIsWalkUp(entries: seq<Entry>, p: seq<string>)
    requires CleanTable(entries) && Components(p)
    ensures OnePass(entries, Absolute(p)) == WalkUp(entries, p, |p|)
  {
    hide CleanEntry, Absolute, LastAt;
    if entries == [] {
      WalkUpEmpty(p, |p|);
    } else {
      hide WalkUp, OnePass;
      var n := |entries| - 1;
      OnePassIsWalkUp(entries[..n], p);
      OneMoreMount(entries[..n], entries[n], p);
      assert entries == entries[..n] + [entries[n]];
    }
  }

  lemma {:induction false} OnePassSnoc(entries: seq<Entry>, e: Entry, path: string)
    ensures var best := OnePass(entries, path);
            OnePass(entries + [e], path) ==
            if Contains(e.path, path) && (best.None? || |e.path| >= |best.value.path|) then Some(e) else best
  {
    hide Contains;
    assert (entries + [e])[..|entries|] == entries;
  }

  /** A clean entry contains a path exactly when it is mounted on an ancestor. */
  lemma {:induction false} MountSeen(e: Entry, p: seq<string>)
    requires CleanEntry(e) && Components(p)
    ensures var m := ComponentsOf(e.path);
            if Contains(e.path, Absolute(p)) then |m| <= |p| && e.path == Absolute(p[..|m|])
            else forall k :: 0 <= k <= |p| ==> e.path != Absolute(p[..k])
  {
    var m := ComponentsOf(e.path);
    ContainsIsPrefix(e.path, p);
    if Contains(e.path, Absolute(p)) {
      assert p[..|m|] == m;
    } else {
      forall k | 0 <= k <= |p|
        ensures e.path != Absolute(p[..k])
      {
        AbsoluteIsInjective(m, p[..k]);
      }
    }
  }

  lemma {:induction false} AbsoluteIsInjective(a: seq<string>, b: seq<string>)
    requires Components(a) && Components(b)
    ensures Absolute(a) == Absolute(b) ==> a == b
  {
    PrefixOfComponents(a, b);
    PrefixOfComponents(b, a);
    LongerWithMore(a, 0, |a|);
    LongerWithMore(b, 0, |b|);
    assert a[..|a|] == a && b[..|b|] == b && a[..0] == b[..0] == [];
  }

  ghost predicate MountedAt(entries: seq<Entry>, path: string)
  {
    exists i :: 0 <= i < |entries| && entries[i].path == path
  }

  lemma {:induction false} WalkUpFinds(entries: seq<Entry>, p: seq<string>, n: nat)
    requires n <= |p|
    ensures WalkUp(entries, p, n).None? <==> forall k :: 0 <= k <= n ==> !MountedAt(entries, Absolute(p[..k]))
  {
    hide LastAt, Absolute;
    LastAtPath(entries, Absolute(p[..n]));
    if n > 0 {
      WalkUpFinds(entries, p, n - 1);
    }
  }

  /** For every clean table and every absolute path, the one-pass lookup finds
      the last entry at the nearest ancestor that is a mount point, and reports
      not found exactly when no ancestor is one. */
  lemma {:induction false} FindIsNearestAncestor(entries: seq<Entry>, path: string)
    requires CleanTable(entries) && Rooted(path)
    ensures var p := ComponentsOf(path);
            && OnePass(entries, Clean(path)) == WalkUp(entries, p, |p|)
            && (OnePass(entries, Clean(path)).None? <==>
                  forall k :: 0 <= k <= |p| ==> !MountedAt(entries, Absolute(p[..k])))
  {
    OnePassIsWalkUp(entries, ComponentsOf(path));
    WalkUpFinds(entries, ComponentsOf(path), |ComponentsOf(path)|);
  }

  // ---------------------------------------------------------------------
  // Mount points matching a pattern
  // ---------------------------------------------------------------------

  /** A pattern and the library's glob matching. */
  datatype Glob = Glob(pattern: string, matches: (string, string) -> bool) {
    predicate Hits(path: string)
    {
      matches(Clean(pattern), path)
    }
  }

  /** The matching mount points by cleaned path, the later entry winning. */
  function ByPath(entries: seq<Entry>, glob: Glob): (m: map<string, Entry>)
    ensures KeyedByPath(m)
  {
    if entries == [] then map[]
    else
      var before, e := ByPath(entries[..|entries| - 1], glob), entries[|entries| - 1];
      var path := Clean(e.path);
      if glob.Hits(path) then before[path := e.(path := path)] else before
  }

  predicate PathLess(a: Entry, b: Entry)
  {
    Less(a.path, b.path)
  }

  lemma {:induction false} PathLessIsStrict()
    ensures StrictOrder(PathLess)
  {
    forall x: Entry
      ensures !PathLess(x, x)
    {
      LessIsTotal(x.path, x.path);
    }
    forall x: Entry, y: Entry, z: Entry | PathLess(x, y) && PathLess(y, z)
      ensures PathLess(x, z)
    {
      LessIsTransitive(x.path, y.path, z.path);
    }
  }

  /** Sorted by path, each path once, and exactly the mounts in the map other
      than bare autofs ones. */
  ghost predicate IsMatchList(r: seq<Entry>, m: map<string, Entry>)
  {
    && StrictlySorted(r, PathLess)
    && forall e :: e in r <==> e.path in m && m[e.path] == e && e.fsType != "autofs"
  }

  /** The list is determined, so the order the map is walked in does not show. */
  lemma {:induction false} MatchListIsDetermined(a: seq<Entry>, b: seq<Entry>, m: map<string, Entry>)
    requires IsMatchList(a, m) && IsMatchList(b, m)
    ensures a == b
  {
    PathLessIsStrict();
    SortedIsDetermined(a, b, PathLess);
  }

  /** Such a list exists for every map keyed by path. */
  lemma {:induction false} MatchListExists(m: map<string, Entry>) returns (r: seq<Entry>)
    requires KeyedByPath(m)
    ensures IsMatchList(r, m)
    decreases |m|
  {
    if m == map[] {
      r := [];
    } else {
      var p :| p in m;
      var rest := m - {p};
      assert rest.Keys == m.Keys - {p};
      r := MatchListExists(rest);
      if m[p].fsType != "autofs" {
        r := InsertSorted(r, m[p]);
      }
    }
  }

  /** The list, as a function of the map. */
  ghost function MatchList(m: map<string, Entry>): (r: seq<Entry>)
    requires KeyedByPath(m)
    ensures IsMatchList(r, m)
  {
    assert exists r :: IsMatchList(r, m) by {
      var r := MatchListExists(m);
    }
    var r :| IsMatchList(r, m);
    r
  }

  /** Where a new path goes in a sorted list, searching from the end. */
  function Place(s: seq<Entry>, e: Entry): (k: nat)
    ensures k <= |s| && (k > 0 ==> !Less(e.path, s[k - 1].path))
    ensures forall i :: k <= i < |s| ==> PathLess(e, s[i])
  {
    var n := |s|;
    if n > 0 && Less(e.path, s[n - 1].path) then Place(s[..n - 1], e) else n
  }

  function InsertSorted(s: seq<Entry>, e: Entry): (r: seq<Entry>)
    requires StrictlySorted(s, PathLess) && forall x :: x in s ==> x.path != e.path
    ensures StrictlySorted(r, PathLess)
    ensures forall x :: x in r <==> x in s || x == e
  {
    var k := Place(s, e);
    Inserted(s, k, e);
    s[..k] + [e] + s[k..]
  }

  lemma {:induction false} Inserted(s: seq<Entry>, k: nat, e: Entry)
    requires k <= |s| && StrictlySorted(s, PathLess) && forall x :: x in s ==> x.path != e.path
    requires k > 0 ==> !Less(e.path, s[k - 1].path)
    requires forall i :: k <= i < |s| ==> PathLess(e, s[i])
    ensures var r := s[..k] + [e] + s[k..];
            StrictlySorted(r, PathLess) && forall x :: x in r <==> x in s || x == e
  {
    hide Less, PathLess, StrictlySorted;
    InsertElements(s, k, e);
    if k > 0 {
      assert s[k - 1] in s;
      LessIsTotal(e.path, s[k - 1].path);
    }
    InsertKeepsOrder(s, k, e);
  }

  lemma {:induction false} InsertElements<T>(s: seq<T>, k: nat, e: T)
    requires k <= |s|
    ensures forall x :: x in s[..k] + [e] + s[k..] <==> x in s || x == e
  {}

  lemma {:induction false} InsertKeepsOrder(s: seq<Entry>, k: nat, e: Entry)
    requires k <= |s| && StrictlySorted(s, PathLess)
    requires k > 0 ==> Less(s[k - 1].path, e.path)
    requires forall i :: k <= i < |s| ==> PathLess(e, s[i])
    ensures StrictlySorted(s[..k] + [e] + s[k..], PathLess)
  {
    hide Less;
    forall i | 0 <= i < k
      ensures PathLess(s[i], e)
    {
      if i < k - 1 {
        LessIsTransitive(s[i].path, s[k - 1].path, e.path);
      }
    }
    var r := s[..k] + [e] + s[k..];
    assert forall i :: 0 <= i < |r| ==> r[i] == if i < k then s[i] else if i == k then e else s[i - 1];
  }

  /** The mount points matching a pattern. Picking the keys in any order stands
      for Go's map iteration. */
  method Match(entries: seq<Entry>, glob: Glob) returns (r: seq<Entry>)
    ensures r == MatchList(ByPath(entries, glob))
  {
    var byPath: map<string, Entry> := map[];
    for i := 0 to |entries|
      invariant byPath == ByPath(entries[..i], glob)
    {
      assert entries[..i + 1][..i] == entries[..i];
      var path := Clean(entries[i].path);
      if glob.Hits(path) {
        byPath := byPath[path := entries[i].(path := path)];
      }
    }
    assert entries[..|entries|] == entries;
    r := Collect(byPath);
    MatchListIsDetermined(r, MatchList(byPath), byPath);
  }

  ghost predicate KeyedByPath(m: map<string, Entry>)
  {
    forall p :: p in m ==> m[p].path == p
  }

  /** Collects the map's entries in any order, sorted. */
  method Collect(byPath: map<string, Entry>) returns (r: seq<Entry>)
    requires KeyedByPath(byPath)
    ensures IsMatchList(r, byPath)
  {
    r := [];
    var left := byPath.Keys;
    while left != {}
      invariant left <= byPath.Keys
      invariant StrictlySorted(r, PathLess)
      invariant forall e :: e in r <==> e.path in byPath && e.path !in left && byPath[e.path] == e && e.fsType != "autofs"
      decreases |left|
    {
      var p :| p in left;
      left := left - {p};
      if byPath[p].fsType != "autofs" {
        r := InsertSorted(r, byPath[p]);
      }
    }
  }

  /** In a clean table the map holds, for each matching mount point, the entry
      mounted there last. */
  lemma {:induction false} ByPathIsLastAt(entries: seq<Entry>, glob: Glob, path: string)
    requires CleanTable(entries)
    ensures LastIn(entries, glob, path)
  {
    hide CleanEntry, LastIn;
    if entries == [] {
      NothingMounted(glob, path);
    } else {
      var n := |entries| - 1;
      ByPathIsLastAt(entries[..n], glob, path);
      LastInStep(entries[..n], entries[n], glob, path);
      assert entries == entries[..n] + [entries[n]];
    }
  }

  lemma {:induction false} NothingMounted(glob: Glob, path: string)
    ensures LastIn([], glob, path)
  {}

  /** The map holds the last entry mounted at path, if it matches at all. */
  ghost predicate LastIn(entries: seq<Entry>, glob: Glob, path: string)
  {
    var m, last := ByPath(entries, glob), LastAt(entries, path);
    if glob.Hits(path) && last.Some? then path in m && m[path] == last.value else path !in m
  }

  lemma {:induction false} ByPathSnoc(entries: seq<Entry>, e: Entry, glob: Glob)
    requires Clean(e.path) == e.path
    ensures var before := ByPath(entries, glob);
            ByPath(entries + [e], glob) == if glob.Hits(e.path) then before[e.path := e] else before
  {
    hide Clean;
    assert (entries + [e])[..|entries|] == entries;
  }

  lemma {:induction false} LastInStep(entries: seq<Entry>, e: Entry, glob: Glob, path: string)
    requires CleanEntry(e) && LastIn(entries, glob, path)
    ensures LastIn(entries + [e], glob, path)
  {
    hide Clean, Rooted, ByPath, LastAt;
    LastAtSnoc(entries, e, path);
    ByPathSnoc(entries, e, glob);
  }

  /** Looking up a match's own path finds that very entry, so the device and
      type published under a wildcard are those of the mount that matched. */
  lemma {:induction false} MatchFindsItself(entries: seq<Entry>, glob: Glob, i: nat)
    requires CleanTable(entries) && i < |MatchList(ByPath(entries, glob))|
    ensures var e := MatchList(ByPath(entries, glob))[i];
            OnePass(entries, Clean(e.path)) == Some(e) && glob.Hits(e.path) && e in entries
  {
    var r := MatchList(ByPath(entries, glob));
    hide MatchList;
    var e := r[i];
    assert e in r;
    ByPathIsLastAt(entries, glob, e.path);
    LastAtPath(entries, e.path);
    LastIsThere(entries, e.path);
    var j :| 0 <= j < |entries| && entries[j].path == e.path;
    assert CleanEntry(entries[j]);
    FindIsNearestAncestor(entries, e.path);
    var p := ComponentsOf(e.path);
    assert p[..|p|] == p;
  }

  /** The matches are in ascending order of their paths. */
  lemma {:induction false} MatchesAscend(entries: seq<Entry>, glob: Glob, i: nat, j: nat)
    requires i < j < |MatchList(ByPath(entries, glob))|
    ensures var r := MatchList(ByPath(entries, glob)); Less(r[i].path, r[j].path)
  {
    assert PathLess(MatchList(ByPath(entries, glob))[i], MatchList(ByPath(entries, glob))[j]);
  }

  lemma {:induction false} LastIsThere(entries: seq<Entry>, path: string)
    ensures LastAt(entries, path).Some? ==> LastAt(entries, path).value in entries
  {
    if entries != [] {
      LastIsThere(entries[..|entries| - 1], path);
    }
  }
}
