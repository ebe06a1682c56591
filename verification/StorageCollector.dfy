/**
 The storage event: one entry per configured path or matched mount point, and
 the server's total. What each statfs came to is a parameter, indexed by the
 order of the calls; module Statfs says how it comes about.
 */
module StorageCollector {
  import opened Text
  import opened Paths
  import opened Mounts
  import opened LocalDisks
  import Disk

  datatype Reply = TimedOut | StatFailed | StatOk(sample: Disk.Sample)

  datatype Problem = Timeout | Failure | NoMatch | NoMountTable

  datatype MountUsage = MountUsage(
    path: string, pattern: string, device: string, fsType: string,
    problem: Option<Problem>, usage: Option<Disk.Usage>)

  // ---------------------------------------------------------------------
  // Configured mounts
  // ---------------------------------------------------------------------

  /** What a path is published as. A timeout keeps the device, naming what is
      down; any other failure drops it. */
  function UsageOf(table: seq<Entry>, path: string, pattern: string, reply: Reply): (u: MountUsage)
    ensures u.path == path && u.pattern == pattern
  {
    var e := match OnePass(table, Clean(path)) case Some(e) => e case None => NO_ENTRY;
    match reply
    case TimedOut => MountUsage(path, pattern, e.device, e.fsType, Some(Timeout), None)
    case StatFailed => MountUsage(path, pattern, "", "", Some(Failure), None)
    case StatOk(sample) => MountUsage(path, pattern, e.device, e.fsType, None, Some(Disk.ToBytes(sample)))
  }

  /** What the configuration asks for, in order: a path to stat, or a pattern
      with nothing to show. */
  datatype Item = Statted(path: string, pattern: string) | Empty(path: string, problem: Problem)

  ghost function Matches(table: seq<Entry>, pattern: string, matches: (string, string) -> bool): seq<Entry>
  {
    MatchList(ByPath(table, Glob(pattern, matches)))
  }

  /** The items of one configured path. A table without entries reads as no
      table at all: the parser returns nil for both. */
  ghost function ItemsOf(path: string, table: seq<Entry>, matches: (string, string) -> bool): seq<Item>
  {
    if !HasWildcard(path) then [Statted(path, "")]
    else if table == [] then [Empty(path, NoMountTable)]
    else
      var found := Matches(table, path, matches);
      if found == [] then [Empty(path, NoMatch)]
      else MatchItems(path, found)
  }

  ghost function Items(config: seq<string>, table: seq<Entry>, matches: (string, string) -> bool): seq<Item>
  {
    if config == [] then []
    else Items(config[..|config| - 1], table, matches) + ItemsOf(config[|config| - 1], table, matches)
  }

  /** How many statfs calls the items take. */
  function Calls(items: seq<Item>): nat
  {
    if items == [] then 0 else Calls(items[..|items| - 1]) + if items[|items| - 1].Statted? then 1 else 0
  }

  /** Each statted item has its own call, numbered in order: as many come before
      it as there are statted items before it. */
  lemma {:induction false} CallsAreNumberedInOrder(items: seq<Item>, n: nat)
    requires n <= |items|
    ensures Calls(items[..n]) == |set k | 0 <= k < n && items[k].Statted?|
    ensures forall i :: 0 <= i < n && items[i].Statted? ==> Calls(items[..i]) < Calls(items[..n])
  {
    if n > 0 {
      CallsAreNumberedInOrder(items, n - 1);
      assert items[..n][..n - 1] == items[..n - 1];
      var before := set k | 0 <= k < n - 1 && items[k].Statted?;
      var all := set k | 0 <= k < n && items[k].Statted?;
      assert all == if items[n - 1].Statted? then before + {n - 1} else before;
    }
  }

  function ItemUsage(table: seq<Entry>, item: Item, reply: Reply): (u: MountUsage)
    ensures u.path == item.path
  {
    match item
    case Statted(path, pattern) => UsageOf(table, path, pattern, reply)
    case Empty(path, problem) => MountUsage(path, path, "", "", Some(problem), None)
  }

  /** The published list: the usage of each item whose path was not listed before. */
  function Listed(table: seq<Entry>, items: seq<Item>, stat: nat -> Reply): seq<MountUsage>
  {
    if items == [] then []
    else
      var init, item := items[..|items| - 1], items[|items| - 1];
      var before := Listed(table, init, stat);
      if item.path in PathsOf(init) then before
      else before + [ItemUsage(table, item, stat(Calls(init)))]
  }

  function PathsOf(items: seq<Item>): set<string>
  {
    set i | 0 <= i < |items| :: items[i].path
  }

  /** The item at position k is the first with its path. */
  predicate FirstWithPath(items: seq<Item>, k: nat)
  {
    k < |items| && forall j :: 0 <= j < k ==> items[j].path != items[k].path
  }

  /** Where the published entries come from: strictly increasing positions, the
      first occurrence of every path, each read by its own call. */
  ghost predicate FirstOccurrences(table: seq<Entry>, items: seq<Item>, stat: nat -> Reply, us: seq<MountUsage>, at: seq<nat>)
  {
    && (forall i, j :: 0 <= i < j < |at| ==> at[i] < at[j])
    && (forall k: nat :: k in at <==> FirstWithPath(items, k))
    && ReadAt(table, items, stat, us, at)
  }

  ghost predicate ReadAt(table: seq<Entry>, items: seq<Item>, stat: nat -> Reply, us: seq<MountUsage>, at: seq<nat>)
  {
    && |us| == |at|
    && forall i :: 0 <= i < |at| ==>
         at[i] < |items| && us[i] == ItemUsage(table, items[at[i]], stat(Calls(items[..at[i]])))
  }

  lemma {:induction false} ReadAtLonger(table: seq<Entry>, items: seq<Item>, item: Item, stat: nat -> Reply,
                                        us: seq<MountUsage>, at: seq<nat>)
    requires ReadAt(table, items, stat, us, at)
    ensures ReadAt(table, items + [item], stat, us, at)
    ensures ReadAt(table, items + [item], stat, us + [ItemUsage(table, item, stat(Calls(items)))], at + [|items|])
  {
    hide ItemUsage, Calls;
    var all := items + [item];
    assert all[..|items|] == items;
    forall i | 0 <= i < |at|
      ensures all[..at[i]] == items[..at[i]] && all[at[i]] == items[at[i]]
    {}
  }

  ghost predicate Lists(us: seq<MountUsage>, path: string)
  {
    exists i :: 0 <= i < |us| && us[i].path == path
  }

  /** Each path string is listed once, in order of first occurrence. */
  lemma {:induction false} ListedOnceInOrder(table: seq<Entry>, items: seq<Item>, stat: nat -> Reply) returns (at: seq<nat>)
    ensures FirstOccurrences(table, items, stat, Listed(table, items, stat), at)
    ensures var us := Listed(table, items, stat);
            && (forall i, j :: 0 <= i < j < |us| ==> us[i].path != us[j].path)
            && forall k :: 0 <= k < |items| ==> Lists(us, items[k].path)
  {
    hide ItemUsage, Calls, Listed, FirstWithPath;
    at := Positions(table, items, stat);
    var us := Listed(table, items, stat);
    forall i, j | 0 <= i < j < |us|
      ensures us[i].path != us[j].path
    {
      assert at[j] in at && us[i].path == items[at[i]].path && us[j].path == items[at[j]].path;
      NoneBefore(items, at[j], at[i]);
    }
    forall k | 0 <= k < |items|
      ensures Lists(us, items[k].path)
    {
      var f := FirstPosition(items, k);
      assert f in at;
      var i :| 0 <= i < |at| && at[i] == f;
      assert us[i].path == items[at[i]].path == items[k].path;
    }
  }

  lemma {:induction false} NoneBefore(items: seq<Item>, k: nat, j: nat)
    requires FirstWithPath(items, k) && j < k
    ensures items[j].path != items[k].path
  {}

  lemma {:induction false} FirstPosition(items: seq<Item>, k: nat) returns (f: nat)
    requires k < |items|
    ensures FirstWithPath(items, f) && items[f].path == items[k].path
    decreases k
  {
    if FirstWithPath(items, k) {
      f := k;
    } else {
      var j :| 0 <= j < k && items[j].path == items[k].path;
      f := FirstPosition(items, j);
    }
  }

  lemma {:induction false} Positions(table: seq<Entry>, items: seq<Item>, stat: nat -> Reply) returns (at: seq<nat>)
    ensures FirstOccurrences(table, items, stat, Listed(table, items, stat), at)
  {
    hide ItemUsage, Calls;
    if items == [] {
      at := [];
    } else {
      var n := |items| - 1;
      at := Positions(table, items[..n], stat);
      hide FirstOccurrences, PathsOf;
      at := OneMorePosition(table, items[..n], items[n], stat, Listed(table, items[..n], stat), at);
      assert items == items[..n] + [items[n]];
    }
  }

  lemma {:induction false} OneMorePosition(table: seq<Entry>, items: seq<Item>, item: Item, stat: nat -> Reply,
                                            us: seq<MountUsage>, at: seq<nat>) returns (at': seq<nat>)
    requires FirstOccurrences(table, items, stat, us, at)
    ensures var us' := if item.path in PathsOf(items) then us else us + [ItemUsage(table, item, stat(Calls(items)))];
            FirstOccurrences(table, items + [item], stat, us', at')
  {
    hide ItemUsage, Calls, FirstWithPath, PathsOf, ReadAt;
    FirstWithPathSnoc(items, item);
    ReadAtLonger(table, items, item, stat, us, at);
    forall i | 0 <= i < |at|
      ensures at[i] < |items|
    {
      assert at[i] in at;
      assert FirstWithPath(items, at[i]);
    }
    if item.path in PathsOf(items) {
      at' := at;
    } else {
      at' := at + [|items|];
      assert forall k: nat :: k in at' <==> k in at || k == |items|;
    }
  }

  lemma {:induction false} FirstWithPathSnoc(items: seq<Item>, item: Item)
    ensures var all := items + [item];
            && (forall k: nat :: FirstWithPath(all, k) <==>
                  FirstWithPath(items, k) || (k == |items| && item.path !in PathsOf(items)))
            && forall k: nat :: FirstWithPath(items, k) ==> k < |items|
  {
    var all := items + [item];
    assert forall k :: 0 <= k < |items| ==> all[k] == items[k];
    assert all[|items|] == item;
    assert FirstWithPath(all, |items|) <==> item.path !in PathsOf(items);
  }

  lemma {:induction false} ItemAppended(table: seq<Entry>, items: seq<Item>, item: Item, stat: nat -> Reply)
    ensures Calls(items + [item]) == Calls(items) + if item.Statted? then 1 else 0
    ensures PathsOf(items + [item]) == PathsOf(items) + {item.path}
    ensures Listed(table, items + [item], stat) ==
            if item.path in PathsOf(items) then Listed(table, items, stat)
            else Listed(table, items, stat) + [ItemUsage(table, item, stat(Calls(items)))]
  {
    hide ItemUsage;
    var all := items + [item];
    assert all[..|items|] == items && all[|items|] == item;
    assert forall k :: 0 <= k < |items| ==> all[k] == items[k];
  }

  /** One path: look it up, stat it, fill in what is known. */
  method ReportMount(table: seq<Entry>, path: string, reply: Reply) returns (u: MountUsage)
    ensures u == UsageOf(table, path, "", reply)
  {
    var entry, _ := Find(table, path);
    match reply
    case TimedOut =>
      u := MountUsage(path, "", entry.device, entry.fsType, Some(Timeout), None);
    case StatFailed =>
      u := MountUsage(path, "", "", "", Some(Failure), None);
    case StatOk(sample) =>
      u := MountUsage(path, "", entry.device, entry.fsType, None, Some(Disk.ToBytes(sample)));
  }

  /** The list under construction, the paths on it, and the calls made so far. */
  datatype Progress = Progress(us: seq<MountUsage>, seen: set<string>, calls: nat)

  ghost predicate UpTo(p: Progress, table: seq<Entry>, stat: nat -> Reply, items: seq<Item>)
  {
    p == Progress(Listed(table, items, stat), PathsOf(items), Calls(items))
  }

  /** Adds a usage unless its path is already listed. */
  method Add(p: Progress, u: MountUsage, statted: bool,
             ghost table: seq<Entry>, ghost stat: nat -> Reply, ghost items: seq<Item>, ghost item: Item)
    returns (q: Progress)
    requires UpTo(p, table, stat, items)
    requires statted == item.Statted? && u == ItemUsage(table, item, stat(p.calls))
    ensures UpTo(q, table, stat, items + [item])
  {
    ItemAppended(table, items, item, stat);
    hide ItemUsage, Listed, PathsOf, Calls;
    q := p.(calls := p.calls + if statted then 1 else 0);
    if u.path !in p.seen {
      q := q.(seen := p.seen + {u.path}, us := p.us + [u]);
    } else {
      assert p.seen + {u.path} == p.seen;
    }
  }

  /** The configured mounts in config order, wildcards expanded, each path once. */
  method MountUsages(config: seq<string>, table: seq<Entry>, matches: (string, string) -> bool, stat: nat -> Reply)
    returns (us: seq<MountUsage>)
    ensures us == Listed(table, Items(config, table, matches), stat)
  {
    var p := Progress([], {}, 0);
    ghost var items: seq<Item> := [];
    assert UpTo(p, table, stat, items);
    hide UpTo, ItemsOf;
    for i := 0 to |config|
      invariant items == Items(config[..i], table, matches) && UpTo(p, table, stat, items)
    {
      assert config[..i + 1][..i] == config[..i];
      p := OnePath(config[i], table, matches, stat, p, items);
      items := items + ItemsOf(config[i], table, matches);
    }
    assert config[..|config|] == config;
    us := p.us;
    assert us == Listed(table, items, stat) by { ProgressLists(p, table, stat, items); }
  }

  lemma {:induction false} ProgressLists(p: Progress, table: seq<Entry>, stat: nat -> Reply, items: seq<Item>)
    requires UpTo(p, table, stat, items)
    ensures p.us == Listed(table, items, stat)
  {}

  method OnePath(path: string, table: seq<Entry>, matches: (string, string) -> bool, stat: nat -> Reply,
                 p: Progress, ghost items: seq<Item>) returns (q: Progress)
    requires UpTo(p, table, stat, items)
    ensures UpTo(q, table, stat, items + ItemsOf(path, table, matches))
  {
    hide UpTo, UsageOf, Matches;
    if !HasWildcard(path) {
      var u := ReportMount(table, path, stat(p.calls));
      q := Add(p, u, true, table, stat, items, Statted(path, ""));
      return;
    }
    if table == [] {
      var u := MountUsage(path, path, "", "", Some(NoMountTable), None);
      q := Add(p, u, false, table, stat, items, Empty(path, NoMountTable));
      return;
    }
    var found := Match(table, Glob(path, matches));
    assert found == Matches(table, path, matches) by { FoundAll(table, path, matches); }
    if found == [] {
      var u := MountUsage(path, path, "", "", Some(NoMatch), None);
      q := Add(p, u, false, table, stat, items, Empty(path, NoMatch));
      return;
    }
    q := AddMatches(path, found, table, stat, p, items);
  }

  lemma {:induction false} FoundAll(table: seq<Entry>, path: string, matches: (string, string) -> bool)
    ensures MatchList(ByPath(table, Glob(path, matches))) == Matches(table, path, matches)
  {}

  function MatchItems(path: string, found: seq<Entry>): seq<Item>
  {
    seq(|found|, i requires 0 <= i < |found| => Statted(found[i].path, path))
  }

  method AddMatches(path: string, found: seq<Entry>, table: seq<Entry>, stat: nat -> Reply,
                    p: Progress, ghost items: seq<Item>) returns (q: Progress)
    requires UpTo(p, table, stat, items)
    ensures UpTo(q, table, stat, items + MatchItems(path, found))
  {
    hide UpTo, UsageOf;
    ghost var block := MatchItems(path, found);
    q := p;
    assert items + block[..0] == items;
    for i := 0 to |found|
      invariant UpTo(q, table, stat, items + block[..i])
    {
      var u := ReportMount(table, found[i].path, stat(q.calls));
      WithPattern(table, found[i].path, path, stat(q.calls));
      u := u.(pattern := path);
      assert block[..i + 1] == block[..i] + [block[i]];
      SeqAssociates(items, block[..i], [block[i]]);
      q := Add(q, u, true, table, stat, items + block[..i], block[i]);
    }
    assert block[..|found|] == block;
  }

  lemma {:induction false} WithPattern(table: seq<Entry>, path: string, pattern: string, reply: Reply)
    ensures UsageOf(table, path, "", reply).(pattern := pattern) == UsageOf(table, path, pattern, reply)
  {}

  /** The device and type published under a wildcard are those of the mount that
      matched: each item of the pattern names an entry of the table, and unless
      its statfs failed outright its usage carries that entry's device and type. */
  lemma {:induction false} WildcardKeepsItsMount(table: seq<Entry>, pattern: string, matches: (string, string) -> bool,
                                                 i: nat, reply: Reply)
    requires CleanTable(table) && i < |Matches(table, pattern, matches)| && !reply.StatFailed?
    ensures var e := Matches(table, pattern, matches)[i];
            var u := UsageOf(table, e.path, pattern, reply);
            e in table && u.device == e.device && u.fsType == e.fsType
  {
    MatchFindsItself(table, Glob(pattern, matches), i);
  }

  // ---------------------------------------------------------------------
  // The server total
  // ---------------------------------------------------------------------

  datatype ServerStorage = ServerStorage(total: Disk.Usage, partial: bool, missing: seq<string>)

  /** The usages that count: read, and not empty. */
  function Readable(fs: seq<Entry>, read: nat -> Option<Disk.Sample>): seq<Disk.Usage>
  {
    if fs == [] then []
    else
      var n := |fs| - 1;
      var before := Readable(fs[..n], read);
      match read(n)
      case None => before
      case Some(sample) => if Disk.ToBytes(sample).total == 0 then before else before + [Disk.ToBytes(sample)]
  }

  function Missing(fs: seq<Entry>, read: nat -> Option<Disk.Sample>): seq<string>
  {
    if fs == [] then []
    else Missing(fs[..|fs| - 1], read) + if read(|fs| - 1).None? then [fs[|fs| - 1].path] else []
  }

  ghost predicate SortedPaths(s: seq<string>)
  {
    forall i, j :: 0 <= i < j < |s| ==> s[i] == s[j] || Less(s[i], s[j])
  }

  method SortPaths(s: seq<string>) returns (r: seq<string>)
    ensures SortedPaths(r) && multiset(r) == multiset(s)
  {
    r := [];
    for n := 0 to |s|
      invariant SortedPaths(r) && multiset(r) == multiset(s[..n])
    {
      var k := |r|;
      while k > 0 && Less(s[n], r[k - 1])
        invariant 0 <= k <= |r|
        invariant forall i :: k <= i < |r| ==> Less(s[n], r[i])
      {
        k := k - 1;
      }
      PathInserted(r, k, s[n]);
      r := r[..k] + [s[n]] + r[k..];
      assert s[..n + 1] == s[..n] + [s[n]];
    }
    assert s[..|s|] == s;
  }

  lemma {:induction false} PathInserted(r: seq<string>, k: nat, p: string)
    requires SortedPaths(r) && k <= |r| && (k > 0 ==> !Less(p, r[k - 1]))
    requires forall i :: k <= i < |r| ==> Less(p, r[i])
    ensures var t := r[..k] + [p] + r[k..];
            SortedPaths(t) && multiset(t) == multiset(r) + multiset{p}
  {
    hide Less, SortedPaths;
    PathsStaySorted(r, k, p);
    assert r == r[..k] + r[k..];
  }

  lemma {:induction false} PathsStaySorted(r: seq<string>, k: nat, p: string)
    requires SortedPaths(r) && k <= |r| && (k > 0 ==> !Less(p, r[k - 1]))
    requires forall i :: k <= i < |r| ==> Less(p, r[i])
    ensures SortedPaths(r[..k] + [p] + r[k..])
  {
    hide Less;
    forall i | 0 <= i < k
      ensures r[i] == p || Less(r[i], p)
    {
      LessIsTotal(p, r[k - 1]);
      if r[i] != r[k - 1] && p != r[k - 1] {
        LessIsTransitive(r[i], r[k - 1], p);
      }
    }
    var t := r[..k] + [p] + r[k..];
    assert forall i :: 0 <= i < |t| ==> t[i] == if i < k then r[i] else if i == k then p else r[i - 1];
  }

  /** The report over the chosen filesystems: absent when nothing counts,
      otherwise the total of what could be read, partial when something could
      not, with the sorted paths of that. */
  ghost predicate IsReport(r: Option<ServerStorage>, fs: seq<Entry>, read: nat -> Option<Disk.Sample>)
  {
    match r
    case None => Readable(fs, read) == []
    case Some(server) =>
      && Readable(fs, read) != []
      && server.total == Disk.TotalOf(Readable(fs, read))
      && (server.partial <==> exists i :: 0 <= i < |fs| && read(i).None?)
      && SortedPaths(server.missing) && multiset(server.missing) == multiset(Missing(fs, read))
  }

  /** The server's own storage, each filesystem once. */
  method ReportServer(entries: array<Entry>, read: nat -> Option<Disk.Sample>) returns (r: Option<ServerStorage>)
    ensures exists fs :: Selected(entries[..], fs) && IsReport(r, fs, read)
  {
    var local := LocalFilesystems(entries);
    r := ReportOver(local, read);
  }

  method ReportOver(local: seq<Entry>, read: nat -> Option<Disk.Sample>) returns (r: Option<ServerStorage>)
    ensures IsReport(r, local, read)
  {
    var usages: seq<Disk.Usage>, missing: seq<string> := [], [];
    for i := 0 to |local|
      invariant usages == Readable(local[..i], read) && missing == Missing(local[..i], read)
    {
      assert local[..i + 1][..i] == local[..i];
      var reply := read(i);
      if reply.None? {
        missing := missing + [local[i].path];
        continue;
      }
      var usage := Disk.ToBytes(reply.value);
      if usage.total == 0 {
        continue;
      }
      usages := usages + [usage];
    }
    assert local[..|local|] == local;
    MissingOnes(local, read);
    if usages == [] {
      return None;
    }
    var sorted := SortPaths(missing);
    assert |sorted| == |missing| by { assert |multiset(sorted)| == |multiset(missing)|; }
    var total := Disk.Total(usages);
    r := Some(ServerStorage(total, |sorted| > 0, sorted));
  }

  lemma {:induction false} MissingOnes(fs: seq<Entry>, read: nat -> Option<Disk.Sample>)
    ensures |Missing(fs, read)| > 0 <==> exists i :: 0 <= i < |fs| && read(i).None?
  {
    if fs != [] {
      MissingOnes(fs[..|fs| - 1], read);
    }
  }

  /** The filesystem counts: it could be read and is not empty. */
  predicate Counts(reply: Option<Disk.Sample>)
  {
    reply.Some? && Disk.ToBytes(reply.value).total != 0
  }

  lemma {:induction false} NoneReadable(fs: seq<Entry>, read: nat -> Option<Disk.Sample>)
    ensures Readable(fs, read) == [] <==> forall i :: 0 <= i < |fs| ==> !Counts(read(i))
  {
    if fs != [] {
      NoneReadable(fs[..|fs| - 1], read);
    }
  }

  /** The filesystems at this path that could not be read. */
  function Unread(fs: seq<Entry>, read: nat -> Option<Disk.Sample>, path: string): set<nat>
  {
    set i: nat | i < |fs| && read(i).None? && fs[i].path == path
  }

  lemma {:induction false} MissingTells(fs: seq<Entry>, read: nat -> Option<Disk.Sample>, path: string)
    ensures multiset(Missing(fs, read))[path] == |Unread(fs, read, path)|
  {
    if fs != [] {
      hide Unread;
      var n := |fs| - 1;
      MissingTells(fs[..n], read, path);
      UnreadSnoc(fs, read, path);
      assert Missing(fs, read) == Missing(fs[..n], read) + if read(n).None? then [fs[n].path] else [];
    }
  }

  lemma {:induction false} UnreadSnoc(fs: seq<Entry>, read: nat -> Option<Disk.Sample>, path: string)
    requires fs != []
    ensures var n := |fs| - 1;
            |Unread(fs, read, path)| ==
            |Unread(fs[..n], read, path)| + if read(n).None? && fs[n].path == path then 1 else 0
  {
    var n := |fs| - 1;
    var before := Unread(fs[..n], read, path);
    assert Unread(fs, read, path) == if read(n).None? && fs[n].path == path then before + {n} else before;
  }

  /** The server report is absent exactly when no filesystem counts, and names
      the path of every filesystem that could not be read, as often as that was. */
  lemma {:induction false} ReportTellsTheReads(r: Option<ServerStorage>, fs: seq<Entry>, read: nat -> Option<Disk.Sample>, path: string)
    requires IsReport(r, fs, read)
    ensures r.None? <==> forall i :: 0 <= i < |fs| ==> !Counts(read(i))
    ensures r.Some? ==> multiset(r.value.missing)[path] == |Unread(fs, read, path)|
    ensures r.Some? ==> forall i, j :: 0 <= i < j < |r.value.missing| ==> !Less(r.value.missing[j], r.value.missing[i])
    ensures r.Some? ==> (r.value.partial <==> exists i :: 0 <= i < |fs| && read(i).None?)
  {
    NoneReadable(fs, read);
    MissingTells(fs, read, path);
    if r.Some? {
      var missing := r.value.missing;
      forall i, j | 0 <= i < j < |missing|
        ensures !Less(missing[j], missing[i])
      {
        LessIsTotal(missing[i], missing[j]);
      }
    }
  }

  /** One figure of every filesystem that could be read, added up. */
  function SumOver(n: nat, read: nat -> Option<Disk.Sample>, figure: Figure): nat
  {
    if n == 0 then 0
    else SumOver(n - 1, read, figure) + if read(n - 1).Some? then FigureOf(Disk.ToBytes(read(n - 1).value), figure) else 0
  }

  datatype Figure = Total | Used | Free | Reserved

  function FigureOf(u: Disk.Usage, figure: Figure): nat
  {
    match figure
    case Total => u.total
    case Used => u.used
    case Free => u.free
    case Reserved => u.reserved
  }

  /** Each figure of the total is the sum of that figure over everything read. */
  lemma {:induction false} TotalIsTheSum(fs: seq<Entry>, read: nat -> Option<Disk.Sample>)
    requires Sane(|fs|, read)
    ensures var us, n := Readable(fs, read), |fs|;
            && Disk.SumTotal(us) == SumOver(n, read, Total)
            && Disk.SumUsed(us) == SumOver(n, read, Used)
            && Disk.SumFree(us) == SumOver(n, read, Free)
            && Disk.SumReserved(us) == SumOver(n, read, Reserved)
  {
    if fs != [] {
      var n := |fs| - 1;
      TotalIsTheSum(fs[..n], read);
      if read(n).Some? {
        Disk.ConsistentBytes(read(n).value);
        Disk.SumsSnoc(Readable(fs[..n], read), Disk.ToBytes(read(n).value));
      }
    }
  }

  /** So are those of the report, as long as they fit. */
  lemma {:induction false} ReportTotalIsTheSum(r: Option<ServerStorage>, fs: seq<Entry>, read: nat -> Option<Disk.Sample>)
    requires IsReport(r, fs, read) && r.Some? && Sane(|fs|, read) && SumOver(|fs|, read, Total) < Disk.U64
    ensures forall figure :: FigureOf(r.value.total, figure) == SumOver(|fs|, read, figure)
  {
    TotalIsTheSum(fs, read);
    ReadableIsConsistent(fs, read);
    hide Readable, Sane, SumOver, Disk.SumTotal, Disk.SumUsed, Disk.SumFree, Disk.SumReserved, SortedPaths;
    Disk.SumsAddUp(Readable(fs, read));
  }

  /** Every reply is a consistent filesystem whose bytes fit. */
  ghost predicate Sane(n: nat, read: nat -> Option<Disk.Sample>)
  {
    forall i :: 0 <= i < n && read(i).Some? ==>
      var s := read(i).value;
      Disk.InRange(s) && s.availableBlocks <= s.freeBlocks <= s.blocks
  }

  lemma {:induction false} ReadableIsConsistent(fs: seq<Entry>, read: nat -> Option<Disk.Sample>)
    requires Sane(|fs|, read)
    ensures Disk.AllConsistent(Readable(fs, read))
  {
    if fs != [] {
      var n := |fs| - 1;
      ReadableIsConsistent(fs[..n], read);
      if read(n).Some? {
        Disk.ConsistentBytes(read(n).value);
      }
    }
  }

  /** Conservation for the whole server: used, free and reserved add up to the
      total, and the percentage lies within the percentages of its parts. */
  lemma {:induction false} ServerTotalConserves(fs: seq<Entry>, read: nat -> Option<Disk.Sample>, lo: real, hi: real)
    requires Sane(|fs|, read) && Disk.SumTotal(Readable(fs, read)) < Disk.U64
    requires Disk.PercentsWithin(Readable(fs, read), lo, hi)
    ensures var t := Disk.TotalOf(Readable(fs, read));
            && t.used + t.free + t.reserved == t.total
            && (t.used + t.free > 0 ==> lo <= t.usedPercent <= hi)
  {
    var us := Readable(fs, read);
    ReadableIsConsistent(fs, read);
    Disk.TotalIsConsistent(us);
    Disk.SumsAddUp(us);
    if Disk.SumUsed(us) + Disk.SumFree(us) > 0 {
      Disk.ServerPercentIsBetween(us, lo, hi);
    }
  }

  /** What is read, read the same, plus more. */
  ghost predicate Extends(n: nat, part: nat -> Option<Disk.Sample>, whole: nat -> Option<Disk.Sample>)
  {
    forall i :: 0 <= i < n && part(i).Some? ==> whole(i) == part(i)
  }

  lemma {:induction false} PartOfWhole(fs: seq<Entry>, part: nat -> Option<Disk.Sample>, whole: nat -> Option<Disk.Sample>)
    returns (mask: seq<bool>)
    requires Extends(|fs|, part, whole)
    ensures |mask| == |Readable(fs, whole)| && Readable(fs, part) == Disk.Masked(Readable(fs, whole), mask)
  {
    if fs == [] {
      mask := [];
    } else {
      var n := |fs| - 1;
      mask := PartOfWhole(fs[..n], part, whole);
      var us := Readable(fs[..n], whole);
      if whole(n).Some? && Disk.ToBytes(whole(n).value).total != 0 {
        MaskSnoc(us, Disk.ToBytes(whole(n).value), mask, part(n).Some?);
        mask := mask + [part(n).Some?];
      }
    }
  }

  lemma {:induction false} MaskSnoc(us: seq<Disk.Usage>, u: Disk.Usage, mask: seq<bool>, keep: bool)
    requires |us| == |mask|
    ensures Disk.Masked(us + [u], mask + [keep]) == Disk.Masked(us, mask) + if keep then [u] else []
  {}

  /** A partial total is component-wise at most the total with the missing
      filesystems included. */
  lemma {:induction false} PartialServerTotalIsSmaller(fs: seq<Entry>, part: nat -> Option<Disk.Sample>, whole: nat -> Option<Disk.Sample>)
    requires Sane(|fs|, whole) && Extends(|fs|, part, whole) && Disk.SumTotal(Readable(fs, whole)) < Disk.U64
    ensures var p, w := Disk.TotalOf(Readable(fs, part)), Disk.TotalOf(Readable(fs, whole));
            p.total <= w.total && p.used <= w.used && p.free <= w.free && p.reserved <= w.reserved
  {
    ReadableIsConsistent(fs, whole);
    var mask := PartOfWhole(fs, part, whole);
    Disk.PartialTotalIsSmaller(Readable(fs, whole), mask);
  }
}
