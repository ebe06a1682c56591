/**
 What the published mount list owes to the configuration: every configured path
 and every match of a configured pattern is on it, nothing else is, and a
 pattern that matches nothing is on it saying so.
 */
module MountList {
  import opened Text
  import opened Paths
  import opened Mounts
  import opened StorageCollector
  import Disk

  type Matcher = (string, string) -> bool

  /** Entry i is a match of the pattern: its path hits, nothing is mounted over
      it later, and it is not an autofs mount point. */
  ghost predicate Hit(table: seq<Entry>, pattern: string, matches: Matcher, i: nat)
  {
    && i < |table| && matches(Clean(pattern), Clean(table[i].path)) && table[i].fsType != "autofs"
    && forall j :: i < j < |table| ==> Clean(table[j].path) != Clean(table[i].path)
  }

  ghost predicate HitAt(table: seq<Entry>, pattern: string, matches: Matcher, path: string)
  {
    exists i :: 0 <= i < |table| && Hit(table, pattern, matches, i) && Clean(table[i].path) == path
  }

  /** Entry i is the last one at the path. */
  ghost predicate LastThere(table: seq<Entry>, path: string, i: nat)
  {
    && i < |table| && Clean(table[i].path) == path
    && forall j :: i < j < |table| ==> Clean(table[j].path) != path
  }

  /** The map holds what is mounted last at a path, if that hits. */
  lemma {:induction false} ByPathTells(table: seq<Entry>, glob: Glob, path: string) returns (i: nat)
    ensures var m := ByPath(table, glob);
            if path in m then LastThere(table, path, i) && glob.Hits(path) && m[path] == table[i].(path := path)
            else glob.Hits(path) ==> forall j :: 0 <= j < |table| ==> Clean(table[j].path) != path
  {
    hide Clean;
    i := 0;
    if table != [] {
      var n := |table| - 1;
      i := ByPathTells(table[..n], glob, path);
      if Clean(table[n].path) == path && glob.Hits(path) {
        i := n;
      }
    }
  }

  /** The paths of the match list are those of the hits. */
  lemma {:induction false} MatchesAreTheHits(table: seq<Entry>, pattern: string, matches: Matcher, path: string)
    ensures (exists k :: 0 <= k < |Matches(table, pattern, matches)| && Matches(table, pattern, matches)[k].path == path)
            <==> HitAt(table, pattern, matches, path)
  {
    var glob := Glob(pattern, matches);
    var m, found := ByPath(table, glob), Matches(table, pattern, matches);
    var i := ByPathTells(table, glob, path);
    assert IsMatchList(found, m);
    hide Clean, ByPath, Matches, MatchList;
    if k :| 0 <= k < |found| && found[k].path == path {
      assert found[k] in found;
      assert Hit(table, pattern, matches, i);
    }
    if HitAt(table, pattern, matches, path) {
      var j :| 0 <= j < |table| && Hit(table, pattern, matches, j) && Clean(table[j].path) == path;
      assert glob.Hits(path) && path in m;
      assert i == j;
      assert m[path] in found;
    }
  }

  /** What one configured path asks for. */
  ghost predicate AsksFor(path: string, table: seq<Entry>, matches: Matcher, item: Item)
  {
    if !HasWildcard(path) then item == Statted(path, "")
    else if table == [] then item == Empty(path, NoMountTable)
    else
      || (item == Empty(path, NoMatch) && forall i :: 0 <= i < |table| ==> !Hit(table, path, matches, i))
      || (item == Statted(item.path, path) && HitAt(table, path, matches, item.path))
  }

  lemma {:induction false} ItemsOfTells(path: string, table: seq<Entry>, matches: Matcher, item: Item)
    ensures item in ItemsOf(path, table, matches) <==> AsksFor(path, table, matches, item)
  {
    hide HasWildcard;
    if HasWildcard(path) && table != [] {
      var found := Matches(table, path, matches);
      MatchesAreTheHits(table, path, matches, item.path);
      if found != [] {
        MatchesAreTheHits(table, path, matches, found[0].path);
        assert found[0].path == found[0].path;
        var i :| 0 <= i < |table| && Hit(table, path, matches, i) && Clean(table[i].path) == found[0].path;
      } else {
        forall i | 0 <= i < |table|
          ensures !Hit(table, path, matches, i)
        {
          MatchesAreTheHits(table, path, matches, Clean(table[i].path));
          assert Hit(table, path, matches, i) ==> HitAt(table, path, matches, Clean(table[i].path));
        }
      }
      hide Matches, Hit;
    }
  }

  /** The items are what the configured paths ask for. */
  lemma {:induction false} ItemsTell(config: seq<string>, table: seq<Entry>, matches: Matcher, item: Item)
    ensures item in Items(config, table, matches) <==>
              exists c :: 0 <= c < |config| && AsksFor(config[c], table, matches, item)
  {
    hide ItemsOf, AsksFor;
    if config != [] {
      var n := |config| - 1;
      ItemsTell(config[..n], table, matches, item);
      ItemsOfTells(config[n], table, matches, item);
      assert forall c :: 0 <= c < n ==> config[..n][c] == config[c];
    }
  }

  /** The list is complete: whatever a configured path asks for, its path is on it. */
  lemma {:induction false} EverythingAskedForIsListed(
      config: seq<string>, table: seq<Entry>, matches: Matcher, stat: nat -> Reply, c: nat, item: Item)
    requires c < |config| && AsksFor(config[c], table, matches, item)
    ensures Lists(Listed(table, Items(config, table, matches), stat), item.path)
  {
    var items := Items(config, table, matches);
    ItemsTell(config, table, matches, item);
    hide AsksFor, Items, Listed, Lists;
    var at := ListedOnceInOrder(table, items, stat);
    var k :| 0 <= k < |items| && items[k] == item;
  }

  /** In particular every plain path is listed, and every match of a pattern. */
  lemma {:induction false} PlainPathsAndMatchesAreListed(
      config: seq<string>, table: seq<Entry>, matches: Matcher, stat: nat -> Reply, c: nat)
    requires c < |config|
    ensures var us := Listed(table, Items(config, table, matches), stat);
            if !HasWildcard(config[c]) then Lists(us, config[c])
            else forall i :: 0 <= i < |table| && Hit(table, config[c], matches, i) ==> Lists(us, Clean(table[i].path))
  {
    var us := Listed(table, Items(config, table, matches), stat);
    hide Listed, Items, HasWildcard, Hit, Lists;
    if !HasWildcard(config[c]) {
      EverythingAskedForIsListed(config, table, matches, stat, c, Statted(config[c], ""));
    } else {
      forall i | 0 <= i < |table| && Hit(table, config[c], matches, i)
        ensures Lists(us, Clean(table[i].path))
      {
        HitsAreInTheTable(table, config[c], matches, i);
        EverythingAskedForIsListed(config, table, matches, stat, c, Statted(Clean(table[i].path), config[c]));
      }
    }
  }

  lemma {:induction false} HitsAreInTheTable(table: seq<Entry>, pattern: string, matches: Matcher, i: nat)
    requires Hit(table, pattern, matches, i)
    ensures i < |table| && HitAt(table, pattern, matches, Clean(table[i].path))
  {}

  /** The list holds nothing else: every entry is the reading of something that a
      configured path asks for. */
  lemma {:induction false} NothingElseIsListed(
      config: seq<string>, table: seq<Entry>, matches: Matcher, stat: nat -> Reply, i: nat)
      returns (c: nat, item: Item, call: nat)
    requires i < |Listed(table, Items(config, table, matches), stat)|
    ensures c < |config| && AsksFor(config[c], table, matches, item)
    ensures Listed(table, Items(config, table, matches), stat)[i] == ItemUsage(table, item, stat(call))
  {
    var items := Items(config, table, matches);
    hide AsksFor, Items, Listed, ItemUsage, FirstWithPath;
    var at := ListedOnceInOrder(table, items, stat);
    item := items[at[i]];
    call := Calls(items[..at[i]]);
    assert item in items;
    ItemsTell(config, table, matches, item);
    c :| 0 <= c < |config| && AsksFor(config[c], table, matches, item);
  }

  function NoMatchUsage(pattern: string): MountUsage
  {
    MountUsage(pattern, pattern, "", "", Some(NoMatch), None)
  }

  /** A pattern is listed as matching nothing if and only if there is a table and
      no entry of it is a match, provided no match of another configured pattern
      has the pattern's very name for its path. */
  lemma {:induction false} NoMatchPublishedExactlyWhen(
      config: seq<string>, table: seq<Entry>, matches: Matcher, stat: nat -> Reply, c: nat)
    requires c < |config| && HasWildcard(config[c])
    requires forall d :: 0 <= d < |config| && config[d] != config[c] ==> !HitAt(table, config[d], matches, config[c])
    ensures NoMatchUsage(config[c]) in Listed(table, Items(config, table, matches), stat) <==>
              table != [] && forall i :: 0 <= i < |table| ==> !Hit(table, config[c], matches, i)
  {
    hide Listed, Items, HasWildcard, HitAt, Hit, AsksFor;
    if NoMatchUsage(config[c]) in Listed(table, Items(config, table, matches), stat) {
      NoMatchIsTrue(config, table, matches, stat, config[c]);
    }
    if table != [] && forall i :: 0 <= i < |table| ==> !Hit(table, config[c], matches, i) {
      NoMatchIsSaid(config, table, matches, stat, c);
    }
  }

  lemma {:induction false} NoMatchIsTrue(
      config: seq<string>, table: seq<Entry>, matches: Matcher, stat: nat -> Reply, path: string)
    requires NoMatchUsage(path) in Listed(table, Items(config, table, matches), stat)
    ensures table != [] && forall i :: 0 <= i < |table| ==> !Hit(table, path, matches, i)
  {
    var us := Listed(table, Items(config, table, matches), stat);
    hide Listed, Items, HasWildcard, HitAt, Hit, UsageOf;
    var i :| 0 <= i < |us| && us[i] == NoMatchUsage(path);
    var d, item, call := NothingElseIsListed(config, table, matches, stat, i);
    StatsHaveOtherProblems(table, item, stat(call));
  }

  lemma {:induction false} NoMatchIsSaid(
      config: seq<string>, table: seq<Entry>, matches: Matcher, stat: nat -> Reply, c: nat)
    requires c < |config| && HasWildcard(config[c])
    requires forall d :: 0 <= d < |config| && config[d] != config[c] ==> !HitAt(table, config[d], matches, config[c])
    requires table != [] && forall i :: 0 <= i < |table| ==> !Hit(table, config[c], matches, i)
    ensures NoMatchUsage(config[c]) in Listed(table, Items(config, table, matches), stat)
  {
    var path := config[c];
    var us := Listed(table, Items(config, table, matches), stat);
    NoHitsNowhere(table, path, matches);
    hide Listed, Items, HasWildcard, HitAt, Hit, UsageOf;
    EverythingAskedForIsListed(config, table, matches, stat, c, Empty(path, NoMatch));
    var i :| 0 <= i < |us| && us[i].path == path;
    var d, item, call := NothingElseIsListed(config, table, matches, stat, i);
    assert item == Empty(path, NoMatch);
  }

  lemma {:induction false} StatsHaveOtherProblems(table: seq<Entry>, item: Item, reply: Reply)
    ensures item.Statted? ==> ItemUsage(table, item, reply).problem != Some(NoMatch)
  {
    hide OnePass, Clean;
  }

  lemma {:induction false} NoHitsNowhere(table: seq<Entry>, pattern: string, matches: Matcher)
    requires forall i :: 0 <= i < |table| ==> !Hit(table, pattern, matches, i)
    ensures !HitAt(table, pattern, matches, pattern)
  {}

  // ---------------------------------------------------------------------
  // What a reading says
  // ---------------------------------------------------------------------

  /** A path's entry names the mount at its nearest mounted ancestor, unless its
      statfs failed outright; it has figures exactly when the statfs answered. */
  lemma {:induction false} UsageTellsTheReply(table: seq<Entry>, path: string, pattern: string, reply: Reply)
    requires CleanTable(table) && Rooted(path)
    ensures var u := UsageOf(table, path, pattern, reply);
            var mount := WalkUp(table, ComponentsOf(path), |ComponentsOf(path)|);
            && (u.device, u.fsType) ==
               (if reply.StatFailed? || mount.None? then ("", "") else (mount.value.device, mount.value.fsType))
            && (u.usage.Some? <==> reply.StatOk?)
            && (reply.StatOk? ==> u.usage == Some(Disk.ToBytes(reply.sample)))
            && u.problem == (match reply case TimedOut => Some(Timeout) case StatFailed => Some(Failure) case StatOk(_) => None)
  {
    FindIsNearestAncestor(table, path);
  }
}
