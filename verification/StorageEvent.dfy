/**
 One tick of the storage collector: the mount table is read once, parsed, and
 shared by the server total and the configured mounts. What reading the table
 came to is an input: its content, or None when it could not be read.
 */
module StorageEvent {
  import opened Text
  import opened Mounts
  import opened LocalDisks
  import opened MountParse
  import opened StorageCollector
  import Disk

  function TableOf(data: Option<string>): seq<Entry>
  {
    match data
    case None => []
    case Some(text) => ParseLines(SplitOn(text, '\n'))
  }

  method ReadMountTable(data: Option<string>) returns (table: seq<Entry>)
    ensures table == TableOf(data)
  {
    if data.None? {
      return [];
    }
    table := Parse(data.value);
  }

  /** No line has the three fields of an entry. */
  predicate NoEntries(text: string)
  {
    var lines := SplitOn(text, '\n');
    forall i :: 0 <= i < |lines| ==> |Fields(lines[i])| < 3
  }

  predicate NoTable(data: Option<string>)
  {
    data.None? || NoEntries(data.value)
  }

  lemma {:induction false} NothingParsed(lines: seq<string>)
    ensures ParseLines(lines) == [] <==> forall i :: 0 <= i < |lines| ==> |Fields(lines[i])| < 3
  {
    if lines != [] {
      hide Fields, Unescape;
      NothingParsed(lines[1..]);
      assert forall i :: 0 < i < |lines| ==> lines[i] == lines[1..][i - 1];
    }
  }

  lemma {:induction false} TableIsEmptyExactlyWhen(data: Option<string>)
    ensures TableOf(data) == [] <==> NoTable(data)
  {
    if data.Some? {
      NothingParsed(SplitOn(data.value, '\n'));
    }
  }

  /** A wildcard reads as having no mount table exactly when the table could not
      be read or none of its lines is an entry. */
  lemma {:induction false} WildcardHasNoTableExactlyWhen(path: string, data: Option<string>, matches: (string, string) -> bool)
    requires HasWildcard(path)
    ensures ItemsOf(path, TableOf(data), matches) == [Empty(path, NoMountTable)] <==> NoTable(data)
  {
    TableIsEmptyExactlyWhen(data);
    hide TableOf, NoTable, Matches, HasWildcard;
    var items := ItemsOf(path, TableOf(data), matches);
    if TableOf(data) != [] {
      TableIsThere(path, TableOf(data), matches);
      hide ItemsOf;
      assert |items| > 0 ==> !ReadsAsNoTable(items[0]);
    }
  }

  lemma {:induction false} TableIsThere(path: string, table: seq<Entry>, matches: (string, string) -> bool)
    requires table != []
    ensures AllHaveTable(ItemsOf(path, table, matches))
  {
    hide Matches, HasWildcard;
  }

  predicate ReadsAsNoTable(item: Item)
  {
    item.Empty? && item.problem.NoMountTable?
  }

  predicate AllHaveTable(items: seq<Item>)
  {
    forall k :: 0 <= k < |items| ==> !ReadsAsNoTable(items[k])
  }

  lemma {:induction false} AllHaveTableConcat(a: seq<Item>, b: seq<Item>)
    requires AllHaveTable(a) && AllHaveTable(b)
    ensures AllHaveTable(a + b)
  {}

  /** A table that was read, and is empty, cannot be told from an unreadable one. */
  lemma {:induction false} EmptyTableReadsAsUnreadable(path: string, matches: (string, string) -> bool)
    requires HasWildcard(path)
    ensures ItemsOf(path, TableOf(Some("")), matches) == [Empty(path, NoMountTable)]
    ensures ItemsOf(path, TableOf(Some("")), matches) == ItemsOf(path, TableOf(None), matches)
  {
    assert SplitOn("", '\n') == [""] && Fields("") == [];
    WildcardHasNoTableExactlyWhen(path, Some(""), matches);
  }

  // ---------------------------------------------------------------------
  // What is published
  // ---------------------------------------------------------------------

  lemma {:induction false} ItemsWithTable(config: seq<string>, table: seq<Entry>, matches: (string, string) -> bool)
    requires table != []
    ensures AllHaveTable(Items(config, table, matches))
  {
    if config != [] {
      var n := |config| - 1;
      ItemsWithTable(config[..n], table, matches);
      TableIsThere(config[n], table, matches);
      hide ItemsOf, ReadsAsNoTable;
      AllHaveTableConcat(Items(config[..n], table, matches), ItemsOf(config[n], table, matches));
    }
  }

  /** Without a table every configured path is one item. */
  function ItemWithoutTable(path: string): Item
  {
    if HasWildcard(path) then Empty(path, NoMountTable) else Statted(path, "")
  }

  lemma {:induction false} ItemsWithoutTable(config: seq<string>, matches: (string, string) -> bool)
    ensures |Items(config, [], matches)| == |config|
    ensures forall k :: 0 <= k < |config| ==> Items(config, [], matches)[k] == ItemWithoutTable(config[k])
  {
    if config != [] {
      var n := |config| - 1;
      ItemsWithoutTable(config[..n], matches);
      assert ItemsOf(config[n], [], matches) == [ItemWithoutTable(config[n])];
    }
  }

  function NoTableUsage(pattern: string): MountUsage
  {
    MountUsage(pattern, pattern, "", "", Some(NoMountTable), None)
  }

  /** The usage for no mount table comes from such an item only. */
  lemma {:induction false} NoTableUsageOf(table: seq<Entry>, items: seq<Item>, stat: nat -> Reply,
                                           us: seq<MountUsage>, at: seq<nat>, i: nat)
    requires ReadAt(table, items, stat, us, at) && i < |us|
    ensures |at| == |us| && at[i] < |items| && us[i].path == items[at[i]].path
    ensures ReadsAsNoTable(items[at[i]]) <==> us[i] == NoTableUsage(us[i].path)
  {}

  /** For every configured wildcard: it is published as having no mount table if
      and only if the table could not be read or holds no entry. */
  lemma {:induction false} NoTablePublishedExactlyWhen(
      config: seq<string>, data: Option<string>, matches: (string, string) -> bool, stat: nat -> StorageCollector.Reply, c: nat)
    requires c < |config| && HasWildcard(config[c])
    ensures NoTableUsage(config[c]) in Listed(TableOf(data), Items(config, TableOf(data), matches), stat) <==> NoTable(data)
  {
    var table := TableOf(data);
    var items := Items(config, table, matches);
    var us := Listed(table, items, stat);
    TableIsEmptyExactlyWhen(data);
    var at := ListedOnceInOrder(table, items, stat);
    hide Listed, TableOf, NoTable, HasWildcard, Items, FirstWithPath, ReadAt, ReadsAsNoTable;
    if table == [] {
      ItemsWithoutTable(config, matches);
      assert Lists(us, items[c].path);
      var i :| 0 <= i < |us| && us[i].path == items[c].path;
      NoTableUsageOf(table, items, stat, us, at, i);
      assert ReadsAsNoTable(items[at[i]]) by { assert config[at[i]] == config[c]; IsNoTable(config[c]); }
    } else {
      ItemsWithTable(config, table, matches);
      forall i | 0 <= i < |us|
        ensures us[i] != NoTableUsage(config[c])
      {
        NoTableUsageOf(table, items, stat, us, at, i);
        assert !ReadsAsNoTable(items[at[i]]);
      }
    }
  }

  lemma {:induction false} IsNoTable(path: string)
    ensures ReadsAsNoTable(Empty(path, NoMountTable))
  {}

  datatype Event = Event(server: Option<ServerStorage>, mounts: seq<MountUsage>)

  /** One tick. */
  method CollectAndPublish(config: seq<string>, data: Option<string>, matches: (string, string) -> bool,
                           stat: nat -> StorageCollector.Reply, read: nat -> Option<Disk.Sample>) returns (event: Event)
    ensures exists fs :: Selected(TableOf(data), fs) && IsReport(event.server, fs, read)
    ensures event.mounts == Listed(TableOf(data), Items(config, TableOf(data), matches), stat)
  {
    hide TableOf, Selected, IsReport, Listed, Items;
    var table := ReadMountTable(data);
    var entries := new Entry[|table|](i requires 0 <= i < |table| => table[i]);
    assert entries[..] == table;
    var server := ReportServer(entries, read);
    var mounts := MountUsages(config, table, matches, stat);
    event := Event(server, mounts);
  }
}
