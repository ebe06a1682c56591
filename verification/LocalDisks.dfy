/**
 Picking the filesystems that make up the server's own storage: filter, stable
 sort by path length, and an in-place pass that keeps the first entry of each
 device, writing into the array it reads from.
 */
module LocalDisks {
  import opened Text
  import opened Mounts

  predicate IsLocal(fsType: string)
  {
    fsType in {"ext2", "ext3", "ext4", "xfs", "btrfs", "vfat"}
  }

  predicate Qualifies(e: Entry)
  {
    IsLocal(e.fsType) && !("/dev/loop" <= e.device)
  }

  /** Entry x of the table comes before entry y: shorter path, or earlier on a tie. */
  predicate Before(table: seq<Entry>, x: nat, y: nat)
    requires x < |table| && y < |table|
  {
    |table[x].path| < |table[y].path| || (|table[x].path| == |table[y].path| && x < y)
  }

  /** Positions of the table, each once, in order. */
  ghost predicate InOrder(table: seq<Entry>, at: seq<nat>)
  {
    && (forall i :: 0 <= i < |at| ==> at[i] < |table|)
    && forall i, j :: 0 <= i < j < |at| ==> Before(table, at[i], at[j])
  }

  /** The entry to keep for its device: no qualifying entry of the same device
      comes before it. */
  ghost predicate Chosen(table: seq<Entry>, x: nat)
  {
    && x < |table| && Qualifies(table[x])
    && forall y :: 0 <= y < |table| && Qualifies(table[y]) && table[y].device == table[x].device ==>
         x == y || Before(table, x, y)
  }

  function Pick(table: seq<Entry>, at: seq<nat>): seq<Entry>
    requires forall i :: 0 <= i < |at| ==> at[i] < |table|
  {
    seq(|at|, i requires 0 <= i < |at| => table[at[i]])
  }

  /** The simple specification: exactly the chosen entries, in order. */
  ghost predicate IsSelection(table: seq<Entry>, at: seq<nat>, r: seq<Entry>)
  {
    InOrder(table, at) && r == Pick(table, at) && forall x: nat :: x in at <==> Chosen(table, x)
  }

  ghost predicate Selected(table: seq<Entry>, r: seq<Entry>)
  {
    exists at :: IsSelection(table, at, r)
  }

  /** The specification has one answer. */
  lemma {:induction false} SelectionIsDetermined(table: seq<Entry>, r1: seq<Entry>, r2: seq<Entry>)
    requires Selected(table, r1) && Selected(table, r2)
    ensures r1 == r2
  {
    var at1 :| IsSelection(table, at1, r1);
    var at2 :| IsSelection(table, at2, r2);
    var lt := (x: nat, y: nat) => x < |table| && y < |table| && Before(table, x, y);
    assert StrictOrder(lt);
    SortedIsDetermined(at1, at2, lt);
  }

  predicate LocalDisk(e: Entry)
  {
    e.fsType in {"ext2", "ext3", "ext4", "xfs", "btrfs", "vfat"} && !("/dev/loop" <= e.device)
  }

  /** Entry i of the selection is the table's entry x: a local disk and no loop
      device, of the shortest path for its device and the first of those. */
  lemma {:induction false} SelectedAre(table: seq<Entry>, r: seq<Entry>, i: nat) returns (x: nat)
    requires Selected(table, r) && i < |r|
    ensures x < |table| && r[i] == table[x] && LocalDisk(table[x])
    ensures forall y :: 0 <= y < |table| && LocalDisk(table[y]) && table[y].device == table[x].device ==>
              |table[x].path| < |table[y].path| || (|table[x].path| == |table[y].path| && x <= y)
  {
    var at :| IsSelection(table, at, r);
    x := at[i];
    assert x in at;
    assert Chosen(table, x);
    forall y | 0 <= y < |table| && LocalDisk(table[y])
      ensures Qualifies(table[y])
    {}
  }

  /** Shorter paths come first, and equally long ones as they do in the table. */
  lemma {:induction false} SelectedInOrder(table: seq<Entry>, r: seq<Entry>, i: nat, j: nat) returns (x: nat, y: nat)
    requires Selected(table, r) && i < j < |r|
    ensures x < |table| && y < |table| && r[i] == table[x] && r[j] == table[y]
    ensures |r[i].path| < |r[j].path| || (|r[i].path| == |r[j].path| && x < y)
  {
    var at :| IsSelection(table, at, r);
    x, y := at[i], at[j];
    assert Before(table, x, y);
  }

  /** It keeps exactly one entry per qualifying device. */
  lemma {:induction false} OneEntryPerDevice(table: seq<Entry>, r: seq<Entry>, x: nat)
    requires Selected(table, r) && x < |table| && Qualifies(table[x])
    ensures exists i :: 0 <= i < |r| && r[i].device == table[x].device
    ensures forall i, j :: 0 <= i < |r| && 0 <= j < |r| && r[i].device == r[j].device ==> i == j
  {
    var at :| IsSelection(table, at, r);
    var c := FirstOfDevice(table, x);
    assert c in at;
    var i :| 0 <= i < |at| && at[i] == c;
    assert r[i].device == table[x].device;
    forall i, j | 0 <= i < j < |r|
      ensures r[i].device != r[j].device
    {
      assert at[i] in at && at[j] in at;
      assert Before(table, at[i], at[j]);
      assert Chosen(table, at[i]) && Chosen(table, at[j]);
    }
  }

  lemma {:induction false} FirstOfDevice(table: seq<Entry>, x: nat) returns (c: nat)
    requires x < |table| && Qualifies(table[x])
    ensures Chosen(table, c) && table[c].device == table[x].device
  {
    c := x;
    var y := 0;
    while y < |table|
      invariant 0 <= y <= |table|
      invariant c < |table| && Qualifies(table[c]) && table[c].device == table[x].device
      invariant forall z :: 0 <= z < y && Qualifies(table[z]) && table[z].device == table[x].device ==>
                  c == z || Before(table, c, z)
    {
      if Qualifies(table[y]) && table[y].device == table[x].device && Before(table, y, c) {
        c := y;
      }
      y := y + 1;
    }
  }

  // ---------------------------------------------------------------------
  // The code
  // ---------------------------------------------------------------------

  /** The qualifying entries, with where each came from. */
  method Filter(entries: array<Entry>) returns (local: seq<Entry>, ghost at: seq<nat>)
    ensures |local| == |at|
    ensures forall i :: 0 <= i < |at| ==> at[i] < entries.Length && local[i] == entries[at[i]]
    ensures forall i, j :: 0 <= i < j < |at| ==> at[i] < at[j]
    ensures forall x: nat :: x in at <==> x < entries.Length && Qualifies(entries[x])
  {
    local, at := [], [];
    for i := 0 to entries.Length
      invariant |local| == |at|
      invariant forall k :: 0 <= k < |at| ==> at[k] < i && local[k] == entries[at[k]]
      invariant forall k, l :: 0 <= k < l < |at| ==> at[k] < at[l]
      invariant forall x: nat :: x in at <==> x < i && Qualifies(entries[x])
    {
      var e := entries[i];
      if !IsLocal(e.fsType) || "/dev/loop" <= e.device {
        continue;
      }
      local := local + [e];
      at := at + [i];
    }
  }

  /** A stable sort by path length. */
  method SortByLength(s: seq<Entry>, ghost table: seq<Entry>, ghost from: seq<nat>)
    returns (r: seq<Entry>, ghost at: seq<nat>)
    requires |s| == |from|
    requires forall i :: 0 <= i < |from| ==> from[i] < |table| && s[i] == table[from[i]]
    requires forall i, j :: 0 <= i < j < |from| ==> from[i] < from[j]
    ensures InOrder(table, at) && r == Pick(table, at)
    ensures forall x :: x in at <==> x in from
  {
    r, at := [], [];
    for n := 0 to |s|
      invariant InOrder(table, at) && r == Pick(table, at)
      invariant forall x :: x in at <==> x in from[..n]
    {
      var e := s[n];
      var k := |r|;
      while k > 0 && |e.path| < |r[k - 1].path|
        invariant 0 <= k <= |r|
        invariant forall i :: k <= i < |r| ==> |e.path| < |r[i].path|
      {
        k := k - 1;
      }
      assert forall i :: 0 <= i < |at| ==> r[i] == table[at[i]];
      EarlierThan(from, n, at);
      InsertInOrder(table, at, k, from[n]);
      r := r[..k] + [e] + r[k..];
      at := at[..k] + [from[n]] + at[k..];
      assert from[..n + 1] == from[..n] + [from[n]];
    }
    assert from[..|s|] == from;
  }

  lemma {:induction false} EarlierThan(from: seq<nat>, n: nat, at: seq<nat>)
    requires n < |from| && forall i, j :: 0 <= i < j < |from| ==> from[i] < from[j]
    requires forall x :: x in at <==> x in from[..n]
    ensures forall i :: 0 <= i < |at| ==> at[i] < from[n]
  {
    forall i | 0 <= i < |at|
      ensures at[i] < from[n]
    {
      assert at[i] in at;
      var j :| 0 <= j < |from[..n]| && from[..n][j] == at[i];
      assert from[j] < from[n];
    }
  }

  lemma {:induction false} InsertInOrder(table: seq<Entry>, at: seq<nat>, k: nat, x: nat)
    requires InOrder(table, at) && k <= |at| && x < |table|
    requires forall i :: 0 <= i < |at| ==> at[i] < x
    requires k > 0 ==> |table[at[k - 1]].path| <= |table[x].path|
    requires forall i :: k <= i < |at| ==> |table[x].path| < |table[at[i]].path|
    ensures var at' := at[..k] + [x] + at[k..];
            && InOrder(table, at')
            && Pick(table, at') == Pick(table, at)[..k] + [table[x]] + Pick(table, at)[k..]
            && forall y :: y in at' <==> y in at || y == x
  {
    InsertElements(at, k, x);
    InsertStaysInOrder(table, at, k, x);
    InsertPicks(table, at, k, x);
  }

  lemma {:induction false} InsertPicks(table: seq<Entry>, at: seq<nat>, k: nat, x: nat)
    requires InOrder(table, at) && k <= |at| && x < |table|
    requires InOrder(table, at[..k] + [x] + at[k..])
    ensures Pick(table, at[..k] + [x] + at[k..]) == Pick(table, at)[..k] + [table[x]] + Pick(table, at)[k..]
  {}

  lemma {:induction false} InsertStaysInOrder(table: seq<Entry>, at: seq<nat>, k: nat, x: nat)
    requires InOrder(table, at) && k <= |at| && x < |table|
    requires forall i :: 0 <= i < |at| ==> at[i] < x
    requires k > 0 ==> |table[at[k - 1]].path| <= |table[x].path|
    requires forall i :: k <= i < |at| ==> |table[x].path| < |table[at[i]].path|
    ensures InOrder(table, at[..k] + [x] + at[k..])
  {
    var at' := at[..k] + [x] + at[k..];
    forall i | 0 <= i < k
      ensures Before(table, at[i], x)
    {
      assert i < k - 1 ==> Before(table, at[i], at[k - 1]);
    }
    forall i | k <= i < |at|
      ensures Before(table, x, at[i])
    {}
    hide Before;
    assert forall i :: 0 <= i < |at'| ==> at'[i] == if i < k then at[i] else if i == k then x else at[i - 1];
  }

  /** The positions whose device was not seen before them. */
  ghost function FirstSeen(table: seq<Entry>, at: seq<nat>): (r: seq<nat>)
    requires forall i :: 0 <= i < |at| ==> at[i] < |table|
    ensures |r| <= |at|
    ensures forall i :: 0 <= i < |r| ==> r[i] < |table|
  {
    if at == [] then []
    else
      var n := |at| - 1;
      var before := FirstSeen(table, at[..n]);
      if table[at[n]].device in Devices(table, at[..n]) then before else before + [at[n]]
  }

  function Devices(table: seq<Entry>, at: seq<nat>): set<string>
    requires forall i :: 0 <= i < |at| ==> at[i] < |table|
  {
    set i | 0 <= i < |at| :: table[at[i]].device
  }

  /** The pass over the sorted entries, in place: position i is read, position
      kept <= i is written. */
  method Dedup(a: array<Entry>, ghost table: seq<Entry>, ghost at: seq<nat>) returns (kept: nat)
    requires InOrder(table, at) && a[..] == Pick(table, at)
    modifies a
    ensures kept <= a.Length && a[..kept] == Pick(table, FirstSeen(table, at))
  {
    hide FirstSeen, Devices, Before;
    assert FirstSeen(table, []) == [] && Devices(table, []) == {} by { NothingSeen(table); }
    kept := 0;
    var seen: set<string> := {};
    for i := 0 to a.Length
      invariant kept <= i
      invariant a[..kept] == Pick(table, FirstSeen(table, at[..i]))
      invariant a[i..] == Pick(table, at)[i..]
      invariant seen == Devices(table, at[..i])
    {
      var e := a[i];
      assert e == a[i..][0] == table[at[i]];
      OneMorePosition(table, at, i);
      if e.device in seen {
        continue;
      }
      seen := seen + {e.device};
      a[kept] := e;
      kept := kept + 1;
      assert a[..kept] == a[..kept - 1] + [e];
    }
    assert at[..a.Length] == at;
  }

  lemma {:induction false} NothingSeen(table: seq<Entry>)
    ensures FirstSeen(table, []) == [] && Devices(table, []) == {}
  {}

  lemma {:induction false} OneMorePosition(table: seq<Entry>, at: seq<nat>, i: nat)
    requires InOrder(table, at) && i < |at|
    ensures Devices(table, at[..i + 1]) == Devices(table, at[..i]) + {table[at[i]].device}
    ensures var before, e := FirstSeen(table, at[..i]), table[at[i]];
            && FirstSeen(table, at[..i + 1]) ==
               (if e.device in Devices(table, at[..i]) then before else before + [at[i]])
            && Pick(table, FirstSeen(table, at[..i + 1])) ==
               (if e.device in Devices(table, at[..i]) then Pick(table, before) else Pick(table, before) + [e])
  {
    assert at[..i + 1][..i] == at[..i] && at[..i + 1][i] == at[i];
    assert forall k :: 0 <= k < i ==> at[..i + 1][k] == at[..i][k];
    var all := Devices(table, at[..i + 1]);
    forall d | d in Devices(table, at[..i])
      ensures d in all
    {
      var k :| 0 <= k < |at[..i]| && table[at[..i][k]].device == d;
      assert table[at[..i + 1][k]].device == d;
    }
  }

  /** What is kept: the positions with no earlier one of the same device, in order. */
  lemma {:induction false} FirstSeenIsSelection(table: seq<Entry>, at: seq<nat>)
    requires InOrder(table, at)
    ensures var r := FirstSeen(table, at);
            && InOrder(table, r)
            && forall x: nat :: x in r <==> x in at && NoEarlier(table, at, x)
  {
    if at != [] {
      var n := |at| - 1;
      FirstSeenIsSelection(table, at[..n]);
      var before := FirstSeen(table, at[..n]);
      assert at == at[..n] + [at[n]];
      forall x: nat
        ensures x in FirstSeen(table, at) <==> x in at && NoEarlier(table, at, x)
      {
        NoEarlierSnoc(table, at, x);
      }
      forall i | 0 <= i < |before|
        ensures Before(table, before[i], at[n])
      {
        assert before[i] in before;
        var j :| 0 <= j < |at[..n]| && at[..n][j] == before[i];
        assert Before(table, at[j], at[n]);
      }
    }
  }

  /** No position in the list before x has x's device. */
  ghost predicate NoEarlier(table: seq<Entry>, at: seq<nat>, x: nat)
    requires InOrder(table, at)
  {
    x < |table| && forall i :: 0 <= i < |at| && table[at[i]].device == table[x].device ==>
      at[i] == x || Before(table, x, at[i])
  }

  lemma {:induction false} NoEarlierSnoc(table: seq<Entry>, at: seq<nat>, x: nat)
    requires InOrder(table, at) && at != []
    ensures var n := |at| - 1;
            && InOrder(table, at[..n])
            && (x in at[..n] ==> (NoEarlier(table, at, x) <==> NoEarlier(table, at[..n], x)))
            && (NoEarlier(table, at, at[n]) <==> table[at[n]].device !in Devices(table, at[..n]))
            && at[n] !in at[..n]
  {}

  /** The whole of it: the result is the selection, and the table is untouched. */
  method LocalFilesystems(entries: array<Entry>) returns (unique: seq<Entry>)
    ensures Selected(entries[..], unique)
  {
    ghost var table := entries[..];
    var local, from := Filter(entries);
    var sorted, order := SortByLength(local, table, from);
    var a := new Entry[|sorted|](i requires 0 <= i < |sorted| => sorted[i]);
    assert a[..] == sorted;
    var kept := Dedup(a, table, order);
    unique := a[..kept];
    FirstSeenIsSelection(table, order);
    AllQualifying(table, order);
    assert IsSelection(table, FirstSeen(table, order), unique);
  }

  lemma {:induction false} AllQualifying(table: seq<Entry>, order: seq<nat>)
    requires InOrder(table, order)
    requires forall x: nat :: x in order <==> x < |table| && Qualifies(table[x])
    ensures forall x: nat :: x in order && NoEarlier(table, order, x) <==> Chosen(table, x)
  {}
}
