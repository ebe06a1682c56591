/**
 The Docker collector's memory across rounds: the sample each container's CPU
 is differenced against, and the containers whose read failed.
 */
module DockerModel {
  import opened Text
  import opened DockerStats

  datatype Container = Container(id: string, state: string)

  /** What reading one container's stats or last exit came back with. */
  datatype Reply = Failed | Stats(sample: Sample) | Exit(code: int)

  /** One published container: its metadata, whether its read failed, and its CPU. */
  datatype Row = Row(container: Container, failed: bool, cpu: Option<real>)

  /** Docker keeps stats for running and paused containers. */
  predicate HasStats(state: string)
  {
    state == "running" || state == "paused"
  }

  /** Running and paused containers are asked for their stats, all others for
      their last exit. */
  ghost predicate Answers(list: seq<Container>, replies: seq<Reply>)
  {
    && |list| == |replies|
    && forall i :: 0 <= i < |list| ==>
         if list[i].state in {"running", "paused"} then !replies[i].Exit? else !replies[i].Stats?
  }

  predicate ReadRunning(c: Container, r: Reply)
  {
    HasStats(c.state) && r.Stats? && r.sample.running
  }

  ghost predicate UniqueIds(list: seq<Container>)
  {
    forall i, j :: 0 <= i < j < |list| ==> list[i].id != list[j].id
  }

  /** The samples a listed round leaves behind. */
  function RunningSamples(list: seq<Container>, replies: seq<Reply>): map<string, Sample>
    requires |list| == |replies|
  {
    if list == [] then map[]
    else
      var n := |list| - 1;
      var before := RunningSamples(list[..n], replies[..n]);
      if ReadRunning(list[n], replies[n]) then before[list[n].id := replies[n].sample] else before
  }

  /** The ids whose last read in a round failed. */
  function FailedIds(list: seq<Container>, replies: seq<Reply>): set<string>
    requires |list| == |replies|
  {
    if list == [] then {}
    else
      var n := |list| - 1;
      var before := FailedIds(list[..n], replies[..n]);
      if replies[n].Failed? then before + {list[n].id} else before - {list[n].id}
  }

  /** The published row of container i, when prev was known before the round. */
  function RowAt(prev: map<string, Sample>, list: seq<Container>, replies: seq<Reply>, i: nat): Row
    requires |list| == |replies| && i < |list|
  {
    var c, r := list[i], replies[i];
    var known := prev + RunningSamples(list[..i], replies[..i]);
    Row(c, r.Failed?,
        if ReadRunning(c, r) && c.id in known then CPUPercent(known[c.id], r.sample) else None)
  }

  /** A pre-read keeps a sample only where the stored one cannot be differenced against it. */
  function PreReadStore(prev: map<string, Sample>, list: seq<Container>, replies: seq<Reply>): map<string, Sample>
    requires |list| == |replies|
  {
    if list == [] then prev
    else
      var n := |list| - 1;
      var c, r := list[n], replies[n];
      var now := PreReadStore(prev, list[..n], replies[..n]);
      if !ReadRunning(c, r) then now
      else if c.id in now && Differenced(now[c.id], r.sample) then now
      else now[c.id := r.sample]
  }

  // ---------------------------------------------------------------------
  // With unique ids, a round leaves exactly what it read
  // ---------------------------------------------------------------------

  ghost predicate ReadIn(list: seq<Container>, replies: seq<Reply>, id: string)
    requires |list| == |replies|
  {
    exists i :: 0 <= i < |list| && list[i].id == id && ReadRunning(list[i], replies[i])
  }

  lemma {:induction false} ReadInLonger(list: seq<Container>, replies: seq<Reply>, n: nat, id: string)
    requires |list| == |replies| && n <= |list| && ReadIn(list[..n], replies[..n], id)
    ensures ReadIn(list, replies, id)
  {}

  lemma {:induction false} RunningSamplesAreThisRounds(list: seq<Container>, replies: seq<Reply>)
    requires |list| == |replies| && UniqueIds(list)
    ensures var m := RunningSamples(list, replies);
            && (forall i :: 0 <= i < |list| && ReadRunning(list[i], replies[i]) ==>
                  list[i].id in m && m[list[i].id] == replies[i].sample)
            && forall id :: id in m ==> ReadIn(list, replies, id)
  {
    if list != [] {
      var n := |list| - 1;
      assert UniqueIds(list[..n]);
      RunningSamplesAreThisRounds(list[..n], replies[..n]);
      var m, before := RunningSamples(list, replies), RunningSamples(list[..n], replies[..n]);
      forall id | id in m
        ensures ReadIn(list, replies, id)
      {
        if id in before {
          ReadInLonger(list, replies, n, id);
        }
      }
      forall i | 0 <= i < |list| && ReadRunning(list[i], replies[i])
        ensures list[i].id in m && m[list[i].id] == replies[i].sample
      {
        if i < n {
          assert ReadRunning(list[..n][i], replies[..n][i]);
        }
      }
    }
  }

  lemma {:induction false} FailedIdsAreThisRounds(list: seq<Container>, replies: seq<Reply>)
    requires |list| == |replies| && UniqueIds(list)
    ensures FailedIds(list, replies) == set i | 0 <= i < |list| && replies[i].Failed? :: list[i].id
  {
    if list != [] {
      var n := |list| - 1;
      assert UniqueIds(list[..n]);
      FailedIdsAreThisRounds(list[..n], replies[..n]);
      var before := set i | 0 <= i < n && replies[i].Failed? :: list[i].id;
      assert FailedIds(list[..n], replies[..n]) == before;
      assert list[n].id !in before;
    }
  }

  // ---------------------------------------------------------------------
  // Whole histories
  // ---------------------------------------------------------------------

  /** A round that listed the containers, published or not, a pre-read, or any of
      them failing at the list. */
  datatype Happening =
    | Listed(list: seq<Container>, replies: seq<Reply>)
    | PreRead(list: seq<Container>, replies: seq<Reply>)
    | Unlisted

  datatype Memory = Memory(prevStats: map<string, Sample>, detailsFailing: set<string>)

  type History = h: seq<Happening> | forall i :: 0 <= i < |h| && !h[i].Unlisted? ==> Answers(h[i].list, h[i].replies)

  function Step(m: Memory, e: Happening): Memory
    requires e.Unlisted? || |e.list| == |e.replies|
  {
    match e
    case Listed(list, replies) => Memory(RunningSamples(list, replies), FailedIds(list, replies))
    case PreRead(list, replies) => m.(prevStats := PreReadStore(m.prevStats, list, replies))
    case Unlisted => m
  }

  function After(h: History): Memory
  {
    if h == [] then Memory(map[], {}) else Step(After(h[..|h| - 1]), h[|h| - 1])
  }

  /** Happening e read id as running with this sample. */
  ghost predicate Read(e: Happening, id: string, s: Sample)
  {
    && !e.Unlisted? && |e.list| == |e.replies|
    && exists i :: 0 <= i < |e.list| && e.list[i].id == id && ReadRunning(e.list[i], e.replies[i]) && e.replies[i].sample == s
  }

  /** The sample was read at j, and no round has listed the containers since. */
  ghost predicate CurrentSince(h: History, j: nat, id: string, s: Sample)
  {
    j < |h| && Read(h[j], id, s) && forall k :: j < k < |h| ==> !h[k].Listed?
  }

  lemma {:induction false} RunningSampleWasRead(e: Happening, n: nat, id: string)
    requires !e.Unlisted? && |e.list| == |e.replies| && n <= |e.list|
    requires id in RunningSamples(e.list[..n], e.replies[..n])
    ensures Read(e, id, RunningSamples(e.list[..n], e.replies[..n])[id])
  {
    var list, replies := e.list[..n], e.replies[..n];
    var last := n - 1;
    assert list[..last] == e.list[..last] && replies[..last] == e.replies[..last];
    if ReadRunning(list[last], replies[last]) && list[last].id == id {
      assert e.list[last].id == id && ReadRunning(e.list[last], e.replies[last]);
    } else {
      RunningSampleWasRead(e, last, id);
    }
  }

  lemma {:induction false} StoredSampleWasRead(prev: map<string, Sample>, e: Happening, n: nat, id: string)
    requires !e.Unlisted? && |e.list| == |e.replies| && n <= |e.list|
    requires id in PreReadStore(prev, e.list[..n], e.replies[..n])
    ensures var m := PreReadStore(prev, e.list[..n], e.replies[..n]);
            (id in prev && m[id] == prev[id]) || Read(e, id, m[id])
  {
    if n > 0 {
      var last := n - 1;
      var list, replies := e.list[..n], e.replies[..n];
      assert list[..last] == e.list[..last] && replies[..last] == e.replies[..last];
      var now := PreReadStore(prev, list[..last], replies[..last]);
      if id in now {
        StoredSampleWasRead(prev, e, last, id);
      }
      if ReadRunning(list[last], replies[last]) && list[last].id == id {
        assert e.list[last].id == id && ReadRunning(e.list[last], e.replies[last]);
      }
    }
  }

  /** Every stored baseline was read in the last listed round or in a pre-read
      since it, never earlier. */
  lemma {:induction false} BaselinesAreCurrent(h: History, id: string) returns (j: nat)
    requires id in After(h).prevStats
    ensures CurrentSince(h, j, id, After(h).prevStats[id])
  {
    var n := |h| - 1;
    var e, before := h[n], After(h[..n]);
    if !e.Unlisted? {
      assert e.list[..|e.list|] == e.list && e.replies[..|e.list|] == e.replies;
    }
    match e
    case Listed(list, replies) =>
      RunningSampleWasRead(e, |list|, id);
      j := n;
    case PreRead(list, replies) =>
      StoredSampleWasRead(before.prevStats, e, |list|, id);
      if Read(e, id, After(h).prevStats[id]) {
        j := n;
      } else {
        j := BaselinesAreCurrent(h[..n], id);
      }
    case Unlisted =>
      j := BaselinesAreCurrent(h[..n], id);
  }

  /** Hence every published CPU percentage is differenced against such a sample. */
  lemma {:induction false} PublishedCPUHasCurrentBaseline(h: History, tick: Happening, i: nat) returns (j: nat, s: Sample)
    requires tick.Listed? && Answers(tick.list, tick.replies) && UniqueIds(tick.list) && i < |tick.list|
    requires RowAt(After(h).prevStats, tick.list, tick.replies, i).cpu.Some?
    ensures CurrentSince(h, j, tick.list[i].id, s)
    ensures ReadRunning(tick.list[i], tick.replies[i])
    ensures RowAt(After(h).prevStats, tick.list, tick.replies, i).cpu == CPUPercent(s, tick.replies[i].sample)
  {
    var id := tick.list[i].id;
    NotReadBefore(tick.list, tick.replies, i);
    j := BaselinesAreCurrent(h, id);
    s := After(h).prevStats[id];
  }

  /** With unique ids a container's row is differenced against what was known
      before the round. */
  lemma {:induction false} NotReadBefore(list: seq<Container>, replies: seq<Reply>, i: nat)
    requires |list| == |replies| && UniqueIds(list) && i < |list|
    ensures list[i].id !in RunningSamples(list[..i], replies[..i])
  {
    assert UniqueIds(list[..i]);
    RunningSamplesAreThisRounds(list[..i], replies[..i]);
  }

  /** A listed round remembers exactly its own reads: the ids read as running,
      each with this round's sample, and the ids whose read failed. Nothing of
      the history before it survives. */
  lemma {:induction false} ListedRoundRemembersOnlyItself(h: History, e: Happening)
    requires e.Listed? && Answers(e.list, e.replies) && UniqueIds(e.list)
    ensures var m := After(h + [e]);
            && (forall id, s :: id in m.prevStats && m.prevStats[id] == s <==> Read(e, id, s))
            && m.detailsFailing == set i | 0 <= i < |e.list| && e.replies[i].Failed? :: e.list[i].id
  {
    AfterSnoc(h, e);
    RunningSamplesAreThisRounds(e.list, e.replies);
    FailedIdsAreThisRounds(e.list, e.replies);
    var m := RunningSamples(e.list, e.replies);
    forall id | id in m
      ensures Read(e, id, m[id])
    {
      assert ReadIn(e.list, e.replies, id);
    }
  }

  lemma {:induction false} AfterSnoc(h: History, e: Happening)
    requires e.Unlisted? || Answers(e.list, e.replies)
    ensures After(h + [e]) == Step(After(h), e)
  {}

  /** A container Docker keeps stats for, read as running in this round. */
  predicate FoundRunning(c: Container, r: Reply)
  {
    c.state in {"running", "paused"} && r.Stats? && r.sample.running
  }

  /** A tick publishes a container's CPU if and only if it read the container as
      running, paused ones included, and holds a sample of it to which the window
      is usable. */
  lemma {:induction false} PublishesCPUExactlyWhen(h: History, tick: Happening, i: nat)
    requires tick.Listed? && Answers(tick.list, tick.replies) && UniqueIds(tick.list) && i < |tick.list|
    ensures var m, c, r := After(h).prevStats, tick.list[i], tick.replies[i];
            RowAt(m, tick.list, tick.replies, i).cpu.Some? <==>
              FoundRunning(c, r) && c.id in m && Usable(m[c.id], r.sample)
  {
    NotReadBefore(tick.list, tick.replies, i);
    var m, c, r := After(h).prevStats, tick.list[i], tick.replies[i];
    if FoundRunning(c, r) && c.id in m {
      DifferencedExactlyWhenUsable(m[c.id], r.sample);
    }
  }

  /** Right after a listed round that is: if and only if both rounds read it as
      running and the window between the two samples is usable. */
  lemma {:induction false} TwoRoundsPublishCPUExactlyWhen(h: History, e: Happening, tick: Happening, i: nat)
    requires e.Listed? && Answers(e.list, e.replies) && UniqueIds(e.list)
    requires tick.Listed? && Answers(tick.list, tick.replies) && UniqueIds(tick.list) && i < |tick.list|
    ensures var c, r := tick.list[i], tick.replies[i];
            RowAt(After(h + [e]).prevStats, tick.list, tick.replies, i).cpu.Some? <==>
              FoundRunning(c, r) && exists s :: Read(e, c.id, s) && Usable(s, r.sample)
  {
    hide RowAt, After, Usable, Read, FoundRunning;
    PublishesCPUExactlyWhen(h + [e], tick, i);
    ListedRoundRemembersOnlyItself(h, e);
  }

  /** A row is its container's, marked as failed exactly when its read failed in
      this very round, which is when the id is remembered as failing. */
  lemma {:induction false} RowsTellTheRound(h: History, tick: Happening, i: nat)
    requires tick.Listed? && Answers(tick.list, tick.replies) && UniqueIds(tick.list) && i < |tick.list|
    ensures var row := RowAt(After(h).prevStats, tick.list, tick.replies, i);
            var m := After(h + [tick]);
            && row.container == tick.list[i]
            && (row.failed <==> tick.replies[i] == Failed)
            && (row.failed <==> tick.list[i].id in m.detailsFailing)
            && (FoundRunning(tick.list[i], tick.replies[i]) <==> tick.list[i].id in m.prevStats)
  {
    var id := tick.list[i].id;
    ListedRoundRemembersOnlyItself(h, tick);
    assert tick.replies[i].Failed? ==> id in After(h + [tick]).detailsFailing;
    if ReadRunning(tick.list[i], tick.replies[i]) {
      assert Read(tick, id, tick.replies[i].sample);
    }
    if id in After(h + [tick]).prevStats {
      assert Read(tick, id, After(h + [tick]).prevStats[id]);
    }
  }

  // ---------------------------------------------------------------------
  // What the pre-read buys
  // ---------------------------------------------------------------------

  /** After a pre-read that got sample p of a container, p itself is stored, or
      an older sample that p can be differenced against. */
  lemma {:induction false} PreReadStores(prev: map<string, Sample>, list: seq<Container>, replies: seq<Reply>, i: nat)
    requires |list| == |replies| && UniqueIds(list) && i < |list| && ReadRunning(list[i], replies[i])
    ensures var m := PreReadStore(prev, list, replies);
            var id, p := list[i].id, replies[i].sample;
            && id in m
            && if id in prev && Differenced(prev[id], p) then m[id] == prev[id] else m[id] == p
  {
    var n := |list| - 1;
    assert UniqueIds(list[..n]);
    if i < n {
      PreReadStores(prev, list[..n], replies[..n], i);
    } else {
      PreReadLeavesOthers(prev, list[..n], replies[..n], list[i].id);
    }
  }

  /** Ids a pre-read does not read as running keep what was stored. */
  lemma {:induction false} PreReadLeavesOthers(prev: map<string, Sample>, list: seq<Container>, replies: seq<Reply>, id: string)
    requires |list| == |replies| && forall i :: 0 <= i < |list| && list[i].id == id ==> !FoundRunning(list[i], replies[i])
    ensures var m := PreReadStore(prev, list, replies);
            (id in m <==> id in prev) && (id in prev ==> m[id] == prev[id])
  {
    if list != [] {
      var n := |list| - 1;
      PreReadLeavesOthers(prev, list[..n], replies[..n], id);
    }
  }

  lemma {:induction false} UnlistedChangeNothing(h: History, failed: History)
    requires forall i :: 0 <= i < |failed| ==> failed[i].Unlisted?
    ensures After(h + failed) == After(h)
  {
    if failed == [] {
      assert h + failed == h;
    } else {
      assert (h + failed)[..|h + failed| - 1] == h + failed[..|failed| - 1];
      UnlistedChangeNothing(h, failed[..|failed| - 1]);
    }
  }

  lemma {:induction false} RowWithBaseline(prev: map<string, Sample>, list: seq<Container>, replies: seq<Reply>, i: nat)
    requires |list| == |replies| && UniqueIds(list) && i < |list| && ReadRunning(list[i], replies[i])
    requires list[i].id in prev
    ensures RowAt(prev, list, replies, i).cpu == CPUPercent(prev[list[i].id], replies[i].sample)
  {
    NotReadBefore(list, replies, i);
  }

  /** Pre-read guarantee. Whatever came before, if a pre-read got sample p of a
      running container and the next tick that lists the containers reads a
      sample p can be differenced with, the tick publishes its CPU, whether the
      pre-read stored p or kept an older sample. When it kept the older one, the
      percentage is the one the tick would have published without the pre-read,
      and over equal CPU counts it averages the two sub-windows. */
  lemma {:induction false} PreReadGuarantee(h: History, pre: Happening, i: nat, failed: History, tick: Happening, k: nat)
    requires pre.PreRead? && Answers(pre.list, pre.replies) && UniqueIds(pre.list)
    requires i < |pre.list| && ReadRunning(pre.list[i], pre.replies[i])
    requires forall f :: 0 <= f < |failed| ==> failed[f].Unlisted?
    requires tick.Listed? && Answers(tick.list, tick.replies) && UniqueIds(tick.list)
    requires k < |tick.list| && tick.list[k].id == pre.list[i].id && ReadRunning(tick.list[k], tick.replies[k])
    requires Differenced(pre.replies[i].sample, tick.replies[k].sample)
    ensures var id, p, now := pre.list[i].id, pre.replies[i].sample, tick.replies[k].sample;
            var without, with := After(h).prevStats, After(h + [pre] + failed).prevStats;
            var row := RowAt(with, tick.list, tick.replies, k);
            && row.cpu.Some?
            && if id in without && Differenced(without[id], p) then
                 && row.cpu == RowAt(without, tick.list, tick.replies, k).cpu
                 && row.cpu == CPUPercent(without[id], now)
                 && (p.cpus == now.cpus ==> Averages(without[id], p, now))
               else row.cpu == CPUPercent(p, now)
  {
    var id, p, now := pre.list[i].id, pre.replies[i].sample, tick.replies[k].sample;
    var without := After(h).prevStats;
    assert (h + [pre])[..|h|] == h;
    assert After(h + [pre]).prevStats == PreReadStore(without, pre.list, pre.replies);
    UnlistedChangeNothing(h + [pre], failed);
    hide CPUPercent, PreReadStore, RowAt, After, Averages;
    PreReadStores(without, pre.list, pre.replies, i);
    if id in without {
      RowWithBaseline(without, tick.list, tick.replies, k);
    }
    RowWithBaseline(PreReadStore(without, pre.list, pre.replies), tick.list, tick.replies, k);
    if id in without && Differenced(without[id], p) {
      WindowsCompose(without[id], p, now);
    }
  }
}
