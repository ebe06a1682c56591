/**
 The Docker collector as an object: its two maps, updated in place by rounds.
 The replies of a round are the results its goroutines left behind (module
 FanOut); publishing appends to a ghost log.
 */
module DockerCollector {
  import opened Text
  import opened DockerStats
  import opened DockerModel

  datatype ListReply = ListFailed | ListOk(list: seq<Container>, replies: seq<Reply>)

  function Ids(list: seq<Container>): set<string>
  {
    set i | 0 <= i < |list| :: list[i].id
  }

  ghost predicate IsRound(rows: seq<Row>, prev: map<string, Sample>, list: seq<Container>, replies: seq<Reply>)
    requires |list| == |replies|
  {
    |rows| == |list| && forall i :: 0 <= i < |rows| ==> rows[i] == RowAt(prev, list, replies, i)
  }

  class Collector {
    var prevStats: map<string, Sample>
    var detailsFailing: set<string>

    ghost var history: History
    ghost var published: seq<seq<Row>>

    /** The maps are what the history of rounds leaves. */
    ghost predicate Valid()
      reads this
    {
      Memory(prevStats, detailsFailing) == After(history)
    }

    constructor ()
      ensures Valid() && history == [] && published == []
    {
      prevStats, detailsFailing, history, published := map[], {}, [], [];
    }

    /** Differences one sample against the stored one, and stores it. */
    method FillStats(id: string, s: Sample) returns (cpu: Option<real>)
      modifies this`prevStats
      ensures cpu == if id in old(prevStats) then CPUPercent(old(prevStats)[id], s) else None
      ensures prevStats == old(prevStats)[id := s]
    {
      cpu := None;
      if id in prevStats {
        cpu := CPUPercent(prevStats[id], s);
      }
      prevStats := prevStats[id := s];
    }

    method PrunePrev(running: set<string>)
      modifies this`prevStats
      ensures prevStats == map id | id in old(prevStats) && id in running :: old(prevStats)[id]
    {
      var unchecked := prevStats.Keys;
      while unchecked != {}
        invariant unchecked <= prevStats.Keys
        invariant forall id :: id in prevStats <==> id in old(prevStats) && (id in unchecked || id in running)
        invariant forall id :: id in prevStats ==> prevStats[id] == old(prevStats)[id]
        decreases |unchecked|
      {
        var id :| id in unchecked;
        unchecked := unchecked - {id};
        if id !in running {
          prevStats := prevStats - {id};
        }
      }
    }

    method PruneFailing(listed: set<string>)
      modifies this`detailsFailing
      ensures detailsFailing == old(detailsFailing) * listed
    {
      var unchecked := detailsFailing;
      while unchecked != {}
        invariant unchecked <= detailsFailing
        invariant forall id :: id in detailsFailing <==> id in old(detailsFailing) && (id in unchecked || id in listed)
        decreases |unchecked|
      {
        var id :| id in unchecked;
        unchecked := unchecked - {id};
        if id !in listed {
          detailsFailing := detailsFailing - {id};
        }
      }
    }

    /** Merges one container's result into the maps and its row. */
    method Merge(c: Container, r: Reply) returns (row: Row)
      requires if HasStats(c.state) then !r.Exit? else !r.Stats?
      modifies this`prevStats, this`detailsFailing
      ensures row == Row(c, r.Failed?, if ReadRunning(c, r) && c.id in old(prevStats)
                                       then CPUPercent(old(prevStats)[c.id], r.sample) else None)
      ensures prevStats == if ReadRunning(c, r) then old(prevStats)[c.id := r.sample] else old(prevStats)
      ensures detailsFailing == if r.Failed? then old(detailsFailing) + {c.id} else old(detailsFailing) - {c.id}
    {
      row := Row(c, r.Failed?, None);
      if r.Failed? {
        if c.id !in detailsFailing {
          detailsFailing := detailsFailing + {c.id};
        }
        return;
      }
      if c.id in detailsFailing {
        detailsFailing := detailsFailing - {c.id};
      }
      if !HasStats(c.state) || !r.sample.running {
        return;
      }
      var cpu := FillStats(c.id, r.sample);
      row := row.(cpu := cpu);
    }

    /** Merges the joined results, then prunes to what this round saw. */
    method WithDetails(list: seq<Container>, replies: seq<Reply>) returns (rows: seq<Row>)
      requires Answers(list, replies)
      modifies this`prevStats, this`detailsFailing
      ensures prevStats == RunningSamples(list, replies)
      ensures detailsFailing == FailedIds(list, replies)
      ensures IsRound(rows, old(prevStats), list, replies)
    {
      hide RunningSamples, FailedIds, Ids, CPUPercent;
      rows := [];
      var listed: set<string>, running: set<string> := {}, {};
      Start();
      for i := 0 to |list|
        invariant |rows| == i
        invariant forall j :: 0 <= j < i ==> rows[j] == RowAt(old(prevStats), list, replies, j)
        invariant prevStats == old(prevStats) + RunningSamples(list[..i], replies[..i])
        invariant running == RunningSamples(list[..i], replies[..i]).Keys
        invariant listed == Ids(list[..i])
        invariant detailsFailing == (old(detailsFailing) - listed) + FailedIds(list[..i], replies[..i])
        invariant FailedIds(list[..i], replies[..i]) <= listed
      {
        OneMore(list, replies, i);
        listed := listed + {list[i].id};
        if ReadRunning(list[i], replies[i]) {
          running := running + {list[i].id};
        }
        var row := Merge(list[i], replies[i]);
        rows := rows + [row];
      }
      assert list[..|list|] == list && replies[..|list|] == replies;
      PrunePrev(running);
      PruneFailing(listed);
    }

    /** The first reading: a round that is merged but not published. */
    method PrimeCPU(reply: ListReply)
      requires Valid() && (reply.ListOk? ==> Answers(reply.list, reply.replies))
      modifies this`prevStats, this`detailsFailing, this`history
      ensures Valid()
      ensures history == old(history) + [if reply.ListOk? then Listed(reply.list, reply.replies) else Unlisted]
    {
      if reply.ListFailed? {
        AfterSnoc(history, Unlisted);
        history := history + [Unlisted];
        return;
      }
      var _ := WithDetails(reply.list, reply.replies);
      AfterSnoc(history, Listed(reply.list, reply.replies));
      history := history + [Listed(reply.list, reply.replies)];
    }

    /** One tick. A shutdown seen after the reads suppresses the event. */
    method CollectAndPublish(reply: ListReply, shutdown: bool)
      requires Valid() && (reply.ListOk? ==> Answers(reply.list, reply.replies))
      modifies this
      ensures Valid()
      ensures history == old(history) + [if reply.ListOk? then Listed(reply.list, reply.replies) else Unlisted]
      ensures shutdown ==> published == old(published)
      ensures !shutdown ==>
                && |published| == |old(published)| + 1 && published[..|old(published)|] == old(published)
                && var rows := published[|old(published)|];
                && (reply.ListFailed? ==> rows == [])
                && (reply.ListOk? ==> IsRound(rows, After(old(history)).prevStats, reply.list, reply.replies))
    {
      var rows := [];
      if reply.ListOk? {
        rows := WithDetails(reply.list, reply.replies);
        AfterSnoc(history, Listed(reply.list, reply.replies));
        history := history + [Listed(reply.list, reply.replies)];
      } else {
        AfterSnoc(history, Unlisted);
        history := history + [Unlisted];
      }
      if shutdown {
        return;
      }
      published := published + [rows];
    }

    /** Reads every running container once more and keeps the samples the coming
        tick could not do without. */
    method PreReadCPU(reply: ListReply)
      requires Valid() && (reply.ListOk? ==> Answers(reply.list, reply.replies))
      modifies this`prevStats, this`history
      ensures Valid()
      ensures history == old(history) + [if reply.ListOk? then PreRead(reply.list, reply.replies) else Unlisted]
    {
      if reply.ListFailed? {
        AfterSnoc(history, Unlisted);
        history := history + [Unlisted];
        return;
      }
      KeepNeeded(reply.list, reply.replies);
      AfterSnoc(history, PreRead(reply.list, reply.replies));
      history := history + [PreRead(reply.list, reply.replies)];
    }

    method KeepNeeded(list: seq<Container>, replies: seq<Reply>)
      requires Answers(list, replies)
      modifies this`prevStats
      ensures prevStats == PreReadStore(old(prevStats), list, replies)
    {
      for i := 0 to |list|
        invariant prevStats == PreReadStore(old(prevStats), list[..i], replies[..i])
      {
        assert list[..i + 1][..i] == list[..i] && replies[..i + 1][..i] == replies[..i];
        var c, r := list[i], replies[i];
        if !HasStats(c.state) || r.Failed? || !r.sample.running {
          continue;
        }
        if c.id in prevStats {
          var pct := CPUPercent(prevStats[c.id], r.sample);
          if pct.Some? {
            continue;
          }
        }
        prevStats := prevStats[c.id := r.sample];
      }
      assert list[..|list|] == list && replies[..|list|] == replies;
    }
  }

  lemma {:induction false} Start()
    ensures RunningSamples([], []) == map[] && FailedIds([], []) == {} && Ids([]) == {}
  {}

  lemma {:induction false} OneMore(list: seq<Container>, replies: seq<Reply>, i: nat)
    requires |list| == |replies| && i < |list|
    ensures var c, r := list[i], replies[i];
            var before := RunningSamples(list[..i], replies[..i]);
            && RunningSamples(list[..i + 1], replies[..i + 1]) ==
               (if ReadRunning(c, r) then before[c.id := r.sample] else before)
            && FailedIds(list[..i + 1], replies[..i + 1]) ==
               (if r.Failed? then FailedIds(list[..i], replies[..i]) + {c.id}
                else FailedIds(list[..i], replies[..i]) - {c.id})
            && Ids(list[..i + 1]) == Ids(list[..i]) + {c.id}
  {
    assert list[..i + 1][..i] == list[..i] && replies[..i + 1][..i] == replies[..i];
    assert list[..i + 1][i] == list[i];
    forall id | id in Ids(list[..i])
      ensures id in Ids(list[..i + 1])
    {
      var k :| 0 <= k < |list[..i]| && list[..i][k].id == id;
      assert list[..i + 1][k].id == id;
    }
  }
}
