/**
 The Postgres engine as an object: its counters and failing set, updated in
 place by one round after another. Log lines, sessions and the history of
 replies are ghost records; the round's own set of attempted keys is a field.
 */
module PostgresEngine {
  import opened Text
  import opened PostgresModel
  import opened PostgresRounds

  /** The published event: whether the server was reached, and its databases. */
  datatype Event = Event(connected: bool, databases: seq<DatabaseEntry>)

  class Engine {
    var prev: map<string, Sample>
    var failing: set<string>
    var seen: set<string>

    ghost var history: seq<Replies>
    ghost var log: seq<LogLine>
    ghost var actions: seq<Action>
    ghost var outcomes: seq<Outcome>  // of the current round so far

    /** Between rounds the fields are what the history leaves. */
    ghost predicate Valid()
      reads this
    {
      prev == PrevAfter(history) && failing == FailingAfter(history)
    }

    /** Within a round that began with the given failing set and log. */
    ghost predicate InRound(before: set<string>, logged: seq<LogLine>)
      reads this`failing, this`log, this`seen, this`outcomes
    {
      && failing == Track(before, outcomes)
      && log == logged + Logged(before, outcomes)
      && seen == Keys(outcomes)
    }

    constructor ()
      ensures Valid() && history == [] && log == [] && actions == []
    {
      prev, failing, seen := map[], {}, {};
      history, log, actions, outcomes := [], [], [], [];
    }

    /** Records one part's outcome and logs it when it changed. */
    method Ok(key: string, failed: bool, ghost before: set<string>, ghost logged: seq<LogLine>) returns (ok: bool)
      requires InRound(before, logged)
      modifies this`failing, this`seen, this`log, this`outcomes
      ensures ok == !failed
      ensures InRound(before, logged) && outcomes == old(outcomes) + [Outcome(key, failed)]
    {
      hide Track, Logged, Keys;
      ghost var line := Line(Track(before, outcomes), Outcome(key, failed));
      OutcomeAppended(before, outcomes, Outcome(key, failed));
      SeqAssociates(logged, Logged(before, outcomes), line);
      outcomes := outcomes + [Outcome(key, failed)];
      seen := seen + {key};
      ok := !failed;
      if failed {
        if key !in failing {
          log := log + [Warned(key)];
          failing := failing + {key};
        }
      } else if key in failing {
        log := log + [Recovered(key)];
        failing := failing - {key};
      }
      assert log == old(log) + line;
    }

    /** Forgets failures of parts this round did not attempt. */
    method Prune()
      modifies this`failing
      ensures failing == old(failing) * seen
    {
      var unchecked := failing;
      while unchecked != {}
        invariant unchecked <= failing
        invariant forall k :: k in failing <==> k in old(failing) && (k in unchecked || k in seen)
        decreases |unchecked|
      {
        var k :| k in unchecked;
        unchecked := unchecked - {k};
        if k !in seen {
          failing := failing - {k};
        }
      }
    }

    /** Opens a session, retrying only a refusal for too many connections. */
    method Connect(a: Attempts) returns (ok: bool)
      modifies this`actions
      ensures ok == Connects(a)
      ensures actions == old(actions) + ConnectActions(a)
    {
      var n := 0;
      assert Refusals(0) == [];
      while true
        invariant 0 <= n < CONNECT_ATTEMPTS
        invariant actions == old(actions) + Refusals(n)
        invariant ConnectFrom(a, 0) == (ConnectFrom(a, n).0, ConnectFrom(a, n).1 + n)
        decreases CONNECT_ATTEMPTS - n
      {
        var reply := if n < |a| then a[n] else Refused;
        if reply.Connected? || n + 1 == CONNECT_ATTEMPTS || !reply.TooMany? {
          ok := reply.Connected?;
          actions := actions + [Try(ok)];
          return;
        }
        if reply.ended {
          actions := actions + [Try(false)];
          return false;
        }
        assert Refusals(n + 1) == Refusals(n) + [Try(false)];
        actions := actions + [Try(false)];
        n := n + 1;
      }
    }

    /** Reads one database's tables over a session to it. */
    method ReadTables(row: DatabaseRow, ghost before: set<string>, ghost logged: seq<LogLine>)
      requires InRound(before, logged)
      modifies this`failing, this`seen, this`log, this`outcomes, this`actions
      ensures InRound(before, logged)
      ensures outcomes == old(outcomes) + TableOutcomes(row)
      ensures actions == old(actions) + TableActions(row)
    {
      hide InRound, ConnectActions, ConnectFrom;
      if !row.allowConn {
        return;
      }
      var connected := Connect(row.attempts);
      var ok := Ok(Key(row.name, "connect"), !connected, before, logged);
      if !ok {
        return;
      }
      actions := actions + [Query];
      var _ := Ok(Key(row.name, "largestTables"), row.largestFailed, before, logged);
      actions := actions + [Query];
      var _ := Ok(Key(row.name, "deadTuples"), row.deadFailed, before, logged);
      actions := actions + [Close];
      assert Queries(2) == [Query, Query];
    }

    /** Builds every database's entry and replaces the counters when the
        server's start is known. */
    method Databases(rows: seq<DatabaseRow>, server: Option<ServerRow>, readAt: real,
                     ghost before: set<string>, ghost logged: seq<LogLine>) returns (entries: seq<DatabaseEntry>)
      requires InRound(before, logged)
      modifies this`prev, this`failing, this`seen, this`log, this`outcomes, this`actions
      ensures InRound(before, logged)
      ensures outcomes == old(outcomes) + AllTableOutcomes(rows)
      ensures actions == old(actions) + AllTableActions(rows)
      ensures |entries| == |rows|
      ensures forall i :: 0 <= i < |rows| ==> entries[i] == EntryOf(old(prev), rows[i], server, readAt)
      ensures prev == if server.Some? then Samples(rows, server.value.started, readAt) else old(prev)
    {
      hide InRound, TableOutcomes, TableActions;
      var next: map<string, Sample> := map[];
      entries := [];
      for i := 0 to |rows|
        invariant InRound(before, logged) && prev == old(prev)
        invariant outcomes == old(outcomes) + AllTableOutcomes(rows[..i])
        invariant actions == old(actions) + AllTableActions(rows[..i])
        invariant |entries| == i
        invariant forall j :: 0 <= j < i ==> entries[j] == EntryOf(prev, rows[j], server, readAt)
        invariant server.Some? ==> next == Samples(rows[..i], server.value.started, readAt)
      {
        var row := rows[i];
        assert rows[..i + 1][..i] == rows[..i];
        var entry := DatabaseEntry(row.name, None, None);
        if row.counters.Some? && server.Some? {
          var cur := Sample(row.counters.value, readAt, server.value.started);
          if row.name in prev {
            var a := Diff(prev[row.name], cur);
            if a.Some? {
              entry := DatabaseEntry(row.name, a, CacheHitPercent(prev[row.name].counters, row.counters.value));
            }
          }
          next := next[row.name := cur];
        }
        assert entry == EntryOf(prev, row, server, readAt);
        entries := entries + [entry];
        ReadTables(row, before, logged);
      }
      assert rows[..|rows|] == rows;
      if server.Some? {
        prev := next;
      }
    }

    /** The first four parts read over the maintenance session. */
    method ReadHealth(r: Replies, ghost before: set<string>, ghost logged: seq<LogLine>)
      requires InRound(before, logged)
      modifies this`failing, this`seen, this`log, this`outcomes, this`actions
      ensures InRound(before, logged)
      ensures outcomes == old(outcomes) + HealthOutcomes(r)
      ensures actions == old(actions) + Queries(HealthQueries(r))
    {
      hide InRound;
      actions := actions + [Query];
      var _ := Ok("server", r.server.None?, before, logged);
      actions := actions + [Query];
      if !r.maxFailed {
        actions := actions + [Query];
      }
      var _ := Ok("connections", r.maxFailed || r.connectionsFailed, before, logged);
      actions := actions + [Query];
      var _ := Ok("longRunning", r.longRunningFailed, before, logged);
      actions := actions + [Query];
      var _ := Ok("blocked", r.blockedFailed, before, logged);
    }

    /** Its other three parts, after which it is closed. */
    method ReadStorage(r: Replies, ghost before: set<string>, ghost logged: seq<LogLine>)
      requires InRound(before, logged)
      modifies this`failing, this`seen, this`log, this`outcomes, this`actions
      ensures InRound(before, logged)
      ensures outcomes == old(outcomes) + StorageOutcomes(r)
      ensures actions == old(actions) + Queries(StorageQueries(r)) + [Close]
    {
      hide InRound;
      actions := actions + [Query];
      if !r.replicasFailed && IsReplica(r) {
        actions := actions + [Query];
      }
      var _ := Ok("replication", r.replicasFailed || (IsReplica(r) && r.replayFailed), before, logged);
      actions := actions + [Query];
      var _ := Ok("databases", r.databases.None?, before, logged);
      actions := actions + [Query];
      var _ := Ok("sizes", r.sizesFailed, before, logged);
      actions := actions + [Close];
    }

    /** One round. */
    method Collect(r: Replies) returns (event: Event)
      requires Valid()
      modifies this
      ensures Valid() && history == old(history) + [r]
      ensures log == old(log) + LoggedAt(history, |old(history)|)
      ensures actions == old(actions) + Actions(r)
      ensures event.connected == Connects(r.attempts)
      ensures event.connected ==> event.databases == Entries(PrevAfter(old(history)), r)
      ensures !event.connected ==> event.databases == []
    {
      ghost var before, logged := failing, log;
      seen, outcomes := {}, [];
      PrevAppended(history, r);
      HistoryAppended(history, r);
      StartRound(before, logged);
      history := history + [r];
      event := RunParts(r, before, logged);
      hide Track, Logged, Outcomes, Actions, PrevAfter, FailingAfter, Entries;
      Prune();
    }

    /** Everything a round does before its failures are pruned. */
    method RunParts(r: Replies, ghost before: set<string>, ghost logged: seq<LogLine>) returns (event: Event)
      requires InRound(before, logged) && outcomes == []
      modifies this`prev, this`failing, this`seen, this`log, this`outcomes, this`actions
      ensures InRound(before, logged) && outcomes == Outcomes(r)
      ensures actions == old(actions) + Actions(r)
      ensures prev == NextPrev(old(prev), r)
      ensures event.connected == Connects(r.attempts)
      ensures event.connected ==> event.databases == Entries(old(prev), r)
      ensures !event.connected ==> event.databases == []
    {
      hide InRound, ConnectFrom, Queries, ConnectActions, HealthOutcomes, StorageOutcomes, HealthQueries,
           StorageQueries, AllTableOutcomes,
           AllTableActions, EntryOf, Samples;
      event := Event(false, []);
      var connected := Connect(r.attempts);
      var ok := Ok("connect", !connected, before, logged);
      if !ok {
        RefusedRound(r);
        return;
      }
      ReadHealth(r, before, logged);
      ReadStorage(r, before, logged);
      QueriesJoin(HealthQueries(r), StorageQueries(r));
      event := event.(connected := true);
      if r.databases.Some? {
        var entries := Databases(r.databases.value, r.server, r.readAt, before, logged);
        event := event.(databases := entries);
      } else {
        assert AllTableOutcomes([]) == [] && AllTableActions([]) == [] by { NoTables(); }
      }
    }
  }

  lemma {:induction false} QueriesJoin(m: nat, n: nat)
    ensures Queries(m) + Queries(n) == Queries(m + n)
  {}

  lemma {:induction false} RefusedRound(r: Replies)
    requires !Connects(r.attempts)
    ensures Actions(r) == ConnectActions(r.attempts)
  {}

  lemma {:induction false} NoTables()
    ensures AllTableOutcomes([]) == [] && AllTableActions([]) == []
  {}

  lemma {:induction false} StartRound(before: set<string>, logged: seq<LogLine>)
    ensures Track(before, []) == before && logged + Logged(before, []) == logged && Keys([]) == {}
  {}

  lemma {:induction false} OutcomeAppended(before: set<string>, os: seq<Outcome>, o: Outcome)
    ensures Track(before, os + [o]) == if o.failed then Track(before, os) + {o.key} else Track(before, os) - {o.key}
    ensures Logged(before, os + [o]) == Logged(before, os) + Line(Track(before, os), o)
    ensures Keys(os + [o]) == Keys(os) + {o.key}
  {}

  lemma {:induction false} HistoryAppended(h: seq<Replies>, r: Replies)
    ensures FailingAfter(h + [r]) == NextFailing(FailingAfter(h), r)
    ensures LoggedAt(h + [r], |h|) == Logged(FailingAfter(h), Outcomes(r))
  {}
}
