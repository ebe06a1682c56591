/**
 The Postgres engine's rounds: which parts are attempted, which counters are
 kept, what activity is reported, what is logged and which sessions are open.
 */
module PostgresModel {
  import opened Text

  // ---------------------------------------------------------------------
  // Differencing counters
  // ---------------------------------------------------------------------

  datatype Counters = Counters(
    commits: int, rollbacks: int, deadlocks: int, tempFiles: int, tempBytes: int,
    blocksHit: int, blocksRead: int, statsReset: real)

  /** One database's counters, when they were read, and the server start they belong to. */
  datatype Sample = Sample(counters: Counters, at: real, startedAt: real)

  datatype Activity = Activity(
    seconds: real, commits: int, rollbacks: int, deadlocks: int, tempFiles: int, tempBytes: int)

  const NOTHING := Activity(0.0, 0, 0, 0, 0, 0)

  function Plus(a: Activity, b: Activity): Activity
  {
    Activity(a.seconds + b.seconds, a.commits + b.commits, a.rollbacks + b.rollbacks,
             a.deadlocks + b.deadlocks, a.tempFiles + b.tempFiles, a.tempBytes + b.tempBytes)
  }

  /** What happened between two samples; None when they cannot be differenced. */
  function Diff(prev: Sample, cur: Sample): Option<Activity>
  {
    var p, c := prev.counters, cur.counters;
    var seconds := cur.at - prev.at;
    if seconds <= 0.0 || prev.startedAt != cur.startedAt || p.statsReset != c.statsReset then None
    else if c.commits < p.commits || c.rollbacks < p.rollbacks || c.deadlocks < p.deadlocks
            || c.tempFiles < p.tempFiles || c.tempBytes < p.tempBytes
            || c.blocksHit < p.blocksHit || c.blocksRead < p.blocksRead then None
    else Some(Activity(seconds, c.commits - p.commits, c.rollbacks - p.rollbacks,
                       c.deadlocks - p.deadlocks, c.tempFiles - p.tempFiles, c.tempBytes - p.tempBytes))
  }

  /** The share of block reads served from the buffers; None when there were none. */
  function CacheHitPercent(prev: Counters, cur: Counters): Option<real>
  {
    var hit, read := cur.blocksHit - prev.blocksHit, cur.blocksRead - prev.blocksRead;
    if hit + read <= 0 then None else Some(hit as real / (hit + read) as real * 100.0)
  }

  /** Counter by counter, what happened from a to b. */
  function Gap(a: Sample, b: Sample): Activity
  {
    Activity(b.at - a.at,
             b.counters.commits - a.counters.commits, b.counters.rollbacks - a.counters.rollbacks,
             b.counters.deadlocks - a.counters.deadlocks, b.counters.tempFiles - a.counters.tempFiles,
             b.counters.tempBytes - a.counters.tempBytes)
  }

  /** Same server start and statistics reset, time moves on, no counter moves back. */
  ghost predicate Advances(a: Sample, b: Sample)
  {
    && a.startedAt == b.startedAt && a.at < b.at
    && var p, c := a.counters, b.counters;
    && p.statsReset == c.statsReset
    && p.commits <= c.commits && p.rollbacks <= c.rollbacks && p.deadlocks <= c.deadlocks
    && p.tempFiles <= c.tempFiles && p.tempBytes <= c.tempBytes
    && p.blocksHit <= c.blocksHit && p.blocksRead <= c.blocksRead
  }

  /** Two samples can be differenced exactly when the second follows the first
      undisturbed, and the activity is then the difference of every counter. */
  lemma {:induction false} DiffIsTheGap(a: Sample, b: Sample)
    ensures Diff(a, b) == if Advances(a, b) then Some(Gap(a, b)) else None
  {}

  /** Between samples that can be differenced the hit share is a percentage... */
  lemma {:induction false} CacheHitIsAPercentage(a: Sample, b: Sample)
    requires Diff(a, b).Some?
    ensures var p := CacheHitPercent(a.counters, b.counters); p.Some? ==> 0.0 <= p.value <= 100.0
    ensures CacheHitPercent(a.counters, b.counters).None? <==>
              a.counters.blocksHit == b.counters.blocksHit && a.counters.blocksRead == b.counters.blocksRead
  {}

  function Hits(a: Sample, b: Sample): int
  {
    b.counters.blocksHit - a.counters.blocksHit
  }

  function DiskReads(a: Sample, b: Sample): int
  {
    b.counters.blocksRead - a.counters.blocksRead
  }

  /** ... of the block accesses, the ones served from the buffers: all of them
      exactly when no block was read from disk, none exactly when none was a hit. */
  lemma {:induction false} CacheHitIsTheShareOfHits(a: Sample, b: Sample)
    requires Advances(a, b) && CacheHitPercent(a.counters, b.counters).Some?
    ensures var p := CacheHitPercent(a.counters, b.counters).value;
            && p * (Hits(a, b) + DiskReads(a, b)) as real == 100.0 * Hits(a, b) as real
            && (p == 100.0 <==> DiskReads(a, b) == 0)
            && (p == 0.0 <==> Hits(a, b) == 0)
  {
    var hits, all := Hits(a, b) as real, (Hits(a, b) + DiskReads(a, b)) as real;
    var p := CacheHitPercent(a.counters, b.counters).value;
    assert hits / all * all == hits;
    assert p * all == hits / all * all * 100.0;
    assert p == 100.0 ==> hits == all;
  }

  /** The accesses that were hits, as the percentage tells them; none when absent. */
  function Weighted(a: Sample, b: Sample): real
  {
    var p := CacheHitPercent(a.counters, b.counters);
    if p.None? then 0.0 else p.value * (Hits(a, b) + DiskReads(a, b)) as real
  }

  /** Over two windows joined, the share is the mean weighted by block accesses. */
  lemma {:induction false} CacheHitAverages(a: Sample, b: Sample, c: Sample)
    requires Advances(a, b) && Advances(b, c)
    ensures Weighted(a, c) == Weighted(a, b) + Weighted(b, c)
  {
    WeightedIsHits(a, b);
    WeightedIsHits(b, c);
    WeightedIsHits(a, c);
  }

  lemma {:induction false} WeightedIsHits(a: Sample, b: Sample)
    requires Advances(a, b)
    ensures Weighted(a, b) == 100.0 * Hits(a, b) as real
  {
    if CacheHitPercent(a.counters, b.counters).Some? {
      CacheHitIsTheShareOfHits(a, b);
    }
  }

  // ---------------------------------------------------------------------
  // The replies one round consumes
  // ---------------------------------------------------------------------

  const CONNECT_ATTEMPTS := 3

  /** One connect: accepted, refused for too many connections (and whether the
      round ended during the wait before the next try), or refused otherwise. */
  datatype Attempt = Connected | TooMany(ended: bool) | Refused

  /** The replies to the tries in order; past the end, a refusal. */
  type Attempts = seq<Attempt>

  /** Connecting from the given attempt on: whether it succeeded, after how many tries. */
  function ConnectFrom(a: Attempts, n: nat): (r: (bool, nat))
    requires n < CONNECT_ATTEMPTS
    ensures 1 <= r.1 <= CONNECT_ATTEMPTS - n
    decreases CONNECT_ATTEMPTS - n
  {
    match if n < |a| then a[n] else Refused
    case Connected => (true, 1)
    case Refused => (false, 1)
    case TooMany(ended) =>
      if n + 1 == CONNECT_ATTEMPTS || ended then (false, 1)
      else var (ok, tries) := ConnectFrom(a, n + 1); (ok, tries + 1)
  }

  function AttemptAt(a: Attempts, n: nat): Attempt
  {
    if n < |a| then a[n] else Refused
  }

  /** Only a refusal for too many connections is tried again, at most twice and
      not once the round has ended; the last try decides. */
  lemma {:induction false} ConnectTells(a: Attempts)
    ensures var (ok, tries) := ConnectFrom(a, 0);
            && 1 <= tries <= 3
            && (forall j :: 0 <= j < tries - 1 ==> AttemptAt(a, j) == TooMany(false))
            && (ok <==> AttemptAt(a, tries - 1) == Connected)
            && (tries < 3 ==> AttemptAt(a, tries - 1) != TooMany(false))
  {
    var _, _ := ConnectFrom(a, 1), ConnectFrom(a, 2);
  }

  predicate Connects(a: Attempts) { ConnectFrom(a, 0).0 }

  /** A row of pg_database with its counters (None when any is NULL) and what
      reading its tables over its own session runs into. */
  datatype DatabaseRow = DatabaseRow(
    name: string, allowConn: bool, counters: Option<Counters>,
    attempts: Attempts, largestFailed: bool, deadFailed: bool)

  datatype ServerRow = ServerRow(started: real, inRecovery: bool)

  datatype Replies = Replies(
    attempts: Attempts, server: Option<ServerRow>,
    maxFailed: bool, connectionsFailed: bool, longRunningFailed: bool, blockedFailed: bool,
    replicasFailed: bool, replayFailed: bool,
    databases: Option<seq<DatabaseRow>>, sizesFailed: bool, readAt: real)

  predicate IsReplica(r: Replies)
  {
    r.server.Some? && r.server.value.inRecovery
  }

  /** The rows a round gets to work on. */
  function Rows(r: Replies): seq<DatabaseRow>
  {
    if Connects(r.attempts) && r.databases.Some? then r.databases.value else []
  }

  /** A round in which counters can be trusted: connected, rows read, start known. */
  predicate Full(r: Replies)
  {
    Connects(r.attempts) && r.databases.Some? && r.server.Some?
  }

  // ---------------------------------------------------------------------
  // Counters kept from round to round, and what is reported
  // ---------------------------------------------------------------------

  function SampleOf(row: DatabaseRow, started: real, readAt: real): Sample
    requires row.counters.Some?
  {
    Sample(row.counters.value, readAt, started)
  }

  function Samples(rows: seq<DatabaseRow>, started: real, readAt: real): map<string, Sample>
  {
    if rows == [] then map[]
    else
      var before, row := Samples(rows[..|rows| - 1], started, readAt), rows[|rows| - 1];
      if row.counters.Some? then before[row.name := SampleOf(row, started, readAt)] else before
  }

  /** The counters the engine holds after a round: replaced by a full round,
      kept by any other. */
  function NextPrev(prev: map<string, Sample>, r: Replies): map<string, Sample>
  {
    if Full(r) then Samples(r.databases.value, r.server.value.started, r.readAt) else prev
  }

  datatype DatabaseEntry = DatabaseEntry(name: string, activity: Option<Activity>, cacheHit: Option<real>)

  function EntryOf(prev: map<string, Sample>, row: DatabaseRow, server: Option<ServerRow>, readAt: real): DatabaseEntry
  {
    if row.counters.None? || server.None? || row.name !in prev then DatabaseEntry(row.name, None, None)
    else
      var a := Diff(prev[row.name], SampleOf(row, server.value.started, readAt));
      DatabaseEntry(row.name, a,
                    if a.None? then None else CacheHitPercent(prev[row.name].counters, row.counters.value))
  }

  function Entries(prev: map<string, Sample>, r: Replies): seq<DatabaseEntry>
  {
    seq(|Rows(r)|, i requires 0 <= i < |Rows(r)| => EntryOf(prev, Rows(r)[i], r.server, r.readAt))
  }

  /** What a round reports of row i, in any round: activity if and only if the
      server's start and the row's counters were read and the counters held for
      the name advanced to them undisturbed; then it is their difference, and the
      cache share is there exactly when a block was accessed. */
  lemma {:induction false} EntriesTellTheRound(prev: map<string, Sample>, r: Replies, i: nat)
    requires i < |Rows(r)|
    ensures |Entries(prev, r)| == |Rows(r)| && Entries(prev, r)[i].name == Rows(r)[i].name
    ensures var row, e := Rows(r)[i], Entries(prev, r)[i];
            var read := r.server.Some? && row.counters.Some? && row.name in prev;
            if read && Advances(prev[row.name], Sample(row.counters.value, r.readAt, r.server.value.started)) then
              var a, b := prev[row.name], Sample(row.counters.value, r.readAt, r.server.value.started);
              && e.activity == Some(Gap(a, b))
              && (e.cacheHit.Some? <==> Hits(a, b) + DiskReads(a, b) > 0)
              && (e.cacheHit.Some? ==> e.cacheHit.value * (Hits(a, b) + DiskReads(a, b)) as real == 100.0 * Hits(a, b) as real)
            else e.activity.None? && e.cacheHit.None?
  {
    var row := Rows(r)[i];
    if r.server.Some? && row.counters.Some? && row.name in prev {
      var a, b := prev[row.name], Sample(row.counters.value, r.readAt, r.server.value.started);
      DiffIsTheGap(a, b);
      if Advances(a, b) && CacheHitPercent(a.counters, b.counters).Some? {
        CacheHitIsTheShareOfHits(a, b);
      }
    }
  }

  function PrevAfter(h: seq<Replies>): map<string, Sample>
  {
    if h == [] then map[] else NextPrev(PrevAfter(h[..|h| - 1]), h[|h| - 1])
  }

  /** The activity reported for one database in a list of entries. */
  function ReportedIn(entries: seq<DatabaseEntry>, name: string): Activity
  {
    if entries == [] then NOTHING
    else
      var rest, e := ReportedIn(entries[..|entries| - 1], name), entries[|entries| - 1];
      if e.name == name && e.activity.Some? then Plus(rest, e.activity.value) else rest
  }

  /** The sum of all activity reported for a database over a history of rounds. */
  function Reported(h: seq<Replies>, name: string): Activity
  {
    if h == [] then NOTHING
    else
      var before := h[..|h| - 1];
      Plus(Reported(before, name), ReportedIn(Entries(PrevAfter(before), h[|h| - 1]), name))
  }

  function OnlyFull(h: seq<Replies>): seq<Replies>
  {
    if h == [] then []
    else OnlyFull(h[..|h| - 1]) + if Full(h[|h| - 1]) then [h[|h| - 1]] else []
  }

  lemma {:induction false} NothingReported(entries: seq<DatabaseEntry>, name: string)
    requires forall i :: 0 <= i < |entries| ==> entries[i].name != name || entries[i].activity.None?
    ensures ReportedIn(entries, name) == NOTHING
  {
    if entries != [] {
      NothingReported(entries[..|entries| - 1], name);
    }
  }

  /** Rounds that are not full neither report activity nor disturb what later
      ones report: striking them from the history changes nothing. */
  lemma {:induction false} FailedRoundsLoseNothing(h: seq<Replies>, name: string)
    ensures PrevAfter(h) == PrevAfter(OnlyFull(h))
    ensures Reported(h, name) == Reported(OnlyFull(h), name)
  {
    if h != [] {
      hide Entries, ReportedIn, NextPrev, Full;
      var before, r := h[..|h| - 1], h[|h| - 1];
      FailedRoundsLoseNothing(before, name);
      if Full(r) {
        PrevAppended(OnlyFull(before), r);
        ReportedAppended(OnlyFull(before), r, name);
      } else {
        NotFull(PrevAfter(before), r, name);
        assert OnlyFull(h) == OnlyFull(before);
      }
    }
  }

  lemma {:induction false} PrevAppended(h: seq<Replies>, r: Replies)
    ensures PrevAfter(h + [r]) == NextPrev(PrevAfter(h), r)
  {}

  lemma {:induction false} ReportedAppended(h: seq<Replies>, r: Replies, name: string)
    ensures Reported(h + [r], name) == Plus(Reported(h, name), ReportedIn(Entries(PrevAfter(h), r), name))
  {
    hide Entries, ReportedIn, PrevAfter;
    assert (h + [r])[..|h|] == h;
  }

  lemma {:induction false} NotFull(prev: map<string, Sample>, r: Replies, name: string)
    requires !Full(r)
    ensures NextPrev(prev, r) == prev && ReportedIn(Entries(prev, r), name) == NOTHING
    ensures forall a :: Plus(a, NOTHING) == a
  {
    NothingReported(Entries(prev, r), name);
  }

  /** The one row of this name, if any. */
  ghost predicate UniqueNames(rows: seq<DatabaseRow>)
  {
    forall i, j :: 0 <= i < j < |rows| ==> rows[i].name != rows[j].name
  }

  ghost predicate HasCounters(r: Replies, i: nat, name: string)
  {
    i < |Rows(r)| && Rows(r)[i].name == name && Rows(r)[i].counters.Some?
  }

  /** In every full round the database is there, once, with its counters. */
  ghost predicate Present(h: seq<Replies>, name: string)
  {
    forall k :: 0 <= k < |h| && Full(h[k]) ==>
      UniqueNames(Rows(h[k])) && exists i :: HasCounters(h[k], i, name)
  }

  /** Its sample in a full round. */
  function Seen(r: Replies, name: string): Option<Sample>
  {
    if Full(r) then
      var m := Samples(r.databases.value, r.server.value.started, r.readAt);
      if name in m then Some(m[name]) else None
    else None
  }

  ghost predicate Undisturbed(h: seq<Replies>, name: string)
  {
    && Present(h, name)
    && forall j, k :: 0 <= j < k < |h| && Seen(h[j], name).Some? && Seen(h[k], name).Some? ==>
         Advances(Seen(h[j], name).value, Seen(h[k], name).value)
  }

  function FirstSeen(h: seq<Replies>, name: string): Option<Sample>
  {
    if h == [] then None
    else
      var before := FirstSeen(h[..|h| - 1], name);
      if before.Some? then before else Seen(h[|h| - 1], name)
  }

  function LastSeen(h: seq<Replies>, name: string): Option<Sample>
  {
    if h == [] then None
    else if Seen(h[|h| - 1], name).Some? then Seen(h[|h| - 1], name)
    else LastSeen(h[..|h| - 1], name)
  }

  lemma {:induction false} SamplesOfRow(rows: seq<DatabaseRow>, started: real, readAt: real, i: nat)
    requires UniqueNames(rows) && i < |rows| && rows[i].counters.Some?
    ensures var m := Samples(rows, started, readAt);
            rows[i].name in m && m[rows[i].name] == SampleOf(rows[i], started, readAt)
  {
    var n := |rows| - 1;
    assert UniqueNames(rows[..n]);
    if i < n {
      SamplesOfRow(rows[..n], started, readAt, i);
    }
  }

  /** With unique names, what a list of entries reports for row i's database is
      that row's activity. */
  lemma {:induction false} ReportedForRow(entries: seq<DatabaseEntry>, i: nat)
    requires i < |entries| && forall j :: 0 <= j < |entries| && j != i ==> entries[j].name != entries[i].name
    ensures ReportedIn(entries, entries[i].name) == if entries[i].activity.Some? then entries[i].activity.value else NOTHING
  {
    var n := |entries| - 1;
    if i < n {
      ReportedForRow(entries[..n], i);
    } else {
      NothingReported(entries[..n], entries[i].name);
    }
  }

  /** What one full round reports for a present database. */
  lemma {:induction false} FullRoundReports(prev: map<string, Sample>, r: Replies, i: nat, name: string)
    requires Full(r) && UniqueNames(Rows(r)) && HasCounters(r, i, name)
    ensures Seen(r, name).Some? && name in NextPrev(prev, r) && NextPrev(prev, r)[name] == Seen(r, name).value
    ensures name !in prev ==> ReportedIn(Entries(prev, r), name) == NOTHING
    ensures name in prev && Advances(prev[name], Seen(r, name).value) ==>
              ReportedIn(Entries(prev, r), name) == Gap(prev[name], Seen(r, name).value)
    ensures name in prev && !Advances(prev[name], Seen(r, name).value) ==>
              ReportedIn(Entries(prev, r), name) == NOTHING
  {
    if name in prev {
      DiffIsTheGap(prev[name], SampleOf(Rows(r)[i], r.server.value.started, r.readAt));
    }
    SamplesOfRow(Rows(r), r.server.value.started, r.readAt, i);
    ReportedForRow(Entries(prev, r), i);
  }

  lemma {:induction false} EdgesAreSeen(h: seq<Replies>, name: string)
    ensures FirstSeen(h, name).Some? <==> LastSeen(h, name).Some?
    ensures LastSeen(h, name).Some? ==> exists k :: 0 <= k < |h| && Seen(h[k], name) == LastSeen(h, name)
  {
    if h != [] {
      var n := |h| - 1;
      EdgesAreSeen(h[..n], name);
      if LastSeen(h[..n], name).Some? && Seen(h[n], name).None? {
        var k :| 0 <= k < n && Seen(h[..n][k], name) == LastSeen(h[..n], name);
        assert Seen(h[k], name) == LastSeen(h, name);
      }
    }
  }

  lemma {:induction false} UndisturbedBefore(h: seq<Replies>, name: string)
    requires h != [] && Undisturbed(h, name)
    ensures var n := |h| - 1;
            && Undisturbed(h[..n], name)
            && (LastSeen(h[..n], name).Some? && Seen(h[n], name).Some? ==>
                  Advances(LastSeen(h[..n], name).value, Seen(h[n], name).value))
  {
    var n := |h| - 1;
    EdgesAreSeen(h[..n], name);
    if LastSeen(h[..n], name).Some? && Seen(h[n], name).Some? {
      var k :| 0 <= k < |h[..n]| && Seen(h[..n][k], name) == LastSeen(h[..n], name);
      assert Seen(h[k], name) == LastSeen(h[..n], name);
    }
  }

  /** The running total against the first and last samples seen, and the last
      one being what the engine holds. */
  ghost predicate Balanced(first: Option<Sample>, last: Option<Sample>,
                           prev: map<string, Sample>, name: string, total: Activity)
  {
    match last
    case None => first.None? && name !in prev && total == NOTHING
    case Some(l) => name in prev && prev[name] == l && first.Some? && total == Gap(first.value, l)
  }

  lemma {:induction false} BalancedStep(first: Option<Sample>, last: Option<Sample>, prev: map<string, Sample>, name: string,
                                        total: Activity, now: Sample, next: map<string, Sample>, reported: Activity)
    requires Balanced(first, last, prev, name, total)
    requires name in next && next[name] == now
    requires reported == if last.Some? then Gap(last.value, now) else NOTHING
    ensures Balanced(if first.Some? then first else Some(now), Some(now), next, name, Plus(total, reported))
  {}

  /** Activity conservation. Over any history of rounds, failed ones included,
      the activity reported for an undisturbed database sums to its counters
      (and the clock) at the last full round minus those at the first. */
  lemma {:induction false} ActivityIsConserved(h: seq<Replies>, name: string)
    requires Undisturbed(h, name)
    ensures Balanced(FirstSeen(h, name), LastSeen(h, name), PrevAfter(h), name, Reported(h, name))
  {
    if h != [] {
      var before, r := h[..|h| - 1], h[|h| - 1];
      UndisturbedBefore(h, name);
      ActivityIsConserved(before, name);
      var prev := PrevAfter(before);
      var first, last := FirstSeen(before, name), LastSeen(before, name);
      if Full(r) {
        assert UniqueNames(Rows(r)) && exists i :: HasCounters(r, i, name);
        FullRoundBalances(first, last, prev, name, Reported(before, name), r);
      } else {
        NotFull(prev, r, name);
      }
      hide Balanced, Entries, ReportedIn, NextPrev, Undisturbed;
    }
  }

  lemma {:induction false} FullRoundBalances(first: Option<Sample>, last: Option<Sample>, prev: map<string, Sample>, name: string,
                          total: Activity, r: Replies)
    requires Balanced(first, last, prev, name, total)
    requires Full(r) && UniqueNames(Rows(r)) && exists i :: HasCounters(r, i, name)
    requires last.Some? && Seen(r, name).Some? ==> Advances(last.value, Seen(r, name).value)
    ensures Seen(r, name).Some?
    ensures Balanced(if first.Some? then first else Seen(r, name), Seen(r, name), NextPrev(prev, r), name,
                     Plus(total, ReportedIn(Entries(prev, r), name)))
  {
    var i :| HasCounters(r, i, name);
    FullRoundReports(prev, r, i, name);
    hide Entries, ReportedIn, NextPrev, Seen, Full, Rows;
    BalancedStep(first, last, prev, name, total, Seen(r, name).value, NextPrev(prev, r),
                 ReportedIn(Entries(prev, r), name));
  }

  // ---------------------------------------------------------------------
  // Any history, restarts and resets included
  // ---------------------------------------------------------------------

  /** What each full round saw of the database, in order. */
  function FullSamples(h: seq<Replies>, name: string): seq<Option<Sample>>
  {
    if h == [] then []
    else FullSamples(h[..|h| - 1], name) + if Full(h[|h| - 1]) then [Seen(h[|h| - 1], name)] else []
  }

  /** The activity between two samples, nothing when one is missing or something
      disturbed the counters in between. */
  ghost function Window(a: Option<Sample>, b: Option<Sample>): Activity
  {
    if a.Some? && b.Some? && Advances(a.value, b.value) then Gap(a.value, b.value) else NOTHING
  }

  /** The sum over neighbours. */
  ghost function SumOfWindows(xs: seq<Option<Sample>>): Activity
  {
    var n := |xs|;
    if n < 2 then NOTHING else Plus(SumOfWindows(xs[..n - 1]), Window(xs[n - 2], xs[n - 1]))
  }

  function Held(prev: map<string, Sample>, name: string): Option<Sample>
  {
    if name in prev then Some(prev[name]) else None
  }

  function Latest(xs: seq<Option<Sample>>): Option<Sample>
  {
    if xs == [] then None else xs[|xs| - 1]
  }

  ghost predicate NamesAreUnique(h: seq<Replies>)
  {
    forall k :: 0 <= k < |h| && Full(h[k]) ==> UniqueNames(Rows(h[k]))
  }

  lemma {:induction false} SamplesHaveRows(rows: seq<DatabaseRow>, started: real, readAt: real, name: string)
    requires forall i :: 0 <= i < |rows| ==> rows[i].name != name || rows[i].counters.None?
    ensures name !in Samples(rows, started, readAt)
  {
    if rows != [] {
      SamplesHaveRows(rows[..|rows| - 1], started, readAt, name);
    }
  }

  lemma {:induction false} AbsentIsNotReported(prev: map<string, Sample>, r: Replies, name: string)
    requires Full(r) && forall i :: 0 <= i < |Rows(r)| ==> !HasCounters(r, i, name)
    ensures Seen(r, name).None? && ReportedIn(Entries(prev, r), name) == NOTHING
  {
    assert forall i :: 0 <= i < |Rows(r)| ==> HasCounters(r, i, name) || Rows(r)[i].name != name || Rows(r)[i].counters.None?;
    SamplesHaveRows(Rows(r), r.server.value.started, r.readAt, name);
    NothingReported(Entries(prev, r), name);
  }

  /** Present or not, disturbed or not, a full round reports the window from
      what was held to what it saw, and holds the latter. */
  lemma {:induction false} FullRoundIsAWindow(prev: map<string, Sample>, r: Replies, name: string)
    requires Full(r) && UniqueNames(Rows(r))
    ensures ReportedIn(Entries(prev, r), name) == Window(Held(prev, name), Seen(r, name))
    ensures Held(NextPrev(prev, r), name) == Seen(r, name)
  {
    hide ReportedIn, Entries, Advances;
    if i :| 0 <= i < |Rows(r)| && HasCounters(r, i, name) {
      FullRoundReports(prev, r, i, name);
    } else {
      AbsentIsNotReported(prev, r, name);
    }
  }

  lemma {:induction false} SumAppended(xs: seq<Option<Sample>>, x: Option<Sample>)
    ensures SumOfWindows(xs + [x]) == Plus(SumOfWindows(xs), Window(Latest(xs), x))
    ensures Latest(xs + [x]) == x
  {
    hide Advances;
    assert (xs + [x])[..|xs|] == xs;
  }

  /** The general law: over any history whatever, the activity reported for a
      database is the sum of the windows between consecutive full rounds, so a
      restart, a reset, a counter moving back or a round without the database
      costs exactly the windows it touches and nothing is counted across it. */
  lemma {:induction false} ReportedIsTheSumOfWindows(h: seq<Replies>, name: string)
    requires NamesAreUnique(h)
    ensures Reported(h, name) == SumOfWindows(FullSamples(h, name))
    ensures Held(PrevAfter(h), name) == Latest(FullSamples(h, name))
  {
    if h != [] {
      hide Entries, ReportedIn, NextPrev, Full, Seen, Window, SumOfWindows, Held, Latest, UniqueNames;
      var before, r := h[..|h| - 1], h[|h| - 1];
      ReportedIsTheSumOfWindows(before, name);
      if Full(r) {
        assert UniqueNames(Rows(r));
        FullRoundIsAWindow(PrevAfter(before), r, name);
        SumAppended(FullSamples(before, name), Seen(r, name));
      } else {
        NotFull(PrevAfter(before), r, name);
        assert FullSamples(h, name) == FullSamples(before, name);
      }
    } else {
      assert FullSamples(h, name) == [];
    }
  }
}
