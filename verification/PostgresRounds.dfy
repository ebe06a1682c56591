/**
 What one Postgres round attempts: the outcome of every part under its log key,
 the lines logged about them, and the sessions opened and closed on the way.
 */
module PostgresRounds {
  import opened Text
  import opened PostgresModel

  // ---------------------------------------------------------------------
  // The parts a round attempts, in order, each under its log key
  // ---------------------------------------------------------------------

  datatype Outcome = Outcome(key: string, failed: bool)

  /** The log key of one database's part. */
  function Key(name: string, part: string): string
  {
    "db/" + name + "/" + part
  }

  function HealthOutcomes(r: Replies): seq<Outcome>
  {
    [Outcome("server", r.server.None?),
     Outcome("connections", r.maxFailed || r.connectionsFailed),
     Outcome("longRunning", r.longRunningFailed),
     Outcome("blocked", r.blockedFailed)]
  }

  function StorageOutcomes(r: Replies): seq<Outcome>
  {
    [Outcome("replication", r.replicasFailed || (IsReplica(r) && r.replayFailed)),
     Outcome("databases", r.databases.None?),
     Outcome("sizes", r.sizesFailed)]
  }

  /** The parts read over the maintenance session. */
  function ServerOutcomes(r: Replies): seq<Outcome>
  {
    HealthOutcomes(r) + StorageOutcomes(r)
  }

  function TableOutcomes(row: DatabaseRow): seq<Outcome>
  {
    if !row.allowConn then []
    else if !Connects(row.attempts) then [Outcome(Key(row.name, "connect"), true)]
    else [Outcome(Key(row.name, "connect"), false),
          Outcome(Key(row.name, "largestTables"), row.largestFailed),
          Outcome(Key(row.name, "deadTuples"), row.deadFailed)]
  }

  function AllTableOutcomes(rows: seq<DatabaseRow>): seq<Outcome>
  {
    if rows == [] then [] else AllTableOutcomes(rows[..|rows| - 1]) + TableOutcomes(rows[|rows| - 1])
  }

  function Outcomes(r: Replies): seq<Outcome>
  {
    if !Connects(r.attempts) then [Outcome("connect", true)]
    else [Outcome("connect", false)] + ServerOutcomes(r) + AllTableOutcomes(Rows(r))
  }

  predicate Failed(os: seq<Outcome>, key: string)
  {
    exists i :: 0 <= i < |os| && os[i] == Outcome(key, true)
  }

  predicate Succeeded(os: seq<Outcome>, key: string)
  {
    exists i :: 0 <= i < |os| && os[i] == Outcome(key, false)
  }

  function Keys(os: seq<Outcome>): set<string>
  {
    set i | 0 <= i < |os| :: os[i].key
  }

  function FailedKeys(os: seq<Outcome>): set<string>
  {
    set i | 0 <= i < |os| && os[i].failed :: os[i].key
  }

  ghost predicate UniqueKeys(os: seq<Outcome>)
  {
    forall i, j :: 0 <= i < j < |os| ==> os[i].key != os[j].key
  }

  /** Log keys are injective in the database name and the part, for all names,
      slashes included, because no part holds a slash. */
  lemma {:induction false} KeysAreInjective(n1: string, p1: string, n2: string, p2: string)
    requires '/' !in p1 && '/' !in p2 && Key(n1, p1) == Key(n2, p2)
    ensures n1 == n2 && p1 == p2
  {
    var k := Key(n1, p1);
    LastSlash(n1, p1);
    LastSlash(n2, p2);
    assert |p1| == |p2|;
    assert k[|k| - |p1|..] == p1 && k[|k| - |p2|..] == p2;
    assert k[3..3 + |n1|] == n1 && k[3..3 + |n2|] == n2;
  }

  lemma {:induction false} LastSlash(name: string, part: string)
    requires '/' !in part
    ensures var k := Key(name, part);
            && |k| == 4 + |name| + |part| && k[|k| - |part| - 1] == '/'
            && forall i :: |k| - |part| <= i < |k| ==> k[i] != '/'
  {}

  predicate IsPart(part: string)
  {
    part == "connect" || part == "largestTables" || part == "deadTuples"
  }

  ghost predicate OfDatabase(key: string, name: string)
  {
    exists part :: IsPart(part) && key == Key(name, part)
  }

  lemma {:induction false} TableKeys(row: DatabaseRow)
    ensures var os := TableOutcomes(row);
            UniqueKeys(os) && forall i :: 0 <= i < |os| ==> OfDatabase(os[i].key, row.name)
  {
    assert IsPart("connect") && IsPart("largestTables") && IsPart("deadTuples");
    var os := TableOutcomes(row);
    forall i | 0 <= i < |os|
      ensures OfDatabase(os[i].key, row.name)
    {
      var part := if i == 0 then "connect" else if i == 1 then "largestTables" else "deadTuples";
      assert IsPart(part) && os[i].key == Key(row.name, part);
    }
    assert |Key(row.name, "connect")| == |row.name| + 11;
    assert |Key(row.name, "largestTables")| == |row.name| + 17;
    assert |Key(row.name, "deadTuples")| == |row.name| + 14;
  }

  lemma {:induction false} KeysOfTwoDatabases(key: string, n1: string, n2: string)
    requires OfDatabase(key, n1) && OfDatabase(key, n2)
    ensures n1 == n2
  {
    var p1 :| IsPart(p1) && key == Key(n1, p1);
    var p2 :| IsPart(p2) && key == Key(n2, p2);
    KeysAreInjective(n1, p1, n2, p2);
  }

  lemma {:induction false} UniqueConcat(a: seq<Outcome>, b: seq<Outcome>)
    requires UniqueKeys(a) && UniqueKeys(b)
    requires forall i, j :: 0 <= i < |a| && 0 <= j < |b| ==> a[i].key != b[j].key
    ensures UniqueKeys(a + b)
  {}

  ghost predicate OfSomeRow(key: string, rows: seq<DatabaseRow>)
  {
    exists k :: 0 <= k < |rows| && OfDatabase(key, rows[k].name)
  }

  ghost predicate OfRows(os: seq<Outcome>, rows: seq<DatabaseRow>)
  {
    forall i :: 0 <= i < |os| ==> OfSomeRow(os[i].key, rows)
  }

  lemma {:induction false} AllTableKeys(rows: seq<DatabaseRow>)
    requires UniqueNames(rows)
    ensures UniqueKeys(AllTableOutcomes(rows)) && OfRows(AllTableOutcomes(rows), rows)
  {
    if rows != [] {
      var n := |rows| - 1;
      var before, last := AllTableOutcomes(rows[..n]), TableOutcomes(rows[n]);
      AllTableKeys(rows[..n]);
      TableKeys(rows[n]);
      hide TableOutcomes, OfDatabase;
      forall i, j | 0 <= i < |before| && 0 <= j < |last|
        ensures before[i].key != last[j].key
      {
        DifferentDatabases(before, rows, i, last[j].key);
      }
      UniqueConcat(before, last);
      OfRowsConcat(before, last, rows);
    }
  }

  lemma {:induction false} DifferentDatabases(before: seq<Outcome>, rows: seq<DatabaseRow>, i: nat, key: string)
    requires rows != [] && UniqueNames(rows) && OfRows(before, rows[..|rows| - 1]) && i < |before|
    requires OfDatabase(key, rows[|rows| - 1].name)
    ensures before[i].key != key
  {
    hide OfDatabase;
    var n := |rows| - 1;
    assert OfSomeRow(before[i].key, rows[..n]);
    var k :| 0 <= k < |rows[..n]| && OfDatabase(before[i].key, rows[..n][k].name);
    if before[i].key == key {
      KeysOfTwoDatabases(key, rows[k].name, rows[n].name);
    }
  }

  lemma {:induction false} OfRowsConcat(before: seq<Outcome>, last: seq<Outcome>, rows: seq<DatabaseRow>)
    requires rows != [] && OfRows(before, rows[..|rows| - 1])
    requires forall i :: 0 <= i < |last| ==> OfDatabase(last[i].key, rows[|rows| - 1].name)
    ensures OfRows(before + last, rows)
  {
    hide OfDatabase;
    var n := |rows| - 1;
    forall i | 0 <= i < |before + last|
      ensures OfSomeRow((before + last)[i].key, rows)
    {
      if i < |before| {
        assert OfSomeRow(before[i].key, rows[..n]);
        var k :| 0 <= k < |rows[..n]| && OfDatabase(before[i].key, rows[..n][k].name);
        assert OfDatabase((before + last)[i].key, rows[k].name);
      } else {
        assert OfDatabase((before + last)[i].key, rows[n].name);
      }
    }
  }

  /** Within a round every key is attempted at most once. */
  lemma {:induction false} OutcomeKeysAreUnique(r: Replies)
    requires UniqueNames(Rows(r))
    ensures UniqueKeys(Outcomes(r))
  {
    if Connects(r.attempts) {
      var server := [Outcome("connect", false)] + ServerOutcomes(r);
      var tables := AllTableOutcomes(Rows(r));
      assert Outcomes(r) == server + tables;
      ServerKeys(r);
      AllTableKeys(Rows(r));
      forall i, j | 0 <= i < |server| && 0 <= j < |tables|
        ensures server[i].key != tables[j].key
      {
        assert OfSomeRow(tables[j].key, Rows(r));
        var k :| 0 <= k < |Rows(r)| && OfDatabase(tables[j].key, Rows(r)[k].name);
        var part :| IsPart(part) && tables[j].key == Key(Rows(r)[k].name, part);
        assert tables[j].key[0] == 'd' && tables[j].key[1] == 'b';
      }
      UniqueConcat(server, tables);
    }
  }

  lemma {:induction false} ServerKeys(r: Replies)
    ensures var server := [Outcome("connect", false)] + ServerOutcomes(r);
            && UniqueKeys(server)
            && forall i :: 0 <= i < |server| ==> |server[i].key| > 1 && server[i].key[..2] != "db"
  {
    var server := [Outcome("connect", false)] + ServerOutcomes(r);
    // told apart by length and first letter
    assert |server[0].key| == 7 && server[0].key[0] == 'c';
    assert |server[1].key| == 6 && server[1].key[0] == 's';
    assert |server[2].key| == 11 && server[2].key[0] == 'c';
    assert |server[3].key| == 11 && server[3].key[0] == 'l';
    assert |server[4].key| == 7 && server[4].key[0] == 'b';
    assert |server[5].key| == 11 && server[5].key[0] == 'r';
    assert |server[6].key| == 9 && server[6].key[0] == 'd';
    assert |server[7].key| == 5 && server[7].key[0] == 's';
    assert server[6].key[1] == 'a' && |server| == 8;
  }

  // ---------------------------------------------------------------------
  // Which replies make which part fail
  // ---------------------------------------------------------------------

  /** The key was attempted, once, and this is how it went. */
  ghost predicate Went(os: seq<Outcome>, key: string, failed: bool)
  {
    if failed then Failed(os, key) && !Succeeded(os, key) else Succeeded(os, key) && !Failed(os, key)
  }

  lemma {:induction false} WentAt(os: seq<Outcome>, i: nat)
    requires UniqueKeys(os) && i < |os|
    ensures Went(os, os[i].key, os[i].failed)
  {
    assert os[i] == Outcome(os[i].key, os[i].failed);
  }

  /** The parts read over the maintenance session, each failing for its own
      queries; none is attempted when connecting fails. */
  lemma {:induction false} ServerPartsTell(r: Replies)
    requires UniqueNames(Rows(r))
    ensures var os := Outcomes(r);
            if !Connects(r.attempts) then os == [Outcome("connect", true)]
            else
              && Went(os, "connect", false)
              && Went(os, "server", r.server.None?)
              && Went(os, "connections", r.maxFailed || r.connectionsFailed)
              && Went(os, "longRunning", r.longRunningFailed)
              && Went(os, "blocked", r.blockedFailed)
              && Went(os, "replication",
                      r.replicasFailed || (r.server.Some? && r.server.value.inRecovery && r.replayFailed))
              && Went(os, "databases", r.databases.None?)
              && Went(os, "sizes", r.sizesFailed)
  {
    OutcomeKeysAreUnique(r);
    if Connects(r.attempts) {
      hide UniqueKeys, Connects, Went, UniqueNames;
      FirstEight(r);
      hide Outcomes;
      var os := Outcomes(r);
      WentAt(os, 0);
      WentAt(os, 1);
      WentAt(os, 2);
      WentAt(os, 3);
      WentAt(os, 4);
      WentAt(os, 5);
      WentAt(os, 6);
      WentAt(os, 7);
    }
  }

  lemma {:induction false} FirstEight(r: Replies)
    requires Connects(r.attempts)
    ensures var os := Outcomes(r);
            && |os| >= 8
            && os[0] == Outcome("connect", false)
            && os[1] == Outcome("server", r.server.None?)
            && os[2] == Outcome("connections", r.maxFailed || r.connectionsFailed)
            && os[3] == Outcome("longRunning", r.longRunningFailed)
            && os[4] == Outcome("blocked", r.blockedFailed)
            && os[5] == Outcome("replication",
                                r.replicasFailed || (r.server.Some? && r.server.value.inRecovery && r.replayFailed))
            && os[6] == Outcome("databases", r.databases.None?)
            && os[7] == Outcome("sizes", r.sizesFailed)
  {
    hide Connects, AllTableOutcomes, Rows;
  }

  lemma {:induction false} TableOutcomeIsThere(rows: seq<DatabaseRow>, j: nat, o: Outcome)
    requires j < |rows| && o in TableOutcomes(rows[j])
    ensures o in AllTableOutcomes(rows)
  {
    hide TableOutcomes;
    var n := |rows| - 1;
    if j < n {
      TableOutcomeIsThere(rows[..n], j, o);
    }
  }

  lemma {:induction false} TableOutcomeComesFrom(rows: seq<DatabaseRow>, o: Outcome) returns (j: nat)
    requires o in AllTableOutcomes(rows)
    ensures j < |rows| && o in TableOutcomes(rows[j])
  {
    hide TableOutcomes;
    var n := |rows| - 1;
    if o in TableOutcomes(rows[n]) {
      j := n;
    } else {
      j := TableOutcomeComesFrom(rows[..n], o);
    }
  }

  /** A database's parts go as its own replies say, whatever else is in the round. */
  lemma {:induction false} OutcomeOfDatabase(r: Replies, j: nat, part: string, failed: bool)
    requires Connects(r.attempts) && UniqueNames(Rows(r)) && j < |Rows(r)| && IsPart(part)
    ensures var o := Outcome(Key(Rows(r)[j].name, part), failed);
            o in Outcomes(r) <==> o in TableOutcomes(Rows(r)[j])
  {
    var o := Outcome(Key(Rows(r)[j].name, part), failed);
    ServerKeys(r);
    var server := [Outcome("connect", false)] + ServerOutcomes(r);
    assert Outcomes(r) == server + AllTableOutcomes(Rows(r));
    assert o.key[..2] == "db";
    hide Outcomes, ServerOutcomes, TableOutcomes, Key, Connects, IsPart;
    if o in TableOutcomes(Rows(r)[j]) {
      TableOutcomeIsThere(Rows(r), j, o);
    }
    if o in AllTableOutcomes(Rows(r)) {
      var k := TableOutcomeComesFrom(Rows(r), o);
      SameDatabase(Rows(r)[k], o, Rows(r)[j].name, part);
    }
  }

  lemma {:induction false} SameDatabase(row: DatabaseRow, o: Outcome, name: string, part: string)
    requires o in TableOutcomes(row) && o.key == Key(name, part) && IsPart(part)
    ensures row.name == name
  {
    TableKeys(row);
    hide TableOutcomes, Key, IsPart;
    var i :| 0 <= i < |TableOutcomes(row)| && TableOutcomes(row)[i] == o;
    assert OfDatabase(o.key, name);
    KeysOfTwoDatabases(o.key, row.name, name);
  }

  /** The three parts of one database: connecting is attempted exactly where
      connections are allowed, its tables exactly when that worked. */
  lemma {:induction false} DatabasePartsTell(r: Replies, j: nat)
    requires Connects(r.attempts) && UniqueNames(Rows(r)) && j < |Rows(r)|
    ensures var os, row := Outcomes(r), Rows(r)[j];
            var (connect, largest, dead) :=
              (Key(row.name, "connect"), Key(row.name, "largestTables"), Key(row.name, "deadTuples"));
            && (connect in Keys(os) <==> row.allowConn)
            && (row.allowConn ==> Went(os, connect, !Connects(row.attempts)))
            && (largest in Keys(os) <==> row.allowConn && Connects(row.attempts))
            && (row.allowConn && Connects(row.attempts) ==> Went(os, largest, row.largestFailed))
            && (dead in Keys(os) <==> row.allowConn && Connects(row.attempts))
            && (row.allowConn && Connects(row.attempts) ==> Went(os, dead, row.deadFailed))
  {
    var row := Rows(r)[j];
    PartTells(r, j, "connect");
    PartTells(r, j, "largestTables");
    PartTells(r, j, "deadTuples");
    ThreeOutcomes(row);
    hide Outcomes, Key, Connects, TableOutcomes;
  }

  lemma {:induction false} PartTells(r: Replies, j: nat, part: string)
    requires Connects(r.attempts) && UniqueNames(Rows(r)) && j < |Rows(r)| && IsPart(part)
    ensures var os, key, own := Outcomes(r), Key(Rows(r)[j].name, part), TableOutcomes(Rows(r)[j]);
            && (key in Keys(os) <==> Outcome(key, true) in own || Outcome(key, false) in own)
            && (Outcome(key, true) in own ==> Went(os, key, true))
            && (Outcome(key, false) in own ==> Went(os, key, false))
  {
    OutcomeOfDatabase(r, j, part, true);
    OutcomeOfDatabase(r, j, part, false);
    OutcomeKeysAreUnique(r);
    hide Outcomes, Key, Connects, TableOutcomes, IsPart, Rows, UniqueNames;
    InKeys(Outcomes(r), Key(Rows(r)[j].name, part));
  }

  lemma {:induction false} InKeys(os: seq<Outcome>, key: string)
    requires UniqueKeys(os)
    ensures key in Keys(os) <==> Outcome(key, true) in os || Outcome(key, false) in os
    ensures Outcome(key, true) in os ==> Went(os, key, true)
    ensures Outcome(key, false) in os ==> Went(os, key, false)
  {
    TrackTells({}, os, key);
    assert Outcome(key, true) in os ==> Failed(os, key);
    assert Outcome(key, false) in os ==> Succeeded(os, key);
  }

  lemma {:induction false} ThreeOutcomes(row: DatabaseRow)
    ensures var own := TableOutcomes(row);
            var (connect, largest, dead) :=
              (Key(row.name, "connect"), Key(row.name, "largestTables"), Key(row.name, "deadTuples"));
            && (forall f :: Outcome(connect, f) in own <==> row.allowConn && f == !Connects(row.attempts))
            && (forall f :: Outcome(largest, f) in own <==> row.allowConn && Connects(row.attempts) && f == row.largestFailed)
            && (forall f :: Outcome(dead, f) in own <==> row.allowConn && Connects(row.attempts) && f == row.deadFailed)
  {
    assert |Key(row.name, "connect")| == |row.name| + 11;
    assert |Key(row.name, "largestTables")| == |row.name| + 17;
    assert |Key(row.name, "deadTuples")| == |row.name| + 14;
    hide Key, Connects;
  }

  // ---------------------------------------------------------------------
  // Logging once when a failure starts and once when it clears
  // ---------------------------------------------------------------------

  datatype LogLine = Warned(key: string) | Recovered(key: string)

  /** The failing set while the outcomes come in. */
  function Track(failing: set<string>, os: seq<Outcome>): set<string>
  {
    if os == [] then failing
    else
      var before, o := Track(failing, os[..|os| - 1]), os[|os| - 1];
      if o.failed then before + {o.key} else before - {o.key}
  }

  function Line(failing: set<string>, o: Outcome): seq<LogLine>
  {
    if o.failed && o.key !in failing then [Warned(o.key)]
    else if !o.failed && o.key in failing then [Recovered(o.key)]
    else []
  }

  function Logged(failing: set<string>, os: seq<Outcome>): seq<LogLine>
  {
    if os == [] then []
    else Logged(failing, os[..|os| - 1]) + Line(Track(failing, os[..|os| - 1]), os[|os| - 1])
  }

  /** After the round, keys it did not attempt are forgotten. */
  function NextFailing(failing: set<string>, r: Replies): set<string>
  {
    Track(failing, Outcomes(r)) * Keys(Outcomes(r))
  }

  function FailingAfter(h: seq<Replies>): set<string>
  {
    if h == [] then {} else NextFailing(FailingAfter(h[..|h| - 1]), h[|h| - 1])
  }

  function LoggedAt(h: seq<Replies>, k: nat): seq<LogLine>
    requires k < |h|
  {
    Logged(FailingAfter(h[..k]), Outcomes(h[k]))
  }

  lemma {:induction false} TrackTells(failing: set<string>, os: seq<Outcome>, key: string)
    requires UniqueKeys(os)
    ensures key in Track(failing, os) <==> Failed(os, key) || (key !in Keys(os) && key in failing)
    ensures key in Keys(os) <==> Failed(os, key) || Succeeded(os, key)
    ensures !(Failed(os, key) && Succeeded(os, key))
  {
    if os != [] {
      var init, o := os[..|os| - 1], os[|os| - 1];
      assert os == init + [o];
      TrackTells(failing, init, key);
      Snoc(init, o, key);
    }
  }

  lemma {:induction false} Snoc(init: seq<Outcome>, o: Outcome, key: string)
    requires UniqueKeys(init + [o])
    ensures Failed(init + [o], key) <==> Failed(init, key) || o == Outcome(key, true)
    ensures Succeeded(init + [o], key) <==> Succeeded(init, key) || o == Outcome(key, false)
    ensures key in Keys(init + [o]) <==> key in Keys(init) || o.key == key
    ensures o.key !in Keys(init) && UniqueKeys(init)
  {
    var os := init + [o];
    assert os[|init|] == o;
    assert forall i :: 0 <= i < |init| ==> os[i] == init[i];
  }

  lemma {:induction false} LoggedTells(failing: set<string>, os: seq<Outcome>, key: string)
    requires UniqueKeys(os)
    ensures Warned(key) in Logged(failing, os) <==> Failed(os, key) && key !in failing
    ensures Recovered(key) in Logged(failing, os) <==> Succeeded(os, key) && key in failing
    ensures multiset(Logged(failing, os))[Warned(key)] + multiset(Logged(failing, os))[Recovered(key)] <= 1
  {
    if os != [] {
      var init, o := os[..|os| - 1], os[|os| - 1];
      assert os == init + [o];
      Snoc(init, o, key);
      LoggedTells(failing, init, key);
      TrackTells(failing, init, o.key);
      TrackTells(failing, init, key);
      assert Logged(failing, os) == Logged(failing, init) + Line(Track(failing, init), o);
    }
  }

  /** After every round the failing set is exactly the keys attempted and failed
      in that round, whatever came before. */
  lemma {:induction false} FailingIsTheLastRounds(h: seq<Replies>)
    requires h != [] && UniqueNames(Rows(h[|h| - 1]))
    ensures FailingAfter(h) == FailedKeys(Outcomes(h[|h| - 1]))
  {
    var os := Outcomes(h[|h| - 1]);
    OutcomeKeysAreUnique(h[|h| - 1]);
    hide Outcomes;
    forall key
      ensures key in FailingAfter(h) <==> key in FailedKeys(os)
    {
      TrackTells(FailingAfter(h[..|h| - 1]), os, key);
    }
  }

  lemma {:induction false} FailedKeysTell(os: seq<Outcome>, key: string)
    ensures key in FailedKeys(os) <==> Failed(os, key)
  {}

  lemma {:induction false} NothingFailing(h: seq<Replies>)
    requires h == []
    ensures FailingAfter(h) == {}
  {}

  /** Over whole runs: a warning is logged at round k exactly when the key
      failed at k and did not fail at k - 1, a recovery exactly when it succeeded
      at k and failed at k - 1, and neither more than once. */
  lemma {:induction false} LoggedOnChange(h: seq<Replies>, k: nat, key: string)
    requires k < |h| && UniqueNames(Rows(h[k])) && (k > 0 ==> UniqueNames(Rows(h[k - 1])))
    ensures var failedBefore := k > 0 && Failed(Outcomes(h[k - 1]), key);
            && (Warned(key) in LoggedAt(h, k) <==> Failed(Outcomes(h[k]), key) && !failedBefore)
            && (Recovered(key) in LoggedAt(h, k) <==> Succeeded(Outcomes(h[k]), key) && failedBefore)
            && multiset(LoggedAt(h, k))[Warned(key)] + multiset(LoggedAt(h, k))[Recovered(key)] <= 1
  {
    hide Outcomes, Logged, FailingAfter, Failed, Succeeded, FailedKeys, Rows;
    OutcomeKeysAreUnique(h[k]);
    if k > 0 {
      assert h[..k][k - 1] == h[k - 1];
      FailingIsTheLastRounds(h[..k]);
      FailedKeysTell(Outcomes(h[k - 1]), key);
    } else {
      NothingFailing(h[..k]);
    }
    LoggedTells(FailingAfter(h[..k]), Outcomes(h[k]), key);
  }

  // ---------------------------------------------------------------------
  // Sessions
  // ---------------------------------------------------------------------

  /** What the engine does to the server: try to connect (opening a session when
      accepted), run a query over the open session, close it. */
  datatype Action = Try(accepted: bool) | Query | Close

  function Refusals(n: nat): seq<Action>
  {
    seq(n, _ => Try(false))
  }

  function ConnectActions(a: Attempts): seq<Action>
  {
    var (ok, tries) := ConnectFrom(a, 0);
    Refusals(tries - 1) + [Try(ok)]
  }

  /** How many queries the parts take: a second one for the connections unless
      the first failed, and the replay position only on a replica. */
  function HealthQueries(r: Replies): nat
  {
    if r.maxFailed then 4 else 5
  }

  function StorageQueries(r: Replies): nat
  {
    if !r.replicasFailed && IsReplica(r) then 4 else 3
  }

  function ServerQueries(r: Replies): nat
  {
    HealthQueries(r) + StorageQueries(r)
  }

  function Queries(n: nat): seq<Action>
  {
    seq(n, _ => Query)
  }

  /** Connecting, and when it worked using and closing the session. */
  function Visit(a: Attempts, queries: nat): seq<Action>
  {
    ConnectActions(a) + if Connects(a) then Queries(queries) + [Close] else []
  }

  function TableActions(row: DatabaseRow): seq<Action>
  {
    if row.allowConn then Visit(row.attempts, 2) else []
  }

  function AllTableActions(rows: seq<DatabaseRow>): seq<Action>
  {
    if rows == [] then [] else AllTableActions(rows[..|rows| - 1]) + TableActions(rows[|rows| - 1])
  }

  function Actions(r: Replies): seq<Action>
  {
    Visit(r.attempts, ServerQueries(r)) + AllTableActions(Rows(r))
  }

  /** How many sessions are open after the actions. */
  function OpenSessions(t: seq<Action>): int
  {
    if t == [] then 0
    else
      var last := t[|t| - 1];
      OpenSessions(t[..|t| - 1]) + if last == Try(true) then 1 else if last == Close then -1 else 0
  }

  function Tries(t: seq<Action>): nat
  {
    if t == [] then 0 else Tries(t[..|t| - 1]) + if t[|t| - 1].Try? then 1 else 0
  }

  /** At every moment at most one session is open, each query and close has one
      to work on, and none is opened over another. */
  ghost predicate OneAtATime(t: seq<Action>)
  {
    forall i :: 0 <= i <= |t| ==>
      && 0 <= OpenSessions(t[..i]) <= 1
      && (i < |t| ==> (t[i].Try? <==> OpenSessions(t[..i]) == 0))
  }

  lemma {:induction false} SessionsAdd(a: seq<Action>, b: seq<Action>)
    ensures OpenSessions(a + b) == OpenSessions(a) + OpenSessions(b)
    ensures Tries(a + b) == Tries(a) + Tries(b)
    decreases |b|
  {
    if b == [] {
      assert a + b == a;
    } else {
      assert (a + b)[..|a + b| - 1] == a + b[..|b| - 1];
      SessionsAdd(a, b[..|b| - 1]);
    }
  }

  /** Runs that close what they open can follow one another. */
  lemma {:induction false} OneAfterAnother(a: seq<Action>, b: seq<Action>)
    requires OneAtATime(a) && OneAtATime(b) && OpenSessions(a) == 0
    ensures OneAtATime(a + b)
  {
    var t := a + b;
    forall i | 0 <= i <= |t|
      ensures 0 <= OpenSessions(t[..i]) <= 1 && (i < |t| ==> (t[i].Try? <==> OpenSessions(t[..i]) == 0))
    {
      if i <= |a| {
        assert t[..i] == a[..i];
        assert a[..|a|] == a;
        if i == |a| && i < |t| {
          assert b[..0] == [] && t[i] == b[0];
        }
      } else {
        assert t[..i] == a + b[..i - |a|];
        SessionsAdd(a, b[..i - |a|]);
      }
    }
  }

  lemma {:induction false} RefusalsOpenNothing(n: nat)
    ensures OpenSessions(Refusals(n)) == 0 && Tries(Refusals(n)) == n && OneAtATime(Refusals(n))
  {
    if n > 0 {
      RefusalsOpenNothing(n - 1);
      assert Refusals(n) == Refusals(n - 1) + [Try(false)];
      One(Try(false));
      SessionsAdd(Refusals(n - 1), [Try(false)]);
      OneAfterAnother(Refusals(n - 1), [Try(false)]);
    }
  }

  lemma {:induction false} One(a: Action)
    ensures OpenSessions([a]) == (if a == Try(true) then 1 else if a == Close then -1 else 0)
    ensures Tries([a]) == if a.Try? then 1 else 0
    ensures a == Try(false) || a == Try(true) ==> OneAtATime([a])
  {}

  lemma {:induction false} QueriesKeepOpen(n: nat)
    ensures OpenSessions(Queries(n)) == 0 && Tries(Queries(n)) == 0
  {
    if n > 0 {
      QueriesKeepOpen(n - 1);
      assert Queries(n)[..n - 1] == Queries(n - 1);
    }
  }

  /** One whole session: opened, queried, closed. */
  function Session(n: nat): seq<Action>
  {
    [Try(true)] + Queries(n) + [Close]
  }

  lemma {:induction false} SessionIsClosed(n: nat)
    ensures OneAtATime(Session(n)) && OpenSessions(Session(n)) == 0 && Tries(Session(n)) == 1
  {
    var t := Session(n);
    One(Try(true));
    One(Close);
    QueriesKeepOpen(n);
    SessionsAdd([Try(true)], Queries(n));
    SessionsAdd([Try(true)] + Queries(n), [Close]);
    forall i | 0 <= i <= |t|
      ensures 0 <= OpenSessions(t[..i]) <= 1 && (i < |t| ==> (t[i].Try? <==> OpenSessions(t[..i]) == 0))
    {
      if i == 0 {
        assert t[..i] == [];
      } else if i == |t| {
        assert t[..i] == t;
      } else {
        assert t[..i] == [Try(true)] + Queries(i - 1);
        QueriesKeepOpen(i - 1);
        SessionsAdd([Try(true)], Queries(i - 1));
      }
    }
  }

  /** A stretch of actions that leaves no session open. */
  ghost predicate Tidy(t: seq<Action>, tries: nat)
  {
    OneAtATime(t) && OpenSessions(t) == 0 && Tries(t) <= tries
  }

  lemma {:induction false} TidyConcat(a: seq<Action>, b: seq<Action>, m: nat, n: nat)
    requires Tidy(a, m) && Tidy(b, n)
    ensures Tidy(a + b, m + n)
  {
    OneAfterAnother(a, b);
    SessionsAdd(a, b);
  }

  lemma {:induction false} VisitIsTidy(a: Attempts, queries: nat)
    ensures Tidy(Visit(a, queries), CONNECT_ATTEMPTS)
  {
    var (ok, tries) := ConnectFrom(a, 0);
    RefusalsOpenNothing(tries - 1);
    assert Tidy(Refusals(tries - 1), tries - 1);
    if ok {
      assert Visit(a, queries) == Refusals(tries - 1) + Session(queries);
      SessionIsClosed(queries);
      assert Tidy(Session(queries), 1);
      TidyConcat(Refusals(tries - 1), Session(queries), tries - 1, 1);
    } else {
      assert Visit(a, queries) == Refusals(tries - 1) + [Try(false)];
      One(Try(false));
      assert Tidy([Try(false)], 1);
      TidyConcat(Refusals(tries - 1), [Try(false)], tries - 1, 1);
    }
  }

  lemma {:induction false} TablesAreTidy(rows: seq<DatabaseRow>)
    ensures Tidy(AllTableActions(rows), CONNECT_ATTEMPTS * |rows|)
  {
    if rows == [] {
      assert Tidy([], 0);
    } else {
      var n := |rows| - 1;
      TablesAreTidy(rows[..n]);
      VisitIsTidy(rows[n].attempts, 2);
      assert Tidy([], CONNECT_ATTEMPTS);
      hide Tidy, TableActions, Visit;
      TidyConcat(AllTableActions(rows[..n]), TableActions(rows[n]), CONNECT_ATTEMPTS * n, CONNECT_ATTEMPTS);
    }
  }

  /** In any round, for any number of databases and any pattern of failures, at
      most one session is open at every moment, none is left open, and connect
      is tried at most three times per session wanted. */
  lemma {:induction false} SessionsOneAtATime(r: Replies)
    ensures Tidy(Actions(r), CONNECT_ATTEMPTS * (1 + |Rows(r)|))
  {
    VisitIsTidy(r.attempts, ServerQueries(r));
    TablesAreTidy(Rows(r));
    TidyConcat(Visit(r.attempts, ServerQueries(r)), AllTableActions(Rows(r)), CONNECT_ATTEMPTS, CONNECT_ATTEMPTS * |Rows(r)|);
  }

  function QueriesIn(t: seq<Action>): nat
  {
    if t == [] then 0 else QueriesIn(t[..|t| - 1]) + if t[|t| - 1].Query? then 1 else 0
  }

  /** The databases whose tables are read. */
  function Visited(rows: seq<DatabaseRow>): nat
  {
    if rows == [] then 0
    else Visited(rows[..|rows| - 1]) + if rows[|rows| - 1].allowConn && Connects(rows[|rows| - 1].attempts) then 1 else 0
  }

  lemma {:induction false} QueriesAdd(a: seq<Action>, b: seq<Action>)
    ensures QueriesIn(a + b) == QueriesIn(a) + QueriesIn(b)
    decreases |b|
  {
    if b == [] {
      assert a + b == a;
    } else {
      assert (a + b)[..|a + b| - 1] == a + b[..|b| - 1];
      QueriesAdd(a, b[..|b| - 1]);
    }
  }

  lemma {:induction false} QueriesInRuns(n: nat)
    ensures QueriesIn(Queries(n)) == n && QueriesIn(Refusals(n)) == 0
  {
    if n > 0 {
      QueriesInRuns(n - 1);
      assert Queries(n)[..n - 1] == Queries(n - 1) && Refusals(n)[..n - 1] == Refusals(n - 1);
    }
  }

  lemma {:induction false} QueriesInVisit(a: Attempts, queries: nat)
    ensures QueriesIn(Visit(a, queries)) == if Connects(a) then queries else 0
  {
    var (ok, tries) := ConnectFrom(a, 0);
    QueriesInRuns(tries - 1);
    QueriesInRuns(queries);
    QueriesAdd(Refusals(tries - 1), [Try(ok)]);
    QueriesAdd(Queries(queries), [Close]);
    QueriesAdd(ConnectActions(a), Queries(queries) + [Close]);
    assert QueriesIn([Try(ok)]) == 0 && QueriesIn([Close]) == 0 by {
      assert [Try(ok)][..0] == [] && [Close][..0] == [];
    }
    assert ConnectActions(a) + [] == ConnectActions(a);
  }

  lemma {:induction false} QueriesInTables(rows: seq<DatabaseRow>)
    ensures QueriesIn(AllTableActions(rows)) == 2 * Visited(rows)
  {
    if rows != [] {
      var n := |rows| - 1;
      QueriesInTables(rows[..n]);
      QueriesInVisit(rows[n].attempts, 2);
      QueriesAdd(AllTableActions(rows[..n]), TableActions(rows[n]));
    }
  }

  /** Every part is one query, but for the connections, whose count is read only
      after their maximum was, and replication, which on a replica takes another;
      a database's tables take two. */
  lemma {:induction false} EveryPartIsQueried(r: Replies)
    ensures QueriesIn(Actions(r)) ==
            if !Connects(r.attempts) then 0
            else 7 + (if r.maxFailed then 0 else 1)
                 + (if r.server.Some? && r.server.value.inRecovery && !r.replicasFailed then 1 else 0)
                 + 2 * Visited(Rows(r))
  {
    QueriesInVisit(r.attempts, ServerQueries(r));
    QueriesInTables(Rows(r));
    QueriesAdd(Visit(r.attempts, ServerQueries(r)), AllTableActions(Rows(r)));
  }
}
