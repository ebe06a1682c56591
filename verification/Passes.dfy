/**
 What one pass of the tailer's loop does, told from the replies it got: when it
 closes the file, when a switch falls due, what it reads and what it remembers.
 The statements are about whole passes and do not mention their phases.
 */
module Passes {
  import opened Lines
  import opened Text
  import opened TailerModel
  import opened TailerTheorems

  // ---------------------------------------------------------------------
  // How far a drain gets and how it ends
  // ---------------------------------------------------------------------

  /** After j replies the drain asks for another: there is more to read, and the
      reply before neither failed nor came at the end of the run. */
  predicate GoesOn(offset: nat, size: nat, replies: seq<DrainReply>, j: nat)
    requires j <= |replies|
  {
    MoreToRead(offset, size, replies, j) && (j > 0 ==> !replies[j - 1].failed && !replies[j - 1].cancelled)
  }

  /** The drain takes exactly the first k replies. */
  ghost predicate Takes(offset: nat, size: nat, replies: seq<DrainReply>, k: nat)
  {
    && k <= |replies|
    && (forall j :: 0 <= j < k ==> GoesOn(offset, size, replies, j))
    && (k < |replies| ==> !GoesOn(offset, size, replies, k))
  }

  predicate ReadError(replies: seq<DrainReply>, k: nat)
    requires k <= |replies|
  {
    k > 0 && replies[k - 1].failed
  }

  /** Nothing more to read, or no telling because the re-stat failed. */
  predicate CaughtUp(offset: nat, size: nat, replies: seq<DrainReply>, k: nat)
    requires k <= |replies|
  {
    && !ReadError(replies, k)
    && !MoreToRead(offset, size, replies, k)
    && (k > 0 && replies[k - 1].restat.Some? ==> !replies[k - 1].cancelled)
  }

  /** The reads that returned bytes. */
  function Reads(replies: seq<DrainReply>): seq<Bytes>
  {
    if replies == [] then []
    else (if replies[0].data == [] then [] else [replies[0].data]) + Reads(replies[1..])
  }

  lemma {:induction false} GoesOnCons(offset: nat, size: nat, replies: seq<DrainReply>, j: nat)
    requires 0 < j <= |replies|
    requires !replies[0].failed && !replies[0].cancelled && replies[0].restat.Some?
    ensures GoesOn(offset, size, replies, j) <==>
              GoesOn(offset + |replies[0].data|, replies[0].restat.value, replies[1..], j - 1)
    ensures MoreToRead(offset, size, replies, j) <==>
              MoreToRead(offset + |replies[0].data|, replies[0].restat.value, replies[1..], j - 1)
  {
    hide BytesRead, LastSize;
    RepliesCons(size, replies, j);
  }

  lemma {:induction false} TakesCons(offset: nat, size: nat, replies: seq<DrainReply>, k: nat)
    requires Takes(offset, size, replies, k) && size > offset && replies != []
    requires !replies[0].failed && !replies[0].cancelled && replies[0].restat.Some?
    ensures k > 0 && Takes(offset + |replies[0].data|, replies[0].restat.value, replies[1..], k - 1)
    ensures CaughtUp(offset, size, replies, k) <==>
              CaughtUp(offset + |replies[0].data|, replies[0].restat.value, replies[1..], k - 1)
  {
    assert GoesOn(offset, size, replies, 0);
    hide GoesOn, MoreToRead;
    GoesOnCons(offset, size, replies, k);
    var offset', size', rest := offset + |replies[0].data|, replies[0].restat.value, replies[1..];
    forall j | 0 <= j < k - 1
      ensures GoesOn(offset', size', rest, j)
    {
      GoesOnCons(offset, size, replies, j + 1);
    }
  }

  lemma {:induction false} TakesNone(offset: nat, size: nat, replies: seq<DrainReply>, k: nat)
    requires Takes(offset, size, replies, k) && (size <= offset || replies == [])
    ensures k == 0 && (CaughtUp(offset, size, replies, 0) <==> size <= offset)
  {
    assert GoesOn(offset, size, replies, 0) ==> size > offset;
  }

  lemma {:induction false} TakesOne(offset: nat, size: nat, replies: seq<DrainReply>, k: nat)
    requires Takes(offset, size, replies, k) && size > offset && replies != []
    requires replies[0].failed || replies[0].cancelled || replies[0].restat.None?
    ensures k == 1
    ensures CaughtUp(offset, size, replies, 1) <==> !replies[0].failed && replies[0].restat.None?
  {
    assert GoesOn(offset, size, replies, 0);
    assert replies[..1] == [replies[0]];
    assert !GoesOn(offset, size, replies, 1);
  }

  /** The reader after these replies, and how the drain ended. */
  ghost predicate DrainTells(r: Reader, size: nat, replies: seq<DrainReply>, k: nat, o: DrainOutcome)
    requires k <= |replies| && r.openings != []
  {
    && (o.end.ReadFailed? <==> ReadError(replies, k))
    && (o.end.Drained? || o.end.RestatFailed? <==> CaughtUp(r.offset, size, replies, k))
    && o.reader.offset == r.offset + BytesRead(replies[..k])
    && o.reader.openings == ReadThrough(r.openings, Reads(replies[..k]))
    && o.reader.path == r.path && o.reader.ino == r.ino
    && (o.reader.open <==> !ReadError(replies, k))
    && (ReadError(replies, k) ==> o.reader.buffer == [])
  }

  lemma {:induction false} DrainIsTold(max: nat, r: Reader, size: nat, replies: seq<DrainReply>, k: nat)
    requires r.open && Sound(r) && Takes(r.offset, size, replies, k)
    ensures DrainTells(r, size, replies, k, Drain(max, r, size, replies))
    decreases |replies|
  {
    assert k <= |replies|;
    hide Absorb, MoreToRead, GoesOn, Takes;
    ReadNothing(r.openings);
    if size <= r.offset || replies == [] {
      TakesNone(r.offset, size, replies, k);
    } else {
      var reply := replies[0];
      var r1 := if reply.data == [] then r else Absorb(max, r, reply.data);
      OneDrained(max, r, reply);
      if reply.failed || reply.cancelled || reply.restat.None? {
        TakesOne(r.offset, size, replies, k);
        OneRead(replies);
      } else {
        TakesCons(r.offset, size, replies, k);
        hide DrainTells, CaughtUp, ReadError, ReadThrough, Reads, BytesRead;
        DrainIsTold(max, r1, reply.restat.value, replies[1..], k - 1);
        ToldOfMore(r, r1, size, replies, k, Drain(max, r1, reply.restat.value, replies[1..]));
      }
    }
  }

  lemma {:induction false} ToldOfMore(r: Reader, r1: Reader, size: nat, replies: seq<DrainReply>, k: nat, o: DrainOutcome)
    requires r.openings != [] && 0 < k <= |replies|
    requires !replies[0].failed && !replies[0].cancelled && replies[0].restat.Some?
    requires r1.openings == ReadThrough(r.openings, Reads([replies[0]])) && r1.offset == r.offset + |replies[0].data|
    requires r1.path == r.path && r1.ino == r.ino
    requires DrainTells(r1, replies[0].restat.value, replies[1..], k - 1, o)
    requires CaughtUp(r.offset, size, replies, k) <==> CaughtUp(r1.offset, replies[0].restat.value, replies[1..], k - 1)
    ensures DrainTells(r, size, replies, k, o)
  {
    hide CaughtUp, ReadThrough, Reads, BytesRead;
    ReadsCons(replies, k);
    ReadThroughTwice(r.openings, Reads([replies[0]]), Reads(replies[1..][..k - 1]));
  }

  lemma {:induction false} OneDrained(max: nat, r: Reader, reply: DrainReply)
    requires r.open && Sound(r)
    ensures var r1 := if reply.data == [] then r else Absorb(max, r, reply.data);
            && r1.open && Sound(r1) && r1.offset == r.offset + |reply.data|
            && r1.path == r.path && r1.ino == r.ino
            && r1.openings == ReadThrough(r.openings, Reads([reply]))
  {
    hide Absorb;
    ReadNothing(r.openings);
    assert Reads([reply]) == if reply.data == [] then [] else [reply.data] by {
      assert [reply][1..] == [] && Reads([]) == [];
    }
    AbsorbReads(max, r, reply.data);
    AbsorbAdvances(max, r, reply.data);
  }

  lemma {:induction false} OneRead(replies: seq<DrainReply>)
    requires replies != []
    ensures Reads(replies[..1]) == Reads([replies[0]]) && BytesRead(replies[..1]) == |replies[0].data|
  {
    assert replies[..1] == [replies[0]];
  }

  lemma {:induction false} ReadsCons(replies: seq<DrainReply>, k: nat)
    requires 0 < k <= |replies|
    ensures Reads(replies[..k]) == Reads([replies[0]]) + Reads(replies[1..][..k - 1])
    ensures BytesRead(replies[..k]) == |replies[0].data| + BytesRead(replies[1..][..k - 1])
  {
    assert replies[..k][1..] == replies[1..][..k - 1];
    assert [replies[0]][1..] == [];
  }

  /** A drain takes some number of replies, and only one number will do. */
  lemma {:induction false} SomeAreTaken(offset: nat, size: nat, replies: seq<DrainReply>, j: nat) returns (k: nat)
    requires j <= |replies| && forall i :: 0 <= i < j ==> GoesOn(offset, size, replies, i)
    ensures Takes(offset, size, replies, k)
    decreases |replies| - j
  {
    hide GoesOn;
    if j < |replies| && GoesOn(offset, size, replies, j) {
      k := SomeAreTaken(offset, size, replies, j + 1);
    } else {
      k := j;
    }
  }

  lemma {:induction false} TakenIsDetermined(offset: nat, size: nat, replies: seq<DrainReply>, j: nat, k: nat)
    requires Takes(offset, size, replies, j) && Takes(offset, size, replies, k)
    ensures j == k
  {
    hide GoesOn;
  }

  // ---------------------------------------------------------------------
  // A pass that starts with the file open
  // ---------------------------------------------------------------------

  predicate CheckDue(s: State)
  {
    (s.cycle + 1) % 25 == 0
  }

  predicate GoneOrReplaced(ino: nat, r: RotationReply)
  {
    r.gone || (r.current.Some? && r.current.value != ino)
  }

  /** A check is due and finds the path gone or of another inode. */
  predicate FindsReplaced(s: State, r: RotationReply)
  {
    CheckDue(s) && GoneOrReplaced(s.reader.ino, r)
  }

  /** A check is due and looks for another match of the glob. */
  predicate LooksForNewer(s: State, r: RotationReply)
  {
    CheckDue(s) && !GoneOrReplaced(s.reader.ino, r) && s.glob && !s.switchPending
  }

  /** The newest match not left is another file, modified after the open one. */
  ghost predicate NewerMatch(s: State, r: RotationReply)
  {
    && r.ownMtime.Some?
    && exists e :: IsNewest(s.left, r.scan, e) && e.path != s.reader.path && e.mtime > r.ownMtime.value
  }

  /** The scan saw a regular file of this inode. */
  ghost predicate Saw(scan: seq<ScanEntry>, x: nat)
  {
    exists e :: e in scan && e.regular && e.ino == x
  }

  lemma {:induction false} PresentIsSeen(scan: seq<ScanEntry>)
    ensures forall x :: x in Present(scan) <==> Saw(scan, x)
  {
    forall x | x in Present(scan)
      ensures Saw(scan, x)
    {
      var i :| 0 <= i < |scan| && scan[i].regular && scan[i].ino == x;
      assert scan[i] in scan;
    }
  }

  /** Whether a switch is due once this pass has checked. */
  ghost predicate SwitchDue(s: State, r: RotationReply)
  {
    if LooksForNewer(s, r) then NewerMatch(s, r) else s.switchPending
  }

  /** The pass gets to the drain. */
  predicate GetsToRead(s: State, it: Iteration)
  {
    !it.cancelled && !FindsReplaced(s, it.rotation) && it.size.Some? && it.size.value >= s.reader.offset
  }

  /** How the drain of this pass ended, when it takes k replies. */
  predicate EndsInError(s: State, it: Iteration, k: nat)
  {
    GetsToRead(s, it) && k <= |it.drain| && ReadError(it.drain, k)
  }

  predicate EndsCaughtUp(s: State, it: Iteration, k: nat)
  {
    GetsToRead(s, it) && k <= |it.drain| && CaughtUp(s.reader.offset, it.size.value, it.drain, k)
  }

  ghost predicate TakesInPass(s: State, it: Iteration, k: nat)
  {
    k <= |it.drain| && (it.size.Some? ==> Takes(s.reader.offset, it.size.value, it.drain, k))
  }

  lemma {:induction false} RotationTells(s: State, r: RotationReply)
    requires NamedScan(r.scan) && s.reader.open
    ensures var t := RotationPhase(s, r);
            && t == s.(cycle := s.cycle + 1, left := t.left, switchPending := t.switchPending, reader := t.reader)
            && t.reader == (if FindsReplaced(s, r) then Close(s.reader) else s.reader)
            && (t.switchPending <==> SwitchDue(s, r))
            && t.left == if LooksForNewer(s, r) && r.ownMtime.Some? then s.left * Present(r.scan) else s.left
  {
    hide Newest, IsNewest;
    SwitchDueExactlyWhenNewer(s.(cycle := s.cycle + 1), r);
  }

  /** The state after a pass that started open, told from its replies. */
  ghost predicate PassTells(s: State, it: Iteration, k: nat, t: State)
    requires s.reader.openings != [] && k <= |it.drain|
  {
    var r := it.rotation;
    var switches := SwitchDue(s, r) && EndsCaughtUp(s, it, k);
    && (!t.reader.open <==>
          && !it.cancelled
          && (|| FindsReplaced(s, r) || it.size.None? || it.size.value < s.reader.offset
              || EndsInError(s, it, k) || switches))
    && (t.done <==> it.cancelled || (GetsToRead(s, it) && !EndsInError(s, it, k) && !EndsCaughtUp(s, it, k)))
    && t.switched == s.switched + (if switches then [s.reader.ino] else [])
    && (forall x :: x in t.left <==>
          || (switches && x == s.reader.ino)
          || (x in s.left && (!it.cancelled && LooksForNewer(s, r) && r.ownMtime.Some? ==> Saw(r.scan, x))))
    && t.reader.openings == ReadThrough(s.reader.openings, if GetsToRead(s, it) then Reads(it.drain[..k]) else [])
    && t.reader.offset == s.reader.offset + (if GetsToRead(s, it) then BytesRead(it.drain[..k]) else 0)
    && (!GetsToRead(s, it) ==> t.reader.published == s.reader.published)
    && (!t.reader.open ==> t.reader.buffer == [])
    && t.reader.path == s.reader.path && t.reader.ino == s.reader.ino
    && t.cycle == s.cycle + (if it.cancelled then 0 else 1)
    && (t.switchPending <==> if it.cancelled then s.switchPending else SwitchDue(s, r))
    && t.glob == s.glob && t.startAtEnd == s.startAtEnd
  }

  lemma {:induction false} PassFromOpen(max: nat, s: State, it: Iteration, k: nat)
    requires Sound(s.reader) && s.reader.open && !s.done && NamedScan(it.rotation.scan) && TakesInPass(s, it, k)
    ensures PassTells(s, it, k, Poll(max, s, it))
  {
    RotationTells(s, it.rotation);
    PresentIsSeen(it.rotation.scan);
    ReadNothing(s.reader.openings);
    hide RotationPhase, ReadPhase, Present, Saw, Takes, MoreToRead, NewerMatch, Reads, BytesRead, ReadThrough, ReadError, CaughtUp;
    var s2 := RotationPhase(s, it.rotation);
    if s2.reader.open && !it.cancelled {
      ReadIsTold(max, s2, it, k);
    }
  }

  /** The same for the part after the check. */
  lemma {:induction false} ReadIsTold(max: nat, s: State, it: Iteration, k: nat)
    requires Sound(s.reader) && s.reader.open && !s.done && TakesInPass(s, it, k)
    ensures var t := ReadPhase(max, s, it);
            var drains := it.size.Some? && it.size.value >= s.reader.offset;
            var failed := drains && ReadError(it.drain, k);
            var caught := drains && CaughtUp(s.reader.offset, it.size.value, it.drain, k);
            && (!t.reader.open <==> !drains || failed || (s.switchPending && caught))
            && (t.done <==> drains && !failed && !caught)
            && t.switched == s.switched + (if s.switchPending && caught then [s.reader.ino] else [])
            && t.left == s.left + (if s.switchPending && caught then {s.reader.ino} else {})
            && t.reader.openings == ReadThrough(s.reader.openings, if drains then Reads(it.drain[..k]) else [])
            && t.reader.offset == s.reader.offset + (if drains then BytesRead(it.drain[..k]) else 0)
            && (!drains ==> t.reader.published == s.reader.published)
            && (!t.reader.open ==> t.reader.buffer == [])
            && t.reader.path == s.reader.path && t.reader.ino == s.reader.ino
            && t == s.(reader := t.reader, done := t.done, switched := t.switched, left := t.left)
  {
    hide Drain, Takes, MoreToRead, Reads, BytesRead, ReadThrough, ReadError, CaughtUp;
    ReadNothing(s.reader.openings);
    if it.size.Some? {
      DrainIsTold(max, s.reader, it.size.value, it.drain, k);
    }
  }

  // ---------------------------------------------------------------------
  // A pass that starts with no file open
  // ---------------------------------------------------------------------

  /** The pass gets a file open: there is a candidate, and opening it succeeds. */
  ghost predicate Opens(s: State, it: Iteration)
  {
    && it.open.Opened?
    && if s.glob then exists e :: e in it.scan && e.regular && e.ino !in s.left else !it.missing
  }

  /** Of the inodes left, a glob's scan forgets those it does not see. */
  ghost predicate Remembers(s: State, it: Iteration, t: State)
  {
    forall x :: x in t.left <==> x in s.left && (s.glob ==> Saw(it.scan, x))
  }

  /** The state once the file is open: a new opening, of the newest candidate,
      from the end only if it is the first of the run. */
  ghost predicate JustOpened(s: State, it: Iteration, o: State)
    requires it.open.Opened?
  {
    && (if s.glob then exists e :: IsNewest(s.left, it.scan, e) && e.path == o.reader.path else o.reader.path == s.reader.path)
    && o.reader == Reader(o.reader.path, true, it.open.ino, o.reader.offset, s.reader.buffer, s.reader.published,
                          s.reader.openings + [Opening(o.reader.path, it.open.ino, o.reader.offset, [])])
    && o.reader.offset == (if s.reader.openings == [] then it.open.end else 0)
    && Remembers(s, it, o)
    && o == State(s.glob, o.left, false, s.cycle, false, s.done, s.switched, o.reader)
  }

  /** The state when it cannot: still nothing open, and nothing read. */
  ghost predicate StillClosed(s: State, it: Iteration, t: State)
  {
    && !t.reader.open && t.reader.openings == s.reader.openings && t.reader.published == s.reader.published
    && t.reader.buffer == s.reader.buffer
    && Remembers(s, it, t)
    && t == State(s.glob, t.left, s.startAtEnd, s.cycle, false, s.done, s.switched, t.reader)
  }

  /** A pass that starts with no file open either leaves it so, or opens one and
      then does what a pass does that starts with it open. */
  lemma {:induction false} PassFromClosed(max: nat, s: State, it: Iteration) returns (o: State)
    requires Sound(s.reader) && !s.reader.open && !s.done && !it.cancelled && NamedScan(it.scan) && StartsInv(s)
    ensures if Opens(s, it) then JustOpened(s, it, o) && Poll(max, s, it) == Poll(max, o, it)
            else StillClosed(s, it, Poll(max, s, it))
  {
    NewestIsMaximal(s.left, it.scan);
    PresentIsSeen(it.scan);
    o := OpenPhase(s, it);
    if s.glob && Opens(s, it) {
      assert exists e :: e in it.scan && Eligible(s.left, e);
      NewestIsNewest(s.left, it.scan);
    }
    hide RotationPhase, ReadPhase, Newest, Present, Saw;
  }

  lemma {:induction false} NewestIsNewest(left: set<nat>, scan: seq<ScanEntry>)
    requires NamedScan(scan) && exists e :: e in scan && Eligible(left, e)
    ensures exists e :: IsNewest(left, scan, e) && e.path == Newest(left, scan).0
  {
    NewestIsMaximal(left, scan);
    var (name, mtime) := Newest(left, scan);
    var e :| e in scan && Eligible(left, e) && e.path == name && e.mtime == mtime;
    assert IsNewest(left, scan, e);
  }

  /** Cancellation ends the run before anything else, and nothing follows. */
  lemma {:induction false} CancelledRunEnds(max: nat, s: State, it: Iteration, later: seq<Iteration>)
    requires Sound(s.reader) && it.cancelled
    ensures Run(max, s, [it] + later) == s.(done := true)
    decreases |later|
  {
    if later == [] {
      assert [it] + later == [it] && Run(max, s, [it][..0]) == s;
    } else {
      var n := |later| - 1;
      CancelledRunEnds(max, s, it, later[..n]);
      assert [it] + later == ([it] + later[..n]) + [later[n]];
      RunSnoc(max, s, [it] + later[..n], later[n]);
    }
  }

  // ---------------------------------------------------------------------
  // Whole runs
  // ---------------------------------------------------------------------

  lemma {:induction false} RunSnoc(max: nat, s: State, its: seq<Iteration>, it: Iteration)
    requires Sound(s.reader)
    ensures Run(max, s, its + [it]) == Poll(max, Run(max, s, its), it)
  {
    assert (its + [it])[..|its|] == its;
  }

  /** Truncation is noticed at once, in every run: a pass that finds the file
      shorter than what was read of it publishes nothing and closes it, and
      whatever happens next, the next opening reads from the start. */
  lemma {:induction false} TruncationIsNoticed(max: nat, pattern: string, its: seq<Iteration>, it: Iteration, later: seq<Iteration>)
    requires var s := Run(max, Init(pattern), its);
             s.reader.open && !s.done && !it.cancelled && it.size.Some? && it.size.value < s.reader.offset
    requires NamedScan(it.rotation.scan)
    ensures var s, t := Run(max, Init(pattern), its), Run(max, Init(pattern), its + [it]);
            && !t.reader.open && t.reader.buffer == []
            && t.reader.published == s.reader.published && t.reader.openings == s.reader.openings
    ensures var n := |Run(max, Init(pattern), its).reader.openings|;
            var os := Run(max, Init(pattern), its + [it] + later).reader.openings;
            n < |os| ==> os[n].start == 0
  {
    var s := Run(max, Init(pattern), its);
    var k := SomeAreTaken(s.reader.offset, it.size.value, it.drain, 0);
    hide Takes, Poll, ReadThrough, Reads;
    PassFromOpen(max, s, it, k);
    RunSnoc(max, Init(pattern), its, it);
    ReadNothing(s.reader.openings);
    LaterOpeningsStartAtZero(max, pattern, its + [it] + later);
  }

  /** The pass has a file to look at: one was open, or it opens one. */
  ghost predicate HasFile(s: State, it: Iteration)
  {
    !s.done && !it.cancelled && (s.reader.open || Opens(s, it))
  }

  ghost function PassesWithFile(max: nat, s: State, its: seq<Iteration>): nat
    requires Sound(s.reader)
  {
    if its == [] then 0
    else
      var init, it := its[..|its| - 1], its[|its| - 1];
      PassesWithFile(max, s, init) + if HasFile(Run(max, s, init), it) then 1 else 0
  }

  lemma {:induction false} CycleOfPass(max: nat, s: State, it: Iteration)
    requires Sound(s.reader) && NamedScan(it.scan) && NamedScan(it.rotation.scan) && StartsInv(s)
    ensures Poll(max, s, it).cycle == s.cycle + if HasFile(s, it) then 1 else 0
  {
    var o := s;
    if !s.done && !it.cancelled && !s.reader.open {
      o := PassFromClosed(max, s, it);
    }
    if HasFile(s, it) {
      var k := 0;
      if it.size.Some? {
        k := SomeAreTaken(o.reader.offset, it.size.value, it.drain, 0);
      }
      hide Poll, Takes, Opens, EndsCaughtUp, EndsInError;
      PassFromOpen(max, o, it, k);
    }
  }

  /** In every run the check falls due on every 25th pass that has a file, counted
      from the start of the run and over all files. */
  lemma {:induction false} CycleCountsPassesWithFile(max: nat, pattern: string, its: seq<Iteration>)
    requires forall it :: it in its ==> NamedScan(it.scan) && NamedScan(it.rotation.scan)
    ensures Run(max, Init(pattern), its).cycle == PassesWithFile(max, Init(pattern), its)
  {
    hide Poll, HasFile, NamedScan, StartsInv;
    if its != [] {
      var n := |its| - 1;
      CycleCountsPassesWithFile(max, pattern, its[..n]);
      LaterOpeningsStartAtZero(max, pattern, its[..n]);
      CycleOfPass(max, Run(max, Init(pattern), its[..n]), its[n]);
    }
  }

  /** What ends the following of a file other than a switch. */
  ghost predicate Trouble(s: State, it: Iteration, k: nat)
  {
    FindsReplaced(s, it.rotation) || it.size.None? || it.size.value < s.reader.offset || EndsInError(s, it, k)
  }

  /** Before every pass of the run a newer match than the open file is there. */
  ghost predicate NewerStays(max: nat, s: State, its: seq<Iteration>)
    requires Sound(s.reader)
  {
    forall n :: 0 <= n < |its| ==> NamedScan(its[n].rotation.scan) && NewerMatch(Run(max, s, its[..n]), its[n].rotation)
  }

  lemma {:induction false} DueByNow(max: nat, s: State, its: seq<Iteration>)
    requires Sound(s.reader) && s.reader.open && s.glob && NewerStays(max, s, its)
    requires NeverClosed(max, s, its) && !Run(max, s, its).done
    ensures var t := Run(max, s, its);
            && t.glob && t.cycle == s.cycle + |its| && t.switched == s.switched
            && t.reader.ino == s.reader.ino && NoCheckDue(s.cycle, |its|)
  {
    hide Poll, NewerMatch;
    if its != [] {
      var n := |its| - 1;
      var before := Run(max, s, its[..n]);
      DoneStays(max, before, its[n]);
      NewerStaysBefore(max, s, its, n);
      DueByNow(max, s, its[..n]);
      OpenAfterAll(max, s, its[..n]);
      DueAfterPass(max, before, its[n]);
      OneMoreCycle(s.cycle, n);
    } else {
      assert NoCheckDue(s.cycle, 0);
    }
  }

  lemma {:induction false} NewerStaysBefore(max: nat, s: State, its: seq<Iteration>, n: nat)
    requires Sound(s.reader) && NewerStays(max, s, its) && n <= |its|
    ensures NewerStays(max, s, its[..n])
  {
    hide NewerMatch, Run;
    forall m | 0 <= m < n
      ensures NamedScan(its[..n][m].rotation.scan) && NewerMatch(Run(max, s, its[..n][..m]), its[..n][m].rotation)
    {
      assert its[..n][..m] == its[..m];
    }
  }

  lemma {:induction false} DueAfterPass(max: nat, s: State, it: Iteration)
    requires Sound(s.reader) && s.reader.open && !s.done && s.glob && NamedScan(it.rotation.scan) && NewerMatch(s, it.rotation)
    ensures var t := Poll(max, s, it);
            t.reader.open && !t.done ==>
              && t.glob && t.cycle == s.cycle + 1 && t.switched == s.switched
              && t.reader.ino == s.reader.ino && t.cycle % 25 != 0
  {
    var k := 0;
    if it.size.Some? {
      k := SomeAreTaken(s.reader.offset, it.size.value, it.drain, 0);
    }
    hide Poll, Takes, NewerMatch, EndsCaughtUp, EndsInError;
    PassFromOpen(max, s, it, k);
  }

  lemma {:induction false} FirstClosed(max: nat, s: State, its: seq<Iteration>) returns (n: nat)
    requires Sound(s.reader) && s.reader.open && !NeverClosed(max, s, its)
    ensures n < |its| && NeverClosed(max, s, its[..n]) && !Run(max, s, its[..n + 1]).reader.open
  {
    var m := |its| - 1;
    if NeverClosed(max, s, its[..m]) {
      n := m;
      assert its[..n + 1] == its;
    } else {
      hide Run;
      n := FirstClosed(max, s, its[..m]);
      assert its[..m][..n] == its[..n] && its[..m][..n + 1] == its[..n + 1];
    }
  }

  lemma {:induction false} NotDoneBefore(max: nat, s: State, its: seq<Iteration>, n: nat)
    requires Sound(s.reader) && n <= |its| && !Run(max, s, its).done
    ensures !Run(max, s, its[..n]).done
  {
    if n == |its| {
      assert its[..n] == its;
    } else {
      hide Poll;
      var m := |its| - 1;
      DoneStays(max, Run(max, s, its[..m]), its[m]);
      NotDoneBefore(max, s, its[..m], n);
      assert its[..m][..n] == its[..n];
    }
  }

  /** A newer match is followed: as long as one stays there, within 25 passes the
      run ends or the open file is closed, and closed by switching away from it
      unless it was replaced, truncated or could not be read. */
  lemma {:induction false} NewerMatchIsFollowed(max: nat, s: State, its: seq<Iteration>) returns (n: nat, k: nat)
    requires Sound(s.reader) && s.reader.open && s.glob && NewerStays(max, s, its)
    requires |its| == 25 && !Run(max, s, its).done
    ensures n < 25 && k <= |its[n].drain|
    ensures var before, after := Run(max, s, its[..n]), Run(max, s, its[..n + 1]);
            && before.reader.open && before.reader.ino == s.reader.ino && !after.reader.open
            && TakesInPass(before, its[n], k)
            && (Trouble(before, its[n], k) || after.switched == s.switched + [s.reader.ino])
  {
    hide Run, NeverClosed, NewerMatch, NoCheckDue, Trouble;
    if NeverClosed(max, s, its) {
      DueByNow(max, s, its);
      NoCheckAt(s.cycle, |its|, 25 - s.cycle % 25);
    }
    n := FirstClosed(max, s, its);
    NotDoneBefore(max, s, its, n);
    NotDoneBefore(max, s, its, n + 1);
    NewerStaysBefore(max, s, its, n);
    OpenAfterAll(max, s, its[..n]);
    DueByNow(max, s, its[..n]);
    assert its[..n] + [its[n]] == its[..n + 1];
    RunSnoc(max, s, its[..n], its[n]);
    k := ClosedByPass(max, Run(max, s, its[..n]), its[n]);
  }

  /** A file closed without trouble was switched away from. */
  lemma {:induction false} ClosedByPass(max: nat, s: State, it: Iteration) returns (k: nat)
    requires Sound(s.reader) && s.reader.open && !s.done && NamedScan(it.rotation.scan) && !Poll(max, s, it).reader.open
    ensures TakesInPass(s, it, k)
    ensures Trouble(s, it, k) || Poll(max, s, it).switched == s.switched + [s.reader.ino]
  {
    k := 0;
    if it.size.Some? {
      k := SomeAreTaken(s.reader.offset, it.size.value, it.drain, 0);
    }
    hide Poll, Takes, NewerMatch, EndsCaughtUp, EndsInError;
    PassFromOpen(max, s, it, k);
  }
}
