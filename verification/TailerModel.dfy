/**
 The log tailer's run loop as a step function over operating system replies.

 One `Iteration` holds every reply one pass of the loop may consume: what the
 glob and the stats said, what opening returned, and each read of the drain
 loop. Nothing relates one reply to the next, so appends, truncations, renames,
 deletions and I/O errors at any moment are all covered. A drain whose replies
 run out is a run cut off there by cancellation, so the states inside a drain
 are states of some run too.
 */
module TailerModel {
  import opened Lines
  import opened Text

  const ROTATION_CHECK_EVERY := 25

  /** One glob match as a scan saw it; a failed stat reads as not regular. */
  datatype ScanEntry = ScanEntry(path: string, regular: bool, ino: nat, mtime: int)

  datatype OpenReply = OpenFailed | Opened(ino: nat, end: nat)

  /** The replies of the periodic check: whether the path is gone, the inode it
      names now, the open file's own mtime, and a scan. */
  datatype RotationReply = RotationReply(
    gone: bool, current: Option<nat>, ownMtime: Option<int>, scan: seq<ScanEntry>)

  /** One read of the drain loop: the bytes it returned, whether it failed with
      anything but end of file, the size the re-stat saw, and cancellation. */
  datatype DrainReply = DrainReply(data: Bytes, failed: bool, restat: Option<nat>, cancelled: bool)

  datatype Iteration = Iteration(
    cancelled: bool, missing: bool, scan: seq<ScanEntry>, open: OpenReply,
    rotation: RotationReply, size: Option<nat>, drain: seq<DrainReply>)

  datatype Event = Event(path: string, message: Bytes)

  /** One successful open and every read made through it. */
  datatype Opening = Opening(path: string, ino: nat, start: nat, chunks: seq<Bytes>)

  /** The open file and what was read through it, the log of published
      events, and the history of openings, which no branch reads. */
  datatype Reader = Reader(
    path: string, open: bool, ino: nat, offset: nat, buffer: Bytes,
    published: seq<Event>, openings: seq<Opening>)

  /** The loop's other variables and the history of inodes switched away from. */
  datatype State = State(
    glob: bool, left: set<nat>, startAtEnd: bool, cycle: nat, switchPending: bool, done: bool,
    switched: seq<nat>, reader: Reader)

  function Init(pattern: string): State
  {
    State(HasWildcard(pattern), {}, true, 0, false, false, [], Reader(pattern, false, 0, 0, [], [], []))
  }

  // ---------------------------------------------------------------------
  // Scanning for the newest match
  // ---------------------------------------------------------------------

  predicate Eligible(left: set<nat>, e: ScanEntry)
  {
    e.regular && e.ino !in left
  }

  /** The most recently modified eligible match, ties to the later name, and ""
      when there is none. */
  function Newest(left: set<nat>, scan: seq<ScanEntry>): (r: (string, int))
  {
    if scan == [] then ("", 0)
    else
      var (name, mtime) := Newest(left, scan[..|scan| - 1]);
      var e := scan[|scan| - 1];
      if Eligible(left, e) && (name == "" || e.mtime > mtime || (e.mtime == mtime && Less(name, e.path)))
      then (e.path, e.mtime)
      else (name, mtime)
  }

  function Present(scan: seq<ScanEntry>): set<nat>
  {
    set i | 0 <= i < |scan| && scan[i].regular :: scan[i].ino
  }

  /** A glob never yields an empty path. */
  ghost predicate NamedScan(scan: seq<ScanEntry>)
  {
    forall e :: e in scan ==> e.path != ""
  }

  /** A candidate no newer than (name, mtime). */
  predicate NotAbove(e: ScanEntry, name: string, mtime: int)
  {
    e.mtime < mtime || (e.mtime == mtime && (e.path == name || Less(e.path, name)))
  }

  /** The single pass finds the maximum by modification time, then by name. */
  lemma {:induction false} NewestIsMaximal(left: set<nat>, scan: seq<ScanEntry>)
    requires NamedScan(scan)
    ensures var (name, mtime) := Newest(left, scan);
            && (name == "" <==> forall e :: e in scan ==> !Eligible(left, e))
            && (name != "" ==> exists e :: e in scan && Eligible(left, e) && e.path == name && e.mtime == mtime)
            && forall e :: e in scan && Eligible(left, e) ==> NotAbove(e, name, mtime)
  {
    if scan != [] {
      var init, e := scan[..|scan| - 1], scan[|scan| - 1];
      assert scan == init + [e];
      NewestIsMaximal(left, init);
      var (name, mtime) := Newest(left, init);
      var (name', mtime') := Newest(left, scan);
      LessIsTotal(name, e.path);
      forall x | x in scan && Eligible(left, x)
        ensures NotAbove(x, name', mtime')
      {
        if x != e && x.mtime == mtime == e.mtime && name' != name && x.path != name {
          LessIsTransitive(x.path, name, e.path);
        }
      }
    }
  }

  // ---------------------------------------------------------------------
  // One pass of the loop
  // ---------------------------------------------------------------------

  function Close(r: Reader): Reader
  {
    r.(open := false, buffer := [])
  }

  predicate Sound(r: Reader)
  {
    r.open ==> r.openings != []
  }

  function OpenFile(s: State, reply: OpenReply): State
  {
    var r := s.reader;
    match reply
    case OpenFailed => s.(reader := r.(ino := 0, offset := 0))
    case Opened(ino, end) =>
      var offset := if s.startAtEnd then end else 0;
      s.(startAtEnd := false,
         reader := r.(open := true, ino := ino, offset := offset,
                      openings := r.openings + [Opening(r.path, ino, offset, [])]))
  }

  function OpenPhase(s: State, it: Iteration): (t: State)
    ensures Sound(s.reader) ==> Sound(t.reader)
  {
    if s.reader.open then s
    else
      var s := s.(switchPending := false);
      if s.glob then
        var (name, _) := Newest(s.left, it.scan);
        var s := s.(left := s.left * Present(it.scan));
        if name == "" then s else OpenFile(s.(reader := s.reader.(path := name)), it.open)
      else if it.missing then s
      else OpenFile(s, it.open)
  }

  /** Whether another match is newer than the open file, with the scan's pruning. */
  function CheckNewer(s: State, r: RotationReply): State
  {
    match r.ownMtime
    case None => s.(switchPending := false)
    case Some(own) =>
      var (name, mtime) := Newest(s.left, r.scan);
      s.(left := s.left * Present(r.scan),
         switchPending := name != "" && name != s.reader.path && mtime > own)
  }

  function RotationPhase(s: State, r: RotationReply): (t: State)
    ensures Sound(s.reader) ==> Sound(t.reader)
  {
    var s := s.(cycle := s.cycle + 1);
    if s.cycle % ROTATION_CHECK_EVERY != 0 then s
    else if r.gone || (r.current.Some? && r.current.value != s.reader.ino) then s.(reader := Close(s.reader))
    else if s.glob && !s.switchPending then CheckNewer(s, r)
    else s
  }

  function Tag(path: string, messages: seq<Bytes>): (r: seq<Event>)
    ensures |r| == |messages|
  {
    seq(|messages|, i requires 0 <= i < |messages| => Event(path, messages[i]))
  }

  /** A read of at least one byte: buffer it, flush, publish. */
  function Absorb(max: nat, r: Reader, data: Bytes): Reader
    requires r.openings != []
  {
    var f := Flush(max, r.buffer + data);
    var k := |r.openings| - 1;
    var o := r.openings[k];
    r.(offset := r.offset + |data|, buffer := f.rest,
       published := r.published + Tag(r.path, EmitAll(f.segments)),
       openings := r.openings[..k] + [o.(chunks := o.chunks + [data])])
  }

  datatype DrainEnd = Drained | RestatFailed | ReadFailed | Cancelled
  datatype DrainOutcome = DrainOutcome(reader: Reader, end: DrainEnd)

  function Drain(max: nat, r: Reader, size: nat, replies: seq<DrainReply>): (o: DrainOutcome)
    requires r.open && Sound(r)
    ensures Sound(o.reader)
    ensures o.reader.open <==> !o.end.ReadFailed?
    decreases |replies|
  {
    if size <= r.offset then DrainOutcome(r, Drained)
    else if replies == [] then DrainOutcome(r, Cancelled)
    else
      var reply := replies[0];
      var r1 := if reply.data == [] then r else Absorb(max, r, reply.data);
      if reply.failed then DrainOutcome(Close(r1), ReadFailed)
      else if reply.restat.None? then DrainOutcome(r1, RestatFailed)
      else if reply.cancelled then DrainOutcome(r1, Cancelled)
      else Drain(max, r1, reply.restat.value, replies[1..])
  }

  function Inodes(os: seq<Opening>): seq<nat>
  {
    seq(|os|, i requires 0 <= i < |os| => os[i].ino)
  }

  ghost predicate RepliesWithin(replies: seq<DrainReply>, size: nat)
  {
    forall i :: 0 <= i < |replies| ==> |replies[i].data| <= size
  }

  /** The openings after these further reads through the last one. */
  function ReadThrough(os: seq<Opening>, chunks: seq<Bytes>): (r: seq<Opening>)
    requires os != []
    ensures |r| == |os| && r[..|os| - 1] == os[..|os| - 1] && Inodes(r) == Inodes(os)
  {
    var o := os[|os| - 1];
    os[|os| - 1 := o.(chunks := o.chunks + chunks)]
  }

  /** A drain reads through the last opening and changes no other. */
  lemma {:induction false} DrainFrame(max: nat, r: Reader, size: nat, replies: seq<DrainReply>) returns (chunks: seq<Bytes>)
    requires r.open && Sound(r)
    ensures var t := Drain(max, r, size, replies).reader;
            t.path == r.path && t.ino == r.ino && t.openings == ReadThrough(r.openings, chunks)
    ensures forall n :: RepliesWithin(replies, n) ==> ReadsFit(chunks, n)
    decreases |replies|
  {
    chunks := [];
    ReadNothing(r.openings);
    if size > r.offset && replies != [] {
      var reply := replies[0];
      var r1 := if reply.data == [] then r else Absorb(max, r, reply.data);
      chunks := if reply.data == [] then [] else [reply.data];
      AbsorbReads(max, r, reply.data);
      if !reply.failed && reply.restat.Some? && !reply.cancelled {
        hide Absorb;
        var more := DrainFrame(max, r1, reply.restat.value, replies[1..]);
        ReadThroughTwice(r.openings, chunks, more);
        forall n | RepliesWithin(replies, n) ensures ReadsFit(chunks + more, n) {
          assert RepliesWithin(replies[1..], n);
        }
        chunks := chunks + more;
      }
    }
  }

  lemma {:induction false} AbsorbReads(max: nat, r: Reader, data: Bytes)
    requires r.open && Sound(r)
    ensures var t := Absorb(max, r, data);
            && t.openings == ReadThrough(r.openings, [data])
            && t.path == r.path && t.ino == r.ino && t.open && Sound(t)
  {
    hide Flush, EmitAll;
  }

  lemma {:induction false} ReadNothing(os: seq<Opening>)
    requires os != []
    ensures ReadThrough(os, []) == os
  {
    assert os[|os| - 1].chunks + [] == os[|os| - 1].chunks;
  }

  lemma {:induction false} ReadThroughTwice(os: seq<Opening>, a: seq<Bytes>, b: seq<Bytes>)
    requires os != []
    ensures ReadThrough(ReadThrough(os, a), b) == ReadThrough(os, a + b)
  {
    SeqAssociates(os[|os| - 1].chunks, a, b);
  }

  function ReadPhase(max: nat, s: State, it: Iteration): (t: State)
    requires s.reader.open && Sound(s.reader)
    ensures Sound(t.reader)
  {
    var r := s.reader;
    if it.size.None? || it.size.value < r.offset then s.(reader := Close(r))
    else
      var o := Drain(max, r, it.size.value, it.drain);
      if o.end.Cancelled? then s.(done := true, reader := o.reader)
      else if o.end.ReadFailed? || !s.switchPending then s.(reader := o.reader)
      else s.(left := s.left + {r.ino}, switched := s.switched + [r.ino], reader := Close(o.reader))
  }

  function Poll(max: nat, s: State, it: Iteration): (t: State)
    requires Sound(s.reader)
    ensures Sound(t.reader)
  {
    if s.done then s
    else if it.cancelled then s.(done := true)
    else
      var s1 := OpenPhase(s, it);
      if !s1.reader.open then s1
      else
        var s2 := RotationPhase(s1, it.rotation);
        if !s2.reader.open then s2 else ReadPhase(max, s2, it)
  }

  function Run(max: nat, s: State, its: seq<Iteration>): (t: State)
    requires Sound(s.reader)
    ensures Sound(t.reader)
  {
    if its == [] then s else Poll(max, Run(max, s, its[..|its| - 1]), its[|its| - 1])
  }

  // ---------------------------------------------------------------------
  // What every run keeps
  // ---------------------------------------------------------------------

  function EventsOf(max: nat, o: Opening): seq<Event>
  {
    Tag(o.path, EmitAll(Feed(max, o.chunks).segments))
  }

  function AllEvents(max: nat, os: seq<Opening>): seq<Event>
  {
    if os == [] then [] else AllEvents(max, os[..|os| - 1]) + EventsOf(max, os[|os| - 1])
  }

  /** The published log is what the openings' reads amount to, opening by
      opening, each under its own path; the buffer belongs to the open file and
      is empty when there is none. */
  ghost predicate Inv(max: nat, r: Reader)
  {
    && r.published == AllEvents(max, r.openings)
    && (!r.open ==> r.buffer == [])
    && (r.open ==>
      && r.openings != []
      && var o := r.openings[|r.openings| - 1];
      && o.path == r.path && o.ino == r.ino
      && r.offset == o.start + |Concat(o.chunks)|
      && r.buffer == Feed(max, o.chunks).rest)
  }

  lemma {:induction false} TagDistributes(path: string, a: seq<Bytes>, b: seq<Bytes>)
    ensures Tag(path, a + b) == Tag(path, a) + Tag(path, b)
  {}

  lemma {:induction false} AllEventsSnoc(max: nat, os: seq<Opening>, o: Opening)
    ensures AllEvents(max, os + [o]) == AllEvents(max, os) + EventsOf(max, o)
  {}

  lemma {:induction false} AbsorbKeepsInv(max: nat, r: Reader, data: Bytes)
    requires Inv(max, r) && r.open
    ensures Inv(max, Absorb(max, r, data))
  {
    hide Flush, Feed, Concat, EmitAll, AllEvents;
    var k := |r.openings| - 1;
    var os, o := r.openings[..k], r.openings[k];
    var o' := o.(chunks := o.chunks + [data]);
    assert r.openings == os + [o];
    FeedSnoc(max, o.chunks, data);
    var before, now := Feed(max, o.chunks).segments, Flush(max, r.buffer + data).segments;
    EmitDistributes(before, now);
    TagDistributes(o.path, EmitAll(before), EmitAll(now));
    AllEventsSnoc(max, os, o);
    AllEventsSnoc(max, os, o');
    SeqAssociates(AllEvents(max, os), EventsOf(max, o), Tag(o.path, EmitAll(now)));
  }

  lemma {:induction false} DrainKeepsInv(max: nat, r: Reader, size: nat, replies: seq<DrainReply>)
    requires Inv(max, r) && r.open
    ensures Inv(max, Drain(max, r, size, replies).reader)
    decreases |replies|
  {
    if size > r.offset && replies != [] {
      var reply := replies[0];
      AbsorbKeepsInv(max, r, reply.data);
      var r1 := if reply.data == [] then r else Absorb(max, r, reply.data);
      if !reply.failed && reply.restat.Some? && !reply.cancelled {
        DrainKeepsInv(max, r1, reply.restat.value, replies[1..]);
      }
    }
  }

  lemma {:induction false} OpenFileKeepsInv(max: nat, s: State, reply: OpenReply)
    requires Inv(max, s.reader) && !s.reader.open
    ensures Inv(max, OpenFile(s, reply).reader)
  {
    if reply.Opened? {
      var o := Opening(s.reader.path, reply.ino, if s.startAtEnd then reply.end else 0, []);
      AllEventsSnoc(max, s.reader.openings, o);
      assert EventsOf(max, o) == [];
    }
  }

  lemma {:induction false} OpenKeepsInv(max: nat, s: State, it: Iteration)
    requires Inv(max, s.reader)
    ensures Inv(max, OpenPhase(s, it).reader)
  {
    if !s.reader.open {
      var waiting := s.(switchPending := false);
      var (name, _) := Newest(s.left, it.scan);
      var found := waiting.(left := s.left * Present(it.scan), reader := s.reader.(path := name));
      OpenFileKeepsInv(max, waiting, it.open);
      OpenFileKeepsInv(max, found, it.open);
    }
  }

  lemma {:induction false} ReadKeepsInv(max: nat, s: State, it: Iteration)
    requires Inv(max, s.reader) && s.reader.open
    ensures Inv(max, ReadPhase(max, s, it).reader)
  {
    hide Drain, Close, AllEvents, Feed, Concat;
    CloseKeepsInv(max, s.reader);
    if it.size.Some? {
      DrainKeepsInv(max, s.reader, it.size.value, it.drain);
      CloseKeepsInv(max, Drain(max, s.reader, it.size.value, it.drain).reader);
    }
  }

  lemma {:induction false} CloseKeepsInv(max: nat, r: Reader)
    requires Inv(max, r)
    ensures Inv(max, Close(r))
  {}

  lemma {:induction false} RotationReader(s: State, r: RotationReply)
    ensures var t := RotationPhase(s, r).reader; t == s.reader || t == Close(s.reader)
  {}

  lemma {:induction false} PollKeepsInv(max: nat, s: State, it: Iteration)
    requires Inv(max, s.reader)
    ensures Inv(max, Poll(max, s, it).reader)
  {
    if !s.done && !it.cancelled {
      OpenKeepsInv(max, s, it);
      var s1 := OpenPhase(s, it);
      RotationReader(s1, it.rotation);
      var s2 := RotationPhase(s1, it.rotation);
      if s1.reader.open && s2.reader.open {
        ReadKeepsInv(max, s2, it);
      }
    }
  }

  lemma {:induction false} RunKeepsInv(max: nat, pattern: string, its: seq<Iteration>)
    ensures Inv(max, Run(max, Init(pattern), its).reader)
  {
    if its != [] {
      var before := Run(max, Init(pattern), its[..|its| - 1]);
      RunKeepsInv(max, pattern, its[..|its| - 1]);
      PollKeepsInv(max, before, its[|its| - 1]);
    }
  }
}
