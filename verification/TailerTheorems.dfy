/** What the tailer's run loop guarantees over every run. */
module TailerTheorems {
  import opened Lines
  import opened Chunking
  import opened Text
  import opened TailerModel

  // ---------------------------------------------------------------------
  // Every message has an origin: one contiguous range of one opening
  // ---------------------------------------------------------------------

  datatype Origin = Origin(opening: nat, from: nat, to: nat, forced: bool)

  /** The ranges of an opening's segments that became messages. */
  function OriginsOf(k: nat, start: nat, gs: seq<Segment>): seq<Origin>
  {
    if gs == [] then []
    else
      var init, g := gs[..|gs| - 1], gs[|gs| - 1];
      var at := start + |Raw(init)|;
      OriginsOf(k, start, init) + if Emit(g) == [] then [] else [Origin(k, at, at + |g.raw|, g.forced)]
  }

  function AllOrigins(max: nat, os: seq<Opening>): seq<Origin>
  {
    if os == [] then []
    else
      var k := |os| - 1;
      AllOrigins(max, os[..k]) + OriginsOf(k, os[k].start, Feed(max, os[k].chunks).segments)
  }

  /** A message is what bytes from..to of a stream, read from start, turn into. */
  ghost predicate Covers(max: nat, start: nat, stream: Bytes, r: Origin, message: Bytes)
  {
    && start <= r.from <= r.to <= start + |stream|
    && var g := Segment(stream[r.from - start..r.to - start], r.forced);
    && WellFormedSegment(g, max)
    && Emit(g) == [message]
  }

  ghost predicate ComesFrom(max: nat, o: Opening, r: Origin, e: Event)
  {
    e.path == o.path && Covers(max, o.start, Concat(o.chunks), r, e.message)
  }

  ghost predicate Before(a: Origin, b: Origin)
  {
    a.opening < b.opening || (a.opening == b.opening && a.to <= b.from)
  }

  ghost predicate InOrder(rs: seq<Origin>)
  {
    forall i, j :: 0 <= i < j < |rs| ==> Before(rs[i], rs[j])
  }

  lemma {:induction false} OriginsInOrder(k: nat, start: nat, gs: seq<Segment>)
    ensures var rs := OriginsOf(k, start, gs);
            InOrder(rs) && forall r :: r in rs ==> r.opening == k && r.to <= start + |Raw(gs)|
  {
    if gs != [] {
      OriginsInOrder(k, start, gs[..|gs| - 1]);
    }
  }

  ghost predicate AllCover(max: nat, start: nat, stream: Bytes, rs: seq<Origin>, ms: seq<Bytes>)
  {
    |rs| == |ms| && forall i :: 0 <= i < |rs| ==> Covers(max, start, stream, rs[i], ms[i])
  }

  lemma {:induction false} Middle(a: Bytes, b: Bytes, c: Bytes)
    ensures (a + b + c)[|a|..|a| + |b|] == b
  {}

  lemma {:induction false} LastCovers(max: nat, k: nat, start: nat, before: Bytes, g: Segment, after: Bytes)
    requires WellFormedSegment(g, max) && Emit(g) != []
    ensures var at := start + |before|;
            Covers(max, start, before + g.raw + after, Origin(k, at, at + |g.raw|, g.forced), Emit(g)[0])
  {
    hide Emit, WellFormedSegment;
    Middle(before, g.raw, after);
    assert |Emit(g)| == 1;
  }

  lemma {:induction false} AllCoverAppend(max: nat, start: nat, stream: Bytes,
                       r1: seq<Origin>, m1: seq<Bytes>, r2: seq<Origin>, m2: seq<Bytes>)
    requires AllCover(max, start, stream, r1, m1) && AllCover(max, start, stream, r2, m2)
    ensures AllCover(max, start, stream, r1 + r2, m1 + m2)
  {
    hide Covers;
  }

  lemma {:induction false} OriginsCover(max: nat, k: nat, start: nat, gs: seq<Segment>, rest: Bytes)
    requires WellFormedSegments(gs, max)
    ensures AllCover(max, start, Raw(gs) + rest, OriginsOf(k, start, gs), EmitAll(gs))
  {
    if gs != [] {
      hide Emit, WellFormedSegment, Covers, AllCover;
      var init, g := gs[..|gs| - 1], gs[|gs| - 1];
      var stream := Raw(gs) + rest;
      SeqAssociates(Raw(init), g.raw, rest);
      OriginsCover(max, k, start, init, g.raw + rest);
      var last := LastOrigin(max, k, start, Raw(init), g, rest);
      AllCoverAppend(max, start, stream, OriginsOf(k, start, init), EmitAll(init), last, Emit(g));
    }
  }

  lemma {:induction false} LastOrigin(max: nat, k: nat, start: nat, before: Bytes, g: Segment, after: Bytes)
    returns (last: seq<Origin>)
    requires WellFormedSegment(g, max)
    ensures var at := start + |before|;
            last == if Emit(g) == [] then [] else [Origin(k, at, at + |g.raw|, g.forced)]
    ensures AllCover(max, start, before + g.raw + after, last, Emit(g))
  {
    hide Covers, WellFormedSegment;
    var at := start + |before|;
    last := if Emit(g) == [] then [] else [Origin(k, at, at + |g.raw|, g.forced)];
    if Emit(g) != [] {
      LastCovers(max, k, start, before, g, after);
    }
  }

  /** Reads of at most size bytes, in every opening. */
  ghost predicate Fits(os: seq<Opening>, size: nat)
  {
    forall i :: 0 <= i < |os| ==> ReadsFit(os[i].chunks, size)
  }

  /** Each event comes from its own range of one of the openings, in order. */
  ghost predicate Traced(max: nat, os: seq<Opening>, rs: seq<Origin>, es: seq<Event>)
  {
    && |rs| == |es|
    && InOrder(rs)
    && forall i :: 0 <= i < |rs| ==>
         rs[i].opening < |os| && ComesFrom(max, os[rs[i].opening], rs[i], es[i])
  }

  lemma {:induction false} TracedSnoc(max: nat, os: seq<Opening>, o: Opening, rs: seq<Origin>, es: seq<Event>,
                   last: seq<Origin>, messages: seq<Bytes>)
    requires Traced(max, os, rs, es)
    requires InOrder(last) && forall r :: r in last ==> r.opening == |os|
    requires AllCover(max, o.start, Concat(o.chunks), last, messages)
    ensures Traced(max, os + [o], rs + last, es + Tag(o.path, messages))
  {
    hide Covers, Concat;
    forall i | 0 <= i < |last|
      ensures ComesFrom(max, o, last[i], Tag(o.path, messages)[i])
    {}
  }

  lemma {:induction false} OneMoreOpening(max: nat, size: nat, os: seq<Opening>, o: Opening)
    requires 0 < size <= max && ReadsFit(o.chunks, size)
    requires Traced(max, os, AllOrigins(max, os), AllEvents(max, os))
    ensures Traced(max, os + [o], AllOrigins(max, os + [o]), AllEvents(max, os + [o]))
  {
    hide Traced, Feed, EmitAll, OriginsOf, AllCover, InOrder, ReadsFit, WellFormedSegments, Concat, Raw, Tag;
    var f := Feed(max, o.chunks);
    FeedConserves(max, size, o.chunks);
    OriginsInOrder(|os|, o.start, f.segments);
    OriginsCover(max, |os|, o.start, f.segments, f.rest);
    TracedSnoc(max, os, o, AllOrigins(max, os), AllEvents(max, os),
               OriginsOf(|os|, o.start, f.segments), EmitAll(f.segments));
    assert (os + [o])[..|os|] == os;
  }

  lemma {:induction false} EventsHaveOrigins(max: nat, size: nat, os: seq<Opening>)
    requires 0 < size <= max && Fits(os, size)
    ensures Traced(max, os, AllOrigins(max, os), AllEvents(max, os))
  {
    hide ReadsFit, EventsOf, OriginsOf, Feed;
    if os != [] {
      hide Traced, AllOrigins, AllEvents;
      var k := |os| - 1;
      EventsHaveOrigins(max, size, os[..k]);
      OneMoreOpening(max, size, os[..k], os[k]);
      assert os[..k] + [os[k]] == os;
    }
  }

  // ---------------------------------------------------------------------
  // Reads stay within the read size, so the buffer stays within the limit
  // ---------------------------------------------------------------------

  ghost predicate ReadsWithin(it: Iteration, size: nat)
  {
    RepliesWithin(it.drain, size)
  }

  lemma {:induction false} AbsorbFits(max: nat, r: Reader, data: Bytes, size: nat)
    requires r.openings != [] && Fits(r.openings, size) && |data| <= size
    ensures Fits(Absorb(max, r, data).openings, size)
  {
    hide Flush;
  }

  lemma {:induction false} DrainFits(max: nat, r: Reader, ahead: nat, replies: seq<DrainReply>, size: nat)
    requires r.open && Sound(r) && Fits(r.openings, size)
    requires RepliesWithin(replies, size)
    ensures Fits(Drain(max, r, ahead, replies).reader.openings, size)
  {
    hide Drain, RepliesWithin;
    var chunks := DrainFrame(max, r, ahead, replies);
  }

  lemma {:induction false} OpenFits(s: State, it: Iteration, size: nat)
    requires Fits(s.reader.openings, size)
    ensures Fits(OpenPhase(s, it).reader.openings, size)
  {
    hide Newest;
  }

  lemma {:induction false} PollFits(max: nat, s: State, it: Iteration, size: nat)
    requires Sound(s.reader) && Fits(s.reader.openings, size) && ReadsWithin(it, size)
    ensures Fits(Poll(max, s, it).reader.openings, size)
  {
    hide OpenPhase, RotationPhase, Drain;
    if !s.done && !it.cancelled {
      OpenFits(s, it, size);
      var s1 := OpenPhase(s, it);
      RotationReader(s1, it.rotation);
      var s2 := RotationPhase(s1, it.rotation);
      if s1.reader.open && s2.reader.open && it.size.Some? && it.size.value >= s2.reader.offset {
        DrainFits(max, s2.reader, it.size.value, it.drain, size);
      }
    }
  }

  lemma {:induction false} RunFits(max: nat, pattern: string, its: seq<Iteration>, size: nat)
    requires forall it :: it in its ==> ReadsWithin(it, size)
    ensures Fits(Run(max, Init(pattern), its).reader.openings, size)
  {
    if its != [] {
      var n := |its| - 1;
      RunFits(max, pattern, its[..n], size);
      PollFits(max, Run(max, Init(pattern), its[..n]), its[n], size);
    }
  }

  /** Main theorem. In every run, whatever the file system does, the published
      events are in one-to-one correspondence with disjoint ranges of the
      openings' bytes, in order; each carries its opening's path. */
  lemma {:induction false} EveryRunPublishesRangesInOrder(max: nat, size: nat, pattern: string, its: seq<Iteration>)
    returns (origins: seq<Origin>)
    requires 0 < size <= max && forall it :: it in its ==> ReadsWithin(it, size)
    ensures var r := Run(max, Init(pattern), its).reader;
            Traced(max, r.openings, origins, r.published)
  {
    RunKeepsInv(max, pattern, its);
    RunFits(max, pattern, its, size);
    var os := Run(max, Init(pattern), its).reader.openings;
    EventsHaveOrigins(max, size, os);
    origins := AllOrigins(max, os);
  }

  /** At every read of a drain the buffer has room for it, and after the flush
      it is within the limit again. */
  ghost predicate DrainWithin(max: nat, size: nat, r: Reader, ahead: nat, replies: seq<DrainReply>)
    requires r.open && Sound(r)
    decreases |replies|
  {
    ahead > r.offset && replies != [] ==>
      var reply := replies[0];
      var r1 := if reply.data == [] then r else Absorb(max, r, reply.data);
      && |r.buffer + reply.data| <= max + size && |r1.buffer| <= max
      && (!reply.failed && reply.restat.Some? && !reply.cancelled ==>
            DrainWithin(max, size, r1, reply.restat.value, replies[1..]))
  }

  lemma {:induction false} BufferWithin(max: nat, size: nat, r: Reader)
    requires 0 < size <= max && Inv(max, r) && Fits(r.openings, size)
    ensures |r.buffer| <= max
  {
    if r.open {
      var o := r.openings[|r.openings| - 1];
      hide Feed, Concat, AllEvents;
      FeedConserves(max, size, o.chunks);
    }
  }

  lemma {:induction false} DrainIsWithin(max: nat, size: nat, r: Reader, ahead: nat, replies: seq<DrainReply>)
    requires 0 < size <= max && Inv(max, r) && r.open && Fits(r.openings, size) && RepliesWithin(replies, size)
    ensures DrainWithin(max, size, r, ahead, replies)
    decreases |replies|
  {
    if ahead > r.offset && replies != [] {
      var reply := replies[0];
      BufferWithin(max, size, r);
      AbsorbFits(max, r, reply.data, size);
      AbsorbKeepsInv(max, r, reply.data);
      var r1 := if reply.data == [] then r else Absorb(max, r, reply.data);
      BufferWithin(max, size, r1);
      if !reply.failed && reply.restat.Some? && !reply.cancelled {
        DrainIsWithin(max, size, r1, reply.restat.value, replies[1..]);
      }
    }
  }

  /** In every run, in every drain, no flush ever sees more than the limit plus
      one read, nor leaves more than the limit. */
  lemma {:induction false} EveryFlushIsBounded(max: nat, size: nat, pattern: string, its: seq<Iteration>, it: Iteration)
    requires 0 < size <= max && ReadsWithin(it, size) && forall x :: x in its ==> ReadsWithin(x, size)
    ensures var s := RotationPhase(OpenPhase(Run(max, Init(pattern), its), it), it.rotation);
            s.reader.open && it.size.Some? ==> DrainWithin(max, size, s.reader, it.size.value, it.drain)
  {
    var before := Run(max, Init(pattern), its);
    RunKeepsInv(max, pattern, its);
    RunFits(max, pattern, its, size);
    hide Run, DrainWithin, Inv, Fits;
    OpenKeepsInv(max, before, it);
    OpenFits(before, it, size);
    var s1 := OpenPhase(before, it);
    hide OpenPhase;
    RotationReader(s1, it.rotation);
    CloseKeepsInv(max, s1.reader);
    var s := RotationPhase(s1, it.rotation);
    hide RotationPhase;
    if s.reader.open && it.size.Some? {
      DrainIsWithin(max, size, s.reader, it.size.value, it.drain);
    }
  }

  /** Reads that follow one another from start, each returning the file's
      bytes at its offset. */
  ghost predicate ReadsOf(content: Bytes, start: nat, chunks: seq<Bytes>)
  {
    if chunks == [] then start <= |content|
    else
      var init, chunk := chunks[..|chunks| - 1], chunks[|chunks| - 1];
      var at := start + |Concat(init)|;
      ReadsOf(content, start, init) && at + |chunk| <= |content| && content[at..at + |chunk|] == chunk
  }

  lemma {:induction false} ReadsAreASlice(content: Bytes, start: nat, chunks: seq<Bytes>)
    requires ReadsOf(content, start, chunks)
    ensures start + |Concat(chunks)| <= |content|
    ensures Concat(chunks) == content[start..start + |Concat(chunks)|]
  {
    if chunks != [] {
      var init, chunk := chunks[..|chunks| - 1], chunks[|chunks| - 1];
      ReadsAreASlice(content, start, init);
      Abut(content, start, |Concat(init)|, |chunk|);
    }
  }

  lemma {:induction false} Abut(s: Bytes, at: nat, m: nat, n: nat)
    requires at + m + n <= |s|
    ensures s[at..at + m] + s[at + m..at + m + n] == s[at..at + m + n]
  {}

  /** What the simple specification says an opening should publish. */
  function Specified(o: Opening): seq<Event>
  {
    Tag(o.path, Messages(Concat(o.chunks)))
  }

  function AllSpecified(os: seq<Opening>): seq<Event>
  {
    if os == [] then [] else AllSpecified(os[..|os| - 1]) + Specified(os[|os| - 1])
  }

  ghost predicate ShortLines(os: seq<Opening>, limit: int)
  {
    forall i :: 0 <= i < |os| ==> RunsAtMost(Concat(os[i].chunks), limit)
  }

  /** In every opening, every read fits into the buffer beside the tail before it. */
  ghost predicate HaveRoom(max: nat, os: seq<Opening>)
  {
    forall i :: 0 <= i < |os| ==> RoomForReads(max, os[i].chunks)
  }

  lemma {:induction false} RoomAsSpecified(max: nat, os: seq<Opening>)
    requires HaveRoom(max, os)
    ensures AllEvents(max, os) == AllSpecified(os)
  {
    if os != [] {
      hide RoomForReads, AlwaysByLine;
      var k := |os| - 1;
      RoomAsSpecified(max, os[..k]);
      AlwaysByLineExactlyWhen(max, os[k].chunks);
      AlwaysByLineNow(max, os[k].chunks);
    }
  }

  lemma {:induction false} ShortLinesHaveRoom(max: nat, size: nat, os: seq<Opening>)
    requires 0 < size <= max && Fits(os, size) && ShortLines(os, max - size)
    ensures HaveRoom(max, os)
  {
    hide RunsAtMost, ReadsFit, AlwaysByLine, RoomForReads;
    forall i | 0 <= i < |os|
      ensures RoomForReads(max, os[i].chunks)
    {
      ChunkingIsInvisible(max, size, os[i].chunks);
      AlwaysByLineExactlyWhen(max, os[i].chunks);
    }
  }

  /** End to end: as long as every read fits beside the unterminated line before
      it, a run publishes exactly the cleaned non-empty complete lines of what it
      read, opening by opening. */
  lemma {:induction false} EveryRunWithRoomPublishesCleanLines(max: nat, pattern: string, its: seq<Iteration>)
    requires HaveRoom(max, Run(max, Init(pattern), its).reader.openings)
    ensures var r := Run(max, Init(pattern), its).reader;
            r.published == AllSpecified(r.openings)
  {
    RunKeepsInv(max, pattern, its);
    RoomAsSpecified(max, Run(max, Init(pattern), its).reader.openings);
  }

  /** In particular as long as no line is near the limit, whatever the reads. */
  lemma {:induction false} EveryRunPublishesCleanLines(max: nat, size: nat, pattern: string, its: seq<Iteration>)
    requires 0 < size <= max && forall it :: it in its ==> ReadsWithin(it, size)
    requires ShortLines(Run(max, Init(pattern), its).reader.openings, max - size)
    ensures var r := Run(max, Init(pattern), its).reader;
            r.published == AllSpecified(r.openings)
  {
    RunFits(max, pattern, its, size);
    ShortLinesHaveRoom(max, size, Run(max, Init(pattern), its).reader.openings);
    EveryRunWithRoomPublishesCleanLines(max, pattern, its);
  }

  /** With the tailer's own constants: lines up to 960 KiB are exact. */
  lemma {:induction false} LinesUpTo960KiBAreExact(pattern: string, its: seq<Iteration>)
    requires forall it :: it in its ==> ReadsWithin(it, READ_BUF_SIZE)
    requires ShortLines(Run(MAX_LINE_BYTES, Init(pattern), its).reader.openings, 960 * 1024)
    ensures var r := Run(MAX_LINE_BYTES, Init(pattern), its).reader;
            r.published == AllSpecified(r.openings)
  {
    hide Run, ShortLines, AllSpecified, ReadsWithin;
    EveryRunPublishesCleanLines(MAX_LINE_BYTES, READ_BUF_SIZE, pattern, its);
  }

  /** What one opening of a growing file publishes. */
  lemma {:induction false} OpeningIsTailed(max: nat, size: nat, content: Bytes, o: Opening, end: nat)
    requires 0 < size <= max && ReadsFit(o.chunks, size) && ReadsOf(content, o.start, o.chunks)
    requires end == o.start + |Concat(o.chunks)| && end <= |content|
    requires RunsAtMost(content[o.start..end], max - size)
    ensures EventsOf(max, o) == Tag(o.path, Messages(content[o.start..end]))
  {
    hide ReadsOf, ReadsFit, RunsAtMost, Messages, Feed, Concat, EmitAll;
    ReadsAreASlice(content, o.start, o.chunks);
    ChunkingIsInvisible(max, size, o.chunks);
  }

  lemma {:induction false} AllEventsAt(max: nat, os: seq<Opening>, k: nat) returns (after: seq<Event>)
    requires k < |os|
    ensures AllEvents(max, os) == AllEvents(max, os[..k]) + EventsOf(max, os[k]) + after
    ensures k == |os| - 1 ==> after == []
  {
    var n := |os| - 1;
    hide EventsOf;
    if k == n {
      after := [];
    } else {
      var init := AllEventsAt(max, os[..n], k);
      assert os[..n][..k] == os[..k];
      after := init + EventsOf(max, os[n]);
      hide AllEvents;
      SeqAssociates(AllEvents(max, os[..k]) + EventsOf(max, os[k]), init, EventsOf(max, os[n]));
    }
  }

  /** A file that only grows is tailed exactly: in every run, the part of the
      published log that an opening of it contributes are the cleaned complete
      lines of its bytes from where the opening started to how far it has read,
      which for the open file is the offset. */
  lemma {:induction false} GrowingFileIsTailed(
      max: nat, size: nat, pattern: string, its: seq<Iteration>, k: nat, content: Bytes, end: nat)
      returns (after: seq<Event>)
    requires 0 < size <= max && forall it :: it in its ==> ReadsWithin(it, size)
    requires k < |Run(max, Init(pattern), its).reader.openings|
    requires var o := Run(max, Init(pattern), its).reader.openings[k];
             && ReadsOf(content, o.start, o.chunks)
             && end == o.start + |Concat(o.chunks)| && end <= |content|
             && RunsAtMost(content[o.start..end], max - size)
    ensures var r := Run(max, Init(pattern), its).reader;
            var o := r.openings[k];
            && r.published ==
               AllEvents(max, r.openings[..k]) + Tag(o.path, Messages(content[o.start..end])) + after
            && (k == |r.openings| - 1 ==> after == [])
            && (k == |r.openings| - 1 && r.open ==> o.path == r.path && end == r.offset)
  {
    RunKeepsInv(max, pattern, its);
    RunFits(max, pattern, its, size);
    hide Run, ReadsWithin, ReadsOf, RunsAtMost, Messages, Feed, Concat, AllEvents, EventsOf;
    var r := Run(max, Init(pattern), its).reader;
    OpeningIsTailed(max, size, content, r.openings[k], end);
    after := AllEventsAt(max, r.openings, k);
  }

  // ---------------------------------------------------------------------
  // Where openings start, and how soon a replaced file is noticed
  // ---------------------------------------------------------------------

  /** Only the very first opening may skip existing content. */
  ghost predicate StartsInv(s: State)
  {
    && (s.startAtEnd <==> s.reader.openings == [])
    && forall i :: 0 < i < |s.reader.openings| ==> s.reader.openings[i].start == 0
  }

  lemma {:induction false} ReadKeepsStarts(max: nat, s: State, it: Iteration)
    requires StartsInv(s) && s.reader.open && Sound(s.reader)
    ensures StartsInv(ReadPhase(max, s, it))
  {
    if it.size.Some? {
      var chunks := DrainFrame(max, s.reader, it.size.value, it.drain);
    }
    hide Drain;
  }

  lemma {:induction false} OpenKeepsStarts(s: State, it: Iteration)
    requires StartsInv(s)
    ensures StartsInv(OpenPhase(s, it))
  {
    hide Newest;
  }

  lemma {:induction false} PollKeepsStarts(max: nat, s: State, it: Iteration)
    requires StartsInv(s) && Sound(s.reader)
    ensures StartsInv(Poll(max, s, it))
  {
    if !s.done && !it.cancelled {
      OpenKeepsStarts(s, it);
      var s1 := OpenPhase(s, it);
      RotationReader(s1, it.rotation);
      var s2 := RotationPhase(s1, it.rotation);
      assert s2.startAtEnd == s1.startAtEnd;
      hide OpenPhase, RotationPhase, ReadPhase;
      if s1.reader.open && s2.reader.open {
        ReadKeepsStarts(max, s2, it);
      }
    }
  }

  /** In every run, every opening after the first, whether after a rotation, a
      truncation, an error or a switch, reads its file from the start. */
  lemma {:induction false} LaterOpeningsStartAtZero(max: nat, pattern: string, its: seq<Iteration>)
    ensures StartsInv(Run(max, Init(pattern), its))
  {
    if its != [] {
      hide Poll, StartsInv;
      var before := Run(max, Init(pattern), its[..|its| - 1]);
      LaterOpeningsStartAtZero(max, pattern, its[..|its| - 1]);
      PollKeepsStarts(max, before, its[|its| - 1]);
    }
  }

  /** Every periodic check of these passes would find the inode gone or replaced. */
  ghost predicate AllReplaced(its: seq<Iteration>, ino: nat)
  {
    forall i :: 0 <= i < |its| ==>
      var r := its[i].rotation;
      r.gone || (r.current.Some? && r.current.value != ino)
  }

  /** A pass that starts with the file open leaves it closed, or counts a cycle
      that was not one for checking. */
  lemma {:induction false} PassWhileReplaced(max: nat, s: State, it: Iteration)
    requires Sound(s.reader) && s.reader.open && !s.done && AllReplaced([it], s.reader.ino)
    ensures var t := Poll(max, s, it);
            t.reader.open && !t.done ==>
              t.cycle == s.cycle + 1 && t.cycle % ROTATION_CHECK_EVERY != 0 && t.reader.ino == s.reader.ino
  {
    assert [it][0] == it;
    var s2 := RotationPhase(s, it.rotation);
    if !it.cancelled && s2.reader.open && it.size.Some? {
      var _ := DrainFrame(max, s2.reader, it.size.value, it.drain);
    }
    hide Drain;
  }

  /** The file is open after every pass. */
  ghost predicate NeverClosed(max: nat, s: State, its: seq<Iteration>)
    requires Sound(s.reader)
  {
    if its == [] then s.reader.open
    else NeverClosed(max, s, its[..|its| - 1]) && Run(max, s, its).reader.open
  }

  /** None of the n cycles after c is one for checking. */
  predicate NoCheckDue(c: nat, n: nat)
  {
    n == 0 || (NoCheckDue(c, n - 1) && (c + n) % ROTATION_CHECK_EVERY != 0)
  }

  lemma {:induction false} NoCheckAt(c: nat, n: nat, j: nat)
    requires NoCheckDue(c, n) && 0 < j <= n
    ensures (c + j) % ROTATION_CHECK_EVERY != 0
  {
    if j < n {
      NoCheckAt(c, n - 1, j);
    }
  }

  lemma {:induction false} OneMoreCycle(c: nat, n: nat)
    ensures NoCheckDue(c, n) && (c + n + 1) % ROTATION_CHECK_EVERY != 0 ==> NoCheckDue(c, n + 1)
  {}

  lemma {:induction false} UnnoticedSoFar(max: nat, s: State, its: seq<Iteration>)
    requires Sound(s.reader) && AllReplaced(its, s.reader.ino)
    requires NeverClosed(max, s, its) && !Run(max, s, its).done
    ensures var t := Run(max, s, its);
            t.reader.ino == s.reader.ino && t.cycle == s.cycle + |its| && NoCheckDue(s.cycle, |its|)
  {
    hide Poll;
    if its != [] {
      var n := |its| - 1;
      assert AllReplaced(its[..n], s.reader.ino) && AllReplaced([its[n]], s.reader.ino);
      hide AllReplaced, NoCheckDue;
      var before := Run(max, s, its[..n]);
      DoneStays(max, before, its[n]);
      UnnoticedSoFar(max, s, its[..n]);
      OpenAfterAll(max, s, its[..n]);
      PassWhileReplaced(max, before, its[n]);
      OneMoreCycle(s.cycle, n);
    } else {
      assert NoCheckDue(s.cycle, 0);
    }
  }

  lemma {:induction false} OpenAfterAll(max: nat, s: State, its: seq<Iteration>)
    requires Sound(s.reader) && NeverClosed(max, s, its)
    ensures Run(max, s, its).reader.open
  {
    hide Poll;
  }

  /** A replaced or deleted file is noticed within ROTATION_CHECK_EVERY passes:
      unless the run ends first, the file is closed after one of them. */
  lemma {:induction false} ReplacementIsNoticed(max: nat, s: State, its: seq<Iteration>)
    requires Sound(s.reader) && AllReplaced(its, s.reader.ino)
    requires |its| >= ROTATION_CHECK_EVERY && !Run(max, s, its).done
    ensures !NeverClosed(max, s, its)
  {
    hide Run, NeverClosed;
    if NeverClosed(max, s, its) {
      UnnoticedSoFar(max, s, its);
      NoCheckAt(s.cycle, |its|, ROTATION_CHECK_EVERY - s.cycle % ROTATION_CHECK_EVERY);
    }
  }

  lemma {:induction false} DoneStays(max: nat, s: State, it: Iteration)
    requires Sound(s.reader)
    ensures s.done ==> Poll(max, s, it) == s
  {}

  // ---------------------------------------------------------------------
  // Switching between glob matches
  // ---------------------------------------------------------------------

  /** Scan and open are one step: the file opened is the one the scan saw. */
  ghost predicate OpenAgrees(s: State, it: Iteration)
  {
    && NamedScan(it.scan) && NamedScan(it.rotation.scan)
    && (it.open.Opened? ==>
          forall e :: e in it.scan && e.path == Newest(s.left, it.scan).0 ==> e.ino == it.open.ino)
  }

  ghost predicate Seen(x: nat, it: Iteration)
  {
    x in Present(it.scan) && x in Present(it.rotation.scan)
  }

  /** Opening picks a file that was never left. */
  lemma {:induction false} OpenPhaseOpens(s: State, it: Iteration)
    requires s.glob && !s.reader.open && OpenAgrees(s, it)
    ensures var t := OpenPhase(s, it);
            && t.glob && t.switched == s.switched && t.left == s.left * Present(it.scan) && !t.switchPending
            && if t.reader.open then
                 && Inodes(t.reader.openings) == Inodes(s.reader.openings) + [t.reader.ino]
                 && t.reader.ino !in s.left
                 && exists e :: e in it.scan && e.regular && e.path == t.reader.path && e.ino == t.reader.ino
               else t.reader.openings == s.reader.openings
  {
    NewestIsMaximal(s.left, it.scan);
  }

  lemma {:induction false} RotationFrame(s: State, r: RotationReply)
    requires s.glob
    ensures var t := RotationPhase(s, r);
            && t.glob && t.switched == s.switched
            && (t.reader == s.reader || t.reader == Close(s.reader))
            && (t.left == s.left || t.left == s.left * Present(r.scan))
  {}

  lemma {:induction false} ReadFrame(max: nat, s: State, it: Iteration)
    requires s.glob && s.reader.open && Sound(s.reader)
    ensures var t := ReadPhase(max, s, it);
            && t.glob && Inodes(t.reader.openings) == Inodes(s.reader.openings)
            && t.reader.path == s.reader.path && t.reader.ino == s.reader.ino
            && (t.reader.open ==> t.switchPending == s.switchPending)
            && ((t.left == s.left && t.switched == s.switched) ||
                (s.switchPending && !t.reader.open
                 && t.left == s.left + {s.reader.ino} && t.switched == s.switched + [s.reader.ino]))
  {
    if it.size.Some? {
      var _ := DrainFrame(max, s.reader, it.size.value, it.drain);
    }
  }

  ghost predicate Suffix(x: nat, a: seq<nat>, b: seq<nat>)
  {
    |a| <= |b| && b[..|a|] == a && x !in b[|a|..]
  }

  lemma {:induction false} PollNeverReopens(max: nat, s: State, it: Iteration, x: nat)
    requires Sound(s.reader) && s.glob && x in s.left && OpenAgrees(s, it) && Seen(x, it)
    ensures var t := Poll(max, s, it);
            t.glob && x in t.left && Suffix(x, Inodes(s.reader.openings), Inodes(t.reader.openings))
  {
    hide RotationPhase, ReadPhase, Newest;
    if !s.done && !it.cancelled {
      if !s.reader.open { OpenPhaseOpens(s, it); }
      var s1 := OpenPhase(s, it);
      RotationFrame(s1, it.rotation);
      var s2 := RotationPhase(s1, it.rotation);
      if s1.reader.open && s2.reader.open {
        ReadFrame(max, s2, it);
      }
    }
  }

  /** At every step of a run from s, opening agrees with scanning and x is seen. */
  ghost predicate KeepsSeeing(max: nat, s: State, its: seq<Iteration>, x: nat)
    requires Sound(s.reader)
  {
    its == [] ||
    var init, it := its[..|its| - 1], its[|its| - 1];
    KeepsSeeing(max, s, init, x) && OpenAgrees(Run(max, s, init), it) && Seen(x, it)
  }

  /** Once an inode has been left, no later opening is of that inode, for as
      long as every scan still sees it as a regular match. */
  lemma {:induction false} LeftIsNeverReopened(max: nat, s: State, its: seq<Iteration>, x: nat)
    requires Sound(s.reader) && s.glob && x in s.left && KeepsSeeing(max, s, its, x)
    ensures var t := Run(max, s, its);
            t.glob && x in t.left && Suffix(x, Inodes(s.reader.openings), Inodes(t.reader.openings))
  {
    if its != [] {
      hide Poll, OpenAgrees, Seen, Suffix, Inodes;
      var n := |its| - 1;
      var before := Run(max, s, its[..n]);
      LeftIsNeverReopened(max, s, its[..n], x);
      PollNeverReopens(max, before, its[n], x);
      SuffixExtends(x, Inodes(s.reader.openings), Inodes(before.reader.openings),
                    Inodes(Poll(max, before, its[n]).reader.openings));
    } else {
      assert x !in Inodes(s.reader.openings)[|Inodes(s.reader.openings)|..];
    }
  }

  lemma {:induction false} SuffixExtends(x: nat, a: seq<nat>, b: seq<nat>, c: seq<nat>)
    requires Suffix(x, a, b) && Suffix(x, b, c)
    ensures Suffix(x, a, c)
  {}

  /** A switch becomes due exactly when the newest match not yet left is another
      path, modified after the open file. */
  lemma {:induction false} SwitchDueExactlyWhenNewer(s: State, r: RotationReply)
    requires NamedScan(r.scan)
    ensures CheckNewer(s, r).switchPending <==>
              r.ownMtime.Some? && exists e :: IsNewest(s.left, r.scan, e) && e.path != s.reader.path && e.mtime > r.ownMtime.value
  {
    NewestIsMaximal(s.left, r.scan);
    var (name, mtime) := Newest(s.left, r.scan);
    if name != "" {
      var e :| e in r.scan && Eligible(s.left, e) && e.path == name && e.mtime == mtime;
      assert IsNewest(s.left, r.scan, e);
    }
    forall x | IsNewest(s.left, r.scan, x)
      ensures x.path == name && x.mtime == mtime
    {
      LessIsTotal(x.path, name);
    }
  }

  ghost predicate IsNewest(left: set<nat>, scan: seq<ScanEntry>, e: ScanEntry)
  {
    e in scan && Eligible(left, e) && forall x :: x in scan && Eligible(left, x) ==> NotAbove(x, e.path, e.mtime)
  }

  /** A scan of a fixed set of regular files, with any modification times. */
  ghost predicate ScansExactly(scan: seq<ScanEntry>, files: map<string, nat>)
  {
    && (forall e :: e in scan ==> e.regular && e.path in files && files[e.path] == e.ino)
    && forall p :: p in files ==> exists e :: e in scan && e.path == p
  }

  ghost predicate DistinctInodes(files: map<string, nat>)
  {
    forall p, q :: p in files && q in files && p != q ==> files[p] != files[q]
  }

  lemma {:induction false} ScanPresent(scan: seq<ScanEntry>, files: map<string, nat>)
    requires ScansExactly(scan, files)
    ensures Present(scan) == files.Values
  {}

  /** Between switches some file is still unvisited whenever a switch is due. */
  ghost predicate SwitchInv(s: State, files: map<string, nat>)
  {
    && s.glob && s.left < files.Values && |s.switched| == |s.left|
    && var r := s.reader;
    && (r.open ==> r.path in files && files[r.path] == r.ino && r.ino !in s.left)
    && (r.open && s.switchPending ==> exists y :: y in files.Values && y !in s.left && y != r.ino)
  }

  lemma {:induction false} CheckNewerKeepsSwitchInv(s: State, r: RotationReply, files: map<string, nat>)
    requires SwitchInv(s, files) && s.reader.open && DistinctInodes(files)
    requires NamedScan(r.scan) && ScansExactly(r.scan, files)
    ensures SwitchInv(CheckNewer(s, r), files)
  {
    ScanPresent(r.scan, files);
    assert s.left * files.Values == s.left;
    var t := CheckNewer(s, r);
    if t.switchPending {
      var y := NewestIsUnvisited(s.left, r.scan, files);
      assert y != s.reader.ino;
    }
  }

  lemma {:induction false} NewestIsUnvisited(left: set<nat>, scan: seq<ScanEntry>, files: map<string, nat>) returns (y: nat)
    requires NamedScan(scan) && ScansExactly(scan, files) && Newest(left, scan).0 != ""
    ensures var name := Newest(left, scan).0;
            name in files && files[name] == y && y in files.Values && y !in left
  {
    NewestIsMaximal(left, scan);
    y := files[Newest(left, scan).0];
  }

  lemma {:induction false} ReadKeepsSwitchInv(max: nat, s: State, it: Iteration, files: map<string, nat>)
    requires SwitchInv(s, files) && s.reader.open && Sound(s.reader)
    ensures SwitchInv(ReadPhase(max, s, it), files)
  {
    ReadFrame(max, s, it);
    assert files[s.reader.path] in files.Values;
  }

  lemma {:induction false} OpenKeepsSwitchInv(s: State, it: Iteration, files: map<string, nat>)
    requires SwitchInv(s, files) && OpenAgrees(s, it) && ScansExactly(it.scan, files)
    ensures SwitchInv(OpenPhase(s, it), files)
  {
    if !s.reader.open {
      ScanPresent(it.scan, files);
      OpenPhaseOpens(s, it);
      assert s.left * files.Values == s.left;
    }
  }

  lemma {:induction false} RotationKeepsSwitchInv(s: State, r: RotationReply, files: map<string, nat>)
    requires SwitchInv(s, files) && s.reader.open && DistinctInodes(files)
    requires NamedScan(r.scan) && ScansExactly(r.scan, files)
    ensures SwitchInv(RotationPhase(s, r), files)
  {
    hide CheckNewer, ScansExactly;
    CheckNewerKeepsSwitchInv(s.(cycle := s.cycle + 1), r, files);
  }

  /** One step over the fixed set of files. */
  ghost predicate StepOver(s: State, it: Iteration, files: map<string, nat>)
  {
    OpenAgrees(s, it) && ScansExactly(it.scan, files) && ScansExactly(it.rotation.scan, files)
  }

  lemma {:induction false} PollKeepsSwitchInv(max: nat, s: State, it: Iteration, files: map<string, nat>)
    requires SwitchInv(s, files) && Sound(s.reader) && DistinctInodes(files) && StepOver(s, it, files)
    ensures SwitchInv(Poll(max, s, it), files)
  {
    hide OpenPhase, RotationPhase, ReadPhase, ScansExactly;
    if !s.done && !it.cancelled {
      OpenKeepsSwitchInv(s, it, files);
      var s1 := OpenPhase(s, it);
      if s1.reader.open {
        RotationKeepsSwitchInv(s1, it.rotation, files);
        var s2 := RotationPhase(s1, it.rotation);
        if s2.reader.open {
          ReadKeepsSwitchInv(max, s2, it, files);
        }
      }
    }
  }

  ghost predicate RunsOver(max: nat, s: State, its: seq<Iteration>, files: map<string, nat>)
    requires Sound(s.reader)
  {
    its == [] ||
    var init, it := its[..|its| - 1], its[|its| - 1];
    RunsOver(max, s, init, files) && StepOver(Run(max, s, init), it, files)
  }

  lemma {:induction false} RunKeepsSwitchInv(max: nat, pattern: string, its: seq<Iteration>, files: map<string, nat>)
    requires HasWildcard(pattern) && files != map[] && DistinctInodes(files)
    requires RunsOver(max, Init(pattern), its, files)
    ensures SwitchInv(Run(max, Init(pattern), its), files)
  {
    if its == [] {
      var p :| p in files;
      assert files[p] in files.Values;
    } else {
      var n := |its| - 1;
      RunKeepsSwitchInv(max, pattern, its[..n], files);
      PollKeepsSwitchInv(max, Run(max, Init(pattern), its[..n]), its[n], files);
    }
  }

  lemma {:induction false} ProperSubsetIsSmaller<T>(a: set<T>, b: set<T>)
    requires a < b
    ensures |a| < |b|
  {
    assert b == a + (b - a);
    assert |b - a| > 0;
  }

  lemma {:induction false} ValuesAtMostKeys<K, V>(m: map<K, V>)
    ensures |m.Values| <= |m|
    decreases |m|
  {}

  /** Over a fixed set of n matching files the tailer switches at most n - 1
      times, whatever their modification times do. */
  lemma {:induction false} SwitchesAreBounded(max: nat, pattern: string, its: seq<Iteration>, files: map<string, nat>)
    requires HasWildcard(pattern) && files != map[] && DistinctInodes(files)
    requires RunsOver(max, Init(pattern), its, files)
    ensures |Run(max, Init(pattern), its).switched| <= |files| - 1
  {
    RunKeepsSwitchInv(max, pattern, its, files);
    ProperSubsetIsSmaller(Run(max, Init(pattern), its).left, files.Values);
    ValuesAtMostKeys(files);
  }

  function BytesRead(replies: seq<DrainReply>): nat
  {
    if replies == [] then 0 else |replies[0].data| + BytesRead(replies[1..])
  }

  /** The last size seen after consuming some replies, if that re-stat worked. */
  function LastSize(size: nat, consumed: seq<DrainReply>): Option<nat>
  {
    if consumed == [] then Some(size) else consumed[|consumed| - 1].restat
  }

  /** Whether the drain still has bytes to read after j replies: the size seen
      last lies beyond the offset it has reached. */
  predicate MoreToRead(offset: nat, size: nat, replies: seq<DrainReply>, j: nat)
    requires j <= |replies|
  {
    var last := LastSize(size, replies[..j]);
    last.Some? && last.value > offset + BytesRead(replies[..j])
  }

  /** How many replies a drain takes. */
  function Consumed(offset: nat, size: nat, replies: seq<DrainReply>): (k: nat)
    ensures k <= |replies|
    decreases |replies|
  {
    if size <= offset || replies == [] then 0
    else if replies[0].failed || replies[0].restat.None? || replies[0].cancelled then 1
    else 1 + Consumed(offset + |replies[0].data|, replies[0].restat.value, replies[1..])
  }

  /** Before each reply it takes there was more to read... */
  lemma {:induction false} ReadsOnWhileMore(offset: nat, size: nat, replies: seq<DrainReply>, j: nat)
    requires j < Consumed(offset, size, replies)
    ensures MoreToRead(offset, size, replies, j)
    decreases |replies|
  {
    if j > 0 {
      RepliesCons(size, replies, j);
      hide BytesRead, LastSize;
      ReadsOnWhileMore(offset + |replies[0].data|, replies[0].restat.value, replies[1..], j - 1);
    }
  }

  /** ... and after the last one there is not, or its re-stat failed. */
  lemma {:induction false} DrainReadsUpTo(max: nat, r: Reader, size: nat, replies: seq<DrainReply>)
    requires r.open && Sound(r)
    requires var e := Drain(max, r, size, replies).end; e.Drained? || e.RestatFailed?
    ensures var o := Drain(max, r, size, replies);
            var k := Consumed(r.offset, size, replies);
            && o.reader.offset == r.offset + BytesRead(replies[..k])
            && match LastSize(size, replies[..k])
               case Some(last) => o.end.Drained? && last <= o.reader.offset
               case None => o.end.RestatFailed?
    decreases |replies|
  {
    hide Absorb;
    if size > r.offset {
      var reply := replies[0];
      var r1 := if reply.data == [] then r else Absorb(max, r, reply.data);
      AbsorbAdvances(max, r, reply.data);
      if reply.restat.None? {
        OneReply(size, replies);
      } else {
        DrainGoesOn(max, r, size, replies);
        hide Drain, Consumed, BytesRead, LastSize;
        var k := Consumed(r1.offset, reply.restat.value, replies[1..]);
        DrainReadsUpTo(max, r1, reply.restat.value, replies[1..]);
        RepliesCons(size, replies, k + 1);
      }
    }
  }

  lemma {:induction false} DrainGoesOn(max: nat, r: Reader, size: nat, replies: seq<DrainReply>)
    requires r.open && Sound(r) && size > r.offset && replies != [] && replies[0].restat.Some?
    requires var e := Drain(max, r, size, replies).end; e.Drained? || e.RestatFailed?
    ensures var reply := replies[0];
            var r1 := if reply.data == [] then r else Absorb(max, r, reply.data);
            && r1.offset == r.offset + |reply.data| && r1.open && Sound(r1)
            && Drain(max, r, size, replies) == Drain(max, r1, reply.restat.value, replies[1..])
            && Consumed(r.offset, size, replies) == 1 + Consumed(r1.offset, reply.restat.value, replies[1..])
  {
    hide Absorb;
    AbsorbAdvances(max, r, replies[0].data);
  }

  lemma {:induction false} AbsorbAdvances(max: nat, r: Reader, data: Bytes)
    requires r.open && Sound(r)
    ensures var t := Absorb(max, r, data);
            t.offset == r.offset + |data| && t.open && Sound(t)
  {
    hide Flush, EmitAll;
  }

  lemma {:induction false} OneReply(size: nat, replies: seq<DrainReply>)
    requires replies != []
    ensures BytesRead(replies[..1]) == |replies[0].data| && LastSize(size, replies[..1]) == replies[0].restat
  {}

  lemma {:induction false} RepliesCons(size: nat, replies: seq<DrainReply>, k: nat)
    requires 0 < k <= |replies| && replies[0].restat.Some?
    ensures BytesRead(replies[..k]) == |replies[0].data| + BytesRead(replies[1..][..k - 1])
    ensures LastSize(size, replies[..k]) == LastSize(replies[0].restat.value, replies[1..][..k - 1])
  {
    assert replies[..k][1..] == replies[1..][..k - 1];
  }

  /** A switch happens only once the current file has been read up to the last
      size observed by the replies the drain took, unless the last of them
      could not tell the size; it never stops while there is more to read. */
  lemma {:induction false} SwitchOnlyAfterDrain(max: nat, s: State, it: Iteration)
    requires Sound(s.reader) && Poll(max, s, it).switched != s.switched
    ensures it.size.Some?
    ensures var t := Poll(max, s, it);
            var r := RotationPhase(OpenPhase(s, it), it.rotation).reader;
            && t.switched == s.switched + [r.ino] && r.ino in t.left && !t.reader.open
            && ReadsToTheEnd(r, it.size.value, it.drain, t.reader.offset)
  {
    hide ReadPhase, ReadsToTheEnd;
    var s1 := OpenPhase(s, it);
    assert s1.switched == s.switched;
    var s2 := RotationPhase(s1, it.rotation);
    assert s2.switched == s.switched;
    ReadSwitches(max, s2, it);
  }

  /** The offset is that of the replies taken, there was more to read before
      each of them, and now the last size seen is reached or could not be seen. */
  ghost predicate ReadsToTheEnd(r: Reader, size: nat, replies: seq<DrainReply>, offset: nat)
  {
    var k := Consumed(r.offset, size, replies);
    && offset == r.offset + BytesRead(replies[..k])
    && (forall j :: 0 <= j < k ==> MoreToRead(r.offset, size, replies, j))
    && match LastSize(size, replies[..k])
       case Some(last) => last <= offset
       case None => k > 0 && replies[k - 1].restat.None?
  }

  lemma {:induction false} ReadSwitches(max: nat, s: State, it: Iteration)
    requires s.reader.open && Sound(s.reader) && ReadPhase(max, s, it).switched != s.switched
    ensures it.size.Some?
    ensures var t := ReadPhase(max, s, it);
            && t.switched == s.switched + [s.reader.ino] && s.reader.ino in t.left && !t.reader.open
            && ReadsToTheEnd(s.reader, it.size.value, it.drain, t.reader.offset)
  {
    hide Drain, Consumed, BytesRead, MoreToRead;
    DrainReadsUpTo(max, s.reader, it.size.value, it.drain);
    forall j | 0 <= j < Consumed(s.reader.offset, it.size.value, it.drain)
      ensures MoreToRead(s.reader.offset, it.size.value, it.drain, j)
    {
      ReadsOnWhileMore(s.reader.offset, it.size.value, it.drain, j);
    }
  }
}
