/**
 When bytes of a file are read and published more than once: a file opened
 again is read from its start, so exactly when the earlier opening read
 something the later one reaches.
 */
module AtMostOnce {
  import opened Lines
  import opened Text
  import opened TailerModel
  import opened TailerTheorems

  function Length(o: Opening): nat
  {
    |Concat(o.chunks)|
  }

  /** The byte at position x of the opening's file was read through it. */
  predicate ReadIn(o: Opening, x: nat)
  {
    o.start <= x < o.start + Length(o)
  }

  ghost predicate ReadInBoth(os: seq<Opening>, i: nat, j: nat, x: nat)
  {
    i < j < |os| && os[i].ino == os[j].ino && ReadIn(os[i], x) && ReadIn(os[j], x)
  }

  /** The inode of opening i was opened again as j, which reads past where i began. */
  predicate Reread(os: seq<Opening>, i: nat, j: nat)
  {
    i < j < |os| && os[i].ino == os[j].ino && Length(os[i]) > 0 && Length(os[j]) > os[i].start
  }

  /** In every run, two openings read a byte of the same inode twice if and only
      if the earlier read anything and the later got past where the earlier began. */
  lemma {:induction false} ReadTwiceExactlyWhenReread(max: nat, pattern: string, its: seq<Iteration>, i: nat, j: nat)
    ensures var os := Run(max, Init(pattern), its).reader.openings;
            (exists x :: ReadInBoth(os, i, j, x)) <==> Reread(os, i, j)
  {
    LaterOpeningsStartAtZero(max, pattern, its);
    var os := Run(max, Init(pattern), its).reader.openings;
    hide Run, Length;
    if Reread(os, i, j) {
      assert ReadInBoth(os, i, j, os[i].start);
    }
  }

  /** No byte of an inode lies in two of the ranges. */
  ghost predicate Disjoint(os: seq<Opening>, rs: seq<Origin>)
  {
    forall a, b :: 0 <= a < b < |rs| && SameFile(os, rs[a], rs[b]) ==> rs[a].to <= rs[b].from || rs[b].to <= rs[a].from
  }

  predicate SameFile(os: seq<Opening>, a: Origin, b: Origin)
  {
    a.opening < |os| && b.opening < |os| && os[a.opening].ino == os[b.opening].ino
  }

  /** A published range is not empty and was read. */
  lemma {:induction false} RangeWasRead(max: nat, o: Opening, r: Origin, e: Event)
    requires max > 0 && ComesFrom(max, o, r, e)
    ensures o.start <= r.from < r.to <= o.start + Length(o)
  {
    hide Emit, Concat;
  }

  lemma {:induction false} TwoRanges(max: nat, os: seq<Opening>, rs: seq<Origin>, es: seq<Event>, a: nat, b: nat)
    requires max > 0 && Traced(max, os, rs, es) && a < b < |rs| && SameFile(os, rs[a], rs[b])
    requires forall j :: 0 < j < |os| ==> os[j].start == 0
    requires !Reread(os, rs[a].opening, rs[b].opening)
    ensures rs[a].to <= rs[b].from || rs[b].to <= rs[a].from
  {
    hide ComesFrom, Length;
    RangeWasRead(max, os[rs[a].opening], rs[a], es[a]);
    RangeWasRead(max, os[rs[b].opening], rs[b], es[b]);
    assert Before(rs[a], rs[b]);
  }

  /** At most once: in every run in which no inode is reread, every message has
      its own range of one opening's bytes and no byte of any file is in two. */
  lemma {:induction false} NoByteIsPublishedTwice(max: nat, size: nat, pattern: string, its: seq<Iteration>)
    returns (origins: seq<Origin>)
    requires 0 < size <= max && forall it :: it in its ==> ReadsWithin(it, size)
    requires var os := Run(max, Init(pattern), its).reader.openings;
             forall i, j :: 0 <= i < j < |os| ==> !Reread(os, i, j)
    ensures var r := Run(max, Init(pattern), its).reader;
            Traced(max, r.openings, origins, r.published) && Disjoint(r.openings, origins)
  {
    origins := EveryRunPublishesRangesInOrder(max, size, pattern, its);
    LaterOpeningsStartAtZero(max, pattern, its);
    var r := Run(max, Init(pattern), its).reader;
    hide Run, ReadsWithin, Reread, Traced;
    forall a, b | 0 <= a < b < |origins| && SameFile(r.openings, origins[a], origins[b])
      ensures origins[a].to <= origins[b].from || origins[b].to <= origins[a].from
    {
      NotReread(max, r.openings, origins, r.published, a, b);
      TwoRanges(max, r.openings, origins, r.published, a, b);
    }
  }

  lemma {:induction false} NotReread(max: nat, os: seq<Opening>, rs: seq<Origin>, es: seq<Event>, a: nat, b: nat)
    requires Traced(max, os, rs, es) && a < b < |rs| && SameFile(os, rs[a], rs[b])
    requires forall i, j :: 0 <= i < j < |os| ==> !Reread(os, i, j)
    ensures !Reread(os, rs[a].opening, rs[b].opening)
  {
    hide ComesFrom, Length;
    assert Before(rs[a], rs[b]);
  }

  /** In particular when no inode is opened twice. */
  lemma {:induction false} DistinctInodesArePublishedOnce(max: nat, size: nat, pattern: string, its: seq<Iteration>)
    returns (origins: seq<Origin>)
    requires 0 < size <= max && forall it :: it in its ==> ReadsWithin(it, size)
    requires var os := Run(max, Init(pattern), its).reader.openings;
             forall i, j :: 0 <= i < j < |os| ==> os[i].ino != os[j].ino
    ensures var r := Run(max, Init(pattern), its).reader;
            Traced(max, r.openings, origins, r.published) && Disjoint(r.openings, origins)
  {
    hide Run, ReadsWithin, Length;
    origins := NoByteIsPublishedTwice(max, size, pattern, its);
  }

  // ---------------------------------------------------------------------
  // A failed stat republishes the file
  // ---------------------------------------------------------------------

  /** A pass that finds the file with this size when opening it, and reads data. */
  function ReadingPass(ino: nat, end: nat, data: Bytes): Iteration
  {
    Iteration(false, false, [], Opened(ino, end), RotationReply(false, None, None, []),
              Some(|data|), [DrainReply(data, false, Some(|data|), false)])
  }

  /** A pass whose stat of the open file fails. */
  function FailingPass(): Iteration
  {
    Iteration(false, false, [], OpenFailed, RotationReply(false, None, None, []), None, [])
  }

  lemma {:induction false} ReadsFromZero(max: nat, s: State, ino: nat, end: nat, data: Bytes)
    requires !s.glob && !s.done && !s.reader.open && s.cycle < 24 && !s.switchPending && s.reader.buffer == []
    requires data != [] && (s.startAtEnd ==> end == 0)
    ensures var t := Poll(max, s, ReadingPass(ino, end, data));
            && !t.glob && !t.done && t.reader.open && t.cycle == s.cycle + 1 && !t.switchPending && !t.startAtEnd
            && t.reader.path == s.reader.path
            && t.reader.published == s.reader.published + Tag(s.reader.path, EmitAll(Flush(max, data).segments))
            && t.reader.openings == s.reader.openings + [Opening(s.reader.path, ino, 0, [data])]
  {
    hide Flush, EmitAll;
    var it := ReadingPass(ino, end, data);
    var s1 := OpenPhase(s, it);
    var s2 := RotationPhase(s1, it.rotation);
    assert s2.reader == s1.reader && s2.reader.offset == 0 && s2.reader.buffer + data == data;
    OneRead(max, s2.reader, it.drain);
    assert s2.reader.openings[..|s.reader.openings|] == s.reader.openings && [] + [data] == [data];
  }

  lemma {:induction false} OneRead(max: nat, r: Reader, drain: seq<DrainReply>)
    requires r.open && r.openings != [] && r.offset == 0
    requires |drain| == 1 && drain[0].data != [] && drain[0] == DrainReply(drain[0].data, false, Some(|drain[0].data|), false)
    ensures Drain(max, r, |drain[0].data|, drain) == DrainOutcome(Absorb(max, r, drain[0].data), Drained)
  {
    hide Flush, EmitAll;
    var t := Absorb(max, r, drain[0].data);
    assert Drain(max, t, |drain[0].data|, drain[1..]) == DrainOutcome(t, Drained);
  }

  lemma {:induction false} FailsAndCloses(max: nat, s: State)
    requires !s.glob && !s.done && s.reader.open && s.cycle < 24 && Sound(s.reader)
    ensures Poll(max, s, FailingPass()) == s.(cycle := s.cycle + 1, reader := Close(s.reader))
  {}

  /** One failed stat, and everything read so far is published again: for any
      file, the messages of its first read come out twice. */
  lemma {:induction false} FailedStatRepublishes(max: nat, path: string, ino: nat, data: Bytes)
    returns (its: seq<Iteration>)
    requires !HasWildcard(path) && data != []
    ensures |its| == 3 && its[1].size.None?
    ensures var r := Run(max, Init(path), its).reader;
            var events := Tag(path, EmitAll(Flush(max, data).segments));
            && r.published == events + events
            && |r.openings| == 2 && Reread(r.openings, 0, 1)
  {
    hide Flush, EmitAll, Poll;
    var first, again := ReadingPass(ino, 0, data), ReadingPass(ino, |data|, data);
    its := [first, FailingPass(), again];
    var s := Init(path);
    RunThree(max, s, first, FailingPass(), again);
    ReadsFromZero(max, s, ino, 0, data);
    var s1 := Poll(max, s, first);
    FailsAndCloses(max, s1);
    var s2 := Poll(max, s1, FailingPass());
    ReadsFromZero(max, s2, ino, |data|, data);
    OneChunk(data);
  }

  lemma {:induction false} OneChunk(data: Bytes)
    ensures Concat([data]) == data
  {}

  lemma {:induction false} RunThree(max: nat, s: State, a: Iteration, b: Iteration, c: Iteration)
    requires Sound(s.reader)
    ensures Run(max, s, [a, b, c]) == Poll(max, Poll(max, Poll(max, s, a), b), c)
  {
    hide Poll;
    assert [a, b, c][..2] == [a, b] && [a, b][..1] == [a];
    assert Run(max, s, [a][..0]) == s;
    assert Run(max, s, [a]) == Poll(max, s, a);
    assert Run(max, s, [a, b]) == Poll(max, Poll(max, s, a), b);
  }
}
