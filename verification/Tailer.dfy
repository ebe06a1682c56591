/**
 The log tailer as the object it is: fields updated in place by loops. Each
 method is proved to do what the step functions of TailerModel say, so every
 theorem about those holds of this code.
 */
module Tailer {
  import opened Lines
  import opened Text
  import opened TailerModel

  class Tailer {
    const glob: bool
    const max: nat  // longest line kept whole
    var path: string
    var left: set<nat>
    var batch: seq<Event>

    // the local variables of the run loop
    var isOpen: bool
    var ino: nat
    var offset: nat
    var buffer: Bytes
    var startAtEnd: bool
    var cycle: nat
    var switchPending: bool
    var done: bool

    ghost var published: seq<Event>
    ghost var openings: seq<Opening>
    ghost var switched: seq<nat>

    ghost function Reading(): Reader
      reads this
    {
      Reader(path, isOpen, ino, offset, buffer, published, openings)
    }

    ghost function View(): State
      reads this
    {
      State(glob, left, startAtEnd, cycle, switchPending, done, switched, Reading())
    }

    ghost predicate Valid()
      reads this
    {
      batch == [] && Sound(Reading())
    }

    constructor (pattern: string, max: nat)
      ensures Valid() && View() == Init(pattern) && this.max == max
    {
      this.max := max;
      glob := HasWildcard(pattern);
      path, left, batch := pattern, {}, [];
      isOpen, ino, offset, buffer := false, 0, 0, [];
      startAtEnd, cycle, switchPending, done := true, 0, false, false;
      published, openings, switched := [], [], [];
    }

    /** Looks for the newest eligible match and forgets left inodes no longer seen. */
    method NewestMatch(scan: seq<ScanEntry>) returns (newest: string, mtime: int)
      modifies this`left
      ensures (newest, mtime) == Newest(old(left), scan)
      ensures left == old(left) * Present(scan)
    {
      newest, mtime := "", 0;
      var present: set<nat> := {};
      for i := 0 to |scan|
        invariant left == old(left)
        invariant (newest, mtime) == Newest(left, scan[..i])
        invariant present == Present(scan[..i])
      {
        var e := scan[i];
        assert scan[..i + 1] == scan[..i] + [e];
        PresentSnoc(scan[..i], e);
        hide Present, Less;
        if e.regular {
          present := present + {e.ino};
          if e.ino !in left {
            if newest == "" || e.mtime > mtime || (e.mtime == mtime && Less(newest, e.path)) {
              newest, mtime := e.path, e.mtime;
            }
          }
        }
      }
      assert scan[..|scan|] == scan;
      Forget(present);
    }

    /** Keeps only the left inodes that are still present. */
    method Forget(present: set<nat>)
      modifies this`left
      ensures left == old(left) * present
    {
      var unchecked := left;
      while unchecked != {}
        invariant unchecked <= left
        invariant forall x :: x in left <==> x in old(left) && (x in unchecked || x in present)
        decreases |unchecked|
      {
        var x :| x in unchecked;
        unchecked := unchecked - {x};
        if x !in present {
          left := left - {x};
        }
      }
    }

    method AppendEvent(line: Bytes)
      modifies this`batch
      ensures batch == old(batch) + [Event(path, line)]
    {
      batch := batch + [Event(path, line)];
    }

    /** Ships the pending batch and resets it. */
    method PublishBatch()
      modifies this`batch, this`published
      ensures published == old(published) + old(batch) && batch == []
    {
      if batch == [] {
        assert published + batch == published;
        return;
      }
      published := published + batch;
      batch := [];
    }

    /** Takes the complete lines out of the buffer, or the oversized chunk. */
    method FlushCompleteLines()
      requires batch == []
      modifies this`buffer, this`batch, this`published
      ensures batch == []
      ensures var f := Flush(max, old(buffer));
              && buffer == f.rest
              && published == old(published) + Tag(path, EmitAll(f.segments))
    {
      if |buffer| > max {
        ghost var g := Segment(buffer[..max], true);
        EmitOne(g);
        AppendEvent(buffer[..max]);
        assert batch == Tag(path, Emit(g));
        buffer := buffer[max..];
      } else {
        TakeLines();
      }
      PublishBatch();
    }

    method TakeLines()
      requires batch == []
      modifies this`buffer, this`batch
      ensures buffer == UnterminatedTail(old(buffer))
      ensures batch == Tag(path, EmitAll(LineSegments(old(buffer))))
    {
      hide LineSegments, UnterminatedTail, CleanLine, Tag, EmitAll, IndexOf, CutSoFar;
      var data := buffer;
      var consumed := 0;
      ghost var cut := NothingCut(path, data);
      while true
        invariant 0 <= consumed <= |data| && buffer == data
        invariant CutSoFar(data, consumed, cut)
        invariant batch == Tag(path, EmitAll(cut))
        decreases |data| - consumed
      {
        var idx := IndexOf(data[consumed..], NEWLINE);
        if idx < 0 {
          NothingToCut(data, consumed, cut);
          break;
        }
        var line := data[consumed..consumed + idx];
        ghost var g := CutOne(path, data, consumed, idx, cut);
        cut := cut + [g];
        consumed := consumed + idx + 1;
        line := CleanLine(line);
        if line == [] {
          continue;
        }
        AppendEvent(line);
      }
      if consumed > 0 {
        buffer := buffer[consumed..];
      }
    }

    /** One read of the drain: buffer it, flush, publish. */
    method TakeChunk(data: Bytes)
      requires Valid() && isOpen
      modifies this`offset, this`buffer, this`batch, this`published, this`openings
      ensures Valid() && Reading() == Absorb(max, old(Reading()), data)
    {
      offset := offset + |data|;
      buffer := buffer + data;
      FlushCompleteLines();
      ghost var k := |openings| - 1;
      openings := openings[..k] + [openings[k].(chunks := openings[k].chunks + [data])];
    }

    /** The drain loop: reads chunk after chunk until the file is caught up. */
    method DrainLoop(known: nat, replies: seq<DrainReply>) returns (end: DrainEnd)
      requires Valid() && isOpen
      modifies this`isOpen, this`offset, this`buffer, this`batch, this`published, this`openings
      ensures Valid()
      ensures Drain(max, old(Reading()), known, replies) == DrainOutcome(Reading(), end)
    {
      hide Absorb;
      var size: nat, i := known, 0;
      while size > offset
        invariant 0 <= i <= |replies| && Valid() && isOpen
        invariant Drain(max, Reading(), size, replies[i..]) == Drain(max, old(Reading()), known, replies)
        decreases |replies| - i
      {
        if i == |replies| {
          return Cancelled;
        }
        var reply := replies[i];
        assert replies[i..][0] == reply && replies[i..][1..] == replies[i + 1..];
        i := i + 1;
        if |reply.data| > 0 {
          TakeChunk(reply.data);
        }
        if reply.failed {
          CloseFile();
          return ReadFailed;
        }
        if reply.restat.None? {
          return RestatFailed;
        }
        size := reply.restat.value;
        if reply.cancelled {
          return Cancelled;
        }
      }
      return Drained;
    }

    method CloseFile()
      modifies this`isOpen, this`buffer
      ensures Reading() == Close(old(Reading()))
    {
      isOpen, buffer := false, [];
    }

    method TryOpen(reply: OpenReply)
      requires !isOpen
      modifies this`isOpen, this`ino, this`offset, this`startAtEnd, this`openings
      ensures View() == OpenFile(old(View()), reply)
    {
      match reply
      case OpenFailed =>
        ino, offset := 0, 0;
      case Opened(found, end) =>
        isOpen, ino := true, found;
        offset := if startAtEnd then end else 0;
        startAtEnd := false;
        openings := openings + [Opening(path, ino, offset, [])];
    }

    method EnsureOpen(it: Iteration)
      requires Valid()
      modifies this
      ensures View() == OpenPhase(old(View()), it) && batch == []
    {
      if !isOpen {
        switchPending := false;
        if glob {
          var newest, _ := NewestMatch(it.scan);
          if newest == "" {
            return;
          }
          path := newest;
        } else if it.missing {
          return;
        }
        TryOpen(it.open);
      }
    }

    method CheckRotation(r: RotationReply)
      requires Valid()
      modifies this
      ensures View() == RotationPhase(old(View()), r) && batch == []
    {
      cycle := cycle + 1;
      if cycle % ROTATION_CHECK_EVERY == 0 {
        if r.gone {
          CloseFile();
          return;
        }
        if r.current.Some? && r.current.value != ino {
          CloseFile();
          return;
        }
        if glob && !switchPending {
          if r.ownMtime.None? {
            switchPending := false;
          } else {
            var newest, mtime := NewestMatch(r.scan);
            switchPending := newest != "" && newest != path && mtime > r.ownMtime.value;
          }
        }
      }
    }

    method ReadAvailable(it: Iteration)
      requires Valid() && isOpen
      modifies this
      ensures View() == ReadPhase(max, old(View()), it) && batch == []
    {
      if it.size.None? || it.size.value < offset {
        CloseFile();
        return;
      }
      ghost var before := Reading();
      ghost var outcome := Drain(max, before, it.size.value, it.drain);
      var end := DrainLoop(it.size.value, it.drain);
      var _ := DrainFrame(max, before, it.size.value, it.drain);
      hide Drain;
      match end
      case Cancelled =>
        done := true;
      case ReadFailed =>
      case Drained | RestatFailed =>
        if switchPending {
          left := left + {ino};
          switched := switched + [ino];
          CloseFile();
        }
    }

    /** One pass of the run loop. */
    method Pass(it: Iteration)
      requires Valid()
      modifies this
      ensures Valid() && View() == Poll(max, old(View()), it)
    {
      if done {
        return;
      }
      if it.cancelled {
        done := true;
        return;
      }
      hide Drain, OpenPhase, RotationPhase, ReadPhase;
      EnsureOpen(it);
      if !isOpen {
        return;
      }
      CheckRotation(it.rotation);
      if !isOpen {
        return;
      }
      ReadAvailable(it);
    }

    /** The whole run. */
    method RunAll(its: seq<Iteration>)
      requires Valid()
      modifies this
      ensures Valid() && View() == Run(max, old(View()), its)
    {
      hide Poll;
      for i := 0 to |its|
        invariant Valid() && View() == Run(max, old(View()), its[..i])
      {
        assert its[..i + 1][..i] == its[..i];
        Pass(its[i]);
      }
      assert its[..|its|] == its;
    }
  }

  lemma {:induction false} PresentSnoc(scan: seq<ScanEntry>, e: ScanEntry)
    ensures Present(scan + [e]) == Present(scan) + (if e.regular then {e.ino} else {})
  {
    var all := scan + [e];
    assert all[|scan|] == e;
    assert forall i :: 0 <= i < |scan| ==> all[i] == scan[i];
  }

  /** The segments cut so far account for the data before consumed. */
  ghost predicate CutSoFar(data: Bytes, consumed: nat, cut: seq<Segment>)
    requires consumed <= |data|
  {
    && LineSegments(data) == cut + LineSegments(data[consumed..])
    && UnterminatedTail(data) == UnterminatedTail(data[consumed..])
  }

  lemma {:induction false} NothingCut(path: string, data: Bytes) returns (cut: seq<Segment>)
    ensures CutSoFar(data, 0, cut) && Tag(path, EmitAll(cut)) == []
  {
    cut := [];
    assert data[0..] == data;
  }

  lemma {:induction false} NothingToCut(data: Bytes, consumed: nat, cut: seq<Segment>)
    requires consumed <= |data| && CutSoFar(data, consumed, cut) && IndexOf(data[consumed..], NEWLINE) < 0
    ensures LineSegments(data) == cut && UnterminatedTail(data) == data[consumed..]
  {}

  lemma {:induction false} CutOne(path: string, data: Bytes, consumed: nat, idx: nat, cut: seq<Segment>) returns (g: Segment)
    requires consumed <= |data| && CutSoFar(data, consumed, cut) && IndexOf(data[consumed..], NEWLINE) == idx
    ensures consumed + idx + 1 <= |data| && CutSoFar(data, consumed + idx + 1, cut + [g])
    ensures var line := CleanLine(data[consumed..consumed + idx]);
            Tag(path, EmitAll(cut + [g])) ==
            Tag(path, EmitAll(cut)) + if line == [] then [] else [Event(path, line)]
  {
    hide LineSegments, UnterminatedTail, CleanLine, Emit, IndexOf, EmitAll;
    g := NextSegment(data, consumed, idx);
    SeqAssociates(cut, [g], LineSegments(data[consumed + idx + 1..]));
    EmitDistributes(cut, [g]);
    EmitOne(g);
    TagDistributes(path, EmitAll(cut), Emit(g));
  }

  lemma {:induction false} NextSegment(data: Bytes, consumed: nat, idx: nat) returns (g: Segment)
    requires consumed <= |data| && IndexOf(data[consumed..], NEWLINE) == idx
    ensures consumed + idx + 1 <= |data|
    ensures g == Segment(data[consumed..consumed + idx + 1], false)
    ensures Emit(g) == var line := CleanLine(data[consumed..consumed + idx]); if line == [] then [] else [line]
    ensures LineSegments(data[consumed..]) == [g] + LineSegments(data[consumed + idx + 1..])
    ensures UnterminatedTail(data[consumed..]) == UnterminatedTail(data[consumed + idx + 1..])
  {
    hide *;
    g := Segment(data[consumed..consumed + idx + 1], false);
    NextSegmentOf(data[consumed..], idx);
    SliceOfTail(data, consumed, idx);
  }

  lemma {:induction false} SliceOfTail(data: Bytes, at: nat, n: nat)
    requires at + n < |data|
    ensures data[at..][..n] == data[at..at + n] && data[at..][..n + 1] == data[at..at + n + 1]
    ensures data[at..][n + 1..] == data[at + n + 1..]
  {}

  lemma {:induction false} NextSegmentOf(s: Bytes, idx: nat)
    requires IndexOf(s, NEWLINE) == idx
    ensures var g := Segment(s[..idx + 1], false);
            && LineSegments(s) == [g] + LineSegments(s[idx + 1..])
            && UnterminatedTail(s) == UnterminatedTail(s[idx + 1..])
            && Emit(g) == var line := CleanLine(s[..idx]); if line == [] then [] else [line]
  {
    hide IndexOf, Emit, CleanLine;
    EmitLine(s, idx);
  }

  lemma {:induction false} EmitLine(s: Bytes, idx: nat)
    requires idx < |s|
    ensures Emit(Segment(s[..idx + 1], false)) ==
            var line := CleanLine(s[..idx]); if line == [] then [] else [line]
  {
    hide CleanLine;
    assert s[..idx + 1][..idx] == s[..idx];
  }
}
