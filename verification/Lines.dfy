/**
 The streaming line splitter inside the log tailer: what one flush of the line
 buffer removes and emits, and what a whole sequence of reads adds up to.

 The line limit and the read size are parameters of every statement, so the
 theorems hold for any pair of constants, not only for the two the tailer uses.
 */
module Lines {
  import opened Text

  type Byte = b: int | 0 <= b < 256
  type Bytes = seq<Byte>

  const NEWLINE: Byte := 10
  const CARRIAGE_RETURN: Byte := 13
  /** The UTF-8 byte order mark, section 6 of RFC 3629. */
  const BOM: Bytes := [0xEF, 0xBB, 0xBF]

  const MAX_LINE_BYTES: nat := 1024 * 1024
  const READ_BUF_SIZE: nat := 64 * 1024

  /** First position of a byte, or -1. */
  function IndexOf(s: Bytes, b: Byte): (r: int)
    ensures -1 <= r < |s|
    ensures r < 0 <==> b !in s
    ensures r >= 0 ==> s[r] == b && b !in s[..r]
  {
    if s == [] then -1
    else if s[0] == b then 0
    else
      var r := IndexOf(s[1..], b);
      assert s == [s[0]] + s[1..];
      if r < 0 then -1 else assert s[..r + 1] == [s[0]] + s[1..][..r]; r + 1
  }

  // ---------------------------------------------------------------------
  // Cleaning one line
  // ---------------------------------------------------------------------

  /** One left-to-right pass that removes non-overlapping byte order marks. */
  function StripBom(s: Bytes): (r: Bytes)
    ensures |r| <= |s|
    ensures forall b :: b in r ==> b in s
  {
    if s == [] then []
    else if BOM <= s then StripBom(s[3..])
    else [s[0]] + StripBom(s[1..])
  }

  function StripCR(s: Bytes): (r: Bytes)
    ensures |r| <= |s|
    ensures forall b :: b in r <==> b in s && b != CARRIAGE_RETURN
  {
    if s == [] then []
    else (if s[0] == CARRIAGE_RETURN then [] else [s[0]]) + StripCR(s[1..])
  }

  function CleanLine(s: Bytes): (r: Bytes)
    ensures |r| <= |s|
    ensures CARRIAGE_RETURN !in r
    ensures forall b :: b in r ==> b in s
  {
    StripCR(StripBom(s))
  }

  /** Cleaning is not idempotent and can leave a mark behind: removing the
      carriage return joins the three bytes of a new one. */
  lemma {:induction false} CleaningCanJoinABom()
    ensures CleanLine([0xEF, 0x0D, 0xBB, 0xBF]) == BOM
    ensures CleanLine(CleanLine([0xEF, 0x0D, 0xBB, 0xBF])) == []
  {
    var s: Bytes := [0xEF, 0x0D, 0xBB, 0xBF];
    assert s[1..] == [0x0D, 0xBB, 0xBF] && s[1..][1..] == [0xBB, 0xBF] && s[1..][1..][1..] == [0xBF];
    assert s[1..][1..][1..][1..] == [];
    assert StripBom(s[1..][1..][1..]) == [0xBF];
    assert StripBom(s[1..][1..]) == [0xBB, 0xBF];
    assert StripBom(s) == s;
    assert StripCR([0xBF]) == [0xBF];
    assert StripCR(s) == BOM;
    assert BOM[3..] == [];
  }

  // ---------------------------------------------------------------------
  // The simple specification: split on newline, clean, drop empties
  // ---------------------------------------------------------------------

  function TerminatedLines(s: Bytes): (r: seq<Bytes>)
    decreases |s|
  {
    var i := IndexOf(s, NEWLINE);
    if i < 0 then [] else [s[..i]] + TerminatedLines(s[i + 1..])
  }

  function UnterminatedTail(s: Bytes): (r: Bytes)
    ensures NEWLINE !in r
    ensures |r| <= |s|
    decreases |s|
  {
    var i := IndexOf(s, NEWLINE);
    if i < 0 then s else UnterminatedTail(s[i + 1..])
  }

  function KeepNonEmpty(lines: seq<Bytes>): (r: seq<Bytes>)
    ensures forall m :: m in r ==> m != []
  {
    if lines == [] then []
    else (if CleanLine(lines[0]) == [] then [] else [CleanLine(lines[0])]) + KeepNonEmpty(lines[1..])
  }

  function Messages(s: Bytes): (r: seq<Bytes>)
  {
    KeepNonEmpty(TerminatedLines(s))
  }

  /** The messages are the cleaned lines that are not empty, all of them and in
      order: the i-th comes from line at[i]. */
  lemma {:induction false} MessagesAreTheNonEmptyLines(s: Bytes) returns (at: seq<nat>)
    ensures KeptAt(TerminatedLines(s), Messages(s), at)
  {
    at := KeptPositions(TerminatedLines(s));
  }

  ghost predicate KeptAt(lines: seq<Bytes>, messages: seq<Bytes>, at: seq<nat>)
  {
    InStep(lines, messages, at) && forall k: nat :: k in at <==> Kept(lines, k)
  }

  ghost predicate InStep(lines: seq<Bytes>, messages: seq<Bytes>, at: seq<nat>)
  {
    && |messages| == |at|
    && (forall i, j :: 0 <= i < j < |at| ==> at[i] < at[j])
    && forall i :: 0 <= i < |at| ==> at[i] < |lines| && messages[i] == CleanLine(lines[at[i]])
  }

  predicate Kept(lines: seq<Bytes>, k: nat)
  {
    k < |lines| && CleanLine(lines[k]) != []
  }

  lemma {:induction false} KeptPositions(lines: seq<Bytes>) returns (at: seq<nat>)
    ensures KeptAt(lines, KeepNonEmpty(lines), at)
  {
    hide CleanLine;
    if lines == [] {
      at := [];
    } else {
      var rest := KeptPositions(lines[1..]);
      var shifted: seq<nat> := seq(|rest|, i requires 0 <= i < |rest| => rest[i] + 1);
      at := (if CleanLine(lines[0]) == [] then [] else [0]) + shifted;
      KeptCons(lines, KeepNonEmpty(lines[1..]), rest, shifted);
    }
  }

  lemma {:induction false} KeptCons(lines: seq<Bytes>, messages: seq<Bytes>, rest: seq<nat>, shifted: seq<nat>)
    requires lines != [] && KeptAt(lines[1..], messages, rest)
    requires |shifted| == |rest| && forall i :: 0 <= i < |rest| ==> shifted[i] == rest[i] + 1
    ensures var line := CleanLine(lines[0]);
            KeptAt(lines, (if line == [] then [] else [line]) + messages, (if line == [] then [] else [0]) + shifted)
  {
    hide CleanLine, Kept, InStep;
    var line := CleanLine(lines[0]);
    var at := (if line == [] then [] else [0]) + shifted;
    InStepCons(lines, messages, rest, shifted);
    forall k: nat
      ensures k in at <==> Kept(lines, k)
    {
      KeptLater(lines, k);
      if k > 0 {
        ShiftedHas(rest, shifted, k);
      }
    }
  }

  lemma {:induction false} KeptLater(lines: seq<Bytes>, k: nat)
    requires lines != []
    ensures k > 0 ==> (Kept(lines, k) <==> Kept(lines[1..], k - 1))
    ensures Kept(lines, 0) <==> CleanLine(lines[0]) != []
  {}

  lemma {:induction false} InStepCons(lines: seq<Bytes>, messages: seq<Bytes>, rest: seq<nat>, shifted: seq<nat>)
    requires lines != [] && InStep(lines[1..], messages, rest)
    requires |shifted| == |rest| && forall i :: 0 <= i < |rest| ==> shifted[i] == rest[i] + 1
    ensures var line := CleanLine(lines[0]);
            InStep(lines, (if line == [] then [] else [line]) + messages, (if line == [] then [] else [0]) + shifted)
  {
    hide CleanLine;
  }

  lemma {:induction false} ShiftedHas(rest: seq<nat>, shifted: seq<nat>, k: nat)
    requires k > 0 && |shifted| == |rest| && forall i :: 0 <= i < |rest| ==> shifted[i] == rest[i] + 1
    ensures k in shifted <==> k - 1 in rest
  {
    if k - 1 in rest {
      var i :| 0 <= i < |rest| && rest[i] == k - 1;
      assert shifted[i] == k;
    }
  }

  /** Lines written back with their terminators. */
  function Rejoin(lines: seq<Bytes>): Bytes
  {
    if lines == [] then [] else lines[0] + [NEWLINE] + Rejoin(lines[1..])
  }

  lemma {:induction false} RejoinCons(line: Bytes, lines: seq<Bytes>)
    ensures Rejoin([line] + lines) == line + [NEWLINE] + Rejoin(lines)
  {}

  lemma {:induction false} CutAt(s: Bytes, i: nat)
    requires i < |s| && s[i] == NEWLINE
    ensures s == s[..i] + [NEWLINE] + s[i + 1..] && s == s[..i + 1] + s[i + 1..]
    ensures s[..i + 1][..i] == s[..i]
  {}

  lemma {:induction false} TailSkips(s: Bytes, i: nat)
    requires IndexOf(s, NEWLINE) == i
    ensures UnterminatedTail(s) == UnterminatedTail(s[i + 1..])
  {
    hide IndexOf;
  }

  /** The split is a decomposition of the text into newline-free pieces... */
  lemma {:induction false} SplitRejoins(s: Bytes)
    ensures Rejoin(TerminatedLines(s)) + UnterminatedTail(s) == s
    ensures forall k :: 0 <= k < |TerminatedLines(s)| ==> NEWLINE !in TerminatedLines(s)[k]
    decreases |s|
  {
    var i := IndexOf(s, NEWLINE);
    if i >= 0 {
      var line, tail := s[..i], s[i + 1..];
      SplitRejoins(tail);
      hide IndexOf, UnterminatedTail, Rejoin;
      assert UnterminatedTail(s) == UnterminatedTail(tail) by { TailSkips(s, i); }
      RejoinCons(line, TerminatedLines(tail));
      CutAt(s, i);
      SeqAssociates(line + [NEWLINE], Rejoin(TerminatedLines(tail)), UnterminatedTail(tail));
    }
  }

  /** ... and the only one. */
  lemma {:induction false} SplitIsUnique(lines: seq<Bytes>, rest: Bytes)
    requires forall l :: l in lines ==> NEWLINE !in l
    requires NEWLINE !in rest
    ensures TerminatedLines(Rejoin(lines) + rest) == lines
    ensures UnterminatedTail(Rejoin(lines) + rest) == rest
  {
    var s := Rejoin(lines) + rest;
    if lines == [] {
      assert s == rest;
    } else {
      var tail := Rejoin(lines[1..]) + rest;
      assert s == lines[0] + [NEWLINE] + tail;
      FirstNewline(lines[0], tail);
      SplitIsUnique(lines[1..], rest);
    }
  }

  lemma {:induction false} FirstNewline(line: Bytes, tail: Bytes)
    requires NEWLINE !in line
    ensures var s := line + [NEWLINE] + tail;
            IndexOf(s, NEWLINE) == |line| && s[..|line|] == line && s[|line| + 1..] == tail
  {
    var s := line + [NEWLINE] + tail;
    var i := IndexOf(s, NEWLINE);
    assert s[|line|] == NEWLINE;
    assert forall k :: 0 <= k < |line| ==> s[k] == line[k];
    assert !(|line| < i);
  }

  /** Splitting a longer stream resumes from the unterminated tail. */
  lemma {:induction false} SplitResumes(a: Bytes, b: Bytes)
    ensures TerminatedLines(a + b) == TerminatedLines(a) + TerminatedLines(UnterminatedTail(a) + b)
    ensures UnterminatedTail(a + b) == UnterminatedTail(UnterminatedTail(a) + b)
    decreases |a|
  {
    var i := IndexOf(a, NEWLINE);
    if i >= 0 {
      hide IndexOf;
      var line, tail := a[..i], a[i + 1..];
      CutAt(a, i);
      SeqAssociates(line + [NEWLINE], tail, b);
      FirstNewline(line, tail + b);
      SplitResumes(tail, b);
      SeqAssociates([line], TerminatedLines(tail), TerminatedLines(UnterminatedTail(tail) + b));
    }
  }

  lemma {:induction false} KeepDistributes(a: seq<Bytes>, b: seq<Bytes>)
    ensures KeepNonEmpty(a + b) == KeepNonEmpty(a) + KeepNonEmpty(b)
  {
    if a == [] {
      assert a + b == b;
    } else {
      assert (a + b)[1..] == a[1..] + b;
      KeepDistributes(a[1..], b);
    }
  }

  // ---------------------------------------------------------------------
  // One flush of the line buffer
  // ---------------------------------------------------------------------

  /** A run of bytes removed from the buffer at once: a line with its newline,
      or a chunk forced out because the buffer outgrew the limit. */
  datatype Segment = Segment(raw: Bytes, forced: bool)

  /** What has been removed so far and what is still buffered. */
  datatype Flushed = Flushed(segments: seq<Segment>, rest: Bytes)

  ghost predicate WellFormedSegment(g: Segment, max: nat)
  {
    if g.forced then |g.raw| == max
    else 0 < |g.raw| <= max && NEWLINE !in g.raw[..|g.raw| - 1] && g.raw[|g.raw| - 1] == NEWLINE
  }

  ghost predicate WellFormedSegments(gs: seq<Segment>, max: nat)
  {
    forall i :: 0 <= i < |gs| ==> WellFormedSegment(gs[i], max)
  }

  /** The message a segment turns into, if any. A forced chunk is sent raw. */
  function Emit(g: Segment): (r: seq<Bytes>)
    ensures |r| <= 1
  {
    if g.forced then [g.raw]
    else if g.raw == [] then []
    else
      var line := CleanLine(g.raw[..|g.raw| - 1]);
      if line == [] then [] else [line]
  }

  function EmitAll(gs: seq<Segment>): seq<Bytes>
  {
    if gs == [] then [] else EmitAll(gs[..|gs| - 1]) + Emit(gs[|gs| - 1])
  }

  function Raw(gs: seq<Segment>): Bytes
  {
    if gs == [] then [] else Raw(gs[..|gs| - 1]) + gs[|gs| - 1].raw
  }

  function LineSegments(s: Bytes): (r: seq<Segment>)
    decreases |s|
  {
    var i := IndexOf(s, NEWLINE);
    if i < 0 then [] else [Segment(s[..i + 1], false)] + LineSegments(s[i + 1..])
  }

  /** One call of the flush. */
  function Flush(max: nat, buffer: Bytes): (r: Flushed)
  {
    if |buffer| > max then Flushed([Segment(buffer[..max], true)], buffer[max..])
    else Flushed(LineSegments(buffer), UnterminatedTail(buffer))
  }

  lemma {:induction false} EmitDistributes(a: seq<Segment>, b: seq<Segment>)
    ensures EmitAll(a + b) == EmitAll(a) + EmitAll(b)
    decreases |b|
  {
    if b == [] {
      assert a + b == a;
    } else {
      var init, last := b[..|b| - 1], b[|b| - 1];
      EmitDistributes(a, init);
      assert (a + b)[..|a + b| - 1] == a + init && (a + b)[|a + b| - 1] == last;
      SeqAssociates(EmitAll(a), EmitAll(init), Emit(last));
    }
  }

  lemma {:induction false} RawDistributes(a: seq<Segment>, b: seq<Segment>)
    ensures Raw(a + b) == Raw(a) + Raw(b)
    decreases |b|
  {
    if b == [] {
      assert a + b == a;
    } else {
      var init, last := b[..|b| - 1], b[|b| - 1];
      RawDistributes(a, init);
      assert (a + b)[..|a + b| - 1] == a + init && (a + b)[|a + b| - 1] == last;
      SeqAssociates(Raw(a), Raw(init), last.raw);
    }
  }

  lemma {:induction false} EmitOne(g: Segment)
    ensures EmitAll([g]) == Emit(g) && Raw([g]) == g.raw
  {}

  /** Cutting off line segments loses no byte... */
  lemma {:induction false} LineSegmentsTile(s: Bytes)
    ensures Raw(LineSegments(s)) + UnterminatedTail(s) == s
    decreases |s|
  {
    var i := IndexOf(s, NEWLINE);
    if i >= 0 {
      var tail := s[i + 1..];
      var g := Segment(s[..i + 1], false);
      LineSegmentsTile(tail);
      RawDistributes([g], LineSegments(tail));
      EmitOne(g);
      CutAt(s, i);
      SeqAssociates(g.raw, Raw(LineSegments(tail)), UnterminatedTail(tail));
    }
  }

  /** ... every segment is one line with its newline... */
  lemma {:induction false} LineSegmentsAreLines(s: Bytes, max: nat)
    requires |s| <= max
    ensures WellFormedSegments(LineSegments(s), max)
    decreases |s|
  {
    var i := IndexOf(s, NEWLINE);
    if i >= 0 {
      LineSegmentsAreLines(s[i + 1..], max);
      FirstSegmentIsLine(s, i, max);
      hide WellFormedSegment;
    }
  }

  lemma {:induction false} FirstSegmentIsLine(s: Bytes, i: nat, max: nat)
    requires |s| <= max && i < |s| && s[i] == NEWLINE && NEWLINE !in s[..i]
    ensures WellFormedSegment(Segment(s[..i + 1], false), max)
  {}

  /** ... and emits the cleaned non-empty lines. */
  lemma {:induction false} LineSegmentsEmit(s: Bytes)
    ensures EmitAll(LineSegments(s)) == Messages(s)
    decreases |s|
  {
    var i := IndexOf(s, NEWLINE);
    if i >= 0 {
      var tail := s[i + 1..];
      var g := Segment(s[..i + 1], false);
      LineSegmentsEmit(tail);
      EmitDistributes([g], LineSegments(tail));
      EmitOne(g);
      assert g.raw[..i] == s[..i];
      assert TerminatedLines(s) == [s[..i]] + TerminatedLines(tail);
      assert TerminatedLines(s)[1..] == TerminatedLines(tail);
    }
  }

  // ---------------------------------------------------------------------
  // A sequence of reads
  // ---------------------------------------------------------------------

  function Concat(chunks: seq<Bytes>): Bytes
  {
    if chunks == [] then [] else Concat(chunks[..|chunks| - 1]) + chunks[|chunks| - 1]
  }

  /** Feeding reads to the buffer one by one, with a flush after each. */
  function Feed(max: nat, chunks: seq<Bytes>): (r: Flushed)
  {
    if chunks == [] then Flushed([], [])
    else
      var before := Feed(max, chunks[..|chunks| - 1]);
      var now := Flush(max, before.rest + chunks[|chunks| - 1]);
      Flushed(before.segments + now.segments, now.rest)
  }

  lemma {:induction false} FeedSnoc(max: nat, chunks: seq<Bytes>, chunk: Bytes)
    ensures var before := Feed(max, chunks);
            var now := Flush(max, before.rest + chunk);
            Feed(max, chunks + [chunk]) == Flushed(before.segments + now.segments, now.rest)
    ensures Concat(chunks + [chunk]) == Concat(chunks) + chunk
  {}

  ghost predicate ReadsFit(chunks: seq<Bytes>, size: nat)
  {
    forall i :: 0 <= i < |chunks| ==> |chunks[i]| <= size
  }

  /** Conservation, with no limit on line length: every byte read is in exactly
      one removed segment or still buffered, in order; a segment is one whole
      line or exactly the limit; and the buffer stays within the limit after
      every flush, so within the limit plus one read before it. */
  lemma {:induction false} FeedConserves(max: nat, size: nat, chunks: seq<Bytes>)
    requires 0 < size <= max && ReadsFit(chunks, size)
    ensures var f := Feed(max, chunks);
            && Raw(f.segments) + f.rest == Concat(chunks)
            && |f.rest| <= max
            && WellFormedSegments(f.segments, max)
  {
    if chunks != [] {
      var n := |chunks| - 1;
      var last := chunks[n];
      assert ReadsFit(chunks[..n], size);
      FeedConserves(max, size, chunks[..n]);
      var before := Feed(max, chunks[..n]);
      var buffer := before.rest + last;
      var now := Flush(max, buffer);
      FlushConserves(max, size, buffer);
      RawDistributes(before.segments, now.segments);
      SeqAssociates(Raw(before.segments), Raw(now.segments), now.rest);
      SeqAssociates(Raw(before.segments), before.rest, last);
    }
  }

  lemma {:induction false} FlushConserves(max: nat, size: nat, buffer: Bytes)
    requires size <= max && |buffer| <= max + size
    ensures var f := Flush(max, buffer);
            && Raw(f.segments) + f.rest == buffer
            && |f.rest| <= max
            && WellFormedSegments(f.segments, max)
  {
    if |buffer| > max {
      EmitOne(Segment(buffer[..max], true));
      assert buffer[..max] + buffer[max..] == buffer;
    } else {
      LineSegmentsTile(buffer);
      LineSegmentsAreLines(buffer, max);
    }
  }

  lemma {:induction false} KeptLinesHoldNoNewline(lines: seq<Bytes>)
    requires forall k :: 0 <= k < |lines| ==> NEWLINE !in lines[k]
    ensures forall m :: m in KeepNonEmpty(lines) ==> NEWLINE !in m
  {
    hide CleanLine;
    if lines != [] {
      KeptLinesHoldNoNewline(lines[1..]);
    }
  }

  ghost predicate HoldNoNewline(messages: seq<Bytes>)
  {
    forall m :: m in messages ==> NEWLINE !in m
  }

  /** One flush sends no message with a newline inside exactly when it forces
      nothing out or its chunk has none, and leaves no complete line behind
      exactly when it forces nothing out or none is behind the limit. */
  lemma {:induction false} FlushIsByLineExactlyWhen(max: nat, buffer: Bytes)
    ensures var f := Flush(max, buffer);
            && (HoldNoNewline(EmitAll(f.segments)) <==> |buffer| <= max || NEWLINE !in buffer[..max])
            && (NEWLINE !in f.rest <==> |buffer| <= max || NEWLINE !in buffer[max..])
  {
    if |buffer| > max {
      EmitOne(Segment(buffer[..max], true));
      hide EmitAll;
      assert [buffer[..max]][0] == buffer[..max];
    } else {
      LineSegmentsEmit(buffer);
      SplitRejoins(buffer);
      KeptLinesHoldNoNewline(TerminatedLines(buffer));
    }
  }
}
