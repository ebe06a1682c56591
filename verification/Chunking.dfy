/**
 How a stream is cut into reads, and exactly when the splitter then agrees with
 the simple specification.
 */
module Chunking {
  import opened Lines
  import opened Text

  // ---------------------------------------------------------------------
  // One cut
  // ---------------------------------------------------------------------

  /** No newline-free run of the stream is longer than limit. */
  ghost predicate RunsAtMost(s: Bytes, limit: int)
  {
    forall i, j :: 0 <= i <= j <= |s| && NEWLINE !in s[i..j] ==> j - i <= limit
  }

  lemma {:induction false} SuffixOf(a: Bytes, b: Bytes)
    ensures (a + b)[|a + b| - |b|..|a + b|] == b
  {}

  lemma {:induction false} RunsOfPrefix(a: Bytes, b: Bytes, limit: int)
    requires RunsAtMost(a + b, limit)
    ensures RunsAtMost(a, limit)
    ensures |UnterminatedTail(a)| <= limit
  {
    forall i, j | 0 <= i <= j <= |a| && NEWLINE !in a[i..j]
      ensures j - i <= limit
    {
      assert (a + b)[i..j] == a[i..j];
    }
    SplitRejoins(a);
    SuffixOf(Rejoin(TerminatedLines(a)), UnterminatedTail(a));
  }

  /** After all these reads the messages are the cleaned non-empty lines of the
      stream and the buffer holds its unterminated tail. */
  ghost predicate ByLine(max: nat, chunks: seq<Bytes>)
  {
    && EmitAll(Feed(max, chunks).segments) == Messages(Concat(chunks))
    && Feed(max, chunks).rest == UnterminatedTail(Concat(chunks))
  }

  ghost predicate AlwaysByLine(max: nat, chunks: seq<Bytes>)
  {
    forall n :: 0 <= n <= |chunks| ==> ByLine(max, chunks[..n])
  }

  /** Every read fits into the buffer beside the unterminated tail before it. */
  ghost predicate RoomForReads(max: nat, chunks: seq<Bytes>)
  {
    forall n :: 0 <= n < |chunks| ==> |UnterminatedTail(Concat(chunks[..n]))| + |chunks[n]| <= max
  }

  /** A flush disagrees with the simple specification exactly when it forces a
      chunk out: were the chunk a message of the specification, neither it nor
      the rest would hold a newline, and there would be no message at all. */
  lemma {:induction false} FlushAgreesExactlyWhen(max: nat, buffer: Bytes)
    ensures var f := Flush(max, buffer);
            EmitAll(f.segments) == Messages(buffer) && f.rest == UnterminatedTail(buffer) <==> |buffer| <= max
  {
    hide EmitAll, Messages, UnterminatedTail, LineSegments;
    LineSegmentsEmit(buffer);
    FlushIsByLineExactlyWhen(max, buffer);
    MessagesHoldNoNewline(buffer);
    if |buffer| > max {
      EmitOne(Segment(buffer[..max], true));
      assert buffer == buffer[..max] + buffer[max..];
    }
  }

  lemma {:induction false} MessagesHoldNoNewline(s: Bytes)
    ensures HoldNoNewline(Messages(s)) && NEWLINE !in UnterminatedTail(s)
    ensures NEWLINE !in s ==> Messages(s) == []
  {
    SplitRejoins(s);
    KeptLinesHoldNoNewline(TerminatedLines(s));
  }

  lemma {:induction false} OneMoreRead(max: nat, chunks: seq<Bytes>, chunk: Bytes)
    requires ByLine(max, chunks)
    ensures ByLine(max, chunks + [chunk]) <==> |UnterminatedTail(Concat(chunks))| + |chunk| <= max
  {
    hide Feed, Concat, Flush, EmitAll, Messages, UnterminatedTail;
    FeedSnoc(max, chunks, chunk);
    var seen, before := Concat(chunks), Feed(max, chunks);
    var buffer := before.rest + chunk;
    var now := Flush(max, buffer);
    FlushAgreesExactlyWhen(max, buffer);
    EmitDistributes(before.segments, now.segments);
    MessagesResume(seen, chunk);
    SamePrefix(Messages(seen), EmitAll(now.segments), Messages(buffer));
  }

  lemma {:induction false} MessagesResume(a: Bytes, b: Bytes)
    ensures Messages(a + b) == Messages(a) + Messages(UnterminatedTail(a) + b)
    ensures UnterminatedTail(a + b) == UnterminatedTail(UnterminatedTail(a) + b)
  {
    SplitResumes(a, b);
    KeepDistributes(TerminatedLines(a), TerminatedLines(UnterminatedTail(a) + b));
  }

  lemma {:induction false} SamePrefix<T>(a: seq<T>, b: seq<T>, c: seq<T>)
    ensures a + b == a + c <==> b == c
  {
    assert (a + b)[|a|..] == b && (a + c)[|a|..] == c;
  }

  /** The splitter agrees with the simple specification after every read if and
      only if every read fits beside the tail before it, for any reads at all. */
  lemma {:induction false} AlwaysByLineExactlyWhen(max: nat, chunks: seq<Bytes>)
    ensures AlwaysByLine(max, chunks) <==> RoomForReads(max, chunks)
  {
    if chunks == [] {
      NothingRead(max);
      assert chunks[..0] == [];
    } else {
      var n := |chunks| - 1;
      var init, last := chunks[..n], chunks[n];
      AlwaysByLineExactlyWhen(max, init);
      AlwaysByLineSnoc(max, init, last);
      RoomSnoc(max, init, last);
      assert init + [last] == chunks;
      hide AlwaysByLine, RoomForReads, ByLine;
      if AlwaysByLine(max, init) {
        assert ByLine(max, init) by { AlwaysByLineNow(max, init); }
        OneMoreRead(max, init, last);
      }
    }
  }

  lemma {:induction false} NothingRead(max: nat)
    ensures ByLine(max, [])
  {}

  lemma {:induction false} AlwaysByLineNow(max: nat, chunks: seq<Bytes>)
    requires AlwaysByLine(max, chunks)
    ensures ByLine(max, chunks)
  {
    hide ByLine;
    assert chunks[..|chunks|] == chunks;
  }

  lemma {:induction false} AlwaysByLineSnoc(max: nat, chunks: seq<Bytes>, chunk: Bytes)
    ensures AlwaysByLine(max, chunks + [chunk]) <==> AlwaysByLine(max, chunks) && ByLine(max, chunks + [chunk])
  {
    hide ByLine;
    var all := chunks + [chunk];
    assert forall n :: 0 <= n <= |chunks| ==> all[..n] == chunks[..n];
    assert all[..|all|] == all;
  }

  lemma {:induction false} RoomSnoc(max: nat, chunks: seq<Bytes>, chunk: Bytes)
    ensures RoomForReads(max, chunks + [chunk]) <==>
              RoomForReads(max, chunks) && |UnterminatedTail(Concat(chunks))| + |chunk| <= max
  {
    hide UnterminatedTail, Concat;
    var all := chunks + [chunk];
    assert forall n :: 0 <= n <= |chunks| ==> all[..n] == chunks[..n];
    assert chunks[..|chunks|] == chunks && all[|chunks|] == chunk;
  }

  // ---------------------------------------------------------------------
  // All the ways to cut one stream
  // ---------------------------------------------------------------------

  ghost predicate CutOf(s: Bytes, size: nat, chunks: seq<Bytes>)
  {
    ReadsFit(chunks, size) && Concat(chunks) == s
  }

  function Min(a: int, b: int): int
  {
    if a < b then a else b
  }

  /** Wherever a read may begin, the largest one possible fits beside the
      unterminated tail before it. */
  ghost predicate RoomAnywhere(max: nat, size: nat, s: Bytes)
  {
    forall p :: 0 <= p <= |s| ==> |UnterminatedTail(s[..p])| + Min(size, |s| - p) <= max
  }

  lemma {:induction false} ConcatDistributes(a: seq<Bytes>, b: seq<Bytes>)
    ensures Concat(a + b) == Concat(a) + Concat(b)
    decreases |b|
  {
    if b == [] {
      assert a + b == a;
    } else {
      var init, last := b[..|b| - 1], b[|b| - 1];
      ConcatDistributes(a, init);
      assert (a + b)[..|a + b| - 1] == a + init && (a + b)[|a + b| - 1] == last;
      SeqAssociates(Concat(a), Concat(init), last);
    }
  }

  lemma {:induction false} ConcatOne(b: Bytes)
    ensures Concat([b]) == b
  {}

  lemma {:induction false} SinglesConcat(s: Bytes)
    ensures Concat(Singles(s)) == s
  {
    if s != [] {
      var n := |s| - 1;
      SinglesConcat(s[..n]);
      assert Singles(s) == Singles(s[..n]) + [[s[n]]] && s == s[..n] + [s[n]];
    }
  }

  lemma {:induction false} CutHasRoom(max: nat, size: nat, s: Bytes, chunks: seq<Bytes>)
    requires RoomAnywhere(max, size, s) && CutOf(s, size, chunks)
    ensures RoomForReads(max, chunks)
  {
    forall n | 0 <= n < |chunks|
      ensures |UnterminatedTail(Concat(chunks[..n]))| + |chunks[n]| <= max
    {
      PositionOfRead(s, size, chunks, n);
    }
  }

  lemma {:induction false} PositionOfRead(s: Bytes, size: nat, chunks: seq<Bytes>, n: nat)
    requires CutOf(s, size, chunks) && n < |chunks|
    ensures var p := |Concat(chunks[..n])|;
            p + |chunks[n]| <= |s| && s[..p] == Concat(chunks[..n]) && |chunks[n]| <= size
  {
    assert chunks == chunks[..n] + ([chunks[n]] + chunks[n + 1..]);
    ConcatDistributes(chunks[..n], [chunks[n]] + chunks[n + 1..]);
    ConcatDistributes([chunks[n]], chunks[n + 1..]);
    ConcatOne(chunks[n]);
  }

  lemma {:induction false} ConcatThree(a: Bytes, b: Bytes, c: Bytes)
    ensures Concat(Singles(a) + ([b] + Singles(c))) == a + (b + c)
  {
    hide Concat, Singles;
    ConcatDistributes(Singles(a), [b] + Singles(c));
    ConcatDistributes([b], Singles(c));
    ConcatOne(b);
    SinglesConcat(a);
    SinglesConcat(c);
  }

  lemma {:induction false} ThreePieces(s: Bytes, p: nat, q: nat)
    requires p <= q <= |s|
    ensures s[..p] + (s[p..q] + s[q..]) == s
  {}

  /** The cut that reads byte by byte up to p, then as much as one read may. */
  lemma {:induction false} CutAround(size: nat, s: Bytes, p: nat) returns (chunks: seq<Bytes>)
    requires size > 0 && p <= |s|
    ensures CutOf(s, size, chunks) && p < |chunks|
    ensures Concat(chunks[..p]) == s[..p] && |chunks[p]| == Min(size, |s| - p)
  {
    hide Concat;
    var q := p + Min(size, |s| - p);
    var a, b, c := Singles(s[..p]), s[p..q], Singles(s[q..]);
    chunks := a + ([b] + c);
    ThreePieces(s, p, q);
    ConcatThree(s[..p], b, s[q..]);
    SinglesConcat(s[..p]);
    assert chunks[..p] == a && chunks[p] == b;
  }

  /** The exact condition on a stream: every way to cut it into reads agrees
      with the simple specification throughout, if and only if at every position
      the largest read possible there fits beside the tail before it. */
  lemma {:induction false} EveryCutIsByLineExactlyWhen(max: nat, size: nat, s: Bytes)
    requires size > 0
    ensures (forall chunks :: CutOf(s, size, chunks) ==> AlwaysByLine(max, chunks)) <==> RoomAnywhere(max, size, s)
  {
    hide AlwaysByLine, RoomForReads, CutOf;
    forall chunks | CutOf(s, size, chunks)
      ensures RoomAnywhere(max, size, s) ==> AlwaysByLine(max, chunks)
    {
      AlwaysByLineExactlyWhen(max, chunks);
      if RoomAnywhere(max, size, s) {
        CutHasRoom(max, size, s, chunks);
      }
    }
    if !RoomAnywhere(max, size, s) {
      var p :| 0 <= p <= |s| && |UnterminatedTail(s[..p])| + Min(size, |s| - p) > max;
      var chunks := CutAround(size, s, p);
      AlwaysByLineExactlyWhen(max, chunks);
      NoRoomAt(max, chunks, p);
    }
  }

  lemma {:induction false} NoRoomAt(max: nat, chunks: seq<Bytes>, n: nat)
    requires n < |chunks| && |UnterminatedTail(Concat(chunks[..n]))| + |chunks[n]| > max
    ensures !RoomForReads(max, chunks)
  {}

  /** A condition on the stream alone that suffices: with runs shorter than the
      limit by one read, chunking is invisible. */
  lemma {:induction false} ChunkingIsInvisible(max: nat, size: nat, chunks: seq<Bytes>)
    requires 0 < size <= max && ReadsFit(chunks, size)
    requires RunsAtMost(Concat(chunks), max - size)
    ensures AlwaysByLine(max, chunks)
    ensures EmitAll(Feed(max, chunks).segments) == Messages(Concat(chunks))
    ensures Feed(max, chunks).rest == UnterminatedTail(Concat(chunks))
  {
    var s := Concat(chunks);
    forall p | 0 <= p <= |s|
      ensures |UnterminatedTail(s[..p])| + Min(size, |s| - p) <= max
    {
      assert s[..p] + s[p..] == s;
      RunsOfPrefix(s[..p], s[p..], max - size);
    }
    hide AlwaysByLine, RoomForReads, UnterminatedTail, Concat;
    CutHasRoom(max, size, s, chunks);
    AlwaysByLineExactlyWhen(max, chunks);
    AlwaysByLineNow(max, chunks);
  }

  /** Two cuts of the same stream cannot be told apart. */
  lemma {:induction false} CutsAgree(max: nat, size: nat, one: seq<Bytes>, other: seq<Bytes>)
    requires 0 < size <= max && ReadsFit(one, size) && ReadsFit(other, size)
    requires Concat(one) == Concat(other) && RunsAtMost(Concat(one), max - size)
    ensures EmitAll(Feed(max, one).segments) == EmitAll(Feed(max, other).segments)
    ensures Feed(max, one).rest == Feed(max, other).rest
  {
    ChunkingIsInvisible(max, size, one);
    ChunkingIsInvisible(max, size, other);
  }

  function Repeated(b: Byte, n: nat): Bytes
  {
    seq(n, _ => b)
  }

  function Singles(s: Bytes): (r: seq<Bytes>)
    ensures |r| == |s|
  {
    seq(|s|, i requires 0 <= i < |s| => [s[i]])
  }

  lemma {:induction false} SinglesSnoc(s: Bytes, b: Byte)
    ensures Singles(s + [b]) == Singles(s) + [[b]]
  {}

  /** A run within the limit is only buffered... */
  lemma {:induction false} RunIsBuffered(max: nat, s: Bytes)
    requires |s| <= max && NEWLINE !in s
    ensures Feed(max, Singles(s)) == Flushed([], s) && Concat(Singles(s)) == s
  {
    if s != [] {
      var n := |s| - 1;
      var init, b := s[..n], s[n];
      RunIsBuffered(max, init);
      assert init + [b] == s;
      FlushOfRun(max, s);
      hide Feed, Concat, Flush, Singles;
      SinglesSnoc(init, b);
      FeedSnoc(max, Singles(init), [b]);
    }
  }

  lemma {:induction false} FlushOfRun(max: nat, s: Bytes)
    requires |s| <= max && NEWLINE !in s
    ensures Flush(max, s) == Flushed([], s)
  {}

  /** ... until a read takes it over the limit, which forces a chunk out. */
  lemma {:induction false} RunIsForcedOut(max: nat, line: Bytes, final: Bytes)
    requires |line| <= max < |line + final| && NEWLINE !in line
    ensures var stream := line + final;
            && Feed(max, Singles(line) + [final]) == Flushed([Segment(stream[..max], true)], stream[max..])
            && Concat(Singles(line) + [final]) == stream
            && EmitAll(Feed(max, Singles(line) + [final]).segments) == [stream[..max]]
  {
    RunIsBuffered(max, line);
    FeedSnoc(max, Singles(line), final);
    EmitOne(Segment((line + final)[..max], true));
    hide Feed, Concat, Singles;
  }

  lemma {:induction false} AllNewlines(line: Bytes, n: nat)
    requires NEWLINE !in line
    ensures var s := line + Repeated(NEWLINE, n);
            && RunsAtMost(s, |line|)
            && (n > 0 ==> UnterminatedTail(s) == [])
  {
    var s := line + Repeated(NEWLINE, n);
    forall i, j | 0 <= i <= j <= |s| && j - i > |line|
      ensures NEWLINE in s[i..j]
    {
      assert s[i..j][j - 1 - i] == NEWLINE;
    }
    if n > 0 {
      var m := n - 1;
      assert s == (line + Repeated(NEWLINE, m)) + [NEWLINE];
      SplitResumes(line + Repeated(NEWLINE, m), [NEWLINE]);
      EndsInNewline(UnterminatedTail(line + Repeated(NEWLINE, m)));
    }
  }

  lemma {:induction false} EndsInNewline(line: Bytes)
    requires NEWLINE !in line
    ensures UnterminatedTail(line + [NEWLINE]) == []
  {
    FirstNewline(line, []);
    assert line + [NEWLINE] + [] == line + [NEWLINE];
  }

  /** The bound of ChunkingIsInvisible is the best possible: for every pair of
      constants there is a stream whose longest run exceeds it by one byte, and
      a cut into allowed reads, on which the splitter disagrees with the simple
      specification: the last read takes the buffer over the limit, a chunk is
      forced out, and a newline stays in the buffer. */
  lemma {:induction false} ChunkBoundIsTight(max: nat, size: nat, letter: Byte)
    returns (stream: Bytes, chunks: seq<Bytes>)
    requires 0 < size <= max && letter != NEWLINE
    ensures |stream| == max + 1 && RunsAtMost(stream, max - size + 1)
    ensures CutOf(stream, size, chunks)
    ensures var f := Feed(max, chunks);
            && EmitAll(f.segments) == [stream[..max]]
            && (size > 1 ==> NEWLINE in stream[..max])
            && f.rest == [NEWLINE] && UnterminatedTail(stream) == []
    ensures !ByLine(max, chunks)
  {
    hide Feed, Concat, EmitAll, UnterminatedTail, RunsAtMost;
    var line, final := Repeated(letter, max - size + 1), Repeated(NEWLINE, size);
    stream := line + final;
    chunks := Singles(line) + [final];
    RunIsForcedOut(max, line, final);
    AllNewlines(line, size);
    assert stream[max..] == [NEWLINE];
    assert size > 1 ==> stream[..max][|line|] == NEWLINE;
  }
}
