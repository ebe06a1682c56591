/**
 The bounded fan-out of one Docker round: a goroutine per container, a
 semaphore for stats requests and one for detail requests, cancellation at any
 moment, and a wait group joining them. Every interleaving is a schedule of the
 steps below. The pre-read's fan-out is the case where every container has stats.
 */
module FanOut {
  import opened Text
  import opened DockerModel

  const MAX_PARALLEL := 8

  /** Where a goroutine is: not yet started, at the select, holding a slot with
      its request in flight, holding it with the result written, past the
      deferred release, and past the deferred wait-group decrement. */
  datatype Phase = Unspawned | Waiting | InFlight | Wrote | Released | Finished

  datatype State = State(
    phases: seq<Phase>, results: seq<Option<Reply>>,
    statsUsed: int, detailUsed: int,  // occupied slots of the two semaphores
    cancelled: bool, spawned: nat, waitGroup: int, joined: bool)

  datatype Step =
    | Spawn                       // the main goroutine starts the next one
    | Cancel                      // the round's context ends
    | Acquire(i: nat)             // the select takes a slot
    | GiveUp(i: nat)              // the select sees the cancellation
    | Answer(i: nat, reply: Reply)  // the request returns and the result is written
    | Release(i: nat)
    | Done(i: nat)
    | Join                        // the main goroutine passes the wait

  function Init(list: seq<Container>): State
  {
    State(seq(|list|, _ => Unspawned), seq(|list|, _ => None), 0, 0, false, 0, 0, false)
  }

  predicate WantsStats(list: seq<Container>, i: nat)
    requires i < |list|
  {
    HasStats(list[i].state)
  }

  predicate At(s: State, i: nat, p: Phase)
  {
    i < |s.phases| && s.phases[i] == p
  }

  predicate Enabled(list: seq<Container>, s: State, step: Step)
    requires |s.phases| == |list|
  {
    match step
    case Spawn => s.spawned < |list|
    case Cancel => !s.cancelled
    case Acquire(i) =>
      At(s, i, Waiting) && (if WantsStats(list, i) then s.statsUsed else s.detailUsed) < MAX_PARALLEL
    case GiveUp(i) => At(s, i, Waiting) && s.cancelled
    case Answer(i, reply) => At(s, i, InFlight) && (if WantsStats(list, i) then !reply.Exit? else !reply.Stats?)
    case Release(i) => At(s, i, Wrote)
    case Done(i) => At(s, i, Released)
    case Join => s.spawned == |list| && s.waitGroup == 0 && !s.joined
  }

  /** Occupies (or, with -1, frees) a slot of the semaphore container i uses. */
  function Slot(list: seq<Container>, s: State, i: nat, change: int): State
    requires i < |list|
  {
    if WantsStats(list, i) then s.(statsUsed := s.statsUsed + change) else s.(detailUsed := s.detailUsed + change)
  }

  function Move(s: State, i: nat, p: Phase): State
    requires i < |s.phases|
  {
    s.(phases := s.phases[i := p])
  }

  function Next(list: seq<Container>, s: State, step: Step): State
    requires |s.phases| == |s.results| == |list| && Enabled(list, s, step)
  {
    match step
    case Spawn => Move(s, s.spawned, Waiting).(spawned := s.spawned + 1, waitGroup := s.waitGroup + 1)
    case Cancel => s.(cancelled := true)
    case Acquire(i) => Slot(list, Move(s, i, InFlight), i, 1)
    case GiveUp(i) => Move(s, i, Released).(results := s.results[i := Some(Failed)])
    case Answer(i, reply) => Move(s, i, Wrote).(results := s.results[i := Some(reply)])
    case Release(i) => Slot(list, Move(s, i, Released), i, -1)
    case Done(i) => Move(s, i, Finished).(waitGroup := s.waitGroup - 1)
    case Join => s.(joined := true)
  }

  // ---------------------------------------------------------------------
  // Counting goroutines
  // ---------------------------------------------------------------------

  function Count(marks: seq<bool>): nat
  {
    if marks == [] then 0 else Count(marks[1..]) + if marks[0] then 1 else 0
  }

  lemma {:induction false} CountUpdate(marks: seq<bool>, i: nat, b: bool)
    requires i < |marks|
    ensures Count(marks[i := b]) == Count(marks) - (if marks[i] then 1 else 0) + (if b then 1 else 0)
  {
    if i == 0 {
      assert marks[i := b][1..] == marks[1..];
    } else {
      assert marks[i := b][1..] == marks[1..][i - 1 := b];
      CountUpdate(marks[1..], i - 1, b);
    }
  }

  lemma {:induction false} CountNone(marks: seq<bool>)
    ensures Count(marks) == 0 <==> forall i :: 0 <= i < |marks| ==> !marks[i]
  {
    if marks != [] {
      CountNone(marks[1..]);
      assert forall i :: 0 < i < |marks| ==> marks[i] == marks[1..][i - 1];
    }
  }

  lemma {:induction false} CountSubset(a: seq<bool>, b: seq<bool>)
    requires |a| == |b| && forall i :: 0 <= i < |a| && a[i] ==> b[i]
    ensures Count(a) <= Count(b)
  {
    if a != [] {
      CountSubset(a[1..], b[1..]);
    }
  }

  predicate HoldsSlot(p: Phase)
  {
    p == InFlight || p == Wrote
  }

  /** Which goroutines hold a slot of one semaphore. */
  function Holders(list: seq<Container>, phases: seq<Phase>, stats: bool): seq<bool>
    requires |list| == |phases|
  {
    seq(|list|, i requires 0 <= i < |list| => HoldsSlot(phases[i]) && WantsStats(list, i) == stats)
  }

  function Requesting(list: seq<Container>, phases: seq<Phase>, stats: bool): seq<bool>
    requires |list| == |phases|
  {
    seq(|list|, i requires 0 <= i < |list| => phases[i] == InFlight && WantsStats(list, i) == stats)
  }

  function Active(phases: seq<Phase>): seq<bool>
  {
    seq(|phases|, i requires 0 <= i < |phases| => phases[i] != Unspawned && phases[i] != Finished)
  }

  lemma {:induction false} HoldersUpdate(list: seq<Container>, phases: seq<Phase>, i: nat, p: Phase, stats: bool)
    requires |list| == |phases| && i < |list|
    ensures Count(Holders(list, phases[i := p], stats)) ==
            Count(Holders(list, phases, stats))
            - (if HoldsSlot(phases[i]) && WantsStats(list, i) == stats then 1 else 0)
            + (if HoldsSlot(p) && WantsStats(list, i) == stats then 1 else 0)
  {
    var b := HoldsSlot(p) && WantsStats(list, i) == stats;
    assert Holders(list, phases[i := p], stats) == Holders(list, phases, stats)[i := b];
    CountUpdate(Holders(list, phases, stats), i, b);
  }

  lemma {:induction false} ActiveUpdate(phases: seq<Phase>, i: nat, p: Phase)
    requires i < |phases|
    ensures Count(Active(phases[i := p])) ==
            Count(Active(phases))
            - (if phases[i] != Unspawned && phases[i] != Finished then 1 else 0)
            + (if p != Unspawned && p != Finished then 1 else 0)
  {
    var b := p != Unspawned && p != Finished;
    assert Active(phases[i := p]) == Active(phases)[i := b];
    CountUpdate(Active(phases), i, b);
  }

  // ---------------------------------------------------------------------
  // What every step keeps
  // ---------------------------------------------------------------------

  ghost predicate Sized(list: seq<Container>, s: State)
  {
    |s.phases| == |s.results| == |list| && s.spawned <= |list|
  }

  /** The counters tell the truth about the goroutines. */
  ghost predicate Counters(list: seq<Container>, s: State)
    requires Sized(list, s)
  {
    && s.statsUsed == Count(Holders(list, s.phases, true)) <= MAX_PARALLEL
    && s.detailUsed == Count(Holders(list, s.phases, false)) <= MAX_PARALLEL
    && s.waitGroup == Count(Active(s.phases))
  }

  ghost predicate Spawning(list: seq<Container>, s: State)
    requires Sized(list, s)
  {
    && (forall i :: 0 <= i < |list| ==> (s.phases[i] == Unspawned <==> s.spawned <= i))
    && (s.joined ==> s.spawned == |list| && s.waitGroup == 0)
  }

  /** A result is there exactly once its own goroutine has written it. */
  ghost predicate Results(list: seq<Container>, s: State)
    requires Sized(list, s)
  {
    forall i :: 0 <= i < |list| ==> ResultFits(list[i], s.phases[i], s.results[i])
  }

  ghost predicate ResultFits(c: Container, p: Phase, r: Option<Reply>)
  {
    && (r.Some? <==> p.Wrote? || p.Released? || p.Finished?)
    && (r.Some? ==> if HasStats(c.state) then !r.value.Exit? else !r.value.Stats?)
  }

  ghost predicate Inv(list: seq<Container>, s: State)
  {
    Sized(list, s) && Counters(list, s) && Spawning(list, s) && Results(list, s)
  }

  lemma {:induction false} InitHolds(list: seq<Container>)
    ensures Inv(list, Init(list))
  {
    var s := Init(list);
    CountNone(Holders(list, s.phases, true));
    CountNone(Holders(list, s.phases, false));
    CountNone(Active(s.phases));
  }

  /** The three counts after goroutine i moves to phase p. */
  lemma {:induction false} Moved(list: seq<Container>, s: State, i: nat, p: Phase)
    requires Sized(list, s) && i < |list|
    ensures var t := Move(s, i, p);
            var was, now := HoldsSlot(s.phases[i]), HoldsSlot(p);
            var change := (if now then 1 else 0) - (if was then 1 else 0);
            var wants := WantsStats(list, i);
            && Count(Holders(list, t.phases, true)) ==
               Count(Holders(list, s.phases, true)) + (if wants then change else 0)
            && Count(Holders(list, t.phases, false)) ==
               Count(Holders(list, s.phases, false)) + (if wants then 0 else change)
            && Count(Active(t.phases)) ==
               Count(Active(s.phases)) + (if p != Unspawned && p != Finished then 1 else 0)
               - (if s.phases[i] != Unspawned && s.phases[i] != Finished then 1 else 0)
  {
    hide Holders, Active, Count;
    HoldersUpdate(list, s.phases, i, p, true);
    HoldersUpdate(list, s.phases, i, p, false);
    ActiveUpdate(s.phases, i, p);
  }

  lemma {:induction false} StepKeepsCounters(list: seq<Container>, s: State, step: Step)
    requires Inv(list, s) && Enabled(list, s, step)
    ensures var t := Next(list, s, step); Sized(list, t) && Counters(list, t)
  {
    hide Holders, Active, Count, Results;
    match step
    case Spawn => Moved(list, s, s.spawned, Waiting);
    case Cancel =>
    case Join =>
    case Acquire(i) => Moved(list, s, i, InFlight);
    case GiveUp(i) => Moved(list, s, i, Released);
    case Answer(i, _) => Moved(list, s, i, Wrote);
    case Release(i) => Moved(list, s, i, Released);
    case Done(i) => Moved(list, s, i, Finished);
  }

  lemma {:induction false} StepKeepsSpawning(list: seq<Container>, s: State, step: Step)
    requires Inv(list, s) && Enabled(list, s, step)
    ensures var t := Next(list, s, step); Sized(list, t) && Spawning(list, t)
  {
    hide Results, Count, Active;
    if step.Done? {
      StillActive(s, step.i);
    }
    SizesKept(list, s, step);
    hide Counters, Next, Enabled;
    forall i | 0 <= i < |list|
      ensures Next(list, s, step).phases[i] == Unspawned <==> Next(list, s, step).spawned <= i
    {
      OneSpawned(list, s, step, i);
    }
    JoinedStays(list, s, step);
  }

  lemma {:induction false} StillActive(s: State, i: nat)
    requires At(s, i, Released)
    ensures Count(Active(s.phases)) > 0
  {
    CountNone(Active(s.phases));
    assert Active(s.phases)[i];
  }

  lemma {:induction false} OneSpawned(list: seq<Container>, s: State, step: Step, i: nat)
    requires Sized(list, s) && Enabled(list, s, step) && i < |list|
    requires s.phases[i] == Unspawned <==> s.spawned <= i
    ensures var t := Next(list, s, step); |t.phases| == |list| && (t.phases[i] == Unspawned <==> t.spawned <= i)
  {}

  lemma {:induction false} JoinedStays(list: seq<Container>, s: State, step: Step)
    requires Sized(list, s) && Enabled(list, s, step)
    requires s.joined ==> s.spawned == |list| && s.waitGroup == 0
    requires step.Done? ==> s.waitGroup > 0
    ensures var t := Next(list, s, step); t.joined ==> t.spawned == |list| && t.waitGroup == 0
  {}

  lemma {:induction false} StepKeepsResults(list: seq<Container>, s: State, step: Step)
    requires Inv(list, s) && Enabled(list, s, step)
    ensures var t := Next(list, s, step); Sized(list, t) && Results(list, t)
  {
    hide Counters, ResultFits;
    assert step.Spawn? ==> s.phases[s.spawned] == Unspawned;
    SizesKept(list, s, step);
    hide Next, Enabled;
    var t := Next(list, s, step);
    forall i | 0 <= i < |list|
      ensures ResultFits(list[i], t.phases[i], t.results[i])
    {
      OneResult(list, s, step, i);
    }
  }

  lemma {:induction false} SizesKept(list: seq<Container>, s: State, step: Step)
    requires Sized(list, s) && Enabled(list, s, step)
    ensures Sized(list, Next(list, s, step))
  {}

  lemma {:induction false} OneResult(list: seq<Container>, s: State, step: Step, i: nat)
    requires Sized(list, s) && Enabled(list, s, step) && i < |list|
    requires step.Spawn? ==> s.phases[s.spawned] == Unspawned
    requires ResultFits(list[i], s.phases[i], s.results[i])
    ensures var t := Next(list, s, step);
            |t.phases| == |t.results| == |list| && ResultFits(list[i], t.phases[i], t.results[i])
  {}

  /** The steps that write result j, and what they write. */
  predicate Writes(step: Step, j: nat)
  {
    (step.Answer? || step.GiveUp?) && step.i == j
  }

  function Written(step: Step): Reply
    requires step.Answer? || step.GiveUp?
  {
    if step.Answer? then step.reply else Failed
  }

  /** Result j is written only by goroutine j's own step, and only while it is
      not there yet. */
  lemma {:induction false} ResultsWrittenByOwner(list: seq<Container>, s: State, step: Step, j: nat)
    requires Inv(list, s) && Enabled(list, s, step) && j < |list|
    ensures var t := Next(list, s, step);
            t.results[j] == if Writes(step, j) then Some(Written(step)) else s.results[j]
    ensures Writes(step, j) ==> s.results[j].None?
  {
    hide Holders, Active, Count;
  }

  // ---------------------------------------------------------------------
  // Schedules
  // ---------------------------------------------------------------------

  /** The state after a schedule, or None when some step was not enabled. */
  function Execute(list: seq<Container>, steps: seq<Step>): (r: Option<State>)
    ensures r.Some? ==> |r.value.phases| == |r.value.results| == |list|
  {
    if steps == [] then Some(Init(list))
    else
      match Execute(list, steps[..|steps| - 1])
      case None => None
      case Some(s) =>
        var step := steps[|steps| - 1];
        if Enabled(list, s, step) then Some(Next(list, s, step)) else None
  }

  lemma {:induction false} ExecuteKeepsInv(list: seq<Container>, steps: seq<Step>)
    requires Execute(list, steps).Some?
    ensures Inv(list, Execute(list, steps).value)
  {
    if steps == [] {
      InitHolds(list);
    } else {
      var n := |steps| - 1;
      ExecuteKeepsInv(list, steps[..n]);
      var s := Execute(list, steps[..n]).value;
      StepKeepsCounters(list, s, steps[n]);
      StepKeepsSpawning(list, s, steps[n]);
      StepKeepsResults(list, s, steps[n]);
      hide Inv, Enabled, Next;
      assert Execute(list, steps) == Some(Next(list, s, steps[n]));
    }
  }

  ghost predicate NeverWritten(steps: seq<Step>, j: nat)
  {
    forall k :: 0 <= k < |steps| ==> !Writes(steps[k], j)
  }

  /** Step k, and no other, writes result j, and with this value. */
  ghost predicate WrittenOnceAt(steps: seq<Step>, j: nat, value: Reply, k: nat)
  {
    && k < |steps| && Writes(steps[k], j) && Written(steps[k]) == value
    && forall i :: 0 <= i < |steps| && i != k ==> !Writes(steps[i], j)
  }

  lemma {:induction false} WrittenAt(list: seq<Container>, steps: seq<Step>, j: nat) returns (k: nat)
    requires Execute(list, steps).Some? && j < |list|
    ensures match Execute(list, steps).value.results[j]
            case None => NeverWritten(steps, j)
            case Some(value) => WrittenOnceAt(steps, j, value, k)
  {
    k := 0;
    if steps != [] {
      var n := |steps| - 1;
      var s := Execute(list, steps[..n]).value;
      k := WrittenAt(list, steps[..n], j);
      ExecuteKeepsInv(list, steps[..n]);
      hide Inv;
      ResultsWrittenByOwner(list, s, steps[n], j);
      assert steps == steps[..n] + [steps[n]];
      if Writes(steps[n], j) {
        k := n;
      }
      hide Next, Enabled, Execute;
    }
  }

  /** In every interleaving that reaches the join, each result has been written
      by exactly one step, of its own goroutine, and is what that step wrote. */
  lemma {:induction false} EveryResultIsWrittenOnce(list: seq<Container>, steps: seq<Step>, j: nat) returns (k: nat)
    requires Execute(list, steps).Some? && Execute(list, steps).value.joined && j < |list|
    ensures var result := Execute(list, steps).value.results[j];
            result.Some? && WrittenOnceAt(steps, j, result.value, k)
  {
    EveryInterleavingIsBounded(list, steps);
    k := WrittenAt(list, steps, j);
  }

  /** In every interleaving at most MAX_PARALLEL stats and as many detail
      requests are in flight, and only containers of the right kind hold a slot
      of either semaphore. At the join every slot is free and every result is
      there, of the kind its container asks for. */
  lemma {:induction false} EveryInterleavingIsBounded(list: seq<Container>, steps: seq<Step>)
    requires Execute(list, steps).Some?
    ensures var s := Execute(list, steps).value;
            && Count(Requesting(list, s.phases, true)) <= s.statsUsed == Count(Holders(list, s.phases, true)) <= MAX_PARALLEL
            && Count(Requesting(list, s.phases, false)) <= s.detailUsed == Count(Holders(list, s.phases, false)) <= MAX_PARALLEL
            && (s.joined ==>
                  && s.statsUsed == 0 && s.detailUsed == 0
                  && (forall i :: 0 <= i < |list| ==> s.results[i].Some?)
                  && Answers(list, seq(|list|, i requires 0 <= i < |list| && s.results[i].Some? => s.results[i].value)))
  {
    ExecuteKeepsInv(list, steps);
    var s := Execute(list, steps).value;
    hide Execute;
    CountSubset(Requesting(list, s.phases, true), Holders(list, s.phases, true));
    CountSubset(Requesting(list, s.phases, false), Holders(list, s.phases, false));
    if s.joined {
      CountNone(Active(s.phases));
      assert forall i :: 0 <= i < |list| ==> Active(s.phases)[i] == (s.phases[i] != Finished);
      CountNone(Holders(list, s.phases, true));
      CountNone(Holders(list, s.phases, false));
    }
  }

  ghost predicate Cancelled(steps: seq<Step>)
  {
    exists c :: 0 <= c < |steps| && steps[c].Cancel?
  }

  lemma {:induction false} CancelledExactlyWhen(list: seq<Container>, steps: seq<Step>)
    requires Execute(list, steps).Some?
    ensures Execute(list, steps).value.cancelled <==> Cancelled(steps)
  {
    if steps != [] {
      hide Next, Enabled, Cancelled;
      var n := |steps| - 1;
      CancelledExactlyWhen(list, steps[..n]);
      CancelledSnoc(steps[..n], steps[n]);
      assert steps[..n] + [steps[n]] == steps;
      OneCancel(list, Execute(list, steps[..n]).value, steps[n]);
    } else {
      NotCancelledYet();
    }
  }

  lemma {:induction false} NotCancelledYet()
    ensures !Cancelled([])
  {}

  lemma {:induction false} CancelledSnoc(steps: seq<Step>, step: Step)
    ensures Cancelled(steps + [step]) <==> Cancelled(steps) || step.Cancel?
  {
    var all := steps + [step];
    assert all[|steps|] == step;
    assert forall c :: 0 <= c < |steps| ==> all[c] == steps[c];
  }

  lemma {:induction false} OneCancel(list: seq<Container>, s: State, step: Step)
    requires |s.phases| == |s.results| == |list| && Enabled(list, s, step)
    ensures Next(list, s, step).cancelled <==> s.cancelled || step.Cancel?
  {}

  /** A goroutine gives up only after the round was cancelled... */
  lemma {:induction false} GivesUpOnlyWhenCancelled(list: seq<Container>, steps: seq<Step>, k: nat)
    requires Execute(list, steps).Some? && k < |steps| && steps[k].GiveUp?
    ensures Cancelled(steps[..k])
  {
    var n := |steps| - 1;
    if k < n {
      GivesUpOnlyWhenCancelled(list, steps[..n], k);
      assert steps[..n][..k] == steps[..k];
    } else {
      CancelledExactlyWhen(list, steps[..n]);
    }
  }

  /** ... so in a round that is not, every result at the join is what its own
      request came back with. */
  lemma {:induction false} UncancelledResultsAreAnswers(list: seq<Container>, steps: seq<Step>, j: nat) returns (k: nat)
    requires Execute(list, steps).Some? && Execute(list, steps).value.joined && j < |list| && !Cancelled(steps)
    ensures var result := Execute(list, steps).value.results[j];
            result.Some? && k < |steps| && steps[k] == Answer(j, result.value)
  {
    k := EveryResultIsWrittenOnce(list, steps, j);
    hide Execute;
    CancelledLater(steps, k);
    if steps[k].GiveUp? {
      GivesUpOnlyWhenCancelled(list, steps, k);
    }
  }

  lemma {:induction false} CancelledLater(steps: seq<Step>, k: nat)
    requires k <= |steps|
    ensures Cancelled(steps[..k]) ==> Cancelled(steps)
  {
    if c :| 0 <= c < |steps[..k]| && steps[..k][c].Cancel? {
      assert steps[c].Cancel?;
    }
  }

  /** In every interleaving a waiting goroutine may proceed exactly while fewer
      than eight of its own kind hold a slot; nothing else holds it up. */
  lemma {:induction false} ProceedsExactlyWhenASlotIsFree(list: seq<Container>, steps: seq<Step>, i: nat)
    requires Execute(list, steps).Some? && i < |list| && At(Execute(list, steps).value, i, Waiting)
    ensures var s := Execute(list, steps).value;
            Enabled(list, s, Acquire(i)) <==> Count(Holders(list, s.phases, WantsStats(list, i))) < 8
  {
    ExecuteKeepsInv(list, steps);
    hide Count, Holders, Execute;
  }

  /** What a goroutine still has to do. */
  function Ahead(p: Phase): nat
  {
    match p
    case Unspawned => 5
    case Waiting => 4
    case InFlight => 3
    case Wrote => 2
    case Released => 1
    case Finished => 0
  }

  function TotalAhead(phases: seq<Phase>): nat
  {
    if phases == [] then 0 else Ahead(phases[0]) + TotalAhead(phases[1..])
  }

  lemma {:induction false} TotalAheadUpdate(phases: seq<Phase>, i: nat, p: Phase)
    requires i < |phases|
    ensures TotalAhead(phases[i := p]) == TotalAhead(phases) - Ahead(phases[i]) + Ahead(p)
  {
    if i == 0 {
      assert phases[i := p][1..] == phases[1..];
    } else {
      assert phases[i := p][1..] == phases[1..][i - 1 := p];
      TotalAheadUpdate(phases[1..], i - 1, p);
    }
  }

  function Measure(s: State): nat
  {
    TotalAhead(s.phases) + (if s.cancelled then 0 else 1) + (if s.joined then 0 else 1)
  }

  lemma {:induction false} EveryStepDecreases(list: seq<Container>, s: State, step: Step)
    requires Inv(list, s) && Enabled(list, s, step)
    ensures Measure(Next(list, s, step)) < Measure(s)
  {
    hide Holders, Active, Count, TotalAhead;
    var t := Next(list, s, step);
    match step
    case Spawn => TotalAheadUpdate(s.phases, s.spawned, Waiting);
    case Cancel =>
    case Join =>
    case Acquire(i) => TotalAheadUpdate(s.phases, i, InFlight);
    case GiveUp(i) => TotalAheadUpdate(s.phases, i, Released);
    case Answer(i, _) => TotalAheadUpdate(s.phases, i, Wrote);
    case Release(i) => TotalAheadUpdate(s.phases, i, Released);
    case Done(i) => TotalAheadUpdate(s.phases, i, Finished);
  }

  lemma {:induction false} FreshMeasure(n: nat, phases: seq<Phase>)
    requires |phases| == n && forall i :: 0 <= i < n ==> phases[i] == Unspawned
    ensures TotalAhead(phases) == 5 * n
  {
    if n > 0 {
      FreshMeasure(n - 1, phases[1..]);
    }
  }

  /** No interleaving can take more steps than five per container and two. */
  lemma {:induction false} SchedulesAreFinite(list: seq<Container>, steps: seq<Step>)
    requires Execute(list, steps).Some?
    ensures |steps| + Measure(Execute(list, steps).value) <= 5 * |list| + 2
  {
    if steps == [] {
      FreshMeasure(|list|, Init(list).phases);
    } else {
      var n := |steps| - 1;
      SchedulesAreFinite(list, steps[..n]);
      ExecuteKeepsInv(list, steps[..n]);
      EveryStepDecreases(list, Execute(list, steps[..n]).value, steps[n]);
      hide Measure, Next, Enabled, Inv;
    }
  }

  /** Until the join there is always a step to take, other than cancelling:
      together with SchedulesAreFinite, every schedule that keeps going joins. */
  lemma {:induction false} SomeStepUntilJoined(list: seq<Container>, steps: seq<Step>) returns (step: Step)
    requires Execute(list, steps).Some? && !Execute(list, steps).value.joined
    ensures Enabled(list, Execute(list, steps).value, step) && !step.Cancel?
  {
    ExecuteKeepsInv(list, steps);
    var s := Execute(list, steps).value;
    hide Execute;
    if s.spawned < |list| {
      step := Spawn;
    } else if i: nat :| i < |list| && s.phases[i] == InFlight {
      step := Answer(i, Failed);
    } else if i: nat :| i < |list| && s.phases[i] == Wrote {
      step := Release(i);
    } else if i: nat :| i < |list| && s.phases[i] == Released {
      step := Done(i);
    } else if i: nat :| i < |list| && s.phases[i] == Waiting {
      CountNone(Holders(list, s.phases, true));
      CountNone(Holders(list, s.phases, false));
      step := Acquire(i);
    } else {
      CountNone(Active(s.phases));
      step := Join;
    }
  }
}
