/**
 The statfs-with-timeout protocol: a call that cannot be cancelled runs in its
 own goroutine, the tick waits for it or for a timer, and a call that outlives
 the timer is remembered per path. Every interleaving of ticks, timer expiries
 and late returns is a schedule of the steps below.
 */
module Statfs {
  import opened Text
  import Disk

  datatype Result = Stat(sample: Disk.Sample) | StatError

  /** A call in its goroutine: still running, its result in the channel, or received. */
  datatype Status = Running | Buffered(result: Result) | Received(result: Result)
  datatype Call = Call(path: string, status: Status)

  /** The collector's goroutine: between invocations, or waiting on a call. */
  datatype Main = Idle | Waiting(path: string, call: nat)

  datatype Verdict = Timeout | Reading(call: nat, result: Result)

  datatype Answer = Answer(path: string, verdict: Verdict)

  datatype State = State(calls: seq<Call>, pending: map<string, nat>, main: Main, answers: seq<Answer>)

  datatype Step =
    | Invoke(path: string)            // the collector asks for a path
    | Return(call: nat, result: Result) // a call returns into its channel
    | Receive                         // the select takes the result
    | Expire                          // the select takes the timer

  const INIT := State([], map[], Idle, [])

  predicate Enabled(s: State, step: Step)
  {
    match step
    case Invoke(_) => s.main.Idle?
    case Return(i, _) => i < |s.calls| && s.calls[i].status.Running?
    case Receive => s.main.Waiting? && s.main.call < |s.calls| && s.calls[s.main.call].status.Buffered?
    case Expire => s.main.Waiting?
  }

  function SetStatus(s: State, i: nat, status: Status): State
    requires i < |s.calls|
  {
    s.(calls := s.calls[i := s.calls[i].(status := status)])
  }

  function Start(s: State, path: string): State
  {
    s.(calls := s.calls + [Call(path, Running)], main := Waiting(path, |s.calls|))
  }

  function Next(s: State, step: Step): State
    requires Enabled(s, step)
  {
    match step
    case Invoke(path) =>
      if path in s.pending && s.pending[path] < |s.calls| then
        var i := s.pending[path];
        match s.calls[i].status
        case Buffered(result) => Start(SetStatus(s, i, Received(result)).(pending := s.pending - {path}), path)
        case _ => s.(answers := s.answers + [Answer(path, Timeout)])
      else Start(s, path)
    case Return(i, result) => SetStatus(s, i, Buffered(result))
    case Receive =>
      var i := s.main.call;
      var result := s.calls[i].status.result;
      SetStatus(s, i, Received(result)).(main := Idle,
        answers := s.answers + [Answer(s.main.path, Reading(i, result))])
    case Expire =>
      s.(pending := s.pending[s.main.path := s.main.call], main := Idle,
         answers := s.answers + [Answer(s.main.path, Timeout)])
  }

  // ---------------------------------------------------------------------
  // What every step keeps
  // ---------------------------------------------------------------------

  ghost predicate PendingHolds(s: State)
  {
    forall p :: p in s.pending ==>
      s.pending[p] < |s.calls| && s.calls[s.pending[p]].path == p && !s.calls[s.pending[p]].status.Received?
  }

  ghost predicate MainHolds(s: State)
  {
    s.main.Waiting? ==>
      && s.main.call + 1 == |s.calls| && s.calls[s.main.call].path == s.main.path
      && !s.calls[s.main.call].status.Received? && s.main.path !in s.pending
  }

  /** Every call not yet received is the one being waited for or the pending one
      of its path. */
  ghost predicate AllTracked(s: State)
  {
    forall i :: 0 <= i < |s.calls| && !s.calls[i].status.Received? ==> Tracked(s, i)
  }

  ghost predicate Tracked(s: State, i: nat)
    requires i < |s.calls|
  {
    var p := s.calls[i].path;
    (s.main.Waiting? && s.main.call == i) || (p in s.pending && s.pending[p] == i)
  }

  /** A reading is the received result of a call on the path asked for. */
  ghost predicate Backed(s: State, a: Answer)
  {
    a.verdict.Reading? ==>
      && a.verdict.call < |s.calls|
      && s.calls[a.verdict.call] == Call(a.path, Received(a.verdict.result))
  }

  ghost predicate AnswersHold(s: State)
  {
    forall k :: 0 <= k < |s.answers| ==> Backed(s, s.answers[k])
  }

  ghost predicate Inv(s: State)
  {
    PendingHolds(s) && MainHolds(s) && AllTracked(s) && AnswersHold(s)
  }

  lemma {:induction false} StepKeepsPending(s: State, step: Step)
    requires Inv(s) && Enabled(s, step)
    ensures PendingHolds(Next(s, step))
  {}

  lemma {:induction false} StepKeepsMain(s: State, step: Step)
    requires Inv(s) && Enabled(s, step)
    ensures MainHolds(Next(s, step))
  {}

  lemma {:induction false} StepKeepsTracked(s: State, step: Step)
    requires Inv(s) && Enabled(s, step)
    ensures AllTracked(Next(s, step))
  {}

  lemma {:induction false} StepKeepsAnswers(s: State, step: Step)
    requires Inv(s) && Enabled(s, step)
    ensures AnswersHold(Next(s, step))
  {}

  /** The state after a schedule, or None when some step was not enabled. */
  function Execute(steps: seq<Step>): Option<State>
  {
    if steps == [] then Some(INIT)
    else
      match Execute(steps[..|steps| - 1])
      case None => None
      case Some(s) =>
        var step := steps[|steps| - 1];
        if Enabled(s, step) then Some(Next(s, step)) else None
  }

  lemma {:induction false} ExecuteKeepsInv(steps: seq<Step>)
    requires Execute(steps).Some?
    ensures Inv(Execute(steps).value)
  {
    if steps != [] {
      var n := |steps| - 1;
      ExecuteKeepsInv(steps[..n]);
      var s := Execute(steps[..n]).value;
      StepKeepsPending(s, steps[n]);
      StepKeepsMain(s, steps[n]);
      StepKeepsTracked(s, steps[n]);
      StepKeepsAnswers(s, steps[n]);
    }
  }

  predicate Outstanding(s: State, i: nat, path: string)
  {
    i < |s.calls| && s.calls[i] == Call(path, Running)
  }

  /** In every interleaving each path has at most one outstanding call, and
      between invocations it is the one in pending. */
  lemma {:induction false} OneOutstandingCallPerPath(steps: seq<Step>, path: string, i: nat, j: nat)
    requires Execute(steps).Some?
    requires var s := Execute(steps).value; Outstanding(s, i, path) && Outstanding(s, j, path)
    ensures i == j
    ensures var s := Execute(steps).value; s.main.Idle? ==> path in s.pending && s.pending[path] == i
  {
    ExecuteKeepsInv(steps);
    var s := Execute(steps).value;
    assert Tracked(s, i) && Tracked(s, j);
  }

  /** Asking for a path whose call is still stuck answers a timeout at once and
      starts nothing; asking for any other path starts exactly one call, and a
      result left over from an earlier tick is dropped, not returned. */
  lemma {:induction false} StuckPathsStartNothing(steps: seq<Step>, path: string)
    requires Execute(steps).Some? && Execute(steps).value.main.Idle?
    ensures var s := Execute(steps).value;
            var t := Next(s, Invoke(path));
            if exists i :: Outstanding(s, i, path) then
              t == s.(answers := s.answers + [Answer(path, Timeout)])
            else
              && |t.calls| == |s.calls| + 1 && t.calls[|s.calls|] == Call(path, Running)
              && t.main == Waiting(path, |s.calls|) && t.answers == s.answers && path !in t.pending
              && forall i :: 0 <= i < |s.calls| && s.calls[i].path != path ==> t.calls[i] == s.calls[i]
  {
    ExecuteKeepsInv(steps);
    var s := Execute(steps).value;
    if i :| Outstanding(s, i, path) {
      assert Tracked(s, i);
    } else if path in s.pending {
      assert !Outstanding(s, s.pending[path], path);
    }
  }

  // ---------------------------------------------------------------------
  // Readings are fresh
  // ---------------------------------------------------------------------

  /** Nothing but late returns happened from step a on. */
  ghost predicate OnlyReturns(steps: seq<Step>, a: nat)
  {
    forall i :: a <= i < |steps| ==> steps[i].Return?
  }

  /** The collector waits since the invocation a, for the call which that started. */
  ghost predicate InvokedAt(steps: seq<Step>, a: nat)
    requires Execute(steps).Some?
  {
    var s := Execute(steps).value;
    && s.main.Waiting? && a < |steps| && steps[a] == Invoke(s.main.path) && OnlyReturns(steps, a + 1)
    && Execute(steps[..a]).Some? && s.main.call == |Execute(steps[..a]).value.calls|
  }

  lemma {:induction false} WaitingSince(steps: seq<Step>) returns (a: nat)
    requires Execute(steps).Some? && Execute(steps).value.main.Waiting?
    ensures InvokedAt(steps, a)
  {
    var n := |steps| - 1;
    if steps[n].Return? {
      a := WaitingSince(steps[..n]);
      assert steps[..n][..a] == steps[..a];
    } else {
      a := n;
    }
  }

  /** Step c put the result of the call into its channel. */
  ghost predicate ReturnedAt(steps: seq<Step>, call: nat, result: Result, c: nat)
  {
    && c < |steps| && steps[c] == Return(call, result)
    && Execute(steps[..c]).Some? && call < |Execute(steps[..c]).value.calls|
  }

  lemma {:induction false} BufferedSince(steps: seq<Step>, call: nat) returns (c: nat)
    requires Execute(steps).Some? && call < |Execute(steps).value.calls|
    requires Execute(steps).value.calls[call].status.Buffered?
    ensures ReturnedAt(steps, call, Execute(steps).value.calls[call].status.result, c)
  {
    var n := |steps| - 1;
    var s := Execute(steps[..n]).value;
    if call < |s.calls| && s.calls[call].status.Buffered? {
      c := BufferedSince(steps[..n], call);
      assert steps[..n][..c] == steps[..c];
    } else {
      c := n;
    }
  }

  lemma {:induction false} CallsGrow(steps: seq<Step>, n: nat)
    requires Execute(steps).Some? && n <= |steps|
    ensures Execute(steps[..n]).Some?
    ensures |Execute(steps[..n]).value.calls| <= |Execute(steps).value.calls|
  {
    if n == |steps| {
      assert steps[..n] == steps;
    } else {
      var init := steps[..|steps| - 1];
      CallsGrow(init, n);
      assert init[..n] == steps[..n];
    }
  }

  /** The k-th answer is the reading received at step b for the invocation at
      step a, of the call which that invocation started and which returned at
      step c in between; no other invocation lies between a and b. */
  ghost predicate FreshReading(steps: seq<Step>, answer: Answer, k: nat, a: nat, c: nat, b: nat)
    requires answer.verdict.Reading?
  {
    && a < c < b < |steps|
    && steps[a] == Invoke(answer.path)
    && steps[c] == Return(answer.verdict.call, answer.verdict.result)
    && steps[b] == Receive
    && (forall i :: a < i < b ==> steps[i].Return?)
    && Execute(steps[..a]).Some? && answer.verdict.call == |Execute(steps[..a]).value.calls|
    && Execute(steps[..b]).Some? && k == |Execute(steps[..b]).value.answers|
  }

  /** Only receiving answers a reading, that of the call being waited for. */
  lemma {:induction false} ReadingsAreReceived(s: State, step: Step, k: nat)
    requires Enabled(s, step) && k < |Next(s, step).answers| && Next(s, step).answers[k].verdict.Reading?
    ensures var answer := Next(s, step).answers[k];
            if k < |s.answers| then answer == s.answers[k]
            else k == |s.answers| && step.Receive? && Enabled(s, step) &&
                 answer == Answer(s.main.path, Reading(s.main.call, s.calls[s.main.call].status.result))
  {}

  /** A call received right after steps was invoked and returned since. */
  lemma {:induction false} ReceivedIsFresh(steps: seq<Step>) returns (a: nat, c: nat)
    requires Execute(steps).Some? && Enabled(Execute(steps).value, Receive)
    ensures var s := Execute(steps).value;
            && InvokedAt(steps, a) && a < c
            && ReturnedAt(steps, s.main.call, s.calls[s.main.call].status.result, c)
  {
    hide Execute;
    a := WaitingSince(steps);
    c := BufferedSince(steps, Execute(steps).value.main.call);
    if c <= a {
      assert steps[..a][..c] == steps[..c];
      CallsGrow(steps[..a], c);
    }
  }

  /** In every interleaving, every reading ever answered was taken afresh by the
      invocation that answered it, never left over from an earlier one. */
  lemma {:induction false} EveryReadingIsFresh(steps: seq<Step>, k: nat) returns (a: nat, c: nat, b: nat)
    requires Execute(steps).Some? && k < |Execute(steps).value.answers|
    requires Execute(steps).value.answers[k].verdict.Reading?
    ensures FreshReading(steps, Execute(steps).value.answers[k], k, a, c, b)
  {
    hide Next, Enabled;
    var n := |steps| - 1;
    var init := steps[..n];
    var s := Execute(init).value;
    ReadingsAreReceived(s, steps[n], k);
    if k < |s.answers| {
      a, c, b := EveryReadingIsFresh(init, k);
      assert init[..a] == steps[..a] && init[..b] == steps[..b];
    } else {
      a, c := ReceivedIsFresh(init);
      b := n;
      assert init[..a] == steps[..a];
    }
  }

  // ---------------------------------------------------------------------
  // Every invocation is answered
  // ---------------------------------------------------------------------

  function Asked(steps: seq<Step>): seq<string>
  {
    if steps == [] then []
    else Asked(steps[..|steps| - 1]) + if steps[|steps| - 1].Invoke? then [steps[|steps| - 1].path] else []
  }

  function PathsOf(answers: seq<Answer>): (r: seq<string>)
    ensures |r| == |answers|
  {
    seq(|answers|, i requires 0 <= i < |answers| => answers[i].path)
  }

  /** In every interleaving the answers are to the invocations, in order and one
      to each, but for the one being waited for. */
  lemma {:induction false} EveryInvocationIsAnswered(steps: seq<Step>)
    requires Execute(steps).Some?
    ensures var s := Execute(steps).value;
            Asked(steps) == PathsOf(s.answers) + if s.main.Waiting? then [s.main.path] else []
  {
    if steps != [] {
      var n := |steps| - 1;
      EveryInvocationIsAnswered(steps[..n]);
      ExecuteKeepsInv(steps[..n]);
      AnswersAppended(Execute(steps[..n]).value, steps[n]);
      hide Next, Enabled, Inv;
    }
  }

  lemma {:induction false} AnswersAppended(s: State, step: Step)
    requires Enabled(s, step)
    ensures var t := Next(s, step);
            PathsOf(t.answers) + (if t.main.Waiting? then [t.main.path] else []) ==
            PathsOf(s.answers) + (if s.main.Waiting? then [s.main.path] else [])
            + if step.Invoke? then [step.path] else []
  {}
}
