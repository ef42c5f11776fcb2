/**
 The tunnel machine on a clock, with the backoff of Run and the error that runOnce returned: time may pass between any
 two steps, and Run leaves its sleep by the timer no earlier than the delay after it began to sleep.  The attempts of
 every such run are a timeline of the retry schedule.
 */
module TunnelSchedule {
  import opened Prelude
  import opened RetrySchedule
  import T = TunnelMachine

  datatype Timed = Timed(
    m: T.Machine,
    clock: int,
    failure: Error,    // the error of the latest attempt that failed
    backoff: int,
    wake: int)         // when the timer of the current sleep fires

  function Start(clock: int): Timed { Timed(T.INIT, clock, Plain, FIRST, clock) }

  /** A step of the tunnel; where it makes runOnce fail, cause is the error of the call that failed. */
  datatype Step = Pass(time: nat) | Move(step: T.Step, cause: Error)

  /** The error that runOnce returns.  Only /token and addKey answer with a 429, so only the registration passes one on;
      the errors of the region lookup, of the peer address and of the device are plain. */
  function ReturnedError(pc: T.RunPC, cause: Error): Error
  {
    if pc.Registering? then FailedRegistration(cause) else Plain
  }

  /** The timer has not fired yet. */
  predicate Dozing(t: Timed, step: T.Step)
  {
    t.m.run.Sleeping? && step.Run? && step.choice.Succeeds? && t.clock < t.wake
  }

  /** Run begins to sleep. */
  predicate FallsAsleep(m: T.Machine, step: T.Step) { !m.run.Sleeping? && T.Next(m, step).run.Sleeping? }

  /** runOnce returns. */
  predicate ReturnsOnce(m: T.Machine, step: T.Step) { !m.run.OnceReturned? && T.Next(m, step).run.OnceReturned? }

  function Moved(t: Timed, step: T.Step, cause: Error): Timed
  {
    var n := T.Next(t.m, step);
    if FallsAsleep(t.m, step) then
      t.(m := n, wake := t.clock + Delay(t.backoff, t.failure), backoff := NextBackoff(t.backoff, t.failure))
    else if ReturnsOnce(t.m, step) then t.(m := n, failure := ReturnedError(t.m.run, cause))
    else t.(m := n)
  }

  function Next(t: Timed, step: Step): Timed
  {
    match step
    case Pass(time) => t.(clock := t.clock + time)
    case Move(s, cause) => if Dozing(t, s) then t else Moved(t, s, cause)
  }

  function Run(t: Timed, steps: seq<Step>): Timed
    decreases |steps|
  {
    if steps == [] then t else Next(Run(t, steps[..|steps| - 1]), steps[|steps| - 1])
  }

  // ---------- attempts and failures, read off a run ----------

  /** The step with which an attempt begins. */
  predicate Begins(t: Timed, step: Step) { step.Move? && step.step.Run? && t.m.run.AddingTry? }

  /** The step with which an attempt that failed is over and the wait for the next one begins. */
  predicate Fails(t: Timed, step: Step) { step.Move? && FallsAsleep(t.m, step.step) }

  /** The times at which the attempts of a run began. */
  function Starts(t: Timed, steps: seq<Step>): seq<int>
    decreases |steps|
  {
    if steps == [] then []
    else
      var before, step := steps[..|steps| - 1], steps[|steps| - 1];
      Starts(t, before) + (if Begins(Run(t, before), step) then [Run(t, before).clock] else [])
  }

  /** The errors after which the run went to sleep. */
  function Failures(t: Timed, steps: seq<Step>): seq<Error>
    decreases |steps|
  {
    if steps == [] then []
    else
      var before, step := steps[..|steps| - 1], steps[|steps| - 1];
      Failures(t, before) + (if Fails(Run(t, before), step) then [Run(t, before).failure] else [])
  }

  // ---------- where Run stands ----------

  predicate Ready(pc: T.RunPC) { pc.Top? || pc.AddingTry? }

  predicate Attempting(pc: T.RunPC) { !Ready(pc) && !pc.Sleeping? && !pc.Returned? }

  /** Run goes from ready to attempting to sleeping and back to ready, and may return from anywhere. */
  lemma PhasesInOrder(m: T.Machine, c: T.Choice)
    ensures var n := T.RunNext(m, c);
      && (Ready(m.run) ==> Ready(n.run) || n.run.Returned? || (m.run.AddingTry? && Attempting(n.run)))
      && (m.run.AddingTry? ==> Attempting(n.run))
      && (Attempting(m.run) ==> Attempting(n.run) || n.run.Sleeping? || n.run.Returned?)
      && (m.run.Sleeping? ==> n.run.Sleeping? || n.run.Returned? || (n.run.Top? && c.Succeeds?))
      && (m.run.Returned? ==> n.run.Returned?)
  {
  }

  lemma OthersLeaveRun(m: T.Machine, step: T.Step)
    requires !step.Run?
    ensures T.Next(m, step).run == m.run
  {
  }

  // ---------- every run is a timeline ----------

  /** The timer fires no earlier than the delay after the latest attempt began. */
  predicate Awaits(t: Timed, starts: seq<int>, failures: seq<Error>)
  {
    failures == [] ||
    (|starts| == |failures| &&
     var last := |failures| - 1;
     t.wake >= starts[last] + Delay(BackoffFrom(FIRST, failures[..last]), failures[last]))
  }

  /** Attempt i + 1 began no earlier than the delay after attempt i began. */
  predicate Spaced(starts: seq<int>, failures: seq<Error>, i: nat)
    requires i + 1 < |starts| <= |failures| + 1
  {
    starts[i + 1] - starts[i] >= Delay(BackoffFrom(FIRST, failures[..i]), failures[i])
  }

  /** How the attempts and failures so far relate to the state. */
  predicate Scheduled(t: Timed, starts: seq<int>, failures: seq<Error>)
  {
    && t.backoff == BackoffFrom(FIRST, failures)
    && |failures| <= |starts| <= |failures| + 1
    && (Attempting(t.m.run) ==> |starts| == |failures| + 1)
    && (Ready(t.m.run) || t.m.run.Sleeping? ==> |starts| == |failures| && Awaits(t, starts, failures))
    && (Ready(t.m.run) ==> t.clock >= t.wake || failures == [])
    && (forall i :: 0 <= i < |starts| ==> starts[i] <= t.clock)
    && (forall i :: 0 <= i < |starts| - 1 ==> Spaced(starts, failures, i))
  }

  lemma PassKeepsSchedule(t: Timed, time: nat, starts: seq<int>, failures: seq<Error>)
    requires Scheduled(t, starts, failures)
    ensures Scheduled(Next(t, Pass(time)), starts, failures)
  {
  }

  lemma BeginKeepsSchedule(t: Timed, step: Step, starts: seq<int>, failures: seq<Error>)
    requires Scheduled(t, starts, failures) && Begins(t, step)
    ensures Scheduled(Next(t, step), starts + [t.clock], failures) && !Fails(t, step)
  {
    PhasesInOrder(t.m, step.step.choice);
    var n, longer := Next(t, step), starts + [t.clock];
    assert Attempting(n.m.run) && n.backoff == t.backoff && n.clock == t.clock;
    forall i | 0 <= i < |starts| ensures Spaced(longer, failures, i) {
      if i < |starts| - 1 { assert Spaced(starts, failures, i); }
    }
  }

  lemma BackoffAfter(failures: seq<Error>, e: Error)
    ensures BackoffFrom(FIRST, failures + [e]) == NextBackoff(BackoffFrom(FIRST, failures), e)
  {
    assert (failures + [e])[..|failures|] == failures;
  }

  lemma StillSpaced(starts: seq<int>, failures: seq<Error>, e: Error, i: nat)
    requires i + 1 < |starts| <= |failures| + 1 && Spaced(starts, failures, i)
    ensures Spaced(starts, failures + [e], i)
  {
    assert (failures + [e])[..i] == failures[..i];
  }

  lemma FallKeepsSchedule(t: Timed, step: Step, starts: seq<int>, failures: seq<Error>)
    requires Scheduled(t, starts, failures) && Fails(t, step)
    ensures Scheduled(Next(t, step), starts, failures + [t.failure]) && !Begins(t, step)
  {
    if step.step.Run? { PhasesInOrder(t.m, step.step.choice); } else { OthersLeaveRun(t.m, step.step); }
    BackoffAfter(failures, t.failure);
    assert (failures + [t.failure])[..|failures|] == failures;
    forall i | 0 <= i < |starts| - 1 ensures Spaced(starts, failures + [t.failure], i) {
      StillSpaced(starts, failures, t.failure, i);
    }
  }

  lemma OtherMovesKeepSchedule(t: Timed, step: Step, starts: seq<int>, failures: seq<Error>)
    requires Scheduled(t, starts, failures) && step.Move? && !Begins(t, step) && !Fails(t, step)
    ensures Scheduled(Next(t, step), starts, failures)
  {
    if step.step.Run? { PhasesInOrder(t.m, step.step.choice); } else { OthersLeaveRun(t.m, step.step); }
    var n := Next(t, step);
    assert n.backoff == t.backoff && n.wake == t.wake && n.clock == t.clock;
  }

  lemma StepKeepsSchedule(t: Timed, step: Step, starts: seq<int>, failures: seq<Error>)
    requires Scheduled(t, starts, failures)
    ensures Scheduled(Next(t, step), starts + (if Begins(t, step) then [t.clock] else []),
                      failures + (if Fails(t, step) then [t.failure] else []))
  {
    assert starts + [] == starts && failures + [] == failures;
    if step.Pass? {
      PassKeepsSchedule(t, step.time, starts, failures);
    } else if Begins(t, step) {
      BeginKeepsSchedule(t, step, starts, failures);
    } else if Fails(t, step) {
      FallKeepsSchedule(t, step, starts, failures);
    } else {
      OtherMovesKeepSchedule(t, step, starts, failures);
    }
  }

  lemma {:induction false} RunKeepsSchedule(clock: int, steps: seq<Step>)
    ensures Scheduled(Run(Start(clock), steps), Starts(Start(clock), steps), Failures(Start(clock), steps))
    decreases |steps|
  {
    if steps == [] {
    } else {
      var before := steps[..|steps| - 1];
      RunKeepsSchedule(clock, before);
      StepKeepsSchedule(Run(Start(clock), before), steps[|steps| - 1],
                        Starts(Start(clock), before), Failures(Start(clock), before));
    }
  }

  // ---------- the main results ----------

  lemma ScheduledIsTimeline(t: Timed, starts: seq<int>, failures: seq<Error>)
    requires Scheduled(t, starts, failures) && starts != []
    ensures |failures| >= |starts| - 1 && Timeline(starts, failures[..|starts| - 1])
  {
    var ended := failures[..|starts| - 1];
    forall i | 0 <= i < |ended| ensures Waits(starts, ended, i) {
      assert Spaced(starts, failures, i);
      assert ended[..i] == failures[..i];
    }
  }

  /** The attempts of any run of the tunnel, whatever they and the time between steps do, are a timeline. */
  lemma RunsAreTimelines(clock: int, steps: seq<Step>)
    requires Starts(Start(clock), steps) != []
    ensures var starts, failures := Starts(Start(clock), steps), Failures(Start(clock), steps);
      |failures| >= |starts| - 1 && Timeline(starts, failures[..|starts| - 1])
  {
    RunKeepsSchedule(clock, steps);
    ScheduledIsTimeline(Run(Start(clock), steps), Starts(Start(clock), steps), Failures(Start(clock), steps));
  }

  /** In any run of the tunnel the n-th attempt after any attempt begins at least 60 n - 238 seconds later. */
  lemma AttemptsSpreadOutInRuns(clock: int, steps: seq<Step>, i: nat, j: nat)
    requires i <= j < |Starts(Start(clock), steps)|
    ensures Starts(Start(clock), steps)[j] - Starts(Start(clock), steps)[i] >= (60 * (j - i) - 238) * SECOND
  {
    RunsAreTimelines(clock, steps);
    var starts, failures := Starts(Start(clock), steps), Failures(Start(clock), steps);
    AttemptsSpreadOut(starts, failures[..|starts| - 1], i, j);
  }

  /** The sleep that a run goes into lasts exactly the closed-form delay of its error after the earlier ones. */
  lemma SleepsTheClosedDelay(clock: int, steps: seq<Step>, step: Step)
    requires Fails(Run(Start(clock), steps), step)
    ensures var t := Run(Start(clock), steps);
      Next(t, step).wake == t.clock + ClosedDelay(Failures(Start(clock), steps), t.failure)
  {
    RunKeepsSchedule(clock, steps);
    DelayClosedForm(Failures(Start(clock), steps), Run(Start(clock), steps).failure);
  }

  // ---------- what a long sleep comes from ----------

  /** Step n of a run makes runOnce return. */
  predicate ReturnsAt(t: Timed, steps: seq<Step>, n: nat)
    requires n < |steps|
  {
    steps[n].Move? && ReturnsOnce(Run(t, steps[..n]).m, steps[n].step)
  }

  /** Step n is the latest step of a run that makes runOnce return. */
  predicate LatestReturn(t: Timed, steps: seq<Step>, n: nat)
  {
    n < |steps| && ReturnsAt(t, steps, n) && forall k :: n < k < |steps| ==> !ReturnsAt(t, steps, k)
  }

  /** The state holds the error of the latest return of runOnce, which was step n. */
  predicate HoldsErrorOf(t: Timed, steps: seq<Step>, n: nat)
  {
    && LatestReturn(t, steps, n)
    && Run(t, steps).failure == ReturnedError(Run(t, steps[..n]).m.run, steps[n].cause)
  }

  /** After runOnce and before the next attempt. */
  predicate Over(pc: T.RunPC) { pc.OnceReturned? || pc.AddingFail? || pc.SettingError? || pc.Sleeping? }

  lemma PhasesOver(m: T.Machine, c: T.Choice)
    requires !Over(m.run) && Over(T.RunNext(m, c).run)
    ensures T.RunNext(m, c).run.OnceReturned?
  {
  }

  lemma OverAfterReturn(m: T.Machine, step: T.Step)
    requires !Over(m.run) && Over(T.Next(m, step).run)
    ensures ReturnsOnce(m, step)
  {
    if step.Run? { PhasesOver(m, step.choice); } else { OthersLeaveRun(m, step); }
  }

  lemma FailureByStep(t: Timed, step: Step)
    ensures Next(t, step).failure
         == if step.Move? && ReturnsOnce(t.m, step.step) then ReturnedError(t.m.run, step.cause) else t.failure
  {
  }

  lemma ReturnsAtPrefix(t: Timed, steps: seq<Step>, k: nat)
    requires k < |steps| - 1
    ensures ReturnsAt(t, steps, k) == ReturnsAt(t, steps[..|steps| - 1], k)
  {
    assert steps[..|steps| - 1][..k] == steps[..k];
  }

  lemma LatestStays(t: Timed, steps: seq<Step>, n: nat)
    requires steps != [] && LatestReturn(t, steps[..|steps| - 1], n) && !ReturnsAt(t, steps, |steps| - 1)
    ensures LatestReturn(t, steps, n)
  {
    ReturnsAtPrefix(t, steps, n);
    forall k | n < k < |steps| ensures !ReturnsAt(t, steps, k) {
      if k < |steps| - 1 { ReturnsAtPrefix(t, steps, k); }
    }
  }

  lemma HoldsOn(t: Timed, steps: seq<Step>, n: nat)
    requires steps != [] && HoldsErrorOf(t, steps[..|steps| - 1], n) && !ReturnsAt(t, steps, |steps| - 1)
    ensures HoldsErrorOf(t, steps, n)
  {
    LatestStays(t, steps, n);
    FailureByStep(Run(t, steps[..|steps| - 1]), steps[|steps| - 1]);
    assert steps[..|steps| - 1][..n] == steps[..n];
  }

  /** The step with which the attempt that is over ended. */
  lemma {:induction false} EndOfAttempt(clock: int, steps: seq<Step>) returns (n: nat)
    requires Over(Run(Start(clock), steps).m.run)
    ensures HoldsErrorOf(Start(clock), steps, n)
    decreases |steps|
  {
    if steps == [] {
      assert false;
    } else {
      var t, last := Start(clock), |steps| - 1;
      FailureByStep(Run(t, steps[..last]), steps[last]);
      if ReturnsAt(t, steps, last) {
        n := last;
      } else {
        if !Over(Run(t, steps[..last]).m.run) && steps[last].Move? {
          OverAfterReturn(Run(t, steps[..last]).m, steps[last].step);
          assert false;
        }
        n := EndOfAttempt(clock, steps[..last]);
        HoldsOn(t, steps, n);
      }
    }
  }

  lemma FallsFromOver(m: T.Machine, step: T.Step)
    requires FallsAsleep(m, step)
    ensures Over(m.run)
  {
    if !Over(m.run) { OverAfterReturn(m, step); }
  }

  /**
   Run goes into the long cooldown exactly when the attempt that just ended did so in the registration, with a 429 on
   the wrap chain of its error; every other attempt costs the ordinary backoff of at most a minute.
   */
  lemma CooldownIffRateLimited(clock: int, steps: seq<Step>, step: Step) returns (n: nat)
    requires Fails(Run(Start(clock), steps), step)
    ensures HoldsErrorOf(Start(clock), steps, n)
    ensures var t := Run(Start(clock), steps);
      var slept, pc := Next(t, step).wake - t.clock, Run(Start(clock), steps[..n]).m.run;
      && (slept >= FLOOR <==> pc.Registering? && AsRateLimit(steps[n].cause).Some?)
      && (slept < FLOOR ==> slept == BackoffFrom(FIRST, Failures(Start(clock), steps)) <= MAX)
  {
    var t := Run(Start(clock), steps);
    FallsFromOver(t.m, step.step);
    n := EndOfAttempt(clock, steps);
    RunKeepsSchedule(clock, steps);
    TotalWithCredit(FIRST, Failures(Start(clock), steps));
  }

  // ---------- the clock adds nothing else ----------

  /** The steps of the tunnel that a run takes. */
  function Moves(t: Timed, steps: seq<Step>): seq<T.Step>
    decreases |steps|
  {
    if steps == [] then []
    else
      var before, step := steps[..|steps| - 1], steps[|steps| - 1];
      Moves(t, before) + (if step.Move? && !Dozing(Run(t, before), step.step) then [step.step] else [])
  }

  lemma MovesExtend(t: Timed, step: Step, moves: seq<T.Step>)
    requires T.Steps(T.INIT, moves) == t.m
    ensures T.Steps(T.INIT, moves + (if step.Move? && !Dozing(t, step.step) then [step.step] else []))
         == Next(t, step).m
  {
    if step.Move? && !Dozing(t, step.step) {
      assert (moves + [step.step])[..|moves|] == moves;
    } else {
      assert moves + [] == moves;
    }
  }

  /** A run on the clock is a run of the tunnel machine, so everything that holds of its reachable states holds here. */
  lemma {:induction false} RunsOfTheMachine(clock: int, steps: seq<Step>)
    ensures T.Steps(T.INIT, Moves(Start(clock), steps)) == Run(Start(clock), steps).m
    decreases |steps|
  {
    if steps == [] {
    } else {
      var before := steps[..|steps| - 1];
      RunsOfTheMachine(clock, before);
      MovesExtend(Run(Start(clock), before), steps[|steps| - 1], Moves(Start(clock), before));
    }
  }

  lemma BringUpCountsTries(m: T.Machine, c: T.Choice)
    ensures T.BringUpNext(m, c).tries == m.tries + (if m.run.AddingTry? then 1 else 0)
  {
  }

  lemma RunCountsTries(m: T.Machine, c: T.Choice)
    ensures T.RunNext(m, c).tries == m.tries + (if m.run.AddingTry? then 1 else 0)
  {
    BringUpCountsTries(m, c);
  }

  lemma OthersCountNone(m: T.Machine, step: T.Step)
    requires !step.Run?
    ensures T.Next(m, step).tries == m.tries
  {
  }

  lemma TryByStep(t: Timed, step: Step)
    ensures Next(t, step).m.tries == t.m.tries + (if Begins(t, step) then 1 else 0)
  {
    if step.Move? {
      if step.step.Run? { RunCountsTries(t.m, step.step.choice); } else { OthersCountNone(t.m, step.step); }
    }
  }

  /** The attempts counted by the tunnel are the attempts of the run. */
  lemma {:induction false} TriesAreStarts(clock: int, steps: seq<Step>)
    ensures Run(Start(clock), steps).m.tries == |Starts(Start(clock), steps)|
    decreases |steps|
  {
    if steps == [] {
    } else {
      var before := steps[..|steps| - 1];
      TriesAreStarts(clock, before);
      TryByStep(Run(Start(clock), before), steps[|steps| - 1]);
    }
  }
}
