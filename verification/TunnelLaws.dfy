/**
 What the runs of the tunnel do, told by what the calls of runOnce answered: when a session is published, what a failed
 call leads to, how long the sleep after it is, what one round of Run and of each loop does, and that a cancelled tunnel
 can always return.
 */
module TunnelLaws {
  import opened Prelude
  import opened TunnelFields
  import opened TunnelMachine
  import opened RetrySchedule
  import opened RetryLaws
  import S = TunnelSchedule

  // ---------- the calls of an attempt ----------

  /** Run is at the call k of runOnce: FindRegion, the registration, the check of the peer address, CreateNetTUN,
      IPCConfig, IpcSet and Up, counted from 0. */
  predicate AtCall(m: Machine, k: nat)
  {
    match m.run
    case FindingRegion => k == 0
    case Registering => k == 1
    case CheckingPeer => k == 2
    case Building => k == 3
    case Configuring(_, stage) => k == 4 + stage
    case _ => false
  }

  /** Since the latest attempt began, call k was answered, with success or not. */
  predicate Took(steps: seq<Step>, k: nat, ok: bool)
    decreases |steps|
  {
    && steps != []
    && var before, step := steps[..|steps| - 1], steps[|steps| - 1];
       var m := Steps(INIT, before);
       if step.Run? && m.run.AddingTry? then false
       else (step.Run? && AtCall(m, k) && step.choice.Succeeds? == ok) || Took(before, k, ok)
  }

  /** The calls that lie behind Run. */
  function Behind(pc: RunPC): nat
  {
    match pc
    case Registering => 1
    case StampingAddKey => 2
    case CheckingPeer => 2
    case Building => 3
    case Configuring(_, stage) => 4 + stage
    case Publishing(_) => 7
    case StartingLoops(_) => 7
    case Waiting(_) => 7
    case Joining(_) => 7
    case TearingDown(_) => 7
    case _ => 0
  }

  /** The attempt has not failed: Run has a call before it, or a session to publish, to run or to close. */
  predicate Going(pc: RunPC)
  {
    pc.SettingConnecting? || (BringingUp(pc) && !pc.Abandoning?) || Published(pc) || pc.ClosingDevice?
  }

  lemma BringUpPasses(m: Machine, c: Choice)
    ensures var n := BringUpNext(m, c);
      Behind(n.run) <= Behind(m.run) ||
      (Behind(n.run) == Behind(m.run) + 1 && AtCall(m, Behind(m.run)) && c.Succeeds?)
  {
  }

  lemma BringUpGoesOn(m: Machine, c: Choice)
    requires Going(BringUpNext(m, c).run)
    ensures m.run.AddingTry? || (Going(m.run) && !(AtCall(m, Behind(m.run)) && c.Fails?))
  {
  }

  lemma RunMovesOn(m: Machine, c: Choice)
    ensures var n := RunNext(m, c);
      && (Behind(n.run) <= Behind(m.run) ||
          (Behind(n.run) == Behind(m.run) + 1 && AtCall(m, Behind(m.run)) && c.Succeeds?))
      && (Going(n.run) ==> m.run.AddingTry? || (Going(m.run) && !(AtCall(m, Behind(m.run)) && c.Fails?)))
      && (m.run.AddingTry? ==> Behind(n.run) == 0)
  {
    BringUpPasses(m, c);
    if Going(BringUpNext(m, c).run) { BringUpGoesOn(m, c); }
  }

  lemma AtOneCall(m: Machine, k: nat)
    requires AtCall(m, k)
    ensures k == Behind(m.run)
  {
  }

  predicate AllAnswered(steps: seq<Step>, n: nat) { forall k :: 0 <= k < n ==> Took(steps, k, true) }

  ghost predicate NoneFailed(steps: seq<Step>) { forall k: nat :: !Took(steps, k, false) }

  lemma OtherStepsLeaveRun(m: Machine, step: Step)
    requires !step.Run?
    ensures Next(m, step).run == m.run
  {
  }

  lemma {:induction false} CallsSoFar(steps: seq<Step>)
    ensures AllAnswered(steps, Behind(Steps(INIT, steps).run))
    ensures Going(Steps(INIT, steps).run) ==> NoneFailed(steps)
    decreases |steps|
  {
    if steps == [] {
    } else {
      var before, step := steps[..|steps| - 1], steps[|steps| - 1];
      var m := Steps(INIT, before);
      CallsSoFar(before);
      if step.Run? {
        RunMovesOn(m, step.choice);
        forall k: nat | AtCall(m, k) ensures k == Behind(m.run) { AtOneCall(m, k); }
      } else {
        OtherStepsLeaveRun(m, step);
      }
    }
  }

  /** A session is shown only if in the latest attempt every one of the seven calls was answered with success, and none
      was ever answered with a failure. */
  lemma SessionOnlyAfterEveryCall(steps: seq<Step>)
    requires Steps(INIT, steps).f.session.Some?
    ensures forall k :: 0 <= k < 7 ==> Took(steps, k, true)
    ensures forall k: nat :: !Took(steps, k, false)
  {
    StepsKeepInv(INIT, steps);
    CallsSoFar(steps);
    assert AllAnswered(steps, 7) && NoneFailed(steps);
  }

  /** After a failed call there is no other call, session or netstack before the next attempt. */
  lemma FailedCallEndsAttempt(steps: seq<Step>, k: nat)
    requires Took(steps, k, false)
    ensures var m := Steps(INIT, steps);
      && m.f.session == None && m.f.device == None && m.f.netNet == None
      && (m.run.Abandoning? || Between(m.run) || m.run.AddingTry?)
      && forall j: nat :: !AtCall(m, j)
  {
    StepsKeepInv(INIT, steps);
    CallsSoFar(steps);
    assert !NoneFailed(steps);
  }

  // ---------- the sleep after a failed registration ----------

  /** The error of the registration that failed in the latest attempt of a run on the clock, if it did. */
  function FailedRegistrationOf(t: S.Timed, steps: seq<S.Step>): Option<Error>
    decreases |steps|
  {
    if steps == [] then None
    else
      var before, step := steps[..|steps| - 1], steps[|steps| - 1];
      var m := S.Run(t, before).m;
      if S.Begins(S.Run(t, before), step) then None
      else if step.Move? && step.step.Run? && m.run.Registering? && step.step.choice.Fails? then Some(step.cause)
      else FailedRegistrationOf(t, before)
  }

  /** What Run holds between a failed registration and the next attempt, and what it holds after any other attempt. */
  predicate Holds(t: S.Timed, cause: Option<Error>)
  {
    && (cause.Some? ==> (Between(t.m.run) || t.m.run.AddingTry?) && t.failure == Wrap("addKey: ", cause.value))
    && (cause.None? && S.Over(t.m.run) ==> t.failure == Plain)
  }

  lemma RestsUntilNextTry(m: Machine, step: Step)
    requires (Between(m.run) || m.run.AddingTry?) && !(step.Run? && m.run.AddingTry?)
    ensures var n := Next(m, step); (Between(n.run) || n.run.AddingTry?) && !S.ReturnsOnce(m, step)
  {
    if !step.Run? { OtherStepsLeaveRun(m, step); }
  }

  lemma RegistrationFails(m: Machine, c: Choice)
    requires m.run.Registering? && c.Fails?
    ensures S.ReturnsOnce(m, Step.Run(c)) && !S.FallsAsleep(m, Step.Run(c))
  {
  }

  lemma TryBegins(m: Machine, c: Choice)
    requires m.run.AddingTry?
    ensures !S.Over(RunNext(m, c).run)
  {
  }

  lemma RegistrationGoesOn(m: Machine, c: Choice)
    requires m.run.Registering? && c.Succeeds?
    ensures !S.Over(RunNext(m, c).run)
  {
  }

  lemma ReturnHoldsPlain(t: S.Timed, step: S.Step)
    requires step.Move? && !S.Over(t.m.run) && S.Over(S.Next(t, step).m.run)
    requires !(step.step.Run? && t.m.run.Registering? && step.step.choice.Fails?)
    ensures S.Next(t, step).failure == Plain
  {
    S.OverAfterReturn(t.m, step.step);
    S.FailureByStep(t, step);
    if step.step.Run? {
      if t.m.run.Registering? { RegistrationGoesOn(t.m, step.step.choice); }
    } else {
      OtherStepsLeaveRun(t.m, step.step);
    }
  }

  lemma OtherMoveHolds(t: S.Timed, step: S.Step, cause: Option<Error>)
    requires Holds(t, cause) && step.Move? && !S.Begins(t, step)
    requires !(step.step.Run? && t.m.run.Registering? && step.step.choice.Fails?)
    ensures Holds(S.Next(t, step), cause)
  {
    S.FailureByStep(t, step);
    if Between(t.m.run) || t.m.run.AddingTry? {
      RestsUntilNextTry(t.m, step.step);
      if S.Over(S.Next(t, step).m.run) && !S.Over(t.m.run) { ReturnHoldsPlain(t, step); }
    } else if S.Over(S.Next(t, step).m.run) {
      ReturnHoldsPlain(t, step);
    }
  }

  lemma StepHolds(t: S.Timed, step: S.Step, cause: Option<Error>)
    requires Holds(t, cause)
    ensures Holds(S.Next(t, step),
                  if S.Begins(t, step) then None
                  else if step.Move? && step.step.Run? && t.m.run.Registering? && step.step.choice.Fails?
                  then Some(step.cause) else cause)
  {
    if step.Pass? {
    } else if S.Begins(t, step) {
      TryBegins(t.m, step.step.choice);
    } else if step.step.Run? && t.m.run.Registering? && step.step.choice.Fails? {
      RegistrationFails(t.m, step.step.choice);
    } else {
      OtherMoveHolds(t, step, cause);
    }
  }

  lemma {:induction false} RunHolds(clock: int, steps: seq<S.Step>)
    ensures Holds(S.Run(S.Start(clock), steps), FailedRegistrationOf(S.Start(clock), steps))
    decreases |steps|
  {
    if steps == [] {
    } else {
      var before := steps[..|steps| - 1];
      RunHolds(clock, before);
      StepHolds(S.Run(S.Start(clock), before), steps[|steps| - 1], FailedRegistrationOf(S.Start(clock), before));
    }
  }

  /** The registration failed with a 429 that asks to wait for r. */
  predicate LimitedTo(cause: Option<Error>, r: int) { cause.Some? && AsksToWait(cause.value, r) }

  lemma FallsAsleepHolding(t: S.Timed, step: S.Step, cause: Option<Error>)
    requires Holds(t, cause) && S.Fails(t, step)
    ensures t.failure == if cause.Some? then Wrap("addKey: ", cause.value) else Plain
    ensures S.Next(t, step).wake == t.clock + Delay(t.backoff, t.failure)
  {
    S.FallsFromOver(t.m, step.step);
  }

  lemma DelayHolding(backoff: int, cause: Option<Error>, r: int)
    ensures var d := Delay(backoff, if cause.Some? then Wrap("addKey: ", cause.value) else Plain);
      LimitedTo(cause, r) ==> d == if r < 300_000_000_000 then 300_000_000_000 else r
  {
    if cause.Some? { AsIsOnChain(cause.value, r); }
  }

  lemma DelayIsBackoffOrLimited(backoff: int, cause: Option<Error>)
    ensures Delay(backoff, if cause.Some? then Wrap("addKey: ", cause.value) else Plain) == backoff
         || exists r :: LimitedTo(cause, r)
  {
    if cause.Some? && AsRateLimit(cause.value).Some? {
      var r := AsRateLimit(cause.value).value;
      AsIsOnChain(cause.value, r);
      assert LimitedTo(cause, r);
    }
  }

  /** What the sleep lasts, given the error of the registration that failed in the attempt. */
  ghost predicate SleepFits(slept: int, cause: Option<Error>)
  {
    && (forall r :: LimitedTo(cause, r) ==> slept == if r < 300_000_000_000 then 300_000_000_000 else r)
    && ((exists r :: LimitedTo(cause, r)) || 2_000_000_000 <= slept <= 60_000_000_000)
  }

  lemma SleepHolding(t: S.Timed, step: S.Step, cause: Option<Error>)
    requires Holds(t, cause) && S.Fails(t, step) && Reachable(t.backoff)
    ensures SleepFits(S.Next(t, step).wake - t.clock, cause)
  {
    FallsAsleepHolding(t, step, cause);
    DelayIsBackoffOrLimited(t.backoff, cause);
    forall r { DelayHolding(t.backoff, cause, r); }
  }

  lemma BackoffInReach(clock: int, steps: seq<S.Step>)
    ensures Reachable(S.Run(S.Start(clock), steps).backoff)
  {
    S.RunKeepsSchedule(clock, steps);
    TotalWithCredit(FIRST, S.Failures(S.Start(clock), steps));
  }

  /** The sleep into which Run falls: at least five minutes, and as long as the 429 asks, if the registration of the
      attempt failed with one; between two seconds and a minute after every other attempt. */
  lemma SleepsByRegistration(clock: int, steps: seq<S.Step>, step: S.Step)
    requires S.Fails(S.Run(S.Start(clock), steps), step)
    ensures var t := S.Run(S.Start(clock), steps);
      SleepFits(S.Next(t, step).wake - t.clock, FailedRegistrationOf(S.Start(clock), steps))
  {
    RunHolds(clock, steps);
    BackoffInReach(clock, steps);
    SleepHolding(S.Run(S.Start(clock), steps), step, FailedRegistrationOf(S.Start(clock), steps));
  }

  /** Run leaves its sleep by the timer exactly when the time that it was set for has come, and then begins its loop
      again; the passing of time changes nothing but the clock. */
  lemma TimerWakes(t: S.Timed, now: int, cause: Error, time: nat)
    requires t.m.run.Sleeping?
    ensures S.Next(t, S.Pass(time)) == t.(clock := t.clock + time)
    ensures S.Next(t, S.Move(Step.Run(Succeeds(now)), cause))
         == if t.clock >= t.wake then t.(m := t.m.(run := Top)) else t
  {
  }
}
