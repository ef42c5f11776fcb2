/**
 One round of everything in the tunnel, from what its calls answer to the whole new state: an attempt that fails at any
 of its calls, one that publishes a session, a stats tick, a health tick, a Snapshot, and the end of a session; and a
 cancelled tunnel can return from wherever it stands.
 */
module TunnelRounds {
  import opened Prelude
  import opened TunnelFields
  import opened TunnelMachine

  lemma Extends(m: Machine, steps: seq<Step>, step: Step)
    ensures Steps(m, steps + [step]) == Next(Steps(m, steps), step)
  {
    assert (steps + [step])[..|steps|] == steps;
  }

  /** The steps lead from m to n. */
  predicate Leads(m: Machine, steps: seq<Step>, n: Machine) { Steps(m, steps) == n }

  lemma Then(m: Machine, steps: seq<Step>, n: Machine, step: Step, after: Machine)
    requires Leads(m, steps, n) && Next(n, step) == after
    ensures Leads(m, steps + [step], after)
  {
    Extends(m, steps, step);
  }

  // ---------- an attempt ----------

  /** The first n steps of Run if every call succeeds at the time now. */
  function Ups(n: nat, now: int): seq<Step> { if n == 0 then [] else Ups(n - 1, now) + [Step.Run(Succeeds(now))] }

  /** Run is at the head of its loop and nothing holds it up. */
  predicate AtTop(m: Machine) { m.run == Top && !m.cancelled && Free(m) }

  /** The tunnel is connecting, after one more attempt was counted. */
  function Tried(m: Machine, pc: RunPC): Machine
  {
    m.(tries := m.tries + 1, f := m.f.(state := Connecting, lastError := ""), run := pc)
  }

  /** A device has been created, and pc is where Run has come with it. */
  function Made(m: Machine, pc: RunPC): Machine { Tried(m, pc).(closes := m.closes + [0]) }

  /** The tunnel after k steps of an attempt whose calls have succeeded so far. */
  function Rung(m: Machine, k: nat): Machine
  {
    match k
    case 3 => Tried(m, FindingRegion)
    case 4 => Tried(m, Registering)
    case 5 => Tried(m, StampingAddKey)
    case 6 => Tried(m, CheckingPeer)
    case 7 => Tried(m, Building)
    case 8 => Made(m, Configuring(|m.closes|, 0))
    case 9 => Made(m, Configuring(|m.closes|, 1))
    case 10 => Made(m, Configuring(|m.closes|, 2))
    case _ => Made(m, Publishing(|m.closes|))
  }

  lemma AttemptStarts(m: Machine, now: int)
    requires AtTop(m)
    ensures Leads(m, Ups(3, now), Rung(m, 3))
  {
    var step := Step.Run(Succeeds(now));
    Then(m, Ups(0, now), m, step, m.(run := AddingTry));
    Then(m, Ups(1, now), m.(run := AddingTry), step, m.(run := SettingConnecting, tries := m.tries + 1));
    Then(m, Ups(2, now), m.(run := SettingConnecting, tries := m.tries + 1), step, Rung(m, 3));
  }

  lemma NextRung(m: Machine, k: nat, now: int)
    requires AtTop(m) && 3 <= k < 11
    ensures Next(Rung(m, k), Step.Run(Succeeds(now))) == Rung(m, k + 1)
  {
  }

  lemma {:induction false} Climbs(m: Machine, k: nat, now: int)
    requires AtTop(m) && 3 <= k <= 11
    ensures Leads(m, Ups(k, now), Rung(m, k))
  {
    if k == 3 {
      AttemptStarts(m, now);
    } else {
      Climbs(m, k - 1, now);
      NextRung(m, k - 1, now);
      Then(m, Ups(k - 1, now), Rung(m, k - 1), Step.Run(Succeeds(now)), Rung(m, k));
    }
  }

  lemma SessionIsPublished(m: Machine, now: int)
    requires AtTop(m)
    ensures var dev := |m.closes|;
      var up := Made(m, StartingLoops(dev)).(f := Fields(Up, "", Some(dev), Some(dev), Some(dev),
                                                         0, 0, 0.0, 0.0, 0, 0, now, None, false, ""));
      && Next(Rung(m, 11), Step.Run(Succeeds(now))) == up
      && Next(up, Step.Run(Succeeds(now))) == up.(run := Waiting(dev), stats := SWaiting(dev), health := HWaiting(dev))
  {
  }

  /** An attempt whose calls all succeed: the session is shown with its device and no measurements, and both loops
      run. */
  lemma AttemptSucceeds(m: Machine, now: int)
    requires AtTop(m)
    ensures var dev := |m.closes|;
      Leads(m, Ups(13, now),
            m.(tries := m.tries + 1, closes := m.closes + [0],
               f := Fields(Up, "", Some(dev), Some(dev), Some(dev), 0, 0, 0.0, 0.0, 0, 0, now, None, false, ""),
               run := Waiting(dev), stats := SWaiting(dev), health := HWaiting(dev)))
  {
    var step := Step.Run(Succeeds(now));
    var up := Next(Rung(m, 11), step);
    Climbs(m, 11, now);
    SessionIsPublished(m, now);
    Then(m, Ups(11, now), Rung(m, 11), step, up);
    Then(m, Ups(12, now), up, step, Next(up, step));
  }

  /** The steps that an attempt takes before its call k: FindRegion, the registration, the check of the peer address,
      CreateNetTUN, IPCConfig, IpcSet and Up. */
  function Before(k: nat): nat { if k == 0 then 3 else if k == 1 then 4 else k + 4 }

  /** What runOnce says of the failure of call k. */
  function Text(k: nat): string
  {
    match k
    case 0 => "region lookup: "
    case 1 => "addKey: "
    case 2 => "invalid peer IP "
    case 3 => "create netstack tun: "
    case 4 => "build ipc config: "
    case 5 => "ipc set: "
    case _ => "wg up: "
  }

  lemma EarlyCallFails(m: Machine, k: nat, detail: string)
    requires AtTop(m) && k < 4
    ensures Next(Rung(m, Before(k)), Step.Run(Fails(detail))) == Tried(m, OnceReturned(Some(Text(k) + detail)))
  {
  }

  lemma LateCallFails(m: Machine, k: nat, detail: string)
    requires AtTop(m) && 4 <= k < 7
    ensures Next(Rung(m, Before(k)), Step.Run(Fails(detail))) == Made(m, Abandoning(|m.closes|, Text(k) + detail))
  {
  }

  lemma DeviceIsAbandoned(m: Machine, msg: string, now: int)
    ensures Next(Made(m, Abandoning(|m.closes|, msg)), Step.Run(Succeeds(now)))
         == Tried(m, OnceReturned(Some(msg))).(closes := m.closes + [1])
  {
    assert (m.closes + [0])[|m.closes| := 1] == m.closes + [1];
  }

  lemma FailureIsCounted(n: Machine, err: string, now: int)
    requires n.run == OnceReturned(Some(err)) && !n.cancelled && Free(n)
    ensures var up := Step.Run(Succeeds(now));
      Next(Next(Next(n, up), up), up)
      == n.(fails := n.fails + 1, run := Sleeping, f := n.f.(state := TunnelFields.Failed, lastError := err))
  {
  }

  /** The last three steps of an attempt that failed. */
  lemma FailureIsShown(m: Machine, steps: seq<Step>, n: Machine, err: string, now: int)
    requires Leads(m, steps, n) && n.run == OnceReturned(Some(err)) && !n.cancelled && Free(n)
    ensures var up := Step.Run(Succeeds(now));
      Leads(m, steps + [up] + [up] + [up],
            n.(fails := n.fails + 1, run := Sleeping, f := n.f.(state := TunnelFields.Failed, lastError := err)))
  {
    var up := Step.Run(Succeeds(now));
    Then(m, steps, n, up, Next(n, up));
    Then(m, steps + [up], Next(n, up), up, Next(Next(n, up), up));
    Then(m, steps + [up] + [up], Next(Next(n, up), up), up, Next(Next(Next(n, up), up), up));
    FailureIsCounted(n, err, now);
  }

  /** Run sleeps after one more attempt that failed with the text given. */
  function Missed(m: Machine, text: string): Machine
  {
    m.(tries := m.tries + 1, fails := m.fails + 1, run := Sleeping,
       f := m.f.(state := TunnelFields.Failed, lastError := text))
  }

  /** The steps of an attempt whose call k fails, to the sleep after it. */
  function FailingAttempt(k: nat, detail: string, now: int): seq<Step>
  {
    var up := Step.Run(Succeeds(now));
    Ups(Before(k), now) + [Step.Run(Fails(detail))] + (if k < 4 then [] else [up]) + [up] + [up] + [up]
  }

  lemma EarlyAttemptFails(m: Machine, k: nat, detail: string, now: int)
    requires AtTop(m) && k < 4
    ensures Leads(m, FailingAttempt(k, detail, now), Missed(m, Text(k) + detail))
  {
    var text, failed := Text(k) + detail, Ups(Before(k), now) + [Step.Run(Fails(detail))];
    Climbs(m, Before(k), now);
    EarlyCallFails(m, k, detail);
    Then(m, Ups(Before(k), now), Rung(m, Before(k)), Step.Run(Fails(detail)), Tried(m, OnceReturned(Some(text))));
    assert failed + [] == failed;
    FailureIsShown(m, failed, Tried(m, OnceReturned(Some(text))), text, now);
  }

  lemma LateAttemptFails(m: Machine, k: nat, detail: string, now: int)
    requires AtTop(m) && 4 <= k < 7
    ensures Leads(m, FailingAttempt(k, detail, now), Missed(m, Text(k) + detail).(closes := m.closes + [1]))
  {
    var up, text := Step.Run(Succeeds(now)), Text(k) + detail;
    var failed := Ups(Before(k), now) + [Step.Run(Fails(detail))];
    var left, closed := Made(m, Abandoning(|m.closes|, text)), Tried(m, OnceReturned(Some(text)));
    Climbs(m, Before(k), now);
    LateCallFails(m, k, detail);
    Then(m, Ups(Before(k), now), Rung(m, Before(k)), Step.Run(Fails(detail)), left);
    DeviceIsAbandoned(m, text, now);
    Then(m, failed, left, up, closed.(closes := m.closes + [1]));
    FailureIsShown(m, failed + [up], closed.(closes := m.closes + [1]), text, now);
  }

  /** An attempt whose call k fails, for each of the seven: it is counted as a try and as a failure, the tunnel shows an
      error that names the call, and a device that was already created has been closed. */
  lemma AttemptFails(m: Machine, k: nat, detail: string, now: int)
    requires AtTop(m) && k < 7
    ensures Leads(m, FailingAttempt(k, detail, now),
                  m.(tries := m.tries + 1, fails := m.fails + 1, run := Sleeping,
                     f := m.f.(state := TunnelFields.Failed, lastError := Text(k) + detail),
                     closes := if k < 4 then m.closes else m.closes + [1]))
  {
    if k < 4 { EarlyAttemptFails(m, k, detail, now); } else { LateAttemptFails(m, k, detail, now); }
  }

  /** The sleep ends by its timer or by the context, and a cancelled tunnel does not count its attempt as failed. */
  lemma SleepEnds(m: Machine, now: int, detail: string)
    ensures m.run.Sleeping? ==> Steps(m, [Step.Run(Succeeds(now))]) == m.(run := Top)
    ensures m.run.Sleeping? && m.cancelled ==> Steps(m, [Step.Run(Fails(detail))]) == m.(run := Returned)
    ensures m.run.Sleeping? && !m.cancelled ==> Steps(m, [Step.Run(Fails(detail))]) == m
    ensures (m.run.Top? || m.run.OnceReturned?) && m.cancelled ==>
      Steps(m, [Step.Run(Succeeds(now))]) == m.(run := Returned)
  {
    Extends(m, [], Step.Run(Succeeds(now)));
    Extends(m, [], Step.Run(Fails(detail)));
    assert [] + [Step.Run(Succeeds(now))] == [Step.Run(Succeeds(now))];
    assert [] + [Step.Run(Fails(detail))] == [Step.Run(Fails(detail))];
  }

  // ---------- the loops ----------

  /** A stats tick takes the reading and the time of IpcGet and judges it by the clock; if IpcGet fails, nothing
      changes. */
  lemma StatsRound(m: Machine, r: Reading, now: int, clock: int)
    requires m.stats.SWaiting? && Free(m)
    ensures Leads(m, [Step.Stats(Proceed)] + [Step.Stats(Got(r, now))] + [Step.Stats(At(clock))],
                  m.(f := StatsTick(m.f, r, now, clock)))
    ensures Leads(m, [Step.Stats(Proceed)] + [Step.Stats(Stop)], m)
  {
    var go, got, dev := Step.Stats(Proceed), Step.Stats(Got(r, now)), m.stats.dev;
    assert [] + [go] == [go];
    Then(m, [], m, go, m.(stats := SReading(dev)));
    Then(m, [go], m.(stats := SReading(dev)), Step.Stats(Stop), m);
    Then(m, [go], m.(stats := SReading(dev)), got, m.(stats := SUpdating(dev, r, now)));
    Then(m, [go] + [got], m.(stats := SUpdating(dev, r, now)), Step.Stats(At(clock)),
         m.(f := StatsTick(m.f, r, now, clock)));
  }

  /** The steps of a health tick. */
  function HealthTickSteps(ok: bool, status: string, clock: int): seq<Step>
  {
    [Step.Health(Proceed)] + [Step.Health(Proceed)] + [Step.Health(Probed(ok, status))]
    + (if ok then [] else [Step.Health(Proceed)]) + [Step.Health(Proceed)] + [Step.Health(At(clock))]
  }

  lemma ProbeIsCounted(m: Machine, ok: bool, status: string)
    requires m.health.HWaiting?
    ensures var go := Step.Health(Proceed);
      Leads(m, [go] + [go] + [Step.Health(Probed(ok, status))],
            m.(probes := m.probes + 1,
               health := if ok then HPinging(m.health.dev, true, status) else HCountingFail(m.health.dev, status)))
  {
    var go, dev := Step.Health(Proceed), m.health.dev;
    assert [] + [go] == [go];
    Then(m, [], m, go, m.(health := HCounting(dev)));
    Then(m, [go], m.(health := HCounting(dev)), go, m.(probes := m.probes + 1, health := HProbing(dev)));
    Then(m, [go] + [go], m.(probes := m.probes + 1, health := HProbing(dev)), Step.Health(Probed(ok, status)),
         m.(probes := m.probes + 1,
            health := if ok then HPinging(m.health.dev, true, status) else HCountingFail(m.health.dev, status)));
  }

  lemma ProbeIsShown(m: Machine, steps: seq<Step>, n: Machine, dev: nat, ok: bool, status: string, clock: int)
    requires Leads(m, steps, n) && n.health == HPinging(dev, ok, status) && Free(n)
    ensures Leads(m, steps + [Step.Health(Proceed)] + [Step.Health(At(clock))],
                  n.(f := HealthTick(n.f, ok, status, clock), health := HWaiting(dev)))
  {
    Then(m, steps, n, Step.Health(Proceed), n.(health := HUpdating(dev, ok, status)));
    Then(m, steps + [Step.Health(Proceed)], n.(health := HUpdating(dev, ok, status)), Step.Health(At(clock)),
         n.(f := HealthTick(n.f, ok, status, clock), health := HWaiting(dev)));
  }

  /** A health tick counts its probe, counts it again if it failed, and shows its answer. */
  lemma HealthRound(m: Machine, ok: bool, status: string, clock: int)
    requires m.health.HWaiting? && Free(m)
    ensures Leads(m, HealthTickSteps(ok, status, clock),
                  m.(f := HealthTick(m.f, ok, status, clock), probes := m.probes + 1,
                     probeFails := m.probeFails + (if ok then 0 else 1)))
  {
    var go, dev, n := Step.Health(Proceed), m.health.dev, m.(probes := m.probes + 1);
    var three := [go] + [go] + [Step.Health(Probed(ok, status))];
    ProbeIsCounted(m, ok, status);
    if ok {
      assert three + [] == three;
      ProbeIsShown(m, three, n.(health := HPinging(dev, true, status)), dev, ok, status, clock);
    } else {
      var failed := n.(probeFails := n.probeFails + 1, health := HPinging(dev, false, status));
      Then(m, three, n.(health := HCountingFail(dev, status)), go, failed);
      ProbeIsShown(m, three + [go], failed, dev, ok, status, clock);
    }
  }

  // ---------- a Snapshot ----------

  lemma OneLoad(m: Machine, steps: seq<Step>, n: Machine, id: nat, s: Snap)
    requires Leads(m, steps, n) && id in n.snaps && s == Load(n, n.snaps[id])
    ensures Leads(m, steps + [SnapLoad(id)], n.(snaps := n.snaps[id := s]))
  {
    Then(m, steps, n, SnapLoad(id), n.(snaps := n.snaps[id := s]));
  }

  /** A machine with the Snapshot id at s, added to those of m. */
  function With(m: Machine, id: nat, s: Snap): Machine { m.(snaps := m.snaps[id := s]) }

  lemma SnapshotLoads(m: Machine, id: nat)
    requires id !in m.snaps
    ensures var load := SnapLoad(id);
      Leads(m, [SnapBegin(id)] + [load] + [load] + [load] + [load],
            With(m, id, Snap4(m.probes, m.probeFails, m.tries, m.fails)))
  {
    var load, one := SnapLoad(id), [SnapBegin(id)];
    assert [] + one == one;
    Then(m, [], m, SnapBegin(id), With(m, id, Snap0));
    OneLoad(m, one, With(m, id, Snap0), id, Snap1(m.probes));
    assert With(m, id, Snap0).(snaps := With(m, id, Snap0).snaps[id := Snap1(m.probes)])
        == With(m, id, Snap1(m.probes));
    var two := Snap2(m.probes, m.probeFails);
    OneLoad(m, one + [load], With(m, id, Snap1(m.probes)), id, two);
    assert With(m, id, Snap1(m.probes)).(snaps := With(m, id, Snap1(m.probes)).snaps[id := two]) == With(m, id, two);
    var three := Snap3(m.probes, m.probeFails, m.tries);
    OneLoad(m, one + [load] + [load], With(m, id, two), id, three);
    assert With(m, id, two).(snaps := With(m, id, two).snaps[id := three]) == With(m, id, three);
    var four := Snap4(m.probes, m.probeFails, m.tries, m.fails);
    OneLoad(m, one + [load] + [load] + [load], With(m, id, three), id, four);
    assert With(m, id, three).(snaps := With(m, id, three).snaps[id := four]) == With(m, id, four);
  }

  /** A Snapshot during which nothing else happens reports the four counters and changes nothing. */
  lemma SnapshotRound(m: Machine, id: nat)
    requires id !in m.snaps
    ensures var load := SnapLoad(id);
      Leads(m, [SnapBegin(id)] + [load] + [load] + [load] + [load] + [SnapEnd(id)],
            m.(reports := m.reports + [Snap4(m.probes, m.probeFails, m.tries, m.fails)]))
  {
    var load, four := SnapLoad(id), Snap4(m.probes, m.probeFails, m.tries, m.fails);
    SnapshotLoads(m, id);
    assert With(m, id, four).snaps - {id} == m.snaps;
    Then(m, [SnapBegin(id)] + [load] + [load] + [load] + [load], With(m, id, four), SnapEnd(id),
         m.(reports := m.reports + [four]));
  }

  // ---------- a Snapshot among other steps ----------

  /** No counter of a is above that of b. */
  predicate NoLess(a: Machine, b: Machine)
  {
    a.probes <= b.probes && a.probeFails <= b.probeFails && a.tries <= b.tries && a.fails <= b.fails
  }

  lemma BringUpCounts(m: Machine, c: Choice)
    ensures NoLess(m, BringUpNext(m, c))
  {
  }

  lemma RunCounts(m: Machine, c: Choice)
    ensures NoLess(m, RunNext(m, c))
  {
    BringUpCounts(m, c);
  }

  lemma StepCounts(m: Machine, step: Step)
    ensures NoLess(m, Next(m, step))
  {
    match step
    case Run(c) => RunCounts(m, c);
    case _ =>
  }

  /** Each number that a Snapshot has loaded lies between the counter's values in a and in b. */
  predicate LoadedWithin(s: Snap, a: Machine, b: Machine)
  {
    && (!s.Snap0? ==> a.probes <= s.probes <= b.probes)
    && (!s.Snap0? && !s.Snap1? ==> a.probeFails <= s.probeFails <= b.probeFails)
    && (s.Snap3? || s.Snap4? ==> a.tries <= s.tries <= b.tries)
    && (s.Snap4? ==> a.fails <= s.fails <= b.fails)
  }

  /** The Snapshot holds the lock and has loaded what the counters were since a. */
  predicate ReadsSince(a: Machine, n: Machine, id: nat)
  {
    NoLess(a, n) && id in n.snaps && LoadedWithin(n.snaps[id], a, n)
  }

  lemma RunLeavesReaders(m: Machine, c: Choice)
    ensures RunNext(m, c).snaps == m.snaps
  {
    RunKeepsReaders(m, c);
  }

  lemma StepReads(a: Machine, n: Machine, id: nat, step: Step)
    requires ReadsSince(a, n, id) && step != SnapEnd(id)
    ensures ReadsSince(a, Next(n, step), id)
  {
    StepCounts(n, step);
    match step
    case Run(c) => RunLeavesReaders(n, c);
    case _ =>
  }

  /** Whatever happens while a Snapshot holds the read lock, each number that it loads is one that the counter had
      between its beginning and now. */
  lemma {:induction false} SnapshotWithin(m: Machine, id: nat, more: seq<Step>)
    requires id in m.snaps && m.snaps[id] == Snap0 && SnapEnd(id) !in more
    ensures ReadsSince(m, Steps(m, more), id)
    decreases |more|
  {
    if more == [] {
    } else {
      SnapshotWithin(m, id, more[..|more| - 1]);
      StepReads(m, Steps(m, more[..|more| - 1]), id, more[|more| - 1]);
    }
  }

  /** A loop has ended only if the context has. */
  predicate LoopsLast(m: Machine) { m.stats.SEnded? || m.health.HEnded? ==> m.cancelled }

  lemma BringUpLeavesLoops(m: Machine, c: Choice)
    ensures var n := BringUpNext(m, c); n.stats == m.stats && n.health == m.health && n.cancelled == m.cancelled
  {
  }

  lemma RunStepLasts(m: Machine, c: Choice)
    requires LoopsLast(m)
    ensures LoopsLast(RunNext(m, c))
  {
    BringUpLeavesLoops(m, c);
  }

  lemma StepLasts(m: Machine, step: Step)
    requires LoopsLast(m)
    ensures LoopsLast(Next(m, step))
  {
    match step
    case Run(c) => RunStepLasts(m, c);
    case _ =>
  }

  /** Both loops of a session run until the context ends. */
  lemma {:induction false} LoopsRunUntilCancelled(steps: seq<Step>)
    ensures LoopsLast(Steps(INIT, steps))
    decreases |steps|
  {
    if steps == [] {
    } else {
      LoopsRunUntilCancelled(steps[..|steps| - 1]);
      StepLasts(Steps(INIT, steps[..|steps| - 1]), steps[|steps| - 1]);
    }
  }

  // ---------- the end of a session ----------

  /** Both loops see the cancellation and end. */
  lemma LoopsStop(m: Machine)
    requires m.cancelled && m.stats.SWaiting? && m.health.HWaiting?
    ensures Leads(m, [Step.Stats(Stop)] + [Step.Health(Stop)], m.(stats := SEnded, health := HEnded))
  {
    assert [] + [Step.Stats(Stop)] == [Step.Stats(Stop)];
    Then(m, [], m, Step.Stats(Stop), m.(stats := SEnded));
    Then(m, [Step.Stats(Stop)], m.(stats := SEnded), Step.Health(Stop), m.(stats := SEnded, health := HEnded));
  }

  /** A cancelled session: the netstack, the device and the session are no longer shown, the device is closed once more,
      the tunnel is Idle with the text it had, no failure is counted, and Run returns. */
  lemma SessionEnds(m: Machine, dev: nat, now: int)
    requires m.run == Waiting(dev) && m.cancelled && m.stats == SEnded && m.health == HEnded && Free(m)
    requires Running(m.f.state) && dev < |m.closes|
    ensures Leads(m, Ups(5, now), m.(f := m.f.(netNet := None, device := None, session := None, state := Idle),
                                     closes := m.closes[dev := m.closes[dev] + 1], run := Returned))
  {
    var up := Step.Run(Succeeds(now));
    var torn := m.(f := m.f.(netNet := None, device := None, session := None, state := Idle));
    var shut := torn.(closes := m.closes[dev := m.closes[dev] + 1]);
    Then(m, Ups(0, now), m, up, m.(run := Joining(dev)));
    Then(m, Ups(1, now), m.(run := Joining(dev)), up, m.(run := TearingDown(dev)));
    Then(m, Ups(2, now), m.(run := TearingDown(dev)), up, torn.(run := ClosingDevice(dev)));
    Then(m, Ups(3, now), torn.(run := ClosingDevice(dev)), up, shut.(run := OnceReturned(Some("context canceled"))));
    Then(m, Ups(4, now), shut.(run := OnceReturned(Some("context canceled"))), up, shut.(run := Returned));
  }

  /** The critical sections of Run: setState, the stamp of addKey, the publication, the teardown and setError. */
  predicate InSection(pc: RunPC)
  {
    || pc.SettingConnecting? || pc.StampingAddKey? || pc.Publishing? || pc.TearingDown?
    || (pc.SettingError? && pc.err.Some?)
  }

  lemma BringUpWaits(m: Machine, c: Choice)
    requires !Free(m)
    ensures BringUpNext(m, c).f == m.f && (m.run.SettingConnecting? || m.run.StampingAddKey? || m.run.Publishing? ==>
                                            BringUpNext(m, c) == m)
  {
  }

  lemma RunWaits(m: Machine, c: Choice)
    requires !Free(m)
    ensures RunNext(m, c).f == m.f && (InSection(m.run) ==> RunNext(m, c) == m)
  {
    BringUpWaits(m, c);
  }

  /** While a Snapshot holds the read lock no step changes the fields, and Run does not get past a critical section. */
  lemma LockExcludes(m: Machine, step: Step)
    requires !Free(m)
    ensures Next(m, step).f == m.f
    ensures step.Run? && InSection(m.run) ==> Next(m, step) == m
  {
    match step
    case Run(c) => RunWaits(m, c);
    case _ =>
  }

  lemma ReaderStays(m: Machine, id: nat, step: Step)
    requires id in m.snaps && step != SnapEnd(id)
    ensures id in Next(m, step).snaps
  {
    match step
    case Run(c) => RunLeavesReaders(m, c);
    case _ =>
  }

  /** A Snapshot sees one state of the tunnel: from its beginning to its end the fields stay as they are. */
  lemma {:induction false} FieldsHoldStill(m: Machine, id: nat, more: seq<Step>)
    requires id in m.snaps && SnapEnd(id) !in more
    ensures Steps(m, more).f == m.f && id in Steps(m, more).snaps
    decreases |more|
  {
    if more == [] {
    } else {
      var n := Steps(m, more[..|more| - 1]);
      FieldsHoldStill(m, id, more[..|more| - 1]);
      LockExcludes(n, more[|more| - 1]);
      ReaderStays(n, id, more[|more| - 1]);
    }
  }

  // ---------- what the counters count ----------

  /** How many steps of a run are of a kind, each judged in the state in which it was taken. */
  function Count(steps: seq<Step>, kind: (Machine, Step) -> bool): nat
    decreases |steps|
  {
    if steps == [] then 0
    else
      var before := steps[..|steps| - 1];
      Count(before, kind) + (if kind(Steps(INIT, before), steps[|steps| - 1]) then 1 else 0)
  }

  /** The dial of a probe is answered. */
  predicate Answered(m: Machine, step: Step) { m.health.HProbing? && step.Health? && step.event.Probed? }

  /** The dial of a probe fails. */
  predicate Refused(m: Machine, step: Step) { Answered(m, step) && !step.event.ok }

  /** An attempt is over and Run begins to sleep. */
  predicate Rests(m: Machine, step: Step) { !m.run.Sleeping? && Next(m, step).run.Sleeping? }

  /** The counters, given what has happened so far. */
  predicate Counts(m: Machine, answers: nat, refusals: nat, rests: nat)
  {
    && m.probes == answers + (if m.health.HProbing? then 1 else 0)
    && refusals == m.probeFails + (if m.health.HCountingFail? then 1 else 0)
    && m.fails == rests + (if m.run.SettingError? then 1 else 0)
  }

  lemma BringUpCountsNoProbe(m: Machine, c: Choice)
    ensures var n := BringUpNext(m, c); n.probes == m.probes && n.probeFails == m.probeFails && n.health == m.health
  {
  }

  lemma BringUpCountsNoFailure(m: Machine, c: Choice)
    requires !m.run.SettingError? && !m.run.Sleeping?
    ensures var n := BringUpNext(m, c); n.fails == m.fails && !n.run.SettingError? && !n.run.Sleeping?
  {
  }

  lemma RunCountsFailures(m: Machine, c: Choice)
    ensures var n := RunNext(m, c);
      n.fails == m.fails + (if n.run.SettingError? then 1 else 0) - (if m.run.SettingError? then 1 else 0)
                 + (if Rests(m, Step.Run(c)) then 1 else 0)
  {
    if !m.run.AddingFail? && !m.run.SettingError? && !m.run.Sleeping? { BringUpCountsNoFailure(m, c); }
  }

  lemma RunStepCounts(m: Machine, c: Choice, answers: nat, refusals: nat, rests: nat)
    requires LoopsInv(m) && Counts(m, answers, refusals, rests)
    ensures Counts(RunNext(m, c), answers, refusals, rests + (if Rests(m, Step.Run(c)) then 1 else 0))
  {
    RunCountsFailures(m, c);
    BringUpCountsNoProbe(m, c);
  }

  lemma HealthStepCounts(m: Machine, e: LoopEvent, answers: nat, refusals: nat, rests: nat)
    requires Counts(m, answers, refusals, rests)
    ensures var step := Step.Health(e);
      Counts(HealthNext(m, e), answers + (if Answered(m, step) then 1 else 0),
             refusals + (if Refused(m, step) then 1 else 0), rests)
  {
  }

  lemma OtherStepsCount(m: Machine, step: Step, answers: nat, refusals: nat, rests: nat)
    requires Counts(m, answers, refusals, rests) && !step.Run? && !step.Health?
    ensures Counts(Next(m, step), answers, refusals, rests)
  {
  }

  lemma CountsByStep(m: Machine, step: Step, answers: nat, refusals: nat, rests: nat)
    requires LoopsInv(m) && Counts(m, answers, refusals, rests)
    ensures Counts(Next(m, step), answers + (if Answered(m, step) then 1 else 0),
                   refusals + (if Refused(m, step) then 1 else 0), rests + (if Rests(m, step) then 1 else 0))
  {
    if step.Run? {
      RunStepCounts(m, step.choice, answers, refusals, rests);
    } else if step.Health? {
      HealthStepCounts(m, step.event, answers, refusals, rests);
    } else {
      OtherStepsCount(m, step, answers, refusals, rests);
    }
  }

  /** A probe is counted for every answer of its dial and for the one that is out, a failed probe for every refusal that
      the loop has noted, and a failed attempt for every time that Run went to sleep or is about to. */
  lemma {:induction false} CountersCount(steps: seq<Step>)
    ensures Counts(Steps(INIT, steps), Count(steps, Answered), Count(steps, Refused), Count(steps, Rests))
    decreases |steps|
  {
    if steps == [] {
    } else {
      var before := steps[..|steps| - 1];
      CountersCount(before);
      StepsKeepInv(INIT, before);
      CountsByStep(Steps(INIT, before), steps[|steps| - 1],
                   Count(before, Answered), Count(before, Refused), Count(before, Rests));
    }
  }

  // ---------- a cancelled tunnel returns ----------

  /** The loads and the end that are left of a Snapshot. */
  function Left(s: Snap): nat
  {
    match s
    case Snap0 => 5
    case Snap1(_) => 4
    case Snap2(_, _) => 3
    case Snap3(_, _, _) => 2
    case Snap4(_, _, _, _) => 1
  }

  /** The same machine but for the Snapshots. */
  predicate ButForSnaps(m: Machine, n: Machine) { n == m.(snaps := n.snaps, reports := n.reports) }

  /** A Snapshot can be finished without anything else. */
  lemma {:induction false} OneSnapshotEnds(m: Machine, steps: seq<Step>, id: nat) returns (longer: seq<Step>)
    requires id in Steps(m, steps).snaps
    ensures ButForSnaps(Steps(m, steps), Steps(m, longer)) && Steps(m, longer).snaps == Steps(m, steps).snaps - {id}
    decreases Left(Steps(m, steps).snaps[id])
  {
    var n := Steps(m, steps);
    if n.snaps[id].Snap4? {
      longer := steps + [SnapEnd(id)];
      Extends(m, steps, SnapEnd(id));
    } else {
      Extends(m, steps, SnapLoad(id));
      longer := OneSnapshotEnds(m, steps + [SnapLoad(id)], id);
      assert n.snaps[id := Load(n, n.snaps[id])] - {id} == n.snaps - {id};
    }
  }

  lemma {:induction false} SnapshotsEnd(m: Machine, steps: seq<Step>) returns (longer: seq<Step>)
    ensures ButForSnaps(Steps(m, steps), Steps(m, longer)) && Free(Steps(m, longer))
    decreases |Steps(m, steps).snaps|
  {
    longer := steps;
    if !Free(Steps(m, steps)) {
      var id :| id in Steps(m, steps).snaps;
      longer := OneSnapshotEnds(m, steps, id);
      assert Steps(m, longer).snaps.Keys == Steps(m, steps).snaps.Keys - {id};
      assert |Steps(m, longer).snaps.Keys| < |Steps(m, steps).snaps.Keys|;
      longer := SnapshotsEnd(m, longer);
    }
  }

  /** The steps of Run that are left once the context has ended. */
  function RunLeft(pc: RunPC): nat
  {
    match pc
    case Returned => 0
    case Top => 1
    case OnceReturned(_) => 1
    case Sleeping => 1
    case AddingTry => 4
    case SettingConnecting => 3
    case StampingAddKey => 3
    case Configuring(_, _) => 3
    case Publishing(_) => 7
    case StartingLoops(_) => 6
    case Waiting(_) => 5
    case Joining(_) => 4
    case TearingDown(_) => 3
    case AddingFail(_) => 3
    case _ => 2
  }

  function StatsLeft(pc: StatsPC): nat { if pc.SNone? || pc.SEnded? then 0 else if pc.SWaiting? then 1 else 2 }

  function HealthLeft(pc: HealthPC): nat
  {
    match pc
    case HNone => 0
    case HEnded => 0
    case HWaiting(_) => 1
    case HUpdating(_, _, _) => 2
    case HPinging(_, _, _) => 3
    case HCountingFail(_, _) => 4
    case HProbing(_) => 5
    case HCounting(_) => 6
  }

  function AllLeft(m: Machine): nat { 10 * RunLeft(m.run) + StatsLeft(m.stats) + HealthLeft(m.health) }

  /** A step towards the return: every call fails and every loop looks at its context. */
  function Towards(m: Machine): Step
  {
    if m.run.Joining? && m.stats != SEnded then
      (if m.stats.SUpdating? then Step.Stats(At(0)) else Step.Stats(Stop))
    else if m.run.Joining? && m.health != HEnded then
      (if m.health.HWaiting? then Step.Health(Stop)
       else if m.health.HProbing? then Step.Health(Probed(true, ""))
       else if m.health.HUpdating? then Step.Health(At(0))
       else Step.Health(Proceed))
    else if m.run.FindingRegion? || m.run.Registering? || m.run.CheckingPeer? || m.run.Building?
         || m.run.Configuring? || m.run.Sleeping? then Step.Run(Fails(""))
    else Step.Run(Succeeds(0))
  }

  predicate CanMove(m: Machine) { LoopsInv(m) && m.cancelled && Free(m) && !m.run.Returned? }

  lemma LoopComesCloser(m: Machine)
    requires CanMove(m) && m.run.Joining? && !(m.stats == SEnded && m.health == HEnded)
    ensures var n := Next(m, Towards(m)); AllLeft(n) < AllLeft(m) && n.cancelled && Free(n)
  {
  }

  lemma BringUpComesCloser(m: Machine)
    requires CanMove(m) && !Between(m.run) && !Published(m.run) && !m.run.ClosingDevice?
    ensures var n := Next(m, Towards(m)); AllLeft(n) < AllLeft(m) && n.cancelled && Free(n)
  {
    InnerIsBringUp(m, Towards(m).choice);
  }

  lemma RunComesCloser(m: Machine)
    requires CanMove(m) && (Between(m.run) || Published(m.run) || m.run.ClosingDevice?)
    requires m.run.Joining? ==> m.stats == SEnded && m.health == HEnded
    ensures var n := Next(m, Towards(m)); AllLeft(n) < AllLeft(m) && n.cancelled && Free(n)
  {
  }

  lemma ComesCloser(m: Machine)
    requires CanMove(m)
    ensures var n := Next(m, Towards(m)); AllLeft(n) < AllLeft(m) && n.cancelled && Free(n)
  {
    if m.run.Joining? && !(m.stats == SEnded && m.health == HEnded) {
      LoopComesCloser(m);
    } else if Between(m.run) || Published(m.run) || m.run.ClosingDevice? {
      RunComesCloser(m);
    } else {
      BringUpComesCloser(m);
    }
  }

  lemma {:induction false} FreeTunnelReturns(m: Machine, steps: seq<Step>) returns (longer: seq<Step>)
    requires Inv(m) && Steps(m, steps).cancelled && Free(Steps(m, steps))
    ensures Steps(m, longer).run.Returned?
    decreases AllLeft(Steps(m, steps))
  {
    var n := Steps(m, steps);
    if n.run.Returned? {
      longer := steps;
    } else {
      StepsKeepInv(m, steps);
      ComesCloser(n);
      Extends(m, steps, Towards(n));
      longer := FreeTunnelReturns(m, steps + [Towards(n)]);
    }
  }

  /** From every reachable state, whatever is under way, a cancelled tunnel can come to return. */
  lemma CancelledTunnelCanReturn(steps: seq<Step>) returns (longer: seq<Step>)
    ensures Steps(Steps(INIT, steps + [Cancel]), longer).run.Returned?
  {
    var m := Steps(INIT, steps + [Cancel]);
    Extends(INIT, steps, Cancel);
    StepsKeepInv(INIT, steps + [Cancel]);
    longer := SnapshotsEnd(m, []);
    longer := FreeTunnelReturns(m, longer);
  }
}
