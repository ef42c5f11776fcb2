/**
 The whole tunnel of tunnel.go as interleaved atomic steps: Run and runOnce, the stats loop, the health
 loop, any number of concurrent Snapshots, and the cancellation of the context.  A critical section
 under the write lock is one step, enabled only while no Snapshot holds the read lock; an atomic
 counter operation is one step and needs no lock.
 */
module TunnelMachine {
  import opened Prelude
  import opened TunnelFields

  datatype RunPC =
    | Top                                            // the loop head, before ctx.Err()
    | AddingTry
    | SettingConnecting
    | FindingRegion
    | Registering
    | StampingAddKey
    | CheckingPeer
    | Building
    | Configuring(dev: nat, stage: nat)              // IPCConfig, IpcSet, Up
    | Abandoning(dev: nat, msg: string)              // closing the device of a failed bring-up
    | Publishing(dev: nat)
    | StartingLoops(dev: nat)
    | Waiting(dev: nat)                              // for the context to end
    | Joining(dev: nat)                              // for both loops to end
    | TearingDown(dev: nat)
    | ClosingDevice(dev: nat)
    | OnceReturned(err: Option<string>)
    | AddingFail(err: Option<string>)
    | SettingError(err: Option<string>)
    | Sleeping
    | Returned

  /** The stats loop, with the device that it was given. */
  datatype StatsPC =
    | SNone | SWaiting(dev: nat) | SReading(dev: nat) | SUpdating(dev: nat, r: Reading, now: int) | SEnded

  /** The health loop, with the device whose netstack it was given. */
  datatype HealthPC =
    | HNone | HWaiting(dev: nat) | HCounting(dev: nat) | HProbing(dev: nat) | HCountingFail(dev: nat, status: string)
    | HPinging(dev: nat, ok: bool, status: string) | HUpdating(dev: nat, ok: bool, status: string) | HEnded

  /** The counters that a Snapshot has loaded so far, in the order in which it loads them. */
  datatype Snap =
    | Snap0
    | Snap1(probes: nat)
    | Snap2(probes: nat, probeFails: nat)
    | Snap3(probes: nat, probeFails: nat, tries: nat)
    | Snap4(probes: nat, probeFails: nat, tries: nat, fails: nat)

  datatype Machine = Machine(
    f: Fields,
    cancelled: bool,
    run: RunPC, stats: StatsPC, health: HealthPC,
    closes: seq<nat>,              // how often each device created so far has been closed
    tries: nat, fails: nat, probes: nat, probeFails: nat,
    snaps: map<nat, Snap>,         // the Snapshots that hold the read lock
    reports: seq<Snap>)            // the counters of every Snapshot that has returned

  const INIT := Machine(FRESH, false, Top, SNone, HNone, [], 0, 0, 0, 0, map[], [])

  /** What the environment decides about a step of Run. */
  datatype Choice = Succeeds(now: int) | Fails(detail: string)

  datatype LoopEvent = Stop | Proceed | Got(r: Reading, now: int) | Probed(ok: bool, status: string) | At(clock: int)

  datatype Step =
    | Cancel
    | Run(choice: Choice)
    | Stats(event: LoopEvent)
    | Health(event: LoopEvent)
    | SnapBegin(id: nat)
    | SnapLoad(id: nat)
    | SnapEnd(id: nat)

  /** Whether the write lock is available. */
  predicate Free(m: Machine) { m.snaps == map[] }

  function Prefix(stage: nat): string
  {
    if stage == 0 then "build ipc config: " else if stage == 1 then "ipc set: " else "wg up: "
  }

  function CloseDevice(m: Machine, dev: nat): Machine
  {
    if dev < |m.closes| then m.(closes := m.closes[dev := m.closes[dev] + 1]) else m
  }

  function BringUpNext(m: Machine, c: Choice): Machine
  {
    match m.run
    case AddingTry => m.(tries := m.tries + 1, run := SettingConnecting)
    case SettingConnecting =>
      if Free(m) then m.(f := SetState(m.f, Connecting, ""), run := FindingRegion) else m
    case FindingRegion =>
      if c.Succeeds? then m.(run := Registering) else m.(run := OnceReturned(Some("region lookup: " + c.detail)))
    case Registering =>
      if c.Succeeds? then m.(run := StampingAddKey) else m.(run := OnceReturned(Some("addKey: " + c.detail)))
    case StampingAddKey => if Free(m) then m.(run := CheckingPeer) else m
    case CheckingPeer =>
      if c.Succeeds? then m.(run := Building) else m.(run := OnceReturned(Some("invalid peer IP " + c.detail)))
    case Building =>
      if c.Succeeds? then m.(run := Configuring(|m.closes|, 0), closes := m.closes + [0])
      else m.(run := OnceReturned(Some("create netstack tun: " + c.detail)))
    case Configuring(dev, stage) =>
      if c.Fails? then m.(run := Abandoning(dev, Prefix(stage) + c.detail))
      else if stage < 2 then m.(run := Configuring(dev, stage + 1))
      else m.(run := Publishing(dev))
    case Abandoning(dev, msg) => CloseDevice(m, dev).(run := OnceReturned(Some(msg)))
    case Publishing(dev) =>
      if Free(m) && c.Succeeds? then m.(f := TunnelFields.Publish(dev, c.now), run := StartingLoops(dev)) else m
    case _ => m
  }

  function RunNext(m: Machine, c: Choice): Machine
  {
    match m.run
    case Top => m.(run := if m.cancelled then Returned else AddingTry)
    case StartingLoops(dev) => m.(run := Waiting(dev), stats := SWaiting(dev), health := HWaiting(dev))
    case Waiting(dev) => if m.cancelled then m.(run := Joining(dev)) else m
    case Joining(dev) => if m.stats == SEnded && m.health == HEnded then m.(run := TearingDown(dev)) else m
    case TearingDown(dev) =>
      if Free(m) then m.(f := Teardown(m.f, m.cancelled), run := ClosingDevice(dev)) else m
    case ClosingDevice(dev) =>
      CloseDevice(m, dev).(run := OnceReturned(if m.cancelled then Some("context canceled") else None))
    case OnceReturned(err) => m.(run := if m.cancelled then Returned else AddingFail(err))
    case AddingFail(err) => m.(fails := m.fails + 1, run := SettingError(err))
    case SettingError(err) =>
      if err.None? || Free(m) then m.(f := SetError(m.f, err), run := Sleeping) else m
    case Sleeping => if c.Succeeds? then m.(run := Top) else if m.cancelled then m.(run := Returned) else m
    case Returned => m
    case _ => BringUpNext(m, c)
  }

  function StatsNext(m: Machine, e: LoopEvent): Machine
  {
    match (m.stats, e)
    case (SWaiting(_), Stop) => if m.cancelled then m.(stats := SEnded) else m
    case (SWaiting(dev), Proceed) => m.(stats := SReading(dev))
    case (SReading(dev), Got(r, now)) => m.(stats := SUpdating(dev, r, now))
    case (SReading(dev), Stop) => m.(stats := SWaiting(dev))
    case (SUpdating(dev, r, now), At(clock)) =>
      if Free(m) then m.(f := StatsTick(m.f, r, now, clock), stats := SWaiting(dev)) else m
    case _ => m
  }

  function HealthNext(m: Machine, e: LoopEvent): Machine
  {
    match (m.health, e)
    case (HWaiting(_), Stop) => if m.cancelled then m.(health := HEnded) else m
    case (HWaiting(dev), Proceed) => m.(health := HCounting(dev))
    case (HCounting(dev), Proceed) => m.(probes := m.probes + 1, health := HProbing(dev))
    case (HProbing(dev), Probed(ok, status)) =>
      m.(health := if ok then HPinging(dev, true, status) else HCountingFail(dev, status))
    case (HCountingFail(dev, status), Proceed) =>
      m.(probeFails := m.probeFails + 1, health := HPinging(dev, false, status))
    case (HPinging(dev, ok, status), Proceed) => m.(health := HUpdating(dev, ok, status))
    case (HUpdating(dev, ok, status), At(clock)) =>
      if Free(m) then m.(f := HealthTick(m.f, ok, status, clock), health := HWaiting(dev)) else m
    case _ => m
  }

  function Load(m: Machine, s: Snap): Snap
  {
    match s
    case Snap0 => Snap1(m.probes)
    case Snap1(p) => Snap2(p, m.probeFails)
    case Snap2(p, pf) => Snap3(p, pf, m.tries)
    case Snap3(p, pf, t) => Snap4(p, pf, t, m.fails)
    case Snap4(_, _, _, _) => s
  }

  function Next(m: Machine, step: Step): Machine
  {
    match step
    case Cancel => m.(cancelled := true)
    case Run(c) => RunNext(m, c)
    case Stats(e) => StatsNext(m, e)
    case Health(e) => HealthNext(m, e)
    case SnapBegin(id) => if id in m.snaps then m else m.(snaps := m.snaps[id := Snap0])
    case SnapLoad(id) => if id in m.snaps then m.(snaps := m.snaps[id := Load(m, m.snaps[id])]) else m
    case SnapEnd(id) =>
      if id in m.snaps && m.snaps[id].Snap4?
      then m.(reports := m.reports + [m.snaps[id]], snaps := m.snaps - {id}) else m
  }

  function Steps(m: Machine, steps: seq<Step>): Machine
    decreases |steps|
  {
    if steps == [] then m else Next(Steps(m, steps[..|steps| - 1]), steps[|steps| - 1])
  }

  // ---------- the invariant ----------

  /** The steps of runOnce before a session is published. */
  predicate BringingUp(pc: RunPC)
  {
    pc.FindingRegion? || pc.Registering? || pc.StampingAddKey? || pc.CheckingPeer? || pc.Building?
    || pc.Configuring? || pc.Abandoning? || pc.Publishing?
  }

  /** While a session is published. */
  predicate Published(pc: RunPC) { pc.StartingLoops? || pc.Waiting? || pc.Joining? || pc.TearingDown? }

  /** The device that exists and has not been closed. */
  function OpenDevice(pc: RunPC): Option<nat>
  {
    match pc
    case Configuring(dev, _) => Some(dev)
    case Abandoning(dev, _) => Some(dev)
    case Publishing(dev) => Some(dev)
    case StartingLoops(dev) => Some(dev)
    case Waiting(dev) => Some(dev)
    case Joining(dev) => Some(dev)
    case TearingDown(dev) => Some(dev)
    case ClosingDevice(dev) => Some(dev)
    case _ => None
  }

  predicate ResourcesInv(m: Machine)
  {
    var held := if Published(m.run) then OpenDevice(m.run) else None;
    m.f.session == held && m.f.device == held && m.f.netNet == held
  }

  predicate StateInv(m: Machine)
  {
    && (BringingUp(m.run) || Published(m.run) || m.run.SettingConnecting? ==> m.tries > 0)
    && (m.run.Top? || m.run.AddingTry? || m.run.SettingConnecting? ==> m.f.state in {Idle, TunnelFields.Failed})
    && (BringingUp(m.run) || m.run.AddingFail? || m.run.SettingError? ==> m.f.state == Connecting)
    && (Published(m.run) ==> Explained(m.f))
    && (m.run.ClosingDevice? ==> m.f.state == Idle)
    && (m.run.OnceReturned? ==> m.f.state == Connecting || (m.f.state == Idle && m.cancelled))
    && (m.run.Sleeping? ==> m.f.state == TunnelFields.Failed)
    && (m.run.Returned? ==> m.f.state in {Idle, Connecting, TunnelFields.Failed})
    && (m.f.state == TunnelFields.Failed ==> m.f.lastError != "")
    && (m.tries == 0 ==> m.f.state == Idle)
  }

  predicate ErrorsInv(m: Machine)
  {
    && (m.run.Abandoning? ==> m.run.msg != "")
    && (m.run.OnceReturned? || m.run.AddingFail? || m.run.SettingError? ==> m.run.err.Some? && m.run.err.value != "")
    && (m.run.Joining? || m.run.TearingDown? || m.run.ClosingDevice? || m.run.Returned? ==> m.cancelled)
  }

  /** The loop works on the device given. */
  predicate StatsOn(s: StatsPC, dev: nat) { s != SNone && (s != SEnded ==> s.dev == dev) }

  predicate HealthOn(h: HealthPC, dev: nat) { h != HNone && (h != HEnded ==> h.dev == dev) }

  predicate LoopsInv(m: Machine)
  {
    if m.run.Waiting? || m.run.Joining? then StatsOn(m.stats, m.run.dev) && HealthOn(m.health, m.run.dev)
    else if m.run.TearingDown? || m.run.ClosingDevice? then m.stats == SEnded && m.health == HEnded
    else if m.run.OnceReturned? || m.run.Returned?
    then (m.stats == SNone && m.health == HNone) || (m.cancelled && m.stats == SEnded && m.health == HEnded)
    else m.stats == SNone && m.health == HNone
  }

  predicate DevicesInv(m: Machine)
  {
    && (OpenDevice(m.run).Some? ==> OpenDevice(m.run).value < |m.closes|)
    && forall d :: 0 <= d < |m.closes| ==> m.closes[d] == if OpenDevice(m.run) == Some(d) then 0 else 1
  }

  /** An attempt that has been counted and has neither failed nor been given up. */
  predicate Trying(pc: RunPC)
  {
    pc.SettingConnecting? || BringingUp(pc) || Published(pc) || pc.ClosingDevice? || pc.OnceReturned? || pc.AddingFail?
  }

  predicate Probing(h: HealthPC) { h.HProbing? || h.HCountingFail? }

  predicate CountersInv(m: Machine)
  {
    && (Trying(m.run) ==> m.tries == m.fails + 1)
    && (!Trying(m.run) && !m.run.Returned? ==> m.tries == m.fails)
    && (m.run.Returned? ==> m.fails <= m.tries <= m.fails + 1)
    && m.probeFails + (if Probing(m.health) then 1 else 0) <= m.probes
  }

  /** While the read lock is held, at most one probe can start and at most one attempt can end. */
  predicate SnapInv(m: Machine, s: Snap)
  {
    && (s.Snap1? ==>
          m.probes == s.probes
          || (m.probes == s.probes + 1 && (Probing(m.health) || m.health.HPinging? || m.health.HUpdating?)))
    && (!s.Snap0? && !s.Snap1? ==> s.probeFails <= s.probes + 1)
    && (s.Snap3? ==> s.tries == m.fails + 1 || (s.tries == m.fails && (m.run.SettingConnecting? || !Trying(m.run))))
    && (s.Snap4? ==> s.fails <= s.tries <= s.fails + 1)
  }

  predicate ReportOK(s: Snap)
  {
    s.Snap4? && s.fails <= s.tries <= s.fails + 1 && s.probeFails <= s.probes + 1
  }

  predicate SnapsInv(m: Machine)
  {
    && (forall id :: id in m.snaps ==> SnapInv(m, m.snaps[id]))
    && (forall i :: 0 <= i < |m.reports| ==> ReportOK(m.reports[i]))
  }

  predicate Inv(m: Machine)
  {
    ResourcesInv(m) && StateInv(m) && ErrorsInv(m) && LoopsInv(m) && DevicesInv(m) && CountersInv(m) && SnapsInv(m)
  }

  lemma BringUpKeepsDevices(m: Machine, c: Choice)
    requires DevicesInv(m) && ErrorsInv(m)
    ensures DevicesInv(BringUpNext(m, c)) && ErrorsInv(BringUpNext(m, c))
  {
  }

  /** The steps of a bring-up that change what a Snapshot shows. */
  predicate ShowsMore(pc: RunPC) { pc.AddingTry? || pc.SettingConnecting? || pc.Publishing? }

  lemma ShowingKeepsState(m: Machine, c: Choice)
    requires StateInv(m) && ShowsMore(m.run)
    ensures StateInv(BringUpNext(m, c))
  {
  }

  lemma CallKeepsState(m: Machine, c: Choice)
    requires StateInv(m) && !ShowsMore(m.run)
    ensures StateInv(BringUpNext(m, c))
  {
  }

  lemma BringUpKeepsState(m: Machine, c: Choice)
    requires StateInv(m)
    ensures StateInv(BringUpNext(m, c))
  {
    if ShowsMore(m.run) { ShowingKeepsState(m, c); } else { CallKeepsState(m, c); }
  }

  lemma BringUpKeepsResources(m: Machine, c: Choice)
    requires ResourcesInv(m) && LoopsInv(m)
    ensures ResourcesInv(BringUpNext(m, c)) && LoopsInv(BringUpNext(m, c))
  {
  }

  lemma RunKeepsDevices(m: Machine, c: Choice)
    requires DevicesInv(m) && ErrorsInv(m)
    ensures DevicesInv(RunNext(m, c)) && ErrorsInv(RunNext(m, c))
  {
    BringUpKeepsDevices(m, c);
  }

  /** The steps of Run between two attempts. */
  predicate Between(pc: RunPC)
  {
    pc.Top? || pc.OnceReturned? || pc.AddingFail? || pc.SettingError? || pc.Sleeping? || pc.Returned?
  }

  lemma BetweenKeepsState(m: Machine, c: Choice)
    requires Between(m.run) && StateInv(m) && ErrorsInv(m)
    ensures StateInv(RunNext(m, c))
  {
  }

  lemma SessionKeepsState(m: Machine, c: Choice)
    requires (Published(m.run) || m.run.ClosingDevice?) && StateInv(m) && ErrorsInv(m)
    ensures StateInv(RunNext(m, c))
  {
  }

  lemma InnerIsBringUp(m: Machine, c: Choice)
    requires !Between(m.run) && !Published(m.run) && !m.run.ClosingDevice?
    ensures RunNext(m, c) == BringUpNext(m, c)
  {
  }

  lemma RunKeepsState(m: Machine, c: Choice)
    requires StateInv(m) && ErrorsInv(m)
    ensures StateInv(RunNext(m, c))
  {
    if Between(m.run) {
      BetweenKeepsState(m, c);
    } else if Published(m.run) || m.run.ClosingDevice? {
      SessionKeepsState(m, c);
    } else {
      InnerIsBringUp(m, c);
      BringUpKeepsState(m, c);
    }
  }

  lemma RunKeepsResources(m: Machine, c: Choice)
    requires ResourcesInv(m) && StateInv(m) && LoopsInv(m)
    ensures ResourcesInv(RunNext(m, c))
  {
    BringUpKeepsResources(m, c);
  }

  lemma RunKeepsLoops(m: Machine, c: Choice)
    requires ResourcesInv(m) && StateInv(m) && LoopsInv(m) && ErrorsInv(m)
    ensures LoopsInv(RunNext(m, c))
  {
    BringUpKeepsResources(m, c);
  }

  lemma BringUpKeepsCounters(m: Machine, c: Choice)
    requires CountersInv(m)
    ensures CountersInv(BringUpNext(m, c))
  {
  }

  lemma RunKeepsCounters(m: Machine, c: Choice)
    requires CountersInv(m)
    ensures CountersInv(RunNext(m, c))
  {
    BringUpKeepsCounters(m, c);
  }

  lemma BringUpKeepsSnap(m: Machine, c: Choice, s: Snap)
    requires CountersInv(m) && SnapInv(m, s) && !Free(m)
    ensures SnapInv(BringUpNext(m, c), s)
  {
  }

  lemma RunKeepsSnap(m: Machine, c: Choice, s: Snap)
    requires CountersInv(m) && LoopsInv(m) && SnapInv(m, s) && !Free(m)
    ensures SnapInv(RunNext(m, c), s)
  {
    BringUpKeepsSnap(m, c, s);
  }

  lemma BringUpKeepsReaders(m: Machine, c: Choice)
    ensures var n := BringUpNext(m, c); n.snaps == m.snaps && n.reports == m.reports && n.tries >= m.tries
  {
  }

  lemma RunKeepsReaders(m: Machine, c: Choice)
    ensures var n := RunNext(m, c); n.snaps == m.snaps && n.reports == m.reports && n.tries >= m.tries
  {
    BringUpKeepsReaders(m, c);
  }

  lemma RunKeepsSnaps(m: Machine, c: Choice)
    requires CountersInv(m) && LoopsInv(m) && SnapsInv(m)
    ensures SnapsInv(RunNext(m, c))
  {
    var n := RunNext(m, c);
    RunKeepsReaders(m, c);
    forall id | id in n.snaps ensures SnapInv(n, n.snaps[id]) { RunKeepsSnap(m, c, m.snaps[id]); }
  }

  /** What a tick may do to the fields of a running tunnel. */
  predicate TickedFrom(f: Fields, g: Fields)
  {
    && g.session == f.session && g.device == f.device && g.netNet == f.netNet
    && (g == f || (Explained(f) ==> Explained(g)))
  }

  lemma StatsMoves(m: Machine, e: LoopEvent)
    ensures var n := StatsNext(m, e);
      && TickedFrom(m.f, n.f) && n == m.(f := n.f, stats := n.stats)
      && (m.stats == SNone || m.stats == SEnded ==> n == m)
      && (n.stats == SEnded && m.stats != SEnded ==> m.cancelled)
      && (forall dev :: StatsOn(m.stats, dev) ==> StatsOn(n.stats, dev))
  {
  }

  lemma HealthKeepsCounters(m: Machine, e: LoopEvent)
    requires CountersInv(m)
    ensures CountersInv(HealthNext(m, e))
  {
  }

  lemma HealthMoves(m: Machine, e: LoopEvent)
    ensures var n := HealthNext(m, e);
      && TickedFrom(m.f, n.f)
      && n == m.(f := n.f, health := n.health, probes := n.probes, probeFails := n.probeFails)
      && (m.health == HNone || m.health == HEnded ==> n == m)
      && (n.health == HEnded && m.health != HEnded ==> m.cancelled)
      && (forall dev :: HealthOn(m.health, dev) ==> HealthOn(n.health, dev))
  {
  }

  /** Loops that move while the session is published disturb nothing else. */
  lemma LoopMoveKeepsInv(m: Machine, n: Machine)
    requires ResourcesInv(m) && StateInv(m) && ErrorsInv(m) && LoopsInv(m) && DevicesInv(m)
    requires TickedFrom(m.f, n.f) && n.run == m.run && n.cancelled == m.cancelled
    requires n.closes == m.closes && n.tries == m.tries
    requires (m.run.Waiting? || m.run.Joining?) && StatsOn(n.stats, m.run.dev) && HealthOn(n.health, m.run.dev)
    ensures ResourcesInv(n) && StateInv(n) && ErrorsInv(n) && LoopsInv(n) && DevicesInv(n)
  {
  }

  lemma HealthKeepsSnap(m: Machine, e: LoopEvent, s: Snap)
    requires CountersInv(m) && SnapInv(m, s) && !Free(m)
    ensures SnapInv(HealthNext(m, e), s)
  {
  }

  lemma StatsKeepsInv(m: Machine, e: LoopEvent)
    requires Inv(m)
    ensures Inv(StatsNext(m, e))
  {
    var n := StatsNext(m, e);
    StatsMoves(m, e);
    if n != m {
      LoopMoveKeepsInv(m, n);
      forall id | id in n.snaps ensures SnapInv(n, n.snaps[id]) { assert SnapInv(m, m.snaps[id]); }
    }
  }

  lemma HealthKeepsInv(m: Machine, e: LoopEvent)
    requires Inv(m)
    ensures Inv(HealthNext(m, e))
  {
    var n := HealthNext(m, e);
    HealthMoves(m, e);
    HealthKeepsCounters(m, e);
    if n != m {
      LoopMoveKeepsInv(m, n);
      forall id | id in n.snaps ensures SnapInv(n, n.snaps[id]) { HealthKeepsSnap(m, e, m.snaps[id]); }
    }
  }

  lemma LoadKeepsSnap(m: Machine, s: Snap)
    requires CountersInv(m) && SnapInv(m, s)
    ensures SnapInv(m, Load(m, s))
  {
  }

  lemma SnapKeepsSnaps(m: Machine, step: Step)
    requires CountersInv(m) && SnapsInv(m) && (step.SnapBegin? || step.SnapLoad? || step.SnapEnd?)
    ensures SnapsInv(Next(m, step))
  {
    var n := Next(m, step);
    forall id | id in n.snaps ensures SnapInv(n, n.snaps[id]) {
      if id in m.snaps {
        assert SnapInv(m, m.snaps[id]);
        LoadKeepsSnap(m, m.snaps[id]);
      }
    }
  }

  lemma SnapKeepsInv(m: Machine, step: Step)
    requires Inv(m) && (step.SnapBegin? || step.SnapLoad? || step.SnapEnd?)
    ensures Inv(Next(m, step))
  {
    SnapKeepsSnaps(m, step);
  }

  lemma StepKeepsInv(m: Machine, step: Step)
    requires Inv(m)
    ensures Inv(Next(m, step))
  {
    match step
    case Cancel =>
      forall id | id in m.snaps ensures SnapInv(Next(m, step), m.snaps[id]) { assert SnapInv(m, m.snaps[id]); }
    case Run(c) =>
      RunKeepsDevices(m, c);
      RunKeepsState(m, c);
      RunKeepsResources(m, c);
      RunKeepsLoops(m, c);
      RunKeepsCounters(m, c);
      RunKeepsSnaps(m, c);
    case Stats(e) => StatsKeepsInv(m, e);
    case Health(e) => HealthKeepsInv(m, e);
    case _ => SnapKeepsInv(m, step);
  }

  lemma {:induction false} StepsKeepInv(m: Machine, steps: seq<Step>)
    requires Inv(m)
    ensures Inv(Steps(m, steps))
    ensures m.run.Returned? ==> Steps(m, steps).run.Returned?
    decreases |steps|
  {
    if steps == [] {
    } else {
      StepsKeepInv(m, steps[..|steps| - 1]);
      StepKeepsInv(Steps(m, steps[..|steps| - 1]), steps[|steps| - 1]);
    }
  }

  // ---------- the main results ----------

  /** In every reachable state the three resources are all set or all nil, and set iff Up or Degraded. */
  lemma ResourcesFollowState(steps: seq<Step>)
    ensures var f := Steps(INIT, steps).f;
      && f.session == f.device == f.netNet
      && (f.device.Some? <==> Running(f.state))
  {
    StepsKeepInv(INIT, steps);
  }

  /** Once Run has returned, the tunnel is down for good, whatever steps follow. */
  lemma DownAfterReturn(steps: seq<Step>, more: seq<Step>)
    requires Steps(INIT, steps).run.Returned?
    ensures var m := Steps(Steps(INIT, steps), more);
      && m.run.Returned? && m.f.state in {Idle, Connecting, TunnelFields.Failed}
      && m.f.session == None && m.f.device == None && m.f.netNet == None
  {
    StepsKeepInv(INIT, steps);
    StepsKeepInv(Steps(INIT, steps), more);
  }

  /** The teardown always runs after a cancellation and finds the tunnel up, so it never reports an error. */
  lemma TeardownNeverFails(steps: seq<Step>)
    requires Steps(INIT, steps).run.TearingDown?
    ensures var m := Steps(INIT, steps);
      m.cancelled && Running(m.f.state) && Teardown(m.f, m.cancelled).state == Idle
  {
    StepsKeepInv(INIT, steps);
  }

  /** At most one device is open, a published one is open, and a device in use by either loop is open. */
  lemma OpenDeviceUnique(steps: seq<Step>, d: nat, e: nat)
    requires d < |Steps(INIT, steps).closes| && e < |Steps(INIT, steps).closes|
    ensures var m := Steps(INIT, steps);
      && (m.closes[d] == 0 && m.closes[e] == 0 ==> d == e)
      && m.closes[d] <= 1
      && (m.run.Returned? ==> m.closes[d] == 1)
      && (m.f.device == Some(d) ==> m.closes[d] == 0)
  {
    StepsKeepInv(INIT, steps);
  }

  /** The device that a loop was given is the published one, and it is open. */
  predicate OnOpenDevice(m: Machine, dev: nat) { m.f.device == Some(dev) && dev < |m.closes| && m.closes[dev] == 0 }

  predicate LoopsOnOpenDevice(m: Machine)
  {
    && (m.stats != SNone && m.stats != SEnded ==> OnOpenDevice(m, m.stats.dev))
    && (m.health != HNone && m.health != HEnded ==> OnOpenDevice(m, m.health.dev))
  }

  lemma LoopsHoldDevice(m: Machine)
    requires ResourcesInv(m) && LoopsInv(m) && DevicesInv(m)
    ensures LoopsOnOpenDevice(m)
  {
  }

  /** A loop that has not ended works on the device it was given at its start, which is the published one and open. */
  lemma LoopsUseTheirOpenDevice(steps: seq<Step>)
    ensures LoopsOnOpenDevice(Steps(INIT, steps))
  {
    StepsKeepInv(INIT, steps);
    LoopsHoldDevice(Steps(INIT, steps));
  }

  lemma MovingLoopIsAlive(m: Machine, step: Step)
    requires (step.Stats? || step.Health?) && Next(m, step) != m
    ensures if step.Stats? then m.stats != SNone && m.stats != SEnded else m.health != HNone && m.health != HEnded
  {
  }

  /** Neither loop takes a step after it has ended or before it was started, so none on a closed device. */
  lemma LoopsUseAnOpenDevice(steps: seq<Step>, step: Step)
    requires step.Stats? || step.Health?
    requires Next(Steps(INIT, steps), step) != Steps(INIT, steps)
    ensures var m := Steps(INIT, steps);
      if step.Stats? then m.stats != SNone && m.stats != SEnded && OnOpenDevice(m, m.stats.dev)
      else m.health != HNone && m.health != HEnded && OnOpenDevice(m, m.health.dev)
  {
    LoopsUseTheirOpenDevice(steps);
    MovingLoopIsAlive(Steps(INIT, steps), step);
  }

  /** Every Snapshot reports consistent counters although it loads them one after the other. */
  lemma SnapshotsAreConsistent(steps: seq<Step>, i: nat)
    requires i < |Steps(INIT, steps).reports|
    ensures var s := Steps(INIT, steps).reports[i];
      s.Snap4? && 0 <= s.tries - s.fails <= 1 && s.probeFails <= s.probes + 1
  {
    StepsKeepInv(INIT, steps);
    assert ReportOK(Steps(INIT, steps).reports[i]);
  }

  /** The counters themselves: failed probes never outnumber probes, nor failed attempts the attempts. */
  lemma CountersAreOrdered(steps: seq<Step>)
    ensures var m := Steps(INIT, steps); m.probeFails <= m.probes && m.fails <= m.tries <= m.fails + 1
  {
    StepsKeepInv(INIT, steps);
  }

  /** Up never shows an error, Degraded and Error always do, in every reachable state. */
  lemma StatesExplainThemselves(steps: seq<Step>)
    ensures var f := Steps(INIT, steps).f;
      && (f.state == Up ==> f.lastError == "")
      && (f.state in {Degraded, TunnelFields.Failed} ==> f.lastError != "")
  {
    StepsKeepInv(INIT, steps);
  }

  lemma TickInReach(m: Machine, clock: int)
    requires LoopsInv(m) && StateInv(m) && Free(m)
    ensures m.stats.SUpdating? ==>
      Decides(m.f, Tick.Stats(m.stats.r, m.stats.now, clock), Next(m, Step.Stats(At(clock))).f.state)
    ensures m.health.HUpdating? ==>
      Decides(m.f, Tick.Health(m.health.ok, m.health.status, clock), Next(m, Step.Health(At(clock))).f.state)
  {
    if m.stats.SUpdating? { TickDecides(m.f, Tick.Stats(m.stats.r, m.stats.now, clock)); }
    if m.health.HUpdating? { TickDecides(m.f, Tick.Health(m.health.ok, m.health.status, clock)); }
  }

  /** In every reachable state a tick that takes place, of either loop, decides the state by its own reading. */
  lemma TicksDecide(steps: seq<Step>, clock: int)
    requires Free(Steps(INIT, steps))
    ensures var m := Steps(INIT, steps);
      m.stats.SUpdating? ==>
        Decides(m.f, Tick.Stats(m.stats.r, m.stats.now, clock), Next(m, Step.Stats(At(clock))).f.state)
    ensures var m := Steps(INIT, steps);
      m.health.HUpdating? ==>
        Decides(m.f, Tick.Health(m.health.ok, m.health.status, clock), Next(m, Step.Health(At(clock))).f.state)
  {
    StepsKeepInv(INIT, steps);
    TickInReach(Steps(INIT, steps), clock);
  }

  // ---------- what a Snapshot guarantees about probes ----------

  predicate ProbeSucceeds(m: Machine, step: Step)
  {
    step.Health? && m.health.HProbing? && step.event.Probed? && step.event.ok
  }

  /** The probes of a run that succeeded. */
  function Successes(steps: seq<Step>): nat
    decreases |steps|
  {
    if steps == [] then 0
    else
      var before := steps[..|steps| - 1];
      Successes(before) + (if ProbeSucceeds(Steps(INIT, before), steps[|steps| - 1]) then 1 else 0)
  }

  /** The probes that are over without having failed. */
  function Passed(m: Machine): int { m.probes - m.probeFails - (if Probing(m.health) then 1 else 0) }

  lemma BringUpPassesNone(m: Machine, c: Choice)
    ensures Passed(BringUpNext(m, c)) == Passed(m)
  {
  }

  lemma RunPassesNone(m: Machine, c: Choice)
    requires LoopsInv(m)
    ensures Passed(RunNext(m, c)) == Passed(m)
  {
    if !m.run.StartingLoops? { BringUpPassesNone(m, c); }
  }

  lemma StepPasses(m: Machine, step: Step)
    requires LoopsInv(m)
    ensures Passed(Next(m, step)) == Passed(m) + (if ProbeSucceeds(m, step) then 1 else 0)
  {
    match step
    case Run(c) => RunPassesNone(m, c);
    case _ =>
  }

  /** Conservation of probes: each that was counted has succeeded, has been counted as failed, or is under way. */
  lemma {:induction false} ProbesAddUp(steps: seq<Step>)
    ensures Passed(Steps(INIT, steps)) == Successes(steps)
    decreases |steps|
  {
    if steps == [] {
    } else {
      var before := steps[..|steps| - 1];
      ProbesAddUp(before);
      StepsKeepInv(INIT, before);
      StepPasses(Steps(INIT, before), steps[|steps| - 1]);
    }
  }

  /** What a Snapshot has loaded overstates the failed probes by less than the number given allows. */
  predicate BoundedBy(m: Machine, id: nat, successes: int)
  {
    && id in m.snaps && !m.snaps[id].Snap0?
    && (m.snaps[id].Snap1? || m.snaps[id].probeFails + successes <= m.snaps[id].probes + 1)
  }

  lemma StepKeepsBound(m: Machine, step: Step, id: nat, successes: int)
    requires SnapsInv(m) && BoundedBy(m, id, successes) && Passed(m) >= successes && step != SnapEnd(id)
    ensures BoundedBy(Next(m, step), id, successes)
  {
    assert SnapInv(m, m.snaps[id]);
    match step
    case Run(c) => RunKeepsReaders(m, c);
    case _ =>
  }

  lemma {:induction false} BoundHolds(m: Machine, more: seq<Step>, id: nat, successes: int)
    requires Inv(m) && BoundedBy(m, id, successes) && Passed(m) >= successes && SnapEnd(id) !in more
    ensures BoundedBy(Steps(m, more), id, successes) && Passed(Steps(m, more)) >= successes
    decreases |more|
  {
    if more == [] {
    } else {
      var before, step := more[..|more| - 1], more[|more| - 1];
      BoundHolds(m, before, id, successes);
      StepsKeepInv(m, before);
      StepPasses(Steps(m, before), step);
      StepKeepsBound(Steps(m, before), step, id, successes);
    }
  }

  /** A state in which a Snapshot is about to load the number of probes. */
  predicate AboutToLoad(m: Machine, id: nat) { id in m.snaps && m.snaps[id] == Snap0 }

  /** The Snapshot after it has loaded the number of probes and more steps were taken, but before it returns. */
  function AfterLoad(m: Machine, id: nat, more: seq<Step>): Machine { Steps(Next(m, SnapLoad(id)), more) }

  /**
   What a Snapshot reports of probes: the failed ones exceed the probes by at most one less than the probes that had
   succeeded when it loaded their number, so a single success by then is enough for a consistent report.
   */
  lemma SnapshotBoundedBySuccesses(steps: seq<Step>, id: nat, more: seq<Step>)
    requires AboutToLoad(Steps(INIT, steps), id) && SnapEnd(id) !in more
    ensures BoundedBy(AfterLoad(Steps(INIT, steps), id, more), id, Successes(steps))
  {
    var m := Steps(INIT, steps);
    StepsKeepInv(INIT, steps);
    ProbesAddUp(steps);
    StepKeepsInv(m, SnapLoad(id));
    BoundHolds(Next(m, SnapLoad(id)), more, id, Successes(steps));
  }

  // ---------- when a Snapshot may overstate the failed probes ----------

  /** A probe can begin although a Snapshot holds the read lock. */
  predicate CanProbe(m: Machine) { m.health.HWaiting? || m.health.HCounting? || m.run.StartingLoops? }

  /** No probe begins while the Snapshot is at work, and what it loads is ordered. */
  predicate Settled(m: Machine, id: nat, probes: nat)
  {
    && id in m.snaps && !m.snaps[id].Snap0? && !CanProbe(m) && m.probes == probes
    && m.snaps[id].probes == probes && (!m.snaps[id].Snap1? ==> m.snaps[id].probeFails <= probes)
  }

  lemma BringUpNeedsLock(m: Machine, c: Choice)
    requires !Free(m) && !m.run.StartingLoops?
    ensures var n := BringUpNext(m, c);
      !n.run.StartingLoops? && n == m.(run := n.run, f := n.f, tries := n.tries, closes := n.closes)
  {
  }

  lemma RunKeepsSettled(m: Machine, c: Choice, id: nat, probes: nat)
    requires Settled(m, id, probes)
    ensures Settled(RunNext(m, c), id, probes)
  {
    BringUpNeedsLock(m, c);
  }

  lemma StepKeepsSettled(m: Machine, step: Step, id: nat, probes: nat)
    requires CountersInv(m) && Settled(m, id, probes) && step != SnapEnd(id)
    ensures Settled(Next(m, step), id, probes)
  {
    match step
    case Run(c) => RunKeepsSettled(m, c, id, probes);
    case _ =>
  }

  lemma {:induction false} SettledHolds(m: Machine, more: seq<Step>, id: nat, probes: nat)
    requires Inv(m) && Settled(m, id, probes) && SnapEnd(id) !in more
    ensures Settled(Steps(m, more), id, probes)
    decreases |more|
  {
    if more == [] {
    } else {
      var before := more[..|more| - 1];
      SettledHolds(m, before, id, probes);
      StepsKeepInv(m, before);
      StepKeepsSettled(Steps(m, before), more[|more| - 1], id, probes);
    }
  }

  /** A continuation in which the Snapshot loads more failed probes than probes. */
  predicate Overstates(m: Machine, id: nat, more: seq<Step>)
  {
    var n := AfterLoad(m, id, more);
    && SnapEnd(id) !in more && id in n.snaps && !n.snaps[id].Snap0? && !n.snaps[id].Snap1?
    && n.snaps[id].probeFails > n.snaps[id].probes
  }

  lemma ExtendFrom(m: Machine, steps: seq<Step>, step: Step) returns (longer: seq<Step>)
    ensures Steps(m, longer) == Next(Steps(m, steps), step) && longer == steps + [step]
  {
    longer := steps + [step];
    assert longer[..|longer| - 1] == steps;
  }

  /** The loops start without the lock. */
  lemma LoopsStart(m: Machine) returns (more: seq<Step>)
    requires m.run.StartingLoops?
    ensures forall id :: SnapEnd(id) !in more
    ensures var n := Steps(m, more); n.health.HWaiting? && n == m.(run := n.run, stats := n.stats, health := n.health)
  {
    more := ExtendFrom(m, [], Run(Succeeds(0)));
    assert Steps(m, []) == m;
  }

  /** The health loop comes to count a probe, whatever it still has to do before. */
  lemma ReachesCounting(m: Machine) returns (more: seq<Step>)
    requires CanProbe(m)
    ensures forall id :: SnapEnd(id) !in more
    ensures var n := Steps(m, more); n.health.HCounting? && n == m.(run := n.run, stats := n.stats, health := n.health)
  {
    more := [];
    if m.run.StartingLoops? { more := LoopsStart(m); }
    var n := Steps(m, more);
    if n.health.HWaiting? {
      more := ExtendFrom(m, more, Step.Health(Proceed));
      assert HealthNext(n, Proceed) == n.(health := HCounting(n.health.dev));
    }
  }

  lemma OneProbeStarts(m: Machine, steps: seq<Step>) returns (more: seq<Step>)
    requires Steps(m, steps).health.HCounting? && forall id :: SnapEnd(id) !in steps
    ensures forall id :: SnapEnd(id) !in more
    ensures var n, k := Steps(m, steps), Steps(m, more);
      k.health.HProbing? && k == n.(probes := n.probes + 1, health := k.health)
  {
    more := ExtendFrom(m, steps, Step.Health(Proceed));
  }

  lemma OneProbeFails(m: Machine, steps: seq<Step>) returns (more: seq<Step>)
    requires Steps(m, steps).health.HProbing? && forall id :: SnapEnd(id) !in steps
    ensures forall id :: SnapEnd(id) !in more
    ensures var n, k := Steps(m, steps), Steps(m, more); k == n.(probeFails := n.probeFails + 1, health := k.health)
  {
    more := ExtendFrom(m, steps, Step.Health(Probed(false, "timeout")));
    more := ExtendFrom(m, more, Step.Health(Proceed));
  }

  lemma ProbeFailsInBetween(m: Machine) returns (more: seq<Step>)
    requires CanProbe(m)
    ensures forall id :: SnapEnd(id) !in more
    ensures var n := Steps(m, more);
      n.snaps == m.snaps && n.probes == m.probes + 1 && n.probeFails == m.probeFails + 1
  {
    more := ReachesCounting(m);
    more := OneProbeStarts(m, more);
    more := OneProbeFails(m, more);
  }

  lemma OverstatesIfProbeFails(m: Machine, id: nat) returns (more: seq<Step>)
    requires Inv(m) && AboutToLoad(m, id) && CanProbe(m) && Passed(m) == 0
    ensures Overstates(m, id, more)
  {
    var n := Next(m, SnapLoad(id));
    more := ProbeFailsInBetween(n);
    more := ExtendFrom(n, more, SnapLoad(id));
  }

  /**
   Exactly when a Snapshot can report more failed probes than probes: when it loads the number of probes before any
   probe has succeeded, and the health loop is where it can begin a probe without the lock.
   */
  lemma SnapshotMayOverstateIff(steps: seq<Step>, id: nat)
    requires AboutToLoad(Steps(INIT, steps), id)
    ensures (exists more: seq<Step> :: Overstates(Steps(INIT, steps), id, more))
       <==> Successes(steps) == 0 && CanProbe(Steps(INIT, steps))
  {
    var m := Steps(INIT, steps);
    StepsKeepInv(INIT, steps);
    ProbesAddUp(steps);
    if Successes(steps) == 0 && CanProbe(m) {
      var more := OverstatesIfProbeFails(m, id);
    }
    if more: seq<Step> :| Overstates(m, id, more) {
      SnapshotBoundedBySuccesses(steps, id, more);
      if !CanProbe(m) {
        StepKeepsInv(m, SnapLoad(id));
        SettledHolds(Next(m, SnapLoad(id)), more, id, m.probes);
      }
    }
  }

  // ---------- the limit of what a Snapshot guarantees ----------

  lemma FirstRegistration() returns (ss: seq<Step>)
    ensures Steps(INIT, ss) == INIT.(f := FRESH.(state := Connecting), run := StampingAddKey, tries := 1)
  {
    ss := [];
    ss := ExtendFrom(INIT, ss, Run(Succeeds(0)));
    assert Steps(INIT, ss) == INIT.(run := AddingTry);
    ss := ExtendFrom(INIT, ss, Run(Succeeds(0)));
    ss := ExtendFrom(INIT, ss, Run(Succeeds(0)));
    assert Steps(INIT, ss) == INIT.(f := FRESH.(state := Connecting), run := FindingRegion, tries := 1);
    ss := ExtendFrom(INIT, ss, Run(Succeeds(0)));
    ss := ExtendFrom(INIT, ss, Run(Succeeds(0)));
  }

  lemma FirstAttempt() returns (ss: seq<Step>)
    ensures Steps(INIT, ss)
         == INIT.(f := FRESH.(state := Connecting), run := Configuring(0, 0), closes := [0], tries := 1)
  {
    ss := FirstRegistration();
    ss := ExtendFrom(INIT, ss, Run(Succeeds(0)));
    ss := ExtendFrom(INIT, ss, Run(Succeeds(0)));
    ss := ExtendFrom(INIT, ss, Run(Succeeds(0)));
  }

  lemma FirstDeviceUp() returns (ss: seq<Step>)
    ensures Steps(INIT, ss) == INIT.(f := FRESH.(state := Connecting), run := Publishing(0), closes := [0], tries := 1)
  {
    ss := FirstAttempt();
    ss := ExtendFrom(INIT, ss, Run(Succeeds(0)));
    ss := ExtendFrom(INIT, ss, Run(Succeeds(0)));
    ss := ExtendFrom(INIT, ss, Run(Succeeds(0)));
  }

  lemma FirstSession() returns (ss: seq<Step>)
    ensures Steps(INIT, ss) == INIT.(f := TunnelFields.Publish(0, 0), run := Waiting(0), closes := [0], tries := 1,
                                     stats := SWaiting(0), health := HWaiting(0))
  {
    ss := FirstDeviceUp();
    ss := ExtendFrom(INIT, ss, Run(Succeeds(0)));
    ss := ExtendFrom(INIT, ss, Run(Succeeds(0)));
  }

  lemma FirstSnapshotLoads() returns (ss: seq<Step>)
    ensures Steps(INIT, ss) == INIT.(f := TunnelFields.Publish(0, 0), run := Waiting(0), closes := [0], tries := 1,
                                     stats := SWaiting(0), health := HWaiting(0), snaps := map[0 := Snap1(0)])
  {
    ss := FirstSession();
    ss := ExtendFrom(INIT, ss, SnapBegin(0));
    ss := ExtendFrom(INIT, ss, SnapLoad(0));
    assert Steps(INIT, ss).snaps == map[0 := Snap1(0)];
  }

  lemma FirstProbeStarts() returns (ss: seq<Step>)
    ensures Steps(INIT, ss) == INIT.(f := TunnelFields.Publish(0, 0), run := Waiting(0), closes := [0], tries := 1,
                                     stats := SWaiting(0), health := HProbing(0),
                                     probes := 1, snaps := map[0 := Snap1(0)])
  {
    ss := FirstSnapshotLoads();
    ss := ExtendFrom(INIT, ss, Step.Health(Proceed));
    ss := ExtendFrom(INIT, ss, Step.Health(Proceed));
  }

  lemma FirstProbeFails() returns (ss: seq<Step>)
    ensures Steps(INIT, ss) == INIT.(f := TunnelFields.Publish(0, 0), run := Waiting(0), closes := [0], tries := 1,
                                     stats := SWaiting(0), health := HPinging(0, false, "timeout"),
                                     probes := 1, probeFails := 1, snaps := map[0 := Snap1(0)])
  {
    ss := FirstProbeStarts();
    ss := ExtendFrom(INIT, ss, Step.Health(Probed(false, "timeout")));
    ss := ExtendFrom(INIT, ss, Step.Health(Proceed));
  }

  /** A Snapshot can report one more failed probe than probes: the bound above cannot be improved. */
  lemma SnapshotMayOverstateProbeFails() returns (ss: seq<Step>)
    ensures Steps(INIT, ss).reports == [Snap4(0, 1, 1, 0)]
  {
    ss := FirstProbeFails();
    ss := ExtendFrom(INIT, ss, SnapLoad(0));
    ss := ExtendFrom(INIT, ss, SnapLoad(0));
    ss := ExtendFrom(INIT, ss, SnapLoad(0));
    ss := ExtendFrom(INIT, ss, SnapEnd(0));
  }
}
