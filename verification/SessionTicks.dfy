/**
 A published session of the tunnel machine seen as the ticks that its two loops have made: the fields of a running
 tunnel are those that the ticks since it was published leave, so what holds of any ticks holds in every reachable
 state.
 */
module SessionTicks {
  import opened Prelude
  import opened TunnelFields
  import opened TransferRates
  import T = TunnelMachine

  /** The device and the time of the latest publication, and the ticks since then. */
  datatype Session = Session(dev: nat, at: int, ticks: seq<Tick>)

  /** A session is published. */
  predicate Publishes(m: T.Machine, step: T.Step)
  {
    step.Run? && m.run.Publishing? && T.Free(m) && step.choice.Succeeds?
  }

  /** The tick that a step makes, if it makes one. */
  function TickOf(m: T.Machine, step: T.Step): seq<Tick>
  {
    if step.Stats? && m.stats.SUpdating? && step.event.At? && T.Free(m)
      then [Tick.Stats(m.stats.r, m.stats.now, step.event.clock)]
    else if step.Health? && m.health.HUpdating? && step.event.At? && T.Free(m)
      then [Tick.Health(m.health.ok, m.health.status, step.event.clock)]
    else []
  }

  function AfterStep(s: Session, m: T.Machine, step: T.Step): Session
  {
    if Publishes(m, step) then Session(m.run.dev, step.choice.now, [])
    else s.(ticks := s.ticks + TickOf(m, step))
  }

  /** The latest session of a run. */
  function Latest(steps: seq<T.Step>): Session
    decreases |steps|
  {
    if steps == [] then Session(0, 0, [])
    else
      var before := steps[..|steps| - 1];
      AfterStep(Latest(before), T.Steps(T.INIT, before), steps[|steps| - 1])
  }

  function FieldsOf(s: Session): Fields { AfterTicks(Publish(s.dev, s.at), s.ticks) }

  /** While a session is published, the fields are those that its ticks leave. */
  predicate Shows(m: T.Machine, s: Session) { T.Published(m.run) ==> m.f == FieldsOf(s) }

  lemma BringUpPublishes(m: T.Machine, c: T.Choice)
    requires !T.Published(m.run) && T.Published(T.BringUpNext(m, c).run)
    ensures Publishes(m, T.Step.Run(c))
  {
  }

  lemma BetweenPublishesNothing(m: T.Machine, c: T.Choice)
    requires T.Between(m.run) || m.run.ClosingDevice?
    ensures !T.Published(T.RunNext(m, c).run)
  {
  }

  lemma SessionKeepsFields(m: T.Machine, c: T.Choice)
    requires T.Published(m.run) && T.Published(T.RunNext(m, c).run)
    ensures T.RunNext(m, c).f == m.f
  {
  }

  /** Run sets the fields of a running tunnel only when it publishes them. */
  lemma OnlyPublishSetsFields(m: T.Machine, c: T.Choice)
    requires T.Published(T.RunNext(m, c).run) && !Publishes(m, T.Step.Run(c))
    ensures T.Published(m.run) && T.RunNext(m, c).f == m.f
  {
    if T.Between(m.run) || m.run.ClosingDevice? {
      BetweenPublishesNothing(m, c);
    } else if T.Published(m.run) {
      SessionKeepsFields(m, c);
    } else {
      T.InnerIsBringUp(m, c);
      BringUpPublishes(m, c);
    }
  }

  lemma PublishSetsFields(m: T.Machine, c: T.Choice)
    requires Publishes(m, T.Step.Run(c))
    ensures T.RunNext(m, c).f == Publish(m.run.dev, c.now)
  {
  }

  lemma RunStepShows(m: T.Machine, c: T.Choice, s: Session)
    requires Shows(m, s)
    ensures Shows(T.RunNext(m, c), AfterStep(s, m, T.Step.Run(c)))
  {
    assert s.ticks + [] == s.ticks;
    if Publishes(m, T.Step.Run(c)) {
      PublishSetsFields(m, c);
    } else if T.Published(T.RunNext(m, c).run) {
      OnlyPublishSetsFields(m, c);
    }
  }

  lemma MoreTicks(s: Session, t: Tick)
    ensures FieldsOf(s.(ticks := s.ticks + [t])) == OnTick(FieldsOf(s), t)
  {
    assert (s.ticks + [t])[..|s.ticks|] == s.ticks;
  }

  lemma StatsStepShows(m: T.Machine, e: T.LoopEvent, s: Session)
    requires T.LoopsInv(m) && Shows(m, s)
    ensures Shows(T.StatsNext(m, e), AfterStep(s, m, T.Step.Stats(e)))
  {
    assert s.ticks + [] == s.ticks;
    if TickOf(m, T.Step.Stats(e)) != [] { MoreTicks(s, TickOf(m, T.Step.Stats(e))[0]); }
  }

  lemma HealthStepShows(m: T.Machine, e: T.LoopEvent, s: Session)
    requires T.LoopsInv(m) && Shows(m, s)
    ensures Shows(T.HealthNext(m, e), AfterStep(s, m, T.Step.Health(e)))
  {
    assert s.ticks + [] == s.ticks;
    if TickOf(m, T.Step.Health(e)) != [] { MoreTicks(s, TickOf(m, T.Step.Health(e))[0]); }
  }

  lemma StepShows(m: T.Machine, step: T.Step, s: Session)
    requires T.LoopsInv(m) && Shows(m, s)
    ensures Shows(T.Next(m, step), AfterStep(s, m, step))
  {
    if step.Run? {
      RunStepShows(m, step.choice, s);
    } else if step.Stats? {
      StatsStepShows(m, step.event, s);
    } else if step.Health? {
      HealthStepShows(m, step.event, s);
    } else {
      assert s.ticks + [] == s.ticks;
    }
  }

  /** In every reachable state of a running tunnel the fields are what the ticks since the publication leave. */
  lemma {:induction false} RunningFieldsAreTicks(steps: seq<T.Step>)
    ensures Shows(T.Steps(T.INIT, steps), Latest(steps))
    decreases |steps|
  {
    if steps == [] {
    } else {
      var before := steps[..|steps| - 1];
      RunningFieldsAreTicks(before);
      T.StepsKeepInv(T.INIT, before);
      StepShows(T.Steps(T.INIT, before), steps[|steps| - 1], Latest(before));
    }
  }

  /** In every reachable state of a running tunnel the probe, the counters and the handshake that it shows are those of
      the latest ticks of its session. */
  lemma ShownInReach(steps: seq<T.Step>)
    requires T.Published(T.Steps(T.INIT, steps).run)
    ensures ShowsLatest(T.Steps(T.INIT, steps).f, Latest(steps).ticks)
  {
    var s := Latest(steps);
    RunningFieldsAreTicks(steps);
    TicksShow(s.dev, s.at, s.ticks);
  }

  // ---------- rates ----------

  function SampleIn(t: Tick): seq<Sample> { if t.Stats? then [Sample(t.r, t.now, t.clock)] else [] }

  /** The samples of the stats ticks. */
  function SamplesOf(ticks: seq<Tick>): seq<Sample>
    decreases |ticks|
  {
    if ticks == [] then []
    else
      var t := ticks[|ticks| - 1];
      SamplesOf(ticks[..|ticks| - 1]) + SampleIn(t)
  }

  /** Equal in everything that the rates depend on. */
  predicate SameMeasures(f: Fields, g: Fields)
  {
    && f.rxRate == g.rxRate && f.txRate == g.txRate && f.prevRx == g.prevRx && f.prevTx == g.prevTx
    && f.prevStatsAt == g.prevStatsAt && f.rxTotal == g.rxTotal && f.txTotal == g.txTotal
  }

  lemma StatsKeepMeasures(f: Fields, g: Fields, r: Reading, now: int, clock: int)
    requires SameMeasures(f, g)
    ensures SameMeasures(Counters(f, r, now), Counters(g, r, now))
    ensures SameMeasures(StatsTick(f, r, now, clock), Counters(f, r, now))
    ensures SameMeasures(StatsTick(g, r, now, clock), Counters(g, r, now))
  {
  }

  lemma TickKeepsMeasures(f: Fields, g: Fields, t: Tick)
    requires SameMeasures(f, g)
    ensures SameMeasures(OnTick(f, t), if t.Stats? then StatsTick(g, t.r, t.now, t.clock) else g)
  {
    if t.Stats? { StatsKeepMeasures(f, g, t.r, t.now, t.clock); }
  }

  lemma SampleOfTick(f: Fields, samples: seq<Sample>, t: Tick)
    ensures var g := AfterSamples(f, samples);
      AfterSamples(f, samples + SampleIn(t)) == if t.Stats? then StatsTick(g, t.r, t.now, t.clock) else g
  {
    var longer := samples + SampleIn(t);
    if t.Stats? { assert longer[..|samples|] == samples; } else { assert longer == samples; }
  }

  /** Health ticks in between change no measurement. */
  lemma {:induction false} MeasuresIgnoreHealth(f: Fields, ticks: seq<Tick>)
    ensures SameMeasures(AfterTicks(f, ticks), AfterSamples(f, SamplesOf(ticks)))
    decreases |ticks|
  {
    if ticks == [] {
    } else {
      var before, t := ticks[..|ticks| - 1], ticks[|ticks| - 1];
      MeasuresIgnoreHealth(f, before);
      TickKeepsMeasures(AfterTicks(f, before), AfterSamples(f, SamplesOf(before)), t);
      SampleOfTick(f, SamplesOf(before), t);
    }
  }

  /** The instantaneous receive and transmit rates of a session. */
  function Received(s: Session): seq<real> { Instants(Publish(s.dev, s.at), SamplesOf(s.ticks)) }

  function Sent(s: Session): seq<real>
  {
    Instants(SwapFields(Publish(s.dev, s.at)), SwapSamples(SamplesOf(s.ticks)))
  }

  lemma RatesOfSession(s: Session)
    ensures var f := FieldsOf(s);
      && f.rxRate == Weighted(Received(s), |Received(s)|, |Received(s)|) && 0.0 <= f.rxRate <= Largest(Received(s))
      && f.txRate == Weighted(Sent(s), |Sent(s)|, |Sent(s)|) && 0.0 <= f.txRate <= Largest(Sent(s))
  {
    var p, samples := Publish(s.dev, s.at), SamplesOf(s.ticks);
    MeasuresIgnoreHealth(p, s.ticks);
    RateIsWeightedSum(p, samples);
    RateWithinBounds(p, samples);
    TransmitRate(p, samples);
  }

  /** In every reachable state of a running tunnel both rates are the weighted sums of the instantaneous rates of the
      session's own stats ticks, and lie between zero and the largest of them. */
  lemma RatesInReach(steps: seq<T.Step>)
    requires T.Published(T.Steps(T.INIT, steps).run)
    ensures var f, s := T.Steps(T.INIT, steps).f, Latest(steps);
      && f.rxRate == Weighted(Received(s), |Received(s)|, |Received(s)|) && 0.0 <= f.rxRate <= Largest(Received(s))
      && f.txRate == Weighted(Sent(s), |Sent(s)|, |Sent(s)|) && 0.0 <= f.txRate <= Largest(Sent(s))
  {
    RunningFieldsAreTicks(steps);
    RatesOfSession(Latest(steps));
  }

  lemma LastTotals(f: Fields, samples: seq<Sample>)
    requires samples != []
    ensures var g, s := AfterSamples(f, samples), samples[|samples| - 1]; g.rxTotal == s.r.rx && g.txTotal == s.r.tx
  {
  }

  /** In every reachable state of a running tunnel the rates that were shown, times their durations, account for the
      total that is shown, less what the first live tick brought and what came while the clock stood still. */
  lemma TotalsInReach(steps: seq<T.Step>, k: nat)
    requires T.Published(T.Steps(T.INIT, steps).run)
    requires var samples := SamplesOf(Latest(steps).ticks); Growing(samples) && FirstLive(samples, k)
    ensures var s, samples := Latest(steps), SamplesOf(Latest(steps).ticks);
      var growth := T.Steps(T.INIT, steps).f.rxTotal - samples[k].r.rx;
      Integral(Publish(s.dev, s.at), samples) == (growth - Missed(samples, k)) as real * SECOND as real
  {
    var s, samples := Latest(steps), SamplesOf(Latest(steps).ticks);
    RunningFieldsAreTicks(steps);
    MeasuresIgnoreHealth(Publish(s.dev, s.at), s.ticks);
    LastTotals(Publish(s.dev, s.at), samples);
    RatesAccountForBytes(Publish(s.dev, s.at), samples, k);
  }
}
