/**
 Proxy.Run (proxy.go): the tunnel machine and the listener machine under one context.  The proxy starts
 the tunnel, binds the listener once it has seen the tunnel out of Idle, and on cancellation stops
 the listener and waits for the tunnel.
 */
module ProxyComposition {
  import opened Prelude
  import TunnelFields
  import T = TunnelMachine
  import L = ListenerGenerations

  datatype PC =
    | Spawning
    | Polling
    | Selecting
    | Starting
    | InStart(call: nat)
    | AwaitingCancel
    | Stopping
    | InStop(call: nat)
    | JoiningTunnel(early: bool)
    | Clearing
    | Returned

  datatype Proxy = Proxy(tunnel: T.Machine, listener: L.Listener, pc: PC)

  const INIT := Proxy(T.INIT, L.INIT, Spawning)

  datatype Step =
    | Cancel
    | Tunnel(tunnelStep: T.Step)
    | Background(listenerStep: L.Step)
    | Own(ok: bool)

  /** The steps of the closer goroutine, the accept loop and the parent context. */
  predicate IsBackground(p: Proxy, step: L.Step)
  {
    step.Close? || step.Accept? || step.AcceptFails? || step.Unwind? || (step.ParentCancel? && p.tunnel.cancelled)
  }

  function OwnNext(p: Proxy, ok: bool): Proxy
  {
    match p.pc
    case Spawning => p.(pc := Polling)
    case Polling => p.(pc := if p.tunnel.f.state != TunnelFields.Idle then Starting else Selecting)
    case Selecting => if ok then p.(pc := Polling) else if p.tunnel.cancelled then p.(pc := JoiningTunnel(true)) else p
    case Starting =>
      var l := L.StartSection(p.listener, ok);
      p.(listener := l, pc := if l.issued > p.listener.issued then InStart(p.listener.issued) else AwaitingCancel)
    case InStart(call) =>
      if call in p.listener.calls then p.(listener := L.Next(p.listener, L.Advance(call))) else p.(pc := AwaitingCancel)
    case AwaitingCancel => if p.tunnel.cancelled then p.(pc := Stopping) else p
    case Stopping =>
      var l := L.StopSection(p.listener);
      p.(listener := l, pc := if l.issued > p.listener.issued then InStop(p.listener.issued) else JoiningTunnel(false))
    case InStop(call) =>
      if call in p.listener.calls then p.(listener := L.Next(p.listener, L.Advance(call)))
      else p.(pc := JoiningTunnel(false))
    case JoiningTunnel(early) =>
      if p.tunnel.run.Returned? then p.(pc := if early then Returned else Clearing) else p
    case Clearing => p.(pc := Returned)
    case Returned => p
  }

  function Next(p: Proxy, step: Step): Proxy
  {
    match step
    case Cancel => p.(tunnel := T.Next(p.tunnel, T.Cancel))
    case Tunnel(s) => if p.pc == Spawning || s.Cancel? then p else p.(tunnel := T.Next(p.tunnel, s))
    case Background(s) => if IsBackground(p, s) then p.(listener := L.Next(p.listener, s)) else p
    case Own(ok) => OwnNext(p, ok)
  }

  function Run(p: Proxy, steps: seq<Step>): Proxy
    decreases |steps|
  {
    if steps == [] then p else Next(Run(p, steps[..|steps| - 1]), steps[|steps| - 1])
  }

  // ---------- the invariant ----------

  /** Before the listener is started, and on the branch that never starts it. */
  predicate Unbound(pc: PC)
  {
    pc == Spawning || pc == Polling || pc == Selecting || pc == Starting || pc == JoiningTunnel(true)
  }

  predicate Stopped(pc: PC) { pc.InStop? || pc.JoiningTunnel? || pc.Clearing? || pc.Returned? }

  predicate CallsInv(p: Proxy)
  {
    forall call :: call in p.listener.calls ==> p.pc == InStart(call) || p.pc == InStop(call)
  }

  /** What the proxy itself relies on, apart from the invariants of its two machines. */
  predicate OwnInv(p: Proxy)
  {
    && CallsInv(p)
    && (Unbound(p.pc) ==> p.listener == L.INIT)
    && (Stopped(p.pc) ==> !p.listener.started)
    && (p.pc == Starting || p.listener.gens != [] ==> p.tunnel.tries > 0)
    && (p.pc.Clearing? || p.pc.Returned? ==> p.tunnel.run.Returned?)
  }

  predicate Inv(p: Proxy) { T.Inv(p.tunnel) && L.Inv(p.listener) && OwnInv(p) }

  lemma TriesOnlyGrow(m: T.Machine, step: T.Step)
    ensures T.Next(m, step).tries >= m.tries
    ensures m.run.Returned? ==> T.Next(m, step).run.Returned?
  {
    if step.Run? { T.RunKeepsReaders(m, step.choice); }
  }

  lemma TunnelStepKeepsInv(p: Proxy, step: T.Step)
    requires Inv(p)
    ensures Inv(p.(tunnel := T.Next(p.tunnel, step)))
  {
    T.StepKeepsInv(p.tunnel, step);
    TriesOnlyGrow(p.tunnel, step);
  }

  lemma BackgroundKeepsOwn(p: Proxy, step: L.Step)
    requires OwnInv(p) && IsBackground(p, step)
    ensures OwnInv(p.(listener := L.Next(p.listener, step)))
  {
    L.BackgroundFrame(p.listener, step);
  }

  lemma BackgroundKeepsInv(p: Proxy, step: L.Step)
    requires Inv(p) && IsBackground(p, step)
    ensures Inv(p.(listener := L.Next(p.listener, step)))
  {
    L.StepKeepsInv(p.listener, step);
    BackgroundKeepsOwn(p, step);
  }

  lemma AdvanceKeepsInv(p: Proxy, call: nat)
    requires Inv(p) && call in p.listener.calls
    ensures Inv(p.(listener := L.Next(p.listener, L.Advance(call))))
  {
    L.StepKeepsInv(p.listener, L.Advance(call));
  }

  lemma SectionKeepsOwn(p: Proxy, ok: bool)
    requires OwnInv(p) && (p.pc.Starting? || p.pc.Stopping?)
    requires L.FieldsInv(p.listener) && L.TakenInv(p.listener)
    ensures OwnInv(OwnNext(p, ok))
  {
    L.SectionFrame(p.listener, ok);
  }

  lemma SectionKeepsInv(p: Proxy, ok: bool)
    requires Inv(p) && (p.pc.Starting? || p.pc.Stopping?)
    ensures Inv(OwnNext(p, ok))
  {
    L.StepKeepsInv(p.listener, if p.pc.Starting? then L.StartCall(ok) else L.StopCall);
    SectionKeepsOwn(p, ok);
  }

  lemma OwnStepKeepsInv(p: Proxy, ok: bool)
    requires Inv(p)
    ensures Inv(OwnNext(p, ok))
  {
    if p.pc.Starting? || p.pc.Stopping? {
      SectionKeepsInv(p, ok);
    } else if (p.pc.InStart? || p.pc.InStop?) && p.pc.call in p.listener.calls {
      AdvanceKeepsInv(p, p.pc.call);
    }
  }

  lemma StepKeepsInv(p: Proxy, step: Step)
    requires Inv(p)
    ensures Inv(Next(p, step))
  {
    match step
    case Cancel => TunnelStepKeepsInv(p, T.Cancel);
    case Tunnel(s) => TunnelStepKeepsInv(p, s);
    case Background(s) => if IsBackground(p, s) { BackgroundKeepsInv(p, s); }
    case Own(ok) => OwnStepKeepsInv(p, ok);
  }

  lemma {:induction false} RunKeepsInv(p: Proxy, steps: seq<Step>)
    requires Inv(p)
    ensures Inv(Run(p, steps))
    decreases |steps|
  {
    if steps == [] {
    } else {
      RunKeepsInv(p, steps[..|steps| - 1]);
      StepKeepsInv(Run(p, steps[..|steps| - 1]), steps[|steps| - 1]);
    }
  }

  // ---------- the main results ----------

  /** At step n the proxy looks at the tunnel, finds it out of Idle, and no socket has been bound yet. */
  predicate SeesOutOfIdle(steps: seq<Step>, n: nat)
    requires n < |steps|
  {
    var p := Run(INIT, steps[..n]);
    steps[n].Own? && p.pc == Polling && p.tunnel.f.state != TunnelFields.Idle && p.listener == L.INIT
  }

  predicate SeenOutOfIdle(steps: seq<Step>) { exists n :: 0 <= n < |steps| && SeesOutOfIdle(steps, n) }

  /** The proxy is about to bind its listener, or has bound it. */
  predicate Binding(p: Proxy) { p.pc == Starting || p.listener.gens != [] }

  lemma OwnStartsBinding(p: Proxy, ok: bool)
    requires OwnInv(p) && !Binding(p) && Binding(OwnNext(p, ok))
    ensures p.pc == Polling && p.tunnel.f.state != TunnelFields.Idle && p.listener == L.INIT
  {
  }

  lemma OnlyPollStartsBinding(p: Proxy, step: Step)
    requires OwnInv(p) && !Binding(p) && Binding(Next(p, step))
    ensures step.Own? && p.pc == Polling && p.tunnel.f.state != TunnelFields.Idle && p.listener == L.INIT
  {
    match step
    case Background(s) => if IsBackground(p, s) { L.BackgroundFrame(p.listener, s); }
    case Own(ok) => OwnStartsBinding(p, ok);
    case _ =>
  }

  lemma SeenStays(steps: seq<Step>)
    requires steps != [] && SeenOutOfIdle(steps[..|steps| - 1])
    ensures SeenOutOfIdle(steps)
  {
    var before := steps[..|steps| - 1];
    var n :| 0 <= n < |before| && SeesOutOfIdle(before, n);
    assert steps[..n] == before[..n];
    assert SeesOutOfIdle(steps, n);
  }

  lemma {:induction false} BindingAfterSeen(steps: seq<Step>)
    requires Binding(Run(INIT, steps))
    ensures SeenOutOfIdle(steps)
    decreases |steps|
  {
    if steps == [] {
    } else {
      var n := |steps| - 1;
      if Binding(Run(INIT, steps[..n])) {
        BindingAfterSeen(steps[..n]);
        SeenStays(steps);
      } else {
        RunKeepsInv(INIT, steps[..n]);
        OnlyPollStartsBinding(Run(INIT, steps[..n]), steps[n]);
        assert SeesOutOfIdle(steps, n);
      }
    }
  }

  /** The listener is bound only after the proxy has seen the tunnel out of Idle, in the middle of its run and with
      nothing bound before; so the tunnel has begun an attempt. */
  lemma ListenerFollowsTunnel(steps: seq<Step>)
    requires Run(INIT, steps).listener.gens != []
    ensures SeenOutOfIdle(steps) && Run(INIT, steps).tunnel.tries > 0
  {
    RunKeepsInv(INIT, steps);
    BindingAfterSeen(steps);
  }

  /** Closed, with its accept loop ended and nothing accepted after its one Stop returned. */
  predicate Quiet(gen: L.Generation)
  {
    gen.closed && gen.accept == L.Ended && gen.cancels == 1 && gen.atReturn == Some(gen.accepted)
  }

  lemma ReturnedTunnel(m: T.Machine)
    requires T.Inv(m) && m.run.Returned?
    ensures m.f.netNet == None && m.f.device == None
    ensures forall d :: 0 <= d < |m.closes| ==> m.closes[d] == 1
  {
  }

  /** A listener that is not started and has no call in progress is quiet. */
  lemma StoppedListener(l: L.Listener)
    requires L.Inv(l) && !l.started && l.calls == map[]
    ensures forall g :: 0 <= g < |l.gens| ==> Quiet(l.gens[g])
  {
    forall g | 0 <= g < |l.gens| ensures Quiet(l.gens[g]) {
      assert L.GenInv(l.gens[g]);
    }
  }

  lemma ReturnedProxy(p: Proxy)
    requires Inv(p) && p.pc.Returned?
    ensures p.tunnel.run.Returned? && p.tunnel.f.netNet == None && p.tunnel.f.device == None
    ensures forall d :: 0 <= d < |p.tunnel.closes| ==> p.tunnel.closes[d] == 1
    ensures !p.listener.started && p.listener.calls == map[]
    ensures forall g :: 0 <= g < |p.listener.gens| ==> Quiet(p.listener.gens[g])
  {
    ReturnedTunnel(p.tunnel);
    StoppedListener(p.listener);
  }

  /**
   When Proxy.Run has returned, by either branch and after any interleaving: the tunnel's Run has returned,
   every device is closed and a dial finds the tunnel down; the listener is stopped, and every socket it
   ever bound is closed with its accept loop ended.
   */
  lemma NothingLeftBehind(steps: seq<Step>)
    requires Run(INIT, steps).pc.Returned?
    ensures var p := Run(INIT, steps);
      && p.tunnel.run.Returned? && p.tunnel.f.netNet == None && p.tunnel.f.device == None
      && (forall d :: 0 <= d < |p.tunnel.closes| ==> p.tunnel.closes[d] == 1)
      && !p.listener.started && p.listener.calls == map[]
      && (forall g :: 0 <= g < |p.listener.gens| ==> Quiet(p.listener.gens[g]))
  {
    RunKeepsInv(INIT, steps);
    ReturnedProxy(Run(INIT, steps));
  }
}
