/**
 What Proxy.Run does when: it waits exactly until it has seen the tunnel out of Idle, then serves whether or not the
 tunnel is up, and once cancelled it can always return.
 */
module ProxyLaws {
  import opened Prelude
  import opened ProxyComposition
  import TunnelFields
  import T = TunnelMachine
  import R = TunnelRounds
  import L = ListenerGenerations
  import LL = ListenerLaws

  lemma Extends(p: Proxy, steps: seq<Step>, step: Step)
    ensures Run(p, steps + [step]) == Next(Run(p, steps), step)
  {
    assert (steps + [step])[..|steps|] == steps;
  }

  /** The steps lead from p to q. */
  predicate Leads(p: Proxy, steps: seq<Step>, q: Proxy) { Run(p, steps) == q }

  lemma Then(p: Proxy, steps: seq<Step>, q: Proxy, step: Step, after: Proxy)
    requires Leads(p, steps, q) && Next(q, step) == after
    ensures Leads(p, steps + [step], after)
  {
    Extends(p, steps, step);
  }

  // ---------- how long the proxy waits ----------

  /** The proxy looks at the tunnel and finds it connecting, running or failed. */
  predicate FindsStarted(p: Proxy, step: Step)
  {
    && step.Own? && p.pc == Polling
    && (p.tunnel.f.state == TunnelFields.Connecting || p.tunnel.f.state == TunnelFields.Up
        || p.tunnel.f.state == TunnelFields.Degraded || p.tunnel.f.state == TunnelFields.Failed)
  }

  /** The proxy has found the tunnel started in some step of a run. */
  predicate HasFound(steps: seq<Step>)
    decreases |steps|
  {
    && steps != []
    && var before := steps[..|steps| - 1];
       HasFound(before) || FindsStarted(Run(INIT, before), steps[|steps| - 1])
  }

  /** The proxy waits for the tunnel to start, or has given that up. */
  predicate Waits(pc: PC) { pc == Spawning || pc == Polling || pc == Selecting || pc == JoiningTunnel(true) }

  /** The proxy is beyond the wait. */
  predicate Beyond(pc: PC)
  {
    || pc == Starting || pc.InStart? || pc == AwaitingCancel || pc == Stopping || pc.InStop?
    || pc == JoiningTunnel(false) || pc == Clearing
  }

  lemma WaitByOwnStep(p: Proxy, ok: bool)
    ensures var q := OwnNext(p, ok);
      && (Beyond(p.pc) ==> Beyond(q.pc) || q.pc == Returned)
      && (p.pc == Returned ==> q.pc == Returned)
      && (Waits(p.pc) ==>
            if FindsStarted(p, Own(ok)) then q.pc == Starting else Waits(q.pc) || q.pc == Returned)
  {
  }

  lemma OthersKeepPC(p: Proxy, step: Step)
    requires !step.Own?
    ensures Next(p, step).pc == p.pc
  {
  }

  /** The proxy goes on to bind its listener exactly if it has found the tunnel connecting, running or failed: it
      waits for nothing more, and for nothing less. */
  lemma {:induction false} WaitsExactlyUntilStarted(steps: seq<Step>)
    ensures var pc := Run(INIT, steps).pc;
      if HasFound(steps) then Beyond(pc) || pc == Returned else Waits(pc) || pc == Returned
    decreases |steps|
  {
    if steps == [] {
    } else {
      var before, step := steps[..|steps| - 1], steps[|steps| - 1];
      WaitsExactlyUntilStarted(before);
      if step.Own? { WaitByOwnStep(Run(INIT, before), step.ok); } else { OthersKeepPC(Run(INIT, before), step); }
    }
  }

  /** While the tunnel is Idle a look and a tick of the poll change nothing; if the context ends instead, the proxy
      goes on to join the tunnel without having bound anything. */
  lemma PollRound(p: Proxy, any: bool)
    requires p.pc == Polling && p.tunnel.f.state == TunnelFields.Idle
    ensures Leads(p, [Own(any)] + [Own(true)], p)
    ensures Leads(p, [Own(any)] + [Own(false)], if p.tunnel.cancelled then p.(pc := JoiningTunnel(true))
                                                else p.(pc := Selecting))
  {
    assert [] + [Own(any)] == [Own(any)];
    Then(p, [], p, Own(any), p.(pc := Selecting));
    Then(p, [Own(any)], p.(pc := Selecting), Own(true), p);
    Then(p, [Own(any)], p.(pc := Selecting), Own(false),
         if p.tunnel.cancelled then p.(pc := JoiningTunnel(true)) else p.(pc := Selecting));
  }

  /** The listener after a first Start: one socket, open and serving. */
  function Serving(): L.Listener
  {
    L.Listener(true, Some(0), Some(0), Some(0), Some(0), false,
               [L.Generation(0, false, false, false, L.Serving, L.CWaiting, 0, 0, None, None)], map[], 1)
  }

  lemma ListenerStarts()
    ensures var one := L.StartSection(L.INIT, true);
      && one.issued == 1 && 0 in one.calls
      && var two := L.Next(one, L.Advance(0));
         && 0 in two.calls && L.Next(two, L.Advance(0)) == Serving()
  {
    assert L.INIT.calls == map[] && L.INIT.gens == [];
    var one := L.StartSection(L.INIT, true);
    var two := L.Next(one, L.Advance(0));
    assert two.gens == [L.New(0).(closer := L.CWaiting)];
    assert two.calls == map[0 := L.SpawningAccept(0)];
    assert L.Next(two, L.Advance(0)).calls == map[];
  }

  /** Once it has found the tunnel started, up or not, the proxy serves on one open socket; if it cannot bind, it
      waits for the end of its context without one. */
  lemma ServesOnceStarted(p: Proxy)
    requires FindsStarted(p, Own(true)) && p.listener == L.INIT
    ensures Leads(p, [Own(true)] + [Own(true)] + [Own(true)] + [Own(true)] + [Own(true)],
                  p.(pc := AwaitingCancel, listener := Serving()))
    ensures Leads(p, [Own(true)] + [Own(false)], p.(pc := AwaitingCancel, listener := L.INIT.(startErr := true)))
  {
    var one := L.StartSection(L.INIT, true);
    var two := L.Next(one, L.Advance(0));
    ListenerStarts();
    assert [] + [Own(true)] == [Own(true)];
    Then(p, [], p, Own(true), p.(pc := Starting));
    Then(p, [Own(true)], p.(pc := Starting), Own(false),
         p.(pc := AwaitingCancel, listener := L.INIT.(startErr := true)));
    Then(p, [Own(true)], p.(pc := Starting), Own(true), p.(pc := InStart(0), listener := one));
    Then(p, [Own(true)] + [Own(true)], p.(pc := InStart(0), listener := one), Own(true),
         p.(pc := InStart(0), listener := two));
    Then(p, [Own(true)] + [Own(true)] + [Own(true)], p.(pc := InStart(0), listener := two), Own(true),
         p.(pc := InStart(0), listener := Serving()));
    Then(p, [Own(true)] + [Own(true)] + [Own(true)] + [Own(true)], p.(pc := InStart(0), listener := Serving()),
         Own(true), p.(pc := AwaitingCancel, listener := Serving()));
  }

  // ---------- how long the proxy serves ----------

  /** The proxy stops its listener, joins its tunnel, or is beyond that. */
  predicate Ending(pc: PC)
  {
    pc == Stopping || pc.InStop? || pc.JoiningTunnel? || pc == Clearing || pc == Returned
  }

  /** Until its context ends the proxy ends nothing, and what it has bound is started. */
  predicate Lasts(p: Proxy)
  {
    && (Ending(p.pc) ==> p.tunnel.cancelled)
    && (!Ending(p.pc) && p.listener.gens != [] ==> p.listener.started && |p.listener.gens| == 1 && Beyond(p.pc))
  }

  lemma AdvanceLasts(l: L.Listener, call: nat)
    ensures var n := L.Next(l, L.Advance(call)); n.started == l.started && |n.gens| == |l.gens|
  {
  }

  lemma OwnStepLasts(p: Proxy, ok: bool)
    requires Lasts(p) && OwnInv(p)
    ensures Lasts(OwnNext(p, ok))
  {
    if p.pc.InStart? && p.pc.call in p.listener.calls { AdvanceLasts(p.listener, p.pc.call); }
  }

  lemma RunStaysCancelled(m: T.Machine, c: T.Choice)
    ensures T.RunNext(m, c).cancelled == m.cancelled
  {
    assert T.BringUpNext(m, c).cancelled == m.cancelled;
  }

  lemma TunnelStaysCancelled(m: T.Machine, step: T.Step)
    requires m.cancelled
    ensures T.Next(m, step).cancelled
  {
    if step.Run? { RunStaysCancelled(m, step.choice); }
  }

  lemma CancelledStays(m: T.Machine, step: T.Step)
    ensures m.cancelled ==> T.Next(m, step).cancelled
  {
    if m.cancelled { TunnelStaysCancelled(m, step); }
  }

  lemma StepLasts(p: Proxy, step: Step)
    requires Lasts(p) && OwnInv(p)
    ensures Lasts(Next(p, step))
  {
    match step
    case Own(ok) => OwnStepLasts(p, ok);
    case Tunnel(s) => CancelledStays(p.tunnel, s);
    case Background(s) => if IsBackground(p, s) { L.BackgroundFrame(p.listener, s); }
    case Cancel =>
  }

  /** The proxy stops its listener and joins its tunnel only after its context has ended; until then a listener that was
      bound stays started. */
  lemma {:induction false} ServesUntilCancelled(steps: seq<Step>)
    ensures Lasts(Run(INIT, steps))
    decreases |steps|
  {
    if steps == [] {
    } else {
      ServesUntilCancelled(steps[..|steps| - 1]);
      RunKeepsInv(INIT, steps[..|steps| - 1]);
      StepLasts(Run(INIT, steps[..|steps| - 1]), steps[|steps| - 1]);
    }
  }

  /** The context of a socket ends only with that of the proxy. */
  predicate SharesContext(p: Proxy)
  {
    forall g :: 0 <= g < |p.listener.gens| && p.listener.gens[g].ctxDone ==> p.tunnel.cancelled
  }

  lemma StartCancelsNothing(l: L.Listener, call: nat)
    requires L.Inv(l) && l.started && |l.gens| == 1
    ensures var n := L.Next(l, L.Advance(call)); |n.gens| == 1 && n.gens[0].ctxDone == l.gens[0].ctxDone
  {
    if call in l.calls { assert L.CallOK(l, call); }
  }

  lemma OwnStepShares(p: Proxy, ok: bool)
    requires SharesContext(p) && Lasts(p) && Inv(p)
    ensures SharesContext(OwnNext(p, ok))
  {
    if p.pc.InStart? && p.pc.call in p.listener.calls {
      assert L.CallOK(p.listener, p.pc.call);
      StartCancelsNothing(p.listener, p.pc.call);
    }
  }

  lemma BackgroundShares(p: Proxy, step: L.Step)
    requires SharesContext(p) && IsBackground(p, step)
    ensures SharesContext(p.(listener := L.Next(p.listener, step)))
  {
  }

  lemma StepShares(p: Proxy, step: Step)
    requires SharesContext(p) && Lasts(p) && Inv(p)
    ensures SharesContext(Next(p, step))
  {
    match step
    case Own(ok) => OwnStepShares(p, ok);
    case Tunnel(s) => CancelledStays(p.tunnel, s);
    case Background(s) => if IsBackground(p, s) { BackgroundShares(p, s); }
    case Cancel =>
  }

  /** No socket loses its context before the proxy does. */
  lemma {:induction false} SocketsShareContext(steps: seq<Step>)
    ensures SharesContext(Run(INIT, steps))
    decreases |steps|
  {
    if steps == [] {
    } else {
      var before := steps[..|steps| - 1];
      SocketsShareContext(before);
      ServesUntilCancelled(before);
      RunKeepsInv(INIT, before);
      StepShares(Run(INIT, before), steps[|steps| - 1]);
    }
  }

  /** And when the proxy's context ends, that of a socket can. */
  lemma ContextReaches(p: Proxy, g: nat)
    requires p.tunnel.cancelled && g < |p.listener.gens|
    ensures Next(p, Background(L.ParentCancel(g)))
         == p.(listener := L.Update(p.listener, g, p.listener.gens[g].(ctxDone := true)))
  {
  }

  // ---------- a cancelled proxy returns ----------

  /** The steps of the tunnel as steps of the proxy. */
  function AsTunnel(steps: seq<T.Step>): seq<Step>
    decreases |steps|
  {
    if steps == [] then [] else AsTunnel(steps[..|steps| - 1]) + [Tunnel(steps[|steps| - 1])]
  }

  lemma TunnelMoves(p: Proxy, step: T.Step)
    requires p.pc != Spawning && p.tunnel.cancelled
    ensures Next(p, Tunnel(step)) == p.(tunnel := T.Next(p.tunnel, step))
  {
  }

  lemma {:induction false} TunnelRuns(p: Proxy, steps: seq<Step>, moves: seq<T.Step>)
    requires Run(p, steps).pc != Spawning && Run(p, steps).tunnel.cancelled
    ensures Leads(p, steps + AsTunnel(moves),
                  Run(p, steps).(tunnel := T.Steps(Run(p, steps).tunnel, moves)))
    ensures T.Steps(Run(p, steps).tunnel, moves).cancelled
    decreases |moves|
  {
    var q := Run(p, steps);
    if moves == [] {
      assert steps + [] == steps;
    } else {
      var before, move := moves[..|moves| - 1], moves[|moves| - 1];
      TunnelRuns(p, steps, before);
      var r := q.(tunnel := T.Steps(q.tunnel, before));
      TunnelMoves(r, move);
      TunnelStaysCancelled(r.tunnel, move);
      Then(p, steps + AsTunnel(before), r, Tunnel(move), q.(tunnel := T.Steps(q.tunnel, moves)));
      assert steps + AsTunnel(before) + [Tunnel(move)] == steps + AsTunnel(moves);
    }
  }

  lemma TunnelReturns(p: Proxy, steps: seq<Step>) returns (longer: seq<Step>)
    requires Run(p, steps).pc != Spawning && Run(p, steps).tunnel.cancelled && T.Inv(Run(p, steps).tunnel)
    ensures var q, r := Run(p, steps), Run(p, longer); r == q.(tunnel := r.tunnel) && r.tunnel.run.Returned?
    ensures Run(p, longer).tunnel.cancelled
  {
    var m := Run(p, steps).tunnel;
    var moves := R.SnapshotsEnd(m, []);
    moves := R.FreeTunnelReturns(m, moves);
    TunnelRuns(p, steps, moves);
    longer := steps + AsTunnel(moves);
  }

  /** What the way to the return relies on. */
  predicate Sound(p: Proxy) { Inv(p) && LL.StarterInv(p.listener) }

  lemma OwnKeepsStarters(p: Proxy, ok: bool)
    requires Sound(p)
    ensures LL.StarterInv(OwnNext(p, ok).listener)
  {
    match p.pc
    case Starting => LL.StepKeepsStarters(p.listener, L.StartCall(ok));
    case InStart(call) => LL.StepKeepsStarters(p.listener, L.Advance(call));
    case Stopping => LL.StepKeepsStarters(p.listener, L.StopCall);
    case InStop(call) => LL.StepKeepsStarters(p.listener, L.Advance(call));
    case _ =>
  }

  lemma StepKeepsSound(p: Proxy, step: Step)
    requires Sound(p)
    ensures Sound(Next(p, step))
  {
    StepKeepsInv(p, step);
    match step
    case Own(ok) => OwnKeepsStarters(p, ok);
    case Background(s) => LL.StepKeepsStarters(p.listener, s);
    case _ =>
  }

  lemma {:induction false} RunKeepsSound(p: Proxy, steps: seq<Step>)
    requires Sound(p)
    ensures Sound(Run(p, steps))
    decreases |steps|
  {
    if steps == [] {
    } else {
      RunKeepsSound(p, steps[..|steps| - 1]);
      StepKeepsSound(Run(p, steps[..|steps| - 1]), steps[|steps| - 1]);
    }
  }

  function Rank(pc: PC): nat
  {
    match pc
    case Spawning => 9
    case Polling => 8
    case Selecting => 7
    case Starting => 7
    case InStart(_) => 6
    case AwaitingCancel => 5
    case Stopping => 4
    case InStop(_) => 3
    case JoiningTunnel(_) => 2
    case Clearing => 1
    case Returned => 0
  }

  /** The proxy is in a call of its listener that has not returned. */
  predicate InCall(p: Proxy)
  {
    && (p.pc.InStart? || p.pc.InStop?) && p.pc.call in p.listener.calls
    && p.listener.calls[p.pc.call].g < |p.listener.gens|
  }

  function InCallLeft(p: Proxy): nat { if InCall(p) then 1 + LL.CallLeft(p.listener, p.pc.call) else 0 }

  /** A step towards the return: the proxy's own, or one of the accept loop that its Stop waits for. */
  function Towards(p: Proxy): Step
  {
    if InCall(p) then
      var step := LL.Towards(p.listener, p.pc.call);
      if step.Advance? then Own(true) else Background(step)
    else Own(p.pc.Polling?)
  }

  lemma StopsWhatWasStarted(p: Proxy, call: nat)
    requires Sound(p) && InCall(p) && p.pc.call == call && p.listener.calls[call].Joining?
    ensures p.listener.gens[p.listener.calls[call].g].accept != L.NotStarted
  {
    assert LL.StarterOK(p.listener, p.listener.calls[call].g);
  }

  lemma TowardsInCall(p: Proxy)
    requires Sound(p) && InCall(p)
    ensures Next(p, Towards(p)) == p.(listener := L.Next(p.listener, LL.Towards(p.listener, p.pc.call)))
  {
    if p.listener.calls[p.pc.call].Joining? { StopsWhatWasStarted(p, p.pc.call); }
  }

  lemma CallComesCloser(p: Proxy)
    requires Sound(p) && InCall(p)
    ensures var q := Next(p, Towards(p)); q.pc == p.pc && q.tunnel == p.tunnel && InCallLeft(q) < InCallLeft(p)
  {
    TowardsInCall(p);
    assert L.CallOK(p.listener, p.pc.call);
    LL.ComesCloser(p.listener, p.pc.call);
  }

  lemma UnboundComesCloser(p: Proxy)
    requires OwnInv(p) && p.tunnel.cancelled && Unbound(p.pc) && p.pc != JoiningTunnel(true)
    ensures var q := OwnNext(p, p.pc.Polling?); Rank(q.pc) < Rank(p.pc) && q.tunnel == p.tunnel
  {
  }

  lemma BoundComesCloser(p: Proxy)
    requires p.tunnel.cancelled && !Unbound(p.pc) && !p.pc.Returned?
    requires p.pc.InStart? || p.pc.InStop? ==> p.pc.call !in p.listener.calls
    requires p.pc.JoiningTunnel? ==> p.tunnel.run.Returned?
    ensures var q := OwnNext(p, false); Rank(q.pc) < Rank(p.pc) && q.tunnel == p.tunnel
  {
  }

  lemma OtherStepComesCloser(p: Proxy)
    requires Sound(p) && p.tunnel.cancelled && !p.pc.Returned? && !InCall(p)
    requires p.pc.JoiningTunnel? ==> p.tunnel.run.Returned?
    ensures var q := Next(p, Towards(p)); Rank(q.pc) < Rank(p.pc) && q.tunnel == p.tunnel
  {
    assert forall call :: call in p.listener.calls ==> L.CallOK(p.listener, call);
    if p.pc != JoiningTunnel(true) {
      if Unbound(p.pc) { UnboundComesCloser(p); } else { BoundComesCloser(p); }
    }
  }

  lemma {:induction false} ProxyReturns(p: Proxy, steps: seq<Step>) returns (longer: seq<Step>)
    requires Sound(p) && Run(p, steps).tunnel.cancelled
    ensures Run(p, longer).pc.Returned?
    decreases Rank(Run(p, steps).pc), InCallLeft(Run(p, steps))
  {
    longer := steps;
    RunKeepsSound(p, steps);
    if !Run(p, steps).pc.Returned? {
      if Run(p, steps).pc.JoiningTunnel? { longer := TunnelReturns(p, steps); }
      RunKeepsSound(p, longer);
      var q := Run(p, longer);
      if InCall(q) { CallComesCloser(q); } else { OtherStepComesCloser(q); }
      Extends(p, longer, Towards(q));
      longer := ProxyReturns(p, longer + [Towards(q)]);
    }
  }

  /** From every reachable state, whatever the tunnel, the listener and its goroutines are at, a cancelled proxy can
      come to return. */
  lemma CancelledProxyCanReturn(steps: seq<Step>) returns (longer: seq<Step>)
    ensures Run(Run(INIT, steps + [Cancel]), longer).pc.Returned?
  {
    RunKeepsSound(INIT, steps + [Cancel]);
    Extends(INIT, steps, Cancel);
    longer := ProxyReturns(Run(INIT, steps + [Cancel]), []);
  }
}
