/**
 SocksListener (socks_listener.go): any number of concurrent Start and Stop calls.  Each Start that binds
 makes a generation: a socket, a closer goroutine and an accept loop.  A Stop takes the current generation
 under the mutex, then cancels it and waits for its accept loop outside the mutex.
 */
module ListenerGenerations {
  import opened Prelude

  datatype AcceptPC = NotStarted | Serving | ClosingSocket | Finishing | Ended

  datatype CloserPC = CNotStarted | CWaiting | CEnded

  datatype Generation = Generation(
    starter: nat,              // the Start that bound the socket
    ctxDone: bool,             // listenerCtx has ended
    closed: bool,              // the socket has been closed
    done: bool,                // the done channel has been closed
    accept: AcceptPC,
    closer: CloserPC,
    accepted: nat,             // connections accepted on the socket
    cancels: nat,              // times a Stop called cancel
    taker: Option<nat>,        // the Stop that took the generation
    atReturn: Option<nat>)     // connections accepted when that Stop returned

  function New(starter: nat): Generation
  {
    Generation(starter, false, false, false, NotStarted, CNotStarted, 0, 0, None, None)
  }

  /** A call that has left its critical section and is still running. */
  datatype Call = SpawningCloser(g: nat) | SpawningAccept(g: nat) | Cancelling(g: nat) | Joining(g: nat)

  datatype Listener = Listener(
    started: bool,
    listener: Option<nat>, server: Option<nat>, cancel: Option<nat>, done: Option<nat>,
    startErr: bool,
    gens: seq<Generation>,
    calls: map<nat, Call>,     // the calls in progress; every call has its own number
    issued: nat)               // calls are numbered below this

  const INIT := Listener(false, None, None, None, None, false, [], map[], 0)

  datatype Step =
    | StartCall(bindOK: bool)
    | StopCall
    | Advance(call: nat)
    | ParentCancel(g: nat)
    | Close(g: nat)
    | Accept(g: nat)
    | AcceptFails(g: nat)
    | Unwind(g: nat)

  function Update(l: Listener, g: nat, gen: Generation): Listener
  {
    if g < |l.gens| then l.(gens := l.gens[g := gen]) else l
  }

  /** The critical section of Start: a bound socket becomes the current generation. */
  function StartSection(l: Listener, bindOK: bool): Listener
  {
    if l.started then l
    else if !bindOK then l.(startErr := true)
    else
      var g := |l.gens|;
      l.(started := true, listener := Some(g), server := Some(g), cancel := Some(g), done := Some(g),
         startErr := false, gens := l.gens + [New(l.issued)], calls := l.calls[l.issued := SpawningCloser(g)],
         issued := l.issued + 1)
  }

  /** The critical section of Stop: the current generation is taken and the fields are cleared together. */
  function StopSection(l: Listener): Listener
  {
    if !l.started || l.done.None? || l.done.value >= |l.gens| then l
    else
      var g := l.done.value;
      l.(started := false, listener := None, server := None, cancel := None, done := None,
         gens := l.gens[g := l.gens[g].(taker := Some(l.issued))],
         calls := l.calls[l.issued := Cancelling(g)], issued := l.issued + 1)
  }

  function AdvanceCall(l: Listener, call: nat): Listener
    requires call in l.calls && l.calls[call].g < |l.gens|
  {
    var gen := l.gens[l.calls[call].g];
    match l.calls[call]
    case SpawningCloser(g) => Update(l, g, gen.(closer := CWaiting)).(calls := l.calls[call := SpawningAccept(g)])
    case SpawningAccept(g) => Update(l, g, gen.(accept := Serving)).(calls := l.calls - {call})
    case Cancelling(g) =>
      Update(l, g, gen.(ctxDone := true, cancels := gen.cancels + 1)).(calls := l.calls[call := Joining(g)])
    case Joining(g) =>
      if gen.done then Update(l, g, gen.(atReturn := Some(gen.accepted))).(calls := l.calls - {call}) else l
  }

  function GenNext(gen: Generation, step: Step): Generation
  {
    match step
    case ParentCancel(_) => gen.(ctxDone := true)
    case Close(_) => if gen.closer == CWaiting && gen.ctxDone then gen.(closed := true, closer := CEnded) else gen
    case Accept(_) => if gen.accept == Serving && !gen.closed then gen.(accepted := gen.accepted + 1) else gen
    case AcceptFails(_) => if gen.accept == Serving then gen.(accept := ClosingSocket) else gen
    case Unwind(_) =>
      if gen.accept == ClosingSocket then gen.(accept := Finishing, closed := true)
      else if gen.accept == Finishing then gen.(accept := Ended, done := true)
      else gen
    case _ => gen
  }

  function Next(l: Listener, step: Step): Listener
  {
    match step
    case StartCall(bindOK) => StartSection(l, bindOK)
    case StopCall => StopSection(l)
    case Advance(call) => if call in l.calls && l.calls[call].g < |l.gens| then AdvanceCall(l, call) else l
    case _ => if step.g < |l.gens| then Update(l, step.g, GenNext(l.gens[step.g], step)) else l
  }

  function Run(l: Listener, steps: seq<Step>): Listener
    decreases |steps|
  {
    if steps == [] then l else Next(Run(l, steps[..|steps| - 1]), steps[|steps| - 1])
  }

  // ---------- the invariant ----------

  /** The five fields are set and cleared together and name one generation, the newest. */
  predicate FieldsInv(l: Listener)
  {
    && l.listener == l.server == l.cancel == l.done
    && (l.started <==> l.listener.Some?)
    && (l.started ==> |l.gens| > 0 && l.listener == Some(|l.gens| - 1))
  }

  /** The generations that no Stop has taken: the current one, if there is one. */
  predicate TakenInv(l: Listener)
  {
    forall g :: 0 <= g < |l.gens| ==> (l.gens[g].taker.None? <==> l.listener == Some(g))
  }

  predicate GenInv(gen: Generation)
  {
    && (gen.closed <==> gen.closer == CEnded || gen.accept == Finishing || gen.accept == Ended)
    && (gen.closer == CEnded ==> gen.ctxDone)
    && (gen.done <==> gen.accept == Ended)
    && (gen.accept == NotStarted ==> gen.accepted == 0)
    && gen.cancels <= 1
    && (gen.cancels > 0 ==> gen.taker.Some? && gen.ctxDone)
    && (gen.atReturn.Some? ==> gen.done && gen.cancels == 1 && gen.accepted == gen.atReturn.value)
  }

  predicate CallOK(l: Listener, call: nat)
    requires call in l.calls
  {
    var c := l.calls[call];
    && call < l.issued && c.g < |l.gens|
    && match c
       case SpawningCloser(g) =>
         l.gens[g].starter == call && l.gens[g].closer == CNotStarted && l.gens[g].accept == NotStarted
       case SpawningAccept(g) => l.gens[g].starter == call && l.gens[g].accept == NotStarted
       case Cancelling(g) => l.gens[g].taker == Some(call) && l.gens[g].cancels == 0
       case Joining(g) => l.gens[g].taker == Some(call) && l.gens[g].cancels == 1
  }

  predicate Starting(c: Call) { c.SpawningCloser? || c.SpawningAccept? }

  /** A Stop takes one generation, and while it runs it works on that one. */
  predicate TakerOK(l: Listener, g: nat, stop: nat)
  {
    stop < l.issued && (stop in l.calls ==> !Starting(l.calls[stop]) && l.calls[stop].g == g)
  }

  predicate CallsInv(l: Listener)
  {
    && (forall call :: call in l.calls ==> CallOK(l, call))
    && (forall g :: 0 <= g < |l.gens| && l.gens[g].taker.Some? ==> TakerOK(l, g, l.gens[g].taker.value))
  }

  /** A Stop that is no longer running has returned from its generation. */
  predicate ReturnedInv(l: Listener)
  {
    forall g :: 0 <= g < |l.gens| ==>
      l.gens[g].taker.Some? && l.gens[g].taker.value !in l.calls ==> l.gens[g].atReturn.Some?
  }

  predicate Inv(l: Listener)
  {
    && FieldsInv(l) && TakenInv(l) && CallsInv(l) && ReturnedInv(l)
    && forall g :: 0 <= g < |l.gens| ==> GenInv(l.gens[g])
  }

  /** What no step takes back: the taker of a generation and the count at its Stop's return. */
  predicate Keeps(l: Listener, m: Listener)
  {
    && |l.gens| <= |m.gens|
    && forall g :: 0 <= g < |l.gens| ==>
         && (l.gens[g].taker.Some? ==> m.gens[g].taker == l.gens[g].taker)
         && (l.gens[g].atReturn.Some? ==>
               m.gens[g].atReturn == l.gens[g].atReturn && m.gens[g].accepted == l.gens[g].accepted)
  }

  lemma StartKeepsInv(l: Listener, bindOK: bool)
    requires Inv(l)
    ensures Inv(StartSection(l, bindOK)) && Keeps(l, StartSection(l, bindOK))
  {
    var n := StartSection(l, bindOK);
    forall call | call in n.calls ensures CallOK(n, call) {
      if call in l.calls { assert CallOK(l, call); }
    }
  }

  lemma StopKeepsInv(l: Listener)
    requires Inv(l)
    ensures Inv(StopSection(l)) && Keeps(l, StopSection(l))
  {
    var n := StopSection(l);
    forall call | call in n.calls ensures CallOK(n, call) {
      if call in l.calls { assert CallOK(l, call); }
    }
  }

  /** What a generation may become while the calls in progress stay as they are. */
  predicate Evolves(a: Generation, b: Generation)
  {
    && b.starter == a.starter && b.taker == a.taker && b.cancels == a.cancels && b.atReturn == a.atReturn
    && (a.accept == NotStarted ==> b.accept == NotStarted)
    && (a.closer == CNotStarted ==> b.closer == CNotStarted)
  }

  lemma EvolutionKeepsCalls(l: Listener, g: nat, gen: Generation)
    requires CallsInv(l) && g < |l.gens| && Evolves(l.gens[g], gen)
    ensures CallsInv(Update(l, g, gen))
  {
    var n := Update(l, g, gen);
    forall c | c in n.calls ensures CallOK(n, c) { assert CallOK(l, c); }
  }

  lemma EvolutionKeepsInv(l: Listener, g: nat, gen: Generation)
    requires Inv(l) && g < |l.gens| && Evolves(l.gens[g], gen) && GenInv(gen)
    ensures Inv(Update(l, g, gen))
  {
    EvolutionKeepsCalls(l, g, gen);
  }

  lemma GenNextEvolves(gen: Generation, step: Step)
    requires GenInv(gen)
    ensures Evolves(gen, GenNext(gen, step)) && GenInv(GenNext(gen, step))
    ensures gen.atReturn.Some? ==> GenNext(gen, step).accepted == gen.accepted
  {
  }

  lemma AdvanceKeepsOther(l: Listener, call: nat, c: nat)
    requires call in l.calls && c in l.calls && c != call && CallOK(l, call) && CallOK(l, c)
    ensures c in AdvanceCall(l, call).calls && CallOK(AdvanceCall(l, call), c)
  {
  }

  lemma AdvanceKeepsSelf(l: Listener, call: nat)
    requires call in l.calls && CallOK(l, call)
    ensures var n := AdvanceCall(l, call); call in n.calls ==> CallOK(n, call)
    ensures var n, g := AdvanceCall(l, call), l.calls[call].g;
      && |n.gens| == |l.gens| && n.gens[g].taker == l.gens[g].taker && n.gens[g].accepted == l.gens[g].accepted
      && (GenInv(l.gens[g]) ==> GenInv(n.gens[g]))
      && (l.gens[g].atReturn.Some? && GenInv(l.gens[g]) ==> n.gens[g].atReturn == l.gens[g].atReturn)
      && (call !in n.calls && l.gens[g].taker == Some(call) && l.calls[call].Joining? ==> n.gens[g].atReturn.Some?)
      && forall h :: 0 <= h < |l.gens| && h != g ==> n.gens[h] == l.gens[h]
  {
  }

  lemma AdvanceKeepsCalls(l: Listener, call: nat)
    requires CallsInv(l) && call in l.calls
    ensures CallsInv(AdvanceCall(l, call))
  {
    var n := AdvanceCall(l, call);
    assert CallOK(l, call);
    AdvanceKeepsSelf(l, call);
    forall c | c in n.calls ensures CallOK(n, c) {
      assert CallOK(l, c);
      if c != call { AdvanceKeepsOther(l, call, c); }
    }
  }

  /** A call that ends without having stopped anything was not the taker of a generation. */
  lemma AdvanceKeepsReturned(l: Listener, call: nat)
    requires CallsInv(l) && ReturnedInv(l) && call in l.calls && GenInv(l.gens[l.calls[call].g])
    requires forall g :: 0 <= g < |l.gens| && l.gens[g].taker == Some(call) ==>
      !Starting(l.calls[call]) && g == l.calls[call].g
    ensures ReturnedInv(AdvanceCall(l, call))
  {
    assert CallOK(l, call);
    AdvanceKeepsSelf(l, call);
  }

  lemma AdvanceKeepsFields(l: Listener, call: nat)
    requires FieldsInv(l) && TakenInv(l) && call in l.calls && CallOK(l, call)
    ensures FieldsInv(AdvanceCall(l, call)) && TakenInv(AdvanceCall(l, call))
  {
    AdvanceKeepsSelf(l, call);
  }

  lemma AdvanceKeepsInv(l: Listener, call: nat)
    requires Inv(l) && call in l.calls
    ensures Inv(AdvanceCall(l, call)) && Keeps(l, AdvanceCall(l, call))
  {
    assert CallOK(l, call);
    AdvanceKeepsCalls(l, call);
    AdvanceKeepsSelf(l, call);
    AdvanceKeepsReturned(l, call);
    AdvanceKeepsFields(l, call);
  }

  lemma GenStepKeepsInv(l: Listener, step: Step)
    requires Inv(l) && !step.StartCall? && !step.StopCall? && !step.Advance?
    ensures Inv(Next(l, step)) && Keeps(l, Next(l, step))
  {
    if step.g < |l.gens| {
      GenNextEvolves(l.gens[step.g], step);
      EvolutionKeepsInv(l, step.g, GenNext(l.gens[step.g], step));
    }
  }

  /** The two critical sections and what they do to the calls in progress. */
  lemma SectionFrame(l: Listener, bindOK: bool)
    ensures var n := StartSection(l, bindOK);
      && (n == l || n == l.(startErr := true) || (n.started && n.issued == l.issued + 1))
      && (forall c :: c in n.calls ==> c in l.calls || (c == l.issued && n.issued == l.issued + 1))
    ensures var n := StopSection(l);
      && (n == l || (!n.started && n.issued == l.issued + 1)) && (FieldsInv(l) && TakenInv(l) ==> !n.started)
      && |n.gens| == |l.gens|
      && (forall c :: c in n.calls ==> c in l.calls || (c == l.issued && n.issued == l.issued + 1))
  {
  }

  /** The goroutines of a generation touch neither the fields nor the calls, and do nothing without one. */
  lemma BackgroundFrame(l: Listener, step: Step)
    requires !step.StartCall? && !step.StopCall? && !step.Advance?
    ensures var n := Next(l, step);
      && n.started == l.started && n.calls == l.calls && |n.gens| == |l.gens| && (l.gens == [] ==> n == l)
  {
  }

  lemma StepKeepsInv(l: Listener, step: Step)
    requires Inv(l)
    ensures Inv(Next(l, step)) && Keeps(l, Next(l, step))
  {
    match step
    case StartCall(bindOK) => StartKeepsInv(l, bindOK);
    case StopCall => StopKeepsInv(l);
    case Advance(call) => if call in l.calls && l.calls[call].g < |l.gens| { AdvanceKeepsInv(l, call); }
    case _ => GenStepKeepsInv(l, step);
  }

  lemma {:induction false} RunKeepsInv(l: Listener, steps: seq<Step>)
    requires Inv(l)
    ensures Inv(Run(l, steps)) && Keeps(l, Run(l, steps))
    decreases |steps|
  {
    if steps == [] {
    } else {
      RunKeepsInv(l, steps[..|steps| - 1]);
      StepKeepsInv(Run(l, steps[..|steps| - 1]), steps[|steps| - 1]);
    }
  }

  // ---------- the main results ----------

  /** In every reachable state the fields agree, and at most one generation is not yet taken by a Stop. */
  lemma FieldsAgree(steps: seq<Step>, g: nat, h: nat)
    ensures var l := Run(INIT, steps);
      && l.listener == l.server == l.cancel == l.done && (l.started <==> l.listener.Some?)
      && (g < |l.gens| && h < |l.gens| && l.gens[g].taker.None? && l.gens[h].taker.None? ==> g == h && l.started)
  {
    RunKeepsInv(INIT, steps);
  }

  /** A generation is cancelled by at most one Stop, the one that took it, and never changes hands. */
  lemma CancelledOnce(steps: seq<Step>, more: seq<Step>, g: nat)
    requires g < |Run(INIT, steps).gens|
    ensures var gen := Run(INIT, steps).gens[g];
      gen.cancels <= 1 && (gen.cancels == 1 ==> gen.taker.Some?)
    ensures var l, m := Run(INIT, steps), Run(Run(INIT, steps), more);
      g < |m.gens| && (l.gens[g].taker.Some? ==> m.gens[g].taker == l.gens[g].taker)
  {
    RunKeepsInv(INIT, steps);
    RunKeepsInv(Run(INIT, steps), more);
  }

  /** When the Stop that took a generation has returned, its accept loop has ended and its socket is closed,
      and in every continuation not one more connection is accepted on it. */
  lemma QuietAfterStop(steps: seq<Step>, more: seq<Step>, g: nat)
    requires g < |Run(INIT, steps).gens|
    requires var l := Run(INIT, steps); l.gens[g].taker.Some? && l.gens[g].taker.value !in l.calls
    ensures var l, m := Run(INIT, steps), Run(Run(INIT, steps), more);
      && l.gens[g].accept == Ended && l.gens[g].closed && l.gens[g].done && l.gens[g].cancels == 1
      && g < |m.gens| && m.gens[g].accepted == l.gens[g].accepted
  {
    RunKeepsInv(INIT, steps);
    RunKeepsInv(Run(INIT, steps), more);
  }

  // ---------- when a started listener has an open socket ----------

  /** Step n of a run ends the context that Start was given for a generation. */
  predicate EndsParent(steps: seq<Step>, n: nat, g: nat)
    requires n < |steps|
  {
    steps[n] == ParentCancel(g) && g < |Run(INIT, steps[..n]).gens|
  }

  /** At step n of a run Accept fails on the socket of a generation. */
  predicate FailsAccept(steps: seq<Step>, n: nat, g: nat)
    requires n < |steps|
  {
    var l := Run(INIT, steps[..n]);
    steps[n] == AcceptFails(g) && g < |l.gens| && l.gens[g].accept == Serving
  }

  predicate ParentEnded(steps: seq<Step>, g: nat) { exists n :: 0 <= n < |steps| && EndsParent(steps, n, g) }

  predicate AcceptFailed(steps: seq<Step>, g: nat) { exists n :: 0 <= n < |steps| && FailsAccept(steps, n, g) }

  lemma ParentEndedByStep(steps: seq<Step>, g: nat)
    requires steps != []
    ensures ParentEnded(steps, g) <==> ParentEnded(steps[..|steps| - 1], g) || EndsParent(steps, |steps| - 1, g)
  {
    var before, n := steps[..|steps| - 1], |steps| - 1;
    forall k | 0 <= k < n ensures EndsParent(steps, k, g) == EndsParent(before, k, g) {
      assert steps[..k] == before[..k];
    }
  }

  lemma AcceptFailedByStep(steps: seq<Step>, g: nat)
    requires steps != []
    ensures AcceptFailed(steps, g) <==> AcceptFailed(steps[..|steps| - 1], g) || FailsAccept(steps, |steps| - 1, g)
  {
    var before, n := steps[..|steps| - 1], |steps| - 1;
    forall k | 0 <= k < n ensures FailsAccept(steps, k, g) == FailsAccept(before, k, g) {
      assert steps[..k] == before[..k];
    }
  }

  predicate Unwinding(pc: AcceptPC) { pc == ClosingSocket || pc == Finishing || pc == Ended }

  /** What a generation shows of the events that concern it. */
  predicate ShowsEvents(gen: Generation, parentEnded: bool, acceptFailed: bool)
  {
    (gen.ctxDone <==> gen.cancels == 1 || parentEnded) && (Unwinding(gen.accept) <==> acceptFailed)
  }

  lemma SectionsShowEvents(l: Listener, step: Step, g: nat)
    requires step.StartCall? || step.StopCall?
    ensures var n := Next(l, step);
      && |l.gens| <= |n.gens|
      && (g < |l.gens| ==> n.gens[g] == l.gens[g].(taker := n.gens[g].taker))
      && (|l.gens| <= g < |n.gens| ==> ShowsEvents(n.gens[g], false, false))
  {
  }

  lemma AdvanceShowsEvents(l: Listener, call: nat, g: nat, parentEnded: bool, acceptFailed: bool)
    requires call in l.calls && CallOK(l, call) && g < |l.gens| && ShowsEvents(l.gens[g], parentEnded, acceptFailed)
    ensures ShowsEvents(AdvanceCall(l, call).gens[g], parentEnded, acceptFailed)
  {
  }

  lemma GenNextShowsEvents(gen: Generation, step: Step, parentEnded: bool, acceptFailed: bool)
    requires ShowsEvents(gen, parentEnded, acceptFailed)
    requires !step.StartCall? && !step.StopCall? && !step.Advance?
    ensures ShowsEvents(GenNext(gen, step), parentEnded || step.ParentCancel?,
                        acceptFailed || (step.AcceptFails? && gen.accept == Serving))
  {
  }

  lemma StepShowsEvents(l: Listener, step: Step, g: nat, parentEnded: bool, acceptFailed: bool)
    requires Inv(l) && g < |l.gens| && ShowsEvents(l.gens[g], parentEnded, acceptFailed)
    ensures g < |Next(l, step).gens|
    ensures ShowsEvents(Next(l, step).gens[g], parentEnded || step == ParentCancel(g),
                        acceptFailed || (step == AcceptFails(g) && l.gens[g].accept == Serving))
  {
    if step.StartCall? || step.StopCall? {
      SectionsShowEvents(l, step, g);
    } else if step.Advance? {
      if step.call in l.calls {
        assert CallOK(l, step.call);
        AdvanceShowsEvents(l, step.call, g, parentEnded, acceptFailed);
      }
    } else {
      GenNextShowsEvents(l.gens[g], step, parentEnded, acceptFailed);
    }
  }

  lemma NewShowsNothing(l: Listener, step: Step, g: nat)
    requires |l.gens| <= g < |Next(l, step).gens|
    ensures ShowsEvents(Next(l, step).gens[g], false, false)
  {
    if step.StartCall? || step.StopCall? { SectionsShowEvents(l, step, g); }
  }

  lemma {:induction false} NoEventsBefore(steps: seq<Step>, g: nat)
    requires g >= |Run(INIT, steps).gens|
    ensures !ParentEnded(steps, g) && !AcceptFailed(steps, g)
    decreases |steps|
  {
    if steps == [] {
    } else {
      var before := steps[..|steps| - 1];
      RunKeepsInv(INIT, before);
      StepKeepsInv(Run(INIT, before), steps[|steps| - 1]);
      NoEventsBefore(before, g);
      ParentEndedByStep(steps, g);
      AcceptFailedByStep(steps, g);
    }
  }

  lemma {:induction false} EventsShow(steps: seq<Step>, g: nat)
    requires g < |Run(INIT, steps).gens|
    ensures ShowsEvents(Run(INIT, steps).gens[g], ParentEnded(steps, g), AcceptFailed(steps, g))
    decreases |steps|
  {
    if steps == [] {
    } else {
      var before, step := steps[..|steps| - 1], steps[|steps| - 1];
      ParentEndedByStep(steps, g);
      AcceptFailedByStep(steps, g);
      if g < |Run(INIT, before).gens| {
        EventsShow(before, g);
        RunKeepsInv(INIT, before);
        StepShowsEvents(Run(INIT, before), step, g, ParentEnded(before, g), AcceptFailed(before, g));
      } else {
        NoEventsBefore(before, g);
        NewShowsNothing(Run(INIT, before), step, g);
      }
    }
  }

  /** The newest generation is the current one, and no Stop has cancelled it. */
  predicate HasCurrent(l: Listener)
  {
    && l.started && |l.gens| > 0 && l.listener == Some(|l.gens| - 1)
    && GenInv(l.gens[|l.gens| - 1]) && l.gens[|l.gens| - 1].cancels == 0
  }

  lemma StartedHasCurrent(l: Listener)
    requires Inv(l) && l.started
    ensures HasCurrent(l)
  {
  }

  lemma StartedRunHasCurrent(steps: seq<Step>)
    requires Run(INIT, steps).started
    ensures HasCurrent(Run(INIT, steps))
  {
    RunKeepsInv(INIT, steps);
    StartedHasCurrent(Run(INIT, steps));
  }

  /** A socket is closed iff its context has ended and the closer has run, or Accept has failed and the loop unwound. */
  predicate ClosedByEvents(gen: Generation, parentEnded: bool, acceptFailed: bool)
  {
    gen.closed <==>
      || (parentEnded && gen.closer == CEnded)
      || (acceptFailed && (gen.accept == Finishing || gen.accept == Ended))
  }

  lemma CurrentClosedByEvents(l: Listener, parentEnded: bool, acceptFailed: bool)
    requires HasCurrent(l) && ShowsEvents(l.gens[|l.gens| - 1], parentEnded, acceptFailed)
    ensures ClosedByEvents(l.gens[|l.gens| - 1], parentEnded, acceptFailed)
  {
  }

  /**
   In every reachable state with the listener started, the current socket is closed exactly when the caller's
   context has ended and the closer has run, or Accept has failed and the loop has unwound.
   */
  lemma StartedSocketClosedIff(steps: seq<Step>)
    requires Run(INIT, steps).started
    ensures |Run(INIT, steps).gens| > 0
    ensures var l := Run(INIT, steps);
      var g := |l.gens| - 1;
      ClosedByEvents(l.gens[g], ParentEnded(steps, g), AcceptFailed(steps, g))
  {
    StartedRunHasCurrent(steps);
    var g := |Run(INIT, steps).gens| - 1;
    EventsShow(steps, g);
    CurrentClosedByEvents(Run(INIT, steps), ParentEnded(steps, g), AcceptFailed(steps, g));
  }

  /** The generation after its closer and its accept loop have had a turn. */
  function AfterTurn(gen: Generation, g: nat): Generation { GenNext(GenNext(gen, Close(g)), Unwind(g)) }

  lemma TurnOfGeneration(l: Listener, g: nat)
    requires g < |l.gens|
    ensures Run(l, [Close(g), Unwind(g)]).gens == l.gens[g := AfterTurn(l.gens[g], g)]
  {
    assert [Close(g), Unwind(g)][..1] == [Close(g)] && [Close(g)][..0] == [];
    assert Run(l, [Close(g)]) == Next(l, Close(g));
  }

  lemma TurnCloses(gen: Generation, g: nat)
    requires GenInv(gen) && gen.closer != CNotStarted
    ensures AfterTurn(gen, g).closed <==> gen.ctxDone || Unwinding(gen.accept)
  {
  }

  /** Start does nothing; the socket is open and stays so unless an event has happened, and then closes by itself. */
  predicate NoOpFollowsEvents(l: Listener, g: nat, parentEnded: bool, acceptFailed: bool)
    requires g < |l.gens|
  {
    && StartSection(l, true) == l && l.listener == Some(g)
    && (!parentEnded && !acceptFailed ==> !l.gens[g].closed)
    && var after := Run(l, [Close(g), Unwind(g)]).gens;
       |after| == |l.gens| && (l.gens[g].closer != CNotStarted ==> (after[g].closed <==> parentEnded || acceptFailed))
  }

  lemma CurrentFollowsEvents(l: Listener, parentEnded: bool, acceptFailed: bool)
    requires HasCurrent(l) && ShowsEvents(l.gens[|l.gens| - 1], parentEnded, acceptFailed)
    ensures NoOpFollowsEvents(l, |l.gens| - 1, parentEnded, acceptFailed)
  {
    var g := |l.gens| - 1;
    TurnOfGeneration(l, g);
    if l.gens[g].closer != CNotStarted { TurnCloses(l.gens[g], g); }
  }

  /**
   So Start's doing nothing is right exactly as long as the caller's context is live and Accept has not failed: until
   then the socket is open and a turn of its goroutines leaves it open, and after that their next turn closes it.
   */
  lemma StartedSocketStaysOpenIff(steps: seq<Step>)
    requires Run(INIT, steps).started
    ensures |Run(INIT, steps).gens| > 0
    ensures var g := |Run(INIT, steps).gens| - 1;
      NoOpFollowsEvents(Run(INIT, steps), g, ParentEnded(steps, g), AcceptFailed(steps, g))
  {
    StartedRunHasCurrent(steps);
    var g := |Run(INIT, steps).gens| - 1;
    EventsShow(steps, g);
    CurrentFollowsEvents(Run(INIT, steps), ParentEnded(steps, g), AcceptFailed(steps, g));
  }

  lemma Extend(steps: seq<Step>, step: Step) returns (longer: seq<Step>)
    ensures Run(INIT, longer) == Next(Run(INIT, steps), step)
  {
    longer := steps + [step];
    assert longer[..|longer| - 1] == steps;
  }

  lemma ParentEndsFirst() returns (steps: seq<Step>)
    ensures var l := Run(INIT, steps);
      l.started && l.gens == [New(0).(ctxDone := true, accept := Serving, closer := CWaiting)]
  {
    steps := [];
    steps := Extend(steps, StartCall(true));
    steps := Extend(steps, Advance(0));
    steps := Extend(steps, Advance(0));
    steps := Extend(steps, ParentCancel(0));
  }

  lemma SocketClosesItself() returns (steps: seq<Step>)
    ensures var l := Run(INIT, steps);
      && l.started
      && l.gens == [New(0).(ctxDone := true, closed := true, accept := ClosingSocket, closer := CEnded)]
  {
    steps := ParentEndsFirst();
    steps := Extend(steps, Close(0));
    steps := Extend(steps, AcceptFails(0));
  }

  /** The start flag can outlive the socket: after the parent context ends, a later Start still finds the
      listener running and binds nothing, although nothing listens any more. */
  lemma StartedMayOutliveSocket() returns (steps: seq<Step>)
    ensures var l := Run(INIT, steps);
      && l.started
      && l.gens == [New(0).(ctxDone := true, closed := true, done := true, accept := Ended, closer := CEnded)]
      && Next(l, StartCall(true)) == l
  {
    steps := SocketClosesItself();
    steps := Extend(steps, Unwind(0));
    steps := Extend(steps, Unwind(0));
  }

  // ---------- the class ----------

  class SocksListener {
    var started: bool
    var listener: Option<nat>
    var server: Option<nat>
    var cancel: Option<nat>
    var done: Option<nat>
    var startErr: bool
    var gens: seq<Generation>
    var calls: map<nat, Call>
    var issued: nat

    function View(): Listener
      reads this
    {
      Listener(started, listener, server, cancel, done, startErr, gens, calls, issued)
    }

    constructor ()
      ensures View() == INIT
    {
      started, listener, server, cancel, done := false, None, None, None, None;
      startErr, gens, calls, issued := false, [], map[], 0;
    }

    /** Start up to the release of the mutex. */
    method Start(bindOK: bool) returns (ok: bool, bound: Option<nat>)
      modifies this
      ensures View() == StartSection(old(View()), bindOK)
      ensures ok == (old(started) || bindOK)
      ensures bound == if !old(started) && bindOK then Some(old(|gens|)) else None
    {
      if started { return true, None; }
      if !bindOK {
        startErr := true;
        return false, None;
      }
      var g := |gens|;
      listener, server, cancel, done := Some(g), Some(g), Some(g), Some(g);
      started, startErr := true, false;
      gens, calls, issued := gens + [New(issued)], calls[issued := SpawningCloser(g)], issued + 1;
      return true, Some(g);
    }

    /** Stop up to the release of the mutex. */
    method Stop() returns (taken: Option<nat>)
      requires Inv(View())
      modifies this
      ensures View() == StopSection(old(View()))
      ensures taken == if old(started) then old(done) else None
    {
      if !started { return None; }
      taken := done;
      var g := taken.value;
      started, listener, server, cancel, done := false, None, None, None, None;
      gens := gens[g := gens[g].(taker := Some(issued))];
      calls, issued := calls[issued := Cancelling(g)], issued + 1;
    }
  }
}
