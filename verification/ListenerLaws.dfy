/**
 What calls of Start and Stop do from their first step to their last, how many connections a socket accepts, and that
 every call in progress can return.
 */
module ListenerLaws {
  import opened Prelude
  import opened ListenerGenerations

  lemma Extends(l: Listener, steps: seq<Step>, step: Step)
    ensures Run(l, steps + [step]) == Next(Run(l, steps), step)
  {
    assert (steps + [step])[..|steps|] == steps;
  }

  /** The steps lead from l to n. */
  predicate Leads(l: Listener, steps: seq<Step>, n: Listener) { Run(l, steps) == n }

  lemma Then(l: Listener, steps: seq<Step>, n: Listener, step: Step, after: Listener)
    requires Leads(l, steps, n) && Next(n, step) == after
    ensures Leads(l, steps + [step], after)
  {
    Extends(l, steps, step);
  }

  // ---------- a Start from its first step to its last ----------

  /** The listener with one more generation, which is the current one. */
  function WithNew(l: Listener, gen: Generation): Listener
  {
    var g := Some(|l.gens|);
    Listener(true, g, g, g, g, false, l.gens + [gen], l.calls, l.issued + 1)
  }

  lemma NewCall(calls: map<nat, Call>, call: nat, a: Call, b: Call)
    requires call !in calls
    ensures calls[call := a][call := b] == calls[call := b] && calls[call := a] - {call} == calls
  {
  }

  lemma StartBegins(l: Listener, a: Call)
    requires !l.started && a == SpawningCloser(|l.gens|)
    ensures Leads(l, [StartCall(true)], WithNew(l, New(l.issued)).(calls := l.calls[l.issued := a]))
  {
    assert [] + [StartCall(true)] == [StartCall(true)];
    Then(l, [], l, StartCall(true), WithNew(l, New(l.issued)).(calls := l.calls[l.issued := a]));
  }

  lemma CloserSpawns(l: Listener, a: Call, b: Call)
    requires l.issued !in l.calls && a == SpawningCloser(|l.gens|) && b == SpawningAccept(|l.gens|)
    ensures var gen := New(l.issued);
      Next(WithNew(l, gen).(calls := l.calls[l.issued := a]), Advance(l.issued))
      == WithNew(l, gen.(closer := CWaiting)).(calls := l.calls[l.issued := b])
  {
    NewCall(l.calls, l.issued, a, b);
    assert (l.gens + [New(l.issued)])[|l.gens| := New(l.issued).(closer := CWaiting)]
        == l.gens + [New(l.issued).(closer := CWaiting)];
  }

  lemma AcceptSpawns(l: Listener, b: Call)
    requires l.issued !in l.calls && b == SpawningAccept(|l.gens|)
    ensures var gen := New(l.issued).(closer := CWaiting);
      Next(WithNew(l, gen).(calls := l.calls[l.issued := b]), Advance(l.issued))
      == WithNew(l, gen.(accept := Serving))
  {
    NewCall(l.calls, l.issued, b, b);
    var gen := New(l.issued).(closer := CWaiting);
    assert (l.gens + [gen])[|l.gens| := gen.(accept := Serving)] == l.gens + [gen.(accept := Serving)];
  }

  /** A Start that can bind leaves one more socket, which is the current one: open, serving, watched by its closer, with
      nothing accepted.  One that cannot bind, or finds the listener started, binds nothing. */
  lemma StartRound(l: Listener)
    requires l.issued !in l.calls
    ensures !l.started ==>
      Leads(l, [StartCall(true)] + [Advance(l.issued)] + [Advance(l.issued)],
            WithNew(l, Generation(l.issued, false, false, false, Serving, CWaiting, 0, 0, None, None)))
    ensures Next(l, StartCall(false)) == if l.started then l else l.(startErr := true)
    ensures l.started ==> Next(l, StartCall(true)) == l
  {
    if !l.started {
      var call, gen := l.issued, New(l.issued);
      var a, b := SpawningCloser(|l.gens|), SpawningAccept(|l.gens|);
      StartBegins(l, a);
      CloserSpawns(l, a, b);
      Then(l, [StartCall(true)], WithNew(l, gen).(calls := l.calls[call := a]), Advance(call),
           WithNew(l, gen.(closer := CWaiting)).(calls := l.calls[call := b]));
      AcceptSpawns(l, b);
      Then(l, [StartCall(true)] + [Advance(call)], WithNew(l, gen.(closer := CWaiting)).(calls := l.calls[call := b]),
           Advance(call), WithNew(l, gen.(closer := CWaiting, accept := Serving)));
    }
  }

  // ---------- a Stop from its first step to its last ----------

  /** The listener without a current generation; generation g and the calls are as given. */
  function Taken(l: Listener, g: nat, gen: Generation, calls: map<nat, Call>): Listener
    requires g < |l.gens|
  {
    Listener(false, None, None, None, None, l.startErr, l.gens[g := gen], calls, l.issued + 1)
  }

  /** The current generation serves. */
  predicate Serves(l: Listener, g: nat)
  {
    && l.started && l.listener == l.server == l.cancel == l.done == Some(g) && g < |l.gens|
    && l.gens[g].accept == Serving && l.gens[g].closer == CWaiting && l.issued !in l.calls
  }

  lemma StopTakes(l: Listener, g: nat)
    requires Serves(l, g)
    ensures var gen, call := l.gens[g].(taker := Some(l.issued)), l.issued;
      && Next(l, StopCall) == Taken(l, g, gen, l.calls[call := Cancelling(g)])
      && Next(Taken(l, g, gen, l.calls[call := Cancelling(g)]), Advance(call))
         == Taken(l, g, gen.(ctxDone := true, cancels := gen.cancels + 1),
                  l.calls[call := ListenerGenerations.Joining(g)])
  {
    var gen := l.gens[g].(taker := Some(l.issued));
    NewCall(l.calls, l.issued, Cancelling(g), ListenerGenerations.Joining(g));
    assert l.gens[g := gen][g := gen.(ctxDone := true, cancels := gen.cancels + 1)]
        == l.gens[g := gen.(ctxDone := true, cancels := gen.cancels + 1)];
  }

  lemma GenerationMoves(l: Listener, g: nat, gen: Generation, calls: map<nat, Call>, step: Step)
    requires g < |l.gens| && !step.StartCall? && !step.StopCall? && !step.Advance? && step.g == g
    ensures Next(Taken(l, g, gen, calls), step) == Taken(l, g, GenNext(gen, step), calls)
  {
    assert l.gens[g := gen][g := GenNext(gen, step)] == l.gens[g := GenNext(gen, step)];
  }

  /** The socket closes because its context has ended, Accept fails on it, and its loop ends. */
  lemma GenerationEnds(gen: Generation, g: nat)
    requires gen.accept == Serving && gen.closer == CWaiting && gen.ctxDone
    ensures GenNext(GenNext(GenNext(GenNext(gen, Close(g)), AcceptFails(g)), Unwind(g)), Unwind(g))
         == gen.(closed := true, closer := CEnded, accept := Ended, done := true)
  {
  }

  lemma GoroutinesEnd(l: Listener, steps: seq<Step>, g: nat, gen: Generation, calls: map<nat, Call>)
    requires g < |l.gens| && gen.accept == Serving && gen.closer == CWaiting && gen.ctxDone
    requires Leads(l, steps, Taken(l, g, gen, calls))
    ensures Leads(l, steps + [Close(g)] + [AcceptFails(g)] + [Unwind(g)] + [Unwind(g)],
                  Taken(l, g, gen.(closed := true, closer := CEnded, accept := Ended, done := true), calls))
  {
    var a := GenNext(gen, Close(g));
    var b := GenNext(a, AcceptFails(g));
    var c := GenNext(b, Unwind(g));
    GenerationMoves(l, g, gen, calls, Close(g));
    GenerationMoves(l, g, a, calls, AcceptFails(g));
    GenerationMoves(l, g, b, calls, Unwind(g));
    GenerationMoves(l, g, c, calls, Unwind(g));
    GenerationEnds(gen, g);
    Then(l, steps, Taken(l, g, gen, calls), Close(g), Taken(l, g, a, calls));
    Then(l, steps + [Close(g)], Taken(l, g, a, calls), AcceptFails(g), Taken(l, g, b, calls));
    Then(l, steps + [Close(g)] + [AcceptFails(g)], Taken(l, g, b, calls), Unwind(g), Taken(l, g, c, calls));
    Then(l, steps + [Close(g)] + [AcceptFails(g)] + [Unwind(g)], Taken(l, g, c, calls), Unwind(g),
         Taken(l, g, GenNext(c, Unwind(g)), calls));
  }

  lemma StopReturns(l: Listener, g: nat, gen: Generation, call: nat)
    requires g < |l.gens| && gen.done && call !in l.calls
    ensures Next(Taken(l, g, gen, l.calls[call := ListenerGenerations.Joining(g)]), Advance(call))
         == Taken(l, g, gen.(atReturn := Some(gen.accepted)), l.calls)
  {
    NewCall(l.calls, call, ListenerGenerations.Joining(g), ListenerGenerations.Joining(g));
    var done := gen.(atReturn := Some(gen.accepted));
    assert l.gens[g := gen][g := done] == l.gens[g := done];
  }

  /** The steps of the Stop call on the generation g with the closer and the accept loop that it ends. */
  function StopSteps(g: nat, call: nat): seq<Step>
  {
    [StopCall] + [Advance(call)] + [Close(g)] + [AcceptFails(g)] + [Unwind(g)] + [Unwind(g)] + [Advance(call)]
  }

  /** A Stop of a listener that serves takes its generation, cancels it once, and returns when its socket is closed
      and its loop has ended, with as many connections as were accepted before; nothing is current any more. */
  lemma StopRound(l: Listener, g: nat)
    requires Serves(l, g)
    ensures var gen := l.gens[g];
      Leads(l, StopSteps(g, l.issued),
            Taken(l, g, gen.(taker := Some(l.issued), ctxDone := true, cancels := gen.cancels + 1, closed := true,
                             closer := CEnded, accept := Ended, done := true, atReturn := Some(gen.accepted)), l.calls))
  {
    var gen, call := l.gens[g].(taker := Some(l.issued)), l.issued;
    var mid := gen.(ctxDone := true, cancels := gen.cancels + 1);
    var calls := l.calls[call := ListenerGenerations.Joining(g)];
    var ended := mid.(closed := true, closer := CEnded, accept := Ended, done := true);
    StopTakes(l, g);
    assert [] + [StopCall] == [StopCall];
    Then(l, [], l, StopCall, Taken(l, g, gen, l.calls[call := Cancelling(g)]));
    Then(l, [StopCall], Taken(l, g, gen, l.calls[call := Cancelling(g)]), Advance(call), Taken(l, g, mid, calls));
    GoroutinesEnd(l, [StopCall] + [Advance(call)], g, mid, calls);
    StopReturns(l, g, ended, call);
    Then(l, [StopCall] + [Advance(call)] + [Close(g)] + [AcceptFails(g)] + [Unwind(g)] + [Unwind(g)],
         Taken(l, g, ended, calls), Advance(call), Taken(l, g, ended.(atReturn := Some(ended.accepted)), l.calls));
  }

  /** A Stop of a listener that is not started does nothing. */
  lemma StopOfStopped(l: Listener)
    requires !l.started
    ensures Next(l, StopCall) == l
  {
  }

  // ---------- the connections of a socket ----------

  /** A step accepts a connection on the socket g: its loop is serving and the socket is open. */
  predicate Accepts(l: Listener, step: Step, g: nat)
  {
    step == Accept(g) && g < |l.gens| && l.gens[g].accept == Serving && !l.gens[g].closed
  }

  /** The connections that a run accepted on the socket g. */
  function Connections(steps: seq<Step>, g: nat): nat
    decreases |steps|
  {
    if steps == [] then 0
    else
      var before := steps[..|steps| - 1];
      Connections(before, g) + (if Accepts(Run(INIT, before), steps[|steps| - 1], g) then 1 else 0)
  }

  function AcceptedOn(l: Listener, g: nat): nat { if g < |l.gens| then l.gens[g].accepted else 0 }

  lemma SectionsAcceptNone(l: Listener, bindOK: bool, g: nat)
    ensures AcceptedOn(StartSection(l, bindOK), g) == AcceptedOn(l, g) == AcceptedOn(StopSection(l), g)
  {
  }

  lemma AdvanceAcceptsNone(l: Listener, call: nat, g: nat)
    requires call in l.calls && l.calls[call].g < |l.gens|
    ensures AcceptedOn(AdvanceCall(l, call), g) == AcceptedOn(l, g)
  {
  }

  lemma GenerationAccepts(l: Listener, step: Step, g: nat)
    requires !step.StartCall? && !step.StopCall? && !step.Advance?
    ensures AcceptedOn(Next(l, step), g) == AcceptedOn(l, g) + (if Accepts(l, step, g) then 1 else 0)
  {
  }

  lemma AcceptedByStep(l: Listener, step: Step, g: nat)
    ensures AcceptedOn(Next(l, step), g) == AcceptedOn(l, g) + (if Accepts(l, step, g) then 1 else 0)
  {
    match step
    case StartCall(bindOK) => SectionsAcceptNone(l, bindOK, g);
    case StopCall => SectionsAcceptNone(l, true, g);
    case Advance(call) => if call in l.calls && l.calls[call].g < |l.gens| { AdvanceAcceptsNone(l, call, g); }
    case _ => GenerationAccepts(l, step, g);
  }

  /** Every connection that arrives at an open socket whose loop serves is accepted and counted, and no other. */
  lemma {:induction false} AcceptedAreConnections(steps: seq<Step>, g: nat)
    ensures AcceptedOn(Run(INIT, steps), g) == Connections(steps, g)
    decreases |steps|
  {
    if steps == [] {
    } else {
      var before := steps[..|steps| - 1];
      AcceptedAreConnections(before, g);
      AcceptedByStep(Run(INIT, before), steps[|steps| - 1], g);
    }
  }

  // ---------- every call can return ----------

  /** A generation whose goroutines have not both been started has its Start at work. */
  predicate StarterOK(l: Listener, g: nat)
    requires g < |l.gens|
  {
    var gen := l.gens[g];
    && (gen.accept == NotStarted ==>
          gen.starter in l.calls && Starting(l.calls[gen.starter]) && l.calls[gen.starter].g == g)
    && (gen.closer == CNotStarted ==> gen.starter in l.calls && l.calls[gen.starter] == SpawningCloser(g))
  }

  predicate StarterInv(l: Listener) { forall g :: 0 <= g < |l.gens| ==> StarterOK(l, g) }

  lemma SectionsKeepStarters(l: Listener, bindOK: bool)
    requires Inv(l) && StarterInv(l)
    ensures StarterInv(StartSection(l, bindOK)) && StarterInv(StopSection(l))
  {
    var n, m := StartSection(l, bindOK), StopSection(l);
    assert forall call :: call in l.calls ==> CallOK(l, call);
    forall g | 0 <= g < |n.gens| ensures StarterOK(n, g) {
      if g < |l.gens| { assert StarterOK(l, g); }
    }
    forall g | 0 <= g < |m.gens| ensures StarterOK(m, g) { assert StarterOK(l, g); }
  }

  lemma AdvanceKeepsOwnStarter(l: Listener, call: nat)
    requires call in l.calls && CallOK(l, call) && StarterOK(l, l.calls[call].g)
    ensures StarterOK(AdvanceCall(l, call), l.calls[call].g)
  {
  }

  lemma AdvanceKeepsOtherStarter(l: Listener, call: nat, g: nat)
    requires call in l.calls && CallOK(l, call) && g < |l.gens| && g != l.calls[call].g && StarterOK(l, g)
    ensures StarterOK(AdvanceCall(l, call), g)
  {
    assert AdvanceCall(l, call).gens[g] == l.gens[g];
  }

  lemma GoroutinesKeepStarters(l: Listener, step: Step)
    requires StarterInv(l) && !step.StartCall? && !step.StopCall? && !step.Advance?
    ensures StarterInv(Next(l, step))
  {
    var n := Next(l, step);
    forall g | 0 <= g < |n.gens| ensures StarterOK(n, g) { assert StarterOK(l, g); }
  }

  lemma StepKeepsStarters(l: Listener, step: Step)
    requires Inv(l) && StarterInv(l)
    ensures StarterInv(Next(l, step))
  {
    match step
    case StartCall(bindOK) => SectionsKeepStarters(l, bindOK);
    case StopCall => SectionsKeepStarters(l, true);
    case Advance(call) =>
      if call in l.calls && l.calls[call].g < |l.gens| {
        var n := AdvanceCall(l, call);
        assert CallOK(l, call);
        AdvanceKeepsSelf(l, call);
        forall g | 0 <= g < |n.gens| ensures StarterOK(n, g) {
          assert StarterOK(l, g);
          if g == l.calls[call].g { AdvanceKeepsOwnStarter(l, call); } else { AdvanceKeepsOtherStarter(l, call, g); }
        }
      }
    case _ => GoroutinesKeepStarters(l, step);
  }

  lemma {:induction false} RunKeepsStarters(l: Listener, steps: seq<Step>)
    requires Inv(l) && StarterInv(l)
    ensures StarterInv(Run(l, steps))
    decreases |steps|
  {
    if steps == [] {
    } else {
      RunKeepsStarters(l, steps[..|steps| - 1]);
      RunKeepsInv(l, steps[..|steps| - 1]);
      StepKeepsStarters(Run(l, steps[..|steps| - 1]), steps[|steps| - 1]);
    }
  }

  /** What is left of a generation's accept loop. */
  function LoopLeft(gen: Generation): nat
  {
    match gen.accept
    case NotStarted => if gen.closer == CNotStarted then 5 else 4
    case Serving => 3
    case ClosingSocket => 2
    case Finishing => 1
    case Ended => 0
  }

  /** What is left of a call: a Stop has to wait for the loop of its generation. */
  function CallLeft(l: Listener, call: nat): nat
    requires call in l.calls && l.calls[call].g < |l.gens|
  {
    match l.calls[call]
    case SpawningCloser(_) => 2
    case SpawningAccept(_) => 1
    case Cancelling(g) => 2 + LoopLeft(l.gens[g])
    case Joining(g) => 1 + LoopLeft(l.gens[g])
  }

  /** A step that brings a call nearer to its return. */
  function Towards(l: Listener, call: nat): Step
    requires call in l.calls && l.calls[call].g < |l.gens|
  {
    var g := l.calls[call].g;
    if !l.calls[call].Joining? then Advance(call)
    else
      match l.gens[g].accept
      case NotStarted => Advance(l.gens[g].starter)
      case Serving => AcceptFails(g)
      case ClosingSocket => Unwind(g)
      case Finishing => Unwind(g)
      case Ended => Advance(call)
  }

  lemma OwnStepComesCloser(l: Listener, call: nat)
    requires Inv(l) && call in l.calls && CallOK(l, call)
    requires !l.calls[call].Joining? || l.gens[l.calls[call].g].accept == Ended
    ensures var n := Next(l, Towards(l, call));
      call !in n.calls || (n.calls[call].g < |n.gens| && CallLeft(n, call) < CallLeft(l, call))
  {
    assert GenInv(l.gens[l.calls[call].g]);
  }

  lemma StarterComesCloser(l: Listener, call: nat)
    requires CallsInv(l) && call in l.calls && CallOK(l, call) && l.calls[call].Joining?
    requires StarterOK(l, l.calls[call].g)
    requires l.gens[l.calls[call].g].accept == NotStarted
    ensures var n := Next(l, Towards(l, call));
      call in n.calls && n.calls[call].g < |n.gens| && CallLeft(n, call) < CallLeft(l, call)
  {
    var starter := l.gens[l.calls[call].g].starter;
    assert CallOK(l, starter);
  }

  lemma LoopComesCloser(l: Listener, call: nat)
    requires call in l.calls && CallOK(l, call) && l.calls[call].Joining?
    requires l.gens[l.calls[call].g].accept != NotStarted && l.gens[l.calls[call].g].accept != Ended
    ensures var n := Next(l, Towards(l, call));
      call in n.calls && n.calls[call].g < |n.gens| && CallLeft(n, call) < CallLeft(l, call)
  {
  }

  lemma ComesCloser(l: Listener, call: nat)
    requires Inv(l) && StarterInv(l) && call in l.calls && CallOK(l, call)
    ensures var n := Next(l, Towards(l, call));
      call !in n.calls || (n.calls[call].g < |n.gens| && CallLeft(n, call) < CallLeft(l, call))
  {
    var g := l.calls[call].g;
    assert StarterOK(l, g);
    if !l.calls[call].Joining? || l.gens[g].accept == Ended {
      OwnStepComesCloser(l, call);
    } else if l.gens[g].accept == NotStarted {
      StarterComesCloser(l, call);
    } else {
      LoopComesCloser(l, call);
    }
  }

  lemma {:induction false} CallCanReturn(l: Listener, steps: seq<Step>, call: nat) returns (longer: seq<Step>)
    requires Inv(l) && StarterInv(l) && Inv(Run(l, steps))
    ensures call !in Run(l, longer).calls
    decreases if call in Run(l, steps).calls then 1 + CallLeft(Run(l, steps), call) else 0
  {
    var n := Run(l, steps);
    longer := steps;
    if call in n.calls {
      RunKeepsStarters(l, steps);
      assert CallOK(n, call);
      ComesCloser(n, call);
      Extends(l, steps, Towards(n, call));
      StepKeepsInv(n, Towards(n, call));
      longer := CallCanReturn(l, steps + [Towards(n, call)], call);
    }
  }

  /** From every reachable state every Start and every Stop in progress can come to return. */
  lemma CallsCanReturn(steps: seq<Step>, call: nat) returns (more: seq<Step>)
    ensures call !in Run(Run(INIT, steps), more).calls
  {
    RunKeepsInv(INIT, steps);
    RunKeepsStarters(INIT, steps);
    more := CallCanReturn(Run(INIT, steps), [], call);
  }
}
