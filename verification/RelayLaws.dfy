/**
 What the relay of TcpRelay does in a run, read off the steps: what one round of a copy loop moves, when a loop ends and
 how, that it can always go on to the end, and when the handler returns.
 */
module RelayLaws {
  import opened Prelude
  import opened TcpRelay

  function CopyRun(c: Copy, steps: seq<CopyStep>): Copy
    decreases |steps|
  {
    if steps == [] then c else CopyNext(CopyRun(c, steps[..|steps| - 1]), steps[|steps| - 1])
  }

  function Fresh(source: bytes): Copy { Copy(source, [], Reading, 0) }

  /** The steps of the upload and of the download among those of a run. */
  function Ups(steps: seq<Step>): seq<CopyStep>
    decreases |steps|
  {
    if steps == [] then []
    else
      var s := steps[|steps| - 1];
      Ups(steps[..|steps| - 1]) + (if s.Up? then [s.step] else [])
  }

  function Downs(steps: seq<Step>): seq<CopyStep>
    decreases |steps|
  {
    if steps == [] then []
    else
      var s := steps[|steps| - 1];
      Downs(steps[..|steps| - 1]) + (if s.Down? then [s.step] else [])
  }

  lemma CopyRunExtends(c: Copy, steps: seq<CopyStep>, s: CopyStep)
    ensures CopyRun(c, steps + [s]) == CopyNext(CopyRun(c, steps), s)
  {
    assert (steps + [s])[..|steps|] == steps;
  }

  /** The two loops do not disturb each other. */
  lemma {:induction false} LoopsAreIndependent(fromClient: bytes, fromTarget: bytes, steps: seq<Step>)
    ensures Run(Start(fromClient, fromTarget), steps).up == CopyRun(Fresh(fromClient), Ups(steps))
    ensures Run(Start(fromClient, fromTarget), steps).down == CopyRun(Fresh(fromTarget), Downs(steps))
    decreases |steps|
  {
    if steps == [] {
    } else {
      var before, s := steps[..|steps| - 1], steps[|steps| - 1];
      LoopsAreIndependent(fromClient, fromTarget, before);
      assert Ups(before) + [] == Ups(before) && Downs(before) + [] == Downs(before);
      match s
      case Up(u) => CopyRunExtends(Fresh(fromClient), Ups(before), u);
      case Down(d) => CopyRunExtends(Fresh(fromTarget), Downs(before), d);
      case Return =>
    }
  }

  // ---------- one round ----------

  lemma RunOfThree(c: Copy, a: CopyStep, b: CopyStep, d: CopyStep)
    ensures CopyRun(c, [a, b, d]) == CopyNext(CopyNext(CopyNext(c, a), b), d)
  {
    CopyRunExtends(c, [], a);
    CopyRunExtends(c, [a], b);
    CopyRunExtends(c, [a, b], d);
    assert [] + [a] == [a] && [a] + [b] == [a, b] && [a, b] + [d] == [a, b, d];
  }

  /** A read of n bytes whose write accepts k of them: those k go to the sink and are counted, and the loop goes on
      exactly if the write was whole and reported no failure. */
  lemma OneRound(c: Copy, n: nat, k: nat, failed: bool)
    requires c.pc == Reading && 0 < n <= |c.source| && k <= n
    ensures CopyRun(c, [Deliver(n), Accept(k, failed), AddCount])
         == Copy(c.source[n..], c.sink + c.source[..k], if k == n && !failed then Reading else Ended(false),
                 (c.count + k) % TWO64)
  {
    RunOfThree(c, Deliver(n), Accept(k, failed), AddCount);
    assert c.source[..n][..k] == c.source[..k];
  }

  // ---------- when a loop ends ----------

  /** Step n finds the source at its end. */
  predicate Drains(source: bytes, steps: seq<CopyStep>, n: nat)
    requires n < |steps|
  {
    steps[n] == SourceEnds && CopyRun(Fresh(source), steps[..n]).pc == Reading
  }

  /** Step n is a write that reports a failure or takes less than its chunk. */
  predicate Breaks(source: bytes, steps: seq<CopyStep>, n: nat)
    requires n < |steps|
  {
    var pc := CopyRun(Fresh(source), steps[..n]).pc;
    steps[n].Accept? && pc.Writing? && steps[n].n <= |pc.chunk| && (steps[n].failed || steps[n].n < |pc.chunk|)
  }

  predicate Drained(source: bytes, steps: seq<CopyStep>) { exists n :: 0 <= n < |steps| && Drains(source, steps, n) }

  predicate Broken(source: bytes, steps: seq<CopyStep>) { exists n :: 0 <= n < |steps| && Breaks(source, steps, n) }

  lemma EventsByStep(source: bytes, steps: seq<CopyStep>)
    requires steps != []
    ensures var before, n := steps[..|steps| - 1], |steps| - 1;
      && (Drained(source, steps) <==> Drained(source, before) || Drains(source, steps, n))
      && (Broken(source, steps) <==> Broken(source, before) || Breaks(source, steps, n))
  {
    var before := steps[..|steps| - 1];
    forall k | 0 <= k < |before|
      ensures Drains(source, steps, k) == Drains(source, before, k)
      ensures Breaks(source, steps, k) == Breaks(source, before, k)
    {
      assert steps[..k] == before[..k];
    }
  }

  /** The end that a loop has come to, or is bound to come to once it has counted its last write. */
  predicate EndsClean(pc: CopyPC) { pc == Ended(true) }

  predicate EndsBroken(pc: CopyPC) { pc == Ended(false) || (pc.Counting? && pc.stop) }

  /** A copy loop has ended cleanly exactly if its source ended, and with an error, or is about to, exactly if one
      of its writes failed or was short; so while neither happens it never ends. */
  lemma {:induction false} EndsExactlyOnEvent(source: bytes, steps: seq<CopyStep>)
    ensures var pc := CopyRun(Fresh(source), steps).pc;
      && (EndsClean(pc) <==> Drained(source, steps))
      && (EndsBroken(pc) <==> Broken(source, steps))
    decreases |steps|
  {
    if steps == [] {
    } else {
      EndsExactlyOnEvent(source, steps[..|steps| - 1]);
      EventsByStep(source, steps);
    }
  }

  /** The same for both loops of a run. */
  lemma LoopsEndExactlyOnEvent(fromClient: bytes, fromTarget: bytes, steps: seq<Step>)
    ensures var r := Run(Start(fromClient, fromTarget), steps);
      && (EndsClean(r.up.pc) <==> Drained(fromClient, Ups(steps)))
      && (EndsBroken(r.up.pc) <==> Broken(fromClient, Ups(steps)))
      && (EndsClean(r.down.pc) <==> Drained(fromTarget, Downs(steps)))
      && (EndsBroken(r.down.pc) <==> Broken(fromTarget, Downs(steps)))
  {
    LoopsAreIndependent(fromClient, fromTarget, steps);
    EndsExactlyOnEvent(fromClient, Ups(steps));
    EndsExactlyOnEvent(fromTarget, Downs(steps));
  }

  /** As long as no read ends and every write is whole, neither loop ends. */
  lemma LoopsGoOn(fromClient: bytes, fromTarget: bytes, steps: seq<Step>)
    requires !Drained(fromClient, Ups(steps)) && !Broken(fromClient, Ups(steps))
    requires !Drained(fromTarget, Downs(steps)) && !Broken(fromTarget, Downs(steps))
    ensures var r := Run(Start(fromClient, fromTarget), steps); !r.up.pc.Ended? && !r.down.pc.Ended? && !r.returned
  {
    LoopsEndExactlyOnEvent(fromClient, fromTarget, steps);
    RunKeepsInv(fromClient, fromTarget, steps);
  }

  // ---------- to the end ----------

  lemma {:induction false} CopyRunAdds(c: Copy, a: seq<CopyStep>, b: seq<CopyStep>)
    ensures CopyRun(c, a + b) == CopyRun(CopyRun(c, a), b)
    decreases |b|
  {
    if b == [] {
      assert a + b == a;
    } else {
      var n := |b| - 1;
      CopyRunAdds(c, a, b[..n]);
      assert (a + b)[..|a| + n] == a + b[..n];
    }
  }

  /** From any point between two rounds, reads and whole writes bring the rest of the source to the sink. */
  lemma {:induction false} CanDeliverRest(c: Copy) returns (steps: seq<CopyStep>)
    requires c.pc == Reading
    ensures var d := CopyRun(c, steps); d.sink == c.sink + c.source && d.source == [] && d.pc == Ended(true)
    decreases |c.source|
  {
    if c.source == [] {
      steps := [SourceEnds];
      CopyRunExtends(c, [], SourceEnds);
      assert [] + [SourceEnds] == steps;
      assert c.sink + c.source == c.sink;
    } else {
      var round := [Deliver(1), Accept(1, false), AddCount];
      var d := CopyRun(c, round);
      OneRound(c, 1, 1, false);
      var more := CanDeliverRest(d);
      CopyRunAdds(c, round, more);
      steps := round + more;
      assert c.sink + c.source[..1] + c.source[1..] == c.sink + c.source;
    }
  }

  // ---------- the return ----------

  /** Step n returns from the handler: one of the loops has ended by then. */
  predicate Returns(fromClient: bytes, fromTarget: bytes, steps: seq<Step>, n: nat)
    requires n < |steps|
  {
    var r := Run(Start(fromClient, fromTarget), steps[..n]);
    steps[n] == Return && (r.up.pc.Ended? || r.down.pc.Ended?)
  }

  /** The handler has returned exactly if it took its result after one of the two loops had ended. */
  lemma {:induction false} ReturnedIffEitherEnded(fromClient: bytes, fromTarget: bytes, steps: seq<Step>)
    ensures Run(Start(fromClient, fromTarget), steps).returned
       <==> exists n :: 0 <= n < |steps| && Returns(fromClient, fromTarget, steps, n)
    decreases |steps|
  {
    if steps == [] {
    } else {
      var before, last := steps[..|steps| - 1], |steps| - 1;
      ReturnedIffEitherEnded(fromClient, fromTarget, before);
      forall n | 0 <= n < last
        ensures Returns(fromClient, fromTarget, steps, n) == Returns(fromClient, fromTarget, before, n)
      {
        assert steps[..n] == before[..n];
      }
      assert Run(Start(fromClient, fromTarget), steps).returned <==>
             Run(Start(fromClient, fromTarget), before).returned || Returns(fromClient, fromTarget, steps, last);
    }
  }
}
