/**
 What the loops of a UDP association do in a run, on the bytes themselves: what one round of a loop does for every
 answer of the network, when a loop ends, and that the targets of a loop that ends can all be closed.
 */
module UdpLaws {
  import opened Prelude
  import opened AddressText
  import opened SocksWire
  import opened SocksLaws
  import opened UdpAssociation

  lemma RunExtends(s: Assoc, steps: seq<Step>, step: Step)
    ensures Run(s, steps + [step]) == Next(Run(s, steps), step)
  {
    assert (steps + [step])[..|steps|] == steps;
  }

  /** The steps lead from s to t. */
  predicate Leads(s: Assoc, steps: seq<Step>, t: Assoc) { Run(s, steps) == t }

  lemma Then(s: Assoc, steps: seq<Step>, t: Assoc, step: Step, after: Assoc)
    requires Leads(s, steps, t) && Next(t, step) == after
    ensures Leads(s, steps + [step], after)
  {
    RunExtends(s, steps, step);
  }

  /** What is left of a datagram in a buffer of eight kilobytes. */
  function Kept(d: bytes): bytes { if |d| <= 8192 then d else d[..8192] }

  /** A datagram of which the buffer holds the header for the address w and then body. */
  ghost predicate Brings(d: bytes, frag: byte, w: bytes, body: bytes) { Wire(w) && Kept(d) == [0, 0, frag] + w + body }

  /** What a write sends of data. */
  function SentOf(w: Write, data: bytes): bytes
    requires !w.Broken?
  {
    match w
    case Whole => data
    case Short(n) => if n < |data| then data[..n] else data
  }

  // ---------- a round of the request loop ----------

  lemma Checks(s: Assoc)
    requires s.request == Checking && !s.cancelled
    ensures Leads(s, [Check], s.(request := Receiving))
  {
    assert [] + [Check] == [Check];
    Then(s, [], s, Check, s.(request := Receiving));
  }

  /** A read that fails with a timeout, or in any way but a closed socket, changes nothing. */
  lemma RequestTimesOut(s: Assoc)
    requires s.request == Checking && !s.cancelled
    ensures Leads(s, [Check] + [ReceiveFails(false)], s)
  {
    Checks(s);
    Then(s, [Check], s.(request := Receiving), ReceiveFails(false), s);
  }

  /** A datagram that holds no request changes nothing but the client's address. */
  lemma UnreadableDatagram(s: Assoc, d: bytes, from: bytes)
    requires s.request == Checking && !s.cancelled
    requires !(exists frag: byte, w: bytes, body: bytes :: Brings(d, frag, w, body))
    ensures Leads(s, [Check] + [Receive(d, from)], s.(client := Some(from)))
  {
    Checks(s);
    var p := ParseUdp(Kept(d));
    if p.Parsed? {
      var w := ParsedDatagram(Kept(d));
      assert Brings(d, p.value.frag, w, p.rest);
    }
    Then(s, [Check], s.(request := Receiving), Receive(d, from), s.(client := Some(from)));
  }

  /** The request loop has a request in hand, which came from the address given. */
  function InHandOf(s: Assoc, d: bytes, from: bytes, frag: byte, w: bytes, body: bytes): Assoc
    requires Wire(w)
  {
    s.(client := Some(from), request := Looking(d, UdpRequest(frag, WireAddr(w)), body))
  }

  /** A request is taken in hand with the address and the body that its bytes give. */
  lemma ReadableDatagram(s: Assoc, d: bytes, from: bytes, frag: byte, w: bytes, body: bytes)
    requires s.request == Checking && !s.cancelled && Brings(d, frag, w, body)
    ensures Leads(s, [Check] + [Receive(d, from)], InHandOf(s, d, from, frag, w, body))
  {
    Checks(s);
    DatagramParses(frag, w, body);
    Then(s, [Check], s.(request := Receiving), Receive(d, from), InHandOf(s, d, from, frag, w, body));
  }

  /** The round for an address that has a connection: the body is written there, whatever the dial would answer. */
  lemma CachedRound(s: Assoc, d: bytes, from: bytes, frag: byte, w: bytes, body: bytes, out: Write)
    requires s.request == Checking && !s.cancelled && Brings(d, frag, w, body) && WireAddr(w) in s.cache
    ensures var t := s.(client := Some(from));
      Leads(s, [Check] + [Receive(d, from)] + [Lookup] + [Send(out)],
            if out.Broken? then t.(request := if out.closed then Closing(s.cache.Keys) else Checking)
            else t.(forwards := s.forwards + [Forward(d, s.cache[WireAddr(w)], SentOf(out, body))]))
  {
    var one, t, req := [Check] + [Receive(d, from)], s.(client := Some(from)), UdpRequest(frag, WireAddr(w));
    var found := t.(request := Sending(s.cache[req.addr], d, req, body));
    ReadableDatagram(s, d, from, frag, w, body);
    Then(s, one, InHandOf(s, d, from, frag, w, body), Lookup, found);
    Then(s, one + [Lookup], found, Send(out),
         if out.Broken? then t.(request := if out.closed then Closing(s.cache.Keys) else Checking)
         else t.(forwards := s.forwards + [Forward(d, s.cache[WireAddr(w)], SentOf(out, body))]));
  }

  /** A new connection to the host and port of a request is kept under its address, with a response loop of its own. */
  function WithTarget(s: Assoc, from: bytes, w: bytes): Assoc
    requires Wire(w)
  {
    var a := WireAddr(w);
    s.(client := Some(from), cache := s.cache[a := |s.targets|],
       targets := s.targets + [Target(a, HostPort(WireHost(w), WirePort(w)), 0)],
       loops := s.loops + [Loop(a, RChecking)])
  }

  /** An address without a connection is dialled; a dial that fails ends the round, and the loop with it if closed. */
  lemma DialledRound(s: Assoc, d: bytes, from: bytes, frag: byte, w: bytes, body: bytes, ok: bool, closed: bool)
    requires s.request == Checking && !s.cancelled && Brings(d, frag, w, body) && WireAddr(w) !in s.cache
    ensures Leads(s, [Check] + [Receive(d, from)] + [Lookup] + [Dial(ok, closed)],
      if !ok then s.(client := Some(from), request := if closed then Closing(s.cache.Keys) else Checking)
      else WithTarget(s, from, w).(request := Sending(|s.targets|, d, UdpRequest(frag, WireAddr(w)), body)))
  {
    var one, req := [Check] + [Receive(d, from)], UdpRequest(frag, WireAddr(w));
    var asked := s.(client := Some(from), request := Dialling(d, req, body));
    ReadableDatagram(s, d, from, frag, w, body);
    Then(s, one, InHandOf(s, d, from, frag, w, body), Lookup, asked);
    Then(s, one + [Lookup], asked, Dial(ok, closed),
         if !ok then s.(client := Some(from), request := if closed then Closing(s.cache.Keys) else Checking)
         else WithTarget(s, from, w).(request := Sending(|s.targets|, d, req, body)));
  }

  /** The round for a new address: a connection is dialled to the host and port of the request, kept under its address
      with a response loop of its own, and the body is written there. */
  lemma NewTargetRound(s: Assoc, d: bytes, from: bytes, frag: byte, w: bytes, body: bytes, out: Write)
    requires s.request == Checking && !s.cancelled && Brings(d, frag, w, body) && WireAddr(w) !in s.cache
    ensures Reaches(HostPort(WireHost(w), WirePort(w)), w)
    ensures var t := WithTarget(s, from, w);
      Leads(s, [Check] + [Receive(d, from)] + [Lookup] + [Dial(true, false)] + [Send(out)],
            if out.Broken? then t.(request := if out.closed then Closing(t.cache.Keys) else Checking)
            else t.(forwards := s.forwards + [Forward(d, |s.targets|, SentOf(out, body))]))
  {
    var t, req := WithTarget(s, from, w), UdpRequest(frag, WireAddr(w));
    var four := [Check] + [Receive(d, from)] + [Lookup] + [Dial(true, false)];
    DialledRound(s, d, from, frag, w, body, true, false);
    DialTextReaches(w);
    Then(s, four, t.(request := Sending(|s.targets|, d, req, body)), Send(out),
         if out.Broken? then t.(request := if out.closed then Closing(t.cache.Keys) else Checking)
         else t.(forwards := s.forwards + [Forward(d, |s.targets|, SentOf(out, body))]));
  }

  // ---------- a round of a response loop ----------

  /** A response loop between two rounds, for the target with the address w. */
  predicate Idle(s: Assoc, i: nat, w: bytes)
  {
    Wire(w) && i < |s.loops| && s.loops[i] == Loop(WireAddr(w), RChecking) && !s.cancelled && s.client.Some?
  }

  /** Response loop i at the point given, for the target with the address w. */
  function LoopOf(s: Assoc, i: nat, w: bytes, pc: ResponsePC): Assoc
    requires i < |s.loops| && Wire(w)
  {
    s.(loops := s.loops[i := Loop(WireAddr(w), pc)])
  }

  lemma UpdateTwice(s: Assoc, i: nat, w: bytes, a: ResponsePC, b: ResponsePC)
    requires Idle(s, i, w)
    ensures LoopOf(LoopOf(s, i, w, a), i, w, b) == LoopOf(s, i, w, b)
    ensures LoopOf(s, i, w, RChecking) == s
  {
    assert s.loops[i := Loop(WireAddr(w), a)][i := Loop(WireAddr(w), b)] == s.loops[i := Loop(WireAddr(w), b)];
    assert s.loops[i := Loop(WireAddr(w), RChecking)] == s.loops;
  }

  lemma ResponseChecks(s: Assoc, i: nat, w: bytes)
    requires Idle(s, i, w)
    ensures Leads(s, [RCheck(i)], LoopOf(s, i, w, RReceiving))
  {
    assert [] + [RCheck(i)] == [RCheck(i)];
    Then(s, [], s, RCheck(i), LoopOf(s, i, w, RReceiving));
  }

  /** A read that fails with a timeout, or in any way but a closed socket, changes nothing. */
  lemma ResponseTimesOut(s: Assoc, i: nat, w: bytes)
    requires Idle(s, i, w)
    ensures Leads(s, [RCheck(i)] + [RReceiveFails(i, false)], s)
  {
    ResponseChecks(s, i, w);
    UpdateTwice(s, i, w, RReceiving, RChecking);
    Then(s, [RCheck(i)], LoopOf(s, i, w, RReceiving), RReceiveFails(i, false), s);
  }

  lemma ResponseRead(s: Assoc, i: nat, w: bytes, data: bytes)
    requires Idle(s, i, w)
    ensures Leads(s, [RCheck(i)] + [RReceive(i, data)], LoopOf(s, i, w, RReplying(data)))
  {
    ResponseChecks(s, i, w);
    UpdateTwice(s, i, w, RReceiving, RReplying(data));
    Then(s, [RCheck(i)], LoopOf(s, i, w, RReceiving), RReceive(i, data), LoopOf(s, i, w, RReplying(data)));
  }

  lemma ReplyFails(s: Assoc, i: nat, w: bytes, data: bytes, closed: bool)
    requires Idle(s, i, w)
    ensures Next(LoopOf(s, i, w, RReplying(data)), RSend(i, Broken(closed)))
         == LoopOf(s, i, w, if closed then REnded else RChecking)
  {
    ReplyHeader(w);
    UpdateTwice(s, i, w, RReplying(data), if closed then REnded else RChecking);
  }

  lemma ReplyIsSent(s: Assoc, i: nat, w: bytes, data: bytes, out: Write)
    requires Idle(s, i, w) && !out.Broken?
    ensures Next(LoopOf(s, i, w, RReplying(data)), RSend(i, out))
         == s.(replies := s.replies + [Reply(i, data, SentOf(out, [0, 0, 0] + w + Kept(data)), s.client.value)])
  {
    ReplyHeader(w);
    UpdateTwice(s, i, w, RReplying(data), RChecking);
  }

  /** The round of a response loop: two zero bytes, fragment 0, the target's address as it came, and the target's bytes
      as far as they fit the buffer, to the client's latest address. */
  lemma ResponseRound(s: Assoc, i: nat, w: bytes, data: bytes, out: Write)
    requires Idle(s, i, w)
    ensures Leads(s, [RCheck(i)] + [RReceive(i, data)] + [RSend(i, out)],
      if out.Broken? then LoopOf(s, i, w, if out.closed then REnded else RChecking)
      else s.(replies := s.replies + [Reply(i, data, SentOf(out, [0, 0, 0] + w + Kept(data)), s.client.value)]))
  {
    var two, n := [RCheck(i)] + [RReceive(i, data)], LoopOf(s, i, w, RReplying(data));
    ResponseRead(s, i, w, data);
    Then(s, two, n, RSend(i, out), Next(n, RSend(i, out)));
    if out.Broken? { ReplyFails(s, i, w, data, out.closed); } else { ReplyIsSent(s, i, w, data, out); }
  }

  // ---------- when a loop ends ----------

  /** The context of the association ends. */
  predicate Cancels(s: Assoc, step: Step) { step == TcpEnds || (step == Cancel && s.request == Closing({})) }

  /** A step that ends the request loop: a check after the context has ended, or a closed socket. */
  predicate StopsRequest(s: Assoc, step: Step)
  {
    match s.request
    case Checking => step == Check && s.cancelled
    case Receiving => step == ReceiveFails(true)
    case Dialling(_, _, _) => step == Dial(false, true)
    case Sending(_, _, _, _) => step == Send(Broken(true))
    case _ => false
  }

  /** A step that ends response loop i. */
  predicate StopsResponse(s: Assoc, step: Step, i: nat)
  {
    && i < |s.loops|
    && match s.loops[i].pc
       case RChecking => step == RCheck(i) && s.cancelled
       case RReceiving => step == RReceiveFails(i, true)
       case RReplying(_) => step == RSend(i, Broken(true))
       case REnded => false
  }

  predicate RequestOver(s: Assoc) { s.request.Closing? || s.request.Finished? }

  predicate ResponseOver(s: Assoc, i: nat) { i < |s.loops| && s.loops[i].pc == REnded }

  lemma RequestEndsByStep(s: Assoc, step: Step)
    ensures RequestOver(Next(s, step)) <==> RequestOver(s) || StopsRequest(s, step)
  {
    if IsResponse(step) && step.i < |s.loops| { ResponseOnlyMovesLoop(s, step.i, step); }
  }

  lemma CancelByStep(s: Assoc, step: Step)
    ensures Next(s, step).cancelled <==> s.cancelled || Cancels(s, step)
  {
    if IsResponse(step) && step.i < |s.loops| { ResponseOnlyMovesLoop(s, step.i, step); }
  }

  lemma RequestKeepsResponses(s: Assoc, step: Step, i: nat)
    ensures ResponseOver(RequestNext(s, step), i) <==> ResponseOver(s, i)
  {
  }

  lemma ResponseEndsByOwnStep(s: Assoc, step: Step, i: nat)
    requires TargetsInv(s) && IsResponse(step) && i == step.i < |s.loops|
    ensures ResponseOver(ResponseNext(s, i, step), i) <==> ResponseOver(s, i) || StopsResponse(s, step, i)
  {
    assert s.loops[i].target == s.targets[i].key;
  }

  lemma OtherLoopStays(s: Assoc, step: Step, i: nat)
    requires IsResponse(step) && i != step.i < |s.loops|
    ensures ResponseOver(ResponseNext(s, step.i, step), i) <==> ResponseOver(s, i)
  {
  }

  lemma ResponseEndsByStep(s: Assoc, step: Step, i: nat)
    requires TargetsInv(s)
    ensures ResponseOver(Next(s, step), i) <==> ResponseOver(s, i) || StopsResponse(s, step, i)
  {
    if IsResponse(step) {
      if step.i == i < |s.loops| {
        ResponseEndsByOwnStep(s, step, i);
      } else if step.i < |s.loops| {
        OtherLoopStays(s, step, i);
      }
    } else if step != TcpEnds {
      RequestKeepsResponses(s, step, i);
    }
  }

  /** Some step of a run does something, judged in the state in which it was taken. */
  predicate Happened(steps: seq<Step>, what: (Assoc, Step) -> bool)
    decreases |steps|
  {
    && steps != []
    && var before, step := steps[..|steps| - 1], steps[|steps| - 1];
       what(Run(INIT, before), step) || Happened(before, what)
  }

  function Stops(i: nat): (Assoc, Step) -> bool { (s: Assoc, step: Step) => StopsResponse(s, step, i) }

  /** The context has ended exactly if the TCP connection ended or the request loop has finished; the request loop
      is over exactly if it checked after that, or found a socket closed; and so is every response loop. */
  lemma {:induction false} LoopsEndExactlyOnEvent(steps: seq<Step>, i: nat)
    ensures Run(INIT, steps).cancelled <==> Happened(steps, Cancels)
    ensures RequestOver(Run(INIT, steps)) <==> Happened(steps, StopsRequest)
    ensures ResponseOver(Run(INIT, steps), i) <==> Happened(steps, Stops(i))
    decreases |steps|
  {
    if steps == [] {
    } else {
      var before, step := steps[..|steps| - 1], steps[|steps| - 1];
      LoopsEndExactlyOnEvent(before, i);
      RunKeepsInv(INIT, before);
      CancelByStep(Run(INIT, before), step);
      RequestEndsByStep(Run(INIT, before), step);
      ResponseEndsByStep(Run(INIT, before), step, i);
    }
  }

  // ---------- the end of the request loop ----------

  lemma CloseCounts(targets: seq<Target>, i: nat)
    requires i < |targets|
    ensures var t := targets[i := targets[i].(closes := targets[i].closes + 1)];
      |t| == |targets| && forall k :: 0 <= k < |targets| ==> t[k].(closes := 1) == targets[k].(closes := 1)
  {
  }

  lemma OneCloses(s: Assoc, key: SocksAddr)
    requires CacheInv(s) && ClosesInv(s) && s.request.Closing? && key in s.request.open
    ensures var t := Next(s, Close(key));
      && t.request == Closing(s.request.open - {key}) && |t.targets| == |s.targets|
      && forall i :: 0 <= i < |s.targets| ==> t.targets[i].(closes := 1) == s.targets[i].(closes := 1)
  {
    assert key in s.cache;
    CloseCounts(s.targets, s.cache[key]);
  }

  lemma AllAreClosed(s: Assoc)
    requires Inv(s) && s.request == Closing({})
    ensures forall i :: 0 <= i < |s.targets| ==> s.targets[i] == s.targets[i].(closes := 1)
  {
  }

  lemma LastStepFinishes(s: Assoc)
    requires s.request == Closing({})
    ensures Next(s, Cancel) == s.(request := Finished, cancelled := true)
  {
  }

  /** From any point of the closing, the connections that are left can be closed one by one, and then the loop ends with
      every connection closed once. */
  lemma {:induction false} CanFinish(s: Assoc, steps: seq<Step>) returns (longer: seq<Step>)
    requires Inv(s) && Run(s, steps).request.Closing?
    ensures var t, n := Run(s, steps), Run(s, longer);
      && n.request == Finished && n.cancelled && |n.targets| == |t.targets|
      && forall i :: 0 <= i < |t.targets| ==> n.targets[i] == t.targets[i].(closes := 1)
    decreases |Run(s, steps).request.open|
  {
    var t := Run(s, steps);
    RunKeepsInv(s, steps);
    if t.request.open == {} {
      longer := steps + [Cancel];
      RunExtends(s, steps, Cancel);
      AllAreClosed(t);
      LastStepFinishes(t);
    } else {
      var key :| key in t.request.open;
      RunExtends(s, steps, Close(key));
      OneCloses(t, key);
      longer := CanFinish(s, steps + [Close(key)]);
    }
  }
}
