/**
 What a UDP association delivers, over whole runs: each datagram it sends on is traced back to the step that
 brought it, and to the step that sent it.  A datagram longer than the buffer loses its end on the way.
 */
module UdpDelivery {
  import opened Prelude
  import opened AddressText
  import opened SocksWire
  import opened UdpAssociation

  // ---------- the buffer ----------

  lemma HeaderFitsBuffer(u: UdpRequest)
    requires Canonical(u.addr)
    ensures MarshalUdp(u).Some? && |MarshalUdp(u).value| <= 262 < BUFFER
  {
  }

  lemma ReadsWhole(d: bytes)
    requires ParseUdp(d).Parsed?
    ensures var p := ParseUdp(d);
      ParseUdp(Buffered(d)) == Parsed(p.value, Buffered(d)[|d| - |p.rest|..]) && |d| - |p.rest| < BUFFER
  {
    var p := ParseUdp(d);
    UdpParseThenMarshal(d);
    HeaderFitsBuffer(p.value);
    var header := MarshalUdp(p.value).value;
    assert Buffered(d) == header + Buffered(d)[|header|..];
    UdpMarshalThenParse(p.value, Buffered(d)[|header|..]);
  }

  lemma ReadsNothingNew(d: bytes)
    requires ParseUdp(Buffered(d)).Parsed?
    ensures ParseUdp(d).Parsed?
  {
    var p := ParseUdp(Buffered(d));
    UdpParseThenMarshal(Buffered(d));
    var header := MarshalUdp(p.value).value;
    var tail := d[|Buffered(d)|..];
    assert d == Buffered(d) + tail;
    Reassociate(header, p.rest, tail);
    UdpMarshalThenParse(p.value, p.rest + tail);
  }

  /** The buffer changes neither which datagrams are accepted nor their headers; it cuts bodies, and leaves a
      body as it was exactly when the whole datagram fits. */
  lemma BufferCutsBodies(d: bytes)
    ensures ParseUdp(Buffered(d)).Parsed? <==> ParseUdp(d).Parsed?
    ensures ParseUdp(d).Parsed? ==>
      && ParseUdp(Buffered(d)).value == ParseUdp(d).value
      && IsPrefix(ParseUdp(Buffered(d)).rest, ParseUdp(d).rest)
      && (ParseUdp(Buffered(d)).rest == ParseUdp(d).rest <==> |d| <= BUFFER)
  {
    if ParseUdp(d).Parsed? {
      ReadsWhole(d);
      UdpParseThenMarshal(d);
      var p := ParseUdp(d);
      var h := |d| - |p.rest|;
      assert d[h..] == p.rest;
      assert Buffered(d)[h..] == p.rest[..|Buffered(d)| - h];
    } else if ParseUdp(Buffered(d)).Parsed? {
      ReadsNothingNew(d);
    }
  }

  // ---------- requests ----------

  lemma SubsequenceGrows(a: seq<bytes>, b: seq<bytes>, d: bytes)
    requires Subsequence(a, b)
    ensures Subsequence(a, b + [d]) && Subsequence(a + [d], b + [d])
  {
    assert (a + [d])[..|a|] == a && (b + [d])[..|b|] == b;
  }

  lemma SentOneMore(sent: seq<bytes>, arrived: seq<bytes>)
    requires arrived != [] && Subsequence(sent, arrived[..|arrived| - 1])
    ensures Subsequence(sent + [arrived[|arrived| - 1]], arrived) && Subsequence(sent, arrived)
  {
    var n := |arrived| - 1;
    var front, last := arrived[..n], arrived[n];
    SubsequenceGrows(sent, front, last);
    assert front + [last] == arrived;
  }

  /** The datagram that a step receives in the request loop. */
  function Arrives(s: Assoc, step: Step): seq<bytes>
  {
    if step.Receive? && s.request == Receiving then [step.datagram] else []
  }

  /** The datagrams that the request loop received, in order. */
  function Received(steps: seq<Step>): seq<bytes>
    decreases |steps|
  {
    if steps == [] then []
    else
      var before, step := steps[..|steps| - 1], steps[|steps| - 1];
      Received(before) + Arrives(Run(INIT, before), step)
  }

  /** Whether a step gives up the datagram in hand: it does not parse, or its dial or its write fails. */
  predicate GivesUp(s: Assoc, step: Step)
  {
    || (s.request == Receiving && step.Receive? && ParseUdp(step.datagram).Failed?)
    || (s.request.Dialling? && step.Dial? && !step.ok)
    || (s.request.Sending? && step.Send? && step.w.Broken?)
  }

  function GivenUp(steps: seq<Step>): nat
    decreases |steps|
  {
    if steps == [] then 0
    else
      var before, step := steps[..|steps| - 1], steps[|steps| - 1];
      GivenUp(before) + (if GivesUp(Run(INIT, before), step) then 1 else 0)
  }

  function Datagrams(forwards: seq<Forward>): seq<bytes>
  {
    seq(|forwards|, k requires 0 <= k < |forwards| => forwards[k].datagram)
  }

  /** The datagram that the request loop is working on. */
  function Current(pc: RequestPC): Option<bytes>
  {
    match pc
    case Looking(d, _, _) => Some(d)
    case Dialling(d, _, _) => Some(d)
    case Sending(_, d, _, _) => Some(d)
    case _ => None
  }

  /** The datagrams sent on are among the arrivals, and the one in hand is the latest arrival. */
  predicate Accounted(s: Assoc, arrivals: seq<bytes>, givenUp: nat)
  {
    match Current(s.request)
    case None => Subsequence(Datagrams(s.forwards), arrivals) && |arrivals| == |s.forwards| + givenUp
    case Some(d) =>
      && arrivals != [] && arrivals[|arrivals| - 1] == d
      && Subsequence(Datagrams(s.forwards), arrivals[..|arrivals| - 1])
      && |arrivals| == |s.forwards| + givenUp + 1
  }

  lemma ReceiveAccounts(s: Assoc, step: Step, arrivals: seq<bytes>, givenUp: nat)
    requires Accounted(s, arrivals, givenUp) && step.Receive? && s.request == Receiving
    ensures Accounted(RequestNext(s, step), arrivals + [step.datagram], givenUp + (if GivesUp(s, step) then 1 else 0))
  {
    BufferCutsBodies(step.datagram);
    assert (arrivals + [step.datagram])[..|arrivals|] == arrivals;
    SubsequenceGrows(Datagrams(s.forwards), arrivals, step.datagram);
  }

  lemma SendAccounts(s: Assoc, step: Step, arrivals: seq<bytes>, givenUp: nat)
    requires Accounted(s, arrivals, givenUp) && step.Send? && s.request.Sending?
    ensures Accounted(RequestNext(s, step), arrivals, givenUp + (if GivesUp(s, step) then 1 else 0))
  {
    SentOneMore(Datagrams(s.forwards), arrivals);
    var t := RequestNext(s, step);
    if !step.w.Broken? { assert Datagrams(t.forwards) == Datagrams(s.forwards) + [s.request.datagram]; }
  }

  lemma MoveAccounts(s: Assoc, step: Step, arrivals: seq<bytes>, givenUp: nat)
    requires Accounted(s, arrivals, givenUp)
    requires !(step.Receive? && s.request == Receiving) && !(step.Send? && s.request.Sending?)
    ensures Accounted(RequestNext(s, step), arrivals, givenUp + (if GivesUp(s, step) then 1 else 0))
  {
    if Current(s.request).Some? { SentOneMore(Datagrams(s.forwards), arrivals); }
  }

  lemma RequestAccounts(s: Assoc, step: Step, arrivals: seq<bytes>, givenUp: nat)
    requires Accounted(s, arrivals, givenUp)
    ensures Accounted(RequestNext(s, step), arrivals + Arrives(s, step), givenUp + (if GivesUp(s, step) then 1 else 0))
  {
    assert arrivals + [] == arrivals;
    if step.Receive? && s.request == Receiving {
      ReceiveAccounts(s, step, arrivals, givenUp);
    } else if step.Send? && s.request.Sending? {
      SendAccounts(s, step, arrivals, givenUp);
    } else {
      MoveAccounts(s, step, arrivals, givenUp);
    }
  }

  lemma ResponsesDoNotCount(s: Assoc, step: Step)
    requires step == TcpEnds || IsResponse(step)
    ensures Next(s, step).request == s.request && Next(s, step).forwards == s.forwards
    ensures !GivesUp(s, step)
  {
    if step != TcpEnds && step.i < |s.loops| { ResponseOnlyMovesLoop(s, step.i, step); }
  }

  lemma StepAccounts(s: Assoc, step: Step, arrivals: seq<bytes>, givenUp: nat)
    requires Accounted(s, arrivals, givenUp)
    ensures Accounted(Next(s, step), arrivals + Arrives(s, step), givenUp + (if GivesUp(s, step) then 1 else 0))
  {
    if step == TcpEnds || IsResponse(step) {
      ResponsesDoNotCount(s, step);
      assert arrivals + [] == arrivals;
    } else {
      RequestAccounts(s, step, arrivals, givenUp);
    }
  }

  /**
   Conservation of requests: the datagrams sent on are, in order and each once, datagrams that the client sent,
   and every datagram received was sent on, is the one in hand, or was given up for one of three reasons.
   */
  lemma {:induction false} ForwardsAreArrivals(steps: seq<Step>)
    ensures Accounted(Run(INIT, steps), Received(steps), GivenUp(steps))
    decreases |steps|
  {
    if steps == [] {
    } else {
      var before := steps[..|steps| - 1];
      ForwardsAreArrivals(before);
      StepAccounts(Run(INIT, before), steps[|steps| - 1], Received(before), GivenUp(before));
    }
  }

  /** Datagram k was sent on by a write. */
  predicate WrittenBy(s: Assoc, k: nat, sender: Step)
  {
    && k < |s.forwards| && sender.Send? && !sender.w.Broken?
    && s.forwards[k].sent == Written(sender.w, ParseUdp(Buffered(s.forwards[k].datagram)).rest)
  }

  lemma NewForward(s: Assoc, step: Step, k: nat)
    requires RequestInv(s) && |s.forwards| <= k < |Next(s, step).forwards|
    ensures WrittenBy(Next(s, step), k, step)
  {
    if step == TcpEnds || IsResponse(step) { ResponsesDoNotCount(s, step); }
  }

  lemma OldForward(s: Assoc, step: Step, k: nat, sender: Step)
    requires Inv(s) && WrittenBy(s, k, sender)
    ensures WrittenBy(Next(s, step), k, sender)
  {
    StepKeepsInv(s, step);
    assert Next(s, step).forwards[k] == s.forwards[k];
  }

  /** The write that sent a datagram on. */
  lemma {:induction false} ForwardSentBy(steps: seq<Step>, k: nat) returns (n: nat)
    requires k < |Run(INIT, steps).forwards|
    ensures n < |steps| && WrittenBy(Run(INIT, steps), k, steps[n])
    decreases |steps|
  {
    var before := steps[..|steps| - 1];
    RunKeepsInv(INIT, before);
    if k < |Run(INIT, before).forwards| {
      n := ForwardSentBy(before, k);
      OldForward(Run(INIT, before), steps[|steps| - 1], k, before[n]);
    } else {
      n := |steps| - 1;
      NewForward(Run(INIT, before), steps[n], k);
    }
  }

  lemma ForwardArrived(s: Assoc, arrivals: seq<bytes>, givenUp: nat, k: nat)
    requires Accounted(s, arrivals, givenUp) && k < |s.forwards|
    ensures s.forwards[k].datagram in arrivals
  {
    if Current(s.request).Some? { SentOneMore(Datagrams(s.forwards), arrivals); }
    var j := SubsequenceElement(Datagrams(s.forwards), arrivals, k);
    assert arrivals[j] == Datagrams(s.forwards)[k];
  }

  /** The connection of a forwarded datagram is the cached one for the address in its header, dialled by its text. */
  predicate GoesToTarget(s: Assoc, f: Forward)
  {
    var d := ParseUdp(f.datagram);
    && d.Parsed? && d.value.addr in s.cache && s.cache[d.value.addr] == f.conn < |s.targets|
    && s.targets[f.conn].dialText == HostPort(d.value.addr.addr, d.value.addr.port)
  }

  lemma TargetOfForward(s: Assoc, k: nat)
    requires CacheInv(s) && TargetsInv(s) && HistoryInv(s) && k < |s.forwards|
    ensures GoesToTarget(s, s.forwards[k])
  {
    assert ForwardOK(s, s.forwards[k]);
    BufferCutsBodies(s.forwards[k].datagram);
  }

  /**
   Every datagram sent on in any run is one that the client sent, and went to the connection dialled for exactly
   the address in its header.  Step n wrote it; a write that ends whole passes the body on unchanged exactly
   when the datagram fits the buffer, and otherwise the front of it.
   */
  lemma ForwardsGoToTheirTarget(steps: seq<Step>, k: nat) returns (n: nat)
    requires k < |Run(INIT, steps).forwards|
    ensures Run(INIT, steps).forwards[k].datagram in Received(steps)
    ensures GoesToTarget(Run(INIT, steps), Run(INIT, steps).forwards[k])
    ensures n < |steps| && WrittenBy(Run(INIT, steps), k, steps[n])
    ensures var f := Run(INIT, steps).forwards[k];
      && IsPrefix(f.sent, ParseUdp(f.datagram).rest)
      && (steps[n].w == Whole ==> (f.sent == ParseUdp(f.datagram).rest <==> |f.datagram| <= BUFFER))
  {
    var s := Run(INIT, steps);
    RunKeepsInv(INIT, steps);
    TargetOfForward(s, k);
    BufferCutsBodies(s.forwards[k].datagram);
    ForwardsAreArrivals(steps);
    ForwardArrived(s, Received(steps), GivenUp(steps), k);
    n := ForwardSentBy(steps, k);
  }

  // ---------- responses ----------

  /** The datagram that a step reads in response loop i. */
  function Reads(s: Assoc, step: Step, i: nat): seq<bytes>
  {
    if step.RReceive? && step.i == i && i < |s.loops| && s.loops[i].pc == RReceiving then [step.data] else []
  }

  /** The datagrams that response loop i read from its target, in order. */
  function Delivered(steps: seq<Step>, i: nat): seq<bytes>
    decreases |steps|
  {
    if steps == [] then []
    else
      var before, step := steps[..|steps| - 1], steps[|steps| - 1];
      Delivered(before, i) + Reads(Run(INIT, before), step, i)
  }

  /** The datagrams of connection i for which a packet was sent to the client, in order. */
  function SentBack(replies: seq<Reply>, i: nat): seq<bytes>
    decreases |replies|
  {
    if replies == [] then []
    else
      var r := replies[|replies| - 1];
      SentBack(replies[..|replies| - 1], i) + (if r.conn == i then [r.data] else [])
  }

  predicate FailsReply(s: Assoc, step: Step, i: nat)
  {
    step.RSend? && step.i == i && i < |s.loops| && s.loops[i].pc.RReplying? && step.w.Broken?
  }

  /** How many datagrams loop i read and could not send to the client. */
  function Undelivered(steps: seq<Step>, i: nat): nat
    decreases |steps|
  {
    if steps == [] then 0
    else
      var before, step := steps[..|steps| - 1], steps[|steps| - 1];
      Undelivered(before, i) + (if FailsReply(Run(INIT, before), step, i) then 1 else 0)
  }

  /** What is sent back for connection i was read from it, and what loop i has in hand is its latest read. */
  predicate Answering(s: Assoc, i: nat, arrived: seq<bytes>, failed: nat)
  {
    if i < |s.loops| && s.loops[i].pc.RReplying? then
      && arrived != [] && arrived[|arrived| - 1] == s.loops[i].pc.data
      && Subsequence(SentBack(s.replies, i), arrived[..|arrived| - 1])
      && |arrived| == |SentBack(s.replies, i)| + failed + 1
    else Subsequence(SentBack(s.replies, i), arrived) && |arrived| == |SentBack(s.replies, i)| + failed
  }

  /** What a step of response loop j does to its position and to the replies. */
  ghost predicate LoopEffect(s: Assoc, t: Assoc, j: nat, step: Step)
    requires j < |s.loops|
  {
    var pc := s.loops[j].pc;
    && |t.loops| == |s.loops| && (forall k :: 0 <= k < |s.loops| && k != j ==> t.loops[k] == s.loops[k])
    && match (pc, step)
       case (RReceiving, RReceive(_, data)) => t.loops[j].pc == RReplying(data) && t.replies == s.replies
       case (RReplying(data), RSend(_, w)) =>
         && !t.loops[j].pc.RReplying?
         && (w.Broken? ==> t.replies == s.replies)
         && (!w.Broken? ==> exists packet, to :: t.replies == s.replies + [Reply(j, data, packet, to)])
       case _ => t.replies == s.replies && (if pc.RReplying? then t.loops[j].pc == pc else !t.loops[j].pc.RReplying?)
  }

  lemma WriteHasEffect(s: Assoc, i: nat, w: Write)
    requires TargetsInv(s) && i < |s.loops| && s.loops[i].pc.RReplying?
    ensures LoopEffect(s, ResponseNext(s, i, RSend(i, w)), i, RSend(i, w))
  {
    assert s.loops[i].target == s.targets[i].key;
  }

  lemma OtherStepHasEffect(s: Assoc, step: Step)
    requires IsResponse(step) && step.i < |s.loops| && !(s.loops[step.i].pc.RReplying? && step.RSend?)
    ensures LoopEffect(s, ResponseNext(s, step.i, step), step.i, step)
  {
  }

  lemma ResponseHasEffect(s: Assoc, step: Step)
    requires TargetsInv(s) && IsResponse(step) && step.i < |s.loops|
    ensures LoopEffect(s, Next(s, step), step.i, step)
  {
    if s.loops[step.i].pc.RReplying? && step.RSend? {
      WriteHasEffect(s, step.i, step.w);
    } else {
      OtherStepHasEffect(s, step);
    }
  }

  lemma SentBackGrows(replies: seq<Reply>, r: Reply, i: nat)
    ensures SentBack(replies + [r], i) == if r.conn == i then SentBack(replies, i) + [r.data] else SentBack(replies, i)
  {
    assert (replies + [r])[..|replies|] == replies;
  }

  /** A step of another loop changes neither what loop i has in hand nor what it sent. */
  lemma OtherLoopAnswers(s: Assoc, t: Assoc, step: Step, i: nat, arrived: seq<bytes>, failed: nat)
    requires IsResponse(step) && step.i < |s.loops| && step.i != i
    requires LoopEffect(s, t, step.i, step) && Answering(s, i, arrived, failed)
    ensures Answering(t, i, arrived + Reads(s, step, i), failed + (if FailsReply(s, step, i) then 1 else 0))
  {
    var j := step.i;
    assert arrived + Reads(s, step, i) == arrived;
    if s.loops[j].pc.RReplying? && step.RSend? && !step.w.Broken? {
      var packet, to :| t.replies == s.replies + [Reply(j, s.loops[j].pc.data, packet, to)];
      SentBackGrows(s.replies, Reply(j, s.loops[j].pc.data, packet, to), i);
    }
  }

  lemma OwnLoopAnswers(s: Assoc, t: Assoc, step: Step, i: nat, arrived: seq<bytes>, failed: nat)
    requires i < |s.loops| && LoopEffect(s, t, i, step) && Answering(s, i, arrived, failed)
    requires IsResponse(step) && step.i == i
    ensures Answering(t, i, arrived + Reads(s, step, i), failed + (if FailsReply(s, step, i) then 1 else 0))
  {
    assert arrived + [] == arrived;
    if s.loops[i].pc.RReplying? && step.RSend? {
      if !step.w.Broken? {
        var packet, to :| t.replies == s.replies + [Reply(i, s.loops[i].pc.data, packet, to)];
        SentBackGrows(s.replies, Reply(i, s.loops[i].pc.data, packet, to), i);
      }
      SentOneMore(SentBack(s.replies, i), arrived);
    } else if step.RReceive? && Reads(s, step, i) != [] {
      assert (arrived + [step.data])[..|arrived|] == arrived;
    }
  }

  lemma ResponseAnswers(s: Assoc, step: Step, i: nat, arrived: seq<bytes>, failed: nat)
    requires Inv(s) && IsResponse(step) && step.i < |s.loops| && Answering(s, i, arrived, failed)
    ensures Answering(Next(s, step), i,
                      arrived + Reads(s, step, i), failed + (if FailsReply(s, step, i) then 1 else 0))
  {
    ResponseHasEffect(s, step);
    if i == step.i {
      OwnLoopAnswers(s, Next(s, step), step, i, arrived, failed);
    } else {
      OtherLoopAnswers(s, Next(s, step), step, i, arrived, failed);
    }
  }

  lemma RequestsDoNotAnswer(s: Assoc, step: Step)
    ensures var t := RequestNext(s, step);
      && t.replies == s.replies && |s.loops| <= |t.loops|
      && (forall j :: 0 <= j < |s.loops| ==> t.loops[j] == s.loops[j])
      && (forall j :: |s.loops| <= j < |t.loops| ==> t.loops[j].pc == RChecking)
  {
  }

  lemma QuietStepAnswers(s: Assoc, step: Step, i: nat, arrived: seq<bytes>, failed: nat)
    requires Answering(s, i, arrived, failed) && !(IsResponse(step) && step.i < |s.loops|)
    ensures Answering(Next(s, step), i,
                      arrived + Reads(s, step, i), failed + (if FailsReply(s, step, i) then 1 else 0))
  {
    RequestsDoNotAnswer(s, step);
    assert arrived + Reads(s, step, i) == arrived;
  }

  lemma StepAnswers(s: Assoc, step: Step, i: nat, arrived: seq<bytes>, failed: nat)
    requires Inv(s) && Answering(s, i, arrived, failed)
    ensures Answering(Next(s, step), i,
                      arrived + Reads(s, step, i), failed + (if FailsReply(s, step, i) then 1 else 0))
  {
    if IsResponse(step) && step.i < |s.loops| {
      ResponseAnswers(s, step, i, arrived, failed);
    } else {
      QuietStepAnswers(s, step, i, arrived, failed);
    }
  }

  /** Conservation of responses, connection by connection: the packets sent to the client carry, in order and
      each once, datagrams that the connection delivered, and each of those was sent, is in hand, or failed. */
  lemma {:induction false} RepliesAreDeliveries(steps: seq<Step>, i: nat)
    ensures Answering(Run(INIT, steps), i, Delivered(steps, i), Undelivered(steps, i))
    decreases |steps|
  {
    if steps == [] {
    } else {
      var before := steps[..|steps| - 1];
      RepliesAreDeliveries(before, i);
      RunKeepsInv(INIT, before);
      StepAnswers(Run(INIT, before), steps[|steps| - 1], i, Delivered(before, i), Undelivered(before, i));
    }
  }

  /** The packet that a write of a response sends. */
  predicate PacketOf(s: Assoc, r: Reply, step: Step)
  {
    && step.RSend? && step.i == r.conn < |s.targets| && !step.w.Broken?
    && MarshalUdp(UdpRequest(0, s.targets[r.conn].key)).Some?
    && r.packet == Written(step.w, MarshalUdp(UdpRequest(0, s.targets[r.conn].key)).value + Buffered(r.data))
  }

  /** Reply k was sent by a write. */
  predicate SentBy(s: Assoc, k: nat, sender: Step) { k < |s.replies| && PacketOf(s, s.replies[k], sender) }

  lemma ResponseSends(s: Assoc, step: Step, k: nat)
    requires TargetsInv(s) && step.RSend? && step.i < |s.loops| && |s.replies| <= k < |Next(s, step).replies|
    ensures SentBy(Next(s, step), k, step)
  {
    assert s.loops[step.i].target == s.targets[step.i].key;
  }

  lemma OnlyWritesReply(s: Assoc, step: Step)
    requires !(step.RSend? && step.i < |s.loops|)
    ensures Next(s, step).replies == s.replies
  {
    if !IsResponse(step) { RequestsDoNotAnswer(s, step); }
  }

  lemma NewReply(s: Assoc, step: Step, k: nat)
    requires TargetsInv(s) && |s.replies| <= k < |Next(s, step).replies|
    ensures SentBy(Next(s, step), k, step)
  {
    if step.RSend? && step.i < |s.loops| {
      ResponseSends(s, step, k);
    } else {
      OnlyWritesReply(s, step);
      assert false;
    }
  }

  lemma OldReply(s: Assoc, step: Step, k: nat, sender: Step)
    requires Inv(s) && SentBy(s, k, sender)
    ensures SentBy(Next(s, step), k, sender)
  {
    StepKeepsInv(s, step);
    assert Next(s, step).replies[k] == s.replies[k];
  }

  /** The write that sent a packet to the client. */
  lemma {:induction false} ReplySentBy(steps: seq<Step>, k: nat) returns (n: nat)
    requires k < |Run(INIT, steps).replies|
    ensures n < |steps| && SentBy(Run(INIT, steps), k, steps[n])
    decreases |steps|
  {
    var before := steps[..|steps| - 1];
    RunKeepsInv(INIT, before);
    if k < |Run(INIT, before).replies| {
      n := ReplySentBy(before, k);
      OldReply(Run(INIT, before), steps[|steps| - 1], k, before[n]);
    } else {
      n := |steps| - 1;
      NewReply(Run(INIT, before), steps[n], k);
    }
  }

  lemma {:induction false} SentBackHolds(replies: seq<Reply>, k: nat) returns (j: nat)
    requires k < |replies|
    ensures j < |SentBack(replies, replies[k].conn)| && SentBack(replies, replies[k].conn)[j] == replies[k].data
    decreases |replies|
  {
    if k == |replies| - 1 {
      j := |SentBack(replies, replies[k].conn)| - 1;
    } else {
      j := SentBackHolds(replies[..|replies| - 1], k);
    }
  }

  /** The read that brought a delivered datagram. */
  lemma {:induction false} DeliveredBy(steps: seq<Step>, i: nat, j: nat) returns (m: nat)
    requires j < |Delivered(steps, i)|
    ensures m < |steps| && steps[m] == RReceive(i, Delivered(steps, i)[j])
    decreases |steps|
  {
    var before := steps[..|steps| - 1];
    if j < |Delivered(before, i)| { m := DeliveredBy(before, i, j); } else { m := |steps| - 1; }
  }

  /** The read that brought the datagram of a reply. */
  lemma ReplyReadBy(steps: seq<Step>, i: nat, at: nat) returns (m: nat)
    requires at < |SentBack(Run(INIT, steps).replies, i)|
    ensures m < |steps| && steps[m] == RReceive(i, SentBack(Run(INIT, steps).replies, i)[at])
  {
    var s, arrived := Run(INIT, steps), Delivered(steps, i);
    RepliesAreDeliveries(steps, i);
    var busy := i < |s.loops| && s.loops[i].pc.RReplying?;
    var j := SubsequenceElement(SentBack(s.replies, i), if busy then arrived[..|arrived| - 1] else arrived, at);
    m := DeliveredBy(steps, i, j);
  }

  /**
   Every packet sent to the client in any run carries a datagram that its connection delivered, read by step m and
   written by step n.  A write that ends whole makes it parse back to the target of that connection with the
   datagram as body, unchanged exactly when it fits the buffer; any other write sends the front of that.
   */
  lemma RepliesNameTheirTarget(steps: seq<Step>, k: nat) returns (m: nat, n: nat)
    requires k < |Run(INIT, steps).replies|
    ensures m < |steps| && n < |steps|
    ensures var s := Run(INIT, steps);
      var r := s.replies[k];
      && steps[m] == RReceive(r.conn, r.data) && PacketOf(s, r, steps[n])
      && (steps[n].w == Whole ==> ParseUdp(r.packet) == Parsed(UdpRequest(0, s.targets[r.conn].key), Buffered(r.data)))
      && (Buffered(r.data) == r.data <==> |r.data| <= BUFFER)
  {
    var s := Run(INIT, steps);
    var r := s.replies[k];
    RunKeepsInv(INIT, steps);
    n := ReplySentBy(steps, k);
    UdpMarshalThenParse(UdpRequest(0, s.targets[r.conn].key), Buffered(r.data));
    var at := SentBackHolds(s.replies, k);
    m := ReplyReadBy(steps, r.conn, at);
  }
}
