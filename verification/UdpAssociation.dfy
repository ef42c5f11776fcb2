/**
 A UDP association (socks5.go, transferUDP and what it starts) as interleaved atomic steps: one
 request loop, one response loop per dialled target, and the end of the TCP connection.  The loops
 share the dial cache and the address of the last client datagram.
 */
module UdpAssociation {
  import opened Prelude
  import opened AddressText
  import opened SocksWire

  /** bufferSize: a read keeps at most so many bytes of a datagram. */
  const BUFFER: nat := 8 * 1024

  /** What a read into the buffer leaves of a datagram. */
  function Buffered(d: bytes): bytes { if |d| <= BUFFER then d else d[..BUFFER] }

  /** How a write ends: whole, after n bytes (io.ErrShortWrite), or with an error that may say the socket is closed. */
  datatype Write = Whole | Short(n: nat) | Broken(closed: bool)

  /** The bytes that a write sent. */
  function Written(w: Write, data: bytes): (sent: bytes)
    requires !w.Broken?
    ensures IsPrefix(sent, data)
  {
    if w.Short? && w.n < |data| then data[..w.n] else data
  }

  datatype Target = Target(key: SocksAddr, dialText: bytes, closes: nat)

  datatype RequestPC =
    | Checking
    | Receiving
    | Looking(datagram: bytes, req: UdpRequest, body: bytes)
    | Dialling(datagram: bytes, req: UdpRequest, body: bytes)
    | Sending(conn: nat, datagram: bytes, req: UdpRequest, body: bytes)
    | Closing(open: set<SocksAddr>)
    | Finished

  datatype ResponsePC = RChecking | RReceiving | RReplying(data: bytes) | REnded

  /** A response loop and the target address that its closure captured. */
  datatype Loop = Loop(target: SocksAddr, pc: ResponsePC)

  /** A datagram that arrived, the connection it went to, and the bytes sent there. */
  datatype Forward = Forward(datagram: bytes, conn: nat, sent: bytes)

  /** A datagram that a connection produced and the bytes sent to the client for it. */
  datatype Reply = Reply(conn: nat, data: bytes, packet: bytes, to: bytes)

  datatype Assoc = Assoc(
    cache: map<SocksAddr, nat>,  // udpTargetConns: the index of the connection for an address
    targets: seq<Target>,        // every connection dialled, in order
    loops: seq<Loop>,            // the response loop of the connection with the same index
    client: Option<bytes>,       // udpClientAddr
    request: RequestPC,
    cancelled: bool,
    forwards: seq<Forward>,
    replies: seq<Reply>)

  const INIT := Assoc(map[], [], [], None, Checking, false, [], [])

  datatype Step =
    | TcpEnds
    | Check
    | Receive(datagram: bytes, from: bytes)
    | ReceiveFails(closed: bool)
    | Lookup
    | Dial(ok: bool, closed: bool)
    | Send(w: Write)
    | Close(key: SocksAddr)
    | Cancel
    | RCheck(i: nat)
    | RReceive(i: nat, data: bytes)
    | RReceiveFails(i: nat, closed: bool)
    | RSend(i: nat, w: Write)

  /** After an error: closed sockets end the request loop, everything else is logged or ignored. */
  function AfterError(s: Assoc, closed: bool): Assoc
  {
    s.(request := if closed then Closing(s.cache.Keys) else Checking)
  }

  function RequestNext(s: Assoc, step: Step): Assoc
  {
    match (s.request, step)
    case (Checking, Check) => if s.cancelled then s.(request := Closing(s.cache.Keys)) else s.(request := Receiving)
    case (Receiving, ReceiveFails(closed)) => AfterError(s, closed)
    case (Receiving, Receive(d, from)) =>
      var s1 := s.(client := Some(from));
      (match ParseUdp(Buffered(d))
       case Parsed(req, body) => s1.(request := Looking(d, req, body))
       case Failed(_, _) => s1.(request := Checking))
    case (Looking(d, req, body), Lookup) =>
      if req.addr in s.cache then s.(request := Sending(s.cache[req.addr], d, req, body))
      else s.(request := Dialling(d, req, body))
    case (Dialling(d, req, body), Dial(ok, closed)) =>
      if !ok then AfterError(s, closed)
      else s.(targets := s.targets + [Target(req.addr, HostPort(req.addr.addr, req.addr.port), 0)],
              loops := s.loops + [Loop(req.addr, RChecking)],
              cache := s.cache[req.addr := |s.targets|],
              request := Sending(|s.targets|, d, req, body))
    case (Sending(conn, d, req, body), Send(w)) =>
      if w.Broken? then AfterError(s, w.closed)
      else s.(forwards := s.forwards + [Forward(d, conn, Written(w, body))], request := Checking)
    case (Closing(open), Close(key)) =>
      if key in open && key in s.cache && s.cache[key] < |s.targets| then
        var i := s.cache[key];
        s.(targets := s.targets[i := s.targets[i].(closes := s.targets[i].closes + 1)],
           request := Closing(open - {key}))
      else s
    case (Closing(open), Cancel) => if open == {} then s.(request := Finished, cancelled := true) else s
    case _ => s
  }

  function LoopAt(s: Assoc, i: nat, pc: ResponsePC): Assoc
    requires i < |s.loops|
  {
    s.(loops := s.loops[i := s.loops[i].(pc := pc)])
  }

  function ResponseNext(s: Assoc, i: nat, step: Step): Assoc
    requires i < |s.loops|
  {
    match (s.loops[i].pc, step)
    case (RChecking, RCheck(_)) => LoopAt(s, i, if s.cancelled then REnded else RReceiving)
    case (RReceiving, RReceive(_, data)) => LoopAt(s, i, RReplying(data))
    case (RReceiving, RReceiveFails(_, closed)) => LoopAt(s, i, if closed then REnded else RChecking)
    case (RReplying(data), RSend(_, w)) =>
      (match MarshalUdp(UdpRequest(0, s.loops[i].target))
       case None => LoopAt(s, i, RChecking)
       case Some(header) =>
         if w.Broken? || s.client.None? then LoopAt(s, i, if w.Broken? && w.closed then REnded else RChecking)
         else
           var packet := Written(w, header + Buffered(data));
           LoopAt(s, i, RChecking).(replies := s.replies + [Reply(i, data, packet, s.client.value)]))
    case _ => s
  }

  /** The steps of the response loops. */
  predicate IsResponse(step: Step) { step.RCheck? || step.RReceive? || step.RReceiveFails? || step.RSend? }

  function Next(s: Assoc, step: Step): Assoc
  {
    match step
    case TcpEnds => s.(cancelled := true)
    case RCheck(i) => if i < |s.loops| then ResponseNext(s, i, step) else s
    case RReceive(i, _) => if i < |s.loops| then ResponseNext(s, i, step) else s
    case RReceiveFails(i, _) => if i < |s.loops| then ResponseNext(s, i, step) else s
    case RSend(i, _) => if i < |s.loops| then ResponseNext(s, i, step) else s
    case _ => RequestNext(s, step)
  }

  function Run(s: Assoc, steps: seq<Step>): Assoc
    decreases |steps|
  {
    if steps == [] then s else Next(Run(s, steps[..|steps| - 1]), steps[|steps| - 1])
  }

  // ---------- the invariant ----------

  /** The cache and the list of connections are inverse to each other. */
  predicate CacheInv(s: Assoc)
  {
    && |s.loops| == |s.targets|
    && (forall k :: k in s.cache ==> s.cache[k] < |s.targets| && s.targets[s.cache[k]].key == k)
    && (forall i :: 0 <= i < |s.targets| ==> s.targets[i].key in s.cache && s.cache[s.targets[i].key] == i)
  }

  predicate TargetsInv(s: Assoc)
  {
    && |s.loops| == |s.targets|
    && (s.targets != [] ==> s.client.Some?)
    && forall i :: 0 <= i < |s.targets| ==>
         && Canonical(s.targets[i].key)
         && s.targets[i].dialText == HostPort(s.targets[i].key.addr, s.targets[i].key.port)
         && s.loops[i].target == s.targets[i].key
  }

  predicate InHand(s: Assoc, d: bytes, req: UdpRequest, body: bytes)
  {
    ParseUdp(Buffered(d)) == Parsed(req, body) && s.client.Some?
  }

  predicate RequestInv(s: Assoc)
  {
    match s.request
    case Looking(d, req, body) => InHand(s, d, req, body)
    case Dialling(d, req, body) => InHand(s, d, req, body) && req.addr !in s.cache
    case Sending(conn, d, req, body) => InHand(s, d, req, body) && conn < |s.targets| && s.targets[conn].key == req.addr
    case Finished => s.cancelled
    case _ => true
  }

  /** How often a connection has been closed so far. */
  function ClosesDue(s: Assoc, key: SocksAddr): nat
  {
    match s.request
    case Closing(open) => if key in open then 0 else 1
    case Finished => 1
    case _ => 0
  }

  predicate ClosesInv(s: Assoc)
  {
    && (forall i :: 0 <= i < |s.targets| ==> s.targets[i].closes == ClosesDue(s, s.targets[i].key))
    && (s.request.Closing? ==> s.request.open <= s.cache.Keys)
  }

  predicate ForwardOK(s: Assoc, f: Forward)
  {
    && f.conn < |s.targets|
    && ParseUdp(Buffered(f.datagram)).Parsed?
    && s.targets[f.conn].key == ParseUdp(Buffered(f.datagram)).value.addr
    && IsPrefix(f.sent, ParseUdp(Buffered(f.datagram)).rest)
  }

  predicate ReplyOK(s: Assoc, r: Reply)
  {
    && r.conn < |s.targets|
    && MarshalUdp(UdpRequest(0, s.targets[r.conn].key)).Some?
    && IsPrefix(r.packet, MarshalUdp(UdpRequest(0, s.targets[r.conn].key)).value + Buffered(r.data))
  }

  predicate HistoryInv(s: Assoc)
  {
    && (forall k :: 0 <= k < |s.forwards| ==> ForwardOK(s, s.forwards[k]))
    && (forall k :: 0 <= k < |s.replies| ==> ReplyOK(s, s.replies[k]))
  }

  predicate Inv(s: Assoc)
  {
    CacheInv(s) && TargetsInv(s) && RequestInv(s) && ClosesInv(s) && HistoryInv(s)
  }

  /** Connections keep their identity and cache entries are never overwritten or removed. */
  predicate Grows(s: Assoc, t: Assoc)
  {
    && |s.targets| <= |t.targets|
    && (forall i :: 0 <= i < |s.targets| ==>
          t.targets[i].key == s.targets[i].key && t.targets[i].dialText == s.targets[i].dialText)
    && (forall k :: k in s.cache ==> k in t.cache && t.cache[k] == s.cache[k])
    && s.forwards <= t.forwards && s.replies <= t.replies
    && (s.request.Finished? ==> t.request.Finished? && t.targets == s.targets && t.forwards == s.forwards)
  }

  lemma HistoryCarriesOver(s: Assoc, t: Assoc)
    requires HistoryInv(s) && Grows(s, t) && t.forwards == s.forwards && t.replies == s.replies
    ensures HistoryInv(t)
  {
    forall k | 0 <= k < |t.forwards| ensures ForwardOK(t, t.forwards[k]) { assert ForwardOK(s, s.forwards[k]); }
    forall k | 0 <= k < |t.replies| ensures ReplyOK(t, t.replies[k]) { assert ReplyOK(s, s.replies[k]); }
  }

  lemma TargetsCarryOver(s: Assoc, t: Assoc)
    requires TargetsInv(s) && t.targets == s.targets && t.client == s.client && |t.loops| == |s.loops|
    requires forall j :: 0 <= j < |s.loops| ==> t.loops[j].target == s.loops[j].target
    ensures TargetsInv(t)
  {
  }

  lemma DialKeepsCache(s: Assoc, closed: bool)
    requires CacheInv(s) && s.request.Dialling? && s.request.req.addr !in s.cache
    ensures CacheInv(RequestNext(s, Dial(true, closed))) && Grows(s, RequestNext(s, Dial(true, closed)))
  {
  }

  lemma DialKeepsTargets(s: Assoc, closed: bool)
    requires TargetsInv(s) && s.request.Dialling? && s.client.Some? && Canonical(s.request.req.addr)
    ensures TargetsInv(RequestNext(s, Dial(true, closed)))
  {
    var t := RequestNext(s, Dial(true, closed));
    forall i | 0 <= i < |t.targets|
      ensures Canonical(t.targets[i].key) && t.loops[i].target == t.targets[i].key
      ensures t.targets[i].dialText == HostPort(t.targets[i].key.addr, t.targets[i].key.port)
    {
      if i < |s.targets| { assert t.targets[i] == s.targets[i]; }
    }
  }

  lemma DialKeepsCloses(s: Assoc, closed: bool)
    requires ClosesInv(s) && s.request.Dialling?
    ensures ClosesInv(RequestNext(s, Dial(true, closed)))
  {
  }

  lemma DialKeepsInv(s: Assoc, closed: bool)
    requires Inv(s) && s.request.Dialling?
    ensures Inv(RequestNext(s, Dial(true, closed))) && Grows(s, RequestNext(s, Dial(true, closed)))
  {
    UdpParseThenMarshal(Buffered(s.request.datagram));
    DialKeepsCache(s, closed);
    DialKeepsTargets(s, closed);
    DialKeepsCloses(s, closed);
    HistoryCarriesOver(s, RequestNext(s, Dial(true, closed)));
  }

  lemma ForwardKeepsHistory(s: Assoc, w: Write)
    requires HistoryInv(s) && RequestInv(s) && s.request.Sending? && !w.Broken?
    ensures HistoryInv(RequestNext(s, Send(w)))
  {
    var t := RequestNext(s, Send(w));
    forall k | 0 <= k < |t.forwards| ensures ForwardOK(t, t.forwards[k]) {
      if k < |s.forwards| { assert ForwardOK(s, s.forwards[k]); }
    }
    forall k | 0 <= k < |t.replies| ensures ReplyOK(t, t.replies[k]) { assert ReplyOK(s, s.replies[k]); }
  }

  lemma ForwardKeepsInv(s: Assoc, w: Write)
    requires Inv(s) && s.request.Sending? && !w.Broken?
    ensures Inv(RequestNext(s, Send(w))) && Grows(s, RequestNext(s, Send(w)))
  {
    ForwardKeepsHistory(s, w);
    TargetsCarryOver(s, RequestNext(s, Send(w)));
  }

  lemma CloseKeepsCache(s: Assoc, key: SocksAddr)
    requires CacheInv(s) && ClosesInv(s) && s.request.Closing?
    ensures CacheInv(RequestNext(s, Close(key))) && ClosesInv(RequestNext(s, Close(key)))
    ensures Grows(s, RequestNext(s, Close(key)))
  {
  }

  lemma CloseKeepsTargets(s: Assoc, key: SocksAddr)
    requires TargetsInv(s) && s.request.Closing?
    ensures TargetsInv(RequestNext(s, Close(key)))
  {
    var t := RequestNext(s, Close(key));
    forall i | 0 <= i < |t.targets|
      ensures Canonical(t.targets[i].key) && t.loops[i].target == t.targets[i].key
      ensures t.targets[i].dialText == HostPort(t.targets[i].key.addr, t.targets[i].key.port)
    {
      assert t.targets[i].key == s.targets[i].key && t.targets[i].dialText == s.targets[i].dialText;
    }
  }

  /** A step of the request loop that leaves the connections and the history alone. */
  predicate OnlyMoves(s: Assoc, t: Assoc)
  {
    && t.cache == s.cache && t.targets == s.targets && t.loops == s.loops
    && t.forwards == s.forwards && t.replies == s.replies
    && (s.client.Some? ==> t.client.Some?)
    && (s.request.Finished? ==> t.request.Finished?)
  }

  lemma MovesKeepInv(s: Assoc, t: Assoc)
    requires Inv(s) && OnlyMoves(s, t) && RequestInv(t) && ClosesInv(t)
    ensures Inv(t) && Grows(s, t)
  {
    HistoryCarriesOver(s, t);
  }

  /** A dial or a write to a target that succeeds. */
  predicate Works(step: Step) { (step.Dial? && step.ok) || (step.Send? && !step.w.Broken?) }

  lemma OtherStepsOnlyMove(s: Assoc, step: Step)
    requires !Works(step) && !step.Close?
    ensures OnlyMoves(s, RequestNext(s, step))
  {
  }

  lemma MoveKeepsRequest(s: Assoc, step: Step)
    requires RequestInv(s) && CacheInv(s) && !Works(step) && !step.Close?
    ensures RequestInv(RequestNext(s, step))
  {
  }

  lemma MoveKeepsCloses(s: Assoc, step: Step)
    requires ClosesInv(s) && CacheInv(s) && !Works(step) && !step.Close?
    ensures ClosesInv(RequestNext(s, step))
  {
    var t := RequestNext(s, step);
    OtherStepsOnlyMove(s, step);
    forall i | 0 <= i < |t.targets| ensures t.targets[i].closes == ClosesDue(t, t.targets[i].key) {
      assert s.targets[i].closes == ClosesDue(s, s.targets[i].key);
    }
  }

  lemma CloseKeepsInv(s: Assoc, key: SocksAddr)
    requires Inv(s) && s.request.Closing?
    ensures Inv(RequestNext(s, Close(key))) && Grows(s, RequestNext(s, Close(key)))
  {
    CloseKeepsCache(s, key);
    CloseKeepsTargets(s, key);
    HistoryCarriesOver(s, RequestNext(s, Close(key)));
  }

  predicate Acts(s: Assoc, step: Step)
  {
    || (s.request.Dialling? && step.Dial? && step.ok)
    || (s.request.Sending? && step.Send? && !step.w.Broken?)
    || (s.request.Closing? && step.Close?)
  }

  lemma OtherStepsMove(s: Assoc, step: Step)
    requires Inv(s) && !Acts(s, step)
    ensures Inv(RequestNext(s, step)) && Grows(s, RequestNext(s, step))
  {
    if step.Close? || Works(step) {
      assert RequestNext(s, step) == s;
    } else {
      OtherStepsOnlyMove(s, step);
      MoveKeepsRequest(s, step);
      MoveKeepsCloses(s, step);
      MovesKeepInv(s, RequestNext(s, step));
    }
  }

  lemma RequestKeepsInv(s: Assoc, step: Step)
    requires Inv(s)
    ensures Inv(RequestNext(s, step)) && Grows(s, RequestNext(s, step))
  {
    if !Acts(s, step) {
      OtherStepsMove(s, step);
    } else {
      match step
      case Dial(_, closed) => DialKeepsInv(s, closed);
      case Send(w) => ForwardKeepsInv(s, w);
      case Close(key) => CloseKeepsInv(s, key);
    }
  }

  /** The reply that a step adds, if any, is a front of the packet for its target. */
  predicate AddsGoodReply(s: Assoc, t: Assoc)
  {
    || t.replies == s.replies
    || (&& |t.replies| == |s.replies| + 1 && t.replies[..|s.replies|] == s.replies
        && ReplyOK(t, t.replies[|s.replies|]))
  }

  lemma GoodReplyKeepsHistory(s: Assoc, t: Assoc)
    requires HistoryInv(s) && t.targets == s.targets && t.forwards == s.forwards && AddsGoodReply(s, t)
    ensures HistoryInv(t)
  {
    forall k | 0 <= k < |t.forwards| ensures ForwardOK(t, t.forwards[k]) { assert ForwardOK(s, s.forwards[k]); }
    forall k | 0 <= k < |t.replies| ensures ReplyOK(t, t.replies[k]) {
      if k < |s.replies| {
        assert t.replies[..|s.replies|][k] == t.replies[k] || t.replies == s.replies;
        assert ReplyOK(s, s.replies[k]);
      }
    }
  }

  /** A step of a response loop changes only that loop's position and the replies. */
  predicate OnlyLoopMoves(s: Assoc, t: Assoc)
  {
    && t.cache == s.cache && t.targets == s.targets && t.client == s.client && t.forwards == s.forwards
    && t.request == s.request && t.cancelled == s.cancelled && s.replies <= t.replies
    && |t.loops| == |s.loops| && forall j :: 0 <= j < |s.loops| ==> t.loops[j].target == s.loops[j].target
  }

  lemma ResponseOnlyMovesLoop(s: Assoc, i: nat, step: Step)
    requires i < |s.loops|
    ensures OnlyLoopMoves(s, ResponseNext(s, i, step))
    ensures !(s.loops[i].pc.RReplying? && step.RSend? && !step.w.Broken?) ==>
      ResponseNext(s, i, step).replies == s.replies
  {
  }

  lemma LoopMoveIsSafe(s: Assoc, t: Assoc)
    requires CacheInv(s) && ClosesInv(s) && RequestInv(s) && OnlyLoopMoves(s, t)
    ensures CacheInv(t) && ClosesInv(t) && RequestInv(t) && Grows(s, t)
  {
  }

  lemma WriteAddsGoodReply(s: Assoc, i: nat, w: Write)
    requires TargetsInv(s) && i < |s.loops| && s.loops[i].pc.RReplying? && !w.Broken?
    ensures AddsGoodReply(s, ResponseNext(s, i, RSend(i, w)))
  {
    assert s.loops[i].target == s.targets[i].key;
    UdpMarshalThenParse(UdpRequest(0, s.targets[i].key), []);
  }

  lemma ResponseAddsGoodReply(s: Assoc, i: nat, step: Step)
    requires TargetsInv(s) && IsResponse(step) && i == step.i < |s.loops|
    ensures AddsGoodReply(s, ResponseNext(s, i, step))
  {
    if s.loops[i].pc.RReplying? && step.RSend? && !step.w.Broken? {
      WriteAddsGoodReply(s, i, step.w);
    } else {
      ResponseOnlyMovesLoop(s, i, step);
    }
  }

  lemma LoopMoveKeepsInv(s: Assoc, t: Assoc)
    requires Inv(s) && OnlyLoopMoves(s, t) && AddsGoodReply(s, t)
    ensures Inv(t) && Grows(s, t)
  {
    LoopMoveIsSafe(s, t);
    TargetsCarryOver(s, t);
    GoodReplyKeepsHistory(s, t);
  }

  lemma ResponseKeepsInv(s: Assoc, step: Step)
    requires Inv(s) && IsResponse(step) && step.i < |s.loops|
    ensures Inv(Next(s, step)) && Grows(s, Next(s, step))
  {
    ResponseOnlyMovesLoop(s, step.i, step);
    ResponseAddsGoodReply(s, step.i, step);
    LoopMoveKeepsInv(s, Next(s, step));
  }

  lemma TcpEndKeepsInv(s: Assoc)
    requires Inv(s)
    ensures Inv(Next(s, TcpEnds)) && Grows(s, Next(s, TcpEnds))
  {
    HistoryCarriesOver(s, Next(s, TcpEnds));
  }

  lemma IdleStepKeepsInv(s: Assoc, step: Step)
    requires Inv(s) && IsResponse(step) && step.i >= |s.loops|
    ensures Inv(Next(s, step)) && Grows(s, Next(s, step))
  {
  }

  lemma RequestStepKeepsInv(s: Assoc, step: Step)
    requires Inv(s) && !IsResponse(step) && step != TcpEnds
    ensures Inv(Next(s, step)) && Grows(s, Next(s, step))
  {
    RequestKeepsInv(s, step);
  }

  lemma StepKeepsInv(s: Assoc, step: Step)
    requires Inv(s)
    ensures Inv(Next(s, step)) && Grows(s, Next(s, step))
  {
    if step == TcpEnds {
      TcpEndKeepsInv(s);
    } else if IsResponse(step) && step.i < |s.loops| {
      ResponseKeepsInv(s, step);
    } else if IsResponse(step) {
      IdleStepKeepsInv(s, step);
    } else {
      RequestStepKeepsInv(s, step);
    }
  }

  lemma {:induction false} RunKeepsInv(s: Assoc, steps: seq<Step>)
    requires Inv(s)
    ensures Inv(Run(s, steps)) && Grows(s, Run(s, steps))
    decreases |steps|
  {
    if steps == [] {
    } else {
      RunKeepsInv(s, steps[..|steps| - 1]);
      StepKeepsInv(Run(s, steps[..|steps| - 1]), steps[|steps| - 1]);
    }
  }

  // ---------- the main results ----------

  /** A target address is dialled successfully at most once, however the loops interleave. */
  lemma DialledAtMostOnce(steps: seq<Step>, i: nat, j: nat)
    requires i < j < |Run(INIT, steps).targets|
    ensures Run(INIT, steps).targets[i].key != Run(INIT, steps).targets[j].key
  {
    RunKeepsInv(INIT, steps);
  }

  /** Extending a run never overwrites or removes a cache entry, and never reopens the request loop. */
  lemma CacheOnlyGrows(steps: seq<Step>, more: seq<Step>)
    ensures Grows(Run(INIT, steps), Run(Run(INIT, steps), more))
  {
    RunKeepsInv(INIT, steps);
    RunKeepsInv(Run(INIT, steps), more);
  }

  /** No connection is ever closed twice, and all are closed once the request loop has ended. */
  lemma ClosedExactlyOnce(steps: seq<Step>, i: nat)
    requires i < |Run(INIT, steps).targets|
    ensures var s := Run(INIT, steps);
      && s.targets[i].closes <= 1
      && (s.request.Finished? ==> s.targets[i].closes == 1 && s.cancelled)
      && (s.targets[i].closes == 1 ==> s.request.Closing? || s.request.Finished?)
  {
    RunKeepsInv(INIT, steps);
  }

  /** The sender of the last datagram that the request loop received, parsable or not. */
  function LastSender(steps: seq<Step>): Option<bytes>
    decreases |steps|
  {
    if steps == [] then None
    else
      var before, step := steps[..|steps| - 1], steps[|steps| - 1];
      if step.Receive? && Run(INIT, before).request == Receiving then Some(step.from) else LastSender(before)
  }

  lemma ClientByStep(s: Assoc, step: Step)
    ensures Next(s, step).client
         == if step.Receive? && s.request == Receiving then Some(step.from) else s.client
  {
    if IsResponse(step) && step.i < |s.loops| { ResponseOnlyMovesLoop(s, step.i, step); }
  }

  lemma {:induction false} ClientIsLastSender(steps: seq<Step>)
    ensures Run(INIT, steps).client == LastSender(steps)
    decreases |steps|
  {
    if steps == [] {
    } else {
      ClientIsLastSender(steps[..|steps| - 1]);
      ClientByStep(Run(INIT, steps[..|steps| - 1]), steps[|steps| - 1]);
    }
  }

  lemma NewReplyUsesClient(s: Assoc, step: Step)
    requires |Next(s, step).replies| > |s.replies|
    ensures |Next(s, step).replies| == |s.replies| + 1 && s.client == Some(Next(s, step).replies[|s.replies|].to)
  {
  }

  /** A packet for the client goes to whoever sent the association's latest datagram at that moment. */
  lemma ReplyGoesToLastSender(steps: seq<Step>, step: Step)
    requires |Next(Run(INIT, steps), step).replies| > |Run(INIT, steps).replies|
    ensures var n := |Run(INIT, steps).replies|;
      LastSender(steps) == Some(Next(Run(INIT, steps), step).replies[n].to)
  {
    var s := Run(INIT, steps);
    NewReplyUsesClient(s, step);
    ClientIsLastSender(steps);
  }
}
