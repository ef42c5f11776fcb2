/**
 The handlers of a UDP association as socks5.go writes them, over the mutable dial cache.  A handler
 that runs undisturbed takes exactly the atomic steps of UdpAssociation; other interleavings of
 the same steps are what that module's runs add.
 */
module UdpHandlers {
  import opened Prelude
  import opened AddressText
  import opened SocksWire
  import opened UdpAssociation

  /** What the network answers while one request is handled. */
  datatype Answers = Answers(dialOK: bool, dialClosed: bool, send: Write)

  /** The rest of a request step: look up or dial, then write. */
  function AfterLookup(s: Assoc, n: Answers): Assoc
  {
    RequestNext(RequestNext(RequestNext(s, Lookup), Dial(n.dialOK, n.dialClosed)), Send(n.send))
  }

  /** The two steps of a response in one. */
  lemma ResponseInOne(s: Assoc, i: nat, data: bytes, w: Write)
    requires i < |s.loops| && s.loops[i].pc == RReceiving
    ensures var header := MarshalUdp(UdpRequest(0, s.loops[i].target));
      var sent := header.Some? && !w.Broken? && s.client.Some?;
      var t := LoopAt(s, i, if header.Some? && w.Broken? && w.closed then REnded else RChecking);
      ResponseNext(ResponseNext(s, i, RReceive(i, data)), i, RSend(i, w))
      == if !sent then t
         else
           var packet := Written(w, header.value + Buffered(data));
           t.(replies := s.replies + [Reply(i, data, packet, s.client.value)])
  {
    var mid := ResponseNext(s, i, RReceive(i, data));
    assert mid.loops[i] == Loop(s.loops[i].target, RReplying(data));
    assert forall pc :: mid.loops[i := mid.loops[i].(pc := pc)] == s.loops[i := s.loops[i].(pc := pc)];
  }

  class Handlers {
    var udpTargetConns: map<SocksAddr, nat>
    var targets: seq<Target>
    var loops: seq<Loop>
    var udpClientAddr: Option<bytes>
    var cancelled: bool
    var forwards: seq<Forward>
    var replies: seq<Reply>

    function View(pc: RequestPC): Assoc
      reads this
    {
      Assoc(udpTargetConns, targets, loops, udpClientAddr, pc, cancelled, forwards, replies)
    }

    constructor ()
      ensures View(Checking) == INIT
    {
      udpTargetConns, targets, loops, udpClientAddr := map[], [], [], None;
      cancelled, forwards, replies := false, [], [];
    }

    /** Where the request loop goes next. */
    function Resume(stop: bool): Assoc
      reads this
    {
      View(if stop then Closing(udpTargetConns.Keys) else Checking)
    }

    /** The cached connection for an address, or a fresh one with its response loop, or None. */
    method GetOrDialTargetConn(d: bytes, req: UdpRequest, body: bytes, n: Answers) returns (conn: Option<nat>)
      modifies this
      ensures RequestNext(RequestNext(old(View(Looking(d, req, body))), Lookup), Dial(n.dialOK, n.dialClosed))
        == match conn
           case Some(c) => View(Sending(c, d, req, body))
           case None => Resume(n.dialClosed)
    {
      if req.addr in udpTargetConns { return Some(udpTargetConns[req.addr]); }
      if !n.dialOK { return None; }
      var c := |targets|;
      targets := targets + [Target(req.addr, HostPort(req.addr.addr, req.addr.port), 0)];
      udpTargetConns := udpTargetConns[req.addr := c];
      loops := loops + [Loop(req.addr, RChecking)];
      return Some(c);
    }

    method ForwardBody(d: bytes, req: UdpRequest, body: bytes, n: Answers) returns (stop: bool)
      modifies this
      ensures AfterLookup(old(View(Looking(d, req, body))), n) == Resume(stop)
    {
      var conn := GetOrDialTargetConn(d, req, body, n);
      if conn.None? { return n.dialClosed; }
      if n.send.Broken? { return n.send.closed; }
      forwards := forwards + [Forward(d, conn.value, Written(n.send, body))];
      return false;
    }

    /** One datagram from the client; stop is set where the request loop would end. */
    method HandleUDPRequest(d: bytes, from: bytes, n: Answers) returns (stop: bool)
      modifies this
      ensures AfterLookup(RequestNext(old(View(Receiving)), Receive(d, from)), n) == Resume(stop)
    {
      udpClientAddr := Some(from);
      var parsed := ParseUdp(Buffered(d));
      if parsed.Failed? { return false; }
      stop := ForwardBody(d, parsed.value, parsed.rest, n);
    }

    /** One datagram from the target of loop i, wherever the request loop stands; stop is set where that response
        loop would end. */
    method HandleUDPResponse(ghost pc: RequestPC, i: nat, data: bytes, w: Write) returns (stop: bool)
      requires i < |loops| && loops[i].pc == RReceiving
      modifies this`loops, this`replies
      ensures View(pc) == ResponseNext(ResponseNext(old(View(pc)), i, RReceive(i, data)), i, RSend(i, w))
      ensures i < |loops| && stop == (loops[i].pc == REnded)
    {
      ResponseInOne(View(pc), i, data, w);
      stop := false;
      match MarshalUdp(UdpRequest(0, loops[i].target)) {
        case None =>
        case Some(pkt) =>
          if w.Broken? {
            stop := w.closed;
          } else if udpClientAddr.Some? {
            replies := replies + [Reply(i, data, Written(w, pkt + Buffered(data)), udpClientAddr.value)];
          }
      }
      loops := loops[i := loops[i].(pc := if stop then REnded else RChecking)];
    }

    /** The deferred loop over the cache: every connection ever dialled is closed once more. */
    method CloseTargets()
      requires CacheInv(View(Checking))
      modifies this`targets
      ensures |targets| == old(|targets|)
      ensures forall i :: 0 <= i < |targets| ==>
        targets[i] == old(targets)[i].(closes := old(targets)[i].closes + 1)
    {
      ghost var before := targets;
      var open := udpTargetConns.Keys;
      while open != {}
        invariant open <= udpTargetConns.Keys && |targets| == |before|
        invariant forall i :: 0 <= i < |targets| ==>
          targets[i] == if before[i].key in open then before[i]
                        else before[i].(closes := before[i].closes + 1)
        decreases open
      {
        var key :| key in open;
        var i := udpTargetConns[key];
        targets := targets[i := targets[i].(closes := targets[i].closes + 1)];
        open := open - {key};
      }
    }
  }
}
