/**
 The imperative side of one SOCKS5 connection: io.Reader and io.ReadFull over a stream that the
 network cuts as it likes, the parsers that fill fixed buffers from it, and Conn.Run.  Each method
 is proved to compute the function of the same job in SocksWire or SocksSession on the flat bytes.
 */
module SocksConn {
  import opened Prelude
  import opened AddressText
  import opened SocksWire
  import opened SocksSession

  /** The client's side of the connection. */
  class ClientConn {
    var unread: bytes       // what the client sends and no Read has delivered yet
    var cuts: seq<nat>      // the most that each of the coming reads delivers; then no limit
    const endsWithData: bool // whether the end of the stream is reported along with its last bytes
    var written: seq<bytes> // the packets handed to Write, in order

    constructor (input: bytes, cuts: seq<nat>, endsWithData: bool)
      ensures unread == input && this.cuts == cuts && written == []
    {
      unread, this.cuts, this.endsWithData, written := input, cuts, endsWithData, [];
    }

    /** One Read into p[from..]: some bytes, possibly none, and whether the stream has ended. */
    method Read(p: array<byte>, from: nat) returns (n: nat, ended: bool)
      requires from < p.Length
      modifies this`unread, this`cuts, p
      ensures n <= p.Length - from && n <= |old(unread)| && unread == old(unread)[n..]
      ensures p[..from] == old(p[..from]) && p[from..from + n] == old(unread)[..n]
      ensures ended ==> unread == []
      ensures n == 0 ==> ended || |cuts| < |old(cuts)|
      ensures |cuts| <= |old(cuts)|
    {
      var limit := p.Length - from;
      if cuts != [] {
        if cuts[0] < limit { limit := cuts[0]; }
        cuts := cuts[1..];
      }
      n := if limit < |unread| then limit else |unread|;
      ghost var source := unread;
      var i := 0;
      while i < n
        modifies p
        invariant 0 <= i <= n
        invariant p[..from] == old(p[..from])
        invariant forall k :: 0 <= k < i ==> p[from + k] == source[k]
      {
        p[from + i] := unread[i];
        i := i + 1;
      }
      ended := n == |unread| && (n == 0 || endsWithData);
      unread := unread[n..];
    }

    method Write(packet: bytes)
      modifies this`written
      ensures written == old(written) + [packet]
    {
      written := written + [packet];
    }
  }

  /** io.ReadFull: fills the buffer from as many reads as it takes, or finds the stream too short. */
  method ReadFull(r: ClientConn, buf: array<byte>) returns (ok: bool)
    modifies r`unread, r`cuts, buf
    ensures ok <==> buf.Length <= |old(r.unread)|
    ensures ok ==> buf[..] == old(r.unread)[..buf.Length] && r.unread == old(r.unread)[buf.Length..]
    ensures !ok ==> r.unread == []
  {
    ghost var source := r.unread;
    var got, ended := 0, false;
    while got < buf.Length && !ended
      invariant got <= buf.Length && got <= |source|
      invariant r.unread == source[got..]
      invariant buf[..got] == source[..got]
      invariant ended ==> r.unread == []
      decreases !ended, buf.Length - got, |r.cuts|
    {
      var n;
      n, ended := r.Read(buf, got);
      assert buf[..got + n] == buf[..got] + buf[got..got + n];
      assert source[..got + n] == source[..got] + source[got..][..n];
      got := got + n;
    }
    ok := got == buf.Length;
    assert ok ==> buf[..] == buf[..got];
  }

  method ParseClientGreeting(r: ClientConn, authMethod: byte) returns (err: Option<WireError>)
    modifies r`unread, r`cuts
    ensures match ParseGreeting(old(r.unread), authMethod)
      case Parsed(_, rest) => err == None && r.unread == rest
      case Failed(e, rest) => err == Some(e) && r.unread == rest
  {
    var hdr := new byte[2];
    var ok := ReadFull(r, hdr);
    if !ok { return Some(ShortHeader); }
    if hdr[0] != VERSION { return Some(BadVersion); }
    var methods := new byte[hdr[1]];
    ok := ReadFull(r, methods);
    if !ok { return Some(ShortMethods); }
    for i := 0 to methods.Length
      invariant forall k :: 0 <= k < i ==> methods[k] != authMethod
    {
      if methods[i] == authMethod {
        assert methods[..][i] == authMethod;
        return None;
      }
    }
    assert authMethod !in methods[..];
    return Some(NoAcceptableMethod);
  }

  method ParseClientAuth(r: ClientConn) returns (user: bytes, pwd: bytes, err: Option<WireError>)
    modifies r`unread, r`cuts
    ensures match ParseAuth(old(r.unread))
      case Parsed(c, rest) => err == None && (user, pwd) == c && r.unread == rest
      case Failed(e, rest) => err == Some(e) && user == [] && pwd == [] && r.unread == rest
  {
    ghost var s := r.unread;
    var hdr := new byte[2];
    var ok := ReadFull(r, hdr);
    if !ok { return [], [], Some(ShortHeader); }
    if hdr[0] != AUTH_VERSION { return [], [], Some(BadAuthVersion); }
    var userBytes := new byte[hdr[1]];
    ok := ReadFull(r, userBytes);
    if !ok { return [], [], Some(ShortUsername); }
    assert userBytes[..] == s[2..2 + userBytes.Length];
    var hdrPwd := new byte[1];
    ok := ReadFull(r, hdrPwd);
    if !ok { return [], [], Some(ShortPasswordLength); }
    assert hdrPwd[0] == s[2 + userBytes.Length];
    var pwdBytes := new byte[hdrPwd[0]];
    ok := ReadFull(r, pwdBytes);
    if !ok { return [], [], Some(ShortPassword); }
    ghost var from := 3 + userBytes.Length;
    assert pwdBytes[..] == s[from..from + pwdBytes.Length];
    return userBytes[..], pwdBytes[..], None;
  }

  const NO_ADDR := SocksAddr(0, [], 0)

  /** The host text that follows the address type byte. */
  method ParseHost(r: ClientConn, addrType: byte) returns (host: bytes, err: Option<WireError>)
    modifies r`unread, r`cuts
    ensures ParseAddr([addrType] + old(r.unread)) ==
      match err
      case None => ParsePort(addrType, host, r.unread)
      case Some(e) => Failed(e, r.unread)
  {
    host := [];
    ghost var s := [addrType] + r.unread;
    assert s[1..] == r.unread;
    if addrType == IPV4 {
      var ip := new byte[4];
      var ok := ReadFull(r, ip);
      if !ok { return [], Some(ShortIPv4); }
      assert ip[..] == s[1..5] && r.unread == s[5..];
      return IPString(ip[..]), None;
    } else if addrType == DOMAIN {
      var size := new byte[1];
      var ok := ReadFull(r, size);
      if !ok { return [], Some(ShortDomainSize); }
      assert size[0] == s[1] && r.unread == s[2..];
      var domain := new byte[size[0]];
      ok := ReadFull(r, domain);
      if !ok { return [], Some(ShortDomain); }
      assert domain[..] == s[2..2 + domain.Length] && r.unread == s[2 + domain.Length..];
      return domain[..], None;
    } else if addrType == IPV6 {
      var ip := new byte[16];
      var ok := ReadFull(r, ip);
      if !ok { return [], Some(ShortIPv6); }
      assert ip[..] == s[1..17] && r.unread == s[17..];
      return IPString(ip[..]), None;
    }
    return [], Some(UnsupportedAddressType);
  }

  method ParseSocksAddr(r: ClientConn) returns (addr: SocksAddr, err: Option<WireError>)
    modifies r`unread, r`cuts
    ensures match ParseAddr(old(r.unread))
      case Parsed(a, rest) => err == None && addr == a && r.unread == rest
      case Failed(e, rest) => err == Some(e) && addr == NO_ADDR && r.unread == rest
  {
    ghost var s := r.unread;
    var addrType := new byte[1];
    var ok := ReadFull(r, addrType);
    if !ok { return NO_ADDR, Some(ShortAddressType); }
    assert s == [addrType[0]] + r.unread;
    var host;
    host, err := ParseHost(r, addrType[0]);
    if err.Some? { return NO_ADDR, err; }
    var port := new byte[2];
    ok := ReadFull(r, port);
    if !ok { return NO_ADDR, Some(ShortPort); }
    var high: int, low: int := port[0], port[1];
    return SocksAddr(addrType[0], host, high * 256 + low), None;
  }

  method ParseClientRequest(r: ClientConn) returns (req: Request, err: Option<WireError>)
    modifies r`unread, r`cuts
    ensures match ParseRequest(old(r.unread))
      case Parsed(q, rest) => err == None && req == q && r.unread == rest
      case Failed(e, rest) => err == Some(e) && r.unread == rest
  {
    var hdr := new byte[3];
    var ok := ReadFull(r, hdr);
    if !ok { return Request(0, NO_ADDR), Some(ShortHeader); }
    var destination;
    destination, err := ParseSocksAddr(r);
    return Request(hdr[1], destination), err;
  }

  const TCP: bytes := [116, 99, 112]

  const UDP: bytes := [117, 100, 112]

  /** Server-side state of one connection. */
  class Conn {
    const cfg: Config
    const client: ClientConn
    var request: Option<Request>
    var dest: bytes
    var transport: bytes
    var dialled: Option<bytes>

    constructor (cfg: Config, client: ClientConn)
      ensures this.cfg == cfg && this.client == client
      ensures request == None && dest == [] && transport == [] && dialled == None
    {
      this.cfg, this.client := cfg, client;
      request, dest, transport, dialled := None, [], [], None;
    }

    method SendError(code: byte)
      modifies client`written
      ensures client.written == old(client.written) + [ErrorPacket(code)]
    {
      ErrorPacketDecodes(code);
      var buf := MarshalResponse(ErrorResponse(code));
      client.Write(if buf.Some? then buf.value else []);
    }

    method HandleTCPConn(world: World) returns (stage: Stage)
      requires request.Some? && dialled == None
      modifies this`dest, this`transport, this`dialled, client`written
      ensures var d := request.value.destination;
        && dest == HostPort(d.addr, d.port) && transport == TCP
        && Outcome(client.written, dialled, stage, client.unread)
           == Onto(old(client.written), HandleTCP(dest, world.dial, client.unread))
    {
      var d := request.value.destination;
      dest, transport := HostPort(d.addr, d.port), TCP;
      dialled := Some(dest);
      if world.dial.DialRefused? {
        SendError(GENERAL_FAILURE);
        return DialFailed;
      }
      var local := SplitLocal(world.dial.local);
      if local.None? { return NoLocalAddr; }
      client.Write(BindReply(local.value.0, local.value.1));
      return Relaying;
    }

    method HandleUDPConn(world: World) returns (stage: Stage)
      requires request.Some? && dialled == None
      modifies this`dest, this`transport, client`written
      ensures var d := request.value.destination;
        && dest == HostPort(d.addr, d.port) && transport == UDP
        && Outcome(client.written, dialled, stage, client.unread)
           == Onto(old(client.written), HandleUDP(world.listen, client.unread))
    {
      var d := request.value.destination;
      dest, transport := HostPort(d.addr, d.port), UDP;
      if world.listen.NoClientAddr? { return NoLocalAddr; }
      if world.listen.ListenRefused? {
        SendError(GENERAL_FAILURE);
        return ListenFailed;
      }
      var local := SplitLocal(world.listen.local);
      if local.None? { return NoLocalAddr; }
      client.Write(BindReply(local.value.0, local.value.1));
      return Associated;
    }

    method HandleClientRequest(world: World) returns (stage: Stage)
      requires dialled == None
      modifies this, client
      ensures Outcome(client.written, dialled, stage, client.unread)
        == Onto(old(client.written), HandleRequest(old(client.unread), world))
    {
      var req, err := ParseClientRequest(client);
      if err.Some? {
        SendError(GENERAL_FAILURE);
        return Refused(err.value);
      }
      request := Some(req);
      if req.command == CONNECT {
        stage := HandleTCPConn(world);
      } else if req.command == UDP_ASSOCIATE {
        stage := HandleUDPConn(world);
      } else {
        SendError(COMMAND_NOT_SUPPORTED);
        stage := UnsupportedCommand(req.command);
      }
    }

    method AuthenticateClient(world: World) returns (stage: Stage)
      requires dialled == None
      modifies this, client
      ensures Outcome(client.written, dialled, stage, client.unread)
        == Onto(old(client.written), Authenticate(cfg, old(client.unread), world))
    {
      var user, pwd, err := ParseClientAuth(client);
      if err.Some? || user != cfg.username || pwd != cfg.password {
        client.Write([1, 1]);
        return if err.Some? then Refused(err.value) else BadCredentials;
      }
      client.Write([1, 0]);
      OntoTwice(old(client.written), [[1, 0]], HandleRequest(client.unread, world));
      stage := HandleClientRequest(world);
    }

    method Continue(needAuth: bool, world: World) returns (stage: Stage)
      requires dialled == None && needAuth == NeedAuth(cfg)
      modifies this, client
      ensures Outcome(client.written, dialled, stage, client.unread)
        == Onto(old(client.written), AfterGreeting(cfg, old(client.unread), world))
    {
      if needAuth {
        stage := AuthenticateClient(world);
      } else {
        stage := HandleClientRequest(world);
      }
    }

    /** The method negotiation: reads the greeting and answers it either way. */
    method Negotiate(authMethod: byte) returns (err: Option<WireError>)
      modifies client
      ensures match ParseGreeting(old(client.unread), authMethod)
        case Parsed(_, rest) =>
          err == None && client.unread == rest && client.written == old(client.written) + [[VERSION, authMethod]]
        case Failed(e, rest) =>
          err == Some(e) && client.unread == rest && client.written == old(client.written) + [[VERSION, NO_ACCEPTABLE]]
    {
      err := ParseClientGreeting(client, authMethod);
      client.Write([VERSION, if err.Some? then NO_ACCEPTABLE else authMethod]);
    }

    /** Conn.Run up to the transfer: the same outcome for every way the stream is cut into reads. */
    method Run(world: World) returns (stage: Stage)
      requires dialled == None && client.written == []
      modifies this, client
      ensures Outcome(client.written, dialled, stage, client.unread) == Session(cfg, old(client.unread), world)
    {
      var needAuth := cfg.username != [] || cfg.password != [];
      var err := Negotiate(if needAuth then PASSWORD_AUTH else NO_AUTH);
      if err.Some? { return Refused(err.value); }
      assert client.written == [[VERSION, AuthMethod(cfg)]];
      stage := Continue(needAuth, world);
    }
  }
}
