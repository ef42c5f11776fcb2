/**
 The protocol of socks5.go on the bytes themselves (RFC 1928 and RFC 1929): what a client must send to be served,
 what it is answered, byte for byte, and where its bytes make the server dial.  The numbers are those of the two
 standards.
 */
module SocksLaws {
  import opened Prelude
  import opened AddressText
  import opened AddressLaws
  import opened SocksWire
  import opened SocksSession

  // ---------- addresses ----------

  /** RFC 1928 section 5: type 1 with four bytes, type 3 with a length and a name, or type 4 with sixteen; then a
      port. */
  predicate Wire(w: bytes)
  {
    && w != []
    && (|| (w[0] == 1 && |w| == 7)
        || (w[0] == 3 && |w| >= 2 && |w| == 4 + w[1] as nat)
        || (w[0] == 4 && |w| == 19))
  }

  function WireHost(w: bytes): bytes
    requires Wire(w)
  {
    if w[0] == 1 then IPString(w[1..5]) else if w[0] == 4 then IPString(w[1..17]) else w[2..|w| - 2]
  }

  function WirePort(w: bytes): u16
    requires Wire(w)
  {
    w[|w| - 2] as int * 256 + w[|w| - 1]
  }

  function WireAddr(w: bytes): SocksAddr
    requires Wire(w)
  {
    SocksAddr(w[0], WireHost(w), WirePort(w))
  }

  lemma PortOnTheWire(w: bytes, rest: bytes, addrType: byte, host: bytes)
    requires Wire(w)
    ensures ParsePort(addrType, host, (w + rest)[|w| - 2..]) == Parsed(SocksAddr(addrType, host, WirePort(w)), rest)
  {
    var s, n := w + rest, |w| - 2;
    assert s[n..] == w[n..] + rest && s[n..][2..] == rest && s[n] == w[n] && s[n + 1] == w[n + 1];
  }

  lemma WireParses(w: bytes, rest: bytes)
    requires Wire(w)
    ensures ParseAddr(w + rest) == Parsed(WireAddr(w), rest)
  {
    var s, n := w + rest, |w| - 2;
    PortOnTheWire(w, rest, w[0], WireHost(w));
    if w[0] == 3 {
      assert s[2..n] == w[2..n];
    } else {
      assert s[1..n] == w[1..n];
    }
  }

  lemma MarshalledIsWire(a: SocksAddr)
    requires Marshal(a).Some?
    ensures Wire(Marshal(a).value)
  {
    MarshalThenParse(a, []);
  }

  lemma ParsedWire(s: bytes) returns (w: bytes)
    requires ParseAddr(s).Parsed?
    ensures Wire(w) && s == w + ParseAddr(s).rest && ParseAddr(s).value == WireAddr(w)
  {
    ParsedAddrIsPrefix(s);
    w := Marshal(ParseAddr(s).value).value;
    MarshalledIsWire(ParseAddr(s).value);
    WireParses(w, ParseAddr(s).rest);
  }

  /** The parser accepts an address exactly when the stream begins with one of the standard's forms, and reads it. */
  lemma AddressOnTheWire(s: bytes, a: SocksAddr, rest: bytes)
    ensures ParseAddr(s) == Parsed(a, rest) <==> exists w: bytes :: Wire(w) && s == w + rest && a == WireAddr(w)
  {
    if ParseAddr(s) == Parsed(a, rest) {
      var w := ParsedWire(s);
    }
    if w: bytes :| Wire(w) && s == w + rest && a == WireAddr(w) {
      WireParses(w, rest);
    }
  }

  lemma DatagramParses(frag: byte, w: bytes, body: bytes)
    requires Wire(w)
    ensures ParseUdp([0, 0, frag] + w + body) == Parsed(UdpRequest(frag, WireAddr(w)), body)
  {
    var d := [0, 0, frag] + w + body;
    assert d[3..] == w + body;
    WireParses(w, body);
  }

  lemma ParsedDatagram(d: bytes) returns (w: bytes)
    requires ParseUdp(d).Parsed?
    ensures var p := ParseUdp(d); Wire(w) && d == [0, 0, p.value.frag] + w + p.rest && p.value.addr == WireAddr(w)
  {
    var p := ParseUdp(d);
    w := ParsedWire(d[3..]);
    assert d == [0, 0, d[2]] + d[3..];
    Reassociate([0, 0, d[2]], w, p.rest);
  }

  /** RFC 1928 section 7: two zero bytes, the fragment number, an address, and the rest is the body. */
  lemma DatagramOnTheWire(d: bytes, frag: byte, a: SocksAddr, body: bytes)
    ensures ParseUdp(d) == Parsed(UdpRequest(frag, a), body)
       <==> exists w: bytes :: Wire(w) && d == [0, 0, frag] + w + body && a == WireAddr(w)
  {
    if ParseUdp(d) == Parsed(UdpRequest(frag, a), body) {
      var w := ParsedDatagram(d);
    }
    if w: bytes :| Wire(w) && d == [0, 0, frag] + w + body && a == WireAddr(w) {
      DatagramParses(frag, w, body);
    }
  }

  /** The header put before the bytes of a target: two zero bytes, fragment 0, and the address as it came. */
  lemma ReplyHeader(w: bytes)
    requires Wire(w)
    ensures MarshalUdp(UdpRequest(0, WireAddr(w))) == Some([0, 0, 0] + w)
  {
    WireParses(w, []);
    assert w + [] == w;
    ParseThenMarshal(w);
    assert w[..|w|] == w;
  }

  // ---------- the handshake ----------

  predicate LoginNeeded(cfg: Config) { cfg.username != [] || cfg.password != [] }

  /** RFC 1928 section 3: version 5 and a list of methods that contains the one given. */
  ghost predicate Greets(method_: byte, p: bytes)
  {
    exists methods: bytes :: |methods| < 256 && method_ in methods && p == [5, |methods|] + methods
  }

  /** RFC 1929 section 2: version 1, the name and the password with their lengths. */
  predicate Credentialled(cfg: Config, p: bytes)
  {
    && |cfg.username| < 256 && |cfg.password| < 256
    && p == [1, |cfg.username|] + cfg.username + [|cfg.password|] + cfg.password
  }

  /** All that a client sends before its request: method 0 alone, or method 2 and the configured credentials. */
  ghost predicate LogsIn(cfg: Config, p: bytes)
  {
    if !LoginNeeded(cfg) then Greets(0, p)
    else exists g: bytes, c: bytes :: p == g + c && Greets(2, g) && Credentialled(cfg, c)
  }

  function LoginReplies(cfg: Config): seq<bytes> { if LoginNeeded(cfg) then [[5, 2], [1, 0]] else [[5, 0]] }

  function Method(cfg: Config): byte { if LoginNeeded(cfg) then 2 else 0 }

  lemma GreetingRead(g: bytes, m: byte, t: bytes)
    requires Greets(m, g)
    ensures ParseGreeting(g + t, m) == Parsed((), t)
  {
    var methods: bytes :| |methods| < 256 && m in methods && g == [5, |methods|] + methods;
    GreetingAccepted(methods, m, t);
  }

  lemma ReadGreeting(s: bytes, m: byte) returns (g: bytes)
    requires ParseGreeting(s, m).Parsed?
    ensures Greets(m, g) && s == g + ParseGreeting(s, m).rest
  {
    var methods := AcceptedGreeting(s, m);
    g := [5, |methods|] + methods;
    assert g == Greeting(methods);
  }

  lemma CredentialsRead(cfg: Config, c: bytes, t: bytes)
    requires Credentialled(cfg, c)
    ensures ParseAuth(c + t) == Parsed((cfg.username, cfg.password), t)
  {
    CredentialsAccepted(cfg, t);
  }

  lemma ReadCredentials(cfg: Config, s: bytes) returns (c: bytes)
    requires ParseAuth(s).Parsed? && ParseAuth(s).value == (cfg.username, cfg.password)
    ensures Credentialled(cfg, c) && s == c + ParseAuth(s).rest
  {
    AcceptedCredentials(cfg, s);
    c := Credentials(cfg);
  }

  lemma LoginRead(cfg: Config, p: bytes, t: bytes)
    requires LogsIn(cfg, p)
    ensures AfterHandshake(cfg, p + t) == Some(t)
  {
    if LoginNeeded(cfg) {
      var g: bytes, c: bytes :| p == g + c && Greets(2, g) && Credentialled(cfg, c);
      Reassociate(g, c, t);
      GreetingRead(g, 2, c + t);
      CredentialsRead(cfg, c, t);
    } else {
      GreetingRead(p, 0, t);
    }
  }

  lemma ReadLogin(cfg: Config, input: bytes) returns (p: bytes)
    requires AfterHandshake(cfg, input).Some?
    ensures LogsIn(cfg, p) && input == p + AfterHandshake(cfg, input).value
  {
    var g := ReadGreeting(input, Method(cfg));
    var s := ParseGreeting(input, Method(cfg)).rest;
    if LoginNeeded(cfg) {
      var c := ReadCredentials(cfg, s);
      p := g + c;
      Reassociate(g, c, ParseAuth(s).rest);
    } else {
      p := g;
    }
  }

  /** The handler of requests is reached exactly after a login, and finds what follows it. */
  lemma LoginIff(cfg: Config, input: bytes, t: bytes)
    ensures AfterHandshake(cfg, input) == Some(t) <==> exists p: bytes :: LogsIn(cfg, p) && input == p + t
  {
    if AfterHandshake(cfg, input) == Some(t) {
      var p := ReadLogin(cfg, input);
    }
    if p: bytes :| LogsIn(cfg, p) && input == p + t {
      LoginRead(cfg, p, t);
    }
  }

  lemma RequestRead(version: byte, command: byte, reserved: byte, w: bytes, rest: bytes)
    requires Wire(w)
    ensures ParseRequest([version, command, reserved] + w + rest) == Parsed(Request(command, WireAddr(w)), rest)
  {
    var s := [version, command, reserved] + w + rest;
    assert s[3..] == w + rest;
    WireParses(w, rest);
  }

  /** RFC 1928 section 4: a version, the command, a reserved byte, and the address. */
  lemma ReadRequest(s: bytes) returns (w: bytes)
    requires ParseRequest(s).Parsed?
    ensures var p := ParseRequest(s);
      Wire(w) && s == [s[0], p.value.command, s[2]] + w + p.rest && p.value.destination == WireAddr(w)
  {
    w := ParsedWire(s[3..]);
    var head := [s[0], s[1], s[2]];
    assert s == head + s[3..];
    Reassociate(head, w, ParseRequest(s).rest);
  }

  // ---------- the dialogue ----------

  /** A client that has logged in and asks for something, with the bytes that follow. */
  ghost predicate Asks(cfg: Config, input: bytes, command: byte, w: bytes, rest: bytes)
  {
    && Wire(w)
    && exists p: bytes, version: byte, reserved: byte ::
         LogsIn(cfg, p) && input == p + [version, command, reserved] + w + rest
  }

  lemma AskedReachesRequest(cfg: Config, input: bytes, command: byte, w: bytes, rest: bytes)
    requires Asks(cfg, input, command, w, rest)
    ensures AfterHandshake(cfg, input).Some?
    ensures ParseRequest(AfterHandshake(cfg, input).value) == Parsed(Request(command, WireAddr(w)), rest)
  {
    var p: bytes, version: byte, reserved: byte :|
      LogsIn(cfg, p) && input == p + [version, command, reserved] + w + rest;
    var head := [version, command, reserved];
    Reassociate(p + head, w, rest);
    Reassociate(p, head, w + rest);
    Reassociate(head, w, rest);
    LoginRead(cfg, p, head + w + rest);
    RequestRead(version, command, reserved, w, rest);
  }

  lemma RequestIsAsked(cfg: Config, input: bytes) returns (w: bytes)
    requires AfterHandshake(cfg, input).Some? && ParseRequest(AfterHandshake(cfg, input).value).Parsed?
    ensures var p := ParseRequest(AfterHandshake(cfg, input).value);
      Asks(cfg, input, p.value.command, w, p.rest) && p.value.destination == WireAddr(w)
  {
    var t := AfterHandshake(cfg, input).value;
    var q := ParseRequest(t);
    var p := ReadLogin(cfg, input);
    w := ReadRequest(t);
    var head := [t[0], q.value.command, t[2]];
    Reassociate(p + head, w, q.rest);
    Reassociate(p, head, w + q.rest);
    Reassociate(head, w, q.rest);
    assert input == p + [t[0], q.value.command, t[2]] + w + q.rest;
  }

  /** The host and port that a dialled text stands for are those of a request's address. */
  ghost predicate Reaches(text: bytes, w: bytes)
    requires Wire(w)
  {
    exists d: bytes ::
      && IsNumeral(d, 10, WirePort(w))
      && text == (if 58 in WireHost(w) then [91] + WireHost(w) + [93] else WireHost(w)) + [58] + d
  }

  lemma DialTextReaches(w: bytes)
    requires Wire(w)
    ensures Reaches(HostPort(WireHost(w), WirePort(w)), w)
  {
    var d := HostPortForm(WireHost(w), WirePort(w));
  }

  /** The address of a socket can be reported: it has a host and a port of sixteen bits. */
  predicate Usable(local: LocalAddr) { local.Local? && 0 <= local.port <= 65535 }

  lemma ConnectHandled(s: bytes, a: SocksAddr, rest: bytes, world: World)
    requires ParseRequest(s) == Parsed(Request(1, a), rest)
    ensures var o := HandleRequest(s, world);
      && o.rest == rest && o.dialled == Some(HostPort(a.addr, a.port))
      && (o.stage == Relaying <==> world.dial.DialConnected? && Usable(world.dial.local))
  {
  }

  lemma AssociateHandled(s: bytes, a: SocksAddr, rest: bytes, world: World)
    requires ParseRequest(s) == Parsed(Request(3, a), rest)
    ensures var o := HandleRequest(s, world);
      o.rest == rest && (o.stage == Associated <==> world.listen.Listening? && Usable(world.listen.local))
  {
  }

  /** A client that asks for something is handled by what follows its login. */
  lemma AskedIsHandled(cfg: Config, input: bytes, world: World, command: byte, w: bytes, rest: bytes) returns (s: bytes)
    requires Asks(cfg, input, command, w, rest)
    ensures ParseRequest(s) == Parsed(Request(command, WireAddr(w)), rest)
    ensures var o, h := Session(cfg, input, world), HandleRequest(s, world);
      o.stage == h.stage && o.dialled == h.dialled && o.rest == h.rest
  {
    AskedReachesRequest(cfg, input, command, w, rest);
    s := AfterHandshake(cfg, input).value;
    SessionByHandshake(cfg, input, world);
  }

  lemma AskedIsDialled(cfg: Config, input: bytes, world: World, w: bytes, rest: bytes)
    requires Asks(cfg, input, 1, w, rest)
    ensures var o := Session(cfg, input, world); o.rest == rest && o.dialled.Some? && Reaches(o.dialled.value, w)
    ensures Session(cfg, input, world).stage == Relaying <==> world.dial.DialConnected? && Usable(world.dial.local)
  {
    var s := AskedIsHandled(cfg, input, world, 1, w, rest);
    ConnectHandled(s, WireAddr(w), rest, world);
    DialTextReaches(w);
  }

  lemma OnlyConnectDials(cfg: Config, input: bytes, world: World)
    requires Session(cfg, input, world).dialled.Some? || Session(cfg, input, world).stage == Relaying
    ensures AfterHandshake(cfg, input).Some? && ParseRequest(AfterHandshake(cfg, input).value).Parsed?
    ensures var p := ParseRequest(AfterHandshake(cfg, input).value);
      p.value.command == 1 && Session(cfg, input, world).rest == p.rest
  {
    SessionByHandshake(cfg, input, world);
    if AfterHandshake(cfg, input).None? { HandshakeRefusals(cfg, input, world); }
  }

  lemma DialledIsAsked(cfg: Config, input: bytes, world: World) returns (w: bytes)
    requires Session(cfg, input, world).dialled.Some? || Session(cfg, input, world).stage == Relaying
    ensures Asks(cfg, input, 1, w, Session(cfg, input, world).rest)
  {
    OnlyConnectDials(cfg, input, world);
    w := RequestIsAsked(cfg, input);
  }

  /**
   The server dials exactly for a client that has logged in as configured (with method 0 where no credential is set,
   with method 2 and both credentials where either is) and asks for command 1, to the host and port of that request;
   what it leaves unread is what follows the request; and it relays exactly if the target answers from a usable
   address.
   */
  lemma DialsExactlyForLoggedIn(cfg: Config, input: bytes, world: World, rest: bytes)
    ensures Session(cfg, input, world).dialled.Some? && Session(cfg, input, world).rest == rest
       <==> exists w: bytes :: Asks(cfg, input, 1, w, rest)
    ensures Session(cfg, input, world).stage == Relaying ==> Session(cfg, input, world).dialled.Some?
    ensures forall w: bytes :: Asks(cfg, input, 1, w, rest) ==>
      && Session(cfg, input, world).dialled.Some? && Reaches(Session(cfg, input, world).dialled.value, w)
      && (Session(cfg, input, world).stage == Relaying <==> world.dial.DialConnected? && Usable(world.dial.local))
  {
    var o := Session(cfg, input, world);
    if o.dialled.Some? || o.stage == Relaying {
      var w := DialledIsAsked(cfg, input, world);
      AskedIsDialled(cfg, input, world, w, o.rest);
    }
    forall w: bytes | Asks(cfg, input, 1, w, rest)
      ensures o.rest == rest && o.dialled.Some? && Reaches(o.dialled.value, w)
      ensures o.stage == Relaying <==> world.dial.DialConnected? && Usable(world.dial.local)
    {
      AskedIsDialled(cfg, input, world, w, rest);
    }
  }

  lemma AskedIsAssociated(cfg: Config, input: bytes, world: World, w: bytes, rest: bytes)
    requires Asks(cfg, input, 3, w, rest)
    ensures var o := Session(cfg, input, world);
      o.rest == rest && (o.stage == Associated <==> world.listen.Listening? && Usable(world.listen.local))
  {
    var s := AskedIsHandled(cfg, input, world, 3, w, rest);
    AssociateHandled(s, WireAddr(w), rest, world);
  }

  lemma OnlyAssociateAssociates(s: bytes, world: World)
    requires HandleRequest(s, world).stage == Associated
    ensures world.listen.Listening? && Usable(world.listen.local)
    ensures var q := ParseRequest(s); q.Parsed? && q.value.command == 3 && q.rest == HandleRequest(s, world).rest
  {
  }

  lemma AssociatedIsAsked(cfg: Config, input: bytes, world: World) returns (w: bytes)
    requires Session(cfg, input, world).stage == Associated
    ensures Asks(cfg, input, 3, w, Session(cfg, input, world).rest)
    ensures world.listen.Listening? && Usable(world.listen.local)
  {
    SessionByHandshake(cfg, input, world);
    if AfterHandshake(cfg, input).None? { HandshakeRefusals(cfg, input, world); }
    OnlyAssociateAssociates(AfterHandshake(cfg, input).value, world);
    w := RequestIsAsked(cfg, input);
  }

  /** An association begins exactly for a client that has logged in and asks for command 3, where one can be bound. */
  lemma AssociatesExactlyForLoggedIn(cfg: Config, input: bytes, world: World, rest: bytes)
    ensures Session(cfg, input, world).stage == Associated && Session(cfg, input, world).rest == rest
       <==> && (exists w: bytes :: Asks(cfg, input, 3, w, rest))
            && world.listen.Listening? && Usable(world.listen.local)
  {
    if Session(cfg, input, world).stage == Associated && Session(cfg, input, world).rest == rest {
      var w := AssociatedIsAsked(cfg, input, world);
    }
    if w: bytes :| Asks(cfg, input, 3, w, rest) {
      AskedIsAssociated(cfg, input, world, w, rest);
    }
  }

  /** A reply that reports an error: an all-zero IPv4 address and port. */
  function Refusal(code: byte): bytes { [5, code, 0, 1, 0, 0, 0, 0, 0, 0] }

  /** The bytes of a success reply for the address of the serving socket, or the general failure that replaces it. */
  function Bound(local: LocalAddr): seq<bytes>
  {
    if !Usable(local) then []
    else
      var port := [local.port / 256, local.port % 256];
      match ParseIP(local.host)
      case Some(ip) => [(if ip[..12] == MAPPED_PREFIX then [5, 0, 0, 1] + ip[12..] else [5, 0, 0, 4] + ip) + port]
      case None =>
        if |local.host| <= 255 then [[5, 0, 0, 3, |local.host|] + local.host + port] else [Refusal(1)]
  }

  lemma BindReplyOfField(host: bytes, port: u16, field: bytes)
    requires AddrField(SocksAddr(GetAddrType(host), host, port)) == Some(field)
    ensures BindReply(host, port) == [5, 0, 0, GetAddrType(host)] + field + [port / 256, port % 256]
  {
    assert [5, 0, 0] + ([GetAddrType(host)] + field + [port / 256, port % 256])
        == [5, 0, 0, GetAddrType(host)] + field + [port / 256, port % 256];
  }

  lemma BindReplyToIP(host: bytes, port: u16)
    requires ParseIP(host).Some?
    ensures [BindReply(host, port)] == Bound(Local(host, port))
  {
    MappedPrefix();
    var ip := ParseIP(host).value;
    BindReplyOfField(host, port, if ip[..12] == MAPPED_PREFIX then ip[12..] else ip);
  }

  lemma BindReplyToName(host: bytes, port: u16)
    requires ParseIP(host).None?
    ensures [BindReply(host, port)] == Bound(Local(host, port))
  {
    if |host| <= 255 {
      BindReplyOfField(host, port, [|host|] + host);
      assert [5, 0, 0, 3] + ([|host|] + host) == [5, 0, 0, 3, |host|] + host;
    }
  }

  lemma BindReplyBytes(host: bytes, port: u16)
    ensures [BindReply(host, port)] == Bound(Local(host, port))
  {
    if ParseIP(host).Some? { BindReplyToIP(host, port); } else { BindReplyToName(host, port); }
  }

  /** What a request is answered: by the command, and by what the network did for it. */
  function Answer(command: byte, world: World): seq<bytes>
  {
    if command == 1 then
      match world.dial
      case DialRefused => [Refusal(1)]
      case DialConnected(local) => Bound(local)
    else if command == 3 then
      match world.listen
      case NoClientAddr => []
      case ListenRefused => [Refusal(1)]
      case Listening(local) => Bound(local)
    else [Refusal(7)]
  }

  lemma BoundByParts(local: LocalAddr)
    ensures Bound(local) == match SplitLocal(local)
                            case None => []
                            case Some((host, port)) => [BindReply(host, port)]
  {
    if SplitLocal(local).Some? { BindReplyBytes(local.host, local.port); }
  }

  lemma HandlersAnswer(a: SocksAddr, command: byte, world: World, rest: bytes, s: bytes)
    requires ParseRequest(s) == Parsed(Request(command, a), rest)
    ensures HandleRequest(s, world).replies == Answer(command, world)
  {
    if world.dial.DialConnected? { BoundByParts(world.dial.local); }
    if world.listen.Listening? { BoundByParts(world.listen.local); }
  }

  ghost predicate HasGreeting(cfg: Config, input: bytes)
  {
    exists g: bytes, t: bytes :: Greets(Method(cfg), g) && input == g + t
  }

  ghost predicate HasLogin(cfg: Config, input: bytes) { exists p: bytes, t: bytes :: LogsIn(cfg, p) && input == p + t }

  ghost predicate HasRequest(cfg: Config, input: bytes)
  {
    exists command: byte, w: bytes, rest: bytes :: Asks(cfg, input, command, w, rest)
  }

  lemma HasGreetingIff(cfg: Config, input: bytes)
    ensures HasGreeting(cfg, input) <==> ParseGreeting(input, AuthMethod(cfg)).Parsed?
  {
    if ParseGreeting(input, Method(cfg)).Parsed? {
      var g := ReadGreeting(input, Method(cfg));
    }
    if g: bytes, t: bytes :| Greets(Method(cfg), g) && input == g + t {
      GreetingRead(g, Method(cfg), t);
    }
  }

  lemma HasLoginIff(cfg: Config, input: bytes)
    ensures HasLogin(cfg, input) <==> AfterHandshake(cfg, input).Some?
  {
    if AfterHandshake(cfg, input).Some? {
      var p := ReadLogin(cfg, input);
    }
    if p: bytes, t: bytes :| LogsIn(cfg, p) && input == p + t {
      LoginRead(cfg, p, t);
    }
  }

  lemma HasRequestIff(cfg: Config, input: bytes)
    ensures HasRequest(cfg, input) <==>
      AfterHandshake(cfg, input).Some? && ParseRequest(AfterHandshake(cfg, input).value).Parsed?
  {
    if AfterHandshake(cfg, input).Some? && ParseRequest(AfterHandshake(cfg, input).value).Parsed? {
      var w := RequestIsAsked(cfg, input);
    }
    if command: byte, w: bytes, rest: bytes :| Asks(cfg, input, command, w, rest) {
      AskedReachesRequest(cfg, input, command, w, rest);
    }
  }

  lemma AskedIsAnswered(cfg: Config, input: bytes, world: World, command: byte, w: bytes, rest: bytes)
    requires Asks(cfg, input, command, w, rest)
    ensures Session(cfg, input, world).replies == LoginReplies(cfg) + Answer(command, world)
  {
    SessionByHandshake(cfg, input, world);
    assert LoginReplies(cfg) == HandshakeReplies(cfg);
    AskedReachesRequest(cfg, input, command, w, rest);
    HandlersAnswer(WireAddr(w), command, world, rest, AfterHandshake(cfg, input).value);
  }

  lemma UnaskedIsRefused(cfg: Config, input: bytes, world: World)
    requires AfterHandshake(cfg, input).Some? && ParseRequest(AfterHandshake(cfg, input).value).Failed?
    ensures Session(cfg, input, world).replies == LoginReplies(cfg) + [Refusal(1)]
  {
    SessionByHandshake(cfg, input, world);
    assert LoginReplies(cfg) == HandshakeReplies(cfg);
  }

  /**
   Every reply that a client is sent, byte for byte.  Without an acceptable greeting it is 05 FF; with one but without
   the credentials that are needed 05 02, 01 01; after a login the login's replies, followed by a general failure where
   no request can be read, and otherwise by the answer to the request.
   */
  lemma RepliesByteForByte(cfg: Config, input: bytes, world: World)
    ensures !HasGreeting(cfg, input) ==> Session(cfg, input, world).replies == [[5, 255]]
    ensures HasGreeting(cfg, input) && !HasLogin(cfg, input) ==> Session(cfg, input, world).replies == [[5, 2], [1, 1]]
    ensures HasLogin(cfg, input) && !HasRequest(cfg, input) ==>
      Session(cfg, input, world).replies == LoginReplies(cfg) + [Refusal(1)]
    ensures forall command: byte, w: bytes, rest: bytes :: Asks(cfg, input, command, w, rest) ==>
      Session(cfg, input, world).replies == LoginReplies(cfg) + Answer(command, world)
    ensures HasRequest(cfg, input) ==> HasLogin(cfg, input)
    ensures HasLogin(cfg, input) ==> HasGreeting(cfg, input)
  {
    HasGreetingIff(cfg, input);
    HasLoginIff(cfg, input);
    HasRequestIff(cfg, input);
    if !HasLogin(cfg, input) {
      HandshakeRefusals(cfg, input, world);
    } else if !HasRequest(cfg, input) {
      UnaskedIsRefused(cfg, input, world);
    }
    forall command: byte, w: bytes, rest: bytes | Asks(cfg, input, command, w, rest)
      ensures Session(cfg, input, world).replies == LoginReplies(cfg) + Answer(command, world)
    {
      AskedIsAnswered(cfg, input, world, command, w, rest);
    }
  }

  // ---------- what is refused, and where reading stops ----------

  /** A greeting of another version, one cut short, and one without the method, with what is left unread. */
  lemma GreetingsRefused(m: byte, v: byte, n: byte, part: bytes, methods: bytes, t: bytes)
    requires v != 5 && |part| < n as nat && |methods| < 256 && m !in methods
    ensures ParseGreeting([], m) == ParseGreeting([v], m) == ParseGreeting([5], m) == Failed(ShortHeader, [])
    ensures ParseGreeting([v, n] + t, m) == Failed(BadVersion, t)
    ensures ParseGreeting([5, n] + part, m) == Failed(ShortMethods, [])
    ensures ParseGreeting([5, |methods|] + methods + t, m) == Failed(NoAcceptableMethod, t)
  {
    assert ([v, n] + t)[2..] == t;
    var s := [5, |methods|] + methods + t;
    assert s[2..2 + |methods|] == methods && s[2 + |methods|..] == t;
  }

  /** Credentials of another version, those cut short, and those that are whole, whether or not they are the right
      ones. */
  lemma CredentialsParse(v: byte, n: byte, part: bytes, user: bytes, pwd: bytes, t: bytes)
    requires v != 1 && |part| < n as nat && |user| < 256 && |pwd| < 256
    ensures ParseAuth([]) == ParseAuth([v]) == ParseAuth([1]) == Failed(ShortHeader, [])
    ensures ParseAuth([v, n] + t) == Failed(BadAuthVersion, t)
    ensures ParseAuth([1, n] + part) == Failed(ShortUsername, [])
    ensures ParseAuth([1, |user|] + user) == Failed(ShortPasswordLength, [])
    ensures ParseAuth([1, |user|] + user + [n] + part) == Failed(ShortPassword, [])
    ensures ParseAuth([1, |user|] + user + [|pwd|] + pwd + t) == Parsed((user, pwd), t)
  {
    assert ([v, n] + t)[2..] == t;
    CredentialsAccepted(Config(user, pwd), t);
  }

  /** An address of another type, and those cut short. */
  lemma AddressesRefused(k: byte, n: byte, part: bytes, host: bytes, port: bytes, t: bytes)
    requires k != 1 && k != 3 && k != 4 && |part| < n as nat && |port| < 2
    requires |host| >= 1 &&
      ((host[0] == 1 && |host| == 5) || (host[0] == 4 && |host| == 17)
       || (host[0] == 3 && |host| >= 2 && |host| == 2 + host[1] as nat))
    ensures ParseAddr([]) == Failed(ShortAddressType, [])
    ensures ParseAddr([k] + t) == Failed(UnsupportedAddressType, t)
    ensures |part| < 4 ==> ParseAddr([1] + part) == Failed(ShortIPv4, [])
    ensures ParseAddr([3]) == Failed(ShortDomainSize, []) && ParseAddr([3, n] + part) == Failed(ShortDomain, [])
    ensures |part| < 16 ==> ParseAddr([4] + part) == Failed(ShortIPv6, [])
    ensures ParseAddr(host + port) == Failed(ShortPort, [])
  {
    assert ([k] + t)[1..] == t;
  }

  /** A request with less than a header, and one whose address cannot be read. */
  lemma RequestsRefused(v: byte, command: byte, reserved: byte, s: bytes)
    ensures ParseRequest([]) == ParseRequest([v]) == ParseRequest([v, command]) == Failed(ShortHeader, [])
    ensures ParseAddr(s).Failed? ==>
      ParseRequest([v, command, reserved] + s) == Failed(ParseAddr(s).error, ParseAddr(s).rest)
  {
    assert ([v, command, reserved] + s)[3..] == s;
  }

  /** A datagram with less than a header and a type, one with a reserved byte set, and one whose address cannot be
      read. */
  lemma DatagramsRefused(d: bytes, a: byte, b: byte, frag: byte, s: bytes)
    ensures |d| < 4 ==> ParseUdp(d) == Failed(BadPacketLength, [])
    ensures s != [] && (a != 0 || b != 0) ==> ParseUdp([a, b, frag] + s) == Failed(BadReserved, [])
    ensures s != [] && ParseAddr(s).Failed? ==>
      ParseUdp([0, 0, frag] + s) == Failed(ParseAddr(s).error, ParseAddr(s).rest)
  {
    assert ([a, b, frag] + s)[3..] == s && ([0, 0, frag] + s)[3..] == s;
  }

  lemma GreetingRefusal(cfg: Config, input: bytes, world: World)
    requires ParseGreeting(input, Method(cfg)).Failed?
    ensures var p, o := ParseGreeting(input, Method(cfg)), Session(cfg, input, world);
      o.stage == Refused(p.error) && o.rest == p.rest && o.dialled == None
  {
  }

  lemma LoginRefusal(cfg: Config, g: bytes, s: bytes, world: World)
    requires LoginNeeded(cfg) && Greets(2, g)
    ensures var p, o := ParseAuth(s), Session(cfg, g + s, world);
      && (p.Failed? ==> o.stage == Refused(p.error) && o.rest == p.rest && o.dialled == None)
      && (p.Parsed? && p.value != (cfg.username, cfg.password) ==>
            o.stage == BadCredentials && o.rest == p.rest && o.dialled == None)
  {
    GreetingRead(g, 2, s);
  }

  lemma RequestRefusal(cfg: Config, p: bytes, s: bytes, world: World)
    requires LogsIn(cfg, p) && ParseRequest(s).Failed?
    ensures var q, o := ParseRequest(s), Session(cfg, p + s, world);
      o.stage == Refused(q.error) && o.rest == q.rest && o.dialled == None
  {
    LoginRead(cfg, p, s);
    SessionByHandshake(cfg, p + s, world);
  }

  /** What becomes of a request that was read, by its command and by what the network does for it. */
  function StageOf(command: byte, world: World): Stage
  {
    if command == 1 then
      if world.dial.DialRefused? then DialFailed
      else if Usable(world.dial.local) then Relaying else NoLocalAddr
    else if command == 3 then
      if world.listen.NoClientAddr? then NoLocalAddr
      else if world.listen.ListenRefused? then ListenFailed
      else if Usable(world.listen.local) then Associated else NoLocalAddr
    else UnsupportedCommand(command)
  }

  lemma RequestStage(s: bytes, command: byte, a: SocksAddr, rest: bytes, world: World)
    requires ParseRequest(s) == Parsed(Request(command, a), rest)
    ensures HandleRequest(s, world).stage == StageOf(command, world) && HandleRequest(s, world).rest == rest
  {
  }

  /** The target of a CONNECT is relayed to, fails or cannot be named; an association comes about or does not; and every
      other command is refused. */
  lemma StagesOfRequests(cfg: Config, input: bytes, world: World, command: byte, w: bytes, rest: bytes)
    requires Asks(cfg, input, command, w, rest)
    ensures var o := Session(cfg, input, world); o.rest == rest && o.stage == StageOf(command, world)
  {
    var s := AskedIsHandled(cfg, input, world, command, w, rest);
    RequestStage(s, command, WireAddr(w), rest, world);
  }
}
