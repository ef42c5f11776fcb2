/**
 The dialogue of one SOCKS5 connection as a function of the flat byte stream that the client
 sends (RFC 1928 sections 3 to 6, RFC 1929 section 2), and the exact streams that make it dial.
 The methods of SocksConn.dfy are proved to compute this function whatever the stream's cuts.
 */
module SocksSession {
  import opened Prelude
  import opened AddressText
  import opened SocksWire

  const NO_AUTH: byte := 0
  const PASSWORD_AUTH: byte := 2
  const NO_ACCEPTABLE: byte := 255
  const AUTH_VERSION: byte := 1

  const CONNECT: byte := 1
  const UDP_ASSOCIATE: byte := 3

  datatype Config = Config(username: bytes, password: bytes)

  /** Either credential turns authentication on. */
  predicate NeedAuth(cfg: Config) { cfg.username != [] || cfg.password != [] }

  function AuthMethod(cfg: Config): byte { if NeedAuth(cfg) then PASSWORD_AUTH else NO_AUTH }

  // ---------- decoders ----------

  function ParseGreeting(s: bytes, method_: byte): Parse<()>
  {
    if |s| < 2 then Failed(ShortHeader, [])
    else if s[0] != VERSION then Failed(BadVersion, s[2..])
    else
      var end := 2 + s[1] as nat;
      if |s| < end then Failed(ShortMethods, [])
      else if method_ in s[2..end] then Parsed((), s[end..])
      else Failed(NoAcceptableMethod, s[end..])
  }

  function ParseAuth(s: bytes): Parse<(bytes, bytes)>
  {
    if |s| < 2 then Failed(ShortHeader, [])
    else if s[0] != AUTH_VERSION then Failed(BadAuthVersion, s[2..])
    else
      var userEnd := 2 + s[1] as nat;
      if |s| < userEnd then Failed(ShortUsername, [])
      else if |s| == userEnd then Failed(ShortPasswordLength, [])
      else
        var end := userEnd + 1 + s[userEnd] as nat;
        if |s| < end then Failed(ShortPassword, [])
        else Parsed((s[2..userEnd], s[userEnd + 1..end]), s[end..])
  }

  datatype Request = Request(command: byte, destination: SocksAddr)

  function ParseRequest(s: bytes): Parse<Request>
  {
    if |s| < 3 then Failed(ShortHeader, [])
    else match ParseAddr(s[3..])
      case Parsed(a, rest) => Parsed(Request(s[1], a), rest)
      case Failed(e, rest) => Failed(e, rest)
  }

  // ---------- the dialogue ----------

  /** The text of a socket's own address, after net.SplitHostPort and strconv.Atoi. */
  datatype LocalAddr = Unsplittable | Local(host: bytes, port: int)

  datatype DialResult = DialRefused | DialConnected(local: LocalAddr)

  datatype ListenResult = NoClientAddr | ListenRefused | Listening(local: LocalAddr)

  /** What the network answers to this connection. */
  datatype World = World(dial: DialResult, listen: ListenResult)

  datatype Stage =
    | Refused(error: WireError)
    | BadCredentials
    | UnsupportedCommand(command: byte)
    | DialFailed
    | NoLocalAddr
    | ListenFailed
    | Relaying
    | Associated

  /** The replies handed to the client in order, the address dialled, the outcome, and the unread bytes. */
  datatype Outcome = Outcome(replies: seq<bytes>, dialled: Option<bytes>, stage: Stage, rest: bytes)

  function SplitLocal(a: LocalAddr): Option<(bytes, u16)>
  {
    if a.Local? && 0 <= a.port <= 65535 then Some((a.host, a.port)) else None
  }

  /** The bytes of a marshalled errorResponse; ErrorPacketDecodes shows that they are. */
  function ErrorPacket(code: byte): bytes { [VERSION, code, 0, IPV4, 0, 0, 0, 0, 0, 0] }

  /** The success reply for a bound address, or the general failure that replaces an unencodable one. */
  function BindReply(host: bytes, port: u16): bytes
  {
    match MarshalResponse(Response(SUCCESS, SocksAddr(GetAddrType(host), host, port)))
    case Some(p) => p
    case None => ErrorPacket(GENERAL_FAILURE)
  }

  function HandleTCP(dest: bytes, dial: DialResult, rest: bytes): Outcome
  {
    match dial
    case DialRefused => Outcome([ErrorPacket(GENERAL_FAILURE)], Some(dest), DialFailed, rest)
    case DialConnected(local) =>
      match SplitLocal(local)
      case None => Outcome([], Some(dest), NoLocalAddr, rest)
      case Some((host, port)) => Outcome([BindReply(host, port)], Some(dest), Relaying, rest)
  }

  function HandleUDP(listen: ListenResult, rest: bytes): Outcome
  {
    match listen
    case NoClientAddr => Outcome([], None, NoLocalAddr, rest)
    case ListenRefused => Outcome([ErrorPacket(GENERAL_FAILURE)], None, ListenFailed, rest)
    case Listening(local) =>
      match SplitLocal(local)
      case None => Outcome([], None, NoLocalAddr, rest)
      case Some((host, port)) => Outcome([BindReply(host, port)], None, Associated, rest)
  }

  function HandleRequest(s: bytes, world: World): Outcome
  {
    match ParseRequest(s)
    case Failed(e, rest) => Outcome([ErrorPacket(GENERAL_FAILURE)], None, Refused(e), rest)
    case Parsed(req, rest) =>
      if req.command == CONNECT then
        HandleTCP(HostPort(req.destination.addr, req.destination.port), world.dial, rest)
      else if req.command == UDP_ASSOCIATE then HandleUDP(world.listen, rest)
      else Outcome([ErrorPacket(COMMAND_NOT_SUPPORTED)], None, UnsupportedCommand(req.command), rest)
  }

  /** The same outcome with earlier replies in front. */
  function Onto(sent: seq<bytes>, o: Outcome): Outcome { o.(replies := sent + o.replies) }

  lemma OntoTwice(a: seq<bytes>, b: seq<bytes>, o: Outcome)
    ensures Onto(a + b, o) == Onto(a, Onto(b, o))
  {
    assert a + b + o.replies == a + (b + o.replies);
  }

  function Authenticate(cfg: Config, s: bytes, world: World): Outcome
  {
    match ParseAuth(s)
    case Failed(e, rest) => Outcome([[1, 1]], None, Refused(e), rest)
    case Parsed((user, pwd), rest) =>
      if user != cfg.username || pwd != cfg.password then Outcome([[1, 1]], None, BadCredentials, rest)
      else Onto([[1, 0]], HandleRequest(rest, world))
  }

  function AfterGreeting(cfg: Config, s: bytes, world: World): Outcome
  {
    if NeedAuth(cfg) then Authenticate(cfg, s, world) else HandleRequest(s, world)
  }

  function Session(cfg: Config, input: bytes, world: World): Outcome
  {
    match ParseGreeting(input, AuthMethod(cfg))
    case Failed(e, rest) => Outcome([[VERSION, NO_ACCEPTABLE]], None, Refused(e), rest)
    case Parsed(_, s) =>
      Onto([[VERSION, AuthMethod(cfg)]], AfterGreeting(cfg, s, world))
  }

  // ---------- the grammar of an accepted opening ----------

  function Greeting(methods: bytes): bytes
    requires |methods| < 256
  {
    [VERSION, |methods|] + methods
  }

  predicate Encodable(cfg: Config) { |cfg.username| < 256 && |cfg.password| < 256 }

  function Credentials(cfg: Config): bytes
    requires Encodable(cfg)
  {
    [AUTH_VERSION, |cfg.username|] + cfg.username + [|cfg.password|] + cfg.password
  }

  function RequestPacket(version: byte, command: byte, reserved: byte, target: SocksAddr): bytes
    requires Marshal(target).Some?
  {
    [version, command, reserved] + Marshal(target).value
  }

  /** What a client sends before its payload. The version and reserved bytes of the request are free. */
  function Opening(cfg: Config, methods: bytes, version: byte, command: byte, reserved: byte,
                   target: SocksAddr): bytes
    requires |methods| < 256 && (NeedAuth(cfg) ==> Encodable(cfg)) && Marshal(target).Some?
  {
    Greeting(methods) + (if NeedAuth(cfg) then Credentials(cfg) else [])
    + RequestPacket(version, command, reserved, target)
  }

  ghost predicate IsOpening(cfg: Config, command: byte, opening: bytes, target: SocksAddr)
  {
    && (NeedAuth(cfg) ==> Encodable(cfg)) && Canonical(target)
    && exists methods: bytes, version: byte, reserved: byte ::
         |methods| < 256 && AuthMethod(cfg) in methods
         && opening == Opening(cfg, methods, version, command, reserved, target)
  }

  lemma GreetingAccepted(methods: bytes, method_: byte, t: bytes)
    requires |methods| < 256 && method_ in methods
    ensures ParseGreeting(Greeting(methods) + t, method_) == Parsed((), t)
  {
    var s := Greeting(methods) + t;
    assert s[2..2 + |methods|] == methods && s[2 + |methods|..] == t;
  }

  lemma AcceptedGreeting(s: bytes, method_: byte) returns (methods: bytes)
    requires ParseGreeting(s, method_).Parsed?
    ensures |methods| < 256 && method_ in methods
    ensures s == Greeting(methods) + ParseGreeting(s, method_).rest
  {
    methods := s[2..2 + s[1] as nat];
  }

  lemma CredentialsAccepted(cfg: Config, t: bytes)
    requires Encodable(cfg)
    ensures ParseAuth(Credentials(cfg) + t) == Parsed((cfg.username, cfg.password), t)
  {
    var s := Credentials(cfg) + t;
    var u := 2 + |cfg.username|;
    var e := u + 1 + |cfg.password|;
    assert s[2..u] == cfg.username;
    assert s[u] == |cfg.password|;
    assert s[u + 1..e] == cfg.password;
    assert s[e..] == t;
  }

  lemma AcceptedCredentials(cfg: Config, s: bytes)
    requires ParseAuth(s).Parsed? && ParseAuth(s).value == (cfg.username, cfg.password)
    ensures Encodable(cfg) && s == Credentials(cfg) + ParseAuth(s).rest
  {
    var userEnd := 2 + s[1] as nat;
    var end := userEnd + 1 + s[userEnd] as nat;
    assert s[2..userEnd] == cfg.username && s[userEnd + 1..end] == cfg.password;
    assert s == [s[0], s[1]] + s[2..userEnd] + [s[userEnd]] + s[userEnd + 1..end] + s[end..];
  }

  lemma RequestAccepted(version: byte, command: byte, reserved: byte, target: SocksAddr, t: bytes)
    requires Canonical(target)
    ensures ParseRequest(RequestPacket(version, command, reserved, target) + t)
         == Parsed(Request(command, target), t)
  {
    var w := Marshal(target).value;
    var s := RequestPacket(version, command, reserved, target) + t;
    assert s[3..] == w + t;
    MarshalThenParse(target, t);
  }

  lemma AcceptedRequest(s: bytes)
    requires ParseRequest(s).Parsed?
    ensures var p := ParseRequest(s);
      Canonical(p.value.destination)
      && s == RequestPacket(s[0], p.value.command, s[2], p.value.destination) + p.rest
  {
    ParsedAddrIsPrefix(s[3..]);
    var head, p := [s[0], s[1], s[2]], ParseAddr(s[3..]);
    var w := Marshal(p.value).value;
    assert s == head + s[3..];
    assert head + w + p.rest == head + (w + p.rest);
  }

  /** The bytes a request handler gets when the handshake before it succeeded. */
  function AfterHandshake(cfg: Config, input: bytes): Option<bytes>
  {
    match ParseGreeting(input, AuthMethod(cfg))
    case Failed(_, _) => None
    case Parsed(_, s) =>
      if !NeedAuth(cfg) then Some(s)
      else match ParseAuth(s)
        case Failed(_, _) => None
        case Parsed(c, rest) => if c == (cfg.username, cfg.password) then Some(rest) else None
  }

  lemma HandshakeAccepted(cfg: Config, methods: bytes, t: bytes)
    requires |methods| < 256 && AuthMethod(cfg) in methods && (NeedAuth(cfg) ==> Encodable(cfg))
    ensures AfterHandshake(cfg, Greeting(methods) + (if NeedAuth(cfg) then Credentials(cfg) else []) + t)
         == Some(t)
  {
    var c := if NeedAuth(cfg) then Credentials(cfg) else [];
    assert Greeting(methods) + c + t == Greeting(methods) + (c + t);
    GreetingAccepted(methods, AuthMethod(cfg), c + t);
    if NeedAuth(cfg) { CredentialsAccepted(cfg, t); } else { assert c + t == t; }
  }

  lemma AcceptedHandshake(cfg: Config, input: bytes) returns (methods: bytes)
    requires AfterHandshake(cfg, input).Some?
    ensures |methods| < 256 && AuthMethod(cfg) in methods && (NeedAuth(cfg) ==> Encodable(cfg))
    ensures input == Greeting(methods) + (if NeedAuth(cfg) then Credentials(cfg) else [])
                     + AfterHandshake(cfg, input).value
  {
    methods := AcceptedGreeting(input, AuthMethod(cfg));
    var s := ParseGreeting(input, AuthMethod(cfg)).rest;
    if NeedAuth(cfg) {
      AcceptedCredentials(cfg, s);
      var t := ParseAuth(s).rest;
      assert Greeting(methods) + (Credentials(cfg) + t) == Greeting(methods) + Credentials(cfg) + t;
    }
  }

  /** The request that the handshake leads to, for a stream that begins with an accepted opening. */
  lemma OpeningReachesRequest(cfg: Config, command: byte, opening: bytes, target: SocksAddr, payload: bytes)
    requires IsOpening(cfg, command, opening, target)
    ensures var s := AfterHandshake(cfg, opening + payload);
      s.Some? && ParseRequest(s.value) == Parsed(Request(command, target), payload)
  {
    var methods: bytes, version: byte, reserved: byte :|
      |methods| < 256 && AuthMethod(cfg) in methods
      && opening == Opening(cfg, methods, version, command, reserved, target);
    var c := if NeedAuth(cfg) then Credentials(cfg) else [];
    var r := RequestPacket(version, command, reserved, target);
    assert opening + payload == Greeting(methods) + c + (r + payload);
    HandshakeAccepted(cfg, methods, r + payload);
    RequestAccepted(version, command, reserved, target, payload);
  }

  lemma OpeningAssembled(cfg: Config, methods: bytes, version: byte, command: byte, reserved: byte,
                         target: SocksAddr, payload: bytes)
    requires |methods| < 256 && AuthMethod(cfg) in methods && (NeedAuth(cfg) ==> Encodable(cfg))
    requires Canonical(target)
    ensures var o := Opening(cfg, methods, version, command, reserved, target);
      && IsOpening(cfg, command, o, target)
      && Greeting(methods) + (if NeedAuth(cfg) then Credentials(cfg) else [])
         + (RequestPacket(version, command, reserved, target) + payload) == o + payload
  {
    var g, c := Greeting(methods), if NeedAuth(cfg) then Credentials(cfg) else [];
    var r := RequestPacket(version, command, reserved, target);
    assert g + c + (r + payload) == g + c + r + payload;
  }

  lemma RequestReachedByOpening(cfg: Config, input: bytes) returns (opening: bytes)
    requires AfterHandshake(cfg, input).Some? && ParseRequest(AfterHandshake(cfg, input).value).Parsed?
    ensures var p := ParseRequest(AfterHandshake(cfg, input).value);
      IsOpening(cfg, p.value.command, opening, p.value.destination) && input == opening + p.rest
  {
    var methods := AcceptedHandshake(cfg, input);
    var s := AfterHandshake(cfg, input).value;
    var p := ParseRequest(s);
    AcceptedRequest(s);
    opening := Opening(cfg, methods, s[0], p.value.command, s[2], p.value.destination);
    OpeningAssembled(cfg, methods, s[0], p.value.command, s[2], p.value.destination, p.rest);
  }

  /** The server reads one opening at most: the target and the payload are determined by the stream. */
  lemma OpeningUnique(cfg: Config, input: bytes, command: byte, command': byte,
                      opening: bytes, opening': bytes, target: SocksAddr, target': SocksAddr,
                      payload: bytes, payload': bytes)
    requires IsOpening(cfg, command, opening, target) && input == opening + payload
    requires IsOpening(cfg, command', opening', target') && input == opening' + payload'
    ensures command == command' && opening == opening' && target == target' && payload == payload'
  {
    OpeningReachesRequest(cfg, command, opening, target, payload);
    OpeningReachesRequest(cfg, command', opening', target', payload');
    assert |opening| == |opening'|;
    assert input[..|opening|] == opening && input[..|opening'|] == opening';
  }

  function HandshakeReplies(cfg: Config): seq<bytes>
  {
    if NeedAuth(cfg) then [[VERSION, PASSWORD_AUTH], [1, 0]] else [[VERSION, NO_AUTH]]
  }

  lemma SessionByHandshake(cfg: Config, input: bytes, world: World)
    ensures AfterHandshake(cfg, input).None? ==> Session(cfg, input, world).dialled == None
    ensures AfterHandshake(cfg, input).Some? ==>
      var o, h := Session(cfg, input, world), HandleRequest(AfterHandshake(cfg, input).value, world);
      o.dialled == h.dialled && o.stage == h.stage && o.rest == h.rest
      && o.replies == HandshakeReplies(cfg) + h.replies
  {
    var p := ParseGreeting(input, AuthMethod(cfg));
    if p.Parsed? && NeedAuth(cfg) && AfterHandshake(cfg, input).Some? {
      OntoTwice([[VERSION, PASSWORD_AUTH]], [[1, 0]], HandleRequest(AfterHandshake(cfg, input).value, world));
      assert [[VERSION, PASSWORD_AUTH]] + [[1, 0]] == HandshakeReplies(cfg);
    }
  }

  /**
   A request reaches its handler exactly when the stream begins with an acceptable greeting, the configured
   credentials where they are required, and that request; the handler is left exactly what follows it.
   Each of the three messages is read once, so the opening is unique.
   */
  lemma RequestReachedExactlyByOpening(cfg: Config, input: bytes, command: byte, target: SocksAddr, rest: bytes)
    ensures (&& AfterHandshake(cfg, input).Some?
             && ParseRequest(AfterHandshake(cfg, input).value) == Parsed(Request(command, target), rest))
       <==> exists opening: bytes :: IsOpening(cfg, command, opening, target) && input == opening + rest
  {
    if AfterHandshake(cfg, input).Some?
       && ParseRequest(AfterHandshake(cfg, input).value) == Parsed(Request(command, target), rest) {
      var opening := RequestReachedByOpening(cfg, input);
      assert IsOpening(cfg, command, opening, target);
    }
    if opening: bytes :| IsOpening(cfg, command, opening, target) && input == opening + rest {
      OpeningReachesRequest(cfg, command, opening, target, rest);
    }
  }

  /** The dial decision in terms of the request that the handshake leads to. */
  lemma DialsExactlyOnConnect(cfg: Config, input: bytes, world: World, dest: bytes, rest: bytes)
    ensures var o, s := Session(cfg, input, world), AfterHandshake(cfg, input);
      (o.dialled == Some(dest) && o.rest == rest) ==
      (s.Some? && ParseRequest(s.value).Parsed? && ParseRequest(s.value).value.command == CONNECT
       && ParseRequest(s.value).rest == rest
       && dest == HostPort(ParseRequest(s.value).value.destination.addr, ParseRequest(s.value).value.destination.port))
  {
    SessionByHandshake(cfg, input, world);
  }

  /**
   The server dials exactly when the stream begins with an accepted opening of a CONNECT request; it then
   dials the text of that request's target, and the bytes it leaves unread are those that follow the opening.
   */
  lemma DialsExactlyOnOpening(cfg: Config, input: bytes, world: World, dest: bytes, rest: bytes)
    ensures (Session(cfg, input, world).dialled == Some(dest) && Session(cfg, input, world).rest == rest)
       <==> exists opening: bytes, target: SocksAddr ::
              IsOpening(cfg, CONNECT, opening, target)
              && input == opening + rest && dest == HostPort(target.addr, target.port)
  {
    DialsExactlyOnConnect(cfg, input, world, dest, rest);
    if Session(cfg, input, world).dialled == Some(dest) && Session(cfg, input, world).rest == rest {
      var target := ParseRequest(AfterHandshake(cfg, input).value).value.destination;
      RequestReachedExactlyByOpening(cfg, input, CONNECT, target, rest);
    }
    if opening: bytes, target: SocksAddr :|
         IsOpening(cfg, CONNECT, opening, target)
         && input == opening + rest && dest == HostPort(target.addr, target.port) {
      RequestReachedExactlyByOpening(cfg, input, CONNECT, target, rest);
    }
  }

  lemma ErrorPacketDecodes(code: byte)
    ensures MarshalResponse(ErrorResponse(code)) == Some(ErrorPacket(code))
    ensures DecodeResponse(ErrorPacket(code)) == Some(Response(code, ZERO_ADDR))
  {
    ErrorResponseMarshals(code);
    ResponseReadsBack(ErrorResponse(code));
  }

  /** What the client hears when a connection was made: the decoded bind address, or a general failure. */
  lemma BindReplyDecodes(host: bytes, port: u16)
    ensures var a := SocksAddr(GetAddrType(host), host, port);
      DecodeResponse(BindReply(host, port)) == Some(
        if HasReplyForm(host) then Response(SUCCESS, Canon(a))
        else Response(GENERAL_FAILURE, ZERO_ADDR))
  {
    var a := SocksAddr(GetAddrType(host), host, port);
    ReplyMarshalsIff(SUCCESS, host, port);
    if MarshalResponse(Response(SUCCESS, a)).Some? {
      ResponseReadsBack(Response(SUCCESS, a));
    } else {
      ErrorPacketDecodes(GENERAL_FAILURE);
    }
  }

  lemma HandshakeRefusals(cfg: Config, input: bytes, world: World)
    requires AfterHandshake(cfg, input).None?
    ensures var o := Session(cfg, input, world);
      && (o.stage.Refused? || o.stage == BadCredentials)
      && o.replies == if ParseGreeting(input, AuthMethod(cfg)).Failed? then [[VERSION, NO_ACCEPTABLE]]
                      else [[VERSION, PASSWORD_AUTH], [1, 1]]
  {
  }

  /** The refusal, if any, that an outcome of the request phase carries. */
  predicate Answered(o: Outcome)
  {
    match o.stage
    case Refused(_) => o.replies == [ErrorPacket(GENERAL_FAILURE)] && o.dialled.None?
    case UnsupportedCommand(c) =>
      c != CONNECT && c != UDP_ASSOCIATE && o.replies == [ErrorPacket(COMMAND_NOT_SUPPORTED)]
    case DialFailed => o.dialled.Some? && o.replies == [ErrorPacket(GENERAL_FAILURE)]
    case ListenFailed => o.dialled.None? && o.replies == [ErrorPacket(GENERAL_FAILURE)]
    case NoLocalAddr => o.replies == []
    case BadCredentials => false
    case Relaying => o.dialled.Some? && |o.replies| == 1
    case Associated => o.dialled.None? && |o.replies| == 1
  }

  lemma TransportsAnswer(dest: bytes, world: World, rest: bytes)
    ensures Answered(HandleTCP(dest, world.dial, rest)) && Answered(HandleUDP(world.listen, rest))
  {
  }

  /** A request that gets no service is answered with the code that belongs to where it went wrong. */
  lemma RequestsAnswered(s: bytes, world: World)
    ensures Answered(HandleRequest(s, world))
  {
    var p := ParseRequest(s);
    if p.Parsed? {
      TransportsAnswer(HostPort(p.value.destination.addr, p.value.destination.port), world, p.rest);
    }
  }

  predicate IsSuccess(reply: bytes) { DecodeResponse(reply).Some? && DecodeResponse(reply).value.reply == SUCCESS }

  /** A success code is sent only when the connection or association was made. */
  lemma SuccessOnlyWhenServed(cfg: Config, input: bytes, world: World, i: nat)
    requires i < |Session(cfg, input, world).replies|
    ensures var o := Session(cfg, input, world);
      IsSuccess(o.replies[i]) ==> o.stage in {Relaying, Associated} && i == |o.replies| - 1
  {
    SessionByHandshake(cfg, input, world);
    if AfterHandshake(cfg, input).None? {
      HandshakeRefusals(cfg, input, world);
    } else {
      RequestsAnswered(AfterHandshake(cfg, input).value, world);
      ErrorPacketDecodes(GENERAL_FAILURE);
      ErrorPacketDecodes(COMMAND_NOT_SUPPORTED);
    }
  }

  /** The host that the reply to a served request reports. */
  function BoundHost(stage: Stage, world: World): Option<bytes>
  {
    match stage
    case Relaying =>
      if world.dial.DialConnected? && world.dial.local.Local? then Some(world.dial.local.host) else None
    case Associated =>
      if world.listen.Listening? && world.listen.local.Local? then Some(world.listen.local.host) else None
    case _ => None
  }

  predicate Served(o: Outcome) { o.stage == Relaying || o.stage == Associated }

  /** The last thing a served client hears is the bind reply for the socket that serves it. */
  predicate EndsWithBindReply(o: Outcome, world: World)
  {
    && BoundHost(o.stage, world).Some? && o.replies != []
    && var local := if o.stage == Relaying then world.dial.local else world.listen.local;
       0 <= local.port <= 65535 && o.replies[|o.replies| - 1] == BindReply(local.host, local.port)
  }

  lemma ServedRequestEndsWithBindReply(s: bytes, world: World)
    requires Served(HandleRequest(s, world))
    ensures EndsWithBindReply(HandleRequest(s, world), world)
  {
  }

  lemma ServedEndsWithBindReply(cfg: Config, input: bytes, world: World)
    requires Served(Session(cfg, input, world))
    ensures EndsWithBindReply(Session(cfg, input, world), world)
  {
    SessionByHandshake(cfg, input, world);
    if AfterHandshake(cfg, input).Some? {
      ServedRequestEndsWithBindReply(AfterHandshake(cfg, input).value, world);
    } else {
      HandshakeRefusals(cfg, input, world);
    }
  }

  /**
   The client hears a success exactly when the connection or the association was made and the address of the socket
   that serves it can be encoded; it hears it once and last.  In particular a served client may hear a failure.
   */
  lemma SuccessExactlyWhenServed(cfg: Config, input: bytes, world: World)
    ensures var o := Session(cfg, input, world);
      && (Served(o) <==> BoundHost(o.stage, world).Some?)
      && ((exists i :: 0 <= i < |o.replies| && IsSuccess(o.replies[i])) <==>
          Served(o) && HasReplyForm(BoundHost(o.stage, world).value))
  {
    var o := Session(cfg, input, world);
    if i :| 0 <= i < |o.replies| && IsSuccess(o.replies[i]) {
      SuccessOnlyWhenServed(cfg, input, world, i);
    }
    if Served(o) {
      ServedEndsWithBindReply(cfg, input, world);
      var local := if o.stage == Relaying then world.dial.local else world.listen.local;
      BindReplyDecodes(local.host, local.port);
      assert IsSuccess(o.replies[|o.replies| - 1]) <==> HasReplyForm(local.host);
    }
  }
}
