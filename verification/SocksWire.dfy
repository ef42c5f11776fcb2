/**
 The wire formats of socks5.go on flat byte sequences: addresses, UDP request headers and
 replies (RFC 1928 sections 4 to 7).  A decoder says what it read and what it left unread.
 */
module SocksWire {
  import opened Prelude
  import opened AddressText

  const IPV4: byte := 1
  const DOMAIN: byte := 3
  const IPV6: byte := 4

  const VERSION: byte := 5
  const GENERAL_FAILURE: byte := 1
  const COMMAND_NOT_SUPPORTED: byte := 7
  const SUCCESS: byte := 0

  datatype WireError =
    | ShortHeader | BadVersion | ShortMethods | NoAcceptableMethod
    | BadAuthVersion | ShortUsername | ShortPasswordLength | ShortPassword
    | ShortAddressType | ShortIPv4 | ShortDomainSize | ShortDomain | ShortIPv6
    | UnsupportedAddressType | ShortPort
    | BadPacketLength | BadReserved

  /** What a decoder made of the front of a stream, and what it has not consumed. */
  datatype Parse<+T> = Parsed(value: T, rest: bytes) | Failed(error: WireError, rest: bytes)

  datatype SocksAddr = SocksAddr(addrType: byte, addr: bytes, port: u16)

  /** The text "0.0.0.0" */
  const ZERO_TEXT: bytes := [48, 46, 48, 46, 48, 46, 48]

  const ZERO_ADDR := SocksAddr(IPV4, ZERO_TEXT, 0)

  // ---------- addresses ----------

  function ParsePort(addrType: byte, host: bytes, s: bytes): Parse<SocksAddr>
  {
    if |s| < 2 then Failed(ShortPort, [])
    else
      var high: int, low: int := s[0], s[1];
      Parsed(SocksAddr(addrType, host, high * 256 + low), s[2..])
  }

  function ParseAddr(s: bytes): Parse<SocksAddr>
  {
    if s == [] then Failed(ShortAddressType, [])
    else if s[0] == IPV4 then
      if |s| < 5 then Failed(ShortIPv4, []) else ParsePort(IPV4, IPString(s[1..5]), s[5..])
    else if s[0] == DOMAIN then
      if |s| < 2 then Failed(ShortDomainSize, [])
      else if |s| < 2 + s[1] as nat then Failed(ShortDomain, [])
      else ParsePort(DOMAIN, s[2..2 + s[1] as nat], s[2 + s[1] as nat..])
    else if s[0] == IPV6 then
      if |s| < 17 then Failed(ShortIPv6, []) else ParsePort(IPV6, IPString(s[1..17]), s[17..])
    else Failed(UnsupportedAddressType, s[1..])
  }

  /** The address field of a packet, or None where marshal reports an error. */
  function AddrField(a: SocksAddr): Option<bytes>
  {
    if a.addrType == IPV4 then
      match ParseIP(a.addr)
      case Some(ip) => To4(ip)
      case None => None
    else if a.addrType == DOMAIN then
      if |a.addr| > 255 then None else Some([|a.addr|] + a.addr)
    else if a.addrType == IPV6 then ParseIP(a.addr)
    else None
  }

  function Marshal(a: SocksAddr): Option<bytes>
  {
    match AddrField(a)
    case Some(field) => Some([a.addrType] + field + [a.port / 256, a.port % 256])
    case None => None
  }

  /** The same address with its text as a parser would have written it. */
  function Canon(a: SocksAddr): SocksAddr
    requires Marshal(a).Some?
  {
    if a.addrType == DOMAIN then a else a.(addr := IPString(AddrField(a).value))
  }

  predicate Canonical(a: SocksAddr) { Marshal(a).Some? && Canon(a) == a }

  /** The RFC 1928 section 5 grammar: type, address of that type, port, and nothing else. */
  predicate WireForm(w: bytes)
  {
    w != [] &&
    (|| (w[0] == IPV4 && |w| == 7)
     || (w[0] == DOMAIN && |w| >= 2 && |w| == 4 + w[1] as nat)
     || (w[0] == IPV6 && |w| == 19))
  }

  lemma PortReadsBack(addrType: byte, host: bytes, port: u16, suffix: bytes)
    ensures ParsePort(addrType, host, [port / 256, port % 256] + suffix)
         == Parsed(SocksAddr(addrType, host, port), suffix)
  {
    var s := [port / 256, port % 256] + suffix;
    assert s[2..] == suffix;
  }

  /** Any marshalled address parses to its canonical form, with every suffix left unread. */
  lemma MarshalThenParse(a: SocksAddr, suffix: bytes)
    requires Marshal(a).Some?
    ensures ParseAddr(Marshal(a).value + suffix) == Parsed(Canon(a), suffix)
    ensures WireForm(Marshal(a).value)
  {
    var field := AddrField(a).value;
    var port := [a.port / 256, a.port % 256] + suffix;
    var s := Marshal(a).value + suffix;
    assert s == [a.addrType] + field + port;
    PortReadsBack(a.addrType, Canon(a).addr, a.port, suffix);
    if a.addrType == DOMAIN {
      assert s[2..2 + s[1] as nat] == a.addr && s[2 + s[1] as nat..] == port;
    } else {
      assert s[1..1 + |field|] == field && s[1 + |field|..] == port;
    }
  }

  lemma CanonIsCanonical(a: SocksAddr)
    requires Marshal(a).Some?
    ensures Marshal(Canon(a)) == Marshal(a)
    ensures Canonical(Canon(a))
  {
    if a.addrType != DOMAIN {
      var field := AddrField(a).value;
      IPStringReadsBack(field);
      if a.addrType == IPV4 { assert To16(field)[12..] == field && To16(field)[..12] == MAPPED; }
    }
  }

  /** The port field read by ParsePort is the two bytes marshal writes for it. */
  lemma PortBytes(addrType: byte, host: bytes, s: bytes)
    requires |s| >= 2
    ensures var p := ParsePort(addrType, host, s);
      p.Parsed? && p.rest == s[2..] && p.value.addrType == addrType && p.value.addr == host
      && [p.value.port / 256, p.value.port % 256] == s[..2]
  {
  }

  lemma DomainThenMarshal(s: bytes)
    requires ParseAddr(s).Parsed? && s[0] == DOMAIN
    ensures var n := 4 + s[1] as nat;
      && n <= |s| && ParseAddr(s).rest == s[n..]
      && Marshal(ParseAddr(s).value) == Some(s[..n]) && Canonical(ParseAddr(s).value)
  {
    var n := 2 + s[1] as nat;
    PortBytes(DOMAIN, s[2..n], s[n..]);
    assert s[..n + 2] == [s[0]] + ([s[1]] + s[2..n]) + s[n..][..2];
    assert s[n..][2..] == s[n + 2..];
  }

  lemma AddressFieldReadsBack(addrType: byte, ip: bytes, port: u16)
    requires (addrType == IPV4 && |ip| == 4) || (addrType == IPV6 && |ip| == 16)
    ensures AddrField(SocksAddr(addrType, IPString(ip), port)) == Some(ip)
  {
    IPStringReadsBack(ip);
    if |ip| == 4 { assert To16(ip)[12..] == ip && To16(ip)[..12] == MAPPED; }
  }

  lemma IPThenMarshal(s: bytes)
    requires ParseAddr(s).Parsed? && s[0] != DOMAIN
    ensures var n := if s[0] == IPV4 then 7 else 19;
      && n <= |s| && ParseAddr(s).rest == s[n..]
      && Marshal(ParseAddr(s).value) == Some(s[..n]) && Canonical(ParseAddr(s).value)
  {
    var n := if s[0] == IPV4 then 5 else 17;
    var ip := s[1..n];
    PortBytes(s[0], IPString(ip), s[n..]);
    AddressFieldReadsBack(s[0], ip, ParseAddr(s).value.port);
    assert s[..n + 2] == [s[0]] + ip + s[n..][..2];
    assert s[n..][2..] == s[n + 2..];
  }

  /** Marshalling a parsed address gives back exactly the bytes the parser consumed. */
  lemma ParseThenMarshal(s: bytes)
    requires ParseAddr(s).Parsed?
    ensures var p := ParseAddr(s);
      && |p.rest| <= |s| && s[|s| - |p.rest|..] == p.rest
      && Marshal(p.value) == Some(s[..|s| - |p.rest|])
      && Canonical(p.value)
  {
    if s[0] == DOMAIN { DomainThenMarshal(s); } else { IPThenMarshal(s); }
  }

  /** The parser accepts exactly the streams that begin with a well-formed address. */
  lemma ParseAcceptsWireForms(s: bytes)
    ensures ParseAddr(s).Parsed? <==> exists n :: 0 <= n <= |s| && WireForm(s[..n])
  {
    if ParseAddr(s).Parsed? {
      ParseThenMarshal(s);
      var n := |s| - |ParseAddr(s).rest|;
      MarshalThenParse(ParseAddr(s).value, []);
      assert WireForm(s[..n]);
    }
    forall n | 0 <= n <= |s| && WireForm(s[..n]) ensures ParseAddr(s).Parsed? {
      assert s[..n][0] == s[0];
      if s[0] == DOMAIN { assert s[..n][1] == s[1]; }
    }
  }

  /** Canonical addresses and well-formed wire addresses are in one-to-one correspondence. */
  lemma WireBijection(a: SocksAddr, w: bytes)
    ensures Canonical(a) && Marshal(a) == Some(w) <==> WireForm(w) && ParseAddr(w) == Parsed(a, [])
  {
    if Canonical(a) && Marshal(a) == Some(w) {
      MarshalThenParse(a, []);
      assert w + [] == w;
    }
    if WireForm(w) && ParseAddr(w) == Parsed(a, []) {
      ParseThenMarshal(w);
      assert w[..|w|] == w;
    }
  }

  /** Two well-formed wire addresses give the same dial-cache key exactly when their bytes agree. */
  lemma SameKeyIffSameBytes(v: bytes, w: bytes)
    requires WireForm(v) && WireForm(w)
    ensures ParseAddr(v).Parsed? && ParseAddr(v).rest == []
    ensures ParseAddr(w).Parsed? && ParseAddr(w).rest == []
    ensures ParseAddr(v).value == ParseAddr(w).value <==> v == w
  {
    WireBijection(ParseAddr(v).value, v);
    WireBijection(ParseAddr(w).value, w);
  }

  // ---------- UDP request headers ----------

  datatype UdpRequest = UdpRequest(frag: byte, addr: SocksAddr)

  /** On success the value is the header and the rest is the body. */
  function ParseUdp(d: bytes): Parse<UdpRequest>
  {
    if |d| < 4 then Failed(BadPacketLength, [])
    else if d[0] != 0 || d[1] != 0 then Failed(BadReserved, [])
    else match ParseAddr(d[3..])
      case Parsed(a, body) => Parsed(UdpRequest(d[2], a), body)
      case Failed(e, body) => Failed(e, body)
  }

  function MarshalUdp(u: UdpRequest): Option<bytes>
  {
    match Marshal(u.addr)
    case Some(w) => Some([0, 0, u.frag] + w)
    case None => None
  }

  lemma ParsedAddrIsPrefix(s: bytes)
    requires ParseAddr(s).Parsed?
    ensures Canonical(ParseAddr(s).value) && s == Marshal(ParseAddr(s).value).value + ParseAddr(s).rest
  {
    ParseThenMarshal(s);
  }

  /** An accepted datagram is its marshalled header followed by its body, byte for byte. */
  lemma UdpParseThenMarshal(d: bytes)
    requires ParseUdp(d).Parsed?
    ensures MarshalUdp(ParseUdp(d).value).Some?
    ensures MarshalUdp(ParseUdp(d).value).value + ParseUdp(d).rest == d
    ensures Canonical(ParseUdp(d).value.addr)
  {
    ParsedAddrIsPrefix(d[3..]);
    var head := [0, 0, d[2]];
    assert d == head + d[3..];
    Reassociate(head, Marshal(ParseUdp(d).value.addr).value, ParseUdp(d).rest);
  }

  /** A marshalled header followed by any body parses back to that header and that body. */
  lemma UdpMarshalThenParse(u: UdpRequest, body: bytes)
    requires Canonical(u.addr)
    ensures MarshalUdp(u).Some?
    ensures ParseUdp(MarshalUdp(u).value + body) == Parsed(u, body)
  {
    var w := Marshal(u.addr).value;
    var d := MarshalUdp(u).value + body;
    assert d == [0, 0, u.frag] + (w + body);
    assert d[3..] == w + body;
    MarshalThenParse(u.addr, body);
  }

  // ---------- replies ----------

  datatype Response = Response(reply: byte, bindAddr: SocksAddr)

  function GetAddrType(host: bytes): byte
  {
    match ParseIP(host)
    case Some(ip) => if To4(ip).Some? then IPV4 else IPV6
    case None => DOMAIN
  }

  function ErrorResponse(code: byte): Response { Response(code, ZERO_ADDR) }

  function MarshalResponse(r: Response): Option<bytes>
  {
    match Marshal(r.bindAddr)
    case Some(w) => Some([VERSION, r.reply, 0] + w)
    case None => None
  }

  /** What a client reads in a reply packet (RFC 1928 section 6). */
  function DecodeResponse(p: bytes): Option<Response>
  {
    if |p| < 3 || p[0] != VERSION || p[2] != 0 then None
    else match ParseAddr(p[3..])
      case Parsed(a, rest) => if rest == [] then Some(Response(p[1], a)) else None
      case Failed(_, _) => None
  }

  /** Every reply that marshals decodes to its code and its bind address in canonical form. */
  lemma ResponseReadsBack(r: Response)
    requires MarshalResponse(r).Some?
    ensures DecodeResponse(MarshalResponse(r).value) == Some(Response(r.reply, Canon(r.bindAddr)))
  {
    var w := Marshal(r.bindAddr).value;
    assert w + [] == w;
    assert MarshalResponse(r).value[3..] == w;
    MarshalThenParse(r.bindAddr, []);
  }

  /** The hosts that a reply can carry: IP literals and names of at most 255 bytes. */
  predicate HasReplyForm(host: bytes) { ParseIP(host).Some? || |host| <= 255 }

  /** The address type chosen for a host makes marshalling fail only for an over-long name. */
  lemma ReplyMarshalsIff(code: byte, host: bytes, port: u16)
    ensures MarshalResponse(Response(code, SocksAddr(GetAddrType(host), host, port))).Some?
       <==> HasReplyForm(host)
  {
  }

  lemma ZeroTextPrints()
    ensures IPString([0, 0, 0, 0]) == ZERO_TEXT
  {
    var f := DecimalFields([0, 0, 0, 0]);
    assert f == [[48], [48], [48], [48]];
    assert f[1..] == [[48], [48], [48]] && f[1..][1..] == [[48], [48]] && f[1..][1..][1..] == [[48]];
    assert Join(f[1..][1..], DOT) == [48, 46, 48];
    assert Join(f[1..], DOT) == [48, 46, 48, 46, 48];
  }

  lemma FieldMarshals(host: bytes, field: bytes)
    requires AddrField(SocksAddr(IPV4, host, 0)) == Some(field) && IPString(field) == host
    ensures Marshal(SocksAddr(IPV4, host, 0)) == Some([IPV4] + field + [0, 0]) && Canonical(SocksAddr(IPV4, host, 0))
  {
  }

  lemma IPv4Marshals(ip: bytes)
    requires |ip| == 4
    ensures var a := SocksAddr(IPV4, IPString(ip), 0); Marshal(a) == Some([IPV4] + ip + [0, 0]) && Canonical(a)
  {
    AddressFieldReadsBack(IPV4, ip, 0);
    FieldMarshals(IPString(ip), ip);
  }

  lemma IPv4BindMarshals(ip: bytes, code: byte)
    requires |ip| == 4
    ensures var a := SocksAddr(IPV4, IPString(ip), 0);
      && MarshalResponse(Response(code, a)) == Some([VERSION, code, 0] + ([IPV4] + ip + [0, 0]))
      && Canonical(a)
  {
    IPv4Marshals(ip);
  }

  lemma ZeroBindBytes(ip: bytes, code: byte)
    requires ip == [0, 0, 0, 0]
    ensures [VERSION, code, 0] + ([IPV4] + ip + [0, 0]) == [VERSION, code, 0, IPV4, 0, 0, 0, 0, 0, 0]
  {
  }

  lemma ZeroBindMarshals(a: SocksAddr, ip: bytes, code: byte)
    requires ip == [0, 0, 0, 0] && a == SocksAddr(IPV4, IPString(ip), 0)
    ensures MarshalResponse(Response(code, a)) == Some([VERSION, code, 0, IPV4, 0, 0, 0, 0, 0, 0])
    ensures Canonical(a)
  {
    IPv4BindMarshals(ip, code);
    ZeroBindBytes(ip, code);
  }

  /** errorResponse always marshals, to the ten bytes of an all-zero IPv4 bind address. */
  lemma ErrorResponseMarshals(code: byte)
    ensures MarshalResponse(ErrorResponse(code)) == Some([VERSION, code, 0, IPV4, 0, 0, 0, 0, 0, 0])
    ensures Canonical(ZERO_ADDR)
  {
    ZeroTextPrints();
    ZeroBindMarshals(ZERO_ADDR, [0, 0, 0, 0], code);
  }
}
