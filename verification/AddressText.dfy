/**
 The text of IP addresses and of host:port pairs, as socks5.go relies on it: printing with
 net.IP.String (dotted decimal, or RFC 5952 section 4), and reading with net.ParseIP
 (RFC 4291 section 2.2).  An IPv4-mapped IPv6 address prints as dotted decimal.
 */
module AddressText {
  import opened Prelude

  const DOT: byte := 46
  const ZERO: byte := 48
  const COLON: byte := 58
  const OPEN: byte := 91
  const CLOSE: byte := 93

  // ---------- splitting and joining ----------

  function Split(s: bytes, sep: byte): (parts: seq<bytes>)
    ensures |parts| > 0
  {
    if s == [] then [[]]
    else
      var rest := Split(s[1..], sep);
      if s[0] == sep then [[]] + rest else [[s[0]] + rest[0]] + rest[1..]
  }

  function Join(parts: seq<bytes>, sep: byte): bytes
  {
    if parts == [] then []
    else if |parts| == 1 then parts[0]
    else parts[0] + [sep] + Join(parts[1..], sep)
  }

  lemma {:induction false} SplitUnbroken(p: bytes, sep: byte)
    requires sep !in p
    ensures Split(p, sep) == [p]
  {
    if p == [] {
    } else {
      SplitUnbroken(p[1..], sep);
      assert [p[0]] + p[1..] == p;
    }
  }

  lemma {:induction false} SplitFirst(p: bytes, t: bytes, sep: byte)
    requires sep !in p
    ensures Split(p + [sep] + t, sep) == [p] + Split(t, sep)
  {
    var s := p + [sep] + t;
    if p == [] {
      assert s[1..] == t;
    } else {
      SplitFirst(p[1..], t, sep);
      assert s[1..] == p[1..] + [sep] + t;
      assert [p[0]] + p[1..] == p;
    }
  }

  lemma {:induction false} SplitOfJoin(parts: seq<bytes>, sep: byte)
    requires parts != [] && forall i :: 0 <= i < |parts| ==> sep !in parts[i]
    ensures Split(Join(parts, sep), sep) == parts
  {
    if |parts| == 1 {
      SplitUnbroken(parts[0], sep);
    } else {
      SplitOfJoin(parts[1..], sep);
      SplitFirst(parts[0], Join(parts[1..], sep), sep);
    }
  }

  // ---------- decimal ----------

  predicate IsDigit(c: byte) { 48 <= c <= 57 }

  predicate AllDigits(s: bytes) { forall i :: 0 <= i < |s| ==> IsDigit(s[i]) }

  function Decimal(n: nat): (s: bytes)
    ensures s != [] && AllDigits(s)
  {
    if n < 10 then [48 + n] else Decimal(n / 10) + [48 + n % 10]
  }

  function DecimalValue(s: bytes): nat
    requires AllDigits(s)
  {
    if s == [] then 0 else DecimalValue(s[..|s| - 1]) * 10 + (s[|s| - 1] - 48)
  }

  lemma {:induction false} DecimalReadsBack(n: nat)
    ensures DecimalValue(Decimal(n)) == n
    ensures n > 0 ==> Decimal(n)[0] != ZERO
  {
    if n < 10 {
      assert Decimal(n)[..0] == [];
    } else {
      DecimalReadsBack(n / 10);
      var s := Decimal(n);
      assert s[..|s| - 1] == Decimal(n / 10);
    }
  }

  // ---------- IPv4 ----------

  /** One dotted field: one to three digits, no leading zero, at most 255. */
  function ParseOctet(f: bytes): Option<byte>
  {
    if 1 <= |f| <= 3 && AllDigits(f) && (|f| == 1 || f[0] != ZERO) && DecimalValue(f) < 256
    then Some(DecimalValue(f)) else None
  }

  function ParseOctets(fields: seq<bytes>): (r: Option<bytes>)
    ensures r.Some? ==> |r.value| == |fields|
  {
    if fields == [] then Some([])
    else match (ParseOctet(fields[0]), ParseOctets(fields[1..]))
      case (Some(o), Some(rest)) => Some([o] + rest)
      case _ => None
  }

  function ParseIPv4(s: bytes): (r: Option<bytes>)
    ensures r.Some? ==> |r.value| == 4
  {
    var fields := Split(s, DOT);
    if |fields| == 4 then ParseOctets(fields) else None
  }

  function DecimalFields(ip: bytes): (fields: seq<bytes>)
    ensures |fields| == |ip|
  {
    if ip == [] then [] else [Decimal(ip[0])] + DecimalFields(ip[1..])
  }

  /** The digits of a number contain neither a dot nor a colon. */
  lemma {:induction false} DecimalFieldsAvoid(ip: bytes, c: byte)
    requires !IsDigit(c)
    ensures forall i :: 0 <= i < |ip| ==> c !in DecimalFields(ip)[i]
  {
    if ip == [] {
    } else {
      DecimalFieldsAvoid(ip[1..], c);
    }
  }

  function PrintIPv4(ip: bytes): bytes
    requires |ip| == 4
  {
    Join(DecimalFields(ip), DOT)
  }

  lemma OctetReadsBack(o: byte)
    ensures ParseOctet(Decimal(o)) == Some(o)
  {
    DecimalReadsBack(o);
    if o >= 10 { assert |Decimal(o / 10)| <= 2; }
  }

  lemma {:induction false} OctetsReadBack(ip: bytes)
    ensures ParseOctets(DecimalFields(ip)) == Some(ip)
  {
    if ip == [] {
    } else {
      OctetReadsBack(ip[0]);
      OctetsReadBack(ip[1..]);
      assert DecimalFields(ip)[1..] == DecimalFields(ip[1..]);
      assert [ip[0]] + ip[1..] == ip;
    }
  }

  lemma {:induction false} JoinAvoids(parts: seq<bytes>, sep: byte, c: byte)
    requires c != sep && forall i :: 0 <= i < |parts| ==> c !in parts[i]
    ensures c !in Join(parts, sep)
  {
    if |parts| > 1 { JoinAvoids(parts[1..], sep, c); }
  }

  lemma IPv4ReadsBack(ip: bytes)
    requires |ip| == 4
    ensures ParseIPv4(PrintIPv4(ip)) == Some(ip)
    ensures COLON !in PrintIPv4(ip)
  {
    DecimalFieldsAvoid(ip, DOT);
    DecimalFieldsAvoid(ip, COLON);
    SplitOfJoin(DecimalFields(ip), DOT);
    OctetsReadBack(ip);
    JoinAvoids(DecimalFields(ip), DOT, COLON);
  }

  // ---------- hexadecimal groups ----------

  function HexDigit(n: nat): (c: byte)
    requires n < 16
  {
    if n < 10 then 48 + n else 87 + n
  }

  function HexDigitValue(c: byte): Option<nat>
  {
    if 48 <= c <= 57 then Some(c - 48)
    else if 97 <= c <= 102 then Some(c - 87)
    else if 65 <= c <= 70 then Some(c - 55)
    else None
  }

  predicate AllHex(s: bytes) { forall i :: 0 <= i < |s| ==> HexDigitValue(s[i]).Some? }

  function Hex(n: nat): (s: bytes)
    ensures s != [] && AllHex(s)
  {
    if n < 16 then [HexDigit(n)] else Hex(n / 16) + [HexDigit(n % 16)]
  }

  function HexValue(s: bytes): nat
    requires AllHex(s)
  {
    if s == [] then 0 else HexValue(s[..|s| - 1]) * 16 + HexDigitValue(s[|s| - 1]).value
  }

  lemma {:induction false} HexReadsBack(n: nat)
    ensures HexValue(Hex(n)) == n
  {
    var s := Hex(n);
    if n < 16 {
      assert s[..0] == [];
    } else {
      HexReadsBack(n / 16);
      assert s[..|s| - 1] == Hex(n / 16);
    }
  }

  /** One to four hexadecimal digits of either case. */
  function ParseHexGroup(f: bytes): Option<u16>
  {
    if 1 <= |f| <= 4 && AllHex(f) && HexValue(f) < 65536 then Some(HexValue(f)) else None
  }

  lemma HexGroupReadsBack(g: u16)
    ensures ParseHexGroup(Hex(g)) == Some(g)
    ensures COLON !in Hex(g) && DOT !in Hex(g)
  {
    HexReadsBack(g);
    if g >= 16 {
      assert |Hex(g)| == |Hex(g / 16)| + 1;
      if g / 16 >= 16 {
        assert |Hex(g / 16)| == |Hex(g / 16 / 16)| + 1;
        assert |Hex(g / 16 / 16)| <= 2;
      }
    }
    assert forall i :: 0 <= i < |Hex(g)| ==> HexDigitValue(Hex(g)[i]).Some?;
  }

  function HexFields(gs: seq<u16>): (fields: seq<bytes>)
    ensures |fields| == |gs|
  {
    if gs == [] then [] else [Hex(gs[0])] + HexFields(gs[1..])
  }

  lemma {:induction false} HexFieldsAvoidColon(gs: seq<u16>)
    ensures forall i :: 0 <= i < |gs| ==> COLON !in HexFields(gs)[i]
  {
    if gs == [] {
    } else {
      HexGroupReadsBack(gs[0]);
      HexFieldsAvoidColon(gs[1..]);
    }
  }

  function HexText(gs: seq<u16>): bytes { Join(HexFields(gs), COLON) }

  /** The 16-bit groups of an address of even length, most significant byte first. */
  function Groups(ip: bytes): (gs: seq<u16>)
    requires |ip| % 2 == 0
    ensures |gs| == |ip| / 2
  {
    if ip == [] then []
    else
      var high: int, low: int := ip[0], ip[1];
      [high * 256 + low] + Groups(ip[2..])
  }

  /** The two bytes of a group, high byte first. */
  function GroupPair(g: u16): (pair: bytes)
    ensures |pair| == 2
  {
    [g / 256, g % 256]
  }

  function GroupBytes(gs: seq<u16>): (ip: bytes)
    ensures |ip| == 2 * |gs|
  {
    if gs == [] then [] else GroupPair(gs[0]) + GroupBytes(gs[1..])
  }

  lemma {:induction false} GroupBytesOfGroups(ip: bytes)
    requires |ip| % 2 == 0
    ensures GroupBytes(Groups(ip)) == ip
  {
    if ip == [] {
    } else {
      GroupBytesOfGroups(ip[2..]);
      assert Groups(ip)[1..] == Groups(ip[2..]);
      assert [ip[0], ip[1]] + ip[2..] == ip;
    }
  }

  lemma Reassociate(a: bytes, b: bytes, c: bytes)
    ensures a + b + c == a + (b + c)
  {
  }

  lemma {:induction false} GroupBytesAppend(a: seq<u16>, b: seq<u16>)
    ensures GroupBytes(a + b) == GroupBytes(a) + GroupBytes(b)
  {
    if a == [] {
      assert a + b == b;
    } else {
      GroupBytesAppend(a[1..], b);
      assert (a + b)[1..] == a[1..] + b;
      Reassociate(GroupPair(a[0]), GroupBytes(a[1..]), GroupBytes(b));
    }
  }

  lemma {:induction false} GroupBytesOfZeros(gs: seq<u16>)
    requires forall i :: 0 <= i < |gs| ==> gs[i] == 0
    ensures GroupBytes(gs) == Zeros(2 * |gs|)
  {
    if gs == [] {
    } else {
      GroupBytesOfZeros(gs[1..]);
    }
  }

  /** Colon-separated fields; the last may be an IPv4 address where that is allowed. */
  function ParseFields(fields: seq<bytes>, ipv4Tail: bool): Option<bytes>
  {
    if fields == [] then Some([])
    else if |fields| == 1 && ipv4Tail && DOT in fields[0] then ParseIPv4(fields[0])
    else match (ParseHexGroup(fields[0]), ParseFields(fields[1..], ipv4Tail))
      case (Some(g), Some(rest)) => Some(GroupPair(g) + rest)
      case _ => None
  }

  lemma {:induction false} FieldsReadBack(gs: seq<u16>, ipv4Tail: bool)
    ensures ParseFields(HexFields(gs), ipv4Tail) == Some(GroupBytes(gs))
  {
    if gs == [] {
    } else {
      HexGroupReadsBack(gs[0]);
      FieldsReadBack(gs[1..], ipv4Tail);
      assert HexFields(gs)[1..] == HexFields(gs[1..]);
    }
  }

  lemma HexTextReadsBack(gs: seq<u16>, ipv4Tail: bool)
    requires gs != []
    ensures ParseFields(Split(HexText(gs), COLON), ipv4Tail) == Some(GroupBytes(gs))
  {
    HexFieldsAvoidColon(gs);
    SplitOfJoin(HexFields(gs), COLON);
    FieldsReadBack(gs, ipv4Tail);
  }

  // ---------- the "::" ----------

  predicate DoubleColonAt(s: bytes, k: int) {
    0 <= k && k + 1 < |s| && s[k] == COLON && s[k + 1] == COLON
  }

  /** The position of the first "::", if there is one. */
  function Ellipsis(s: bytes, from: nat := 0): (r: Option<nat>)
    requires from <= |s|
    ensures r.Some? ==> r.value + 2 <= |s|
    decreases |s| - from
  {
    if from == |s| then None
    else if DoubleColonAt(s, from) then Some(from)
    else Ellipsis(s, from + 1)
  }

  lemma {:induction false} EllipsisIsFirst(s: bytes, from: nat)
    requires from <= |s|
    ensures match Ellipsis(s, from)
      case Some(k) => from <= k && DoubleColonAt(s, k) && forall j :: from <= j < k ==> !DoubleColonAt(s, j)
      case None => forall j :: from <= j < |s| ==> !DoubleColonAt(s, j)
    decreases |s| - from
  {
    if from < |s| && !DoubleColonAt(s, from) { EllipsisIsFirst(s, from + 1); }
  }

  /** Text that neither contains "::" nor starts or ends with a colon. */
  predicate Plain(s: bytes) {
    && (forall j :: 0 <= j < |s| ==> !DoubleColonAt(s, j))
    && (s != [] ==> s[0] != COLON && s[|s| - 1] != COLON)
  }

  /** A field without colons in front of plain text, after one colon. */
  lemma PlainAfterField(h: bytes, t: bytes)
    requires h != [] && COLON !in h && t != [] && Plain(t)
    ensures Plain(h + [COLON] + t)
  {
    var s := h + [COLON] + t;
    assert s[|s| - 1] == t[|t| - 1] && s[0] == h[0];
    forall j | 0 <= j < |s| ensures !DoubleColonAt(s, j) {
      if j < |h| {
        assert s[j] == h[j];
      } else if j == |h| {
        assert s[j + 1] == t[0];
      } else {
        var k := j - |h| - 1;
        assert !DoubleColonAt(t, k) && s[j] == t[k];
        if j + 1 < |s| { assert s[j + 1] == t[k + 1]; }
      }
    }
  }

  lemma FieldIsPlain(h: bytes)
    requires COLON !in h
    ensures Plain(h)
  {
    assert forall j :: 0 <= j < |h| ==> h[j] in h;
  }

  lemma {:induction false} HexTextIsPlain(gs: seq<u16>)
    ensures Plain(HexText(gs)) && (gs != [] ==> HexText(gs) != [])
  {
    if gs == [] {
    } else {
      HexGroupReadsBack(gs[0]);
      var h := Hex(gs[0]);
      if |gs| == 1 {
        assert HexText(gs) == h;
        FieldIsPlain(h);
      } else {
        HexTextIsPlain(gs[1..]);
        assert HexFields(gs)[1..] == HexFields(gs[1..]);
        assert HexText(gs) == h + [COLON] + HexText(gs[1..]);
        PlainAfterField(h, HexText(gs[1..]));
      }
    }
  }

  /** The fields on one side of "::"; a side may be empty. */
  function ParseSide(s: bytes, ipv4Tail: bool): Option<bytes>
  {
    if s == [] then Some([]) else ParseFields(Split(s, COLON), ipv4Tail)
  }

  lemma SideReadsBack(gs: seq<u16>, ipv4Tail: bool)
    ensures ParseSide(HexText(gs), ipv4Tail) == Some(GroupBytes(gs))
  {
    if gs != [] {
      HexTextIsPlain(gs);
      HexTextReadsBack(gs, ipv4Tail);
    }
  }

  /** The "::" stands for the missing bytes, of which there must be at least two. */
  function Expand(left: Option<bytes>, right: Option<bytes>): (r: Option<bytes>)
    ensures r.Some? ==> |r.value| == 16
  {
    if left.Some? && right.Some? && |left.value| + |right.value| <= 14
    then Some(left.value + Zeros(16 - |left.value| - |right.value|) + right.value)
    else None
  }

  /** RFC 4291 section 2.2: eight groups, or fewer around one "::" that stands for at least one. */
  function ParseIPv6(s: bytes): (r: Option<bytes>)
    ensures r.Some? ==> |r.value| == 16
  {
    match Ellipsis(s)
    case None =>
      var b := ParseFields(Split(s, COLON), true);
      if b.Some? && |b.value| == 16 then b else None
    case Some(k) =>
      Expand(ParseSide(s[..k], false), ParseSide(s[k + 2..], true))
  }

  /** The number of zero groups that start at i. */
  function ZeroRun(gs: seq<u16>, i: nat): (n: nat)
    requires i <= |gs|
    ensures i + n <= |gs|
    decreases |gs| - i
  {
    if i == |gs| || gs[i] != 0 then 0 else 1 + ZeroRun(gs, i + 1)
  }

  lemma {:induction false} ZeroRunIsZeros(gs: seq<u16>, i: nat)
    requires i <= |gs|
    ensures forall j :: i <= j < i + ZeroRun(gs, i) ==> gs[j] == 0
    decreases |gs| - i
  {
    if i < |gs| && gs[i] == 0 { ZeroRunIsZeros(gs, i + 1); }
  }

  /** The run of zero groups to shorten, as its start and its length: a run of at least two, or length 0. */
  function LongestRun(gs: seq<u16>, i: nat := 0, start: nat := 0, n: nat := 0): (r: (nat, nat))
    requires i <= |gs| && start + n <= |gs|
    ensures r.0 + r.1 <= |gs|
    decreases |gs| - i
  {
    if i == |gs| then (start, n)
    else if ZeroRun(gs, i) >= 2 && ZeroRun(gs, i) > n then LongestRun(gs, i + 1, i, ZeroRun(gs, i))
    else LongestRun(gs, i + 1, start, n)
  }

  /** A candidate that no run starting before i beats, and that every run starting before it falls short of. */
  ghost predicate BestRun(gs: seq<u16>, i: nat, start: nat, n: nat)
    requires i <= |gs|
  {
    && (n == 0 || (n >= 2 && start < i && ZeroRun(gs, start) == n))
    && (forall k :: 0 <= k < i && ZeroRun(gs, k) >= 2 ==> ZeroRun(gs, k) <= n)
    && (forall k :: 0 <= k < start && k < i ==> ZeroRun(gs, k) < 2 || ZeroRun(gs, k) < n)
  }

  lemma {:induction false} ScanKeepsBest(gs: seq<u16>, i: nat, start: nat, n: nat)
    requires i <= |gs| && start + n <= |gs| && BestRun(gs, i, start, n)
    ensures BestRun(gs, |gs|, LongestRun(gs, i, start, n).0, LongestRun(gs, i, start, n).1)
    decreases |gs| - i
  {
    if i < |gs| {
      var z := ZeroRun(gs, i);
      if z >= 2 && z > n { ScanKeepsBest(gs, i + 1, i, z); } else { ScanKeepsBest(gs, i + 1, start, n); }
    }
  }

  /** RFC 5952 section 4.2: the longest run of at least two zero groups is shortened, the first on a tie. */
  lemma LongestRunIsLongest(gs: seq<u16>)
    ensures var (start, n) := LongestRun(gs);
      && BestRun(gs, |gs|, start, n)
      && forall j :: start <= j < start + n ==> gs[j] == 0
  {
    ScanKeepsBest(gs, 0, 0, 0);
    var (start, n) := LongestRun(gs);
    ZeroRunIsZeros(gs, start);
  }

  function PrintIPv6(ip: bytes): bytes
    requires |ip| == 16
  {
    var gs := Groups(ip);
    var (start, n) := LongestRun(gs);
    if n == 0 then HexText(gs)
    else HexText(gs[..start]) + [COLON, COLON] + HexText(gs[start + n..])
  }

  lemma EllipsisBetween(a: bytes, b: bytes)
    requires Plain(a)
    ensures Ellipsis(a + [COLON, COLON] + b) == Some(|a|)
  {
    var s := a + [COLON, COLON] + b;
    assert DoubleColonAt(s, |a|);
    forall j | 0 <= j < |a| ensures !DoubleColonAt(s, j) {
      assert !DoubleColonAt(a, j);
      assert s[j] == a[j] && (j + 1 < |a| ==> s[j + 1] == a[j + 1]);
    }
    EllipsisIsFirst(s, 0);
  }

  lemma ParseAroundEllipsis(a: bytes, b: bytes)
    requires Plain(a)
    ensures ParseIPv6(a + [COLON, COLON] + b) == Expand(ParseSide(a, false), ParseSide(b, true))
  {
    var s := a + [COLON, COLON] + b;
    EllipsisBetween(a, b);
    assert s[..|a|] == a && s[|a| + 2..] == b;
  }

  lemma GroupsAroundRun(left: seq<u16>, zeros: seq<u16>, right: seq<u16>)
    requires forall j :: 0 <= j < |zeros| ==> zeros[j] == 0
    ensures GroupBytes(left + zeros + right) == GroupBytes(left) + Zeros(2 * |zeros|) + GroupBytes(right)
  {
    GroupBytesAppend(left + zeros, right);
    GroupBytesAppend(left, zeros);
    GroupBytesOfZeros(zeros);
  }

  lemma ShortenedReadsBack(left: seq<u16>, right: seq<u16>)
    ensures ParseIPv6(HexText(left) + [COLON, COLON] + HexText(right))
         == Expand(Some(GroupBytes(left)), Some(GroupBytes(right)))
  {
    HexTextIsPlain(left);
    SideReadsBack(left, false);
    SideReadsBack(right, true);
    ParseAroundEllipsis(HexText(left), HexText(right));
  }

  lemma FullReadsBack(gs: seq<u16>)
    requires |gs| == 8
    ensures ParseIPv6(HexText(gs)) == Some(GroupBytes(gs))
    ensures COLON in HexText(gs)
  {
    HexTextIsPlain(gs);
    EllipsisIsFirst(HexText(gs), 0);
    HexTextReadsBack(gs, true);
    var h := HexFields(gs)[0];
    assert HexText(gs)[|h|] == COLON;
  }

  lemma RunExpands(gs: seq<u16>, start: nat, n: nat)
    requires |gs| == 8 && 2 <= n && start + n <= 8 && forall j :: start <= j < start + n ==> gs[j] == 0
    ensures Expand(Some(GroupBytes(gs[..start])), Some(GroupBytes(gs[start + n..]))) == Some(GroupBytes(gs))
  {
    var left, zeros, right := gs[..start], gs[start..start + n], gs[start + n..];
    assert gs == left + zeros + right;
    GroupsAroundRun(left, zeros, right);
  }

  lemma IPv6ReadsBack(ip: bytes)
    requires |ip| == 16
    ensures ParseIPv6(PrintIPv6(ip)) == Some(ip)
    ensures COLON in PrintIPv6(ip)
  {
    var gs := Groups(ip);
    var (start, n) := LongestRun(gs);
    GroupBytesOfGroups(ip);
    LongestRunIsLongest(gs);
    if n == 0 {
      FullReadsBack(gs);
    } else {
      ShortenedReadsBack(gs[..start], gs[start + n..]);
      RunExpands(gs, start, n);
      assert PrintIPv6(ip)[|HexText(gs[..start])|] == COLON;
    }
  }

  // ---------- net.IP ----------

  const MAPPED: bytes := Zeros(10) + [255, 255]

  /** net.IP.To4: a four-byte address, or the tail of an IPv4-mapped one. */
  function To4(ip: bytes): (r: Option<bytes>)
    ensures r.Some? ==> |r.value| == 4
  {
    if |ip| == 4 then Some(ip)
    else if |ip| == 16 && ip[..12] == MAPPED then Some(ip[12..])
    else None
  }

  /** net.IP.To16 of a valid address. */
  function To16(ip: bytes): (r: bytes)
    requires |ip| == 4 || |ip| == 16
    ensures |r| == 16
  {
    if |ip| == 4 then MAPPED + ip else ip
  }

  /** net.IP.String */
  function IPString(ip: bytes): bytes
    requires |ip| == 4 || |ip| == 16
  {
    match To4(ip)
    case Some(ip4) => PrintIPv4(ip4)
    case None => PrintIPv6(ip)
  }

  /** net.ParseIP, which always answers in sixteen-byte form. */
  function ParseIP(s: bytes): (r: Option<bytes>)
    ensures r.Some? ==> |r.value| == 16
  {
    if COLON in s then ParseIPv6(s)
    else match ParseIPv4(s)
      case Some(ip4) => Some(To16(ip4))
      case None => None
  }

  /** Every address reads back as itself, an IPv4-mapped one through its dotted form. */
  lemma IPStringReadsBack(ip: bytes)
    requires |ip| == 4 || |ip| == 16
    ensures ParseIP(IPString(ip)) == Some(To16(ip))
  {
    match To4(ip)
    case Some(ip4) =>
      IPv4ReadsBack(ip4);
      if |ip| == 16 { assert ip == ip[..12] + ip[12..]; }
    case None => IPv6ReadsBack(ip);
  }

  lemma IPStringInjective(a: bytes, b: bytes)
    requires |a| == |b| && (|a| == 4 || |a| == 16)
    ensures IPString(a) == IPString(b) <==> a == b
  {
    IPStringReadsBack(a);
    IPStringReadsBack(b);
    if |a| == 4 { assert To16(a)[12..] == a && To16(b)[12..] == b; }
  }

  // ---------- host:port ----------

  /** net.JoinHostPort of a host and a decimal port. */
  function HostPort(host: bytes, port: u16): bytes
  {
    if COLON in host then [OPEN] + host + [CLOSE, COLON] + Decimal(port)
    else host + [COLON] + Decimal(port)
  }

  lemma LastColonSplits(a: bytes, m: nat, b: bytes, n: nat)
    requires a + [COLON] + Decimal(m) == b + [COLON] + Decimal(n)
    ensures a == b && m == n
  {
    var s := a + [COLON] + Decimal(m);
    assert s[|a|] == COLON && s[|b|] == COLON;
    assert s[..|a|] == a && s[..|b|] == b;
    assert s[|a| + 1..] == Decimal(m) && s[|b| + 1..] == Decimal(n);
    DecimalReadsBack(m);
    DecimalReadsBack(n);
  }

  /** The dial string determines the host and the port, whatever bytes the host contains. */
  lemma HostPortInjective(a: bytes, m: u16, b: bytes, n: u16)
    ensures HostPort(a, m) == HostPort(b, n) <==> a == b && m == n
  {
    if HostPort(a, m) == HostPort(b, n) {
      var ha := if COLON in a then [OPEN] + a + [CLOSE] else a;
      var hb := if COLON in b then [OPEN] + b + [CLOSE] else b;
      assert HostPort(a, m) == ha + [COLON] + Decimal(m);
      assert HostPort(b, n) == hb + [COLON] + Decimal(n);
      LastColonSplits(ha, m, hb, n);
      assert COLON in a ==> COLON in ha && ha[1..|ha| - 1] == a;
      assert COLON in b ==> COLON in hb && hb[1..|hb| - 1] == b;
    }
  }
}
