/**
 What the texts of AddressText are, said without the functions that make them: numerals by place value, dotted
 decimal, the shape of RFC 5952 section 4, and the host:port text by the reader of net.SplitHostPort.
 */
module AddressLaws {
  import opened Prelude
  import opened AddressText

  // ---------- numerals ----------

  function Power(base: nat, k: nat): nat { if k == 0 then 1 else base * Power(base, k - 1) }

  /** The value of a lower-case digit. */
  function Digit(c: byte): nat { if 48 <= c <= 57 then c - 48 else if 97 <= c <= 102 then c - 87 else 16 }

  /** The sum of the digits, each times its power of the base. */
  function PlaceValue(s: bytes, base: nat): nat
  {
    if s == [] then 0 else Digit(s[0]) * Power(base, |s| - 1) + PlaceValue(s[1..], base)
  }

  /** Lower-case digits of the base without a leading zero, with the given value. */
  predicate IsNumeral(s: bytes, base: nat, n: nat)
  {
    && s != [] && (forall i :: 0 <= i < |s| ==> Digit(s[i]) < base)
    && (|s| > 1 ==> s[0] != 48) && PlaceValue(s, base) == n
  }

  lemma Distribute(base: nat, d: nat, p: nat, v: nat)
    ensures d * (base * p) + v * base == (d * p + v) * base
  {
  }

  lemma {:induction false} PlaceValueAppend(s: bytes, c: byte, base: nat)
    ensures PlaceValue(s + [c], base) == PlaceValue(s, base) * base + Digit(c)
  {
    if s == [] {
      assert s + [c] == [c] && [c][1..] == [];
      assert Power(base, 0) == 1;
    } else {
      PlaceValueAppend(s[1..], c, base);
      assert (s + [c])[1..] == s[1..] + [c];
      Distribute(base, Digit(s[0]), Power(base, |s| - 1), PlaceValue(s[1..], base));
    }
  }

  lemma {:induction false} DecimalIsNumeral(n: nat)
    ensures IsNumeral(Decimal(n), 10, n) && (n > 0 ==> Decimal(n)[0] != 48)
  {
    if n < 10 {
      PlaceValueAppend([], 48 + n, 10);
      assert [] + [48 + n] == Decimal(n);
    } else {
      DecimalIsNumeral(n / 10);
      PlaceValueAppend(Decimal(n / 10), 48 + n % 10, 10);
    }
  }

  lemma {:induction false} HexIsNumeral(n: nat)
    ensures IsNumeral(Hex(n), 16, n) && (n > 0 ==> Hex(n)[0] != 48)
  {
    if n < 16 {
      PlaceValueAppend([], HexDigit(n), 16);
      assert [] + [HexDigit(n)] == Hex(n);
    } else {
      HexIsNumeral(n / 16);
      PlaceValueAppend(Hex(n / 16), HexDigit(n % 16), 16);
    }
  }

  lemma {:induction false} DecimalValueIsPlaceValue(s: bytes)
    requires AllDigits(s)
    ensures DecimalValue(s) == PlaceValue(s, 10)
    decreases |s|
  {
    if s == [] {
    } else {
      var n := |s| - 1;
      DecimalValueIsPlaceValue(s[..n]);
      PlaceValueAppend(s[..n], s[n], 10);
      assert s[..n] + [s[n]] == s;
    }
  }

  // ---------- host:port ----------

  /** The position of the last colon. */
  function LastColon(s: bytes): (r: Option<nat>)
    ensures r.Some? ==> r.value < |s| && s[r.value] == 58
    decreases |s|
  {
    if s == [] then None else if s[|s| - 1] == 58 then Some(|s| - 1) else LastColon(s[..|s| - 1])
  }

  /** The position of the first closing bracket. */
  function FirstClose(s: bytes): (r: Option<nat>)
    ensures r.Some? ==> r.value < |s| && s[r.value] == 93
  {
    if s == [] then None
    else if s[0] == 93 then Some(0)
    else match FirstClose(s[1..])
      case Some(k) => Some(k + 1)
      case None => None
  }

  /** net.SplitHostPort: the host without its brackets and the text of the port. */
  function SplitHostPort(s: bytes): Option<(bytes, bytes)>
  {
    match LastColon(s)
    case None => None
    case Some(i) =>
      if s[0] == 91 then
        match FirstClose(s)
        case None => None
        case Some(end) =>
          if end + 1 != i || 91 in s[1..] || 93 in s[end + 1..] then None else Some((s[1..end], s[i + 1..]))
      else if 58 in s[..i] || 91 in s || 93 in s then None
      else Some((s[..i], s[i + 1..]))
  }

  lemma {:induction false} LastColonOf(a: bytes, d: bytes)
    requires 58 !in d
    ensures LastColon(a + [58] + d) == Some(|a|)
    decreases |d|
  {
    var s := a + [58] + d;
    if d == [] {
    } else {
      var n := |d| - 1;
      assert s[..|s| - 1] == a + [58] + d[..n];
      assert s[|s| - 1] == d[n];
      LastColonOf(a, d[..n]);
    }
  }

  lemma {:induction false} FirstCloseOf(a: bytes, t: bytes)
    requires 93 !in a
    ensures FirstClose(a + [93] + t) == Some(|a|)
  {
    var s := a + [93] + t;
    if a == [] {
      assert s[0] == 93;
    } else {
      assert s[1..] == a[1..] + [93] + t;
      FirstCloseOf(a[1..], t);
    }
  }

  lemma NumeralAvoids(d: bytes, n: nat)
    requires IsNumeral(d, 10, n)
    ensures 58 !in d && 91 !in d && 93 !in d
  {
  }

  /** The dial string is the host, in brackets where it contains a colon, a colon, and the decimal numeral of the
      port. */
  lemma HostPortForm(host: bytes, port: u16) returns (d: bytes)
    ensures IsNumeral(d, 10, port)
    ensures HostPort(host, port) == (if 58 in host then [91] + host + [93] else host) + [58] + d
  {
    d := Decimal(port);
    DecimalIsNumeral(port);
    if 58 in host { assert [91] + host + [93, 58] + d == [91] + host + [93] + [58] + d; }
  }

  lemma SplitBracketed(host: bytes, d: bytes)
    requires 91 !in host && 93 !in host && 58 !in d && 91 !in d && 93 !in d
    ensures SplitHostPort([91] + host + [93] + [58] + d) == Some((host, d))
  {
    var s := [91] + host + [93] + [58] + d;
    LastColonOf([91] + host + [93], d);
    assert s == [91] + host + [93] + ([58] + d);
    FirstCloseOf([91] + host, [58] + d);
    var end := |host| + 1;
    assert s[1..end] == host && s[end + 2..] == d;
    assert s[1..] == host + [93] + [58] + d && s[end + 1..] == [58] + d;
  }

  lemma SplitBare(host: bytes, d: bytes)
    requires 58 !in host && 91 !in host && 93 !in host && 58 !in d && 91 !in d && 93 !in d
    ensures SplitHostPort(host + [58] + d) == Some((host, d))
  {
    var s := host + [58] + d;
    LastColonOf(host, d);
    assert s[..|host|] == host && s[|host| + 1..] == d;
    assert s[0] != 91;
  }

  /** Dialling the text of a host and a port reaches that host and that port: net.SplitHostPort reads them back. */
  lemma HostPortSplits(host: bytes, port: u16) returns (d: bytes)
    requires 91 !in host && 93 !in host
    ensures IsNumeral(d, 10, port) && SplitHostPort(HostPort(host, port)) == Some((host, d))
  {
    d := HostPortForm(host, port);
    NumeralAvoids(d, port);
    if 58 in host { SplitBracketed(host, d); } else { SplitBare(host, d); }
  }

  // ---------- IPv4 ----------

  /** Four numerals of bytes between dots. */
  ghost predicate Dotted(s: bytes, ip: bytes)
  {
    && |ip| == 4
    && exists a: bytes, b: bytes, c: bytes, d: bytes ::
         && s == a + [46] + b + [46] + c + [46] + d
         && IsNumeral(a, 10, ip[0]) && IsNumeral(b, 10, ip[1]) && IsNumeral(c, 10, ip[2]) && IsNumeral(d, 10, ip[3])
  }

  lemma {:induction false} JoinOfSplit(s: bytes, sep: byte)
    ensures Join(Split(s, sep), sep) == s
  {
    if s == [] {
    } else {
      JoinOfSplit(s[1..], sep);
      var rest := Split(s[1..], sep);
      var parts := Split(s, sep);
      assert s == [s[0]] + s[1..];
      if s[0] == sep {
        assert parts[0] == [] && parts[1..] == rest;
      } else {
        assert parts[0] == [s[0]] + rest[0] && parts[1..] == rest[1..];
        if |rest| == 1 {
          assert parts == [[s[0]] + rest[0]];
        } else {
          assert [s[0]] + rest[0] + [sep] + Join(rest[1..], sep) == [s[0]] + (rest[0] + [sep] + Join(rest[1..], sep));
        }
      }
    }
  }

  lemma JoinOfFour(f: seq<bytes>)
    requires |f| == 4
    ensures Join(f, 46) == f[0] + [46] + f[1] + [46] + f[2] + [46] + f[3]
  {
    assert f[1..][1..][1..] == [f[3]] && f[1..][1..] == [f[2], f[3]] && f[1..] == [f[1], f[2], f[3]];
    assert Join(f[1..][1..], 46) == f[2] + [46] + f[3];
    assert Join(f[1..], 46) == f[1] + [46] + (f[2] + [46] + f[3]);
  }

  lemma OctetIsNumeral(f: bytes)
    requires ParseOctet(f).Some?
    ensures IsNumeral(f, 10, ParseOctet(f).value)
  {
    DecimalValueIsPlaceValue(f);
  }

  lemma {:induction false} OctetsAt(f: seq<bytes>, i: nat)
    requires ParseOctets(f).Some? && i < |f|
    ensures ParseOctet(f[i]) == Some(ParseOctets(f).value[i])
  {
    if i > 0 { OctetsAt(f[1..], i - 1); }
  }

  lemma {:induction false} FieldsAt(ip: bytes, i: nat)
    requires i < |ip|
    ensures DecimalFields(ip)[i] == Decimal(ip[i])
  {
    if i > 0 { FieldsAt(ip[1..], i - 1); }
  }

  lemma PrintIsDotted(ip: bytes)
    requires |ip| == 4
    ensures Dotted(PrintIPv4(ip), ip)
  {
    var f := DecimalFields(ip);
    JoinOfFour(f);
    forall i | 0 <= i < 4 ensures f[i] == Decimal(ip[i]) && IsNumeral(f[i], 10, ip[i]) {
      FieldsAt(ip, i);
      DecimalIsNumeral(ip[i]);
    }
  }

  lemma ParsedIsDotted(s: bytes)
    requires ParseIPv4(s).Some?
    ensures Dotted(s, ParseIPv4(s).value)
  {
    var f, ip := Split(s, 46), ParseIPv4(s).value;
    JoinOfSplit(s, 46);
    JoinOfFour(f);
    forall i | 0 <= i < 4 ensures IsNumeral(f[i], 10, ip[i]) {
      OctetsAt(f, i);
      OctetIsNumeral(f[i]);
    }
  }

  /** A number has one decimal numeral. */
  lemma {:induction false} NumeralIsDecimal(s: bytes, n: nat)
    requires IsNumeral(s, 10, n)
    ensures s == Decimal(n)
    decreases |s|
  {
    var k := |s| - 1;
    PlaceValueAppend(s[..k], s[k], 10);
    assert s[..k] + [s[k]] == s;
    if k == 0 {
      assert s[..k] == [];
    } else {
      var m := PlaceValue(s[..k], 10);
      assert s[..k][0] == s[0];
      NumeralIsDecimal(s[..k], m);
      assert m > 0;
      assert n / 10 == m && n % 10 == Digit(s[k]);
    }
  }

  lemma DottedIsPrinted(s: bytes, ip: bytes)
    requires Dotted(s, ip)
    ensures s == PrintIPv4(ip)
  {
    var a: bytes, b: bytes, c: bytes, d: bytes :|
      && s == a + [46] + b + [46] + c + [46] + d
      && IsNumeral(a, 10, ip[0]) && IsNumeral(b, 10, ip[1]) && IsNumeral(c, 10, ip[2]) && IsNumeral(d, 10, ip[3]);
    NumeralIsDecimal(a, ip[0]);
    NumeralIsDecimal(b, ip[1]);
    NumeralIsDecimal(c, ip[2]);
    NumeralIsDecimal(d, ip[3]);
    JoinOfFour(DecimalFields(ip));
    forall i | 0 <= i < 4 ensures DecimalFields(ip)[i] == Decimal(ip[i]) { FieldsAt(ip, i); }
  }

  /** net.ParseIP takes as IPv4 exactly the dotted decimal texts, without leading zeros, and reads their bytes. */
  lemma IPv4IsDotted(s: bytes, ip: bytes)
    ensures ParseIPv4(s) == Some(ip) <==> Dotted(s, ip)
    ensures |ip| == 4 ==> (PrintIPv4(ip) == s <==> Dotted(s, ip))
  {
    if ParseIPv4(s).Some? { ParsedIsDotted(s); }
    if |ip| == 4 {
      IPv4ReadsBack(ip);
      PrintIsDotted(ip);
    }
    if Dotted(s, ip) { DottedIsPrinted(s, ip); }
  }

  // ---------- IPv6 ----------

  /** Hexadecimal numerals of the groups between colons. */
  ghost predicate GroupText(s: bytes, gs: seq<nat>)
    decreases |gs|
  {
    if gs == [] then s == []
    else if |gs| == 1 then IsNumeral(s, 16, gs[0])
    else exists h: bytes, t: bytes :: s == h + [58] + t && IsNumeral(h, 16, gs[0]) && GroupText(t, gs[1..])
  }

  lemma {:induction false} HexTextIsGroupText(gs: seq<u16>)
    ensures GroupText(HexText(gs), gs)
  {
    if gs == [] {
    } else {
      HexIsNumeral(gs[0]);
      if |gs| > 1 {
        HexTextIsGroupText(gs[1..]);
        assert HexFields(gs)[1..] == HexFields(gs[1..]);
        assert HexText(gs) == Hex(gs[0]) + [58] + HexText(gs[1..]);
      }
    }
  }

  /** Group i of an address. */
  predicate IsGroupsOf(gs: seq<nat>, ip: bytes)
  {
    |ip| == 2 * |gs| && forall i :: 0 <= i < |gs| ==> gs[i] == ip[2 * i] as int * 256 + ip[2 * i + 1]
  }

  lemma {:induction false} GroupsAreGroups(ip: bytes)
    requires |ip| % 2 == 0
    ensures IsGroupsOf(Groups(ip), ip)
  {
    if ip == [] {
    } else {
      GroupsAreGroups(ip[2..]);
      var gs := Groups(ip);
      forall i | 0 <= i < |gs| ensures gs[i] == ip[2 * i] as int * 256 + ip[2 * i + 1] {
        if i > 0 {
          assert gs[i] == Groups(ip[2..])[i - 1];
          assert ip[2..][2 * (i - 1)] == ip[2 * i] && ip[2..][2 * (i - 1) + 1] == ip[2 * i + 1];
        }
      }
    }
  }

  /** A run of n zero groups that starts at a. */
  predicate Zero(gs: seq<nat>, a: nat, n: nat) { a + n <= |gs| && forall i :: a <= i < a + n ==> gs[i] == 0 }

  /** RFC 5952 section 4.2: the run is at least two groups long, no run is longer, and none as long comes before it. */
  predicate Shortened(gs: seq<nat>, start: nat, n: nat)
  {
    && n >= 2 && Zero(gs, start, n)
    && forall a: nat, m: nat :: a < |gs| && m <= |gs| && Zero(gs, a, m) ==> m <= n && (m == n ==> start <= a)
  }

  /** RFC 5952 section 4: the text of the groups. */
  ghost predicate IPv6Text(s: bytes, gs: seq<nat>)
  {
    || ((forall i :: 0 <= i < |gs| - 1 ==> gs[i] != 0 || gs[i + 1] != 0) && GroupText(s, gs))
    || (exists start: nat, n: nat, left: bytes, right: bytes ::
          && Shortened(gs, start, n) && s == left + [58, 58] + right
          && GroupText(left, gs[..start]) && GroupText(right, gs[start + n..]))
  }

  lemma {:induction false} ZeroFitsRun(gs: seq<u16>, a: nat, m: nat)
    requires Zero(gs, a, m)
    ensures m <= ZeroRun(gs, a)
    decreases m
  {
    if m > 0 { ZeroFitsRun(gs, a + 1, m - 1); }
  }

  lemma LongestIsShortened(gs: seq<u16>)
    ensures var (start, n) := LongestRun(gs);
      if n == 0 then forall i :: 0 <= i < |gs| - 1 ==> gs[i] != 0 || gs[i + 1] != 0 else Shortened(gs, start, n)
  {
    LongestRunIsLongest(gs);
    var (start, n) := LongestRun(gs);
    forall a: nat, m: nat | a < |gs| && m <= |gs| && Zero(gs, a, m) ensures m <= ZeroRun(gs, a) {
      ZeroFitsRun(gs, a, m);
    }
    if n == 0 {
      forall i | 0 <= i < |gs| - 1 ensures gs[i] != 0 || gs[i + 1] != 0 {
        if gs[i] == 0 && gs[i + 1] == 0 { assert Zero(gs, i, 2); }
      }
    }
  }

  /** The text of a sixteen-byte address that is not IPv4-mapped is the one that RFC 5952 section 4 asks for. */
  lemma IPv6IsRFC5952(ip: bytes) returns (gs: seq<nat>)
    requires |ip| == 16
    ensures IsGroupsOf(gs, ip) && IPv6Text(PrintIPv6(ip), gs)
  {
    gs := Groups(ip);
    GroupsAreGroups(ip);
    LongestIsShortened(Groups(ip));
    var (start, n) := LongestRun(Groups(ip));
    if n == 0 {
      HexTextIsGroupText(Groups(ip));
    } else {
      HexTextIsGroupText(Groups(ip)[..start]);
      HexTextIsGroupText(Groups(ip)[start + n..]);
    }
  }

  // ---------- net.IP ----------

  /** ::ffff:0:0/96 */
  const MAPPED_PREFIX: bytes := [0, 0, 0, 0, 0, 0, 0, 0, 0, 0, 255, 255]

  lemma MappedPrefix()
    ensures MAPPED == MAPPED_PREFIX
  {
    var ten: bytes := [0, 0, 0, 0, 0, 0, 0, 0, 0, 0];
    assert Zeros(10) == ten;
  }

  /** net.IP.String: dotted decimal for IPv4 and for IPv4-mapped addresses, RFC 5952 text for all others. */
  lemma IPStringForms(ip: bytes)
    requires |ip| == 4 || |ip| == 16
    ensures |ip| == 4 ==> Dotted(IPString(ip), ip)
    ensures |ip| == 16 && ip[..12] == MAPPED_PREFIX ==> Dotted(IPString(ip), ip[12..])
    ensures |ip| == 16 && ip[..12] != MAPPED_PREFIX ==>
      exists gs: seq<nat> :: IsGroupsOf(gs, ip) && IPv6Text(IPString(ip), gs)
  {
    MappedPrefix();
    if |ip| == 4 {
      PrintIsDotted(ip);
    } else if ip[..12] == MAPPED_PREFIX {
      PrintIsDotted(ip[12..]);
    } else {
      var gs := IPv6IsRFC5952(ip);
    }
  }

  /** net.ParseIP of text without a colon: the dotted decimal texts, in mapped form. */
  lemma ParseIPOfDotted(s: bytes, ip: bytes)
    requires 58 !in s
    ensures ParseIP(s) == Some(ip) <==> |ip| == 16 && ip[..12] == MAPPED_PREFIX && Dotted(s, ip[12..])
  {
    MappedPrefix();
    if ParseIPv4(s).Some? { assert To16(ParseIPv4(s).value)[12..] == ParseIPv4(s).value; }
    if |ip| == 16 {
      IPv4IsDotted(s, ip[12..]);
      assert ip == ip[..12] + ip[12..];
    }
  }

  // ---------- every IPv6 text that is read ----------

  /** The value of a hexadecimal digit of either case. */
  function HexDigitOf(c: byte): nat { if 65 <= c <= 70 then c - 55 else Digit(c) }

  function HexPlaceValue(s: bytes): nat
  {
    if s == [] then 0 else HexDigitOf(s[0]) * Power(16, |s| - 1) + HexPlaceValue(s[1..])
  }

  /** One to four hexadecimal digits of either case, leading zeros allowed, for two bytes. */
  predicate Field(f: bytes, b: bytes)
  {
    && 1 <= |f| <= 4 && |b| == 2 && (forall i :: 0 <= i < |f| ==> HexDigitOf(f[i]) < 16)
    && HexPlaceValue(f) == b[0] as int * 256 + b[1]
  }

  /** Fields between colons, the last of which may be dotted decimal where that is allowed. */
  ghost predicate Fields(s: bytes, b: bytes, ipv4Tail: bool)
    decreases |s|
  {
    || Field(s, b)
    || (ipv4Tail && Dotted(s, b))
    || exists f: bytes, t: bytes ::
         |t| < |s| && s == f + [58] + t && |b| >= 2 && Field(f, b[..2]) && Fields(t, b[2..], ipv4Tail)
  }

  lemma {:induction false} HexPlaceValueAppend(s: bytes, c: byte)
    ensures HexPlaceValue(s + [c]) == HexPlaceValue(s) * 16 + HexDigitOf(c)
  {
    if s == [] {
      assert s + [c] == [c] && [c][1..] == [];
      assert Power(16, 0) == 1;
    } else {
      HexPlaceValueAppend(s[1..], c);
      assert (s + [c])[1..] == s[1..] + [c];
      Distribute(16, HexDigitOf(s[0]), Power(16, |s| - 1), HexPlaceValue(s[1..]));
    }
  }

  lemma {:induction false} HexValueIsPlaceValue(s: bytes)
    requires AllHex(s)
    ensures HexValue(s) == HexPlaceValue(s)
    decreases |s|
  {
    if s == [] {
    } else {
      var n := |s| - 1;
      HexValueIsPlaceValue(s[..n]);
      HexPlaceValueAppend(s[..n], s[n]);
      assert s[..n] + [s[n]] == s;
    }
  }

  lemma BoundStep(d: nat, p: nat, v: nat)
    requires d < 16 && v < p
    ensures d * p + v < 16 * p
  {
  }

  lemma {:induction false} PlaceValueBound(s: bytes)
    requires forall i :: 0 <= i < |s| ==> HexDigitOf(s[i]) < 16
    ensures HexPlaceValue(s) < Power(16, |s|)
  {
    if s == [] {
    } else {
      PlaceValueBound(s[1..]);
      BoundStep(HexDigitOf(s[0]), Power(16, |s| - 1), HexPlaceValue(s[1..]));
    }
  }

  lemma PowersOf16(k: nat)
    requires k <= 4
    ensures Power(16, k) <= 65536
  {
    assert Power(16, 1) == 16 * Power(16, 0) && Power(16, 2) == 16 * Power(16, 1);
    assert Power(16, 3) == 16 * Power(16, 2) && Power(16, 4) == 16 * Power(16, 3);
  }

  lemma GroupIsField(f: bytes, b: bytes)
    ensures Field(f, b) <==> ParseHexGroup(f).Some? && GroupPair(ParseHexGroup(f).value) == b
  {
    if 1 <= |f| <= 4 && AllHex(f) {
      HexValueIsPlaceValue(f);
      PlaceValueBound(f);
      PowersOf16(|f|);
      if |b| == 2 {
        assert b == [b[0], b[1]];
      }
    }
    if Field(f, b) { assert forall i :: 0 <= i < |f| ==> HexDigitValue(f[i]).Some?; }
  }

  lemma FieldAvoids(f: bytes, b: bytes)
    requires Field(f, b)
    ensures 58 !in f && 46 !in f
  {
  }

  lemma DottedHasDot(s: bytes, b: bytes)
    requires Dotted(s, b)
    ensures 46 in s && 58 !in s
  {
    DottedIsPrinted(s, b);
    IPv4ReadsBack(b);
    assert 46 in s by {
      var a: bytes, c: bytes, d: bytes, e: bytes :|
        s == a + [46] + c + [46] + d + [46] + e && IsNumeral(a, 10, b[0]) && IsNumeral(c, 10, b[1])
        && IsNumeral(d, 10, b[2]) && IsNumeral(e, 10, b[3]);
      assert s[|a|] == 46;
    }
  }

  /** The text before the first colon is determined. */
  lemma FirstColon(f: bytes, t: bytes, g: bytes, u: bytes)
    requires 58 !in f && 58 !in g && f + [58] + t == g + [58] + u
    ensures f == g && t == u
  {
    var s := f + [58] + t;
    assert s[|f|] == 58 && s[|g|] == 58;
    assert s[..|f|] == f && s[..|g|] == g;
    assert s[|f| + 1..] == t && s[|g| + 1..] == u;
  }

  lemma Unbroken(f: bytes, g: bytes, t: bytes)
    requires 58 !in f
    ensures f != g + [58] + t
  {
    assert (g + [58] + t)[|g|] == 58;
  }

  lemma LastFieldIff(f: bytes, ipv4Tail: bool, b: bytes)
    requires 58 !in f
    ensures ParseFields([f], ipv4Tail) == Some(b) <==> Fields(f, b, ipv4Tail)
  {
    GroupIsField(f, b);
    IPv4IsDotted(f, b);
    if Field(f, b) { FieldAvoids(f, b); }
    if Dotted(f, b) { DottedHasDot(f, b); }
    assert [f][1..] == [];
    assert ParseFields([], ipv4Tail) == Some([]);
    if ParseHexGroup(f).Some? {
      var pair := GroupPair(ParseHexGroup(f).value);
      assert pair + [] == pair;
    }
    forall g: bytes, t: bytes ensures f != g + [58] + t { Unbroken(f, g, t); }
  }

  lemma MoreFieldsIff(f: bytes, t: bytes, ipv4Tail: bool, b: bytes)
    requires 58 !in f
    ensures Fields(f + [58] + t, b, ipv4Tail) <==> |b| >= 2 && Field(f, b[..2]) && Fields(t, b[2..], ipv4Tail)
  {
    var s := f + [58] + t;
    assert s[|f|] == 58;
    if Field(s, b) { FieldAvoids(s, b); }
    if Dotted(s, b) { DottedHasDot(s, b); }
    if Fields(s, b, ipv4Tail) {
      var g: bytes, u: bytes :|
        |u| < |s| && s == g + [58] + u && |b| >= 2 && Field(g, b[..2]) && Fields(u, b[2..], ipv4Tail);
      FieldAvoids(g, b[..2]);
      FirstColon(f, t, g, u);
    }
  }

  lemma {:induction false} FieldsIff(fields: seq<bytes>, ipv4Tail: bool, b: bytes)
    requires fields != [] && forall i :: 0 <= i < |fields| ==> 58 !in fields[i]
    ensures ParseFields(fields, ipv4Tail) == Some(b) <==> Fields(Join(fields, 58), b, ipv4Tail)
    decreases |fields|
  {
    if |fields| == 1 {
      assert fields == [fields[0]];
      LastFieldIff(fields[0], ipv4Tail, b);
    } else {
      var f, rest := fields[0], fields[1..];
      MoreFieldsIff(f, Join(rest, 58), ipv4Tail, b);
      if |b| >= 2 {
        FieldsIff(rest, ipv4Tail, b[2..]);
        GroupIsField(f, b[..2]);
        assert b == b[..2] + b[2..];
      }
      var parsed := ParseFields(rest, ipv4Tail);
      if ParseHexGroup(f).Some? && parsed.Some? {
        var pair := GroupPair(ParseHexGroup(f).value);
        assert (pair + parsed.value)[..2] == pair && (pair + parsed.value)[2..] == parsed.value;
      }
    }
  }

  lemma {:induction false} SplitAvoids(s: bytes, sep: byte)
    ensures forall i :: 0 <= i < |Split(s, sep)| ==> sep !in Split(s, sep)[i]
  {
    if s == [] {
    } else {
      SplitAvoids(s[1..], sep);
      var rest := Split(s[1..], sep);
      forall i | 0 <= i < |Split(s, sep)| ensures sep !in Split(s, sep)[i] {
        if s[0] == sep {
          assert i > 0 ==> Split(s, sep)[i] == rest[i - 1];
        } else {
          assert i > 0 ==> Split(s, sep)[i] == rest[i];
        }
      }
    }
  }

  lemma TextFieldsIff(s: bytes, ipv4Tail: bool, b: bytes)
    ensures ParseFields(Split(s, 58), ipv4Tail) == Some(b) <==> Fields(s, b, ipv4Tail)
  {
    SplitAvoids(s, 58);
    JoinOfSplit(s, 58);
    FieldsIff(Split(s, 58), ipv4Tail, b);
  }

  /** One side of "::", which may be empty. */
  ghost predicate SideText(s: bytes, b: bytes, ipv4Tail: bool)
  {
    if s == [] then b == [] else Fields(s, b, ipv4Tail)
  }

  lemma SideIff(s: bytes, ipv4Tail: bool, b: bytes)
    ensures ParseSide(s, ipv4Tail) == Some(b) <==> SideText(s, b, ipv4Tail)
  {
    TextFieldsIff(s, ipv4Tail, b);
  }

  /** The first "::" of the text stands at k. */
  predicate FirstEllipsis(s: bytes, k: nat)
  {
    k + 1 < |s| && s[k] == 58 && s[k + 1] == 58 && forall j :: 0 <= j < k ==> s[j] != 58 || s[j + 1] != 58
  }

  /** The "::" at k stands for the zeros between the first l and the last r bytes, at least two of them. */
  ghost predicate Around(s: bytes, k: nat, ip: bytes, l: nat, r: nat)
    requires |ip| == 16 && k + 1 < |s|
  {
    && l + r <= 14 && (forall j :: l <= j < 16 - r ==> ip[j] == 0)
    && SideText(s[..k], ip[..l], false) && SideText(s[k + 2..], ip[16 - r..], true)
  }

  /** RFC 4291 section 2.2: eight fields, or a first "::" for at least one of them. */
  ghost predicate IPv6Form(s: bytes, ip: bytes)
  {
    && |ip| == 16
    && (|| ((forall k :: 0 <= k < |s| - 1 ==> s[k] != 58 || s[k + 1] != 58) && Fields(s, ip, true))
        || (exists k: nat, l: nat, r: nat :: FirstEllipsis(s, k) && Around(s, k, ip, l, r)))
  }

  lemma ExpandsBetween(left: bytes, right: bytes, ip: bytes)
    requires Expand(Some(left), Some(right)) == Some(ip)
    ensures |ip| == 16 && |left| + |right| <= 14 && left == ip[..|left|] && right == ip[16 - |right|..]
    ensures forall j :: |left| <= j < 16 - |right| ==> ip[j] == 0
  {
  }

  lemma BetweenExpands(ip: bytes, l: nat, r: nat)
    requires |ip| == 16 && l + r <= 14 && forall j :: l <= j < 16 - r ==> ip[j] == 0
    ensures Expand(Some(ip[..l]), Some(ip[16 - r..])) == Some(ip)
  {
    assert Zeros(16 - l - r) == ip[l..16 - r];
    assert ip == ip[..l] + ip[l..16 - r] + ip[16 - r..];
  }

  lemma ExpandedIsAround(s: bytes, k: nat, ip: bytes)
    requires FirstEllipsis(s, k) && Expand(ParseSide(s[..k], false), ParseSide(s[k + 2..], true)) == Some(ip)
    ensures IPv6Form(s, ip)
  {
    var left, right := ParseSide(s[..k], false).value, ParseSide(s[k + 2..], true).value;
    ExpandsBetween(left, right, ip);
    SideIff(s[..k], false, left);
    SideIff(s[k + 2..], true, right);
    assert Around(s, k, ip, |left|, |right|);
  }

  lemma AroundExpands(s: bytes, k: nat, ip: bytes, l: nat, r: nat)
    requires |ip| == 16 && FirstEllipsis(s, k) && Around(s, k, ip, l, r)
    ensures Expand(ParseSide(s[..k], false), ParseSide(s[k + 2..], true)) == Some(ip)
  {
    BetweenExpands(ip, l, r);
    SideIff(s[..k], false, ip[..l]);
    SideIff(s[k + 2..], true, ip[16 - r..]);
  }

  lemma EllipsisIff(s: bytes, k: nat)
    ensures Ellipsis(s) == Some(k) <==> FirstEllipsis(s, k)
  {
    EllipsisIsFirst(s, 0);
    if FirstEllipsis(s, k) {
      assert DoubleColonAt(s, k);
      match Ellipsis(s)
      case Some(j) => assert DoubleColonAt(s, j);
      case None =>
    }
    if Ellipsis(s) == Some(k) {
      forall j | 0 <= j < k ensures s[j] != 58 || s[j + 1] != 58 { assert !DoubleColonAt(s, j); }
    }
  }

  lemma NoEllipsisIff(s: bytes)
    ensures Ellipsis(s).None? <==> forall k :: 0 <= k < |s| - 1 ==> s[k] != 58 || s[k + 1] != 58
  {
    EllipsisIsFirst(s, 0);
    if Ellipsis(s).None? {
      forall k | 0 <= k < |s| - 1 ensures s[k] != 58 || s[k + 1] != 58 { assert !DoubleColonAt(s, k); }
    }
  }

  /** net.ParseIP of text with a colon takes exactly the forms of RFC 4291 section 2.2. */
  lemma ParseIPOfColons(s: bytes, ip: bytes)
    requires 58 in s
    ensures ParseIP(s) == Some(ip) <==> IPv6Form(s, ip)
  {
    TextFieldsIff(s, true, ip);
    NoEllipsisIff(s);
    if ParseIP(s) == Some(ip) && Ellipsis(s).Some? {
      EllipsisIff(s, Ellipsis(s).value);
      ExpandedIsAround(s, Ellipsis(s).value, ip);
    }
    if |ip| == 16 {
      if k: nat, l: nat, r: nat :| FirstEllipsis(s, k) && Around(s, k, ip, l, r) {
        EllipsisIff(s, k);
        AroundExpands(s, k, ip, l, r);
      }
    }
  }
}
