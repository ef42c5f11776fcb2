/**
 The cached state of PIAClient (pia.go) as its methods change it, and the two ways in which the program
 looks up a region: the scan of FindRegion and the lower-case index of filterUnknownRegions
 (cmd/piaproxyd/main.go).  Region ids of the server list are ASCII; what the user configures is any text.
 */
module PiaClient {
  import opened Prelude
  import opened RetrySchedule
  import T = TokenCache

  // ---------- case folding ----------

  /** A Unicode code point; bytes that are not UTF-8 read as U+FFFD. */
  type rune = c: int | 0 <= c < 0x11_0000

  type text = seq<rune>

  const KELVIN: rune := 0x212A
  const LONG_S: rune := 0x017F
  const DOTTED_I: rune := 0x0130

  predicate Ascii(s: text) { forall i :: 0 <= i < |s| ==> s[i] < 128 }

  function LowerAscii(c: rune): rune { if 65 <= c <= 90 then c + 32 else c }

  /** unicode.ToLower as far as it leads into ASCII; any other rune stays outside ASCII and as it is. */
  function LowerRune(c: rune): rune
  {
    if c == KELVIN then 107 else if c == DOTTED_I then 105 else LowerAscii(c)
  }

  /** strings.ToLower */
  function ToLower(s: text): text { seq(|s|, i requires 0 <= i < |s| => LowerRune(s[i])) }

  /** The one rune of each orbit of unicode.SimpleFold that meets ASCII: the lower-case letter. */
  function FoldRune(c: rune): rune
  {
    if c == KELVIN then 107 else if c == LONG_S then 115 else LowerAscii(c)
  }

  function Folded(s: text): text { seq(|s|, i requires 0 <= i < |s| => FoldRune(s[i])) }

  /** strings.EqualFold, for texts of which one is ASCII: rune by rune on the same orbit. */
  predicate EqualFold(s: text, t: text)
  {
    |s| == |t| && forall i :: 0 <= i < |s| ==> FoldRune(s[i]) == FoldRune(t[i])
  }

  /** An id of ASCII text is found under folding or under lower case when it is the folded or lower text. */
  lemma FoldIsEqualLower(id: text, t: text)
    requires Ascii(id)
    ensures EqualFold(id, t) <==> ToLower(id) == Folded(t)
    ensures Ascii(t) ==> Folded(t) == ToLower(t)
  {
    if ToLower(id) == Folded(t) {
      forall i | 0 <= i < |id| ensures FoldRune(id[i]) == FoldRune(t[i]) {
        assert ToLower(id)[i] == Folded(t)[i];
      }
    }
  }

  // ---------- regions ----------

  datatype Endpoint = Endpoint(ip: text, cn: text, port: int)

  datatype Region = Region(id: text, servers: seq<Endpoint>)

  datatype City = City(name: text, region: text, preferred: Endpoint)

  ghost predicate AsciiIds(regions: seq<Region>)
  {
    forall i :: 0 <= i < |regions| ==> Ascii(regions[i].id)
  }

  /** The index of the first region with the given id, ignoring case. */
  function FirstRegion(regions: seq<Region>, id: text): (r: Option<nat>)
    ensures r.Some? ==> r.value < |regions| && EqualFold(regions[r.value].id, id)
  {
    if regions == [] then None
    else if EqualFold(regions[0].id, id) then Some(0)
    else match FirstRegion(regions[1..], id)
      case Some(k) => Some(k + 1)
      case None => None
  }

  lemma {:induction false} FirstRegionIsFirst(regions: seq<Region>, id: text)
    ensures match FirstRegion(regions, id)
      case Some(k) => forall j :: 0 <= j < k ==> !EqualFold(regions[j].id, id)
      case None => forall j :: 0 <= j < |regions| ==> !EqualFold(regions[j].id, id)
  {
    if regions != [] && !EqualFold(regions[0].id, id) {
      FirstRegionIsFirst(regions[1..], id);
      assert forall j :: 1 <= j < |regions| ==> regions[j] == regions[1..][j - 1];
    }
  }

  method ScanRegions(regions: seq<Region>, id: text) returns (r: Option<nat>)
    ensures r == FirstRegion(regions, id)
  {
    FirstRegionIsFirst(regions, id);
    for i := 0 to |regions|
      invariant forall j :: 0 <= j < i ==> !EqualFold(regions[j].id, id)
    {
      if EqualFold(regions[i].id, id) {
        return Some(i);
      }
    }
    return None;
  }

  /** The cities whose region the scan finds, in order. */
  function Keep(cities: seq<City>, regions: seq<Region>): (kept: seq<City>)
    ensures forall c :: c in kept <==> c in cities && FirstRegion(regions, c.region).Some?
    decreases |cities|
  {
    if cities == [] then []
    else
      var n := |cities| - 1;
      Keep(cities[..n], regions)
      + (if FirstRegion(regions, cities[n].region).Some? then [cities[n]] else [])
  }

  /** Whether the index of lower-case ids has a region. */
  predicate Known(regions: seq<Region>, id: text)
  {
    exists i :: 0 <= i < |regions| && ToLower(regions[i].id) == ToLower(id)
  }

  /** The cities whose region is in the index, in order. */
  function KeepKnown(cities: seq<City>, regions: seq<Region>): (kept: seq<City>)
    ensures forall c :: c in kept <==> c in cities && Known(regions, c.region)
    decreases |cities|
  {
    if cities == [] then []
    else
      var n := |cities| - 1;
      KeepKnown(cities[..n], regions) + (if Known(regions, cities[n].region) then [cities[n]] else [])
  }

  /** The index built in place keeps the cities whose lower-case region is that of some id, in order. */
  method FilterUnknownRegions(cities: seq<City>, regions: seq<Region>) returns (out: seq<City>)
    ensures out == KeepKnown(cities, regions)
  {
    var known: map<text, bool> := map[];
    for i := 0 to |regions|
      invariant forall k :: k in known <==> exists j :: 0 <= j < i && ToLower(regions[j].id) == k
    {
      known := known[ToLower(regions[i].id) := true];
    }
    out := [];
    for i := 0 to |cities|
      invariant out == KeepKnown(cities[..i], regions)
    {
      assert cities[..i + 1][..i] == cities[..i];
      if ToLower(cities[i].region) in known {
        out := out + [cities[i]];
      }
    }
    assert cities[..|cities|] == cities;
  }

  // ---------- when the two lookups agree ----------

  lemma LookupsInWords(regions: seq<Region>, id: text)
    requires AsciiIds(regions)
    ensures FirstRegion(regions, id).Some? <==> exists i :: 0 <= i < |regions| && ToLower(regions[i].id) == Folded(id)
  {
    FirstRegionIsFirst(regions, id);
    forall i | 0 <= i < |regions| ensures EqualFold(regions[i].id, id) <==> ToLower(regions[i].id) == Folded(id) {
      FoldIsEqualLower(regions[i].id, id);
    }
  }

  lemma LowerIsAscii(id: text)
    requires Ascii(id)
    ensures Ascii(ToLower(id))
  {
  }

  /** The runes on which folding and lower case lead into ASCII, both or one of them. */
  lemma AsciiForms(id: text)
    ensures Ascii(Folded(id)) && Ascii(ToLower(id)) ==> Folded(id) == ToLower(id)
    ensures Ascii(ToLower(id)) ==> (Ascii(Folded(id)) <==> DOTTED_I !in id)
    ensures Ascii(Folded(id)) ==> (Ascii(ToLower(id)) <==> LONG_S !in id)
  {
    assert forall i :: 0 <= i < |id| ==> Folded(id)[i] == FoldRune(id[i]) && ToLower(id)[i] == LowerRune(id[i]);
  }

  /** One lookup reads the id as ASCII and the other does not. */
  predicate Ambiguous(id: text) { Ascii(Folded(id)) != Ascii(ToLower(id)) }

  lemma AgreeUnlessAmbiguous(regions: seq<Region>, id: text)
    requires AsciiIds(regions) && !Ambiguous(id)
    ensures Known(regions, id) <==> FirstRegion(regions, id).Some?
  {
    LookupsInWords(regions, id);
    AsciiForms(id);
    forall i | 0 <= i < |regions| ensures Ascii(ToLower(regions[i].id)) { LowerIsAscii(regions[i].id); }
  }

  lemma LowerTwice(id: text)
    ensures Ascii(ToLower(id)) ==> ToLower(ToLower(id)) == ToLower(id)
    ensures Ascii(Folded(id)) ==> ToLower(Folded(id)) == Folded(id)
  {
  }

  /** A server list of one region on which the lookups disagree. */
  lemma DisagreeWhenAmbiguous(id: text) returns (regions: seq<Region>)
    requires Ambiguous(id)
    ensures AsciiIds(regions) && Known(regions, id) != FirstRegion(regions, id).Some?
  {
    LowerTwice(id);
    regions := [Region(if Ascii(Folded(id)) then Folded(id) else ToLower(id), [])];
    LookupsInWords(regions, id);
    LowerIsAscii(regions[0].id);
    assert Ascii(ToLower(id)) ==> ToLower(regions[0].id) == ToLower(id);
    assert Ascii(Folded(id)) ==> ToLower(regions[0].id) == Folded(id);
  }

  lemma {:induction false} SameKept(cities: seq<City>, regions: seq<Region>)
    requires AsciiIds(regions) && forall c :: c in cities ==> !Ambiguous(c.region)
    ensures KeepKnown(cities, regions) == Keep(cities, regions)
    decreases |cities|
  {
    if cities == [] {
    } else {
      var n := |cities| - 1;
      SameKept(cities[..n], regions);
      AgreeUnlessAmbiguous(regions, cities[n].region);
    }
  }

  /**
   The filter keeps exactly the cities that FindRegion finds, whatever the server list, if and only if no city's
   region is ambiguous: reads as ASCII but for a long s (which only FindRegion takes for an s) or but for a
   dotted capital I (which only the filter takes for an i).
   */
  lemma FilterAgreesIffUnambiguous(cities: seq<City>)
    ensures (forall regions: seq<Region> :: AsciiIds(regions) ==> KeepKnown(cities, regions) == Keep(cities, regions))
       <==> (forall c :: c in cities ==> !Ambiguous(c.region))
  {
    if forall c :: c in cities ==> !Ambiguous(c.region) {
      forall regions: seq<Region> | AsciiIds(regions) ensures KeepKnown(cities, regions) == Keep(cities, regions) {
        SameKept(cities, regions);
      }
    } else {
      var c :| c in cities && Ambiguous(c.region);
      var regions := DisagreeWhenAmbiguous(c.region);
      assert c in KeepKnown(cities, regions) <==> c !in Keep(cities, regions);
    }
  }

  // ---------- the preferred server ----------

  predicate Matches(pref: Endpoint, s: Endpoint)
  {
    if pref.cn != [] then EqualFold(s.cn, pref.cn) else s.ip == pref.ip
  }

  /** The first server that matches the preference, or none where there is no preference or no match. */
  predicate IsPreferred(pref: Endpoint, region: Region, r: Option<nat>)
  {
    match r
    case Some(k) =>
      && (pref.cn != [] || pref.ip != []) && k < |region.servers| && Matches(pref, region.servers[k])
      && forall j :: 0 <= j < k ==> !Matches(pref, region.servers[j])
    case None =>
      (pref.cn == [] && pref.ip == []) || forall j :: 0 <= j < |region.servers| ==> !Matches(pref, region.servers[j])
  }

  method PreferredServerInRegion(pref: Endpoint, region: Region) returns (r: Option<nat>)
    ensures IsPreferred(pref, region, r)
  {
    if pref.cn == [] && pref.ip == [] { return None; }
    for i := 0 to |region.servers|
      invariant forall j :: 0 <= j < i ==> !Matches(pref, region.servers[j])
    {
      var s := region.servers[i];
      if pref.cn != [] && EqualFold(s.cn, pref.cn) { return Some(i); }
      if pref.cn == [] && s.ip == pref.ip { return Some(i); }
    }
    return None;
  }

  // ---------- the client ----------

  /** The region cache after one call of Regions, with what the server would answer. */
  function AfterRegions(cache: Option<seq<Region>>, reply: Result<seq<Region>, Error>): Option<seq<Region>>
  {
    if cache.Some? then cache else if reply.Ok? then Some(reply.value) else None
  }

  function AfterCalls(cache: Option<seq<Region>>, replies: seq<Result<seq<Region>, Error>>): Option<seq<Region>>
    decreases |replies|
  {
    if replies == [] then cache
    else AfterRegions(AfterCalls(cache, replies[..|replies| - 1]), replies[|replies| - 1])
  }

  lemma {:induction false} RegionsStay(regions: seq<Region>, replies: seq<Result<seq<Region>, Error>>)
    ensures AfterCalls(Some(regions), replies) == Some(regions)
    decreases |replies|
  {
    if replies == [] {
    } else {
      RegionsStay(regions, replies[..|replies| - 1]);
    }
  }

  /**
   Once the program has started a tunnel for a city, no later attempt fails at the region lookup, whatever the
   server list endpoint would answer by then, unless the city's region holds a dotted capital I; then all do.
   */
  lemma StartedTunnelsFindTheirRegion(
      cities: seq<City>, regions: seq<Region>, city: City, replies: seq<Result<seq<Region>, Error>>)
    requires AsciiIds(regions) && city in KeepKnown(cities, regions)
    ensures AfterCalls(Some(regions), replies) == Some(regions)
    ensures FirstRegion(AfterCalls(Some(regions), replies).value, city.region).Some? <==> DOTTED_I !in city.region
  {
    RegionsStay(regions, replies);
    var i :| 0 <= i < |regions| && ToLower(regions[i].id) == ToLower(city.region);
    LowerIsAscii(regions[i].id);
    AsciiForms(city.region);
    LookupsInWords(regions, city.region);
    forall j | 0 <= j < |regions| ensures Ascii(ToLower(regions[j].id)) { LowerIsAscii(regions[j].id); }
  }

  // ---------- the session path ----------

  /** What the network answers to one attempt: the request to /token, if there is one, and addKey. */
  datatype Attempt = Attempt(token: Result<string, Error>, addKey: Option<Error>)

  /** The steps of the token cache for one attempt of a tunnel that nobody disturbs. */
  function Undisturbed(token: string, a: Attempt): T.Cache
  {
    var asked := T.Next(T.Cache(token, None, [T.WantingToken], []), T.Acquire(0));
    var got := T.Next(asked, match a.token case Ok(t) => T.FetchReply(0, t) case Err(e) => T.FetchFails(0, e));
    var tried := T.Next(got, match a.addKey case None => T.AddKeyOK(0) case Some(e) => T.AddKeyFails(0, e));
    T.Next(tried, T.Invalidate(0))
  }

  lemma UndisturbedSession(token: string, a: Attempt)
    ensures var presented :=
        if token != "" then [token] else if a.token.Ok? && a.token.value != "" then [a.token.value] else [];
      var kept := if presented == [] || (a.addKey.Some? && IsAuthError(a.addKey.value)) then "" else presented[0];
      Undisturbed(token, a) == T.Cache(kept, None, [T.Idle], presented)
  {
  }

  predicate Succeeds(token: string, a: Attempt) { Undisturbed(token, a).presented != [] && a.addKey.None? }

  /** The error of an attempt: that of /token where it is asked and gives no token, otherwise that of addKey. */
  function SessionErr(token: string, a: Attempt): (err: Option<Error>)
    ensures err.None? <==> Succeeds(token, a)
  {
    UndisturbedSession(token, a);
    if token != "" || (a.token.Ok? && a.token.value != "") then a.addKey
    else Some(if a.token.Err? then a.token.error else Plain)
  }

  /** The error of a registration: of the last attempt that it makes, or of finding no server for one. */
  function RegisterErr(token: string, preferred: bool, servers: bool, first: Attempt, second: Attempt): Option<Error>
  {
    if preferred && Succeeds(token, first) then None
    else if !servers then Some(Plain)
    else SessionErr(if preferred then Undisturbed(token, first).token else token, second)
  }

  class Client {
    var token: string
    var tokenAcquiredAt: Option<int>
    var regions: Option<seq<Region>>

    constructor ()
      ensures token == "" && tokenAcquiredAt == None && regions == None
    {
      token, tokenAcquiredAt, regions := "", None, None;
    }

    /** The region list: the cached one, or the answer of the one request that this call makes. */
    method Regions(reply: Result<seq<Region>, Error>) returns (r: Result<seq<Region>, Error>)
      modifies this`regions
      ensures regions == AfterRegions(old(regions), reply)
      ensures r == if regions.Some? then Ok(regions.value) else reply
    {
      if regions.Some? { return Ok(regions.value); }
      if reply.Ok? { regions := Some(reply.value); }
      return reply;
    }

    method FindRegion(id: text, reply: Result<seq<Region>, Error>) returns (r: Result<Region, Error>)
      modifies this`regions
      ensures regions == AfterRegions(old(regions), reply)
      ensures r.Ok? <==> regions.Some? && FirstRegion(regions.value, id).Some?
      ensures r.Ok? ==> r.value == regions.value[FirstRegion(regions.value, id).value]
    {
      var list := Regions(reply);
      if list.Err? { return Err(list.error); }
      var k := ScanRegions(list.value, id);
      if k.Some? { return Ok(list.value[k.value]); }
      return Err(Plain);
    }

    /** Token: the cached one, or a fetched one that is not empty; nothing is stored on failure. */
    method Token(reply: Result<string, Error>, now: int) returns (r: Result<string, Error>)
      modifies this`token, this`tokenAcquiredAt
      ensures old(token) != "" ==> r == Ok(old(token)) && tokenAcquiredAt == old(tokenAcquiredAt)
      ensures old(token) == "" && reply.Ok? && reply.value != "" ==> r == reply && tokenAcquiredAt == Some(now)
      ensures old(token) == "" && (reply.Err? || reply.value == "") ==>
        r == (if reply.Err? then reply else Err(Plain)) && tokenAcquiredAt == old(tokenAcquiredAt)
      ensures token == if r.Ok? then r.value else old(token)
    {
      if token != "" { return Ok(token); }
      if reply.Err? { return reply; }
      if reply.value == "" { return Err(Plain); }
      token, tokenAcquiredAt := reply.value, Some(now);
      return Ok(token);
    }

    method SetToken(t: string, acquiredAt: Option<int>)
      modifies this`token, this`tokenAcquiredAt
      ensures token == t && tokenAcquiredAt == acquiredAt
    {
      token, tokenAcquiredAt := t, acquiredAt;
    }

    method InvalidateToken()
      modifies this`token, this`tokenAcquiredAt
      ensures token == "" && tokenAcquiredAt == None
    {
      token, tokenAcquiredAt := "", None;
    }

    /** A session attempt, which takes exactly the steps of the token cache: it presents the cached token or
        the fetched one, and drops the token exactly when addKey rejects it. */
    method NewSessionWithServer(a: Attempt, now: int) returns (presented: Option<string>, err: Option<Error>)
      modifies this`token, this`tokenAcquiredAt
      ensures presented.Some? <==> old(token) != "" || (a.token.Ok? && a.token.value != "")
      ensures presented.Some? ==> presented.value == if old(token) != "" then old(token) else a.token.value
      ensures presented.Some? ==> err == a.addKey
      ensures presented.None? ==> err == Some(if a.token.Err? then a.token.error else Plain)
      ensures err == SessionErr(old(token), a)
      ensures Undisturbed(old(token), a)
           == T.Cache(token, None, [T.Idle], if presented.Some? then [presented.value] else [])
      ensures tokenAcquiredAt == if presented.None? || (old(token) != "" && token != "") then old(tokenAcquiredAt)
                                 else if token == "" then None else Some(now)
    {
      UndisturbedSession(token, a);
      var t := Token(a.token, now);
      if t.Err? { return None, Some(t.error); }
      if a.addKey.Some? && IsAuthError(a.addKey.value) {
        InvalidateToken();
      }
      return Some(t.value), a.addKey;
    }

    /** A session with the picked server of a region that has one. */
    method NewSession(region: Region, a: Attempt, now: int) returns (err: Option<Error>)
      modifies this`token, this`tokenAcquiredAt
      ensures err == if region.servers == [] then Some(Plain) else SessionErr(old(token), a)
      ensures token == if region.servers == [] then old(token) else Undisturbed(old(token), a).token
    {
      if |region.servers| == 0 { return Some(Plain); }
      var _, e := NewSessionWithServer(a, now);
      return e;
    }
  }

  /**
   The registration of runOnce: the preferred server first, if the region offers it, and one random pick at once
   after any failure of that attempt, a 401 or 429 included.  The servers tried are given in order.
   */
  method Register(client: Client, pref: Endpoint, region: Region, pick: nat, first: Attempt, second: Attempt, now: int)
    returns (err: Option<Error>, preferred: Option<nat>, tried: seq<nat>)
    requires region.servers != [] ==> pick < |region.servers|
    modifies client`token, client`tokenAcquiredAt
    ensures IsPreferred(pref, region, preferred)
    ensures var before := old(client.token);
      var again := preferred.None? || !Succeeds(before, first);
      var between := if preferred.Some? then Undisturbed(before, first).token else before;
      && tried == (if preferred.Some? then [preferred.value] else [])
                + (if again && region.servers != [] then [pick] else [])
      && err == (if !again then None else if region.servers == [] then Some(Plain) else SessionErr(between, second))
      && err == RegisterErr(before, preferred.Some?, region.servers != [], first, second)
      && client.token == if again && region.servers != [] then Undisturbed(between, second).token else between
  {
    tried := [];
    preferred := PreferredServerInRegion(pref, region);
    if preferred.Some? {
      var _, e := client.NewSessionWithServer(first, now);
      tried := [preferred.value];
      if e.None? { return None, preferred, tried; }
    }
    if |region.servers| > 0 { tried := tried + [pick]; }
    err := client.NewSession(region, second, now);
  }

  // ---------- what a failed registration costs ----------

  /** An attempt ends with a 429: of /token where that is asked and fails, otherwise of addKey. */
  predicate RateLimited(token: string, a: Attempt)
  {
    if token == "" && a.token.Err? then AsRateLimit(a.token.error).Some?
    else (token != "" || a.token.value != "") && a.addKey.Some? && AsRateLimit(a.addKey.value).Some?
  }

  /**
   A failed registration costs the long cooldown exactly when the last session it tried ended with a 429, and then
   it also resets the backoff; any other failure costs the ordinary backoff.
   */
  lemma CooldownIffLastRateLimited(backoff: int, token: string, preferred: bool, servers: bool,
                                   first: Attempt, second: Attempt)
    requires Reachable(backoff) && RegisterErr(token, preferred, servers, first, second).Some?
    ensures var e := FailedRegistration(RegisterErr(token, preferred, servers, first, second).value);
      var between := if preferred then Undisturbed(token, first).token else token;
      && (Delay(backoff, e) >= FLOOR <==> servers && RateLimited(between, second))
      && (Delay(backoff, e) == backoff <==> !(servers && RateLimited(between, second)))
      && (servers && RateLimited(between, second) ==> NextBackoff(backoff, e) == FIRST)
  {
  }

  /** One wrap chain ends in one cause, so it holds no 429 and 401 at once. */
  lemma {:induction false} RateLimitIsNoRejection(e: Error)
    requires AsRateLimit(e).Some?
    ensures !IsAuthError(e)
  {
    if e.Wrap? {
      RateLimitIsNoRejection(e.inner);
    }
  }

  /** So a 429 of the preferred server, which leaves the token as it is, costs only the ordinary backoff when the
      pick after it fails in any other way. */
  lemma PreferredRateLimitForgotten(backoff: int, token: string, first: Attempt, second: Attempt)
    requires Reachable(backoff) && RateLimited(token, first)
    requires var between := Undisturbed(token, first).token; !Succeeds(between, second) && !RateLimited(between, second)
    ensures var err := RegisterErr(token, true, true, first, second);
      err.Some? && Delay(backoff, FailedRegistration(err.value)) == backoff
    ensures token != "" ==> Undisturbed(token, first).token == token
  {
    UndisturbedSession(token, first);
    if token != "" { RateLimitIsNoRejection(first.addKey.value); }
  }
}
