# piaproxy in Dafny

piaproxy runs one userspace WireGuard tunnel per city.  Each tunnel has its own SOCKS5 listener, and all
tunnels share one client of the PIA API.  This project models the logic around the network calls and proves
what that logic keeps: the SOCKS5 byte protocol, the UDP association, the tunnel's life cycle, the retry
schedule, the shared token cache, the listener's generations, and how proxy.go puts tunnel and listener
together.  `dafny verify dfyconfig.toml` checks everything.

## How the model is built

| file | models |
|---|---|
| `AddressText.dfy` | the text of IP addresses (dotted decimal; RFC 5952 section 4 printing, RFC 4291 section 2.2 reading) and of host:port |
| `AddressLaws.dfy` | the same texts without the functions that make them: numerals by place value, dotted decimal, RFC 5952 shape, and the reader of net.SplitHostPort |
| `SocksWire.dfy` | address, UDP header and reply formats of socks5.go on flat bytes |
| `SocksSession.dfy` | the dialogue of `Conn.Run` as a function of the flat byte stream, and the grammar of the streams it accepts |
| `SocksConn.dfy` | the imperative side: `Read`, `io.ReadFull` into arrays, the parsers, `Conn.Run`, each proved against the two files above |
| `SocksLaws.dfy` | the protocol on the bytes themselves, with the numbers of RFC 1928 and RFC 1929: who is served, what is dialled, every reply, every refusal |
| `TcpRelay.dfy` | the two copy loops of `handleTCP` with their counters |
| `RelayLaws.dfy` | when a copy loop ends, that it goes on until then, and when the relay returns |
| `UdpAssociation.dfy`, `UdpDelivery.dfy` | the loops of `transferUDP` interleaved; what whole runs of them deliver |
| `UdpLaws.dfy` | one round of each UDP loop for every answer of the network, when a loop ends, and that its closing can be finished |
| `UdpHandlers.dfy` | the handlers over the mutable dial cache |
| `RetrySchedule.dfy` | the backoff and cooldown of `Tunnel.Run`, Retry-After, error wrap chains |
| `RetryLaws.dfy` | Retry-After byte by byte, and the delays in seconds |
| `TunnelFields.dfy` | the fields under the tunnel's mutex, each critical section as a function on them, and the class that follows those functions |
| `TunnelMachine.dfy` | `Run`, `runOnce`, both loops, concurrent Snapshots and cancellation, interleaved |
| `TunnelSchedule.dfy` | that machine on a clock, with the backoff and the errors of `Run`: its attempts are a timeline of the schedule |
| `TunnelLaws.dfy`, `TunnelRounds.dfy` | runs of the tunnel told by what its calls answered: when a session is shown, what a failed call leads to, one round of everything, and that a cancelled tunnel can return |
| `SessionTicks.dfy` | a published session of that machine as its ticks, and the rates in every reachable state |
| `TransferRates.dfy` | the smoothed rates of the stats loop |
| `TokenCache.dfy`, `PiaClient.dfy` | N tunnels on one token cache; the client's methods, region lookup and region filter |
| `TokenLaws.dfy`, `PiaLaws.dfy` | one session on the token cache for every answer, and the lookups letter by letter |
| `ListenerGenerations.dfy` | concurrent Start and Stop calls of a `SocksListener` |
| `ListenerLaws.dfy` | a Start and a Stop from their first step to their last, the connections of a socket, and that every call can return |
| `ProxyComposition.dfy` | `Proxy.Run` over the tunnel machine and the listener machine |
| `ProxyLaws.dfy` | how long the proxy waits and serves, and that a cancelled proxy can return |

Code that runs alone is imperative: classes with the source's fields, arrays for its buffers, loops where it
has loops.  Code that runs concurrently is a state machine: a critical section, an atomic operation or one
environment event is one step, a run is any finite sequence of steps, and a step that is not enabled changes
nothing.  What the token cache and the UDP association did in a run is read off the steps of the run.  Where the
program has an object behind a machine, its class is proved to take the machine's steps: the tunnel and the
listener follow the functions that are their critical sections, and a UDP handler or a token session that nobody
disturbs takes exactly the steps of its machine.  What the network answers (bytes and how they are cut, dial
results, HTTP outcomes, clock readings) is a parameter.

The files named Laws and Rounds say what the model does a second time, without its functions: on raw bytes, in plain
numbers, by the events among the steps of a run, or by one whole round from what the calls answer to the new state.

Where comments or documentation differ from the code, the model follows the code: a failed dial is answered
with general failure; FRAG, and the version and reserved bytes of a request, are not checked; either credential
turns authentication on; a reply whose bind address cannot be encoded becomes a general failure although the
relay starts; a fresh handshake ends a Degraded state that a failed probe began; every failure of the preferred
server, 429 included, is followed at once by a second pick; the relay ends when either direction ends; a
UDP datagram longer than 8192 bytes loses its end in either direction; after the parent context ends a listener
still counts as started although its socket is closed; a tunnel whose token was rejected may drop a newer one
or one set meanwhile; and
a city whose region is written with a long s or a dotted capital I is treated differently by the region filter and
by the region lookup.  For each of the last four there is the exact condition below.

## Model

| member | source | states |
|---|---|---|
| AddressText.LongestRunIsLongest | socks5.go:702 | the run of zero groups shortened in IPv6 text is the longest of at least two, the first on a tie (RFC 5952 section 4.2) |
| AddressText.IPv6ReadsBack | socks5.go:696-702 | every 16-byte address that is printed as IPv6 text is read back from it, with or without "::" |
| AddressText.IPStringReadsBack | socks5.go:676-702 | every 4- or 16-byte address is read back from its text; an IPv4-mapped one goes through dotted decimal and comes back mapped |
| AddressText.IPStringInjective | socks5.go:676-702 | two addresses of one size have the same text iff they are the same |
| AddressText.HostPortInjective | socks5.go:749-751 | two hosts of arbitrary bytes and two ports have the same dial string iff they are the same |
| AddressLaws.HostPortForm | socks5.go:749-751 | the dial string is the host, in brackets iff it holds a colon, then a colon, then the port as a decimal numeral without leading zeros, its value taken by place value |
| AddressLaws.HostPortSplits | socks5.go:749-751 | net.SplitHostPort reads exactly the host and that numeral back from the dial string, for every host without brackets |
| AddressLaws.IPStringForms | socks5.go:676-702 | what is printed: an IPv4 or IPv4-mapped address as four dotted decimal octets, any other by RFC 5952, with the first longest run of two or more zero groups shortened |
| AddressLaws.IPv6IsRFC5952 | socks5.go:702 | the IPv6 text: lower-case hexadecimal groups without leading zeros, and "::" for exactly the run that RFC 5952 section 4.2 names |
| AddressLaws.ParseIPOfDotted | socks5.go:624-632 | a text without a colon reads as an address iff it is four decimal octets without leading zeros, joined by dots |
| AddressLaws.ParseIPOfColons | socks5.go:624-632 | a text with a colon reads as an address iff it is eight groups of one to four hexadecimal digits, fewer around one "::", the last two perhaps in dotted decimal |
| SocksWire.ParseThenMarshal | socks5.go:666-747 | marshalling a parsed address gives exactly the bytes the parser consumed, and the address is canonical |
| SocksWire.MarshalThenParse | socks5.go:666-747 | any marshalled address parses to its canonical form and leaves any suffix unread |
| SocksWire.CanonIsCanonical | socks5.go:719-747 | canonicalising is idempotent and does not change the bytes sent |
| SocksWire.ParseAcceptsWireForms | socks5.go:666-717 | the parser accepts exactly the streams that begin with a well-formed address (RFC 1928 section 5) |
| SocksWire.WireBijection | socks5.go:666-747 | canonical addresses and well-formed wire addresses correspond one to one |
| SocksWire.SameKeyIffSameBytes | socks5.go:459-467 | two wire addresses share a dial-cache key iff their bytes agree |
| SocksWire.UdpParseThenMarshal | socks5.go:796-830 | an accepted datagram is its marshalled header followed by its body, byte for byte |
| SocksWire.UdpMarshalThenParse | socks5.go:796-830 | a marshalled header with any body appended parses to that header and that body |
| SocksWire.ReplyMarshalsIff | socks5.go:324-336 | a reply with the address type chosen for a host marshals iff the host is an IP literal or at most 255 bytes long |
| SocksWire.ResponseReadsBack | socks5.go:772-784 | every marshalled reply decodes to its code and its canonical bind address |
| SocksWire.ErrorResponseMarshals | socks5.go:664-784 | errorResponse always marshals, to ten known bytes |
| SocksLaws.AddressOnTheWire | socks5.go:666-717 | an address is read iff the stream begins with type 1 and four bytes, type 3, a length and a name, or type 4 and sixteen bytes, and a port; and what is read is those bytes |
| SocksLaws.DatagramOnTheWire | socks5.go:796-816 | a datagram is read iff it begins with two zero bytes, a fragment number and such an address; the rest is its body |
| SocksLaws.ReplyHeader | socks5.go:526-534 | the header put before the bytes of a target is three zero bytes and the address as it came |
| SocksSession.RequestReachedExactlyByOpening | socks5.go:249-297 | a request reaches its handler iff the stream begins with an acceptable greeting, the required credentials and that request, and the handler is left exactly what follows |
| SocksSession.DialsExactlyOnOpening | socks5.go:249-308 | the server dials iff the stream begins with such an opening of a CONNECT; the target is the request's, and not one byte past the request is consumed |
| SocksSession.OpeningUnique | socks5.go:249-297 | a stream has at most one opening: command, target and payload are determined |
| SocksSession.SuccessExactlyWhenServed | socks5.go:249-404 | the client hears a success iff the connection or the association was made and the address of the serving socket can be encoded |
| SocksSession.SuccessOnlyWhenServed | socks5.go:249-404 | a reply that decodes to success is the last one of a served request |
| SocksSession.BindReplyDecodes | socks5.go:318-337 | the client decodes success with the canonical bind address, or a general failure exactly when that address cannot be encoded |
| SocksSession.ErrorPacketDecodes | socks5.go:765-784 | every error packet is the marshalled errorResponse and decodes to its code |
| SocksLaws.LoginIff | socks5.go:249-274 | a request handler is reached iff the client has sent a version-5 greeting with method 0, where neither credential is set, or with method 2 and then both configured credentials, where either is; and it is left what follows |
| SocksLaws.DialsExactlyForLoggedIn | socks5.go:249-337 | the server dials iff the stream is such a login, a request with command 1, and the rest that stays unread; the dialled text is the host and the decimal port of that request; it relays iff the target answers from a usable address |
| SocksLaws.AssociatesExactlyForLoggedIn | socks5.go:249-404 | the same for command 3 and the association |
| SocksLaws.RepliesByteForByte | socks5.go:249-404 | every reply to every stream, byte for byte: 05 FF; or 05 02, 01 01; or the login's replies and then a general failure or the answer to the request |
| SocksLaws.BindReplyBytes | socks5.go:318-337 | the success reply: type 1 and four bytes for an IPv4 or IPv4-mapped literal, type 4 and sixteen for another one, type 3 and the name otherwise, and a general failure for a name over 255 bytes |
| SocksLaws.StagesOfRequests | socks5.go:276-404 | what becomes of a request by its command and by what the network does, and what stays unread |
| SocksLaws.GreetingsRefused | socks5.go:576-597 | which greetings are refused, with which error, and what is left unread |
| SocksLaws.CredentialsParse | socks5.go:599-622 | which credentials are refused or read, with which error, and what is left unread |
| SocksLaws.AddressesRefused | socks5.go:666-717 | which addresses are refused, with which error, and what is left unread |
| SocksLaws.LoginRefusal | socks5.go:599-622 | a client whose credentials cannot be read or are not the configured ones is not served, and reading stops there |
| SocksConn.ClientConn.Read | socks5.go:578-587 | one read delivers any part of what is unread, in order, possibly nothing |
| SocksConn.ReadFull | socks5.go:578-587 | fills the buffer with the next bytes iff the stream has them, for every way the stream is cut |
| SocksConn.ParseClientGreeting | socks5.go:576-597 | decides the greeting as the flat decoder does and leaves the same bytes unread |
| SocksConn.ParseClientAuth | socks5.go:599-622 | reads the credentials as the flat decoder does (RFC 1929 section 2) |
| SocksConn.ParseSocksAddr | socks5.go:666-717 | reads an address as the flat decoder does, with the same errors |
| SocksConn.ParseClientRequest | socks5.go:643-656 | reads a request as the flat decoder does |
| SocksConn.Conn.HandleTCPConn | socks5.go:299-337 | sets destination and method, dials it, and answers as the session function says |
| SocksConn.Conn.HandleUDPConn | socks5.go:359-404 | sets destination and method and answers as the session function says |
| SocksConn.Conn.HandleClientRequest | socks5.go:276-297 | dispatches on the command and answers unsupported and malformed requests |
| SocksConn.Conn.Run | socks5.go:249-274 | replies, dial decision, outcome and unread bytes equal those of the session function on the flat stream |
| TcpRelay.CountWriter.Write | socks5.go:240-246 | passes a write on and adds exactly the accepted bytes to the 64-bit counter |
| TcpRelay.SessionThenRelay | socks5.go:299-357 | the target receives a prefix of exactly what follows the opening, the client a prefix of what the target sends, in every interleaving; counters equal the bytes written modulo 2^64; a cleanly drained direction is complete |
| RelayLaws.LoopsEndExactlyOnEvent | socks5.go:340-356 | in every interleaving each copy loop has ended cleanly iff one of its reads ended, and has ended with an error, or will once that write is counted, iff one of its writes failed or was short |
| RelayLaws.LoopsGoOn | socks5.go:340-356 | so while no read ends and every write is whole, neither loop ends |
| RelayLaws.LoopsAreIndependent | socks5.go:340-356 | each direction does in the relay what it does alone, also after the relay has returned |
| RelayLaws.OneRound | socks5.go:240-246 | one read and one write of a loop: the chunk moves to the sink, the counter grows by it, and the loop reads again iff the write was whole |
| RelayLaws.CanDeliverRest | socks5.go:340-356 | from every point of a loop all that its source still holds can be delivered and the loop can then end cleanly |
| RelayLaws.ReturnedIffEitherEnded | socks5.go:356 | the relay has returned iff it returned at a step at which either loop had ended |
| UdpAssociation.StepKeepsInv | socks5.go:409-553 | every step of any loop keeps the cache inverse to the list of connections, the close counts and the history |
| UdpDelivery.BufferCutsBodies | socks5.go:499-507 | the 8 KB buffer changes neither which datagrams are accepted nor their headers, and leaves a body whole iff the datagram fits |
| UdpDelivery.ForwardsGoToTheirTarget | socks5.go:494-524 | every datagram sent on is one that the client sent, and went to the connection dialled for exactly the address in its header; a whole write carries the body unchanged iff the datagram fits the buffer, and every write carries a front of it |
| UdpDelivery.ForwardsAreArrivals | socks5.go:428-439 | conservation: the datagrams sent on are in order and each once among those received, and every one received was sent on, is in hand, or was given up because it did not parse or its dial or write failed |
| UdpDelivery.RepliesNameTheirTarget | socks5.go:526-553 | every packet sent to the client carries a datagram that its connection delivered; a whole write parses back to that target with that datagram as body, unchanged iff it fits the buffer |
| UdpDelivery.RepliesAreDeliveries | socks5.go:472-488 | conservation for each connection: the datagrams sent back are in order and each once among those it delivered, and each of those was sent back, is in hand, or its write failed |
| UdpAssociation.ReplyGoesToLastSender | socks5.go:505-545 | a reply goes to the sender of the latest datagram received, parsable or not |
| UdpAssociation.DialledAtMostOnce | socks5.go:454-467 | no target address is dialled successfully twice |
| UdpAssociation.CacheOnlyGrows | socks5.go:454-467 | cache entries are never overwritten or removed, and the request loop never restarts |
| UdpAssociation.ClosedExactlyOnce | socks5.go:413-443 | no connection is closed twice, and all are closed once the request loop has ended |
| UdpLaws.LoopsEndExactlyOnEvent | socks5.go:413-490 | in every run: the context has ended iff the TCP connection did or the request loop finished; the request loop is over iff it checked after that or found a socket closed in a read, a dial or a write; the same for every response loop |
| UdpLaws.RequestTimesOut | socks5.go:433-435 | a read of the request loop that fails in any way but a closed socket changes nothing |
| UdpLaws.UnreadableDatagram | socks5.go:494-509 | a datagram that holds no request changes nothing but the client's address |
| UdpLaws.CachedRound | socks5.go:454-524 | a datagram for a target with a connection: its body is written there and the loop goes on; a closed socket ends it, any other error does not |
| UdpLaws.NewTargetRound | socks5.go:454-524 | a datagram for a new target: a connection is dialled to its host and port, kept with a response loop of its own, and the body is written there |
| UdpLaws.ResponseRound | socks5.go:526-553 | a datagram from a target: three zero bytes, the target's address as it came and the first 8192 bytes go to the client's latest address, and the loop goes on |
| UdpLaws.CanFinish | socks5.go:413-424 | from any point of the closing the connections that are left can be closed, each once, and then the loop ends |
| UdpHandlers.Handlers.GetOrDialTargetConn | socks5.go:454-492 | on the mutable cache: the cached connection, or a new entry, connection and response loop, as the atomic steps say |
| UdpHandlers.Handlers.HandleUDPRequest | socks5.go:494-524 | run undisturbed, takes exactly the atomic steps of a request, short and failed writes included |
| UdpHandlers.Handlers.HandleUDPResponse | socks5.go:526-553 | run undisturbed, takes exactly the atomic steps of a response, short and failed writes included |
| UdpHandlers.Handlers.CloseTargets | socks5.go:419-423 | closes every connection of the cache once more and changes nothing else |
| RetrySchedule.WrappingKeepsDelay | tunnel.go:166-167 | any number of wrappers leaves an error's rate limit, its kind and its delay as they are |
| RetrySchedule.SecondsHeader | pia.go:84-98 | a header of n seconds among spaces gives n seconds truncated to int64, and nothing beyond the int64 |
| RetrySchedule.CooldownFromHeader | pia.go:84-98 | the cooldown is at least 300 s even where the product wraps, is max(300, n) s for n up to 9223372036, and the header's value is exact iff n is at most that |
| RetrySchedule.DelayClosedForm | tunnel.go:150-181 | min(2^(k+1), 60) s after k ordinary failures since the start or the last 429; max(300 s, Retry-After) for a 429 |
| RetrySchedule.Delays | tunnel.go:150-189 | the loop over backoff sleeps exactly those delays for every history of failures |
| RetrySchedule.AttemptRateBounded | tunnel.go:149-189 | any n consecutive failures, 429s anywhere among them, cost at least 60 n - 238 s of waiting |
| RetrySchedule.AttemptRateBoundTight | tunnel.go:149-189 | five ordinary failures at the start meet that bound with equality |
| RetrySchedule.AttemptsSpreadOut | tunnel.go:149-189 | on every timeline that respects the delays, the n-th attempt after any attempt starts at least 60 n - 238 s later |
| RetryLaws.RetryAfterAsks | pia.go:84-98 | every header: blank asks for nothing, a positive signed decimal for that many seconds in an int64, anything else for the time until its date, if that lies ahead |
| RetryLaws.OrdinaryDelays | tunnel.go:150-181 | an ordinary failure after k others since the last 429 is slept on for 2, 4, 8, 16, 32 and then 60 seconds |
| RetryLaws.LimitedDelay | tunnel.go:165-172 | a 429 anywhere on the wrap chain is slept on for what it asks, and for at least 300 seconds |
| TunnelSchedule.RunsAreTimelines | tunnel.go:149-189 | the attempts of every run of the tunnel, whatever happens between its steps, respect the delays |
| TunnelSchedule.AttemptsSpreadOutInRuns | tunnel.go:149-189 | in every run of the tunnel the n-th attempt after any attempt begins at least 60 n - 238 s later |
| TunnelSchedule.SleepsTheClosedDelay | tunnel.go:165-187 | the sleep that a run goes into lasts the closed-form delay of its error after the failures before it |
| TunnelSchedule.CooldownIffRateLimited | tunnel.go:165-172 | a run goes into the long cooldown iff its attempt ended in the registration with a 429 on the wrap chain, and otherwise sleeps the ordinary backoff |
| TunnelSchedule.RunsOfTheMachine | tunnel.go:149-189 | a run on the clock is a run of the tunnel machine, so what holds of its reachable states holds there |
| TunnelSchedule.TriesAreStarts | tunnel.go:193-194 | the attempts that the tunnel counts are the attempts of the run |
| TunnelLaws.SessionOnlyAfterEveryCall | tunnel.go:193-303 | in every run a session is shown only if, since the latest attempt began, each of the seven calls (region lookup, registration, peer address, netstack, IPC text, IpcSet, Up) succeeded and none failed |
| TunnelLaws.FailedCallEndsAttempt | tunnel.go:193-286 | after a call that failed nothing is shown and no other call is made before the next attempt |
| TunnelLaws.SleepsByRegistration | tunnel.go:163-189 | the sleep a run falls into is what the 429 asks and at least 300 s if the registration of its attempt failed with one, and otherwise between 2 and 60 s |
| TunnelLaws.TimerWakes | tunnel.go:183-187 | a sleep ends by its timer exactly when its time has come, and then the loop begins again |
| TunnelRounds.AttemptFails | tunnel.go:149-286 | an attempt that fails at any of the seven calls is counted as a try and as a failure, shows an error that names the call, and has closed the device that it made |
| TunnelRounds.AttemptSucceeds | tunnel.go:193-331 | an attempt whose calls succeed shows the session with its device and no measurements, and starts both loops |
| TunnelRounds.SessionEnds | tunnel.go:309-337 | a cancelled session whose loops have ended is no longer shown, its device is closed once more, the state is Idle, no failure is counted, and Run returns |
| TunnelRounds.LoopsRunUntilCancelled | tunnel.go:327-337 | neither loop of a session ends before the context does |
| TunnelRounds.CancelledTunnelCanReturn | tunnel.go:149-189 | from every reachable state, whatever is under way, a cancelled tunnel can come to return |
| TunnelRounds.CountersCount | tunnel.go:162-461 | the counters count: a probe for each answer and the one that is out, a failed probe for each refusal noted, a failure for each sleep |
| TunnelRounds.HealthRound | tunnel.go:455-487 | a health tick counts its probe, counts it again if it failed, and shows its answer |
| TunnelRounds.StatsRound | tunnel.go:363-421 | a stats tick shows the reading that IpcGet gave, and nothing changes if it gave none |
| TunnelRounds.SnapshotRound | tunnel.go:573-594 | an undisturbed Snapshot reports exactly the four counters and changes nothing |
| TunnelRounds.SnapshotWithin | tunnel.go:573-594 | whatever else happens, each number that a Snapshot loads is one that the counter had between its beginning and now |
| TunnelRounds.FieldsHoldStill | tunnel.go:573-594 | a Snapshot sees one state: the fields under the lock stay as they are until it ends |
| TunnelFields.TicksKeepExplained | tunnel.go:407-417 | through any ticks the tunnel stays Up or Degraded, shows an error iff Degraded, and keeps its resources |
| TunnelFields.LastTickDecides | tunnel.go:407-483 | a stats tick with a handshake leaves Up iff the handshake is at most three minutes old, whatever came before; a health tick leaves Up iff the probe succeeded and the state was Up or the handshake is fresh |
| TunnelFields.TicksShow | tunnel.go:387-470 | a session shows its latest probe, its latest counters and the latest handshake that was reported, whatever ticks came in between |
| TunnelFields.TickExplains | tunnel.go:407-483 | the text that a tick leaves: none while Up, one that names the stale handshake or the failed probe where the tunnel degrades, and the old one while it stays Degraded |
| TunnelFields.Tunnel.SetTunnelState | tunnel.go:521-526 | sets state and message and nothing else |
| TunnelFields.Tunnel.SetTunnelError | tunnel.go:528-536 | sets the error, or nothing for nil |
| TunnelFields.Tunnel.PublishSession | tunnel.go:289-303 | publishes a device and resets every measurement |
| TunnelFields.Tunnel.TeardownSession | tunnel.go:309-325 | clears the resources and sets the state by the cancellation and the state before |
| TunnelFields.Tunnel.OnStats | tunnel.go:393-418 | one stats tick on the fields |
| TunnelFields.Tunnel.OnHealth | tunnel.go:467-483 | one health tick on the fields |
| TransferRates.RateIsWeightedSum | tunnel.go:393-406 | the rate is 0.4 times the sum of 0.6^(n-i) times the i-th instantaneous rate |
| TransferRates.RateWithinBounds | tunnel.go:393-406 | the rate stays between zero and the largest instantaneous rate seen |
| TransferRates.RatesAccountForBytes | tunnel.go:393-406 | the updating ticks are exactly the later ones after the first live sample, and rate times duration sums to the growth of the counter since then, less what came at ticks at which the clock had not moved |
| TransferRates.TransmitAccountsForBytes | tunnel.go:393-406 | the same account of the transmit counter |
| TransferRates.SteadyTicksMissNothing | tunnel.go:393-406 | when every tick is later than the one before, nothing is missed and every tick after the first live one updates |
| TransferRates.TransmitRate | tunnel.go:393-406 | the same closed form and bounds for the transmit rate |
| TransferRates.RatesOfTick | tunnel.go:393-406 | one tick in numbers: 0.4 of the bytes per second since the last reading and 0.6 of the old rate, where the clock has moved on and bytes had been counted |
| SessionTicks.RunningFieldsAreTicks | tunnel.go:288-487 | in every reachable state of a running tunnel the fields are what the ticks of both loops since the publication leave |
| SessionTicks.RatesInReach | tunnel.go:393-406 | in every reachable state of a running tunnel, health ticks in between or not, both rates are the weighted sums of the session's instantaneous rates and within bounds |
| SessionTicks.TotalsInReach | tunnel.go:393-406 | and rate times duration accounts for the total shown, less what came with the first live tick or while the clock stood still |
| SessionTicks.ShownInReach | tunnel.go:387-470 | in every reachable state of a running tunnel the probe, the counters and the handshake shown are those of the session's latest ticks |
| TunnelMachine.StepKeepsInv | tunnel.go:149-487 | every step of Run, either loop, a Snapshot or a cancellation keeps the tunnel's invariant |
| TunnelMachine.ResourcesFollowState | tunnel.go:288-337 | netstack, device and session are all set or all nil, and set iff Up or Degraded |
| TunnelMachine.DownAfterReturn | tunnel.go:125-189 | once Run has returned, the state is Idle, Connecting or Error and the tunnel is down for every later dial |
| TunnelMachine.TeardownNeverFails | tunnel.go:309-325 | the teardown runs only after a cancellation and from Up or Degraded, so its error branch is unreachable |
| TunnelMachine.OpenDeviceUnique | tunnel.go:272-337 | at most one device is open, none is closed twice, all are closed when Run has returned, a published one is open |
| TunnelMachine.LoopsUseTheirOpenDevice | tunnel.go:327-337 | a loop that has not ended works on the device it was given at its start, which is the published one and open |
| TunnelMachine.LoopsUseAnOpenDevice | tunnel.go:327-337 | a loop that takes a step is alive and its device is open, so none steps after its device is closed |
| TunnelMachine.TicksDecide | tunnel.go:407-483 | in every reachable state a tick of either loop decides the state by its own reading |
| TunnelMachine.SnapshotsAreConsistent | tunnel.go:573-594 | every Snapshot reports 0 <= tries - fails <= 1 and probe fails <= probes + 1 |
| TunnelMachine.SnapshotMayOverstateProbeFails | tunnel.go:455-461 | a run in which a Snapshot reports one failed probe and no probe: the bound cannot be improved |
| TunnelMachine.SnapshotBoundedBySuccesses | tunnel.go:573-594 | a Snapshot reports failed probes <= probes + 1 - the probes that had succeeded when it loaded their number; one success suffices for a consistent report |
| TunnelMachine.SnapshotMayOverstateIff | tunnel.go:455-594 | a Snapshot can report more failed probes than probes iff it loads their number before any success and while the health loop can begin a probe without the lock |
| TunnelMachine.ProbesAddUp | tunnel.go:455-461 | conservation: every probe counted has succeeded, is counted as failed, or is under way |
| TunnelMachine.CountersAreOrdered | tunnel.go:162-195 | the counters themselves never show more failed probes than probes, nor more failures than attempts |
| TunnelMachine.StatesExplainThemselves | tunnel.go:407-536 | in every reachable state Up has no error text and Degraded and Error have some |
| TokenCache.FetchesBounded | pia.go:200-213 | for any number of tunnels: the steps that fetch a token are at most one more than those that empty the cache, and never two fetches at once |
| TokenCache.EmptiedOnlyAfterRejection | pia.go:292-309 | sessions empty the cache at most once per 401 or 403 that addKey answered in the run, and only SetToken does so besides |
| TokenCache.PresentedTokensNonEmpty | pia.go:298-303 | addKey never gets an empty token |
| TokenCache.OneTokenForAll | pia.go:200-213 | without rejection or seeding all tunnels present the one token that was fetched once |
| TokenCache.TokenChangesOnly | pia.go:200-243 | the token changes only by filling an empty cache, by the invalidation of a tunnel to whose latest token addKey answered 401 or 403, or by SetToken |
| TokenCache.OtherFailuresKeepToken | pia.go:280-309 | in a run in which addKey fails with rate limits, server or network errors only, however wrapped, a cached token stays until SetToken |
| TokenCache.InvalidateMayDropNewerToken | pia.go:305-307 | for any two or more tunnels, a run in which a rejected token makes a newer one be dropped |
| TokenCache.InvalidateMayDropSetToken | pia.go:219-243 | for any one or more tunnels, a run in which a rejected token makes one that SetToken set meanwhile be dropped |
| TokenCache.RejectedTokenDroppedIffAlone | pia.go:303-309 | InvalidateToken drops only the rejected token, over all runs in which SetToken is called between attempts only, iff at most one tunnel uses the client; the same over all runs without SetToken; over all runs, iff none does |
| TokenCache.LaterTokenDroppedIffReplacedSince | pia.go:303-309 | in any run and with any number of tunnels, the dropped token was fetched or set after the rejected one was handed out iff the cache was emptied or set in between, and is the rejected one otherwise |
| TokenCache.NewerTokenDroppedIffEmptiedSince | pia.go:303-309 | the same in runs without SetToken: fetched after, iff emptied in between |
| TokenLaws.CachedSession | pia.go:200-309 | a session that finds a token presents it, asks nobody, and leaves it unless addKey answers 401 or 403 |
| TokenLaws.FetchedSession | pia.go:200-309 | a session that finds none presents the token it fetches, and caches it unless addKey answers 401 or 403 |
| TokenLaws.SessionsCanEnd | pia.go:200-309 | from every reachable state of any number of tunnels the session of each can end: none waits for the mutex for ever |
| PiaClient.FoldIsEqualLower | pia.go:192 | an ASCII id matches a text under EqualFold iff its lower case is the folded text, which for ASCII text is its lower case |
| PiaClient.FirstRegionIsFirst | pia.go:191-196 | the region found is the first with the id, and none is found iff there is none |
| PiaClient.ScanRegions | pia.go:191-196 | the scan finds that region |
| PiaClient.FilterUnknownRegions | cmd/piaproxyd/main.go:221-236 | the index built in place keeps exactly the cities whose lower-case region is that of some id, in order |
| PiaClient.FilterAgreesIffUnambiguous | cmd/piaproxyd/main.go:221-236 | the filter keeps exactly the cities that FindRegion finds, for every server list with ASCII ids, iff no city's region reads as ASCII but for a long s or but for a dotted capital I |
| PiaClient.StartedTunnelsFindTheirRegion | pia.go:171-197 | for a city that the filter kept, whatever the server list endpoint answers, every later lookup succeeds iff its region holds no dotted capital I |
| PiaLaws.FindsByLetters | pia.go:186-197 | FindRegion finds the first region whose id is the text but for the case of its letters, a Kelvin sign for k and a long s for s |
| PiaLaws.KeepsInOrder | cmd/piaproxyd/main.go:221-236 | the filter keeps, in order, the cities whose region is some id but for the case of its letters, a Kelvin sign for k and a dotted capital I for i |
| PiaLaws.FirstAnswerStays | pia.go:171-183 | after any calls the region list is the first that was answered, an empty one included, and none if every request failed |
| PiaLaws.PreferredByLetters | tunnel.go:345-360 | the preferred server is the first with the preferred name, case ignored, or, where no name is preferred, the first with the preferred address |
| PiaClient.PreferredServerInRegion | tunnel.go:345-360 | the first server that matches the preference, or none iff none is preferred or none matches |
| PiaClient.Client.Regions | pia.go:171-183 | the list is fetched until once successful and then never dropped |
| PiaClient.Client.FindRegion | pia.go:186-197 | succeeds iff the cached list has the id, with the first such region |
| PiaClient.Client.Token | pia.go:200-213 | the cached token, or a fetched non-empty one; a failed or empty fetch on an empty cache fails the call and stores nothing |
| PiaClient.Client.NewSessionWithServer | pia.go:292-321 | presents the cached token, or else the fetched one, or fails; drops it exactly when addKey rejects it; and takes exactly the steps of the token cache |
| PiaClient.Client.NewSession | pia.go:269-278 | fails with a plain error for a region without servers, and otherwise is one attempt with its error: that of /token where it is asked in vain, else that of addKey |
| PiaClient.Register | tunnel.go:216-232 | the servers tried: the preferred one if offered, then one pick iff there was none or it failed in any way; the error is that of the last attempt; and the token that is left, for cached and empty token alike |
| PiaClient.CooldownIffLastRateLimited | tunnel.go:165-232 | a failed registration costs the long cooldown iff the last session tried ended with a 429 of /token or addKey, and the ordinary backoff otherwise |
| PiaClient.PreferredRateLimitForgotten | tunnel.go:220-232 | a 429 of the preferred server costs only the ordinary backoff when the pick after it fails in another way |
| ListenerGenerations.StepKeepsInv | socks_listener.go:98-203 | every step of any call or goroutine keeps the listener's invariant and takes nothing back |
| ListenerGenerations.FieldsAgree | socks_listener.go:141-191 | the five fields are set and cleared together, and at most one generation is not taken by a Stop |
| ListenerGenerations.CancelledOnce | socks_listener.go:174-195 | a generation is cancelled by at most one Stop and never changes hands |
| ListenerGenerations.QuietAfterStop | socks_listener.go:174-203 | when the Stop that took a generation has returned, its accept loop has ended and no later connection is accepted on its socket |
| ListenerGenerations.StartedMayOutliveSocket | socks_listener.go:98-103 | a run in which a listener counts as started, Start does nothing, and no socket is open |
| ListenerGenerations.StartedSocketClosedIff | socks_listener.go:98-164 | in every reachable started state the current socket is closed iff the caller's context has ended and the closer has run, or Accept has failed and the loop has unwound |
| ListenerGenerations.StartedSocketStaysOpenIff | socks_listener.go:98-164 | while started, Start does nothing, and the socket is open and left open by its goroutines iff the caller's context is live and Accept has not failed |
| ListenerLaws.StartRound | socks_listener.go:98-168 | a Start that can bind leaves one more socket, current, open and serving; one that cannot, or finds the listener started, binds nothing |
| ListenerLaws.StopRound | socks_listener.go:174-203 | a Stop of a listener that serves cancels its generation once and returns with its socket closed, its loop ended and its connections as they were |
| ListenerLaws.AcceptedAreConnections | socks_listener.go:155-164 | the connections accepted on a socket are exactly those that arrived while its loop served and it was open |
| ListenerLaws.CallsCanReturn | socks_listener.go:98-203 | from every reachable state every Start and every Stop in progress can come to return |
| ListenerGenerations.SocksListener.Start | socks_listener.go:98-148 | the critical section of Start on the fields |
| ListenerGenerations.SocksListener.Stop | socks_listener.go:174-191 | the critical section of Stop on the fields |
| ProxyComposition.ListenerFollowsTunnel | proxy.go:141-186 | the listener is bound only after the proxy's poll has seen the tunnel out of Idle, with nothing bound before; the tunnel has then begun an attempt |
| ProxyLaws.WaitsExactlyUntilStarted | proxy.go:141-186 | in every run the proxy goes on to bind iff its poll has found the tunnel connecting, running or failed: up is not required |
| ProxyLaws.ServesOnceStarted | proxy.go:141-158 | then it serves on one open socket; if it cannot bind, it waits for the end of its context without one |
| ProxyLaws.ServesUntilCancelled | proxy.go:150-158 | it stops its listener and joins its tunnel only after its context has ended, and until then a listener that was bound stays started |
| ProxyLaws.SocketsShareContext | proxy.go:150-158 | in every reachable state the context of a socket has ended only if that of the proxy has |
| ProxyLaws.CancelledProxyCanReturn | proxy.go:121-164 | from every reachable state a cancelled proxy can come to return |
| ProxyComposition.NothingLeftBehind | proxy.go:121-164 | on return by either branch the tunnel's Run has returned, every device is closed, dials find the tunnel down, and every socket is closed with its accept loop ended |

## Left out

- SocksConn.Conn.Run: ends where bytes begin to be transferred; the transfers run concurrently and are modelled on values in TcpRelay and UdpAssociation, without aliasing of their buffers.
- TcpRelay.SessionThenRelay: io.Copy itself is Go's library; its buffer size and its shortcuts between sockets are not modelled, any non-empty chunk may be read.
- UdpDelivery.RepliesNameTheirTarget: the 8 KB buffer is the length of a read; that its memory is reused from one read to the next is not modelled.
- PiaClient.FilterAgreesIffUnambiguous: the ids of the server list are ASCII; of Unicode, lower case and folding are modelled as far as they lead into ASCII.
- PiaClient.PreferredServerInRegion: server names are compared with that same folding, which is exact when one of them is ASCII.
- PiaClient.Register: the random pick is a parameter.
- TunnelSchedule.AttemptsSpreadOutInRuns: the clock moves between steps, so the instant of a timer is a lower bound only.
- RetrySchedule.SecondsHeader: trims ASCII white space only, and takes the meaning of an HTTP date as given.
- TransferRates.RateIsWeightedSum: float64 is modelled by reals, so rounding is not captured.
- TunnelMachine.SnapshotsAreConsistent: the four counters are unbounded here; their 64-bit wrap-around is not modelled.
- TunnelMachine.LoopsUseAnOpenDevice: Run is called once per tunnel, as its documentation asks; a dial that read the netstack before a teardown may still use it afterwards.
- ProxyComposition.NothingLeftBehind: only Proxy.Run itself calls Start and Stop of its listener.
- Races of the Go memory model on `dest`, `method` and `udpClientAddr`: each access is one step and no claim is made about the race.
- Logging, and the text of errors beyond the part that names the call of runOnce, the stale handshake or the failed probe.
- HTTP, TLS, JSON and certificate handling in pia.go: a request is a step that answers a value, an authentication error, a rate limit or another error.
- Key generation, base64, hex and the IPC text: library cryptography and straight-line formatting.
- The WireGuard device, the netstack, resolvers and sockets: kept as create, up, close, dial, read and write only; the DNS override of the listener's dialer is not modelled.
- Timers and tickers: a tick is a step that may happen at any time; only lower bounds on elapsed time are proved.
- The registry of active connections and its Snapshot in socks5.go, and the address, error and connection-count queries of the listener: copies of fields.
- The field-by-field merge in Proxy.Snapshot, and everything in cmd/piaproxyd other than the region filter, including the parsing of PIA_REGIONS in buildCityList.
- SOCKS5 BIND, UDP fragmentation and reply codes that the server never sends.
