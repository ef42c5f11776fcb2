/**
 The byte relay of Conn.handleTCP: two copy loops run concurrently, each through a countWriter that
 adds to a 64-bit counter after every write, and the handler returns when either loop has ended.
 A run is any interleaving of the loops' reads, writes and counter additions.
 */
module TcpRelay {
  import opened Prelude
  import opened SocksSession

  /** Where a copy loop is: about to read, holding a chunk, about to add n to its counter, or done.
      A loop ends cleanly when its source ended and every byte it had read was accepted. */
  datatype CopyPC = Reading | Writing(chunk: bytes) | Counting(n: nat, stop: bool) | Ended(clean: bool)

  datatype Copy = Copy(source: bytes, sink: bytes, pc: CopyPC, count: u64)

  datatype CopyStep =
    | Deliver(n: nat)                // a read returns n bytes
    | SourceEnds                     // a read reports the end of the stream or an error
    | Accept(n: nat, failed: bool)   // a write accepts n bytes and may report an error
    | AddCount                       // countWriter.Write adds what was accepted

  function CopyNext(c: Copy, step: CopyStep): Copy
  {
    match (c.pc, step)
    case (Reading, Deliver(n)) =>
      if 0 < n <= |c.source| then c.(pc := Writing(c.source[..n]), source := c.source[n..]) else c
    case (Reading, SourceEnds) => c.(pc := Ended(true))
    case (Writing(chunk), Accept(n, failed)) =>
      if n <= |chunk| then c.(sink := c.sink + chunk[..n], pc := Counting(n, failed || n < |chunk|)) else c
    case (Counting(n, stop), AddCount) =>
      c.(count := (c.count + n) % TWO64, pc := if stop then Ended(false) else Reading)
    case _ => c
  }

  /** countWriter: every write is passed on and its accepted bytes are added to the counter. */
  class CountWriter {
    var sink: bytes  // what the wrapped writer has accepted
    var n: u64       // the 64-bit counter of the connection

    constructor ()
      ensures sink == [] && n == 0
    {
      sink, n := [], 0;
    }

    /** One write that the wrapped writer accepts in part or in full, with or without an error. */
    method Write(p: bytes, accepted: nat, failed: bool) returns (written: nat, err: bool)
      requires accepted <= |p|
      modifies this
      ensures written == accepted && err == failed
      ensures sink == old(sink) + p[..accepted] && n == (old(n) + accepted) % TWO64
      ensures forall source ::
        var c := CopyNext(CopyNext(Copy(source, old(sink), Writing(p), old(n)), Accept(accepted, failed)), AddCount);
        c.sink == sink && c.count == n
    {
      sink := sink + p[..accepted];
      if accepted > 0 { n := (n + accepted) % TWO64; }
      return accepted, failed;
    }
  }

  datatype Relay = Relay(up: Copy, down: Copy, returned: bool)

  datatype Step = Up(step: CopyStep) | Down(step: CopyStep) | Return

  function Next(r: Relay, step: Step): Relay
  {
    match step
    case Up(s) => r.(up := CopyNext(r.up, s))
    case Down(s) => r.(down := CopyNext(r.down, s))
    case Return => if r.up.pc.Ended? || r.down.pc.Ended? then r.(returned := true) else r
  }

  function Run(r: Relay, steps: seq<Step>): Relay
    decreases |steps|
  {
    if steps == [] then r else Next(Run(r, steps[..|steps| - 1]), steps[|steps| - 1])
  }

  function Start(fromClient: bytes, fromTarget: bytes): Relay
  {
    Relay(Copy(fromClient, [], Reading, 0), Copy(fromTarget, [], Reading, 0), false)
  }

  /** Nothing is reordered, invented or counted twice on the way from origin to the sink. */
  predicate CopyInv(c: Copy, origin: bytes)
  {
    && IsPrefix(c.sink, origin)
    && match c.pc
       case Reading => c.sink + c.source == origin && c.count == |c.sink| % TWO64
       case Writing(chunk) => c.sink + chunk + c.source == origin && c.count == |c.sink| % TWO64
       case Counting(n, stop) => (c.count + n) % TWO64 == |c.sink| % TWO64 && (!stop ==> c.sink + c.source == origin)
       case Ended(clean) => c.count == |c.sink| % TWO64 && (clean ==> c.sink + c.source == origin)
  }

  lemma {:induction false} ModuloShift(x: nat, k: nat)
    ensures (x + TWO64 * k) % TWO64 == x % TWO64
  {
    if k == 0 {
    } else {
      ModuloShift(x, k - 1);
      assert x + TWO64 * k == (x + TWO64 * (k - 1)) + TWO64;
    }
  }

  lemma AddModulo(a: nat, n: nat)
    ensures (a % TWO64 + n) % TWO64 == (a + n) % TWO64
  {
    assert a == TWO64 * (a / TWO64) + a % TWO64;
    ModuloShift(a % TWO64 + n, a / TWO64);
  }

  lemma CopyStepKeepsInv(c: Copy, step: CopyStep, origin: bytes)
    requires CopyInv(c, origin)
    ensures CopyInv(CopyNext(c, step), origin)
  {
    var c' := CopyNext(c, step);
    match (c.pc, step)
    case (Reading, Deliver(n)) =>
      if 0 < n <= |c.source| { assert c.sink + c.source[..n] + c.source[n..] == c.sink + c.source; }
    case (Writing(chunk), Accept(n, failed)) =>
      if n <= |chunk| {
        assert origin[..|c.sink| + n] == c.sink + chunk[..n];
        if n == |chunk| { assert chunk[..n] == chunk; }
        AddModulo(|c.sink|, n);
      }
    case _ =>
  }

  lemma {:induction false} RunKeepsInv(fromClient: bytes, fromTarget: bytes, steps: seq<Step>)
    ensures var r := Run(Start(fromClient, fromTarget), steps);
      CopyInv(r.up, fromClient) && CopyInv(r.down, fromTarget)
      && (r.returned ==> r.up.pc.Ended? || r.down.pc.Ended?)
  {
    if steps == [] {
    } else {
      var before := steps[..|steps| - 1];
      RunKeepsInv(fromClient, fromTarget, before);
      var r := Run(Start(fromClient, fromTarget), before);
      match steps[|steps| - 1]
      case Up(s) => CopyStepKeepsInv(r.up, s, fromClient);
      case Down(s) => CopyStepKeepsInv(r.down, s, fromTarget);
      case Return =>
    }
  }

  /**
   A whole connection: for every opening, every interleaving of the two loops and every way the peers
   cut, delay or refuse bytes, the target receives a prefix of exactly what follows the opening and the
   client a prefix of what the target sends; a counter off its loop equals the bytes written, modulo
   2^64; and a loop that ended cleanly with its source drained delivered everything.
   */
  lemma SessionThenRelay(cfg: Config, input: bytes, world: World, fromTarget: bytes, steps: seq<Step>)
    requires Session(cfg, input, world).stage == Relaying
    ensures var rest := Session(cfg, input, world).rest;
      var r := Run(Start(rest, fromTarget), steps);
      && (exists opening, target :: IsOpening(cfg, CONNECT, opening, target) && input == opening + rest)
      && IsPrefix(r.up.sink, rest) && IsPrefix(r.down.sink, fromTarget)
      && (!r.up.pc.Counting? ==> r.up.count == |r.up.sink| % TWO64)
      && (!r.down.pc.Counting? ==> r.down.count == |r.down.sink| % TWO64)
      && (r.up.pc == Ended(true) && r.up.source == [] ==> r.up.sink == rest)
      && (r.down.pc == Ended(true) && r.down.source == [] ==> r.down.sink == fromTarget)
  {
    var o := Session(cfg, input, world);
    SessionByHandshake(cfg, input, world);
    DialsExactlyOnOpening(cfg, input, world, o.dialled.value, o.rest);
    RunKeepsInv(o.rest, fromTarget, steps);
  }
}
