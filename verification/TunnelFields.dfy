/**
 The fields of Tunnel that its mutex guards, and each critical section of tunnel.go as a function on
 them: setState, setError, publishing a session, tearing it down, and the ticks of the stats and
 health loops.  The class at the end has these fields and is proved to follow the functions.
 Times are nanoseconds; float64 rates are reals.
 */
module TunnelFields {
  import opened Prelude

  datatype State = Idle | Connecting | Up | Degraded | Failed

  const STALE: int := 180 * SECOND
  const ALPHA: real := 0.4

  /** Devices are numbered in the order in which they are created; a session and a netstack belong to one. */
  datatype Fields = Fields(
    state: State,
    lastError: string,
    session: Option<nat>,
    device: Option<nat>,
    netNet: Option<nat>,
    rxTotal: u64, txTotal: u64,
    rxRate: real, txRate: real,
    prevRx: u64, prevTx: u64,
    prevStatsAt: int,
    lastHandshake: Option<int>,
    probeOK: bool, probeStatus: string)

  const FRESH := Fields(Idle, "", None, None, None, 0, 0, 0.0, 0.0, 0, 0, 0, None, false, "")

  function SetState(f: Fields, s: State, msg: string): Fields { f.(state := s, lastError := msg) }

  /** The nil error is the None; it changes nothing. */
  function SetError(f: Fields, err: Option<string>): Fields
  {
    match err
    case None => f
    case Some(msg) => f.(state := Failed, lastError := msg)
  }

  /** A published session overwrites every one of these fields. */
  function Publish(dev: nat, now: int): Fields
  {
    Fields(Up, "", Some(dev), Some(dev), Some(dev), 0, 0, 0.0, 0.0, 0, 0, now, None, false, "")
  }

  predicate Running(s: State) { s == Up || s == Degraded }

  function Teardown(f: Fields, cancelled: bool): Fields
  {
    f.(netNet := None, device := None, session := None,
       state := if !cancelled then Failed else if Running(f.state) then Idle else f.state)
  }

  // ---------- ticks ----------

  /** What IpcGet reports: the byte counters and the last handshake in Unix seconds. */
  datatype Reading = Reading(rx: u64, tx: u64, handshake: int)

  predicate Updates(f: Fields, now: int) { now > f.prevStatsAt && (f.prevRx != 0 || f.prevTx != 0) }

  /** Bytes per second since the last tick; the subtraction is that of uint64. */
  function Instant(cur: u64, prev: u64, elapsed: int): real
    requires elapsed > 0
  {
    ((cur - prev) % TWO64) as real * SECOND as real / elapsed as real
  }

  function Smooth(rate: real, inst: real): real { ALPHA * inst + (1.0 - ALPHA) * rate }

  function Rates(f: Fields, r: Reading, now: int): (real, real)
  {
    if Updates(f, now) then
      (Smooth(f.rxRate, Instant(r.rx, f.prevRx, now - f.prevStatsAt)),
       Smooth(f.txRate, Instant(r.tx, f.prevTx, now - f.prevStatsAt)))
    else (f.rxRate, f.txRate)
  }

  function Counters(f: Fields, r: Reading, now: int): Fields
  {
    var rates := Rates(f, r, now);
    f.(rxRate := rates.0, txRate := rates.1, prevRx := r.rx, prevTx := r.tx,
       prevStatsAt := now, rxTotal := r.rx, txTotal := r.tx,
       lastHandshake := if r.handshake > 0 then Some(r.handshake * SECOND) else f.lastHandshake)
  }

  /** The zero time is older than any limit. */
  predicate HandshakeFresh(f: Fields, clock: int)
  {
    f.lastHandshake.Some? && clock - f.lastHandshake.value <= STALE
  }

  function StatsTick(f: Fields, r: Reading, now: int, clock: int): Fields
  {
    var g := Counters(f, r, now);
    if g.state == Up && r.handshake > 0 && !HandshakeFresh(g, clock) then
      g.(state := Degraded, lastError := "stale handshake")
    else if g.state == Degraded && r.handshake > 0 && HandshakeFresh(g, clock) then
      g.(state := Up, lastError := "")
    else g
  }

  function HealthTick(f: Fields, ok: bool, status: string, clock: int): Fields
  {
    var g := f.(probeOK := ok, probeStatus := status);
    if g.state == Up && !ok then
      g.(state := Degraded,
         lastError := if g.lastError == "" then "health probe failed: " + status else g.lastError)
    else if g.state == Degraded && ok && HandshakeFresh(g, clock) then
      g.(state := Up, lastError := "")
    else g
  }

  // ---------- any interleaving of ticks ----------

  datatype Tick = Stats(r: Reading, now: int, clock: int) | Health(ok: bool, status: string, clock: int)

  function OnTick(f: Fields, t: Tick): Fields
  {
    match t
    case Stats(r, now, clock) => StatsTick(f, r, now, clock)
    case Health(ok, status, clock) => HealthTick(f, ok, status, clock)
  }

  function AfterTicks(f: Fields, ticks: seq<Tick>): Fields
    decreases |ticks|
  {
    if ticks == [] then f else OnTick(AfterTicks(f, ticks[..|ticks| - 1]), ticks[|ticks| - 1])
  }

  /** A running tunnel explains itself: no error text while Up, some while Degraded. */
  predicate Explained(f: Fields)
  {
    && Running(f.state)
    && (f.state == Up <==> f.lastError == "")
  }

  lemma TickKeepsExplained(f: Fields, t: Tick)
    requires Explained(f)
    ensures Explained(OnTick(f, t))
    ensures var g := OnTick(f, t); g.session == f.session && g.device == f.device && g.netNet == f.netNet
  {
  }

  lemma {:induction false} TicksKeepExplained(f: Fields, ticks: seq<Tick>)
    requires Explained(f)
    ensures Explained(AfterTicks(f, ticks))
    ensures var g := AfterTicks(f, ticks); g.session == f.session && g.device == f.device && g.netNet == f.netNet
    decreases |ticks|
  {
    if ticks == [] {
    } else {
      TicksKeepExplained(f, ticks[..|ticks| - 1]);
      TickKeepsExplained(AfterTicks(f, ticks[..|ticks| - 1]), ticks[|ticks| - 1]);
    }
  }

  /**
   What one tick decides: a stats tick that reports a handshake leaves the tunnel Up exactly when the handshake is at
   most three minutes old, one that reports none leaves the state alone; after a health tick the tunnel is Up exactly
   when the probe succeeded and the tunnel was already Up or the last handshake is fresh.
   */
  predicate Decides(f: Fields, t: Tick, after: State)
  {
    match t
    case Stats(r, _, clock) =>
      if r.handshake > 0 then (after == Up) == (clock - r.handshake * SECOND <= 180 * SECOND) else after == f.state
    case Health(ok, _, clock) =>
      (after == Up) ==
      (ok && (f.state == Up || (f.lastHandshake.Some? && clock - f.lastHandshake.value <= 180 * SECOND)))
  }

  lemma TickDecides(f: Fields, t: Tick)
    requires Explained(f)
    ensures Decides(f, t, OnTick(f, t).state)
  {
  }

  /** Whatever ticks came before in the session, the last one decides by its own reading. */
  lemma LastTickDecides(dev: nat, at: int, ticks: seq<Tick>, t: Tick)
    ensures Explained(AfterTicks(Publish(dev, at), ticks + [t]))
    ensures Decides(AfterTicks(Publish(dev, at), ticks), t, AfterTicks(Publish(dev, at), ticks + [t]).state)
  {
    assert (ticks + [t])[..|ticks|] == ticks;
    TicksKeepExplained(Publish(dev, at), ticks);
    TickKeepsExplained(AfterTicks(Publish(dev, at), ticks), t);
    TickDecides(AfterTicks(Publish(dev, at), ticks), t);
  }

  /** The text that one tick leaves: none while Up, a new one where the tunnel degrades, and else the text as it was. */
  lemma TickExplains(f: Fields, t: Tick)
    requires Explained(f)
    ensures var g := OnTick(f, t);
      g.lastError == (if g.state == Up then ""
                      else if f.state == Degraded then f.lastError
                      else if t.Stats? then "stale handshake" else "health probe failed: " + t.status)
  {
  }

  // ---------- what is shown of the ticks ----------

  /** The answer and the status of the latest probe. */
  function ProbeShown(ticks: seq<Tick>): (bool, string)
    decreases |ticks|
  {
    if ticks == [] then (false, "")
    else
      match ticks[|ticks| - 1]
      case Health(ok, status, _) => (ok, status)
      case Stats(_, _, _) => ProbeShown(ticks[..|ticks| - 1])
  }

  /** The counters of the latest reading. */
  function TotalsShown(ticks: seq<Tick>): (u64, u64)
    decreases |ticks|
  {
    if ticks == [] then (0, 0)
    else
      match ticks[|ticks| - 1]
      case Stats(r, _, _) => (r.rx, r.tx)
      case Health(_, _, _) => TotalsShown(ticks[..|ticks| - 1])
  }

  /** The latest handshake that a reading reported, in nanoseconds. */
  function HandshakeShown(ticks: seq<Tick>): Option<int>
    decreases |ticks|
  {
    if ticks == [] then None
    else if ticks[|ticks| - 1].Stats? && ticks[|ticks| - 1].r.handshake > 0
      then Some(ticks[|ticks| - 1].r.handshake * 1_000_000_000)
    else HandshakeShown(ticks[..|ticks| - 1])
  }

  predicate ShowsLatest(f: Fields, ticks: seq<Tick>)
  {
    && (f.probeOK, f.probeStatus) == ProbeShown(ticks) && (f.rxTotal, f.txTotal) == TotalsShown(ticks)
    && f.lastHandshake == HandshakeShown(ticks)
  }

  lemma TickShows(f: Fields, ticks: seq<Tick>, t: Tick)
    requires ShowsLatest(f, ticks)
    ensures ShowsLatest(OnTick(f, t), ticks + [t])
  {
    assert (ticks + [t])[..|ticks|] == ticks;
  }

  /** A session shows its latest probe, its latest counters and its latest handshake, whatever came in between. */
  lemma {:induction false} TicksShow(dev: nat, at: int, ticks: seq<Tick>)
    ensures ShowsLatest(AfterTicks(Publish(dev, at), ticks), ticks)
    decreases |ticks|
  {
    if ticks == [] {
    } else {
      var before, t := ticks[..|ticks| - 1], ticks[|ticks| - 1];
      TicksShow(dev, at, before);
      TickShows(AfterTicks(Publish(dev, at), before), before, t);
      assert before + [t] == ticks;
    }
  }

  /** What a teardown leaves: nothing to dial with; an error if nobody asked for it, and else Idle after a session. */
  lemma TeardownClears(f: Fields, cancelled: bool)
    ensures var g := Teardown(f, cancelled);
      && g.netNet == None && g.device == None && g.session == None && g.lastError == f.lastError
      && g.state == (if !cancelled then Failed
                     else match f.state
                          case Up => Idle
                          case Degraded => Idle
                          case _ => f.state)
  {
  }

  // ---------- the class ----------

  class Tunnel {
    var state: State
    var lastError: string
    var session: Option<nat>
    var device: Option<nat>
    var netNet: Option<nat>
    var rxTotal: u64
    var txTotal: u64
    var rxRate: real
    var txRate: real
    var prevRx: u64
    var prevTx: u64
    var prevStatsAt: int
    var lastHandshake: Option<int>
    var probeOK: bool
    var probeStatus: string

    function View(): Fields
      reads this
    {
      Fields(state, lastError, session, device, netNet, rxTotal, txTotal, rxRate, txRate,
             prevRx, prevTx, prevStatsAt, lastHandshake, probeOK, probeStatus)
    }

    constructor ()
      ensures View() == FRESH
    {
      state, lastError, session, device, netNet := Idle, "", None, None, None;
      rxTotal, txTotal, rxRate, txRate, prevRx, prevTx, prevStatsAt := 0, 0, 0.0, 0.0, 0, 0, 0;
      lastHandshake, probeOK, probeStatus := None, false, "";
    }

    method SetTunnelState(s: State, msg: string)
      modifies this
      ensures View() == SetState(old(View()), s, msg)
    {
      state, lastError := s, msg;
    }

    method SetTunnelError(err: Option<string>)
      modifies this
      ensures View() == SetError(old(View()), err)
    {
      if err.Some? { state, lastError := Failed, err.value; }
    }

    method ResetMeasurements(now: int)
      modifies this`rxTotal, this`txTotal, this`rxRate, this`txRate, this`prevRx, this`prevTx
      modifies this`prevStatsAt, this`lastHandshake, this`probeOK, this`probeStatus
      ensures prevRx == 0 && prevTx == 0 && rxTotal == 0 && txTotal == 0 && rxRate == 0.0 && txRate == 0.0
      ensures prevStatsAt == now && lastHandshake == None && !probeOK && probeStatus == ""
    {
      prevRx, prevTx := 0, 0;
      rxTotal, txTotal := 0, 0;
      rxRate, txRate := 0.0, 0.0;
      prevStatsAt := now;
      lastHandshake := None;
      probeOK, probeStatus := false, "";
    }

    method PublishSession(dev: nat, now: int)
      modifies this
      ensures View() == Publish(dev, now)
    {
      state, lastError := Up, "";
      session, device, netNet := Some(dev), Some(dev), Some(dev);
      ResetMeasurements(now);
    }

    method TeardownSession(cancelled: bool)
      modifies this
      ensures View() == Teardown(old(View()), cancelled)
    {
      var wasUp := state == Up || state == Degraded;
      netNet, device, session := None, None, None;
      if !cancelled {
        state := Failed;
      } else if wasUp {
        state := Idle;
      }
    }

    method UpdateRates(r: Reading, now: int)
      modifies this`rxRate, this`txRate
      ensures (rxRate, txRate) == Rates(old(View()), r, now)
    {
      var dt := now - prevStatsAt;
      if dt > 0 && (prevRx != 0 || prevTx != 0) {
        var rxInst := Instant(r.rx, prevRx, dt);
        var txInst := Instant(r.tx, prevTx, dt);
        rxRate := ALPHA * rxInst + (1.0 - ALPHA) * rxRate;
        txRate := ALPHA * txInst + (1.0 - ALPHA) * txRate;
      }
    }

    method UpdateCounters(r: Reading, now: int)
      modifies this
      ensures View() == Counters(old(View()), r, now)
    {
      UpdateRates(r, now);
      prevRx, prevTx := r.rx, r.tx;
      prevStatsAt := now;
      rxTotal, txTotal := r.rx, r.tx;
      if r.handshake > 0 { lastHandshake := Some(r.handshake * SECOND); }
    }

    method OnStats(r: Reading, now: int, clock: int)
      modifies this
      ensures View() == StatsTick(old(View()), r, now, clock)
    {
      UpdateCounters(r, now);
      if state == Up && r.handshake > 0 && clock - lastHandshake.value > STALE {
        state, lastError := Degraded, "stale handshake";
      } else if state == Degraded && r.handshake > 0 && clock - lastHandshake.value <= STALE {
        state, lastError := Up, "";
      }
    }

    method OnHealth(ok: bool, status: string, clock: int)
      modifies this
      ensures View() == HealthTick(old(View()), ok, status, clock)
    {
      probeOK, probeStatus := ok, status;
      if state == Up && !ok {
        state := Degraded;
        if lastError == "" { lastError := "health probe failed: " + status; }
      } else if state == Degraded && ok && lastHandshake.Some? && clock - lastHandshake.value <= STALE {
        state, lastError := Up, "";
      }
    }

    /** Dial's read of the netstack: None is ErrTunnelDown. */
    method Dial() returns (via: Option<nat>)
      ensures via == View().netNet
    {
      via := netNet;
    }
  }
}
