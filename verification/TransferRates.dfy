/**
 The smoothed transfer rates of the stats loop (tunnel.go) over any number of ticks: their closed
 form, their bounds, and what their instantaneous rates add up to.  Rates are reals.
 */
module TransferRates {
  import opened Prelude
  import opened TunnelFields

  datatype Sample = Sample(r: Reading, now: int, clock: int)

  function AfterSamples(f: Fields, samples: seq<Sample>): Fields
    decreases |samples|
  {
    if samples == [] then f
    else
      var s := samples[|samples| - 1];
      StatsTick(AfterSamples(f, samples[..|samples| - 1]), s.r, s.now, s.clock)
  }

  /** The instantaneous receive rates of the updating ticks, in order. */
  function Instants(f: Fields, samples: seq<Sample>): seq<real>
    decreases |samples|
  {
    if samples == [] then []
    else
      var n := |samples| - 1;
      var g, s := AfterSamples(f, samples[..n]), samples[n];
      Instants(f, samples[..n]) +
      (if Updates(g, s.now) then [Instant(s.r.rx, g.prevRx, s.now - g.prevStatsAt)] else [])
  }

  /** The ticks that update the rates, by number and in order; tick n is the one of samples[n]. */
  function Updated(f: Fields, samples: seq<Sample>): (ticks: seq<nat>)
    ensures |ticks| == |Instants(f, samples)|
    decreases |samples|
  {
    if samples == [] then []
    else
      var n := |samples| - 1;
      Updated(f, samples[..n]) + (if Updates(AfterSamples(f, samples[..n]), samples[n].now) then [n] else [])
  }

  /** An instantaneous rate times the nanoseconds for which it stands. */
  function Area(cur: u64, prev: u64, elapsed: int): real
    requires elapsed > 0
  {
    Instant(cur, prev, elapsed) * elapsed as real
  }

  /** The sum of instantaneous rate times elapsed nanoseconds over the updating ticks. */
  function Integral(f: Fields, samples: seq<Sample>): real
    decreases |samples|
  {
    if samples == [] then 0.0
    else
      var n := |samples| - 1;
      var g, s := AfterSamples(f, samples[..n]), samples[n];
      Integral(f, samples[..n]) +
      (if Updates(g, s.now) then Area(s.r.rx, g.prevRx, s.now - g.prevStatsAt) else 0.0)
  }

  /** Bytes per second from one reading of a 64-bit counter to the next, which may have wrapped around. */
  function PerSecond(cur: u64, prev: u64, elapsed: int): real
    requires elapsed > 0
  {
    var bytes: int := if cur >= prev then cur - prev else cur + 0x1_0000_0000_0000_0000 - prev;
    bytes as real * 1_000_000_000.0 / elapsed as real
  }

  lemma InstantIsPerSecond(cur: u64, prev: u64, elapsed: int)
    requires elapsed > 0
    ensures Instant(cur, prev, elapsed) == PerSecond(cur, prev, elapsed)
  {
    var bytes: int := if cur >= prev then cur - prev else cur + 0x1_0000_0000_0000_0000 - prev;
    assert (cur - prev) % TWO64 == bytes;
  }

  /** One tick, in numbers: four parts of the new rate and six of the old where some bytes had been counted and the
      clock has moved on, and otherwise no change. */
  lemma RatesOfTick(f: Fields, r: Reading, now: int, clock: int)
    ensures var g := StatsTick(f, r, now, clock);
      if now > f.prevStatsAt && (f.prevRx > 0 || f.prevTx > 0) then
        && g.rxRate == 0.4 * PerSecond(r.rx, f.prevRx, now - f.prevStatsAt) + 0.6 * f.rxRate
        && g.txRate == 0.4 * PerSecond(r.tx, f.prevTx, now - f.prevStatsAt) + 0.6 * f.txRate
      else g.rxRate == f.rxRate && g.txRate == f.txRate
    ensures var g := StatsTick(f, r, now, clock); g.prevRx == r.rx && g.prevTx == r.tx && g.prevStatsAt == now
  {
    if now > f.prevStatsAt {
      InstantIsPerSecond(r.rx, f.prevRx, now - f.prevStatsAt);
      InstantIsPerSecond(r.tx, f.prevTx, now - f.prevStatsAt);
    }
  }

  // ---------- the weighted sum ----------

  function Pow(x: real, n: nat): real { if n == 0 then 1.0 else x * Pow(x, n - 1) }

  /** ALPHA times the sum over the first k values of 0.6^(n - 1 - i) times value i. */
  function Weighted(v: seq<real>, k: nat, n: nat): real
    requires k <= |v| && k <= n
  {
    if k == 0 then 0.0 else Weighted(v, k - 1, n) + ALPHA * Pow(1.0 - ALPHA, n - k) * v[k - 1]
  }

  lemma Reassociate(p: real, x: real)
    ensures ALPHA * ((1.0 - ALPHA) * p) * x == (1.0 - ALPHA) * (ALPHA * p * x)
  {
  }

  lemma {:induction false} WeightedAges(v: seq<real>, k: nat, n: nat)
    requires k <= |v| && k <= n
    ensures Weighted(v, k, n + 1) == (1.0 - ALPHA) * Weighted(v, k, n)
  {
    if k == 0 {
    } else {
      WeightedAges(v, k - 1, n);
      var p, x := Pow(1.0 - ALPHA, n - k), v[k - 1];
      assert Pow(1.0 - ALPHA, n + 1 - k) == (1.0 - ALPHA) * p;
      Reassociate(p, x);
    }
  }

  lemma {:induction false} WeightedPrefix(v: seq<real>, w: seq<real>, k: nat, n: nat)
    requires k <= |v| && k <= |w| && k <= n && v[..k] == w[..k]
    ensures Weighted(v, k, n) == Weighted(w, k, n)
  {
    if k == 0 {
    } else {
      assert v[..k - 1] == v[..k][..k - 1] && w[..k - 1] == w[..k][..k - 1];
      assert v[k - 1] == v[..k][k - 1] && w[k - 1] == w[..k][k - 1];
      WeightedPrefix(v, w, k - 1, n);
    }
  }

  lemma WeightedExtends(v: seq<real>, x: real)
    ensures Weighted(v + [x], |v| + 1, |v| + 1) == Smooth(Weighted(v, |v|, |v|), x)
  {
    var w := v + [x];
    WeightedPrefix(w, v, |v|, |v| + 1);
    WeightedAges(v, |v|, |v|);
    assert Pow(1.0 - ALPHA, 0) == 1.0;
  }

  /** From a rate of zero, the receive rate after any ticks is the weighted sum of the instantaneous rates. */
  lemma {:induction false} RateIsWeightedSum(f: Fields, samples: seq<Sample>)
    requires f.rxRate == 0.0
    ensures var v := Instants(f, samples); AfterSamples(f, samples).rxRate == Weighted(v, |v|, |v|)
    decreases |samples|
  {
    if samples == [] {
    } else {
      var n := |samples| - 1;
      RateIsWeightedSum(f, samples[..n]);
      var g, s := AfterSamples(f, samples[..n]), samples[n];
      if Updates(g, s.now) {
        WeightedExtends(Instants(f, samples[..n]), Instant(s.r.rx, g.prevRx, s.now - g.prevStatsAt));
      } else {
        assert Instants(f, samples) == Instants(f, samples[..n]);
      }
    }
  }

  // ---------- bounds ----------

  function Largest(v: seq<real>): real
    decreases |v|
  {
    if v == [] then 0.0
    else
      var m := Largest(v[..|v| - 1]);
      if v[|v| - 1] > m then v[|v| - 1] else m
  }

  lemma QuotientTimes(q: real, d: real)
    requires d > 0.0 && q >= 0.0
    ensures q / d >= 0.0 && q / d * d == q
  {
  }

  lemma InstantNotNegative(cur: u64, prev: u64, elapsed: int)
    requires elapsed > 0
    ensures Instant(cur, prev, elapsed) >= 0.0
    ensures prev <= cur ==> Area(cur, prev, elapsed) == (cur - prev) as real * SECOND as real
  {
    var q := ((cur - prev) % TWO64) as real * SECOND as real;
    assert q >= 0.0;
    QuotientTimes(q, elapsed as real);
  }

  lemma SmoothBetween(rate: real, inst: real, top: real)
    requires 0.0 <= rate <= top && 0.0 <= inst <= top
    ensures 0.0 <= Smooth(rate, inst) <= top
  {
  }

  /** The rate never leaves the range between zero and the largest instantaneous rate seen. */
  lemma {:induction false} RateWithinBounds(f: Fields, samples: seq<Sample>)
    requires f.rxRate == 0.0
    ensures 0.0 <= AfterSamples(f, samples).rxRate <= Largest(Instants(f, samples))
    decreases |samples|
  {
    if samples == [] {
    } else {
      var n := |samples| - 1;
      RateWithinBounds(f, samples[..n]);
      var g, s := AfterSamples(f, samples[..n]), samples[n];
      if Updates(g, s.now) {
        var inst := Instant(s.r.rx, g.prevRx, s.now - g.prevStatsAt);
        InstantNotNegative(s.r.rx, g.prevRx, s.now - g.prevStatsAt);
        var v := Instants(f, samples);
        assert v[..|v| - 1] == Instants(f, samples[..n]) && v[|v| - 1] == inst;
        SmoothBetween(g.rxRate, inst, Largest(v));
      } else {
        assert Instants(f, samples) == Instants(f, samples[..n]);
      }
    }
  }

  // ---------- conservation ----------

  predicate Live(s: Sample) { s.r.rx != 0 || s.r.tx != 0 }

  /** Counters never decrease within a session. */
  predicate Growing(samples: seq<Sample>)
  {
    forall i, j :: 0 <= i < j < |samples| ==>
      samples[i].r.rx <= samples[j].r.rx && samples[i].r.tx <= samples[j].r.tx
  }

  /** Sample k is the first that shows any traffic. */
  predicate FirstLive(samples: seq<Sample>, k: nat)
  {
    k < |samples| && Live(samples[k]) && forall i :: 0 <= i < k ==> !Live(samples[i])
  }

  /** Tick n happens later than the one before it, by the clock readings. */
  predicate Later(samples: seq<Sample>, n: nat)
    requires 0 < n < |samples|
  {
    samples[n].now > samples[n - 1].now
  }

  /** The growth of the counter after sample k that falls to ticks at which the clock had not moved. */
  function Missed(samples: seq<Sample>, k: nat): int
    requires k < |samples|
    decreases |samples|
  {
    var n := |samples| - 1;
    if n == k then 0
    else Missed(samples[..n], k) + (if Later(samples, n) then 0 else samples[n].r.rx - samples[n - 1].r.rx)
  }

  lemma LastSampleStored(f: Fields, samples: seq<Sample>)
    requires samples != []
    ensures var g, s := AfterSamples(f, samples), samples[|samples| - 1];
      g.prevRx == s.r.rx && g.prevTx == s.r.tx && g.prevStatsAt == s.now
  {
  }

  lemma TickUpdatesIfLater(f: Fields, samples: seq<Sample>)
    requires |samples| >= 2 && Live(samples[|samples| - 2])
    ensures var n := |samples| - 1;
      var g := AfterSamples(f, samples[..n]);
      && (Updates(g, samples[n].now) <==> Later(samples, n))
      && g.prevRx == samples[n - 1].r.rx && g.prevStatsAt == samples[n - 1].now
  {
    var n := |samples| - 1;
    LastSampleStored(f, samples[..n]);
    assert samples[..n][n - 1] == samples[n - 1];
  }

  /** The instantaneous rate of a later tick times its duration; for a growing counter, the growth. */
  function AreaAt(samples: seq<Sample>, n: nat): (area: real)
    requires 0 < n < |samples| && Later(samples, n)
    ensures samples[n - 1].r.rx <= samples[n].r.rx ==>
      area == (samples[n].r.rx - samples[n - 1].r.rx) as real * SECOND as real
  {
    InstantNotNegative(samples[n].r.rx, samples[n - 1].r.rx, samples[n].now - samples[n - 1].now);
    Area(samples[n].r.rx, samples[n - 1].r.rx, samples[n].now - samples[n - 1].now)
  }

  /** A tick after a live sample updates iff it is later, and then adds the growth of the counter to the integral. */
  lemma TickAddsGrowth(f: Fields, samples: seq<Sample>)
    requires |samples| >= 2 && Live(samples[|samples| - 2])
    ensures var n := |samples| - 1;
      Updated(f, samples) == Updated(f, samples[..n]) + (if Later(samples, n) then [n] else [])
    ensures var n := |samples| - 1;
      Integral(f, samples) == Integral(f, samples[..n]) + (if Later(samples, n) then AreaAt(samples, n) else 0.0)
  {
    TickUpdatesIfLater(f, samples);
  }

  lemma {:induction false} QuietBefore(p: Fields, samples: seq<Sample>)
    requires p.prevRx == 0 && p.prevTx == 0
    requires forall i :: 0 <= i < |samples| ==> !Live(samples[i])
    ensures Updated(p, samples) == [] && Integral(p, samples) == 0.0
    decreases |samples|
  {
    if samples == [] {
    } else {
      var n := |samples| - 1;
      QuietBefore(p, samples[..n]);
      if n > 0 {
        LastSampleStored(p, samples[..n]);
        assert !Live(samples[..n][n - 1]);
      }
    }
  }

  /** The tick of the first live sample does not update the rates. */
  lemma FirstLiveIsQuiet(p: Fields, samples: seq<Sample>)
    requires p.prevRx == 0 && p.prevTx == 0 && samples != []
    requires forall i :: 0 <= i < |samples| - 1 ==> !Live(samples[i])
    ensures Updated(p, samples) == [] && Integral(p, samples) == 0.0
  {
    var n := |samples| - 1;
    QuietBefore(p, samples[..n]);
    if n > 0 {
      LastSampleStored(p, samples[..n]);
      assert !Live(samples[..n][n - 1]);
    }
  }

  lemma SumOfGrowth(a: int, b: int, c: int)
    ensures a as real * SECOND as real + (c - b) as real * SECOND as real == (a + c - b) as real * SECOND as real
  {
  }

  lemma LaterBefore(samples: seq<Sample>)
    requires samples != []
    ensures forall n: nat :: 0 < n < |samples| - 1 ==> Later(samples[..|samples| - 1], n) == Later(samples, n)
  {
  }

  /**
   Conservation: the rates shown account for every byte that comes with time.  If the first live sample is number k,
   the updating ticks are exactly the later ones after it, and their instantaneous rates times their durations sum to
   the growth of the counter since that sample, less what came at ticks at which the clock had not moved.
   */
  lemma {:induction false} RatesAccountForBytes(p: Fields, samples: seq<Sample>, k: nat)
    requires p.prevRx == 0 && p.prevTx == 0 && Growing(samples) && FirstLive(samples, k)
    ensures forall n: nat :: n in Updated(p, samples) <==> k < n < |samples| && Later(samples, n)
    ensures var growth := samples[|samples| - 1].r.rx - samples[k].r.rx;
      Integral(p, samples) == (growth - Missed(samples, k)) as real * SECOND as real
    decreases |samples|
  {
    var n := |samples| - 1;
    if k == n {
      FirstLiveIsQuiet(p, samples);
    } else {
      var before := samples[..n];
      RatesAccountForBytes(p, before, k);
      assert Live(samples[n - 1]);
      TickAddsGrowth(p, samples);
      LaterBefore(samples);
      SumOfGrowth(samples[n - 1].r.rx - samples[k].r.rx - Missed(before, k), samples[n - 1].r.rx, samples[n].r.rx);
    }
  }

  /** When every tick is later than the one before, nothing is missed and all ticks after the first live one update. */
  lemma {:induction false} SteadyTicksMissNothing(p: Fields, samples: seq<Sample>, k: nat)
    requires p.prevRx == 0 && p.prevTx == 0 && Growing(samples) && FirstLive(samples, k)
    requires forall n: nat :: k < n < |samples| ==> Later(samples, n)
    ensures Missed(samples, k) == 0 && |Instants(p, samples)| == |samples| - 1 - k
    decreases |samples|
  {
    var n := |samples| - 1;
    if k == n {
      FirstLiveIsQuiet(p, samples);
    } else {
      forall m: nat | k < m < n ensures Later(samples[..n], m) { assert Later(samples, m); }
      SteadyTicksMissNothing(p, samples[..n], k);
      assert Live(samples[n - 1]);
      TickAddsGrowth(p, samples);
    }
  }

  // ---------- the transmit side ----------

  function SwapSample(s: Sample): Sample { s.(r := Reading(s.r.tx, s.r.rx, s.r.handshake)) }

  function SwapSamples(samples: seq<Sample>): (swapped: seq<Sample>)
    ensures |swapped| == |samples|
    decreases |samples|
  {
    if samples == [] then []
    else SwapSamples(samples[..|samples| - 1]) + [SwapSample(samples[|samples| - 1])]
  }

  function SwapFields(f: Fields): Fields
  {
    f.(rxTotal := f.txTotal, txTotal := f.rxTotal, rxRate := f.txRate, txRate := f.rxRate,
       prevRx := f.prevTx, prevTx := f.prevRx)
  }

  lemma SwapTick(f: Fields, s: Sample)
    ensures StatsTick(SwapFields(f), SwapSample(s).r, s.now, s.clock) == SwapFields(StatsTick(f, s.r, s.now, s.clock))
  {
  }

  /** Exchanging the two counters exchanges the two rates, so what holds of one side holds of the other. */
  lemma {:induction false} TransmitMirrorsReceive(f: Fields, samples: seq<Sample>)
    ensures AfterSamples(SwapFields(f), SwapSamples(samples)) == SwapFields(AfterSamples(f, samples))
    decreases |samples|
  {
    if samples == [] {
    } else {
      var n := |samples| - 1;
      TransmitMirrorsReceive(f, samples[..n]);
      SwapTick(AfterSamples(f, samples[..n]), samples[n]);
      assert SwapSamples(samples)[..n] == SwapSamples(samples[..n]);
    }
  }

  /** The transmit rate after any ticks, in closed form and within bounds, by that symmetry. */
  lemma TransmitRate(f: Fields, samples: seq<Sample>)
    requires f.txRate == 0.0
    ensures var v := Instants(SwapFields(f), SwapSamples(samples));
      AfterSamples(f, samples).txRate == Weighted(v, |v|, |v|) && 0.0 <= AfterSamples(f, samples).txRate <= Largest(v)
  {
    TransmitMirrorsReceive(f, samples);
    RateIsWeightedSum(SwapFields(f), SwapSamples(samples));
    RateWithinBounds(SwapFields(f), SwapSamples(samples));
  }

  lemma {:induction false} SwappedAt(samples: seq<Sample>, i: nat)
    requires i < |samples|
    ensures SwapSamples(samples)[i] == SwapSample(samples[i])
    decreases |samples|
  {
    if i < |samples| - 1 { SwappedAt(samples[..|samples| - 1], i); }
  }

  lemma SwapKeepsShape(samples: seq<Sample>, k: nat)
    requires Growing(samples) && FirstLive(samples, k)
    ensures Growing(SwapSamples(samples)) && FirstLive(SwapSamples(samples), k)
    ensures forall n: nat :: 0 < n < |samples| ==> Later(SwapSamples(samples), n) == Later(samples, n)
  {
    forall i | 0 <= i < |samples| ensures SwapSamples(samples)[i] == SwapSample(samples[i]) { SwappedAt(samples, i); }
  }

  /** Conservation on the transmit side: the same ticks update, and the same account holds of the other counter. */
  lemma TransmitAccountsForBytes(p: Fields, samples: seq<Sample>, k: nat)
    requires p.prevRx == 0 && p.prevTx == 0 && Growing(samples) && FirstLive(samples, k)
    ensures var q, swapped := SwapFields(p), SwapSamples(samples);
      var growth := samples[|samples| - 1].r.tx - samples[k].r.tx;
      && (forall n: nat :: n in Updated(q, swapped) <==> k < n < |samples| && Later(samples, n))
      && Integral(q, swapped) == (growth - Missed(swapped, k)) as real * SECOND as real
  {
    SwapKeepsShape(samples, k);
    RatesAccountForBytes(SwapFields(p), SwapSamples(samples), k);
    SwappedAt(samples, k);
    SwappedAt(samples, |samples| - 1);
  }
}
