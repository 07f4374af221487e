/** Rate sampling: cached bits per second, recomputed at most once per second from the
    growth of the byte counters. */
module Metrics {
  import opened Common
  import Cidrs

  const RATE_WINDOW_SECS: nat := 1

  function SaturatingSub(a: U64, b: U64): U64 {
    if a >= b then a - b else 0
  }

  function SaturatingMul8(a: U64): U64 {
    if a * 8 <= U64_MAX then a * 8 else U64_MAX
  }

  /** Fields of `RateSampler`; the default is all zero. */
  datatype Sampler = Sampler(lastTs: U64, lastTxBytes: U64, lastRxBytes: U64, txBps: U64, rxBps: U64)

  const FRESH_SAMPLER := Sampler(0, 0, 0, 0, 0)

  function Quotient(a: U64, b: U64): (q: U64)
    requires b > 0
    ensures q * b <= a < q * b + b
  {
    DivBounds(a, b);
    a / b
  }

  lemma DivBounds(a: int, b: int)
    requires a >= 0 && b > 0
    ensures 0 <= a / b <= a && (a / b) * b <= a < (a / b) * b + b
  {
    var q := a / b;
    assert q >= 0;
    assert a == q * b + a % b;
    Cidrs.MulMonotone(1, b, q);
  }

  /** The sampler after a call at `now` with these counters. */
  function Refreshed(s: Sampler, now: U64, tx: U64, rx: U64): Sampler {
    if s.lastTs == 0 then s.(lastTs := now, lastTxBytes := tx, lastRxBytes := rx)
    else
      var elapsed := SaturatingSub(now, s.lastTs);
      if elapsed < RATE_WINDOW_SECS then s
      else Sampler(now, tx, rx,
                   Quotient(SaturatingMul8(SaturatingSub(tx, s.lastTxBytes)), elapsed),
                   Quotient(SaturatingMul8(SaturatingSub(rx, s.lastRxBytes)), elapsed))
  }

  /** `bps` is the whole number of bits per second that a counter moved by in `elapsed`
      seconds; a counter that went back moved by nothing, and the bits stop at 2^64 - 1. */
  predicate IsRate(bps: nat, before: U64, after: U64, elapsed: nat) {
    var moved := if after >= before then (after - before) * 8 else 0;
    var bits := if moved <= U64_MAX then moved else U64_MAX;
    bps * elapsed <= bits < bps * elapsed + elapsed
  }

  /** The first call with a working clock only takes the counters; inside one second, and
      when the clock goes back, everything stays cached; otherwise both rates are new. */
  lemma RefreshedExactly(s: Sampler, now: U64, tx: U64, rx: U64)
    ensures var r := Refreshed(s, now, tx, rx);
            if s.lastTs == 0 then r == Sampler(now, tx, rx, s.txBps, s.rxBps)
            else if now < s.lastTs + 1 then r == s
            else
              && r.lastTs == now && r.lastTxBytes == tx && r.lastRxBytes == rx
              && IsRate(r.txBps, s.lastTxBytes, tx, now - s.lastTs) && IsRate(r.rxBps, s.lastRxBytes, rx, now - s.lastTs)
  {
  }

  class RateSampler {
    var lastTs: U64
    var lastTxBytes: U64
    var lastRxBytes: U64
    var txBps: U64
    var rxBps: U64

    constructor ()
      ensures View() == FRESH_SAMPLER
    {
      lastTs, lastTxBytes, lastRxBytes, txBps, rxBps := 0, 0, 0, 0, 0;
    }

    function View(): Sampler
      reads this
    {
      Sampler(lastTs, lastTxBytes, lastRxBytes, txBps, rxBps)
    }

    /** `refresh_rates`: the very first call returns zeros whatever is cached. */
    method RefreshRates(now: U64, tx: U64, rx: U64) returns (rates: (U64, U64))
      modifies this
      ensures View() == Refreshed(old(View()), now, tx, rx)
      ensures rates == if old(lastTs) == 0 then (0, 0) else (txBps, rxBps)
    {
      if lastTs == 0 {
        lastTs := now;
        lastTxBytes := tx;
        lastRxBytes := rx;
        return (0, 0);
      }
      var elapsed := SaturatingSub(now, lastTs);
      if elapsed < RATE_WINDOW_SECS {
        return (txBps, rxBps);
      }
      var txDelta := SaturatingSub(tx, lastTxBytes);
      var rxDelta := SaturatingSub(rx, lastRxBytes);
      txBps := Quotient(SaturatingMul8(txDelta), elapsed);
      rxBps := Quotient(SaturatingMul8(rxDelta), elapsed);
      lastTs := now;
      lastTxBytes := tx;
      lastRxBytes := rx;
      rates := (txBps, rxBps);
    }
  }

  // ── Conservation over a run of samples ─────────────────────────────────────

  datatype Sample = At(now: U64, tx: U64, rx: U64)

  ghost predicate NonDecreasing(run: seq<Sample>) {
    forall i, j :: 0 <= i <= j < |run| ==> run[i].now <= run[j].now && run[i].tx <= run[j].tx && run[i].rx <= run[j].rx
  }

  ghost function SamplerAfter(run: seq<Sample>): Sampler {
    if run == [] then FRESH_SAMPLER
    else
      var last := run[|run| - 1];
      Refreshed(SamplerAfter(run[..|run| - 1]), last.now, last.tx, last.rx)
  }

  /** The sampler before the last sample of the run. */
  ghost function Before(run: seq<Sample>): Sampler
    requires run != []
  {
    SamplerAfter(run[..|run| - 1])
  }

  ghost predicate ClosesWindow(run: seq<Sample>)
    requires run != []
  {
    Before(run).lastTs != 0 && run[|run| - 1].now >= Before(run).lastTs + RATE_WINDOW_SECS
  }

  /** The sample counting starts from: the first one read from a working clock. */
  ghost function Baseline(run: seq<Sample>): Sample
    requires run != []
  {
    if Before(run).lastTs == 0 then run[|run| - 1] else Baseline(run[..|run| - 1])
  }

  datatype Bits = Bits(tx: int, rx: int)

  /** Sum over the closed windows of the rate reported for each times its length. */
  ghost function Credited(run: seq<Sample>): Bits {
    if run == [] then Bits(0, 0)
    else
      var earlier := Credited(run[..|run| - 1]);
      if !ClosesWindow(run) then earlier
      else
        var s, elapsed := SamplerAfter(run), run[|run| - 1].now - Before(run).lastTs;
        Bits(earlier.tx + s.txBps * elapsed, earlier.rx + s.rxBps * elapsed)
  }

  /** Bits counted between the baseline and the last recomputation. */
  ghost function Counted(run: seq<Sample>): Bits
    requires run != []
  {
    var s, base := SamplerAfter(run), Baseline(run);
    Bits((s.lastTxBytes - base.tx) * 8, (s.lastRxBytes - base.rx) * 8)
  }

  /** No window moved so many bytes that eight times as many overflow 64 bits. */
  ghost predicate NoSaturation(run: seq<Sample>) {
    run != [] ==>
      var last := run[|run| - 1];
      && NoSaturation(run[..|run| - 1])
      && (ClosesWindow(run) ==>
            (last.tx - Before(run).lastTxBytes) * 8 <= U64_MAX && (last.rx - Before(run).lastRxBytes) * 8 <= U64_MAX)
  }

  /** The sampler remembers a sample of the run, no earlier than the baseline. */
  lemma {:induction false} SamplerTracks(run: seq<Sample>)
    requires run != [] && NonDecreasing(run)
    ensures var s, last := SamplerAfter(run), run[|run| - 1];
            && Baseline(run).now <= s.lastTs <= last.now && s.lastTxBytes <= last.tx && s.lastRxBytes <= last.rx
            && (s.lastTs == 0 ==> Baseline(run) == last)
  {
    if |run| > 1 {
      SamplerTracks(run[..|run| - 1]);
    }
  }

  /** The pair of the last closed window of the run, if one was closed. */
  ghost predicate RatesOfLastWindow(run: seq<Sample>, txBps: nat, rxBps: nat) {
    if run == [] then txBps == rxBps == 0
    else if ClosesWindow(run) then
      var s, last := Before(run), run[|run| - 1];
      IsRate(txBps, s.lastTxBytes, last.tx, last.now - s.lastTs) && IsRate(rxBps, s.lastRxBytes, last.rx, last.now - s.lastTs)
    else RatesOfLastWindow(run[..|run| - 1], txBps, rxBps)
  }

  /** After any samples, on any clock, the cached rates are those. */
  lemma {:induction false} CachedRates(run: seq<Sample>)
    ensures RatesOfLastWindow(run, SamplerAfter(run).txBps, SamplerAfter(run).rxBps)
  {
    if run != [] {
      var last := run[|run| - 1];
      CachedRates(run[..|run| - 1]);
      RefreshedExactly(Before(run), last.now, last.tx, last.rx);
    }
  }

  /** `credited` falls short of `counted` by less than one per elapsed second. */
  predicate CloseBelow(credited: int, counted: int, elapsed: int) {
    credited <= counted && (elapsed == 0 ==> credited == counted) && (elapsed > 0 ==> counted - credited < elapsed)
  }

  /** Over a whole run, the credited bits never exceed the bits counted since the
      baseline; without saturation they fall short by less than one per second. */
  lemma {:induction false} RatesConserve(run: seq<Sample>)
    requires run != [] && NonDecreasing(run)
    ensures Credited(run).tx <= Counted(run).tx && Credited(run).rx <= Counted(run).rx
    ensures NoSaturation(run) ==>
              var elapsed := SamplerAfter(run).lastTs - Baseline(run).now;
              && CloseBelow(Credited(run).tx, Counted(run).tx, elapsed)
              && CloseBelow(Credited(run).rx, Counted(run).rx, elapsed)
  {
    var front := run[..|run| - 1];
    if front == [] {
      assert Credited(front) == Bits(0, 0);
    } else {
      RatesConserve(front);
      SamplerTracks(front);
      assert Before(run).lastTs == 0 ==> Credited(front) == Bits(0, 0) by {
        NothingBeforeBaseline(front);
      }
    }
  }

  lemma {:induction false} NothingBeforeBaseline(run: seq<Sample>)
    ensures SamplerAfter(run).lastTs == 0 ==> Credited(run) == Bits(0, 0)
  {
    if run != [] {
      NothingBeforeBaseline(run[..|run| - 1]);
    }
  }
}
