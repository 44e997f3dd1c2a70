/** The refresh-interval estimate from presentation feedback: an integer moving average. */
module Presentation {
  import opened Bytes

  const MAX_INTERVAL: nat := 100_000_000
  const DEFAULT_INTERVAL: nat := 16_666_667
  const WARM_UP: nat := 4

  datatype Sync = Sync(lastPresentedNs: nat, frameIntervalNs: nat, sampleCount: nat)

  const Initial := Sync(0, DEFAULT_INTERVAL, 0)

  /** One averaging step. */
  function Smooth(estimate: nat, interval: nat): nat {
    (estimate * 7 + interval) / 8
  }

  function Record(s: Sync, timestampNs: u64): Sync {
    var interval := if timestampNs > s.lastPresentedNs then timestampNs - s.lastPresentedNs else 0;
    var estimate :=
      if s.lastPresentedNs > 0 && 0 < interval < MAX_INTERVAL then
        if s.sampleCount < WARM_UP then interval else Smooth(s.frameIntervalNs, interval)
      else s.frameIntervalNs;
    Sync(timestampNs, estimate, s.sampleCount + 1)
  }

  class PresentationSync {
    var lastPresentedNs: u64
    var frameIntervalNs: nat
    var sampleCount: nat

    constructor ()
      ensures State() == Initial
    {
      lastPresentedNs, frameIntervalNs, sampleCount := 0, 16_666_667, 0;
    }

    function State(): Sync
      reads this
    {
      Sync(lastPresentedNs, frameIntervalNs, sampleCount)
    }

    method RecordPresentation(timestampNs: u64)
      modifies this
      ensures State() == Record(old(State()), timestampNs)
    {
      if lastPresentedNs > 0 {
        var interval := if timestampNs > lastPresentedNs then timestampNs - lastPresentedNs else 0;
        if interval > 0 && interval < 100_000_000 {
          if sampleCount < 4 {
            frameIntervalNs := interval;
          } else {
            frameIntervalNs := (frameIntervalNs * 7 + interval) / 8;
          }
        }
      }
      lastPresentedNs := timestampNs;
      sampleCount := sampleCount + 1;
    }
  }

  // ----- Range -----

  function RecordAll(s: Sync, timestamps: seq<u64>): Sync {
    if timestamps == [] then s
    else Record(RecordAll(s, timestamps[..|timestamps| - 1]), timestamps[|timestamps| - 1])
  }

  predicate InRange(estimate: nat) {
    1 <= estimate < MAX_INTERVAL
  }

  /** On every run, whatever the timestamps, the estimate stays in 1..99,999,999. */
  lemma {:induction false} AlwaysInRange(timestamps: seq<u64>)
    ensures InRange(RecordAll(Initial, timestamps).frameIntervalNs)
    ensures RecordAll(Initial, timestamps).sampleCount == |timestamps|
    decreases |timestamps|
  {
    if timestamps != [] {
      AlwaysInRange(timestamps[..|timestamps| - 1]);
    }
  }

  /** The estimate after one more sample, by the timestamps alone. The first sample, one that is not
      later than the one before it, and one 100 ms or more after it leave the estimate alone; the second
      to fourth replace it by their interval; from the fifth on the interval counts for one part in
      eight. Before any sample it is that of 60 Hz. */
  lemma NextEstimate(timestamps: seq<u64>, t: u64)
    ensures RecordAll(Initial, []).frameIntervalNs == 16_666_667
    ensures var n, before := |timestamps|, RecordAll(Initial, timestamps).frameIntervalNs;
            var last := if n == 0 then 0 else timestamps[n - 1];
            RecordAll(Initial, timestamps + [t]).frameIntervalNs
            == if last == 0 || t <= last || t - last >= 100_000_000 then before
               else if n < 4 then t - last
               else (7 * before + (t - last)) / 8
  {
    assert (timestamps + [t])[..|timestamps|] == timestamps;
    AlwaysInRange(timestamps);
    LastPresented(timestamps);
  }

  lemma LastPresented(timestamps: seq<u64>)
    ensures RecordAll(Initial, timestamps).lastPresentedNs
            == if timestamps == [] then 0 else timestamps[|timestamps| - 1]
  {}

  // ----- Convergence under a constant interval -----

  /** How far an estimate is outside [t - 7, t]. */
  function Off(estimate: nat, t: nat): nat {
    if estimate > t then estimate - t else if estimate + 7 < t then t - 7 - estimate else 0
  }

  /** The averaging step moves towards the interval without crossing it, and stands still exactly
      on [t - 7, t]. */
  lemma SmoothApproaches(estimate: nat, t: nat)
    ensures estimate <= t ==> estimate <= Smooth(estimate, t) <= t
    ensures estimate > t ==> t <= Smooth(estimate, t) < estimate
    ensures Smooth(estimate, t) == estimate <==> Off(estimate, t) == 0
    ensures 8 * Off(Smooth(estimate, t), t) <= 7 * Off(estimate, t)
  {}

  function Distance(estimate: nat, t: nat): nat {
    if estimate > t then estimate - t else t - estimate
  }

  /** The estimate after `n` samples of the same interval. */
  function Smoothed(estimate: nat, t: nat, n: nat): nat {
    if n == 0 then estimate else Smooth(Smoothed(estimate, t, n - 1), t)
  }

  /** The distance to a constant interval never grows. */
  lemma {:induction false} NeverFarther(estimate: nat, t: nat, m: nat, n: nat)
    requires m <= n
    ensures Distance(Smoothed(estimate, t, n), t) <= Distance(Smoothed(estimate, t, m), t)
    decreases n
  {
    if m < n {
      NeverFarther(estimate, t, m, n - 1);
      SmoothApproaches(Smoothed(estimate, t, n - 1), t);
    }
  }

  /** Six samples at least halve what is left. */
  lemma SixHalve(estimate: nat, t: nat, n: nat)
    ensures 2 * Off(Smoothed(estimate, t, n + 6), t) <= Off(Smoothed(estimate, t, n), t)
  {
    hide Smooth, Off;
    SmoothApproaches(Smoothed(estimate, t, n), t);
    SmoothApproaches(Smoothed(estimate, t, n + 1), t);
    SmoothApproaches(Smoothed(estimate, t, n + 2), t);
    SmoothApproaches(Smoothed(estimate, t, n + 3), t);
    SmoothApproaches(Smoothed(estimate, t, n + 4), t);
    SmoothApproaches(Smoothed(estimate, t, n + 5), t);
  }

  function Pow2(k: nat): nat {
    if k == 0 then 1 else 2 * Pow2(k - 1)
  }

  lemma {:induction false} HalvedAway(estimate: nat, t: nat, k: nat, n: nat)
    requires Off(Smoothed(estimate, t, n), t) < Pow2(k)
    ensures Off(Smoothed(estimate, t, n + 6 * k), t) == 0
    decreases k
  {
    hide Off, Smoothed;
    if k > 0 {
      SixHalve(estimate, t, n);
      HalvedAway(estimate, t, k - 1, n + 6);
      assert n + 6 + 6 * (k - 1) == n + 6 * k;
    }
  }

  lemma Pow2Of27()
    ensures Pow2(27) > MAX_INTERVAL
  {
    assert Pow2(9) == 512 by {
      assert Pow2(5) == 32;
    }
    Pow2Add(9, 9);
    Pow2Add(18, 9);
  }

  lemma {:induction false} Pow2Add(a: nat, b: nat)
    ensures Pow2(a + b) == Pow2(a) * Pow2(b)
  {
    if b > 0 {
      Pow2Add(a, b - 1);
    }
  }

  /** Once averaging has begun, at most 162 samples of a constant interval bring the estimate into
      [t - 7, t] for good, from wherever it was. */
  lemma Converges(estimate: nat, t: nat, n: nat)
    requires InRange(estimate) && InRange(t) && n >= 162
    ensures t - 7 <= Smoothed(estimate, t, n) <= t
  {
    Pow2Of27();
    HalvedAway(estimate, t, 27, 0);
    StaysThere(estimate, t, 162, n);
  }

  lemma {:induction false} StaysThere(estimate: nat, t: nat, m: nat, n: nat)
    requires m <= n && Off(Smoothed(estimate, t, m), t) == 0
    ensures Off(Smoothed(estimate, t, n), t) == 0
    decreases n
  {
    if m < n {
      StaysThere(estimate, t, m, n - 1);
      SmoothApproaches(Smoothed(estimate, t, n - 1), t);
    }
  }

  /** `n` presentations, each `t` after the one before. */
  function Steady(s: Sync, t: nat, n: nat): Sync
    requires InRange(t) && s.lastPresentedNs + n * t < 0x1_0000_0000_0000_0000
    ensures Steady(s, t, n).lastPresentedNs == s.lastPresentedNs + n * t
    ensures Steady(s, t, n).sampleCount == s.sampleCount + n
  {
    if n == 0 then s
    else
      assert (n - 1) * t + t == n * t;
      Record(Steady(s, t, n - 1), s.lastPresentedNs + n * t)
  }

  /** From any state past the warm-up, a steady display drives the estimate to its interval. */
  lemma SteadyConverges(s: Sync, t: nat, n: nat)
    requires InRange(s.frameIntervalNs) && InRange(t) && s.sampleCount >= WARM_UP && s.lastPresentedNs > 0
    requires n >= 162 && s.lastPresentedNs + n * t < 0x1_0000_0000_0000_0000
    ensures t - 7 <= Steady(s, t, n).frameIntervalNs <= t
  {
    SteadySmooths(s, t, n);
    Converges(s.frameIntervalNs, t, n);
  }

  lemma {:induction false} SteadySmooths(s: Sync, t: nat, n: nat)
    requires InRange(t) && s.sampleCount >= WARM_UP && s.lastPresentedNs > 0
    requires s.lastPresentedNs + n * t < 0x1_0000_0000_0000_0000
    ensures Steady(s, t, n).frameIntervalNs == Smoothed(s.frameIntervalNs, t, n)
  {
    if n > 0 {
      assert (n - 1) * t + t == n * t;
      SteadySmooths(s, t, n - 1);
    }
  }
}
