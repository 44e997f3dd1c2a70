/** The latency histogram: a ring of the most recent samples with running totals. */
module Latency {
  import opened Arith
  import opened Bytes

  /** Durations in nanoseconds. */
  type Duration = nat

  const DURATION_MAX: Duration := 18_446_744_073_709_551_615 * 1_000_000_000 + 999_999_999

  // ----- Specification -----

  /** The last `n` of the records. */
  function LastN(h: seq<Duration>, n: nat): seq<Duration> {
    if |h| <= n then h else h[|h| - n..]
  }

  function SumOf(h: seq<Duration>): nat {
    if h == [] then 0 else SumOf(h[..|h| - 1]) + h[|h| - 1]
  }

  function Min(a: nat, b: nat): nat {
    if a < b then a else b
  }

  function Max(a: nat, b: nat): nat {
    if a < b then b else a
  }

  /** The least record, `DURATION_MAX` if there is none. */
  function Least(h: seq<Duration>): nat {
    if h == [] then DURATION_MAX else Min(Least(h[..|h| - 1]), h[|h| - 1])
  }

  function Greatest(h: seq<Duration>): nat {
    if h == [] then 0 else Max(Greatest(h[..|h| - 1]), h[|h| - 1])
  }

  lemma {:induction false} Bounds(h: seq<Duration>, x: Duration)
    requires x in h
    ensures Least(h) <= x <= Greatest(h)
    decreases |h|
  {
    if x != h[|h| - 1] {
      Bounds(h[..|h| - 1], x);
    }
  }

  // ----- The ring -----

  /** Where record number `k` of the history sits in a ring of size `c`. */
  function At(k: nat, c: pos): nat {
    k % c
  }

  lemma NextAt(k: nat, c: pos)
    ensures At(k + 1, c) == if At(k, c) + 1 == c then 0 else At(k, c) + 1
    ensures (At(k, c) + 1) % c == At(k + 1, c)
  {
    DivModParts(k, c);
    var q, r := k / c, k % c;
    if r + 1 == c {
      assert (q + 1) * c == q * c + c;
      DivModUnique(k + 1, c, q + 1, 0);
      DivModUnique(c, c, 1, 0);
    } else {
      DivModUnique(k + 1, c, q, r + 1);
      DivModUnique(r + 1, c, 0, r + 1);
    }
  }

  /** The ring after history `h`: it grows to capacity and is then overwritten in a circle. */
  function Ring(h: seq<Duration>, c: pos): (r: seq<Duration>)
    ensures |r| == Min(|h|, c)
  {
    if h == [] then []
    else
      var before, x := Ring(h[..|h| - 1], c), h[|h| - 1];
      if |before| < c then before + [x] else before[At(|h| - 1, c) := x]
  }

  /** The ring, read from its oldest entry: it is rotated at the cursor once it is full. */
  function Unrolled(r: seq<Duration>, cursor: nat): seq<Duration>
    requires cursor <= |r|
  {
    r[cursor..] + r[..cursor]
  }

  lemma RingGrows(front: seq<Duration>, x: Duration, c: pos)
    requires |front| < c && Ring(front, c) == front
    ensures Ring(front + [x], c) == front + [x]
    ensures |front| + 1 == c ==> At(c, c) == 0 && Unrolled(front + [x], 0) == LastN(front + [x], c)
  {
    assert (front + [x])[..|front|] == front;
    DivModUnique(c, c, 1, 0);
  }

  /** Read from the cursor, a full ring is exactly the last `c` records in order; a ring not yet
      full is the whole history. */
  lemma {:induction false} RingUnrolls(h: seq<Duration>, c: pos)
    ensures |h| < c ==> Ring(h, c) == h
    ensures |h| >= c ==> At(|h|, c) < c && Unrolled(Ring(h, c), At(|h|, c)) == LastN(h, c)
    decreases |h|
  {
    hide At, LastN, Unrolled;
    if h != [] {
      var front, x := h[..|h| - 1], h[|h| - 1];
      RingUnrolls(front, c);
      assert h == front + [x];
      if |front| < c {
        RingGrows(front, x, c);
      } else {
        NextAt(|front|, c);
        RingOverwrites(front, x, c);
      }
    }
  }

  lemma LastNStep(front: seq<Duration>, x: Duration, c: pos)
    requires |front| >= c
    ensures LastN(front + [x], c) == LastN(front, c)[1..] + [x]
  {}

  lemma RingStep(front: seq<Duration>, x: Duration, c: pos)
    requires |front| >= c
    ensures At(|front|, c) < c && Ring(front + [x], c) == Ring(front, c)[At(|front|, c) := x]
  {
    assert (front + [x])[..|front|] == front;
  }

  lemma RingOverwrites(front: seq<Duration>, x: Duration, c: pos)
    requires |front| >= c && At(|front|, c) < c && At(|front| + 1, c) < c
    requires Unrolled(Ring(front, c), At(|front|, c)) == LastN(front, c)
    ensures Unrolled(Ring(front + [x], c), At(|front| + 1, c)) == LastN(front + [x], c)
  {
    hide At, Ring, LastN, Unrolled;
    NextAt(|front|, c);
    RingStep(front, x, c);
    Rotate(Ring(front, c), At(|front|, c), x);
    LastNStep(front, x, c);
  }

  lemma Rotate(r: seq<Duration>, k: nat, x: Duration)
    requires k < |r|
    ensures Unrolled(r[k := x], if k + 1 == |r| then 0 else k + 1) == Unrolled(r, k)[1..] + [x]
  {
    var next := r[k := x];
    if k + 1 == |r| {
      assert Unrolled(r, k) == [r[k]] + r[..k];
    } else {
      assert Unrolled(r, k) == [r[k]] + r[k + 1..] + r[..k];
    }
  }

  /** After any history the samples are exactly the last `min(count, capacity)` records. */
  lemma RingKeepsLast(h: seq<Duration>, c: pos)
    ensures multiset(Ring(h, c)) == multiset(LastN(h, c))
  {
    hide Ring, LastN;
    RingUnrolls(h, c);
    if |h| >= c {
      var r, k := Ring(h, c), At(|h|, c);
      assert r == r[..k] + r[k..];
    } else {
      assert LastN(h, c) == h by { AllOfThem(h, c); }
    }
  }

  lemma AllOfThem(h: seq<Duration>, c: pos)
    requires |h| <= c
    ensures LastN(h, c) == h
  {}

  // ----- Order statistics -----

  function CountBelow(s: seq<Duration>, x: Duration): nat {
    if s == [] then 0 else CountBelow(s[..|s| - 1], x) + if s[|s| - 1] < x then 1 else 0
  }

  /** `x` is the element of rank `k`: at most `k` elements are smaller, more than `k` are not greater. */
  predicate IsNth(s: seq<Duration>, k: nat, x: Duration) {
    x in s && CountBelow(s, x) <= k < CountBelow(s, x + 1)
  }

  lemma {:induction false} CountMonotone(s: seq<Duration>, x: Duration, y: Duration)
    requires x <= y
    ensures CountBelow(s, x) <= CountBelow(s, y)
  {
    if s != [] {
      CountMonotone(s[..|s| - 1], x, y);
    }
  }

  /** The element of a rank is unique, and ranks follow the order of the elements. */
  lemma NthOrdered(s: seq<Duration>, j: nat, k: nat, x: Duration, y: Duration)
    requires IsNth(s, j, x) && IsNth(s, k, y) && j <= k
    ensures x <= y && (j == k ==> x == y)
  {
    if y < x {
      CountMonotone(s, y + 1, x);
    }
    if x < y {
      CountMonotone(s, x + 1, y);
    }
  }

  predicate Sorted(s: seq<Duration>) {
    forall j, k :: 0 <= j <= k < |s| ==> s[j] <= s[k]
  }

  /** In a sorted sequence the element of rank `k` is the one at index `k`. */
  lemma {:induction false} SortedCounts(s: seq<Duration>, k: nat, x: Duration)
    requires Sorted(s) && k < |s|
    ensures x <= s[k] ==> CountBelow(s, x) <= k
    ensures s[k] < x ==> k < CountBelow(s, x)
    decreases |s|
  {
    var front := s[..|s| - 1];
    if k < |front| {
      SortedCounts(front, k, x);
    } else if s[k] < x && front != [] {
      SortedCounts(front, |front| - 1, x);
    } else if x <= s[k] {
      CountAtMost(front, x);
    }
  }

  lemma {:induction false} CountAtMost(s: seq<Duration>, x: Duration)
    ensures CountBelow(s, x) <= |s|
  {
    if s != [] {
      CountAtMost(s[..|s| - 1], x);
    }
  }

  function Inserted(s: seq<Duration>, k: nat, v: Duration): seq<Duration>
    requires k <= |s|
  {
    s[..k] + [v] + s[k..]
  }

  lemma {:induction false} CountInserted(s: seq<Duration>, k: nat, v: Duration, x: Duration)
    requires k <= |s|
    ensures CountBelow(Inserted(s, k, v), x) == CountBelow(s, x) + if v < x then 1 else 0
    decreases |s| - k
  {
    var r := Inserted(s, k, v);
    if k == |s| {
      assert s[..k] == s && r[..|r| - 1] == s;
    } else {
      var front := s[..|s| - 1];
      assert r[..|r| - 1] == Inserted(front, k, v);
      CountInserted(front, k, v, x);
    }
  }

  lemma InsertedContents(s: seq<Duration>, k: nat, v: Duration)
    requires k <= |s|
    ensures multiset(Inserted(s, k, v)) == multiset(s) + multiset{v}
  {
    assert s == s[..k] + s[k..];
  }

  lemma InsertedSorted(s: seq<Duration>, k: nat, v: Duration)
    requires Sorted(s) && k <= |s| && (k > 0 ==> s[k - 1] <= v) && (k < |s| ==> v <= s[k])
    ensures Sorted(Inserted(s, k, v))
  {
    var r := Inserted(s, k, v);
    forall i, j | 0 <= i <= j < |r| ensures r[i] <= r[j] {
      assert r[i] == if i < k then s[i] else if i == k then v else s[i - 1];
      assert r[j] == if j < k then s[j] else if j == k then v else s[j - 1];
    }
  }

  method Insert(s: seq<Duration>, v: Duration) returns (r: seq<Duration>)
    requires Sorted(s)
    ensures Sorted(r) && multiset(r) == multiset(s) + multiset{v}
    ensures forall x :: CountBelow(r, x) == CountBelow(s, x) + if v < x then 1 else 0
  {
    hide Inserted, CountBelow;
    var k := |s|;
    while k > 0 && s[k - 1] > v
      invariant 0 <= k <= |s| && (k < |s| ==> v <= s[k])
    {
      k := k - 1;
    }
    r := Inserted(s, k, v);
    InsertedSorted(s, k, v);
    InsertedContents(s, k, v);
    forall x ensures CountBelow(r, x) == CountBelow(s, x) + if v < x then 1 else 0 {
      CountInserted(s, k, v, x);
    }
  }

  /** Any sort would do; what counts is that the result is a sorted rearrangement. */
  method Sort(s: seq<Duration>) returns (r: seq<Duration>)
    ensures Sorted(r) && multiset(r) == multiset(s)
    ensures forall x :: CountBelow(r, x) == CountBelow(s, x)
  {
    r := [];
    for i := 0 to |s|
      invariant Sorted(r) && multiset(r) == multiset(s[..i])
      invariant forall x :: CountBelow(r, x) == CountBelow(s[..i], x)
    {
      assert s[..i + 1] == s[..i] + [s[i]] && s[..i + 1][..i] == s[..i];
      r := Insert(r, s[i]);
    }
    assert s[..|s|] == s;
  }

  // ----- The histogram -----

  function P99Index(n: pos): nat {
    if n * 99 / 100 < n - 1 then n * 99 / 100 else n - 1
  }

  /** What `percentiles` returns for a ring: the samples of rank n/2 and min(99n/100, n - 1). */
  predicate ArePercentiles(s: seq<Duration>, p50: Duration, p99: Duration) {
    if s == [] then p50 == 0 && p99 == 0
    else IsNth(s, |s| / 2, p50) && IsNth(s, P99Index(|s|), p99)
  }

  /** The sum over the count cut to 32 bits, zero for no records. */
  function Average(sum: nat, count: nat): nat
    requires count == 0 || count % 0x1_0000_0000 != 0
  {
    if count == 0 then 0 else sum / (count % 0x1_0000_0000)
  }

  /** The sample vector and the cursor after a history, for every capacity. */
  function Samples(h: seq<Duration>, capacity: nat): seq<Duration> {
    if capacity == 0 then [] else Ring(h, capacity)
  }

  function Cursor(h: seq<Duration>, capacity: nat): nat {
    if capacity == 0 then 0 else At(|h|, capacity)
  }

  /** The vector is at its capacity without a slot under the cursor only if it has no capacity. */
  lemma FullRing(h: seq<Duration>, capacity: nat)
    ensures |Samples(h, capacity)| >= capacity && Cursor(h, capacity) >= |Samples(h, capacity)| <==> capacity == 0
  {
    if capacity > 0 {
      DivModParts(|h|, capacity);
    }
  }

  datatype Stats = Stats(count: nat, min: Duration, max: Duration, avg: Duration, p50: Duration, p99: Duration)

  class LatencyHistogram {
    /** The capacity the sample vector was given, which never changes. */
    const capacity: nat
    var samples: seq<Duration>
    var cursor: nat
    var count: nat
    var sum: nat
    var min: Duration
    var max: Duration
    /** Every record since the last reset. */
    ghost var history: seq<Duration>

    ghost predicate Valid()
      reads this
    {
      && (capacity == 0 ==> history == [])
      && samples == Samples(history, capacity) && cursor == Cursor(history, capacity) && count == |history|
      && sum == SumOf(history) && min == Least(history) && max == Greatest(history)
    }

    constructor (capacity: nat)
      ensures Valid() && this.capacity == capacity && history == []
    {
      this.capacity := capacity;
      samples, cursor, count, sum, min, max, history := [], 0, 0, 0, DURATION_MAX, 0, [];
    }

    /** The result tells whether the code panics: a vector without capacity has no slot to write. */
    method Record(latency: Duration) returns (panicked: bool)
      requires Valid()
      modifies this
      ensures Valid() && (panicked <==> capacity == 0)
      ensures history == if panicked then old(history) else old(history) + [latency]
    {
      if |samples| >= capacity && cursor >= |samples| {
        FullRing(history, capacity);
        return true;
      }
      FullRing(history, capacity);
      NextAt(|history|, capacity);
      history := history + [latency];
      assert history[..|history| - 1] == old(history);
      if |samples| < capacity {
        samples := samples + [latency];
      } else {
        samples := samples[cursor := latency];
      }
      cursor := (cursor + 1) % Max(capacity, 1);
      count := count + 1;
      sum := sum + latency;
      min := Min(min, latency);
      max := Max(max, latency);
      return false;
    }

    method RecordNs(startNs: u64, endNs: u64) returns (panicked: bool)
      requires Valid()
      modifies this
      ensures Valid() && (panicked <==> capacity == 0 && endNs > startNs)
      ensures history == if endNs > startNs && !panicked then old(history) + [endNs - startNs] else old(history)
    {
      panicked := false;
      if endNs > startNs {
        panicked := Record(endNs - startNs);
      }
    }

    method Reset()
      requires Valid()
      modifies this
      ensures Valid() && history == []
    {
      samples, cursor, count, sum, min, max, history := [], 0, 0, 0, DURATION_MAX, 0, [];
    }

    method Percentiles() returns (p50: Duration, p99: Duration)
      ensures ArePercentiles(samples, p50, p99)
    {
      if samples == [] {
        return 0, 0;
      }
      var sorted := Sort(samples);
      assert |sorted| == |samples| by {
        assert |multiset(sorted)| == |multiset(samples)|;
      }
      p50, p99 := sorted[|sorted| / 2], sorted[P99Index(|sorted|)];
      SortedNth(samples, sorted, |sorted| / 2);
      SortedNth(samples, sorted, P99Index(|sorted|));
    }

    /** `None` is the panic of a division by zero: the count is cut to 32 bits first. */
    method GetStats() returns (r: Option<Stats>)
      requires Valid()
      ensures r.None? <==> |history| > 0 && |history| % 0x1_0000_0000 == 0
      ensures r.Some? ==>
                && r.value.count == |history|
                && r.value.min == (if history == [] then 0 else Least(history)) && r.value.max == Greatest(history)
                && r.value.avg == (if history == [] then 0 else SumOf(history) / (|history| % 0x1_0000_0000))
                && ArePercentiles(Samples(history, capacity), r.value.p50, r.value.p99)
    {
      hide ArePercentiles, Samples, Cursor, SumOf, Least, Greatest;
      if count > 0 && count % 0x1_0000_0000 == 0 {
        return None;
      }
      var avg := Average(sum, count);
      var p50, p99 := Percentiles();
      return Some(Stats(count, if count > 0 then min else 0, max, avg, p50, p99));
    }
  }

  lemma SortedNth(s: seq<Duration>, sorted: seq<Duration>, k: nat)
    requires Sorted(sorted) && multiset(sorted) == multiset(s) && k < |sorted|
    requires forall x :: CountBelow(sorted, x) == CountBelow(s, x)
    ensures IsNth(s, k, sorted[k])
  {
    SortedCounts(sorted, k, sorted[k]);
    SortedCounts(sorted, k, sorted[k] + 1);
    assert sorted[k] in multiset(sorted);
  }

  lemma LastNSubset(h: seq<Duration>, n: nat, x: Duration)
    requires x in LastN(h, n)
    ensures x in h
  {}

  /** With at least one record since the reset: min <= p50 <= p99 <= max, for every capacity. */
  lemma PercentilesOrdered(history: seq<Duration>, c: pos, p50: Duration, p99: Duration)
    requires history != [] && ArePercentiles(Samples(history, c), p50, p99)
    ensures Least(history) <= p50 <= p99 <= Greatest(history)
  {
    var r := Ring(history, c);
    RingKeepsLast(history, c);
    NthOrdered(r, |r| / 2, P99Index(|r|), p50, p99);
    forall x | x in r ensures x in history {
      assert x in multiset(r);
      LastNSubset(history, c, x);
    }
    Bounds(history, p50);
    Bounds(history, p99);
  }

  /** By counts: at most half of the samples are below p50 and more than half of them are not above it;
      at most 99 in a hundred are below p99 and more than that are not above it. These are the only
      samples of which that is true. */
  lemma PercentilesByCount(s: seq<Duration>, p50: Duration, p99: Duration)
    requires s != []
    ensures ArePercentiles(s, p50, p99)
       <==> && p50 in s && 2 * CountBelow(s, p50) <= |s| < 2 * CountBelow(s, p50 + 1)
            && p99 in s && 100 * CountBelow(s, p99) <= 99 * |s| < 100 * CountBelow(s, p99 + 1)
  {
    hide CountBelow;
    assert P99Index(|s|) == 99 * |s| / 100;
  }

  /** The extremes of records that a duration can hold are records. */
  lemma {:induction false} ExtremesAttained(h: seq<Duration>)
    requires h != [] && forall k :: 0 <= k < |h| ==> h[k] <= DURATION_MAX
    ensures Least(h) in h && Greatest(h) in h
    decreases |h|
  {
    var front := h[..|h| - 1];
    assert h == front + [h[|h| - 1]];
    if front != [] {
      ExtremesAttained(front);
    }
  }

  /** The sum is additive, and of one record it is that record. */
  lemma {:induction false} SumSplits(a: seq<Duration>, b: seq<Duration>)
    ensures SumOf(a + b) == SumOf(a) + SumOf(b) && forall x: Duration :: SumOf([x]) == x
    decreases |b|
  {
    if b == [] {
      assert a + b == a;
    } else {
      assert (a + b)[..|a + b| - 1] == a + b[..|b| - 1];
      SumSplits(a, b[..|b| - 1]);
    }
    forall x: Duration ensures SumOf([x]) == x {
      assert [x][..0] == [];
    }
  }

  lemma TimesNext(v: nat, n: nat)
    ensures v * (n + 1) == v * n + v
  {}

  lemma {:induction false} SumBetween(h: seq<Duration>, lo: nat, hi: nat)
    requires forall k :: 0 <= k < |h| ==> lo <= h[k] <= hi
    ensures lo * |h| <= SumOf(h) <= hi * |h|
    decreases |h|
  {
    if h != [] {
      var front := h[..|h| - 1];
      SumBetween(front, lo, hi);
      TimesNext(lo, |front|);
      TimesNext(hi, |front|);
    }
  }

  /** While the count fits 32 bits, min <= average <= max. */
  lemma AverageBetween(h: seq<Duration>)
    requires 0 < |h| < 0x1_0000_0000
    ensures Least(h) <= Average(SumOf(h), |h|) <= Greatest(h)
  {
    hide SumOf, Least, Greatest;
    forall k | 0 <= k < |h| ensures Least(h) <= h[k] <= Greatest(h) {
      Bounds(h, h[k]);
    }
    SumBetween(h, Least(h), Greatest(h));
    QuotientBetween(SumOf(h), |h|, Least(h), Greatest(h));
  }

  lemma QuotientBetween(sum: nat, n: pos, lo: nat, hi: nat)
    requires lo * n <= sum <= hi * n
    ensures lo <= sum / n <= hi
  {
    DivModParts(sum, n);
    var q := sum / n;
    if q < lo {
      MulStrict(q, lo, n);
    }
    if hi < q {
      MulStrict(hi, q, n);
    }
  }

  /** The average is the floor of the mean, whatever the sum, exactly as long as the count fits 32 bits. */
  lemma AverageIsMean(count: pos)
    ensures (count % 0x1_0000_0000 != 0 && forall sum: nat :: Average(sum, count) == sum / count)
       <==> count < 0x1_0000_0000
  {
    var m := count % 0x1_0000_0000;
    if count >= 0x1_0000_0000 && m != 0 {
      DivModUnique(m, m, 1, 0);
      DivModUnique(m, count, 0, m);
      assert Average(m, count) != m / count;
    }
  }
}
