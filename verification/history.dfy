/**
 The per-wallet hashrate history: for every algorithm key a series of
 timestamped samples, oldest first, held in a deque of capacity 144 and pruned
 of samples older than 24 hours whenever that key is updated. Timestamps are
 whole seconds; the caller passes the current time in as `now`.
 */
module HashrateHistory {

  /** Maximum number of samples a series holds (the deque's `maxlen`). */
  const Capacity: nat := 144

  /** Age, in seconds, beyond which a sample is evicted on update (24 hours). */
  const Window: int := 86400

  datatype Sample = Sample(timestamp: int, hashrate: real)

  type Series = seq<Sample>

  type History = map<string, Series>

  /** The series stored under `key`; an absent key reads as empty. */
  function SeriesOf(h: History, key: string): Series
  {
    if key in h then h[key] else []
  }

  function Min(a: nat, b: nat): nat
  {
    if a <= b then a else b
  }

  /** `t` is a suffix of `u`: its samples are the last `|t|` samples of `u`,
      in order. */
  predicate IsSuffix(t: Series, u: Series)
  {
    |t| <= |u| && forall i :: 0 <= i < |t| ==> t[i] == u[|u| - |t| + i]
  }

  /** The most recent `n` samples of `s`: what a deque with `maxlen = n`
      holds after receiving the samples of `s` in order. */
  function KeepLast(s: Series, n: nat): (r: Series)
    ensures |r| == Min(|s|, n)
    ensures IsSuffix(r, s)
  {
    if |s| <= n then s else s[|s| - n..]
  }

  /** Appending to a bounded deque: the new sample always goes in, and when
      the deque is already full the leftmost sample falls out. */
  function AppendBounded(s: Series, x: Sample): (r: Series)
    ensures |r| == Min(|s| + 1, Capacity)
    ensures IsSuffix(r, s + [x])
  {
    KeepLast(s + [x], Capacity)
  }

  /** Below capacity, appending keeps everything; at capacity it drops exactly
      the oldest sample. */
  lemma AppendBoundedCases(s: Series, x: Sample)
    requires |s| <= Capacity
    ensures |s| < Capacity ==> AppendBounded(s, x) == s + [x]
    ensures |s| == Capacity ==> AppendBounded(s, x) == s[1..] + [x]
  {
    var r := AppendBounded(s, x);
    if |s| == Capacity {
      assert forall i :: 0 <= i < |r| ==> r[i] == (s[1..] + [x])[i];
    } else {
      assert forall i :: 0 <= i < |r| ==> r[i] == (s + [x])[i];
    }
  }

  /** A sample is stale at `now` when it is strictly older than 24 hours; a
      sample exactly 24 hours old is kept. */
  predicate IsStale(x: Sample, now: int)
  {
    x.timestamp < now - Window
  }

  /** Pops samples off the front while the front one is stale. The result is a
      suffix of `s`, everything removed was stale, and the new front (if any)
      is not. Later samples are not inspected, so an out-of-order stale sample
      behind a fresh one survives. */
  function EvictStale(s: Series, now: int): (r: Series)
    ensures IsSuffix(r, s)
    ensures forall i :: 0 <= i < |s| - |r| ==> IsStale(s[i], now)
    ensures |r| > 0 ==> !IsStale(r[0], now)
    decreases |s|
  {
    if |s| > 0 && IsStale(s[0], now) then EvictStale(s[1..], now) else s
  }

  /** The series-level step of an update: append the sample `(now, value)`
      to the bounded deque, then evict stale samples from the front. The
      result is a non-empty suffix of `s` plus the new sample that ends with
      the new sample, holds at most `Capacity` samples and starts no earlier
      than 24 hours before `now`; every sample dropped was either pushed out
      by the capacity bound or stale. */
  function AppendAndEvict(s: Series, value: real, now: int): (r: Series)
    ensures 0 < |r| <= Capacity
    ensures IsSuffix(r, s + [Sample(now, value)])
    ensures r[|r| - 1] == Sample(now, value)
    ensures r[0].timestamp >= now - Window
    ensures forall i :: 0 <= i < |s| + 1 - |r| ==>
              i < |s| + 1 - Capacity || IsStale((s + [Sample(now, value)])[i], now)
  {
    AppendAndEvictFacts(s, value, now);
    EvictStale(AppendBounded(s, Sample(now, value)), now)
  }

  /** The proof of `AppendAndEvict`'s contract, kept apart from the function
      so that its definition stays small wherever it is unfolded. */
  lemma AppendAndEvictFacts(s: Series, value: real, now: int)
    ensures var r := EvictStale(AppendBounded(s, Sample(now, value)), now);
            && 0 < |r| <= Capacity
            && IsSuffix(r, s + [Sample(now, value)])
            && r[|r| - 1] == Sample(now, value)
            && r[0].timestamp >= now - Window
            && forall i :: 0 <= i < |s| + 1 - |r| ==>
                 i < |s| + 1 - Capacity || IsStale((s + [Sample(now, value)])[i], now)
  {
    var full := s + [Sample(now, value)];
    var kept := AppendBounded(s, Sample(now, value));
    var r := EvictStale(kept, now);
    assert !IsStale(kept[|kept| - 1], now);
    SuffixOfSuffix(r, kept, full);
    DroppedByEither(full, kept, r, now);
  }

  lemma SuffixOfSuffix(a: Series, b: Series, c: Series)
    requires IsSuffix(a, b) && IsSuffix(b, c)
    ensures IsSuffix(a, c)
  {
    forall i | 0 <= i < |a|
      ensures a[i] == c[|c| - |a| + i]
    {
      assert a[i] == b[|b| - |a| + i];
    }
  }

  lemma DroppedByEither(full: Series, kept: Series, r: Series, now: int)
    requires IsSuffix(kept, full) && |kept| == Min(|full|, Capacity)
    requires IsSuffix(r, kept)
    requires forall i :: 0 <= i < |kept| - |r| ==> IsStale(kept[i], now)
    ensures forall i :: 0 <= i < |full| - |r| ==> i < |full| - Capacity || IsStale(full[i], now)
  {
    var d := |full| - |kept|;
    forall i | 0 <= i < |full| - |r| && d <= i
      ensures IsStale(full[i], now)
    {
      assert kept[i - d] == full[i];
    }
  }

  /** Records the aggregated `value` for `key` at time `now`: the key is
      created with an empty series if absent, no other key changes, and the
      key's series takes the new sample as `AppendAndEvict` describes. */
  function Update(h: History, key: string, value: real, now: int): (h': History)
    ensures h'.Keys == h.Keys + {key}
    ensures forall k :: k in h && k != key ==> h'[k] == h[k]
    ensures h'[key] == AppendAndEvict(SeriesOf(h, key), value, now)
  {
    h[key := AppendAndEvict(SeriesOf(h, key), value, now)]
  }

  /** Timestamps never decrease along the series. */
  predicate Chronological(s: Series)
  {
    forall i, j :: 0 <= i <= j < |s| ==> s[i].timestamp <= s[j].timestamp
  }

  /** No sample of `s` is later than `now`. */
  predicate NotAfter(s: Series, now: int)
  {
    forall i :: 0 <= i < |s| ==> s[i].timestamp <= now
  }

  /** The store-wide invariant at time `now`: every series is within
      capacity, chronological and holds no sample from the future. */
  predicate WellFormed(h: History, now: int)
  {
    forall k :: k in h ==> |h[k]| <= Capacity && Chronological(h[k]) && NotAfter(h[k], now)
  }

  lemma ChronologicalSnoc(s: Series, x: Sample)
    requires Chronological(s) && NotAfter(s, x.timestamp)
    ensures Chronological(s + [x]) && NotAfter(s + [x], x.timestamp)
  {
    var full := s + [x];
    forall i, j | 0 <= i <= j < |full|
      ensures full[i].timestamp <= full[j].timestamp
    {
      if j < |s| {
        assert full[i] == s[i] && full[j] == s[j];
      } else {
        assert full[i].timestamp <= x.timestamp;
      }
    }
  }

  lemma ChronologicalSuffix(t: Series, u: Series, now: int)
    requires IsSuffix(t, u) && Chronological(u) && NotAfter(u, now)
    ensures Chronological(t) && NotAfter(t, now)
  {
    var d := |u| - |t|;
    forall i, j | 0 <= i <= j < |t|
      ensures t[i].timestamp <= t[j].timestamp
    {
      assert t[i] == u[d + i] && t[j] == u[d + j];
    }
    forall i | 0 <= i < |t|
      ensures t[i].timestamp <= now
    {
      assert t[i] == u[d + i];
    }
  }

  /** If the old series was chronological and not later than `now`, the
      series after appending and evicting is chronological and lies entirely
      in the 24-hour window ending at `now`. */
  lemma AppendAndEvictWithinWindow(s: Series, value: real, now: int)
    requires Chronological(s) && NotAfter(s, now)
    ensures var r := AppendAndEvict(s, value, now);
            && Chronological(r)
            && forall i :: 0 <= i < |r| ==> now - Window <= r[i].timestamp <= now
  {
    var r := AppendAndEvict(s, value, now);
    ChronologicalSnoc(s, Sample(now, value));
    ChronologicalSuffix(r, s + [Sample(now, value)], now);
    forall i | 0 <= i < |r|
      ensures now - Window <= r[i].timestamp
    {
      assert r[0].timestamp <= r[i].timestamp;
    }
  }

  /** The same at the level of the history: after an update, the key's series
      lies entirely in the 24-hour window ending at `now`. */
  lemma UpdateWithinWindow(h: History, key: string, value: real, now: int)
    requires Chronological(SeriesOf(h, key)) && NotAfter(SeriesOf(h, key), now)
    ensures var s := Update(h, key, value, now)[key];
            && Chronological(s)
            && forall i :: 0 <= i < |s| ==> now - Window <= s[i].timestamp <= now
  {
    AppendAndEvictWithinWindow(SeriesOf(h, key), value, now);
  }

  /** Updates preserve the store-wide invariant as time moves forward. */
  lemma UpdatePreservesWellFormed(h: History, key: string, value: real, before: int, now: int)
    requires WellFormed(h, before) && before <= now
    ensures WellFormed(Update(h, key, value, now), now)
  {
    var h' := Update(h, key, value, now);
    UpdatedKeyWellFormed(h, key, value, before, now);
    forall k | k in h' && k != key
      ensures |h'[k]| <= Capacity && Chronological(h'[k]) && NotAfter(h'[k], now)
    {
      assert h'[k] == h[k];
      NotAfterLater(h[k], before, now);
    }
  }

  lemma NotAfterLater(s: Series, before: int, now: int)
    requires NotAfter(s, before) && before <= now
    ensures NotAfter(s, now)
  {
  }

  lemma UpdatedKeyWellFormed(h: History, key: string, value: real, before: int, now: int)
    requires WellFormed(h, before) && before <= now
    ensures var s := Update(h, key, value, now)[key];
            |s| <= Capacity && Chronological(s) && NotAfter(s, now)
  {
    var s0 := SeriesOf(h, key);
    if key in h {
      NotAfterLater(s0, before, now);
    }
    AppendAndEvictWithinWindow(s0, value, now);
  }

  /** Sum of the hashrates of a series. */
  function SumRates(s: Series): real
  {
    if |s| == 0 then 0.0 else SumRates(s[..|s| - 1]) + s[|s| - 1].hashrate
  }

  /** The smallest hashrate in a non-empty series. */
  function MinRate(s: Series): (r: real)
    requires |s| > 0
    ensures forall i :: 0 <= i < |s| ==> r <= s[i].hashrate
    ensures exists i :: 0 <= i < |s| && r == s[i].hashrate
  {
    if |s| == 1 then s[0].hashrate
    else
      var m := MinRate(s[..|s| - 1]);
      if s[|s| - 1].hashrate < m then s[|s| - 1].hashrate else m
  }

  /** The largest hashrate in a non-empty series. */
  function MaxRate(s: Series): (r: real)
    requires |s| > 0
    ensures forall i :: 0 <= i < |s| ==> s[i].hashrate <= r
    ensures exists i :: 0 <= i < |s| && r == s[i].hashrate
  {
    if |s| == 1 then s[0].hashrate
    else
      var m := MaxRate(s[..|s| - 1]);
      if m < s[|s| - 1].hashrate then s[|s| - 1].hashrate else m
  }

  /** The sum of a series lies between its length times its least and its
      length times its greatest rate, for any such bounds. */
  lemma {:induction false} SumRatesBetween(s: Series, lo: real, hi: real)
    requires forall i :: 0 <= i < |s| ==> lo <= s[i].hashrate <= hi
    ensures |s| as real * lo <= SumRates(s) <= |s| as real * hi
  {
    if |s| > 0 {
      SumRatesBetween(s[..|s| - 1], lo, hi);
      assert lo <= s[|s| - 1].hashrate <= hi;
      assert |s| as real * lo == (|s| - 1) as real * lo + lo;
      assert |s| as real * hi == (|s| - 1) as real * hi + hi;
    }
  }

  /** A mean of `n` values that sum to `total` lies between their bounds. */
  lemma MeanBetween(total: real, n: real, lo: real, hi: real)
    requires n > 0.0 && n * lo <= total <= n * hi
    ensures lo <= total / n <= hi
    ensures total / n * n == total
  {
  }

  /** The mean of a non-empty series lies between any bounds of its rates,
      and times the length gives back the sum. */
  lemma MeanOfSeries(s: Series, lo: real, hi: real)
    requires |s| > 0
    requires forall i :: 0 <= i < |s| ==> lo <= s[i].hashrate <= hi
    ensures var mean := SumRates(s) / |s| as real;
            mean * |s| as real == SumRates(s) && lo <= mean <= hi
  {
    SumRatesBetween(s, lo, hi);
    MeanBetween(SumRates(s), |s| as real, lo, hi);
  }

  /** The arithmetic mean of a non-empty series: times the length it gives
      back the sum, and it lies between the least and greatest rate. */
  function Mean(s: Series): (r: real)
    requires |s| > 0
    ensures r * |s| as real == SumRates(s)
    ensures MinRate(s) <= r <= MaxRate(s)
  {
    MeanOfSeries(s, MinRate(s), MaxRate(s));
    SumRates(s) / |s| as real
  }

  /** The 24-hour average reported for `key`: zero for an absent key or an
      empty series, otherwise the mean of the series, which lies between its
      least and greatest hashrate. */
  function Average(h: History, key: string): (r: real)
    ensures key !in h || |h[key]| == 0 ==> r == 0.0
    ensures key in h && |h[key]| > 0 ==> r == Mean(h[key])
    ensures key in h && |h[key]| > 0 ==> MinRate(h[key]) <= r <= MaxRate(h[key])
  {
    if key in h && |h[key]| > 0 then Mean(h[key]) else 0.0
  }

  /** A series whose samples all carry the same rate averages to that rate. */
  lemma AverageOfConstant(h: History, key: string, v: real)
    requires key in h && |h[key]| > 0
    requires forall i :: 0 <= i < |h[key]| ==> h[key][i].hashrate == v
    ensures Average(h, key) == v
  {
    var s := h[key];
    assert MinRate(s) == v && MaxRate(s) == v;
  }

  /** Worked examples: an absent key averages to zero, and samples
      10, 20, 30 average to 20. */
  lemma AverageExamples(t: int)
    ensures Average(map[], "x") == 0.0
    ensures Average(map["x" := [Sample(t, 10.0), Sample(t, 20.0), Sample(t, 30.0)]], "x") == 20.0
  {
    var s := [Sample(t, 10.0), Sample(t, 20.0), Sample(t, 30.0)];
    assert s[..2][..1] == s[..1];
    assert s[..1][..0] == [];
    assert SumRates(s[..1]) == 10.0;
    assert SumRates(s[..2]) == 30.0;
    assert SumRates(s) == 60.0;
  }
}
