// Redis_Stat: time-bucketed counters. A statistic is counted in one Redis key
// per rollup period; the key names the statistic, the period's duration and
// the start of the bucket the current time falls into.

module Stat {
  import opened Wrappers
  import Text
  import PhpArray

  /** Prefix of every data point key. */
  const KeyPrefix: string := "s"

  const Duration10Min: int := 600
  const Duration1Hr: int := 3600
  const Duration1Day: int := 86400

  /** A rollup period: bucket length in seconds and the number of samples kept. */
  datatype Period = Period(duration: int, maxSamples: int)

  /** Ten-minute, hourly and daily buckets. */
  const DefaultPeriods: seq<Period> :=
    [Period(Duration10Min, 288), Period(Duration1Hr, 240), Period(Duration1Day, 90)]

  /** A duration of zero would make `intval($t / $d)` divide by zero. */
  predicate ValidPeriods(periods: seq<Period>)
  {
    forall i :: 0 <= i < |periods| ==> periods[i].duration > 0
  }

  // ---------------------------------------------------------------------------
  // Bucket arithmetic

  /** `intval($t / $d)`: the quotient truncated toward zero. */
  function TruncDiv(t: int, d: int): (q: int)
    requires d > 0
    ensures t >= 0 ==> q >= 0 && q * d <= t < q * d + d
    ensures t < 0 ==> q <= 0 && q * d - d < t <= q * d
  {
    if t >= 0 then t / d else -((-t) / d)
  }

  /** `intval($t / $d) * $d`: the start of the bucket of length `d` containing `t`. */
  function PeriodStart(t: int, d: int): int
    requires d > 0
  {
    TruncDiv(t, d) * d
  }

  /**
   * For a non-negative time the bucket start is a multiple of the duration at
   * most the time and less than one duration before it. For a negative time the
   * truncation rounds up instead, so the time lies in the duration before it.
   */
  lemma PeriodStartBounds(t: int, d: int)
    requires d > 0
    ensures PeriodStart(t, d) % d == 0
    ensures t >= 0 ==> 0 <= PeriodStart(t, d) <= t < PeriodStart(t, d) + d
    ensures t < 0 ==> PeriodStart(t, d) - d < t <= PeriodStart(t, d) <= 0
  {
    MultipleMod(TruncDiv(t, d), d);
  }

  lemma MulAtLeast(d: int, k: int)
    requires d > 0 && k >= 1
    ensures d * k >= d
    decreases k
  {
    assert d * k == d * (k - 1) + d;
    if k > 1 {
      MulAtLeast(d, k - 1);
    }
  }

  lemma MultipleMod(q: int, d: int)
    requires d > 0
    ensures (q * d) % d == 0
  {
    var a := q * d;
    var k := q - a / d;
    assert a == d * (a / d) + a % d;
    assert a % d == d * k by {
      assert d * q - d * (a / d) == d * (q - a / d);
    }
    if k >= 1 {
      MulAtLeast(d, k);
    }
  }

  /** Multiplying by a positive duration preserves order both ways. */
  lemma ScaleOrder(x: int, y: int, d: int)
    requires d > 0
    ensures x <= y <==> x * d <= y * d
    ensures x < y <==> x * d < y * d
  {
    if x < y {
      assert y * d - x * d == d * (y - x);
      MulAtLeast(d, y - x);
    } else if y < x {
      assert x * d - y * d == d * (x - y);
      MulAtLeast(d, x - y);
    }
  }

  // ---------------------------------------------------------------------------
  // Keys

  /** `_analyticsKey`: "s", the statistic, the duration and the start, joined by ':'. */
  function AnalyticsKey(stat: string, duration: int, start: int): string
  {
    Text.Join(":", [KeyPrefix, stat, Text.IntToString(duration), Text.IntToString(start)])
  }

  lemma AnalyticsKeyText(stat: string, duration: int, start: int)
    ensures AnalyticsKey(stat, duration, start) ==
            "s:" + stat + ":" + Text.IntToString(duration) + ":" + Text.IntToString(start)
  {
    var d, p := Text.IntToString(duration), Text.IntToString(start);
    var parts := [KeyPrefix, stat, d, p];
    assert parts[1..] == [stat, d, p];
    assert parts[1..][1..] == [d, p];
    assert parts[1..][1..][1..] == [p];
    assert Text.Join(":", [d, p]) == d + ":" + p;
    assert Text.Join(":", [stat, d, p]) == stat + ":" + d + ":" + p;
  }

  /** Position of the last ':' of `s`, if any. */
  function LastColon(s: string): (r: Option<nat>)
    ensures r.Some? ==> r.value < |s| && s[r.value] == ':' &&
                        forall k :: r.value < k < |s| ==> s[k] != ':'
    ensures r.None? ==> forall k :: 0 <= k < |s| ==> s[k] != ':'
    decreases |s|
  {
    if |s| == 0 then None
    else if s[|s| - 1] == ':' then Some(|s| - 1)
    else LastColon(s[..|s| - 1])
  }

  lemma {:induction false} LastColonBefore(x: string, y: string)
    requires Text.NoColon(y)
    ensures LastColon(x + ":" + y) == Some(|x|)
    decreases |y|
  {
    var s := x + ":" + y;
    if |y| > 0 {
      var front := y[..|y| - 1];
      assert s[..|s| - 1] == x + ":" + front;
      assert s[|s| - 1] == y[|y| - 1];
      LastColonBefore(x, front);
    }
  }

  lemma IntTextHasNoColon(n: int)
    ensures Text.NoColon(Text.IntToString(n))
  {
  }

  /**
   * Reads a data point key back: the statistic may itself contain ':', so the
   * duration and the start are taken from the right.
   */
  function ParseKey(key: string): Option<(string, int, int)>
  {
    if |key| < 2 || key[..2] != "s:" then None
    else
      var r := key[2..];
      match LastColon(r)
      case None => None
      case Some(i) =>
        match LastColon(r[..i])
        case None => None
        case Some(j) =>
          match (Text.ParseInt(r[j + 1..i]), Text.ParseInt(r[i + 1..]))
          case (Some(d), Some(p)) => Some((r[..j], d, p))
          case _ => None
  }

  /** Every key reads back as the statistic, duration and start it was built from. */
  lemma ParseAnalyticsKey(stat: string, duration: int, start: int)
    ensures ParseKey(AnalyticsKey(stat, duration, start)) == Some((stat, duration, start))
  {
    AnalyticsKeyText(stat, duration, start);
    var d, p := Text.IntToString(duration), Text.IntToString(start);
    var key := AnalyticsKey(stat, duration, start);
    var r := stat + ":" + d + ":" + p;
    assert key[..2] == "s:";
    assert key[2..] == r;
    IntTextHasNoColon(duration);
    IntTextHasNoColon(start);
    assert r == (stat + ":" + d) + ":" + p;
    LastColonBefore(stat + ":" + d, p);
    var i := |stat| + 1 + |d|;
    assert r[..i] == stat + ":" + d;
    LastColonBefore(stat, d);
    assert r[|stat| + 1..i] == d;
    assert r[i + 1..] == p;
    assert r[..|stat|] == stat;
    Text.IntToStringRoundTrip(duration);
    Text.IntToStringRoundTrip(start);
  }

  /** Distinct (statistic, duration, start) triples never share a key. */
  lemma AnalyticsKeyInjective(s1: string, d1: int, p1: int, s2: string, d2: int, p2: int)
    requires AnalyticsKey(s1, d1, p1) == AnalyticsKey(s2, d2, p2)
    ensures s1 == s2 && d1 == d2 && p1 == p2
  {
    ParseAnalyticsKey(s1, d1, p1);
    ParseAnalyticsKey(s2, d2, p2);
  }

  /** The keys `_analyticsKeys` computes at time `now`, one per period. */
  function AnalyticsKeysAt(stat: string, periods: seq<Period>, now: int): (keys: seq<string>)
    requires ValidPeriods(periods)
    ensures |keys| == |periods|
  {
    seq(|periods|, i requires 0 <= i < |periods| =>
      AnalyticsKey(stat, periods[i].duration, PeriodStart(now, periods[i].duration)))
  }

  /** `_analyticsKeys`: the foreach over the periods. */
  method AnalyticsKeys(stat: string, periods: seq<Period>, now: int) returns (keys: seq<string>)
    requires ValidPeriods(periods)
    ensures keys == AnalyticsKeysAt(stat, periods, now)
  {
    keys := [];
    for i := 0 to |periods|
      invariant keys == AnalyticsKeysAt(stat, periods, now)[..i]
    {
      var duration := periods[i].duration;
      var periodStart := TruncDiv(now, duration) * duration;
      keys := keys + [AnalyticsKey(stat, duration, periodStart)];
    }
  }

  /**
   * The i-th key names the statistic, the i-th duration and, for a non-negative
   * time, a multiple of that duration at most `now` and within one duration of it.
   */
  lemma AnalyticsKeysCoverNow(stat: string, periods: seq<Period>, now: int, i: int)
    requires ValidPeriods(periods) && 0 <= i < |periods| && now >= 0
    ensures var d := periods[i].duration;
            exists start :: ParseKey(AnalyticsKeysAt(stat, periods, now)[i]) == Some((stat, d, start)) &&
                            start % d == 0 && start <= now < start + d
  {
    var d := periods[i].duration;
    var start := PeriodStart(now, d);
    ParseAnalyticsKey(stat, d, start);
    PeriodStartBounds(now, d);
  }

  /** Periods with different durations count in different keys. */
  lemma AnalyticsKeysDistinct(stat: string, periods: seq<Period>, now: int, i: int, j: int)
    requires ValidPeriods(periods) && 0 <= i < |periods| && 0 <= j < |periods|
    requires periods[i].duration != periods[j].duration
    ensures AnalyticsKeysAt(stat, periods, now)[i] != AnalyticsKeysAt(stat, periods, now)[j]
  {
    var keys := AnalyticsKeysAt(stat, periods, now);
    if keys[i] == keys[j] {
      AnalyticsKeyInjective(stat, periods[i].duration, PeriodStart(now, periods[i].duration),
                            stat, periods[j].duration, PeriodStart(now, periods[j].duration));
    }
  }

  // ---------------------------------------------------------------------------
  // Time series

  /** How many buckets of length `d` lie between the buckets of `start` and `end`. */
  function BucketCount(d: int, start: int, end: int): nat
    requires d > 0
  {
    var a := TruncDiv(start, d);
    var b := TruncDiv(end, d);
    if a <= b then b - a + 1 else 0
  }

  /** The bucket starts `_timeseriesKeys` walks through. */
  function BucketStarts(d: int, start: int, end: int): (r: seq<int>)
    requires d > 0
    ensures |r| == BucketCount(d, start, end)
  {
    seq(BucketCount(d, start, end), i requires 0 <= i => (TruncDiv(start, d) + i) * d)
  }

  /** The buckets run from the bucket of `start` to the bucket of `end`, one duration apart. */
  lemma BucketStartsSteps(d: int, start: int, end: int)
    requires d > 0
    ensures var r := BucketStarts(d, start, end);
            |r| > 0 ==> r[0] == PeriodStart(start, d) && r[|r| - 1] == PeriodStart(end, d)
    ensures var r := BucketStarts(d, start, end);
            |r| == 0 ==> PeriodStart(start, d) > PeriodStart(end, d)
    ensures var r := BucketStarts(d, start, end);
            forall i :: 0 <= i < |r| - 1 ==> r[i + 1] == r[i] + d
    ensures var r := BucketStarts(d, start, end);
            forall i, j :: 0 <= i < j < |r| ==> r[i] < r[j]
  {
    var r := BucketStarts(d, start, end);
    var a := TruncDiv(start, d);
    forall i | 0 <= i < |r| - 1 ensures r[i + 1] == r[i] + d {
      assert (a + i + 1) * d == (a + i) * d + d;
    }
    forall i, j | 0 <= i < j < |r| ensures r[i] < r[j] {
      ScaleOrder(a + i, a + j, d);
    }
    if |r| == 0 {
      ScaleOrder(TruncDiv(end, d), a, d);
    }
  }

  /** Empty when the bucket of `start` lies after the bucket of `end`; otherwise one entry per bucket. */
  lemma BucketStartsLength(d: int, start: int, end: int)
    requires d > 0
    ensures TruncDiv(start, d) > TruncDiv(end, d) ==> BucketStarts(d, start, end) == []
    ensures TruncDiv(start, d) <= TruncDiv(end, d) ==>
              |BucketStarts(d, start, end)| == TruncDiv(end, d) - TruncDiv(start, d) + 1
  {
  }

  /** A time is a bucket start exactly when it is a multiple of `d` between the first and last bucket. */
  lemma BucketStartsComplete(d: int, start: int, end: int, x: int)
    requires d > 0
    ensures x in BucketStarts(d, start, end) <==>
              x % d == 0 && PeriodStart(start, d) <= x <= PeriodStart(end, d)
  {
    if x in BucketStarts(d, start, end) {
      BucketStartIsMultiple(d, start, end, x);
    }
    if x % d == 0 && PeriodStart(start, d) <= x <= PeriodStart(end, d) {
      MultipleIsBucketStart(d, start, end, x);
    }
  }

  lemma BucketStartIsMultiple(d: int, start: int, end: int, x: int)
    requires d > 0 && x in BucketStarts(d, start, end)
    ensures x % d == 0 && PeriodStart(start, d) <= x <= PeriodStart(end, d)
  {
    var a, b := TruncDiv(start, d), TruncDiv(end, d);
    var r := BucketStarts(d, start, end);
    var i :| 0 <= i < |r| && r[i] == x;
    MultipleMod(a + i, d);
    ScaleOrder(a, a + i, d);
    ScaleOrder(a + i, b, d);
  }

  lemma MultipleIsBucketStart(d: int, start: int, end: int, x: int)
    requires d > 0 && x % d == 0 && PeriodStart(start, d) <= x <= PeriodStart(end, d)
    ensures x in BucketStarts(d, start, end)
  {
    var a, b := TruncDiv(start, d), TruncDiv(end, d);
    var r := BucketStarts(d, start, end);
    var q := x / d;
    assert x == d * q + x % d;
    assert x == q * d;
    ScaleOrder(a, q, d);
    ScaleOrder(q, b, d);
    assert r[q - a] == (a + (q - a)) * d;
  }

  /** The keys `_timeseriesKeys` returns. */
  function TimeseriesKeysOf(stat: string, d: int, start: int, end: int): (keys: seq<string>)
    requires d > 0
    ensures |keys| == BucketCount(d, start, end)
  {
    var starts := BucketStarts(d, start, end);
    seq(|starts|, i requires 0 <= i < |starts| => AnalyticsKey(stat, d, starts[i]))
  }

  /** No key repeats in a time series. */
  lemma TimeseriesKeysDistinct(stat: string, d: int, start: int, end: int)
    requires d > 0
    ensures var keys := TimeseriesKeysOf(stat, d, start, end);
            forall i, j :: 0 <= i < j < |keys| ==> keys[i] != keys[j]
  {
    var keys := TimeseriesKeysOf(stat, d, start, end);
    var starts := BucketStarts(d, start, end);
    BucketStartsSteps(d, start, end);
    forall i, j | 0 <= i < j < |keys| ensures keys[i] != keys[j] {
      if keys[i] == keys[j] {
        AnalyticsKeyInjective(stat, d, starts[i], stat, d, starts[j]);
      }
    }
  }

  /** `_timeseriesKeys`: the while loop from the first bucket start to the last. */
  method TimeseriesKeys(stat: string, d: int, start: int, end: int) returns (keys: seq<string>)
    requires d > 0
    ensures keys == TimeseriesKeysOf(stat, d, start, end)
  {
    var periodStart := TruncDiv(start, d) * d;
    var periodEnd := TruncDiv(end, d) * d;
    ghost var starts := BucketStarts(d, start, end);
    ghost var all := TimeseriesKeysOf(stat, d, start, end);
    BucketStartsSteps(d, start, end);
    keys := [];
    var c := periodStart;
    while c <= periodEnd
      invariant |keys| <= |starts| && keys == all[..|keys|]
      invariant |keys| < |starts| ==> c == starts[|keys|]
      invariant |keys| == |starts| ==> c > periodEnd
      decreases |starts| - |keys|
    {
      keys := keys + [AnalyticsKey(stat, d, c)];
      c := c + d;
    }
    assert keys == all;
  }

  // ---------------------------------------------------------------------------
  // Zero fill

  /** A Redis reply as PHP sees it: null, false (missing key) or a number. */
  datatype Value = Null | False | Int(n: int)

  /** A PHP array key. */
  datatype ArrayKey = IntKey(i: int) | StrKey(s: string)

  /** `isset($data[$key])`: present and not null. */
  predicate Isset(data: map<ArrayKey, Value>, k: ArrayKey)
  {
    k in data && data[k] != Null
  }

  /** `isset($data[$key]) ? $data[$key] : 0` */
  function FillValue(data: map<ArrayKey, Value>, key: string): (v: Value)
    ensures Isset(data, StrKey(key)) ==> v == data[StrKey(key)]
    ensures !Isset(data, StrKey(key)) ==> v == Int(0)
  {
    if Isset(data, StrKey(key)) then data[StrKey(key)] else Int(0)
  }

  /** The zero-filled series: one entry per key, in key order. */
  function ZeroFilled(data: map<ArrayKey, Value>, keys: seq<string>): (r: PhpArray.Array<Value>)
    ensures |r| == |keys|
  {
    seq(|keys|, i requires 0 <= i < |keys| => (keys[i], FillValue(data, keys[i])))
  }

  /** `_zeroFillTimeseries`: the foreach assigning every time-series key a value. */
  method ZeroFillTimeseries(data: map<ArrayKey, Value>, stat: string, d: int, start: int, end: int)
    returns (filled: PhpArray.Array<Value>)
    requires d > 0
    ensures filled == ZeroFilled(data, TimeseriesKeysOf(stat, d, start, end))
  {
    var keys := TimeseriesKeys(stat, d, start, end);
    TimeseriesKeysDistinct(stat, d, start, end);
    filled := [];
    for i := 0 to |keys|
      invariant filled == ZeroFilled(data, keys[..i])
    {
      var key := keys[i];
      var value := if Isset(data, StrKey(key)) then data[StrKey(key)] else Int(0);
      assert forall j :: 0 <= j < |filled| ==> filled[j].0 == keys[j];
      filled := PhpArray.Assign(filled, key, value);
    }
    assert keys[..|keys|] == keys;
  }

  /**
   * The filled series has exactly the time-series keys, in order; a key keeps
   * its value when it is set and non-null and is 0 otherwise, and nothing of
   * `data` outside the range survives.
   */
  lemma ZeroFilledEntries(data: map<ArrayKey, Value>, stat: string, d: int, start: int, end: int)
    requires d > 0
    ensures var keys := TimeseriesKeysOf(stat, d, start, end);
            var r := ZeroFilled(data, keys);
            (forall i :: 0 <= i < |r| ==> r[i].0 == keys[i]) &&
            (forall k :: PhpArray.HasKey(r, k) <==> k in keys) &&
            (forall i :: 0 <= i < |r| && Isset(data, StrKey(keys[i])) ==> r[i].1 == data[StrKey(keys[i])]) &&
            (forall i :: 0 <= i < |r| && !Isset(data, StrKey(keys[i])) ==> r[i].1 == Int(0))
  {
    var keys := TimeseriesKeysOf(stat, d, start, end);
    var r := ZeroFilled(data, keys);
    forall k ensures PhpArray.HasKey(r, k) <==> k in keys {
      if k in keys {
        var i :| 0 <= i < |keys| && keys[i] == k;
        assert r[i].0 == k;
      }
    }
  }

  // ---------------------------------------------------------------------------
  // The store

  /** The value stored under `k`, 0 when absent (what INCRBY starts from). */
  function Count(counts: map<string, int>, k: string): int
  {
    if k in counts then counts[k] else 0
  }

  /** What GET returns for `k`: the number or false. */
  function Stored(counts: map<string, int>, k: string): (v: Value)
    ensures v == False <==> k !in counts
  {
    if k in counts then Int(counts[k]) else False
  }

  /** The Redis counters the statistic keys live in. */
  class Store {
    var counts: map<string, int>

    constructor (initial: map<string, int>)
      ensures counts == initial
    {
      counts := initial;
    }

    /** INCRBY: a missing key counts from 0. */
    method IncrBy(key: string, amount: int)
      modifies this
      ensures counts == old(counts)[key := Count(old(counts), key) + amount]
    {
      counts := counts[key := Count(counts, key) + amount];
    }

    /** phpredis `getMultiple`: one reply per key, by position. */
    method GetMultiple(keys: seq<string>) returns (replies: seq<Value>)
      ensures |replies| == |keys|
      ensures forall i :: 0 <= i < |keys| ==> replies[i] == Stored(counts, keys[i])
    {
      replies := [];
      for i := 0 to |keys|
        invariant |replies| == i
        invariant forall j :: 0 <= j < i ==> replies[j] == Stored(counts, keys[j])
      {
        replies := replies + [Stored(counts, keys[i])];
      }
    }
  }

  /** The counters after INCRBY `by` on each of `keys` in turn. */
  function IncrementAll(counts: map<string, int>, keys: seq<string>, amount: int): map<string, int>
    decreases |keys|
  {
    if |keys| == 0 then counts
    else IncrementAll(counts[keys[0] := Count(counts, keys[0]) + amount], keys[1..], amount)
  }

  /**
   * Every key listed n times grows by n times the increment and every other
   * counter is unchanged.
   */
  lemma {:induction false} IncrementAllCount(counts: map<string, int>, keys: seq<string>, amount: int, k: string)
    ensures Count(IncrementAll(counts, keys, amount), k) == Count(counts, k) + amount * multiset(keys)[k]
    decreases |keys|
  {
    if |keys| == 0 {
      assert multiset(keys)[k] == 0;
    } else {
      var next := counts[keys[0] := Count(counts, keys[0]) + amount];
      IncrementAllCount(next, keys[1..], amount, k);
      assert IncrementAll(counts, keys, amount) == IncrementAll(next, keys[1..], amount);
      assert keys == [keys[0]] + keys[1..];
      assert multiset(keys) == multiset{keys[0]} + multiset(keys[1..]);
      var m := multiset(keys[1..])[k];
      if k == keys[0] {
        assert Count(next, k) == Count(counts, k) + amount;
        assert multiset(keys)[k] == m + 1;
        assert amount * (m + 1) == amount * m + amount;
      } else {
        assert Count(next, k) == Count(counts, k);
        assert multiset(keys)[k] == m;
      }
    }
  }

  /** The listed keys exist afterwards, and no other key appears. */
  lemma {:induction false} IncrementAllKeys(counts: map<string, int>, keys: seq<string>, amount: int)
    ensures IncrementAll(counts, keys, amount).Keys == counts.Keys + set k | k in keys
    decreases |keys|
  {
    if |keys| > 0 {
      var next := counts[keys[0] := Count(counts, keys[0]) + amount];
      IncrementAllKeys(next, keys[1..], amount);
      assert keys == [keys[0]] + keys[1..];
      assert (set k | k in keys) == {keys[0]} + set k | k in keys[1..];
    }
  }

  lemma IncrementAllPrefix(counts: map<string, int>, keys: seq<string>, n: nat, amount: int)
    requires n < |keys|
    ensures IncrementAll(counts, keys[..n + 1], amount) ==
            IncrementAll(counts, keys[..n], amount)[keys[n] := Count(IncrementAll(counts, keys[..n], amount), keys[n]) + amount]
    decreases n
  {
    if n > 0 {
      var next := counts[keys[0] := Count(counts, keys[0]) + amount];
      assert keys[..n + 1][1..] == keys[1..][..n];
      assert keys[..n][1..] == keys[1..][..n - 1];
      IncrementAllPrefix(next, keys[1..], n - 1, amount);
    } else {
      assert keys[..1][1..] == [];
    }
  }

  /**
   * `increment`: INCRBY once per analytics key, in period order; the default
   * periods when none are given. `fault` is the number of store calls that
   * succeed before the store throws (None: it never does); a throw stops the
   * loop, is caught, and makes the result false.
   */
  method Increment(store: Store, stat: string, value: int, periods: Option<seq<Period>>, now: int,
                   fault: Option<nat>)
    returns (ok: bool)
    requires ValidPeriods(periods.GetOr(DefaultPeriods))
    modifies store
    ensures var keys := AnalyticsKeysAt(stat, periods.GetOr(DefaultPeriods), now);
            ok <==> fault.None? || fault.value >= |keys|
    ensures var keys := AnalyticsKeysAt(stat, periods.GetOr(DefaultPeriods), now);
            store.counts == IncrementAll(old(store.counts), if ok then keys else keys[..fault.value], value)
  {
    var ps := if periods.None? then DefaultPeriods else periods.value;
    var keys := AnalyticsKeys(stat, ps, now);
    ok := IncrementEach(store, keys, value, fault);
  }

  /** The loop of `increment` over the computed keys, up to the first failing store call. */
  method IncrementEach(store: Store, keys: seq<string>, value: int, fault: Option<nat>) returns (ok: bool)
    modifies store
    ensures ok <==> fault.None? || fault.value >= |keys|
    ensures store.counts == IncrementAll(old(store.counts), if ok then keys else keys[..fault.value], value)
  {
    var i := 0;
    while i < |keys|
      invariant 0 <= i <= |keys|
      invariant fault.Some? ==> i <= fault.value
      invariant store.counts == IncrementAll(old(store.counts), keys[..i], value)
    {
      if fault.Some? && fault.value == i {
        return false;
      }
      IncrementAllPrefix(old(store.counts), keys, i, value);
      store.IncrBy(keys[i], value);
      i := i + 1;
    }
    assert keys[..i] == keys;
    return true;
  }

  /** The three default periods have different durations, so their keys differ. */
  lemma DefaultKeysDistinct(stat: string, now: int)
    ensures var keys := AnalyticsKeysAt(stat, DefaultPeriods, now);
            keys[0] != keys[1] && keys[0] != keys[2] && keys[1] != keys[2]
  {
    AnalyticsKeysDistinct(stat, DefaultPeriods, now, 0, 1);
    AnalyticsKeysDistinct(stat, DefaultPeriods, now, 0, 2);
    AnalyticsKeysDistinct(stat, DefaultPeriods, now, 1, 2);
  }

  /** A key listed once in a duplicate-free list occurs once in its multiset. */
  lemma {:induction false} DistinctOccursOnce(keys: seq<string>, i: int)
    requires 0 <= i < |keys|
    requires forall a, b :: 0 <= a < b < |keys| ==> keys[a] != keys[b]
    ensures multiset(keys)[keys[i]] == 1
    decreases |keys|
  {
    var last := |keys| - 1;
    assert keys == keys[..last] + [keys[last]];
    if i == last {
      assert keys[i] !in keys[..last];
      assert multiset(keys[..last])[keys[i]] == 0;
    } else {
      DistinctOccursOnce(keys[..last], i);
      assert keys[last] != keys[i];
    }
  }

  /** With no key listed twice, every listed counter grows by exactly the increment. */
  lemma IncrementDistinctKeys(counts: map<string, int>, keys: seq<string>, amount: int, i: int)
    requires 0 <= i < |keys|
    requires forall a, b :: 0 <= a < b < |keys| ==> keys[a] != keys[b]
    ensures Count(IncrementAll(counts, keys, amount), keys[i]) == Count(counts, keys[i]) + amount
  {
    IncrementAllCount(counts, keys, amount, keys[i]);
    DistinctOccursOnce(keys, i);
  }

  /** So a successful default increment adds `value` to each of the three counters once. */
  lemma DefaultIncrementEffect(counts: map<string, int>, stat: string, value: int, now: int, i: int)
    requires 0 <= i < 3
    ensures var keys := AnalyticsKeysAt(stat, DefaultPeriods, now);
            Count(IncrementAll(counts, keys, value), keys[i]) == Count(counts, keys[i]) + value
  {
    var keys := AnalyticsKeysAt(stat, DefaultPeriods, now);
    DefaultKeysDistinct(stat, now);
    IncrementDistinctKeys(counts, keys, value, i);
  }

  // ---------------------------------------------------------------------------
  // getTimeseries

  /** What `getTimeseries` returns: the positional reply list, or a zero-filled keyed array. */
  datatype Series = Positional(values: seq<Value>) | Keyed(entries: PhpArray.Array<Value>)

  /** The replies to `getMultiple(keys)` as the PHP list it returns: keys 0, 1, 2, ... */
  function PositionalData(replies: seq<Value>): (data: map<ArrayKey, Value>)
    ensures forall k :: k in data ==> k.IntKey?
  {
    map i | 0 <= i < |replies| :: IntKey(i) := replies[i]
  }

  function Replies(counts: map<string, int>, keys: seq<string>): (r: seq<Value>)
    ensures |r| == |keys|
  {
    seq(|keys|, i requires 0 <= i < |keys| => Stored(counts, keys[i]))
  }

  /** The zero-filled series `getTimeseries` builds, as written: it looks up string keys in the positional list. */
  function AsWrittenSeries(counts: map<string, int>, stat: string, d: int, start: int, end: int): PhpArray.Array<Value>
    requires d > 0
  {
    var keys := TimeseriesKeysOf(stat, d, start, end);
    ZeroFilled(PositionalData(Replies(counts, keys)), keys)
  }

  /**
   * `getTimeseries` as written. `end` None is PHP's null and means `now`;
   * `fault` says the store throws, which yields null (None).
   */
  method GetTimeseriesAsWritten(store: Store, stat: string, d: int, start: int, end: Option<int>,
                                zeroFill: bool, now: int, fault: bool)
    returns (r: Option<Series>)
    requires d > 0
    ensures fault ==> r.None?
    ensures !fault && !zeroFill ==>
              r == Some(Positional(Replies(store.counts, TimeseriesKeysOf(stat, d, start, end.GetOr(now)))))
    ensures !fault && zeroFill ==> r == Some(Keyed(AsWrittenSeries(store.counts, stat, d, start, end.GetOr(now))))
  {
    var e := if end.None? then now else end.value;
    if fault {
      return None;
    }
    var keys := TimeseriesKeys(stat, d, start, e);
    var replies := store.GetMultiple(keys);
    assert replies == Replies(store.counts, keys);
    if zeroFill {
      var filled := ZeroFillTimeseries(PositionalData(replies), stat, d, start, e);
      return Some(Keyed(filled));
    }
    return Some(Positional(replies));
  }

  /** As written, every zero-filled point is 0 whatever the store holds. */
  lemma AsWrittenSeriesIsAllZero(counts: map<string, int>, stat: string, d: int, start: int, end: int)
    requires d > 0
    ensures var r := AsWrittenSeries(counts, stat, d, start, end);
            forall i :: 0 <= i < |r| ==> r[i].1 == Int(0)
  {
  }

  /** A counter of 5 in the only bucket of the series still reads back as 0. */
  lemma AsWrittenSeriesLosesCount()
    ensures var counts := map[AnalyticsKey("hits", 600, 0) := 5];
            var r := AsWrittenSeries(counts, "hits", 600, 0, 0);
            |r| == 1 && r[0].0 == AnalyticsKey("hits", 600, 0) && r[0].1 == Int(0) &&
            Count(counts, r[0].0) == 5
  {
    var counts := map[AnalyticsKey("hits", 600, 0) := 5];
    var r := AsWrittenSeries(counts, "hits", 600, 0, 0);
    assert BucketStarts(600, 0, 0) == [0];
    AsWrittenSeriesIsAllZero(counts, "hits", 600, 0, 0);
  }

  /** The replies keyed by their time-series key, leaving out the false of a missing key. */
  function KeyedData(keys: seq<string>, replies: seq<Value>): (data: map<ArrayKey, Value>)
    requires |replies| == |keys|
    requires forall i, j :: 0 <= i < j < |keys| ==> keys[i] != keys[j]
    ensures forall i :: 0 <= i < |keys| && replies[i] != False ==>
              StrKey(keys[i]) in data && data[StrKey(keys[i])] == replies[i]
    ensures forall i :: 0 <= i < |keys| && replies[i] == False ==> StrKey(keys[i]) !in data
  {
    map i | 0 <= i < |keys| && replies[i] != False :: StrKey(keys[i]) := replies[i]
  }

  /** The zero-filled series with the replies paired with their keys first. */
  function CorrectedSeries(counts: map<string, int>, stat: string, d: int, start: int, end: int): PhpArray.Array<Value>
    requires d > 0
  {
    var keys := TimeseriesKeysOf(stat, d, start, end);
    TimeseriesKeysDistinct(stat, d, start, end);
    ZeroFilled(KeyedData(keys, Replies(counts, keys)), keys)
  }

  /** Corrected, every point carries the counter stored under its key, 0 when there is none. */
  lemma CorrectedSeriesCounts(counts: map<string, int>, stat: string, d: int, start: int, end: int)
    requires d > 0
    ensures var keys := TimeseriesKeysOf(stat, d, start, end);
            var r := CorrectedSeries(counts, stat, d, start, end);
            |r| == |keys| && forall i :: 0 <= i < |r| ==> r[i] == (keys[i], Int(Count(counts, keys[i])))
  {
    var keys := TimeseriesKeysOf(stat, d, start, end);
    var replies := Replies(counts, keys);
    TimeseriesKeysDistinct(stat, d, start, end);
    var data := KeyedData(keys, replies);
  }

  /** `getTimeseries` with the replies keyed before the zero fill, as its documentation intends. */
  method GetTimeseries(store: Store, stat: string, d: int, start: int, end: Option<int>,
                       zeroFill: bool, now: int, fault: bool)
    returns (r: Option<Series>)
    requires d > 0
    ensures fault ==> r.None?
    ensures !fault && !zeroFill ==>
              r == Some(Positional(Replies(store.counts, TimeseriesKeysOf(stat, d, start, end.GetOr(now)))))
    ensures !fault && zeroFill ==> r == Some(Keyed(CorrectedSeries(store.counts, stat, d, start, end.GetOr(now))))
  {
    var e := if end.None? then now else end.value;
    if fault {
      return None;
    }
    var keys := TimeseriesKeys(stat, d, start, e);
    var replies := store.GetMultiple(keys);
    assert replies == Replies(store.counts, keys);
    TimeseriesKeysDistinct(stat, d, start, e);
    if zeroFill {
      var filled := ZeroFillTimeseries(KeyedData(keys, replies), stat, d, start, e);
      return Some(Keyed(filled));
    }
    return Some(Positional(replies));
  }
}
