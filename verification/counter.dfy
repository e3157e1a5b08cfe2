/**
 The sliding-window counter of counter.go with the store and the clock taken
 out: each operation is a function from the store (and a timestamp or bucket)
 to the store it leaves behind and the reply it returns. The outcome of the
 store round trip is a parameter `fault`: `None` when the store answers, or
 the error it reports.
 */
module Counters {
  import opened Wrappers
  import opened GoInt
  import opened Stores
  import Ring

  /** `Counter` in counter.go, without the client handle. Durations are in nanoseconds. */
  datatype Counter = Counter(prefix: string, period: int, interval: int, bkts: int)

  /**
   `int(period/interval) * 2`: twice the truncated quotient, in 64-bit
   arithmetic. The result is always even.
   */
  function BucketCount(period: int, interval: int): (n: int)
    requires InInt64(period) && InInt64(interval) && interval != 0
    ensures InInt64(n) && n % 2 == 0
  {
    var doubled := Quot64(period, interval) * 2;
    WrapPreservesEven(doubled);
    Wrap64(doubled)
  }

  /**
   When the quotient fits in 62 bits, the bucket count is exactly twice it,
   and there are at least two buckets exactly when the interval fits in the
   period with the same sign (Go's truncating division also makes two
   negative durations give a positive count).
   */
  lemma BucketCountAtLeastTwo(period: int, interval: int)
    requires InInt64(period) && InInt64(interval) && interval != 0
    requires -0x4000_0000_0000_0000 <= TruncDiv(period, interval) < 0x4000_0000_0000_0000
    ensures BucketCount(period, interval) == 2 * TruncDiv(period, interval)
    ensures BucketCount(period, interval) >= 2 <==> (0 < interval <= period || period <= interval < 0)
  {
    assert Quot64(period, interval) == TruncDiv(period, interval);
  }

  /** `NewCounter`: the configuration with its derived bucket count. */
  function NewCounter(prefix: string, period: int, interval: int): (c: Counter)
    requires InInt64(period) && InInt64(interval) && interval != 0
    ensures c.prefix == prefix && c.period == period && c.interval == interval
    ensures c.bkts % 2 == 0
    ensures 0 < interval <= period && period / interval < 0x4000_0000_0000_0000 ==> Valid(c)
  {
    OrdinaryBucketCount(period, interval);
    Counter(prefix, period, interval, BucketCount(period, interval))
  }

  /** A positive interval that fits in the period, with a quotient below 2^62, gives a well-formed ring. */
  lemma OrdinaryBucketCount(period: int, interval: int)
    requires InInt64(period) && InInt64(interval) && interval != 0
    ensures 0 < interval <= period && period / interval < 0x4000_0000_0000_0000 ==>
      Ring.WellFormed(BucketCount(period, interval))
  {
    if 0 < interval <= period && period / interval < 0x4000_0000_0000_0000 {
      BucketCountAtLeastTwo(period, interval);
    }
  }

  /** Both example configurations, 5s in 0.5s slices and 2s in 0.2s slices, have a ring of 20 buckets. */
  lemma ExampleBucketCounts()
    ensures NewCounter("getstream:test:count", 5_000_000_000, 500_000_000).bkts == 20
    ensures NewCounter("getstream:test:limit", 2_000_000_000, 200_000_000).bkts == 20
  {
    BucketCountAtLeastTwo(5_000_000_000, 500_000_000);
    BucketCountAtLeastTwo(2_000_000_000, 200_000_000);
  }

  /** The configurations on which `hash` and `buckets` do not panic. */
  predicate Runnable(c: Counter) {
    InInt64(c.interval) && c.interval != 0 && 0 < c.bkts
  }

  /** A configuration for which the ring arithmetic means what it should. */
  predicate Valid(c: Counter) {
    InInt64(c.period) && InInt64(c.interval) && 0 < c.interval && Ring.WellFormed(c.bkts)
  }

  /** `key`: the store key of identifier `id`, `prefix + ":" + id`. */
  function Key(prefix: string, id: string): (k: string)
    ensures |k| == |prefix| + 1 + |id|
    ensures k[..|prefix|] == prefix && k[|prefix|] == ':' && k[|prefix| + 1..] == id
  {
    prefix + ":" + id
  }

  /** Under one prefix, distinct identifiers get distinct keys. */
  lemma KeyInjective(prefix: string, a: string, b: string)
    requires Key(prefix, a) == Key(prefix, b)
    ensures a == b
  {
    assert a == Key(prefix, a)[|prefix| + 1..];
  }

  /**
   `inc`: one transaction on the key of `id` that adds one to field `bucket`
   (absent counts as 0), deletes the stale half ahead of `bucket`, and sets the
   key's expiry to `period`. When the round trip fails nothing is applied.
   When only the increment is refused (the field does not hold an int64 below
   the maximum), the deletions and the expiry still take effect and the
   refusal is the transaction's error.
   */
  function IncAt(c: Counter, s: Store, id: string, bucket: int, fault: Option<StoreError>): (e: Effect)
    requires 0 <= c.bkts
    ensures fault.Some? ==> e.store == s && e.err == fault
    ensures e.err.None? <==> fault.None? && Incrementable(Field(s, Key(c.prefix, id), bucket))
    ensures fault.None? && !Incrementable(Field(s, Key(c.prefix, id), bucket)) ==> e.err == Some(NotAnInteger)
    ensures fault.None? ==> Key(c.prefix, id) in e.store && e.store[Key(c.prefix, id)].ttl == c.period
    ensures fault.None? ==> e.store - {Key(c.prefix, id)} == s - {Key(c.prefix, id)}
    ensures fault.None? ==> forall j :: j in Ring.Stale(c.bkts, bucket) ==> Field(e.store, Key(c.prefix, id), j) == None
    ensures fault.None? ==> forall f :: f != bucket && f !in Ring.Stale(c.bkts, bucket) ==>
      Field(e.store, Key(c.prefix, id), f) == Field(s, Key(c.prefix, id), f)
    ensures e.err.None? && 0 <= bucket < c.bkts ==>
      Field(e.store, Key(c.prefix, id), bucket) == Some(Num(ReadCount(Field(s, Key(c.prefix, id), bucket)) + 1))
    ensures e.err.Some? && 0 <= bucket < c.bkts ==>
      Field(e.store, Key(c.prefix, id), bucket) == Field(s, Key(c.prefix, id), bucket)
  {
    var key := Key(c.prefix, id);
    var cell := Field(s, key, bucket);
    var gone := set j | j in Ring.Stale(c.bkts, bucket);
    Ring.CurrentNotStale(c.bkts, bucket);
    if fault.Some? then Effect(s, fault)
    else if !Incrementable(cell) then
      Effect(s[key := Entry(s[key].fields - gone, c.period)], Some(NotAnInteger))
    else
      var fields := if key in s then s[key].fields else map[];
      var fields' := fields[bucket := Num(ReadCount(cell) + 1)] - gone;
      Effect(s[key := Entry(fields', c.period)], None)
  }

  /** `Inc`: increment the bucket that timestamp `t` falls into. */
  function Inc(c: Counter, s: Store, id: string, t: int, fault: Option<StoreError>): (e: Effect)
    requires Runnable(c) && InInt64(t)
    ensures fault.Some? ==> e.store == s && e.err == fault
    ensures fault.None? ==> Key(c.prefix, id) in e.store && e.store[Key(c.prefix, id)].ttl == c.period
    ensures e.err.None? && Valid(c) && 0 <= t ==>
      var b := (t / c.interval) % c.bkts;
      Field(e.store, Key(c.prefix, id), b) == Some(Num(ReadCount(Field(s, Key(c.prefix, id), b)) + 1))
    ensures e.err.Some? && Valid(c) && 0 <= t ==>
      var b := (t / c.interval) % c.bkts;
      Field(e.store, Key(c.prefix, id), b) == Field(s, Key(c.prefix, id), b)
  {
    IncAt(c, s, id, Ring.Hash(c.interval, c.bkts, t), fault)
  }

  /**
   `histogram`: the counts of the live buckets seen from `from`, most recent
   first, read in one batch; a field that is absent or does not parse reads
   as 0, and only a failed read is an error.
   */
  function HistogramFrom(c: Counter, s: Store, id: string, from: int, fault: Option<StoreError>): (r: Reply<seq<int>>)
    requires 0 <= c.bkts
    ensures fault.Some? ==> r.value == [] && r.err == fault
    ensures fault.None? ==> r.err.None? && |r.value| == c.bkts / 2
    ensures fault.None? ==> forall i :: 0 <= i < |r.value| ==>
      InInt64(r.value[i]) && r.value[i] == ReadCount(Field(s, Key(c.prefix, id), Ring.Live(c.bkts, from)[i]))
  {
    if fault.Some? then Reply([], fault)
    else
      var key := Key(c.prefix, id);
      var live := Ring.Live(c.bkts, from);
      Reply(seq(|live|, i requires 0 <= i < |live| => ReadCount(Field(s, key, live[i]))), None)
  }

  /** `Histogram`: the histogram seen from the bucket of timestamp `t`. */
  function Histogram(c: Counter, s: Store, id: string, t: int, fault: Option<StoreError>): (r: Reply<seq<int>>)
    requires Runnable(c) && InInt64(t)
    ensures fault.Some? ==> r.value == [] && r.err == fault
    ensures fault.None? ==> r.err.None? && |r.value| == c.bkts / 2
    ensures fault.None? && Valid(c) && 0 <= t ==>
      r.value[0] == ReadCount(Field(s, Key(c.prefix, id), (t / c.interval) % c.bkts))
  {
    HistogramFrom(c, s, id, Ring.Hash(c.interval, c.bkts, t), fault)
  }

  /** The mathematical sum of a sequence of counts. */
  function Sum(h: seq<int>): int
    decreases |h|
  {
    if |h| == 0 then 0 else Sum(h[..|h| - 1]) + h[|h| - 1]
  }

  /** `Count`'s loop `total += v` over int64: the running sum wraps at every step. */
  function Total(h: seq<int>): (r: int)
    ensures r == Wrap64(Sum(h))
    decreases |h|
  {
    if |h| == 0 then 0
    else
      var prefix := h[..|h| - 1];
      WrapAddLeft(Sum(prefix), h[|h| - 1]);
      Wrap64(Total(prefix) + h[|h| - 1])
  }

  /** The unbounded number of occurrences in the live buckets seen from `from`. */
  function Occurrences(c: Counter, s: Store, id: string, from: int): int
    requires 0 <= c.bkts
  {
    Sum(HistogramFrom(c, s, id, from, None).value)
  }

  /**
   `Count` from bucket `from`: the sum of the histogram, wrapped to int64,
   or 0 with the read's error.
   */
  function CountFrom(c: Counter, s: Store, id: string, from: int, fault: Option<StoreError>): (r: Reply<int>)
    requires 0 <= c.bkts
    ensures fault.Some? ==> r == Reply(0, fault)
    ensures fault.None? ==> r.err.None? && r.value == Wrap64(Occurrences(c, s, id, from))
    ensures fault.None? && InInt64(Occurrences(c, s, id, from)) ==> r.value == Occurrences(c, s, id, from)
  {
    var h := HistogramFrom(c, s, id, from, fault);
    if h.err.Some? then Reply(0, h.err) else Reply(Total(h.value), None)
  }

  /** `Count`: the trailing-window total seen from the bucket of timestamp `t`. */
  function Count(c: Counter, s: Store, id: string, t: int, fault: Option<StoreError>): (r: Reply<int>)
    requires Runnable(c) && InInt64(t)
    ensures fault.Some? ==> r == Reply(0, fault)
    ensures fault.None? ==> r.err.None? && r.value == Wrap64(Occurrences(c, s, id, Ring.Hash(c.interval, c.bkts, t)))
  {
    CountFrom(c, s, id, Ring.Hash(c.interval, c.bkts, t), fault)
  }

  /** `Reset`: delete the key of `id`, leaving every other key alone. */
  function Reset(c: Counter, s: Store, id: string, fault: Option<StoreError>): (e: Effect)
    ensures e.err == fault
    ensures e.err.Some? ==> e.store == s
    ensures e.err.None? ==> Key(c.prefix, id) !in e.store && e.store - {Key(c.prefix, id)} == s - {Key(c.prefix, id)}
    ensures e.err.None? ==> e.store.Keys == s.Keys - {Key(c.prefix, id)}
  {
    if fault.Some? then Effect(s, fault) else Effect(s - {Key(c.prefix, id)}, None)
  }

  /** Sequences equal except one entry that is one larger have sums one apart. */
  lemma {:induction false} SumBump(a: seq<int>, b: seq<int>, k: int)
    requires |a| == |b| && 0 <= k < |a|
    requires b[k] == a[k] + 1
    requires forall i :: 0 <= i < |a| && i != k ==> b[i] == a[i]
    ensures Sum(b) == Sum(a) + 1
    decreases |a|
  {
    var n := |a| - 1;
    if k == n {
      assert a[..n] == b[..n];
    } else {
      SumBump(a[..n], b[..n], k);
    }
  }

  /** A sequence of non-negative counts has a non-negative sum. */
  lemma {:induction false} SumNonNegative(h: seq<int>)
    requires forall i :: 0 <= i < |h| ==> 0 <= h[i]
    ensures 0 <= Sum(h)
    decreases |h|
  {
    if |h| > 0 {
      SumNonNegative(h[..|h| - 1]);
    }
  }

  /**
   An increment is counted exactly once by a read from the same bucket: it
   lands in the most recent live bucket, and the buckets it clears are all
   outside the live half.
   */
  lemma IncCountsOnce(c: Counter, s: Store, id: string, b: int)
    requires Valid(c) && 0 <= b < c.bkts
    requires IncAt(c, s, id, b, None).err.None?
    ensures Occurrences(c, IncAt(c, s, id, b, None).store, id, b) == Occurrences(c, s, id, b) + 1
    ensures CountFrom(c, IncAt(c, s, id, b, None).store, id, b, None).value
         == Wrap64(CountFrom(c, s, id, b, None).value + 1)
  {
    var s' := IncAt(c, s, id, b, None).store;
    var h, h' := HistogramFrom(c, s, id, b, None).value, HistogramFrom(c, s', id, b, None).value;
    HistogramAfterInc(c, s, id, b);
    SumBump(h, h', 0);
    WrapAddLeft(Sum(h), 1);
  }

  /** Read from the bucket just incremented, only the newest entry of the histogram changes, by one. */
  lemma HistogramAfterInc(c: Counter, s: Store, id: string, b: int)
    requires Valid(c) && 0 <= b < c.bkts
    requires IncAt(c, s, id, b, None).err.None?
    ensures var h, h' := HistogramFrom(c, s, id, b, None).value, HistogramFrom(c, IncAt(c, s, id, b, None).store, id, b, None).value;
      && |h'| == |h| > 0
      && h'[0] == h[0] + 1
      && forall i :: 0 < i < |h| ==> h'[i] == h[i]
  {
    var s' := IncAt(c, s, id, b, None).store;
    var key := Key(c.prefix, id);
    var live, stale := Ring.Live(c.bkts, b), Ring.Stale(c.bkts, b);
    var h, h' := HistogramFrom(c, s, id, b, None).value, HistogramFrom(c, s', id, b, None).value;
    assert live[0] == b;
    assert h'[0] == h[0] + 1;
    Ring.LiveDistinct(c.bkts, b);
    Ring.LiveStalePartition(c.bkts, b);
    forall i | 0 < i < |h|
      ensures h'[i] == h[i]
    {
      assert live[i] != b && live[i] !in stale;
      assert Field(s', key, live[i]) == Field(s, key, live[i]);
    }
  }

  /**
   An increment the store refuses still clears the stale half, but a read
   from the same bucket sees exactly what it saw before: the refused field is
   kept, and every cleared field lies outside the live half.
   */
  lemma RefusedIncKeepsHistogram(c: Counter, s: Store, id: string, b: int)
    requires Valid(c) && 0 <= b < c.bkts
    requires IncAt(c, s, id, b, None).err.Some?
    ensures HistogramFrom(c, IncAt(c, s, id, b, None).store, id, b, None) == HistogramFrom(c, s, id, b, None)
    ensures CountFrom(c, IncAt(c, s, id, b, None).store, id, b, None) == CountFrom(c, s, id, b, None)
  {
    var s' := IncAt(c, s, id, b, None).store;
    var key := Key(c.prefix, id);
    var live, stale := Ring.Live(c.bkts, b), Ring.Stale(c.bkts, b);
    var h, h' := HistogramFrom(c, s, id, b, None).value, HistogramFrom(c, s', id, b, None).value;
    Ring.LiveStalePartition(c.bkts, b);
    forall i | 0 <= i < |h|
      ensures h'[i] == h[i]
    {
      assert live[i] in live;
      assert Field(s', key, live[i]) == Field(s, key, live[i]);
    }
    assert h' == h;
  }

  /**
   A refused increment into bucket 0 of a four-bucket ring still deletes
   bucket 1 and renews the expiry, and keeps the field it could not parse.
   */
  lemma RefusedIncExample()
    ensures var s := map["p:k" := Entry(map[0 := Garbage, 1 := Num(5)], 7)];
      IncAt(Counter("p", 20, 1, 4), s, "k", 0, None)
        == Effect(map["p:k" := Entry(map[0 := Garbage], 20)], Some(NotAnInteger))
  {
    var s := map["p:k" := Entry(map[0 := Garbage, 1 := Num(5)], 7)];
    var e := IncAt(Counter("p", 20, 1, 4), s, "k", 0, None);
    assert Key("p", "k") == "p:k";
    assert Ring.Stale(4, 0) == [1, 2];
    assert e.store["p:k"].fields == map[0 := Garbage];
  }

  /** The same at the level of `Inc` and `Count` at one timestamp. */
  lemma CountAfterInc(c: Counter, s: Store, id: string, t: int)
    requires Valid(c) && InInt64(t) && 0 <= t
    requires Inc(c, s, id, t, None).err.None?
    ensures Count(c, Inc(c, s, id, t, None).store, id, t, None).value == Wrap64(Count(c, s, id, t, None).value + 1)
  {
    IncCountsOnce(c, s, id, Ring.Hash(c.interval, c.bkts, t));
  }

  /** After a reset, every bucket reads 0, whichever bucket the read starts from. */
  lemma ResetClears(c: Counter, s: Store, id: string, from: int)
    requires 0 <= c.bkts
    ensures var s' := Reset(c, s, id, None).store;
      && (forall i :: 0 <= i < c.bkts / 2 ==> HistogramFrom(c, s', id, from, None).value[i] == 0)
      && CountFrom(c, s', id, from, None).value == 0
  {
    var s' := Reset(c, s, id, None).store;
    var h := HistogramFrom(c, s', id, from, None).value;
    assert forall i :: 0 <= i < |h| ==> h[i] == 0;
    SumOfZeros(h);
  }

  lemma {:induction false} SumOfZeros(h: seq<int>)
    requires forall i :: 0 <= i < |h| ==> h[i] == 0
    ensures Sum(h) == 0
    decreases |h|
  {
    if |h| > 0 {
      SumOfZeros(h[..|h| - 1]);
    }
  }

  /** Resetting twice leaves the same store as resetting once. */
  lemma ResetIdempotent(c: Counter, s: Store, id: string)
    ensures var once := Reset(c, s, id, None);
      Reset(c, once.store, id, None) == once
  {
  }

  /** `n` consecutive `inc` calls into one bucket, stopping at the first error. */
  function IncTimes(c: Counter, s: Store, id: string, bucket: int, n: nat): Effect
    requires 0 <= c.bkts
    decreases n
  {
    if n == 0 then Effect(s, None)
    else
      var e := IncTimes(c, s, id, bucket, n - 1);
      if e.err.Some? then e else IncAt(c, e.store, id, bucket, None)
  }

  /** Starting from an empty bucket, `n` increments into it leave it holding `n`. */
  lemma {:induction false} IncTimesCounts(c: Counter, s: Store, id: string, bucket: int, n: nat)
    requires Valid(c) && 0 <= bucket < c.bkts
    requires Field(s, Key(c.prefix, id), bucket) == None
    requires n <= Int64Max
    ensures IncTimes(c, s, id, bucket, n).err.None?
    ensures n > 0 ==> Field(IncTimes(c, s, id, bucket, n).store, Key(c.prefix, id), bucket) == Some(Num(n))
    decreases n
  {
    if n > 0 {
      IncTimesCounts(c, s, id, bucket, n - 1);
    }
  }

  /** A successful increment keeps every stored integer non-negative. */
  lemma IncKeepsNonNegative(c: Counter, s: Store, id: string, bucket: int, fault: Option<StoreError>)
    requires 0 <= c.bkts && NonNegative(s)
    ensures NonNegative(IncAt(c, s, id, bucket, fault).store)
  {
    var e := IncAt(c, s, id, bucket, fault);
    if e.err.None? {
      var key := Key(c.prefix, id);
      forall k, f | k in e.store && f in e.store[k].fields && e.store[k].fields[f].Num?
        ensures e.store[k].fields[f].n >= 0
      {
        if k != key {
          assert k in e.store - {key};
        } else if f != bucket {
          assert f !in Ring.Stale(c.bkts, bucket);
          assert Field(e.store, key, f) == Field(s, key, f);
        }
      }
    }
  }

  /** A reset keeps every stored integer non-negative. */
  lemma ResetKeepsNonNegative(c: Counter, s: Store, id: string, fault: Option<StoreError>)
    requires NonNegative(s)
    ensures NonNegative(Reset(c, s, id, fault).store)
  {
  }

  /** Over a store of non-negative integers the window total is non-negative. */
  lemma OccurrencesNonNegative(c: Counter, s: Store, id: string, from: int)
    requires 0 <= c.bkts && NonNegative(s)
    ensures 0 <= Occurrences(c, s, id, from)
  {
    var h := HistogramFrom(c, s, id, from, None).value;
    forall i | 0 <= i < |h|
      ensures 0 <= h[i]
    {
      var f := Ring.Live(c.bkts, from)[i];
      var key := Key(c.prefix, id);
      if Field(s, key, f).Some? {
        assert s[key].fields[f] == Field(s, key, f).value;
      }
    }
    SumNonNegative(h);
  }
}
