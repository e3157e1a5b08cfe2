/**
 The rate limiter of limiter.go: a counter plus a threshold `max`. `Inc`,
 `Histogram`, `Count` and `Reset` are the counter's own (Go promotes the
 embedded `Counter`'s methods), so they are used here through `l.counter`.
 */
module Limiters {
  import opened Wrappers
  import opened GoInt
  import opened Stores
  import Ring
  import opened Counters

  /** `Limiter` in limiter.go, without the client handle. */
  datatype Limiter = Limiter(counter: Counter, max: int)

  /**
   `NewLimiter`: a limiter whose counter is built exactly as `NewCounter`
   would build it from the same prefix, period and interval.
   */
  function NewLimiter(prefix: string, period: int, interval: int, max: int): (l: Limiter)
    requires InInt64(period) && InInt64(interval) && interval != 0 && InInt64(max)
    ensures l.counter == NewCounter(prefix, period, interval) && l.max == max
    ensures l.counter.prefix == prefix && l.counter.period == period && l.counter.interval == interval
    ensures l.counter.bkts == BucketCount(period, interval)
  {
    Limiter(NewCounter(prefix, period, interval), max)
  }

  /**
   `Remaining`: `max` minus the count in int64 arithmetic, or 0 with the
   count's error.
   */
  function Remaining(l: Limiter, s: Store, id: string, t: int, fault: Option<StoreError>): (r: Reply<int>)
    requires Runnable(l.counter) && InInt64(t)
    ensures r.err == Count(l.counter, s, id, t, fault).err
    ensures r.err == fault
    ensures r.err.Some? ==> r.value == 0
    ensures r.err.None? ==> r.value == Wrap64(l.max - Count(l.counter, s, id, t, fault).value)
    ensures r.err.None? && InInt64(l.max - Count(l.counter, s, id, t, fault).value) ==>
      r.value == l.max - Count(l.counter, s, id, t, fault).value
  {
    var occurs := Count(l.counter, s, id, t, fault);
    if occurs.err.Some? then Reply(0, occurs.err) else Reply(Wrap64(l.max - occurs.value), None)
  }

  /** `Exceeded`: whether nothing remains, or false with the error of `Remaining`. */
  function Exceeded(l: Limiter, s: Store, id: string, t: int, fault: Option<StoreError>): (r: Reply<bool>)
    requires Runnable(l.counter) && InInt64(t)
    ensures r.err == Remaining(l, s, id, t, fault).err
    ensures r.err.Some? ==> r.value == false
    ensures r.err.None? ==> (r.value <==> Remaining(l, s, id, t, fault).value <= 0)
  {
    var rem := Remaining(l, s, id, t, fault);
    if rem.err.Some? then Reply(false, rem.err) else Reply(rem.value <= 0, None)
  }

  /**
   Without wrap-around, `Remaining` is the threshold minus the number of
   occurrences in the live half of the ring.
   */
  lemma RemainingIsMaxMinusOccurrences(l: Limiter, s: Store, id: string, t: int)
    requires Runnable(l.counter) && InInt64(t) && InInt64(l.max)
    requires var n := Occurrences(l.counter, s, id, Ring.Hash(l.counter.interval, l.counter.bkts, t));
      InInt64(n) && InInt64(l.max - n)
    ensures Remaining(l, s, id, t, None).err.None?
    ensures Remaining(l, s, id, t, None).value
         == l.max - Occurrences(l.counter, s, id, Ring.Hash(l.counter.interval, l.counter.bkts, t))
  {
  }

  /**
   A threshold of zero or less is always exceeded when every stored count is
   non-negative (the only write is an increment by one).
   */
  lemma NonPositiveMaxAlwaysExceeded(l: Limiter, s: Store, id: string, t: int)
    requires Runnable(l.counter) && InInt64(t) && InInt64(l.max) && l.max <= 0
    requires NonNegative(s)
    requires var n := Occurrences(l.counter, s, id, Ring.Hash(l.counter.interval, l.counter.bkts, t));
      n <= Int64Max && Int64Min <= l.max - n
    ensures Exceeded(l, s, id, t, None) == Reply(true, None)
  {
    OccurrencesNonNegative(l.counter, s, id, Ring.Hash(l.counter.interval, l.counter.bkts, t));
  }

  /** Right after a reset the whole threshold remains. */
  lemma RemainingAfterReset(l: Limiter, s: Store, id: string, t: int)
    requires Runnable(l.counter) && InInt64(t) && InInt64(l.max)
    ensures Remaining(l, Reset(l.counter, s, id, None).store, id, t, None) == Reply(l.max, None)
  {
    ResetClears(l.counter, s, id, Ring.Hash(l.counter.interval, l.counter.bkts, t));
  }

  /** Each successful increment uses up one unit of what remains, read at the same instant. */
  lemma IncConsumesOne(l: Limiter, s: Store, id: string, t: int)
    requires Valid(l.counter) && InInt64(t) && 0 <= t && InInt64(l.max)
    requires Inc(l.counter, s, id, t, None).err.None?
    requires var n := Occurrences(l.counter, s, id, Ring.Hash(l.counter.interval, l.counter.bkts, t));
      0 <= n < Int64Max && Int64Min < l.max - n
    ensures Remaining(l, Inc(l.counter, s, id, t, None).store, id, t, None).value
         == Remaining(l, s, id, t, None).value - 1
  {
    IncCountsOnce(l.counter, s, id, Ring.Hash(l.counter.interval, l.counter.bkts, t));
  }
}
