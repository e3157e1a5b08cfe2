# streamgorate sliding-window counter and rate limiter, in Dafny

This project models the bucketed sliding-window counter of `counter.go` and
the threshold limiter of `limiter.go`. The Go code keeps, for each tracked
identifier, one Redis hash under the key `prefix + ":" + id`. The hash's
fields are bucket indices of a ring of `bkts = 2 * (period / interval)` time
slices, and its values are occurrence counts.

- An increment adds one to the bucket of the current time. In the same
  transaction it deletes the `bkts / 2` buckets just ahead of the current one
  and sets the key's expiry to `period`.
- A read fetches the `bkts / 2` most recent buckets, newest first, and sums
  them.
- The limiter compares that sum against `max`.

The store is modelled as an immutable `map<string, Entry>`, where each
`Entry` holds a field map and the expiry last set on it. Every operation is a
pure function from the store and a timestamp (or bucket) to the new store and
the Go `(value, error)` reply. Each store round trip succeeds or fails
according to an input `fault: Option<StoreError>`.

Go's 64-bit arithmetic is written out explicitly (module `GoInt`):
- the doubling in the bucket count, the running sum in `Count` and the
  subtraction in `Remaining` wrap around in two's complement;
- `/` truncates toward zero, and `%` takes the sign of its dividend.

Modules, one per component:

- `Wrappers` (`wrappers.dfy`): `Option`.
- `GoInt` (`goint.dfy`): int64 wrap-around, Go's `/` and `%`, and the
  modular-arithmetic lemmas the ring proofs need.
- `Ring` (`ring.dfy`): `hash`, the live half (`buckets`) and the stale half
  deleted by `inc`, with the partition proof.
- `Stores` (`stores.dfy`): cells, entries, errors, and the
  parse-or-zero reading of a field.
- `Counters` (`counter.dfy`): `NewCounter`, `key`, `inc`/`Inc`,
  `histogram`/`Histogram`, `Count` and `Reset`, plus their lemmas.
- `Limiters` (`limiter.dfy`): `NewLimiter`, `Remaining`, `Exceeded`, plus
  their lemmas.

Go's `NewCounter` accepts any non-zero interval, and so does
`Counters.NewCounter`. The configurations on which the ring arithmetic is
meaningful are named by the predicate `Counters.Valid` (positive interval,
even bucket count of at least 2), which the lemmas take as a hypothesis.

## Model

| member | source | states |
|---|---|---|
| Counters.BucketCount | counter.go:31 | the derived bucket count is an int64 and always even, even when the doubling wraps |
| Counters.BucketCountAtLeastTwo | counter.go:31 | when the quotient fits in 62 bits, `bkts` is twice the truncated quotient, and `bkts >= 2` exactly when `0 < interval <= period` or `period <= interval < 0` |
| Counters.NewCounter | counter.go:24-33 | the counter keeps prefix, period and interval, has an even bucket count, and is a valid ring whenever `0 < interval <= period` and `period / interval < 2^62` |
| Counters.OrdinaryBucketCount | counter.go:31 | a positive interval no longer than the period, with a quotient below 2^62, gives a ring of at least two buckets split into equal halves |
| Counters.ExampleBucketCounts | example_test.go:23 | the example configurations (5s in 0.5s slices, and 2s in 0.2s slices) both give a ring of 20 buckets |
| Ring.Hash | counter.go:36-38 | for a non-negative timestamp and positive interval and ring size, the bucket is in `[0, bkts)` and equals `floor(t / interval) mod bkts` |
| Ring.HashPeriodic | counter.go:36-38 | timestamps `interval * bkts` apart hash to the same bucket |
| Counters.Key | counter.go:40-45 | the key consists of the prefix, then `:`, then the identifier |
| Counters.KeyInjective | counter.go:40-45 | under one prefix, distinct identifiers have distinct keys |
| Ring.Live | counter.go:77-84 | the live list has `bkts / 2` entries; for `0 <= from < bkts` entry i is `(from - i) mod bkts` in `[0, bkts)`, and entry 0 is `from` |
| Ring.LiveDistinct | counter.go:77-84 | the live buckets are pairwise distinct |
| Ring.Stale | counter.go:49-53 | the stale list has `bkts / 2` entries; entry i is `(bucket + i + 1) mod bkts` in `[0, bkts)` |
| Ring.LiveStalePartition | counter.go:49-84 | the live and stale halves seen from one bucket are disjoint, every bucket of the ring lies in exactly one of them, and the current bucket is live and never deleted |
| Ring.CurrentNotStale | counter.go:49-53 | for a bucket of the ring, the list of fields `inc` deletes never contains the bucket it increments |
| Stores.ReadCount | counter.go:99-107 | an absent field, an unparseable one, or one outside int64 reads as 0; a valid int64 reads as itself |
| Counters.IncAt | counter.go:48-66 | `inc` succeeds exactly when the store answers and the field is incrementable. A failed round trip changes nothing. Otherwise the TTL becomes `period`, every stale field is absent, and every other key and every field other than the bucket is unchanged. On success the bucket holds its old value plus one (absent counts as 0); when only the increment is refused, the error is `NotAnInteger` and the bucket keeps its old content |
| Counters.Inc | counter.go:70-74 | `Inc` works on the bucket `floor(t / interval) mod bkts`: a failed round trip leaves the store untouched; otherwise the TTL becomes `period`, and the bucket grows by one on success or keeps its content when the increment is refused |
| Counters.HistogramFrom | counter.go:86-109 | on a failed read: an empty list with that error. Otherwise: no error, `bkts / 2` int64 values, and value i is the parsed field of live bucket i, in most-recent-first order |
| Counters.Histogram | counter.go:111-116 | `Histogram` at time t returns `bkts / 2` values, and the first is the count of t's own bucket |
| Counters.Total | counter.go:125-129 | the int64 running sum equals the mathematical sum wrapped once to int64 |
| Counters.CountFrom | counter.go:119-130 | on a read error, `Count` is 0 with that error. Otherwise it is the sum of the live histogram, wrapped to int64, and exactly that sum when it fits |
| Counters.Count | counter.go:118-130 | `Count` at time t is the wrapped number of occurrences in the live half seen from t's bucket |
| Counters.Reset | counter.go:132-136 | on success the key of `id` is gone and every other key is unchanged; an error leaves the store as it was |
| Counters.IncCountsOnce | counter.go:49-59 | after a successful `inc` into bucket b, the number of occurrences seen from b grows by exactly one, and `Count` from b grows by one in int64 |
| Counters.HistogramAfterInc | counter.go:49-109 | read from the bucket just incremented, the newest histogram entry grows by one and every other entry is unchanged |
| Counters.RefusedIncKeepsHistogram | counter.go:49-109 | when the store refuses the increment, the deletions it still applies leave the histogram and `Count` read from that bucket exactly as before |
| Counters.RefusedIncExample | counter.go:58-62 | a refused increment into bucket 0 of a four-bucket ring deletes bucket 1, sets the TTL to `period`, keeps the unparseable field, and reports `NotAnInteger` |
| Counters.CountAfterInc | counter.go:119-130 | `Count` at time t after `Inc` at t equals `Count` before plus one, in int64 |
| Counters.ResetClears | counter.go:133-136 | after `Reset`, every histogram entry and `Count` are 0, whatever bucket the read starts from |
| Counters.ResetIdempotent | counter.go:133-136 | a second `Reset` returns the same store and reply as the first |
| Counters.IncTimesCounts | counter.go:58 | n increments (n up to the int64 maximum) into an initially absent bucket all succeed and leave the field holding n |
| Counters.IncKeepsNonNegative | counter.go:58 | `inc` keeps every stored integer non-negative |
| Counters.ResetKeepsNonNegative | counter.go:134 | `Reset` keeps every stored integer non-negative |
| Counters.OccurrencesNonNegative | counter.go:99-107 | over a store of non-negative integers, the window total is non-negative |
| Limiters.NewLimiter | limiter.go:17-23 | the limiter's counter is the one `NewCounter` builds from the same prefix, period and interval, with the same bucket count; `max` is kept |
| Limiters.Remaining | limiter.go:26-32 | on error: `(0, err)`, with `Count`'s error unchanged. Otherwise `max - Count` in int64, which is exactly `max - Count` when that fits |
| Limiters.Exceeded | limiter.go:35-41 | on error: `(false, err)`, with `Remaining`'s error unchanged. Otherwise true exactly when `Remaining <= 0` |
| Limiters.RemainingIsMaxMinusOccurrences | limiter.go:26-32 | without wrap-around, `Remaining` is `max` minus the occurrences in the live half |
| Limiters.NonPositiveMaxAlwaysExceeded | limiter.go:26-41 | with `max <= 0` over non-negative counts, `Exceeded` is `(true, nil)` |
| Limiters.RemainingAfterReset | limiter.go:26-32 | right after `Reset`, `Remaining` is `(max, nil)` |
| Limiters.IncConsumesOne | limiter.go:26-32 | a successful `Inc` lowers `Remaining`, read at the same instant, by exactly one (the 9, 8, 7, ... of the example) |

## Left out

- The Redis client is not modelled: `TxPipeline`, `Exec`, `Save`, `HMGet`
  and `Del`. The store is a map, and the outcome of each round trip is the
  `fault` parameter.
- The reply decoding in `Strings` and the `ErrNil`/`Error` sentinels are not
  modelled either. A nil or error reply is one more value of `fault`.
- Key expiry is not enforced. The model records the TTL that `inc` sets, but
  keys never disappear on their own.
- Field names are modelled as the integer bucket index rather than its
  decimal string. `strconv.Itoa` is injective, so nothing is lost.
- Stored values are `Num(n)` (a decimal string) or `Garbage` (anything
  `strconv.ParseInt` rejects). Signs, leading zeros and other parser details
  are not modelled.
- Counters.IncAt: a ring of fewer than two buckets makes HDEL carry no
  fields, which Redis rejects. The model deletes nothing in that case.
- `time.Now().UnixNano()` is replaced by the timestamp parameter `t`.
- Concurrent callers are not modelled. The transaction is assumed atomic.
- Ring.Live: the index expressions `bkts + from - i` in `buckets` and
  `bucket + i + 1` in `inc` are not wrapped to 64 bits. They can overflow
  only for rings of about 2^62 buckets or more, which `NewCounter` does
  produce (up to 2^63 - 2). For such rings, though, `make([]string, bkts/2)`
  in `inc` (counter.go:49) and `make([]int, len)` in `buckets` (counter.go:79)
  cannot allocate the slice, and Go panics before any index is computed.
  That allocation panic is not modelled either.
- Counters.IncAt: a hash that HDEL leaves with no fields is kept as an empty
  entry, whereas Redis removes the key. This can only happen for a bucket
  index outside the ring, because the incremented bucket itself is never
  deleted (`Ring.CurrentNotStale`).
- Counters.BucketCountAtLeastTwo: stated only for quotients below 2^62. Above
  that, the doubling wraps: `period = 2^62` with `interval = 1` gives a
  negative bucket count, and `buckets` would then panic.
- Limiters.NonPositiveMaxAlwaysExceeded: assumes the window total and
  `max - total` do not wrap. With `max = math.MinInt64` and one occurrence,
  Go's subtraction wraps to `math.MaxInt64`, and `Exceeded` returns false.
- Limiters.RemainingIsMaxMinusOccurrences: assumes no wrap-around. Without
  that assumption, `Limiters.Remaining` states the wrapped result.
- Limiters.IncConsumesOne: assumes no wrap-around, as above.
- `NewCounter` and `hash` with a zero interval or a zero bucket count panic
  in Go (integer division by zero). They appear in the model as
  preconditions (`interval != 0`, `Counters.Runnable`), not as error paths.
- The test files need a live Redis and timing. Their expected outputs are
  evidence for the lemmas above and are not replayed.
