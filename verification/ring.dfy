/**
 The bucket arithmetic of counter.go: the ring of `bkts` time buckets, the
 bucket a timestamp falls into, the live half of the ring that a read sums,
 and the stale half that an increment clears.
 */
module Ring {
  import opened GoInt

  /** A ring the counter can work with: at least two buckets, split into two equal halves. */
  predicate WellFormed(bkts: int) {
    2 <= bkts && bkts % 2 == 0
  }

  /** `hash` in counter.go: the bucket of timestamp `t` (nanoseconds), `int(t / interval) % bkts`. */
  function Hash(interval: int, bkts: int, t: int): (b: int)
    requires InInt64(t) && InInt64(interval) && interval != 0 && bkts != 0
    ensures 0 <= t && 0 < interval && 0 < bkts ==> 0 <= b < bkts
    ensures 0 <= t && 0 < interval && 0 < bkts ==> b == (t / interval) % bkts
  {
    GoRem(Quot64(t, interval), bkts)
  }

  /** Timestamps one full turn of the ring apart land in the same bucket. */
  lemma HashPeriodic(interval: int, bkts: int, t: int)
    requires 0 < interval && 0 < bkts && 0 <= t
    requires InInt64(interval) && InInt64(t + interval * bkts)
    ensures Hash(interval, bkts, t + interval * bkts) == Hash(interval, bkts, t)
  {
    DivAddMultiple(t, bkts, interval);
    assert (t + interval * bkts) / interval == t / interval + bkts;
    DivAddMultiple(t / interval, 1, bkts);
  }

  /**
   `buckets` in counter.go: the live half of the ring, most recent first,
   entry i being `(bkts + from - i) % bkts`.
   */
  function Live(bkts: int, from: int): (r: seq<int>)
    requires 0 <= bkts
    ensures |r| == bkts / 2
    ensures 0 <= from < bkts ==> forall i :: 0 <= i < |r| ==> 0 <= r[i] < bkts && r[i] == (from - i) % bkts
    ensures 0 <= from < bkts && 2 <= bkts ==> r[0] == from
  {
    var r := seq(bkts / 2, i requires 0 <= i < bkts / 2 => LiveEntry(bkts, from, i));
    LiveEntries(bkts, from, r);
    r
  }

  /** Entry i of `buckets`, with Go's `%`. */
  function LiveEntry(bkts: int, from: int, i: int): int
    requires 0 <= i < bkts / 2
  {
    GoRem(bkts + from - i, bkts)
  }

  lemma LiveEntries(bkts: int, from: int, r: seq<int>)
    requires 0 <= bkts && |r| == bkts / 2
    requires forall i :: 0 <= i < |r| ==> r[i] == LiveEntry(bkts, from, i)
    ensures 0 <= from < bkts ==> forall i :: 0 <= i < |r| ==> 0 <= r[i] < bkts && r[i] == (from - i) % bkts
    ensures 0 <= from < bkts && 2 <= bkts ==> r[0] == from
  {
    if 0 <= from < bkts {
      forall i | 0 <= i < |r|
        ensures 0 <= r[i] < bkts && r[i] == (from - i) % bkts
      {
        var a := bkts + from - i;
        assert r[i] == LiveEntry(bkts, from, i) == a % bkts;
        assert a == (from - i) + 1 * bkts;
        DivAddMultiple(from - i, 1, bkts);
      }
      if 2 <= bkts {
        BackToBucket(from, 0, bkts);
      }
    }
  }

  /**
   The stale half that `inc` in counter.go deletes: the `bkts / 2` buckets
   just ahead of `bucket`, entry i being `(bucket + i + 1) % bkts`.
   */
  function Stale(bkts: int, bucket: int): (r: seq<int>)
    requires 0 <= bkts
    ensures |r| == bkts / 2
    ensures 0 <= bucket ==> forall i :: 0 <= i < |r| ==> 0 <= r[i] < bkts && r[i] == (bucket + i + 1) % bkts
  {
    var r := seq(bkts / 2, i requires 0 <= i < bkts / 2 => GoRem(bucket + i + 1, bkts));
    assert forall i :: 0 <= i < |r| ==> r[i] == GoRem(bucket + i + 1, bkts);
    r
  }

  /** Two numbers closer together than the modulus have different remainders. */
  lemma ModDistinct(x: int, y: int, m: int)
    requires 0 < m && 0 < x - y < m
    ensures x % m != y % m
  {
    var q, r, d := y / m, y % m, x - y;
    assert y == q * m + r;
    DivAddMultiple(r + d, q, m);
    assert x == (r + d) + q * m;
    if r + d < m {
      DivModUnique(r + d, m, 0, r + d);
    } else {
      DivModUnique(r + d, m, 1, r + d - m);
    }
  }

  /** The live buckets are pairwise distinct. */
  lemma LiveDistinct(bkts: int, from: int)
    requires 0 <= from < bkts
    ensures forall i, j :: 0 <= i < j < |Live(bkts, from)| ==> Live(bkts, from)[i] != Live(bkts, from)[j]
  {
    var r := Live(bkts, from);
    forall i, j | 0 <= i < j < |r|
      ensures r[i] != r[j]
    {
      ModDistinct(from - i, from - j, bkts);
    }
  }

  /** A bucket of the ring is either live or stale, seen from `from`. */
  lemma LiveOrStale(bkts: int, from: int, x: int)
    requires WellFormed(bkts) && 0 <= from < bkts && 0 <= x < bkts
    ensures x in Live(bkts, from) || x in Stale(bkts, from)
  {
    var d := (from - x) % bkts;
    var k := (from - x) / bkts;
    assert from - x == k * bkts + d;
    if d < bkts / 2 {
      var live := Live(bkts, from);
      BackToBucket(x, k, bkts);
      assert from - d == x + k * bkts;
      assert live[d] == (from - d) % bkts;
      assert live[d] == x;
    } else {
      var stale := Stale(bkts, from);
      var j := bkts - 1 - d;
      BackToBucket(x, k + 1, bkts);
      assert from + j + 1 == x + (k + 1) * bkts;
      assert stale[j] == (from + j + 1) % bkts;
      assert stale[j] == x;
    }
  }

  /** The bucket being incremented is never among those `inc` deletes. */
  lemma CurrentNotStale(bkts: int, bucket: int)
    requires 0 <= bkts
    ensures 0 <= bucket < bkts ==> bucket !in Stale(bkts, bucket)
  {
    if 0 <= bucket < bkts {
      var stale := Stale(bkts, bucket);
      forall i | 0 <= i < |stale|
        ensures stale[i] != bucket
      {
        ModDistinct(bucket + i + 1, bucket, bkts);
        BackToBucket(bucket, 0, bkts);
      }
    }
  }

  lemma BackToBucket(x: int, k: int, m: int)
    requires 0 <= x < m
    ensures (x + k * m) % m == x
  {
    DivAddMultiple(x, k, m);
  }

  /**
   Seen from the current bucket, the live and the stale halves partition the
   ring: every bucket is in exactly one of them, and in particular the
   current bucket is never cleared.
   */
  lemma {:induction false} LiveStalePartition(bkts: int, from: int)
    requires WellFormed(bkts) && 0 <= from < bkts
    ensures forall i, j :: 0 <= i < |Live(bkts, from)| && 0 <= j < |Stale(bkts, from)| ==>
      Live(bkts, from)[i] != Stale(bkts, from)[j]
    ensures forall x :: 0 <= x < bkts ==> (x in Live(bkts, from) <==> x !in Stale(bkts, from))
    ensures from in Live(bkts, from) && from !in Stale(bkts, from)
  {
    var live, stale := Live(bkts, from), Stale(bkts, from);
    forall i, j | 0 <= i < |live| && 0 <= j < |stale|
      ensures live[i] != stale[j]
    {
      ModDistinct(from + j + 1, from - i, bkts);
    }
    forall x | 0 <= x < bkts
      ensures x in live <==> x !in stale
    {
      LiveOrStale(bkts, from, x);
    }
    assert live[0] == from;
  }
}
