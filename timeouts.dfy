/** Rounding of request timeouts to the buckets that key the client cache. */
module Timeouts {

  /** One more than the largest value of Rust's `u64`. */
  const U64Bound: int := 0x1_0000_0000_0000_0000

  newtype u64 = x: int | 0 <= x < U64Bound

  /** `TIMEOUT_BUCKET_MS`: the width of one timeout bucket, in milliseconds. */
  const BucketMs: u64 := 5000

  /** The source's overflow bound: `timeout + TIMEOUT_BUCKET_MS` is computed
      first in `u64`, so it must not exceed `u64::MAX`. */
  predicate NoBucketOverflow(timeout: u64) {
    timeout as int + BucketMs as int < U64Bound
  }

  /** `bucket_timeout`: the number of whole buckets needed to cover the
      timeout, at least one, turned back into milliseconds. */
  function BucketTimeout(timeout: u64): (r: u64)
    requires NoBucketOverflow(timeout)
    ensures r as int % BucketMs as int == 0
    ensures r >= BucketMs && r >= timeout
    ensures timeout >= 1 ==> r as int < timeout as int + BucketMs as int
    ensures timeout == 0 ==> r == BucketMs
  {
    var buckets := (timeout + BucketMs - 1) / BucketMs;
    assert buckets as int * BucketMs as int <= timeout as int + BucketMs as int - 1;
    (if buckets > 1 then buckets else 1) * BucketMs
  }

  /** The bucket is the least positive multiple of the bucket width that is
      at least the timeout: every other candidate is as large or larger. */
  lemma BucketIsLeastCover(timeout: u64, m: int)
    requires NoBucketOverflow(timeout)
    requires m % BucketMs as int == 0 && m >= BucketMs as int && m >= timeout as int
    ensures BucketTimeout(timeout) as int <= m
  {
    var r := BucketTimeout(timeout) as int;
    if r > BucketMs as int {
      var w := BucketMs as int;
      var a, b := m / w, r / w;
      assert m == w * a && r == w * b;
      assert w * a > w * b - w;
      assert a > b - 1;
    }
  }

  /** A longer timeout never lands in a shorter bucket. */
  lemma BucketMonotone(t1: u64, t2: u64)
    requires NoBucketOverflow(t2) && t1 <= t2
    ensures BucketTimeout(t1) <= BucketTimeout(t2)
  {
    BucketIsLeastCover(t1, BucketTimeout(t2) as int);
  }

  /** Rounding a value that is already a bucket leaves it unchanged. */
  lemma BucketIdempotent(timeout: u64)
    requires NoBucketOverflow(timeout) && NoBucketOverflow(BucketTimeout(timeout))
    ensures BucketTimeout(BucketTimeout(timeout)) == BucketTimeout(timeout)
  {
    var r := BucketTimeout(timeout);
    BucketIsLeastCover(r, r as int);
  }

  /** Every timeout up to one bucket, zero included, gets the first bucket. */
  lemma ShortTimeoutsShareFirstBucket(timeout: u64)
    requires timeout <= BucketMs
    ensures BucketTimeout(timeout) == BucketMs
  {
    BucketIsLeastCover(timeout, BucketMs as int);
  }

  /** Two positive timeouts share a bucket exactly when they fall in the same
      half-open interval (kw, (k+1)w] of bucket width w. */
  lemma SameBucketIff(t1: u64, t2: u64)
    requires NoBucketOverflow(t1) && NoBucketOverflow(t2)
    requires t1 >= 1 && t2 >= 1
    ensures BucketTimeout(t1) == BucketTimeout(t2)
        <==> (t1 as int - 1) / BucketMs as int == (t2 as int - 1) / BucketMs as int
  {
    BucketOfPositive(t1);
    BucketOfPositive(t2);
  }

  /** For a positive timeout the bucket is the next multiple of the width
      above `timeout - 1`. */
  lemma BucketOfPositive(timeout: u64)
    requires NoBucketOverflow(timeout) && timeout >= 1
    ensures BucketTimeout(timeout) as int == ((timeout as int - 1) / BucketMs as int + 1) * BucketMs as int
  {
    var t, w := timeout as int, BucketMs as int;
    assert (t + w - 1) / w == (t - 1) / w + 1;
  }
}
