/**
 * The data-rate counter: a sliding window of (time, byte count) samples
 * kept in a double-ended queue plus a running total. Times are integer
 * milliseconds supplied by the caller in place of the wall clock.
 */
module RateStats {

  /** One call to `register_bytes_read`: the time it happened and the bytes it reported. */
  datatype Sample = Sample(time: int, count: nat)

  /** The bytes reported by a sequence of samples. */
  function SumCounts(s: seq<Sample>): nat
  {
    if s == [] then 0 else SumCounts(s[..|s| - 1]) + s[|s| - 1].count
  }

  /** Summing splits over concatenation. */
  lemma {:induction false} SumCountsAppend(a: seq<Sample>, b: seq<Sample>)
    ensures SumCounts(a + b) == SumCounts(a) + SumCounts(b)
    decreases |b|
  {
    if b == [] {
      assert a + b == a;
    } else {
      assert (a + b)[..|a + b| - 1] == a + b[..|b| - 1];
      SumCountsAppend(a, b[..|b| - 1]);
    }
  }

  /** A back part of a sequence of samples never reports more than the whole. */
  lemma SumCountsSuffix(s: seq<Sample>, k: nat)
    requires k <= |s|
    ensures SumCounts(s[k..]) <= SumCounts(s)
  {
    assert s == s[..k] + s[k..];
    SumCountsAppend(s[..k], s[k..]);
  }

  /** `a` is the back part of `b`. */
  predicate IsSuffix<T(==)>(a: seq<T>, b: seq<T>)
  {
    |a| <= |b| && a == b[|b| - |a|..]
  }

  /** Appending the same element to both keeps a back part a back part. */
  lemma SuffixAppend<T>(a: seq<T>, b: seq<T>, x: T)
    requires IsSuffix(a, b)
    ensures IsSuffix(a + [x], b + [x])
  {
    assert (b + [x])[|b + [x]| - |a + [x]|..] == b[|b| - |a|..] + [x];
  }

  /** A back part of a back part is a back part. */
  lemma SuffixTrans<T>(a: seq<T>, b: seq<T>, c: seq<T>)
    requires IsSuffix(a, b) && IsSuffix(b, c)
    ensures IsSuffix(a, c)
  {
    assert c[|c| - |a|..] == c[|c| - |b|..][|b| - |a|..];
  }

  /**
   * The eviction loop: the front sample is dropped while its time is before
   * `bound`. What is left is a back part of the input; every dropped sample
   * was before the bound, and the new front, if any, is not.
   */
  function Evict(h: seq<Sample>, bound: int): (r: seq<Sample>)
    ensures |r| <= |h|
    ensures forall i :: 0 <= i < |h| - |r| ==> h[i].time < bound
    ensures r != [] ==> r[0].time >= bound
  {
    if h != [] && h[0].time < bound then Evict(h[1..], bound) else h
  }

  /** What eviction leaves is the back part of its input. */
  lemma {:induction false} EvictIsSuffix(h: seq<Sample>, bound: int)
    ensures IsSuffix(Evict(h, bound), h)
  {
    if h != [] && h[0].time < bound {
      EvictIsSuffix(h[1..], bound);
      SuffixTrans(Evict(h, bound), h[1..], h);
    }
  }

  /**
   * A sample registered at time `now` survives the eviction bound
   * `now - windowMs` whenever the window is not negative: the newest entry
   * is never evicted.
   */
  lemma EvictKeepsNewest(h: seq<Sample>, s: Sample, windowMs: int)
    requires windowMs >= 0
    ensures var r := Evict(h + [s], s.time - windowMs);
            r != [] && r[|r| - 1] == s
  {
    var hs := h + [s];
    EvictIsSuffix(hs, s.time - windowMs);
    assert !(hs[|h|].time < s.time - windowMs);
  }

  /**
   * When the samples are in time order, the kept samples are exactly those
   * at or after the bound: no stale sample hides behind a fresh one.
   */
  lemma {:induction false} EvictSorted(h: seq<Sample>, bound: int)
    requires forall i, j :: 0 <= i < j < |h| ==> h[i].time <= h[j].time
    ensures forall x :: x in Evict(h, bound) ==> x.time >= bound
  {
    var r := Evict(h, bound);
    EvictIsSuffix(h, bound);
    forall x | x in r
      ensures x.time >= bound
    {
      var j :| 0 <= j < |r| && r[j] == x;
      assert h[|h| - |r| + j] == x;
      assert h[|h| - |r|] == r[0];
    }
  }

  /** `DataRateStats`: the window, the queue of recent samples, and the running total. */
  class DataRateStats {
    const windowMs: int
    var history: seq<Sample>
    var totalBytes: nat
    /** Every sample ever registered, oldest first. */
    ghost var registered: seq<Sample>

    /**
     * The total is the sum of every count ever registered, and the queue is
     * the newest part of the registered samples, in registration order.
     */
    ghost predicate Valid()
      reads this
    {
      && totalBytes == SumCounts(registered)
      && IsSuffix(history, registered)
    }

    constructor (windowMs: int)
      ensures Valid()
      ensures this.windowMs == windowMs && history == [] && totalBytes == 0 && registered == []
    {
      this.windowMs := windowMs;
      history := [];
      totalBytes := 0;
      registered := [];
    }

    /**
     * `register_bytes_read` at time `now`: append the sample at the back, add
     * to the total, then pop from the front while the front is older than
     * the window.
     */
    method RegisterBytesRead(now: int, numBytes: nat)
      requires Valid()
      modifies this
      ensures Valid()
      ensures registered == old(registered) + [Sample(now, numBytes)]
      ensures totalBytes == old(totalBytes) + numBytes
      ensures history == Evict(old(history) + [Sample(now, numBytes)], now - windowMs)
    {
      var appended := history + [Sample(now, numBytes)];
      SuffixAppend(history, registered, Sample(now, numBytes));
      totalBytes := totalBytes + numBytes;
      registered := registered + [Sample(now, numBytes)];
      var h := appended;
      while h != [] && h[0].time < now - windowMs
        invariant Evict(h, now - windowMs) == Evict(appended, now - windowMs)
        decreases |h|
      {
        h := h[1..];
      }
      history := h;
      EvictIsSuffix(appended, now - windowMs);
      SuffixTrans(history, appended, registered);
    }

    /**
     * The sums behind `get_results` at time `now`: the bytes still in the
     * window, the running total, and the effective window, which is the age
     * of the front sample, or the configured window when the queue is empty.
     * `hasRate` says whether the rate division takes place (a positive
     * effective window); otherwise the reported rate is zero.
     */
    method GetResults(now: int) returns (bytesInWindow: nat, total: nat, effectiveWindowMs: int, hasRate: bool)
      ensures bytesInWindow == SumCounts(history)
      ensures total == totalBytes
      ensures effectiveWindowMs == if history == [] then windowMs else now - history[0].time
      ensures hasRate <==> effectiveWindowMs > 0
    {
      bytesInWindow := 0;
      var i := 0;
      while i < |history|
        invariant 0 <= i <= |history|
        invariant bytesInWindow == SumCounts(history[..i])
      {
        assert history[..i + 1][..i] == history[..i];
        bytesInWindow := bytesInWindow + history[i].count;
        i := i + 1;
      }
      assert history[..i] == history;
      if history != [] {
        effectiveWindowMs := now - history[0].time;
      } else {
        effectiveWindowMs := windowMs;
      }
      hasRate := effectiveWindowMs > 0;
      total := totalBytes;
    }
  }

  /** In a valid counter the bytes in the window never exceed the running total. */
  lemma WindowWithinTotal(d: DataRateStats)
    requires d.Valid()
    ensures SumCounts(d.history) <= d.totalBytes
  {
    SumCountsSuffix(d.registered, |d.registered| - |d.history|);
  }
}
