/**
 * The sliding-window request counter: a queue of request timestamps, the
 * oldest at the front, evicted from the front once older than the window.
 * The clock is the `now` parameter of each operation; every read of
 * `time.time()` within one operation is taken to return that same instant.
 */
module RateLimiting {
  import opened Values

  /**
   * `update`: drop entries from the front while the oldest one is more than
   * `window` seconds old (strictly). The result is a suffix of the queue.
   */
  function Evicted(c: seq<int>, now: int, window: int): (r: seq<int>)
    ensures |r| <= |c| && r == c[|c| - |r|..]
    ensures r == [] || now - r[0] <= window
    ensures forall i :: 0 <= i < |c| - |r| ==> now - c[i] > window
    decreases |c|
  {
    if c != [] && now - c[0] > window then Evicted(c[1..], now, window) else c
  }

  /** `r` is what is left of `c` after dropping entries from its front. */
  ghost predicate SuffixOf(r: seq<int>, c: seq<int>)
  {
    |r| <= |c| && r == c[|c| - |r|..]
  }

  lemma SuffixOfTransitive(a: seq<int>, b: seq<int>, c: seq<int>)
    requires SuffixOf(a, b) && SuffixOf(b, c)
    ensures SuffixOf(a, c)
  {
    assert c[|c| - |b|..][|b| - |a|..] == c[|c| - |a|..];
  }

  ghost predicate Sorted(c: seq<int>)
  {
    forall i, j :: 0 <= i <= j < |c| ==> c[i] <= c[j]
  }

  /**
   * On a time-ordered queue eviction keeps the order and leaves only entries
   * at most `window` seconds old; it changes nothing when repeated.
   */
  lemma EvictedSortedWithin(c: seq<int>, now: int, window: int)
    requires Sorted(c)
    ensures Sorted(Evicted(c, now, window))
    ensures forall i :: 0 <= i < |Evicted(c, now, window)| ==> now - Evicted(c, now, window)[i] <= window
    ensures Evicted(Evicted(c, now, window), now, window) == Evicted(c, now, window)
  {
    var r := Evicted(c, now, window);
    if r != [] {
      forall i | 0 <= i < |r| ensures now - r[i] <= window {
        assert r[0] <= r[i];
      }
    }
  }

  /** Appending a timestamp no older than the last one keeps the queue ordered. */
  lemma RecordKeepsSorted(c: seq<int>, now: int, window: int)
    requires Sorted(c) && (c != [] ==> c[|c| - 1] <= now)
    ensures Sorted(Evicted(c, now, window) + [now])
  {
    var r := Evicted(c, now, window);
    assert Sorted(r) by { EvictedSortedWithin(c, now, window); }
    assert r != [] ==> r[|r| - 1] == c[|c| - 1];
    AppendKeepsSorted(r, now);
  }

  lemma AppendKeepsSorted(r: seq<int>, x: int)
    requires Sorted(r) && (r != [] ==> r[|r| - 1] <= x)
    ensures Sorted(r + [x])
  {
    var s := r + [x];
    forall i, j | 0 <= i <= j < |s| ensures s[i] <= s[j] {
      if j < |r| {
        assert s[i] == r[i] && s[j] == r[j];
      } else if i < |r| {
        assert s[i] == r[i] && r[i] <= r[|r| - 1];
      }
    }
  }

  /**
   * While the oldest of `capacity` time-ordered requests is still inside the
   * window, all of them survive eviction, so the cache stays blocked; once
   * every entry has aged past the window the queue empties.
   */
  lemma BlockedUntilOldestAges(c: seq<int>, now: int, window: int, capacity: int)
    requires Sorted(c) && |c| >= capacity
    ensures c != [] && now - c[0] <= window ==> |Evicted(c, now, window)| >= capacity
    ensures c != [] && now - c[|c| - 1] > window ==> Evicted(c, now, window) == []
  {
  }

  /**
   * What `interval` returns once the queue has been evicted to `c`: the time
   * until the oldest entry leaves the window, never negative.
   */
  function WindowWait(c: seq<int>, now: int, window: int): (w: int)
    ensures w >= 0
    ensures c == [] ==> w == if window > 0 then window else 0
    ensures c != [] && now - c[0] < window ==> w + (now - c[0]) == window
    ensures c != [] && now - c[0] >= window ==> w == 0
  {
    var delta := if c == [] then 0 else now - c[0];
    if window > delta then window - delta else 0
  }

  class RateLimitCache {
    const maxStorage: int
    const intervalSecs: int
    var cache: seq<int>

    constructor (maxStorage: int, intervalSecs: int)
      ensures this.maxStorage == maxStorage && this.intervalSecs == intervalSecs
      ensures cache == []
    {
      this.maxStorage := maxStorage;
      this.intervalSecs := intervalSecs;
      cache := [];
    }

    /** `delta`: seconds since the earliest recorded call, 0 on an empty cache. */
    function Delta(now: int): (d: int)
      reads this
      ensures cache == [] ==> d == 0
      ensures cache != [] ==> d + cache[0] == now
    {
      if cache == [] then 0 else now - cache[0]
    }

    /** `update`: pop from the front while the oldest entry is outside the window. */
    method Update(now: int)
      modifies this`cache
      ensures cache == Evicted(old(cache), now, intervalSecs)
    {
      while Delta(now) > intervalSecs
        invariant Evicted(cache, now, intervalSecs) == Evicted(old(cache), now, intervalSecs)
        decreases |cache|
      {
        if cache == [] {
          // popleft on an empty deque raises IndexError, which update swallows
          return;
        }
        cache := cache[1..];
      }
    }

    /** `blocked`: evict, then compare the queue length with the capacity. */
    method Blocked(now: int) returns (b: bool)
      modifies this`cache
      ensures cache == Evicted(old(cache), now, intervalSecs)
      ensures b <==> |cache| >= maxStorage
    {
      Update(now);
      b := |cache| >= maxStorage;
    }

    /**
     * `interval`: evict, then the time until the oldest remaining entry
     * leaves the window; never negative, and the whole window when empty.
     */
    method Interval(now: int) returns (w: int)
      modifies this`cache
      ensures cache == Evicted(old(cache), now, intervalSecs)
      ensures w == WindowWait(cache, now, intervalSecs)
      ensures intervalSecs > Delta(now) ==> w + Delta(now) == intervalSecs
      ensures intervalSecs <= Delta(now) ==> w == 0
    {
      Update(now);
      if intervalSecs > Delta(now) {
        w := intervalSecs - Delta(now);
      } else {
        w := 0;
      }
    }

    /**
     * `new`: record a request at `now`. Raises "RateLimitCache is blocked."
     * and records nothing when the evicted queue is full; otherwise appends
     * `now`, which keeps the queue within capacity.
     */
    method New(now: int) returns (err: Option<Error>)
      modifies this`cache
      ensures |Evicted(old(cache), now, intervalSecs)| >= maxStorage ==>
        err == Some(CacheBlocked) && cache == Evicted(old(cache), now, intervalSecs)
      ensures |Evicted(old(cache), now, intervalSecs)| < maxStorage ==>
        err == None && cache == Evicted(old(cache), now, intervalSecs) + [now]
      ensures err == None ==> |cache| <= maxStorage && cache[|cache| - 1] == now
    {
      Update(now);
      ghost var evicted := cache;
      assert Evicted(evicted, now, intervalSecs) == evicted;
      var blocked := Blocked(now);
      assert cache == evicted;
      if blocked {
        return Some(CacheBlocked);
      }
      cache := cache + [now];
      err := None;
    }
  }
}
