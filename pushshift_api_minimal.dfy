/**
 * The current search client: payload normalisation, the retry loop, the
 * rate-limit wait and the paging generator `_search`, which walks the pages
 * the server returns and yields wrapped items or per-page batches.
 *
 * The server is the function `respond`: the parsed body `_get` finally
 * returns for the request with a given index and payload. A generator is a
 * method returning its Trace; `fuel` bounds the number of requests, since a
 * search without a limit never ends by itself.
 */
module MinimalApi {
  import opened Values
  import opened Things
  import opened Paging
  import opened RateLimiting

  /**
   * The elements a `filter` becomes a list of: a list is kept, a string
   * becomes a one-element list, anything else goes through `list()`.
   */
  function FilterElements(f: Value): (r: Result<seq<Value>>)
    ensures f.VList? ==> r == Ok(f.items)
    ensures f.VStr? ==> r == Ok([f])
    ensures f.VTuple? ==> r == Ok(f.items)
    ensures r.Err? <==> !(f.VList? || f.VStr? || f.VTuple?)
    ensures r.Err? ==> r.error == TypeError
  {
    if f.VList? then Ok(f.items)
    else if f.VStr? then Ok([f])
    else PyList(f)
  }

  /** Append `created_utc` only when it is not already in the list. */
  function WithCreatedUtc(xs: seq<Value>): (r: seq<Value>)
    ensures VStr(CreatedUtc) in r
    ensures VStr(CreatedUtc) in xs ==> r == xs
    ensures VStr(CreatedUtc) !in xs ==> r == xs + [VStr(CreatedUtc)]
  {
    if VStr(CreatedUtc) in xs then xs else xs + [VStr(CreatedUtc)]
  }

  /**
   * `_add_nec_args`: a limited payload is left alone; otherwise a missing
   * `limit` defaults to the page size, and a `filter` becomes a list that
   * contains `created_utc`. Raises TypeError when the filter is not iterable.
   */
  function AddNecArgs(p: Payload, maxPerRequest: int): (r: Result<Payload>)
    ensures Limited(p) ==> r == Ok(p)
    ensures r.Err? ==> r.error == TypeError
  {
    if Limited(p) then Ok(p)
    else
      var withLimit := if "limit" in p then p else p["limit" := VInt(maxPerRequest)];
      if "filter" !in withLimit then Ok(withLimit)
      else
        match FilterElements(withLimit["filter"])
        case Err(e) => Err(e)
        case Ok(xs) => Ok(withLimit["filter" := VList(WithCreatedUtc(xs))])
  }

  /**
   * What `_add_nec_args` does to a payload that is not limited: it fails
   * exactly when the filter is not iterable; an existing limit is never
   * altered and a missing one gets the page size; the filter keeps its
   * elements in order and gains `created_utc` if absent; nothing else changes.
   */
  lemma AddNecArgsSpec(p: Payload, maxPerRequest: int)
    ensures var r := AddNecArgs(p, maxPerRequest);
      && (r.Err? <==> !Limited(p) && "filter" in p && FilterElements(p["filter"]).Err?)
      && (r.Ok? && "limit" in p ==> "limit" in r.value && r.value["limit"] == p["limit"])
      && (r.Ok? && !Limited(p) ==> "limit" in r.value)
      && (r.Ok? && !Limited(p) && "limit" !in p ==> r.value["limit"] == VInt(maxPerRequest))
      && (r.Ok? && !Limited(p) && "filter" in p ==>
            "filter" in r.value && r.value["filter"] == VList(WithCreatedUtc(FilterElements(p["filter"]).value)))
      && (r.Ok? && !Limited(p) ==> r.value.Keys == p.Keys + {"limit"})
      && (r.Ok? ==> forall k :: k in p && k != "limit" && k != "filter" ==> r.value[k] == p[k])
  {
  }

  /** `_add_nec_args` never alters a key other than `filter` that is already present. */
  lemma AddNecArgsKeepsKey(p: Payload, maxPerRequest: int, k: string)
    requires k in p && k != "filter" && AddNecArgs(p, maxPerRequest).Ok?
    ensures k in AddNecArgs(p, maxPerRequest).value && AddNecArgs(p, maxPerRequest).value[k] == p[k]
  {
    AddNecArgsSpec(p, maxPerRequest);
  }

  /**
   * `_add_nec_args` is re-run before every request on the payload it already
   * normalised: the second run changes nothing. Afterwards a filter, if any,
   * is a list holding `created_utc`.
   */
  lemma AddNecArgsIdempotent(p: Payload, maxPerRequest: int)
    requires AddNecArgs(p, maxPerRequest).Ok?
    ensures AddNecArgs(AddNecArgs(p, maxPerRequest).value, maxPerRequest) == AddNecArgs(p, maxPerRequest)
    ensures !Limited(p) && "filter" in p ==>
      var f := AddNecArgs(p, maxPerRequest).value["filter"];
      f.VList? && VStr(CreatedUtc) in f.items
  {
    var q := AddNecArgs(p, maxPerRequest).value;
    AddNecArgsSpec(p, maxPerRequest);
    if !Limited(p) {
      AddNecArgsSpec(q, maxPerRequest);
      assert Limited(q) <==> Limited(p);
      assert "limit" in q;
      if "filter" in p {
        var ys := q["filter"].items;
        assert VStr(CreatedUtc) in ys;
        assert FilterElements(q["filter"]) == Ok(ys);
        assert WithCreatedUtc(ys) == ys;
      }
      var r := AddNecArgs(q, maxPerRequest).value;
      assert r.Keys == q.Keys;
      assert forall k :: k in q ==> r[k] == q[k];
      assert r == q;
    }
  }

  /** Adding a key other than `filter` or a one-letter limited key keeps normalisation possible. */
  lemma AddNecArgsOkAfterAssign(p: Payload, maxPerRequest: int, k: string, v: Value)
    requires k != "filter" && |k| != 1
    ensures AddNecArgs(p[k := v], maxPerRequest).Ok? == AddNecArgs(p, maxPerRequest).Ok?
  {
    assert Limited(p[k := v]) <==> Limited(p);
    assert "filter" in p[k := v] <==> "filter" in p;
    if "filter" in p {
      assert p[k := v]["filter"] == p["filter"];
    }
  }

  /** A payload whose only key is "aggs" is not limited: only the letters a, g, s are. */
  lemma AggsAloneNotLimited()
    ensures !Limited(map["aggs" := VStr("subreddit")])
    ensures Limited(map["a" := VBool(true)]) && Limited(map["s" := VBool(true)])
  {
  }

  /**
   * The wait before attempt `nth`: the larger of the blocked interval and the
   * backoff `backoff * nth`, capped at `maxSleep`.
   */
  function RateLimitWait(blockedInterval: int, backoff: int, nth: int, maxSleep: int): (w: int)
    ensures w <= maxSleep
    ensures w == maxSleep || (w >= blockedInterval && w >= backoff * nth)
    ensures w <= blockedInterval || w <= backoff * nth
  {
    var interval := if blockedInterval > backoff * nth then blockedInterval else backoff * nth;
    if interval < maxSleep then interval else maxSleep
  }

  /** One step of `_handle_paging`: the payload's `limit` for this page and what is left. */
  function Advance(p: Payload, q: Quota, maxPerRequest: int): (Payload, Quota)
  {
    match q
    case Unbounded => (p, Unbounded)
    case Remaining(n) =>
      if n > maxPerRequest then (p, Remaining(n - maxPerRequest))
      else (p["limit" := VInt(n)], Remaining(0))
  }

  /**
   * From a payload whose `limit` is a full page, the quota step asks for the
   * first size of the page plan and leaves the rest of the plan for later.
   */
  lemma AdvanceFollowsPlan(p: Payload, n: int, m: int)
    requires m >= 1 && "limit" in p && p["limit"] == VInt(m)
    ensures var (p1, q1) := Advance(p, Remaining(n), m);
            && "limit" in p1 && p1["limit"] == VInt(Plan(n, m)[0])
            && q1 == Remaining(if n > m then n - m else 0)
            && (n > m ==> Plan(n - m, m) == Plan(n, m)[1..])
            && p1 == p["limit" := p1["limit"]]
  {
  }

  /** Everything `_search` is given besides the payload: its arguments, the configuration and the server. */
  datatype SearchEnv = SearchEnv(
    kind: string,
    stop: Thing -> bool,
    returnBatch: bool,
    offset: int,
    maxPerRequest: int,
    maxRetries: int,
    respond: (nat, Payload) -> Response)

  /**
   * The inner loop of `_search` over one page: wrap each record in order,
   * stop before the first wrapped item that satisfies `stop`.
   */
  function ScanPage(recs: seq<Record>, kind: string, offset: int, stop: Thing -> bool): (s: Scan)
    decreases |recs|
  {
    if recs == [] then Scan([], Completed)
    else
      match WrapThing(recs[0], kind, offset)
      case Err(e) => Scan([], WrapFailed(e))
      case Ok(t) =>
        if stop(t) then Scan([], Stopped)
        else
          var rest := ScanPage(recs[1..], kind, offset, stop);
          Scan([t] + rest.items, rest.end)
  }

  /**
   * The items kept from a page are its first records, wrapped, in page
   * order, none of them satisfying `stop`; the walk ends at the end of the
   * page, at the first wrapped item that satisfies `stop` (not kept), or at
   * the first record that cannot be wrapped.
   */
  lemma {:induction false} ScanPageSpec(recs: seq<Record>, kind: string, offset: int, stop: Thing -> bool)
    ensures var s := ScanPage(recs, kind, offset, stop);
      && |s.items| <= |recs|
      && (forall i :: 0 <= i < |s.items| ==>
            WrapThing(recs[i], kind, offset) == Ok(s.items[i]) && !stop(s.items[i]))
      && (s.end == Completed ==> |s.items| == |recs|)
      && (s.end == Stopped ==>
            |s.items| < |recs| && WrapThing(recs[|s.items|], kind, offset).Ok? &&
            stop(WrapThing(recs[|s.items|], kind, offset).value))
      && (s.end.WrapFailed? ==>
            |s.items| < |recs| && WrapThing(recs[|s.items|], kind, offset) == Err(s.end.error))
    decreases |recs|
  {
    if recs != [] && WrapThing(recs[0], kind, offset).Ok? && !stop(WrapThing(recs[0], kind, offset).value) {
      ScanPageSpec(recs[1..], kind, offset, stop);
      var rest := ScanPage(recs[1..], kind, offset, stop);
      var s := ScanPage(recs, kind, offset, stop);
      assert s.items == [WrapThing(recs[0], kind, offset).value] + rest.items;
      forall i | 1 <= i < |s.items|
        ensures WrapThing(recs[i], kind, offset) == Ok(s.items[i])
      {
        assert recs[1..][i - 1] == recs[i];
      }
      if s.end != Completed {
        assert recs[1..][|rest.items|] == recs[|s.items|];
      }
    }
  }

  /** One step of ScanPage at position `i` of the page. */
  lemma ScanPageAt(recs: seq<Record>, i: nat, kind: string, offset: int, stop: Thing -> bool)
    requires i < |recs|
    ensures var here := ScanPage(recs[i..], kind, offset, stop);
            var rest := ScanPage(recs[i + 1..], kind, offset, stop);
            match WrapThing(recs[i], kind, offset)
            case Err(e) => here == Scan([], WrapFailed(e))
            case Ok(t) => here == if stop(t) then Scan([], Stopped) else Scan([t] + rest.items, rest.end)
  {
    assert recs[i..][0] == recs[i] && recs[i..][1..] == recs[i + 1..];
  }

  /**
   * Walking two pieces of a page one after the other is walking the page:
   * the second piece is walked only when the first one was walked to its end.
   */
  lemma {:induction false} ScanPageAppend(a: seq<Record>, b: seq<Record>, kind: string, offset: int, stop: Thing -> bool)
    ensures var sa := ScanPage(a, kind, offset, stop);
            var sb := ScanPage(b, kind, offset, stop);
            ScanPage(a + b, kind, offset, stop) == if sa.end == Completed then Scan(sa.items + sb.items, sb.end) else sa
    decreases |a|
  {
    if a == [] {
      assert a + b == b;
    } else {
      assert (a + b)[0] == a[0] && (a + b)[1..] == a[1..] + b;
      ScanPageAppend(a[1..], b, kind, offset, stop);
      var sa := ScanPage(a[1..], kind, offset, stop);
      var sb := ScanPage(b, kind, offset, stop);
      assert forall t: Thing :: [t] + (sa.items + sb.items) == ([t] + sa.items) + sb.items;
    }
  }

  /**
   * One turn of the walk at record `i`, once the records before it were all
   * kept: a record that cannot be wrapped or a stopping item ends the walk of
   * the whole page; any other item is kept.
   */
  lemma ScanPageStep(recs: seq<Record>, i: nat, kind: string, offset: int, stop: Thing -> bool)
    requires i < |recs| && ScanPage(recs[..i], kind, offset, stop).end == Completed
    ensures var kept := ScanPage(recs[..i], kind, offset, stop).items;
            match WrapThing(recs[i], kind, offset)
            case Err(e) => ScanPage(recs, kind, offset, stop) == Scan(kept, WrapFailed(e))
            case Ok(t) =>
              if stop(t) then ScanPage(recs, kind, offset, stop) == Scan(kept, Stopped)
              else ScanPage(recs[..i + 1], kind, offset, stop) == Scan(kept + [t], Completed)
  {
    assert recs[..i] + recs[i..] == recs;
    ScanPageAppend(recs[..i], recs[i..], kind, offset, stop);
    ScanPageAt(recs, i, kind, offset, stop);
    assert recs[..i] + [recs[i]] == recs[..i + 1];
    ScanPageAppend(recs[..i], [recs[i]], kind, offset, stop);
    assert [recs[i]][0] == recs[i] && [recs[i]][1..] == [];
  }

  /** A completely walked non-empty page leaves a last item carrying `created_utc`. */
  lemma CompletedPageHasLast(recs: seq<Record>, kind: string, offset: int, stop: Thing -> bool)
    requires recs != [] && ScanPage(recs, kind, offset, stop).end == Completed
    ensures var s := ScanPage(recs, kind, offset, stop);
      |s.items| == |recs| && CreatedUtc in s.items[|s.items| - 1].record
  {
    ScanPageSpec(recs, kind, offset, stop);
  }

  /**
   * What `_search` yields for one non-empty page: the items one by one, or
   * one batch, which on a stop is the partial batch and after a failed wrap
   * is never yielded.
   */
  function PageOutput(s: Scan, returnBatch: bool): seq<Output>
  {
    if !returnBatch then Items(s.items)
    else if s.end.WrapFailed? then []
    else [Batch(s.items)]
  }

  /**
   * After a full page the cursor `before` is the last item's `created_utc`
   * attribute, the one its record arrived with.
   */
  function NextPayload(p: Payload, s: Scan): Payload
    requires |s.items| > 0 && CreatedUtc in s.items[|s.items| - 1].record
  {
    p["before" := s.items[|s.items| - 1].record[CreatedUtc]]
  }

  /**
   * `_search` from request `j` on, with payload `p` and quota `q` at the top
   * of the paging loop: set the page's limit, normalise, then send and walk
   * the page. At most `fuel` requests are sent.
   */
  function SearchRun(p: Payload, q: Quota, j: nat, fuel: nat, e: SearchEnv): Trace
    decreases fuel, 3
  {
    if fuel == 0 then Trace([], [], OutOfFuel)
    else
      var (p1, q1) := Advance(p, q, e.maxPerRequest);
      match AddNecArgs(p1, e.maxPerRequest)
      case Err(err) => Trace([], [], Failed(err))
      case Ok(p2) => PageRun(p2, q1, j, fuel, e)
  }

  /**
   * The search once the payload `p2` is normalised and handed to `_get` as
   * request `j`. Without a single attempt `_get` raises UnboundLocalError
   * before anything is sent; otherwise an empty page ends the search and
   * any other page is walked.
   */
  function PageRun(p2: Payload, q1: Quota, j: nat, fuel: nat, e: SearchEnv): Trace
    requires fuel > 0
    decreases fuel, 2
  {
    var recs := e.respond(j, p2).data;
    if e.maxRetries <= 0 then Trace([], [], Failed(UnboundLocalError))
    else if recs == [] then Trace([], [p2], Finished)
    else
      var s := ScanPage(recs, e.kind, e.offset, e.stop);
      if s.end == Completed then
        CompletedPageHasLast(recs, e.kind, e.offset, e.stop);
        PageEnd(p2, q1, s, j, fuel, e)
      else PageEnd(p2, q1, s, j, fuel, e)
  }

  /**
   * How a walked page ends the turn: its outputs are yielded; a failed wrap
   * raises, a stop or a spent quota ends the search, and otherwise the
   * cursor `before` moves to the last item and the search goes on.
   */
  function PageEnd(p2: Payload, q1: Quota, s: Scan, j: nat, fuel: nat, e: SearchEnv): Trace
    requires fuel > 0
    requires s.end == Completed ==> |s.items| > 0 && CreatedUtc in s.items[|s.items| - 1].record
    decreases fuel, 1
  {
    var out := PageOutput(s, e.returnBatch);
    match s.end
    case WrapFailed(err) => Trace(out, [p2], Failed(err))
    case Stopped => Trace(out, [p2], Finished)
    case Completed =>
      if q1.Remaining? && q1.n <= 0 then Trace(out, [p2], Finished)
      else Then(out, [p2], SearchRun(NextPayload(p2, s), q1, j + 1, fuel - 1, e))
  }

  /** What the search looks like from turn `j` on once that turn led to `step`. */
  function Follow(step: Step, j: nat, fuel: nat, e: SearchEnv): Trace
    requires fuel > 0
  {
    match step
    case Done(out, requests, status) => Trace(out, requests, status)
    case Next(out, request, p', q') => Then(out, [request], SearchRun(p', q', j + 1, fuel - 1, e))
  }

  /** A turn that goes on adds its output and its request in front of the rest of the search. */
  lemma FollowNext(out: seq<Output>, requests: seq<Payload>, step: Step, j: nat, left: nat, e: SearchEnv)
    requires left > 0 && step.Next?
    ensures Then(out, requests, Follow(step, j, left, e))
         == Then(out + step.out, requests + [step.request], SearchRun(step.payload, step.quota, j + 1, left - 1, e))
  {
    ThenAssociates(out, requests, step.out, [step.request], SearchRun(step.payload, step.quota, j + 1, left - 1, e));
  }

  /** A non-empty page is walked, and the turn ends as the walk decides. */
  lemma PageRunWalks(p2: Payload, q1: Quota, j: nat, fuel: nat, e: SearchEnv)
    requires fuel > 0 && e.maxRetries > 0 && e.respond(j, p2).data != []
    ensures var recs := e.respond(j, p2).data;
            var s := ScanPage(recs, e.kind, e.offset, e.stop);
            (s.end == Completed ==> |s.items| > 0 && CreatedUtc in s.items[|s.items| - 1].record) &&
            PageRun(p2, q1, j, fuel, e) == PageEnd(p2, q1, s, j, fuel, e)
  {
    var recs := e.respond(j, p2).data;
    if ScanPage(recs, e.kind, e.offset, e.stop).end == Completed {
      CompletedPageHasLast(recs, e.kind, e.offset, e.stop);
    }
  }

  /**
   * `_search(kind, stop_condition, return_batch, **kwargs)`: the payload is a
   * copy of kwargs whose `limit` is set to the page size, and the caller's
   * limit becomes the quota.
   */
  function SearchSpec(kwargs: Payload, e: SearchEnv, fuel: nat): Trace
  {
    if fuel == 0 then Trace([], [], OutOfFuel)
    else
      match QuotaOf(kwargs)
      case Err(err) => Trace([], [], Failed(err))
      case Ok(q) => SearchRun(kwargs["limit" := VInt(e.maxPerRequest)], q, 0, fuel, e)
  }

  class PushshiftApiMinimal {
    const maxRetries: int
    const maxSleep: int
    const backoff: int
    const maxResultsPerRequest: int
    const detectLocalTz: bool
    const rlcache: RateLimitCache
    /** `_utc_offset_secs`: the explicit offset, or the memoised detected one. */
    var utcOffset: Option<int>
    /** `self.payload`: the query of the running search (empty before the first). */
    var payload: Payload

    constructor (maxRetries: int, maxSleep: int, backoff: int, rateLimitPerMinute: int,
                 maxResultsPerRequest: int, detectLocalTz: bool, utcOffsetSecs: Option<int>)
      requires maxResultsPerRequest <= 500 && backoff >= 1
      ensures this.maxRetries == maxRetries && this.maxSleep == maxSleep && this.backoff == backoff
      ensures this.maxResultsPerRequest == maxResultsPerRequest && this.detectLocalTz == detectLocalTz
      ensures utcOffset == utcOffsetSecs && payload == map[]
      ensures fresh(rlcache) && rlcache.maxStorage == rateLimitPerMinute
      ensures rlcache.intervalSecs == 60 && rlcache.cache == []
    {
      this.maxRetries := maxRetries;
      this.maxSleep := maxSleep;
      this.backoff := backoff;
      this.maxResultsPerRequest := maxResultsPerRequest;
      this.detectLocalTz := detectLocalTz;
      utcOffset := utcOffsetSecs;
      payload := map[];
      rlcache := new RateLimitCache(rateLimitPerMinute, 60);
    }

    /** The offset `utc_offset_secs` answers with, given what detection would find. */
    function ResolvedOffset(detected: Option<int>): int
      reads this
    {
      if utcOffset.Some? then utcOffset.value
      else if detectLocalTz && detected.Some? then detected.value
      else 0
    }

    /**
     * `utc_offset_secs`: an explicit or memoised offset wins; otherwise the
     * detected local offset (`detected`, None when detection raises
     * ValueError, which gives 0), or 0 when detection is off. Memoised.
     */
    method UtcOffsetSecs(detected: Option<int>) returns (off: int)
      modifies this`utcOffset
      ensures off == old(ResolvedOffset(detected))
      ensures old(utcOffset).Some? ==> off == old(utcOffset).value
      ensures old(utcOffset).None? && !detectLocalTz ==> off == 0
      ensures utcOffset == Some(off)
    {
      if utcOffset.Some? {
        return utcOffset.value;
      }
      if detectLocalTz {
        off := if detected.Some? then detected.value else 0;
      } else {
        off := 0;
      }
      utcOffset := Some(off);
    }

    /**
     * `_impose_rate_limit(nth_request)`: ask the cache whether it is blocked
     * (which evicts), take its interval if so, and return the seconds slept:
     * the capped wait when positive, otherwise none.
     */
    method ImposeRateLimit(nth: int, now: int) returns (slept: int)
      modifies rlcache
      ensures rlcache.cache == Evicted(old(rlcache.cache), now, rlcache.intervalSecs)
      ensures var blockedInterval :=
                if |rlcache.cache| >= rlcache.maxStorage
                then WindowWait(rlcache.cache, now, rlcache.intervalSecs) else 0;
              var w := RateLimitWait(blockedInterval, backoff, nth, maxSleep);
              slept == if w > 0 then w else 0
      ensures slept >= 0 && (slept > 0 ==> slept <= maxSleep)
    {
      var interval := 0;
      var blocked := rlcache.Blocked(now);
      if blocked {
        interval := rlcache.Interval(now);
      }
      interval := RateLimitWait(interval, backoff, nth, maxSleep);
      slept := if interval > 0 then interval else 0;
    }

    /**
     * The rate-limit step of one attempt, as much of it as the retry loop
     * relies on: the cache only shrinks and the sleep is bounded. The exact
     * sleep is ImposeRateLimit's contract; keeping the eviction out of the
     * loop's reasoning is what keeps Get's proof small.
     */
    method Pace(nth: int, now: int) returns (slept: int)
      modifies rlcache
      ensures SuffixOf(rlcache.cache, old(rlcache.cache))
      ensures 0 <= slept && (slept > 0 ==> slept <= maxSleep)
    {
      slept := ImposeRateLimit(nth, now);
    }

    /**
     * `_get(url, payload)`: attempt `a` first calls `_impose_rate_limit(a)`
     * at time `clock(a)`, sleeping `sleeps[a]`, then gets status `status(a)`
     * and body `bodies(a)`. At most `maxRetries` attempts, stopping after the
     * first 200; the last body is returned whatever its status. With no
     * attempt at all the unset `response` raises UnboundLocalError.
     */
    method Get(status: nat -> int, bodies: nat -> Response, clock: nat -> int)
      returns (r: Result<Response>, attempts: nat, sleeps: seq<int>)
      modifies rlcache
      ensures maxRetries <= 0 ==> attempts == 0 && r == Err(UnboundLocalError)
      ensures maxRetries > 0 ==> 1 <= attempts <= maxRetries && r == Ok(bodies(attempts - 1))
      ensures maxRetries > 0 ==> status(attempts - 1) == 200 || attempts == maxRetries
      ensures forall a :: 0 <= a < attempts - 1 ==> status(a) != 200
      ensures |sleeps| == attempts && forall a :: 0 <= a < attempts ==> 0 <= sleeps[a] && (sleeps[a] > 0 ==> sleeps[a] <= maxSleep)
      ensures SuffixOf(rlcache.cache, old(rlcache.cache))
    {
      var i: nat, success := 0, false;
      var response: Option<Response> := None;
      sleeps := [];
      assert old(rlcache.cache)[0..] == old(rlcache.cache);
      while !success && i < maxRetries
        invariant maxRetries > 0 ==> i <= maxRetries
        invariant maxRetries <= 0 ==> i == 0
        invariant i == 0 <==> response.None?
        invariant i == 0 ==> !success
        invariant i > 0 ==> response == Some(bodies(i - 1)) && (success <==> status(i - 1) == 200)
        invariant forall a :: 0 <= a < i - 1 ==> status(a) != 200
        invariant |sleeps| == i && forall a :: 0 <= a < i ==> 0 <= sleeps[a] && (sleeps[a] > 0 ==> sleeps[a] <= maxSleep)
        invariant SuffixOf(rlcache.cache, old(rlcache.cache))
      {
        ghost var before := rlcache.cache;
        var slept := Pace(i, clock(i));
        SuffixOfTransitive(rlcache.cache, before, old(rlcache.cache));
        sleeps := sleeps + [slept];
        response := Some(bodies(i));
        success := status(i) == 200;
        i := i + 1;
      }
      attempts := i;
      if response.None? {
        return Err(UnboundLocalError), 0, sleeps;
      }
      r := Ok(response.value);
    }

    /**
     * `_wrap_thing(thing, kind)` on this client: the record's `created_utc` is
     * read first, so a record without it raises KeyError before the offset is
     * asked for; otherwise the offset is resolved (and memoised) and the
     * record wrapped with it.
     */
    method WrapWithOffset(rec: Record, kind: string, detected: Option<int>) returns (r: Result<Thing>)
      modifies this`utcOffset
      ensures ResolvedOffset(detected) == old(ResolvedOffset(detected))
      ensures r == WrapThing(rec, kind, ResolvedOffset(detected))
      ensures CreatedUtc !in rec ==> utcOffset == old(utcOffset)
      ensures CreatedUtc in rec ==> utcOffset == Some(ResolvedOffset(detected))
    {
      if CreatedUtc !in rec {
        return Err(KeyError(CreatedUtc));
      }
      var off := UtcOffsetSecs(detected);
      r := WrapThing(rec, kind, off);
    }

    /**
     * The `for thing in results` loop of `_search` over one non-empty page:
     * the items kept (the batch, or the items yielded one by one), how the
     * walk ended, and what the page yields: the items, or the batch, which on
     * a stop is the partial batch and after a failed wrap is never yielded.
     */
    method ScanItems(recs: seq<Record>, kind: string, stop: Thing -> bool, returnBatch: bool,
                     detected: Option<int>)
      returns (out: seq<Output>, end: ScanEnd, last: Option<Thing>, ghost seen: seq<Thing>)
      modifies this`utcOffset
      ensures ResolvedOffset(detected) == old(ResolvedOffset(detected))
      ensures ScanPage(recs, kind, ResolvedOffset(detected), stop) == Scan(seen, end)
      ensures out == PageOutput(Scan(seen, end), returnBatch)
      ensures last == if seen == [] then None else Some(seen[|seen| - 1])
    {
      ghost var offset := ResolvedOffset(detected);
      var batch: seq<Thing> := [];
      last, end := None, Completed;
      var i := 0;
      while i < |recs|
        invariant 0 <= i <= |recs|
        invariant ResolvedOffset(detected) == offset
        invariant ScanPage(recs[..i], kind, offset, stop) == Scan(batch, Completed)
        invariant last == if batch == [] then None else Some(batch[|batch| - 1])
        invariant end == Completed
      {
        var wrapped := WrapWithOffset(recs[i], kind, detected);
        ScanPageStep(recs, i, kind, offset, stop);
        if wrapped.Err? {
          end := WrapFailed(wrapped.error);
          break;
        }
        var thing := wrapped.value;
        if stop(thing) {
          end := Stopped;
          break;
        }
        last := Some(thing);
        batch := batch + [thing];
        i := i + 1;
      }
      if end == Completed {
        assert recs[..i] == recs;
      }
      seen := batch;
      if !returnBatch {
        out := Items(batch);
      } else if end.WrapFailed? {
        out := [];
      } else {
        out := [Batch(batch)];
      }
    }

    /**
     * The top of one turn of `_handle_paging` on `self.payload`: the quota
     * step, which may set this page's `limit`, then `_add_nec_args`.
     */
    method Prepare(quota: Quota) returns (normalised: Result<Payload>, next: Quota)
      modifies this`payload
      ensures var (p1, q1) := Advance(old(payload), quota, maxResultsPerRequest);
              next == q1 && normalised == AddNecArgs(p1, maxResultsPerRequest) &&
              (normalised.Ok? ==> payload == normalised.value)
    {
      next := quota;
      if quota.Remaining? {
        if quota.n > maxResultsPerRequest {
          next := Remaining(quota.n - maxResultsPerRequest);
        } else {
          payload := payload["limit" := VInt(quota.n)];
          next := Remaining(0);
        }
      }
      normalised := AddNecArgs(payload, maxResultsPerRequest);
      if normalised.Ok? {
        payload := normalised.value;
      }
    }

    /**
     * The end of one turn, after the page sent as `request` was walked: on a
     * full page set the cursor `before` in `self.payload` and go on unless
     * the quota is spent.
     */
    method Conclude(request: Payload, next: Quota, j: nat, out: seq<Output>, end: ScanEnd, last: Option<Thing>,
                    ghost seen: seq<Thing>, ghost fuel: nat, ghost e: SearchEnv)
      returns (step: Step)
      requires fuel > 0 && out == PageOutput(Scan(seen, end), e.returnBatch)
      requires last == if seen == [] then None else Some(seen[|seen| - 1])
      requires end == Completed ==> seen != [] && CreatedUtc in seen[|seen| - 1].record
      modifies this`payload
      ensures PageEnd(request, next, Scan(seen, end), j, fuel, e) == Follow(step, j, fuel, e)
      ensures step.Next? ==> payload == step.payload && step.quota == next
    {
      if end.WrapFailed? {
        return Done(out, [request], Failed(end.error));
      }
      if end == Stopped {
        return Done(out, [request], Finished);
      }
      payload := request["before" := last.value.record[CreatedUtc]];
      if next.Remaining? && next.n <= 0 {
        return Done(out, [request], Finished);
      }
      step := Next(out, request, payload, next);
    }

    /**
     * The rest of one turn: send `self.payload` as request `j`, walk the page,
     * then conclude the turn.
     */
    method HandlePage(next: Quota, j: nat, kind: string, stop: Thing -> bool, returnBatch: bool,
                      respond: (nat, Payload) -> Response, detected: Option<int>, ghost fuel: nat)
      returns (step: Step)
      requires fuel > 0
      modifies this`payload, this`utcOffset
      ensures ResolvedOffset(detected) == old(ResolvedOffset(detected))
      ensures PageRun(old(payload), next, j, fuel,
                      SearchEnv(kind, stop, returnBatch, old(ResolvedOffset(detected)),
                                maxResultsPerRequest, maxRetries, respond))
              == Follow(step, j, fuel,
                        SearchEnv(kind, stop, returnBatch, old(ResolvedOffset(detected)),
                                  maxResultsPerRequest, maxRetries, respond))
      ensures step.Next? ==> payload == step.payload && step.quota == next
    {
      ghost var e := SearchEnv(kind, stop, returnBatch, ResolvedOffset(detected), maxResultsPerRequest, maxRetries, respond);
      if maxRetries <= 0 {
        return Done([], [], Failed(UnboundLocalError));
      }
      var request := payload;
      var recs := respond(j, request).data;
      if recs == [] {
        return Done([], [request], Finished);
      }
      PageRunWalks(request, next, j, fuel, e);
      var out, end, last, seen := ScanItems(recs, kind, stop, returnBatch, detected);
      step := Conclude(request, next, j, out, end, last, seen, fuel, e);
    }

    /**
     * One turn of the `while True` loop of `_search`: shrink the quota,
     * normalise `self.payload`, then send and walk one page. A failed
     * normalisation ends the search before anything is sent.
     */
    method Turn(quota: Quota, j: nat, kind: string, stop: Thing -> bool, returnBatch: bool,
                respond: (nat, Payload) -> Response, detected: Option<int>, ghost fuel: nat)
      returns (step: Step)
      requires fuel > 0
      modifies this`payload, this`utcOffset
      ensures ResolvedOffset(detected) == old(ResolvedOffset(detected))
      ensures SearchRun(old(payload), quota, j, fuel,
                        SearchEnv(kind, stop, returnBatch, old(ResolvedOffset(detected)),
                                  maxResultsPerRequest, maxRetries, respond))
              == Follow(step, j, fuel,
                        SearchEnv(kind, stop, returnBatch, old(ResolvedOffset(detected)),
                                  maxResultsPerRequest, maxRetries, respond))
      ensures step.Next? ==> payload == step.payload
    {
      var normalised, next := Prepare(quota);
      if normalised.Err? {
        return Done([], [], Failed(normalised.error));
      }
      step := HandlePage(next, j, kind, stop, returnBatch, respond, detected, fuel);
    }

    /**
     * `_search`: the whole generator, run until it ends by itself, raises,
     * or has sent `fuel` requests. `kwargs` is copied, never changed.
     */
    method Search(kind: string, stop: Thing -> bool, returnBatch: bool, kwargs: Payload,
                  respond: (nat, Payload) -> Response, detected: Option<int>, fuel: nat)
      returns (t: Trace)
      modifies this`payload, this`utcOffset
      ensures t == SearchSpec(kwargs, SearchEnv(kind, stop, returnBatch, old(ResolvedOffset(detected)),
                                                maxResultsPerRequest, maxRetries, respond), fuel)
    {
      ghost var e := SearchEnv(kind, stop, returnBatch, ResolvedOffset(detected), maxResultsPerRequest, maxRetries, respond);
      payload := kwargs;
      if fuel == 0 {
        return Trace([], [], OutOfFuel);
      }
      var limit := QuotaOf(payload);
      payload := payload["limit" := VInt(maxResultsPerRequest)];
      if limit.Err? {
        return Trace([], [], Failed(limit.error));
      }
      var quota := limit.value;
      var out: seq<Output> := [];
      var requests: seq<Payload> := [];
      var j: nat, left: nat := 0, fuel;
      ghost var spec := SearchSpec(kwargs, e, fuel);
      assert spec == SearchRun(payload, quota, 0, fuel, e);
      ThenAssociates([], [], [], [], spec);
      while left > 0
        invariant ResolvedOffset(detected) == e.offset
        invariant spec == Then(out, requests, SearchRun(payload, quota, j, left, e))
      {
        var step := Turn(quota, j, kind, stop, returnBatch, respond, detected, left);
        if step.Done? {
          return Trace(out + step.out, requests + step.requests, step.status);
        }
        FollowNext(out, requests, step, j, left, e);
        out, requests, quota := out + step.out, requests + [step.request], step.quota;
        j, left := j + 1, left - 1;
      }
      t := Trace(out, requests, OutOfFuel);
    }
  }

  /** The records before position `|seen|` wrap to `seen`, and none of them satisfies `stop`. */
  ghost predicate KeptBefore(recs: seq<Record>, kind: string, offset: int, stop: Thing -> bool, seen: seq<Thing>)
  {
    |seen| <= |recs| &&
    forall i :: 0 <= i < |seen| ==> WrapThing(recs[i], kind, offset) == Ok(seen[i]) && !stop(seen[i])
  }

  /** Records that wrap to items that do not stop the walk are all kept, in order. */
  lemma {:induction false} ScanPageOfKept(recs: seq<Record>, kind: string, offset: int, stop: Thing -> bool,
                                          seen: seq<Thing>)
    requires KeptBefore(recs, kind, offset, stop, seen)
    ensures ScanPage(recs[..|seen|], kind, offset, stop) == Scan(seen, Completed)
    decreases |seen|
  {
    if seen == [] {
      assert recs[..0] == [];
    } else {
      var k := |seen| - 1;
      assert KeptBefore(recs, kind, offset, stop, seen[..k]);
      ScanPageOfKept(recs, kind, offset, stop, seen[..k]);
      ScanPageStep(recs, k, kind, offset, stop);
      assert seen[..k] + [seen[k]] == seen;
    }
  }

  /**
   * A page is cut short where the walk meets an item satisfying `stop` or a
   * record that cannot be wrapped: the search ends with that page's request
   * as its last one. In item mode it has yielded the items before the cut;
   * in batch mode the partial batch on a stop, and nothing on a failed
   * wrap, which raises. An empty page ends the search, yielding nothing.
   * Without a single attempt nothing is sent and the search raises.
   */
  lemma PageCutShort(p2: Payload, q1: Quota, j: nat, fuel: nat, e: SearchEnv, seen: seq<Thing>)
    requires fuel > 0
    requires KeptBefore(e.respond(j, p2).data, e.kind, e.offset, e.stop, seen)
    ensures e.maxRetries <= 0 ==> PageRun(p2, q1, j, fuel, e) == Trace([], [], Failed(UnboundLocalError))
    ensures e.maxRetries > 0 && e.respond(j, p2).data == [] ==> PageRun(p2, q1, j, fuel, e) == Trace([], [p2], Finished)
    ensures var recs := e.respond(j, p2).data;
            e.maxRetries > 0 && |seen| < |recs| && WrapThing(recs[|seen|], e.kind, e.offset).Ok? &&
            e.stop(WrapThing(recs[|seen|], e.kind, e.offset).value) ==>
              PageRun(p2, q1, j, fuel, e) ==
                Trace(if e.returnBatch then [Batch(seen)] else Items(seen), [p2], Finished)
    ensures var recs := e.respond(j, p2).data;
            e.maxRetries > 0 && |seen| < |recs| && WrapThing(recs[|seen|], e.kind, e.offset).Err? ==>
              PageRun(p2, q1, j, fuel, e) ==
                Trace(if e.returnBatch then [] else Items(seen), [p2],
                      Failed(WrapThing(recs[|seen|], e.kind, e.offset).error))
  {
    var recs := e.respond(j, p2).data;
    if |seen| < |recs| {
      ScanPageOfKept(recs, e.kind, e.offset, e.stop, seen);
      ScanPageStep(recs, |seen|, e.kind, e.offset, e.stop);
    }
  }

  /** The server answered with a non-empty page that is walked to its end. */
  ghost predicate FullPage(recs: seq<Record>, e: SearchEnv)
  {
    recs != [] && ScanPage(recs, e.kind, e.offset, e.stop).end == Completed
  }

  /** Whether the page sent as request `j` lets the search go on: it was fetched, it is full and quota remains. */
  ghost predicate Continues(p2: Payload, q1: Quota, j: nat, e: SearchEnv)
  {
    e.maxRetries > 0 && FullPage(e.respond(j, p2).data, e) && !(q1.Remaining? && q1.n <= 0)
  }

  /**
   * The payload after a full page: `before` is set to the `created_utc` of
   * the page's last record, and nothing else changes.
   */
  ghost function Cursor(p2: Payload, j: nat, e: SearchEnv): (next: Payload)
    requires FullPage(e.respond(j, p2).data, e)
    ensures var recs := e.respond(j, p2).data;
            CreatedUtc in recs[|recs| - 1] && next == p2["before" := recs[|recs| - 1][CreatedUtc]]
  {
    var recs := e.respond(j, p2).data;
    var s := ScanPage(recs, e.kind, e.offset, e.stop);
    CompletedPageHasLast(recs, e.kind, e.offset, e.stop);
    ScanPageSpec(recs, e.kind, e.offset, e.stop);
    assert WrapThing(recs[|recs| - 1], e.kind, e.offset) == Ok(s.items[|s.items| - 1]);
    NextPayload(p2, s)
  }

  /** One turn of the search: the quota step and normalisation, then the page. */
  lemma SearchRunTurn(p: Payload, q: Quota, j: nat, fuel: nat, e: SearchEnv)
    requires fuel > 0
    ensures var (p1, q1) := Advance(p, q, e.maxPerRequest);
            SearchRun(p, q, j, fuel, e) ==
              match AddNecArgs(p1, e.maxPerRequest)
              case Err(err) => Trace([], [], Failed(err))
              case Ok(p2) => PageRun(p2, q1, j, fuel, e)
  {
  }

  /** A page that lets the search go on yields its outputs, then the search resumes from the cursor. */
  lemma PageRunNext(p2: Payload, q1: Quota, j: nat, fuel: nat, e: SearchEnv)
    requires fuel > 0 && Continues(p2, q1, j, e)
    ensures var s := ScanPage(e.respond(j, p2).data, e.kind, e.offset, e.stop);
            PageRun(p2, q1, j, fuel, e) ==
              Then(PageOutput(s, e.returnBatch), [p2], SearchRun(Cursor(p2, j, e), q1, j + 1, fuel - 1, e))
  {
    var recs := e.respond(j, p2).data;
    CompletedPageHasLast(recs, e.kind, e.offset, e.stop);
  }

  /**
   * Any other page ends the search after its own request, by itself or by
   * raising; a full page that spends the quota ends it by itself. Without a
   * single attempt nothing is sent and the search raises.
   */
  lemma PageRunLast(p2: Payload, q1: Quota, j: nat, fuel: nat, e: SearchEnv)
    requires fuel > 0 && !Continues(p2, q1, j, e)
    ensures e.maxRetries <= 0 ==> PageRun(p2, q1, j, fuel, e) == Trace([], [], Failed(UnboundLocalError))
    ensures e.maxRetries > 0 ==> PageRun(p2, q1, j, fuel, e).requests == [p2]
    ensures PageRun(p2, q1, j, fuel, e).status != OutOfFuel
    ensures e.maxRetries > 0 && FullPage(e.respond(j, p2).data, e) ==> PageRun(p2, q1, j, fuel, e).status == Finished
  {
    var recs := e.respond(j, p2).data;
    if e.maxRetries > 0 && FullPage(recs, e) {
      CompletedPageHasLast(recs, e.kind, e.offset, e.stop);
    }
  }

  /** The requests one turn sends and how the search goes on after it. */
  lemma SearchRunRequests(p: Payload, q: Quota, j: nat, fuel: nat, e: SearchEnv)
    requires fuel > 0
    ensures var (p1, q1) := Advance(p, q, e.maxPerRequest);
            var r := AddNecArgs(p1, e.maxPerRequest);
            var t := SearchRun(p, q, j, fuel, e);
            && (r.Err? ==> t.requests == [] && t.status == Failed(r.error))
            && (r.Ok? && e.maxRetries <= 0 ==> t == Trace([], [], Failed(UnboundLocalError)))
            && (r.Ok? && e.maxRetries > 0 && !Continues(r.value, q1, j, e) ==>
                  t.requests == [r.value] && t.status != OutOfFuel)
            && (r.Ok? && e.maxRetries > 0 && !Continues(r.value, q1, j, e) && FullPage(e.respond(j, r.value).data, e) ==>
                  t.status == Finished)
            && (r.Ok? && Continues(r.value, q1, j, e) ==>
                  var rest := SearchRun(Cursor(r.value, j, e), q1, j + 1, fuel - 1, e);
                  t.requests == [r.value] + rest.requests && t.status == rest.status)
  {
    SearchRunTurn(p, q, j, fuel, e);
    var (p1, q1) := Advance(p, q, e.maxPerRequest);
    var r := AddNecArgs(p1, e.maxPerRequest);
    if r.Ok? {
      if Continues(r.value, q1, j, e) {
        PageRunNext(r.value, q1, j, fuel, e);
      } else {
        PageRunLast(r.value, q1, j, fuel, e);
      }
    }
  }

  /** After a full page the next payload differs only in `before`, so it still normalises unchanged. */
  lemma CursorNormalised(p2: Payload, j: nat, e: SearchEnv)
    requires FullPage(e.respond(j, p2).data, e)
    requires AddNecArgs(p2, e.maxPerRequest) == Ok(p2)
    ensures AddNecArgs(Cursor(p2, j, e), e.maxPerRequest) == Ok(Cursor(p2, j, e))
    ensures "limit" in p2 ==> "limit" in Cursor(p2, j, e) && Cursor(p2, j, e)["limit"] == p2["limit"]
  {
    var m := e.maxPerRequest;
    var p' := Cursor(p2, j, e);
    var recs := e.respond(j, p2).data;
    AddNecArgsOkAfterAssign(p2, m, "before", recs[|recs| - 1][CreatedUtc]);
    AddNecArgsSpec(p2, m);
    AddNecArgsSpec(p', m);
    if !Limited(p') {
      assert Limited(p') == Limited(p2);
      var r := AddNecArgs(p', m).value;
      assert "filter" in p2 ==> FilterElements(p2["filter"]).value == p2["filter"].items;
      assert r.Keys == p'.Keys;
      assert forall k :: k in p' ==> r[k] == p'[k];
      assert r == p';
    }
  }

  /**
   * With a limit of `n`, the `limit` of the requests sent follows the page
   * plan: full pages of `max_results_per_request`, then the remainder, and
   * never more requests than the plan has.
   */
  lemma {:induction false} LimitsFollowPlan(p: Payload, n: int, j: nat, fuel: nat, e: SearchEnv)
    requires e.maxPerRequest >= 1
    requires "limit" in p && p["limit"] == VInt(e.maxPerRequest)
    ensures LimitsFollow(SearchRun(p, Remaining(n), j, fuel, e).requests, Plan(n, e.maxPerRequest))
    decreases fuel
  {
    var m := e.maxPerRequest;
    if fuel > 0 {
      SearchRunRequests(p, Remaining(n), j, fuel, e);
      var (p1, q1) := Advance(p, Remaining(n), m);
      var r := AddNecArgs(p1, m);
      if r.Ok? {
        var p2 := r.value;
        AdvanceFollowsPlan(p, n, m);
        AddNecArgsKeepsKey(p1, m, "limit");
        if Continues(p2, q1, j, e) {
          var p' := Cursor(p2, j, e);
          LimitsFollowPlan(p', n - m, j + 1, fuel - 1, e);
          LimitsFollowCons(p2, SearchRun(p', q1, j + 1, fuel - 1, e).requests, Plan(n, m));
        } else {
          LimitsFollowCons(p2, [], Plan(n, m));
        }
      }
    }
  }

  /**
   * When every page is full and the fuel allows it, a search with a limit of
   * `n` sends exactly one request per entry of the plan and ends by itself.
   */
  lemma {:induction false} FullPagesRunWholePlan(p: Payload, n: int, j: nat, fuel: nat, e: SearchEnv)
    requires e.maxPerRequest >= 1 && e.maxRetries >= 1
    requires "limit" in p && p["limit"] == VInt(e.maxPerRequest) && AddNecArgs(p, e.maxPerRequest).Ok?
    requires forall k: nat, q: Payload :: FullPage(e.respond(k, q).data, e)
    requires fuel >= |Plan(n, e.maxPerRequest)|
    ensures var t := SearchRun(p, Remaining(n), j, fuel, e);
            t.status == Finished && |t.requests| == |Plan(n, e.maxPerRequest)|
    decreases fuel
  {
    var m := e.maxPerRequest;
    PlanShape(n, m);
    SearchRunRequests(p, Remaining(n), j, fuel, e);
    var (p1, q1) := Advance(p, Remaining(n), m);
    AddNecArgsOkAfterAssign(p, m, "limit", VInt(n));
    var p2 := AddNecArgs(p1, m).value;
    assert FullPage(e.respond(j, p2).data, e);
    if n > m {
      AddNecArgsKeepsKey(p1, m, "limit");
      AddNecArgsIdempotent(p1, m);
      CursorNormalised(p2, j, e);
      assert Plan(n, m) == [m] + Plan(n - m, m);
      FullPagesRunWholePlan(Cursor(p2, j, e), n - m, j + 1, fuel - 1, e);
    }
  }

  /**
   * Without a limit, as long as every page is full the search never ends by
   * itself: it sends one request per unit of fuel, each with the same `limit`.
   */
  lemma {:induction false} UnboundedNeverEnds(p: Payload, j: nat, fuel: nat, e: SearchEnv)
    requires e.maxRetries >= 1 && "limit" in p && AddNecArgs(p, e.maxPerRequest).Ok?
    requires forall k: nat, q: Payload :: FullPage(e.respond(k, q).data, e)
    ensures var t := SearchRun(p, Unbounded, j, fuel, e);
            t.status == OutOfFuel && |t.requests| == fuel &&
            forall k :: 0 <= k < fuel ==> "limit" in t.requests[k] && t.requests[k]["limit"] == p["limit"]
    decreases fuel
  {
    if fuel > 0 {
      SearchRunRequests(p, Unbounded, j, fuel, e);
      var p2 := AddNecArgs(p, e.maxPerRequest).value;
      AddNecArgsKeepsKey(p, e.maxPerRequest, "limit");
      AddNecArgsIdempotent(p, e.maxPerRequest);
      assert FullPage(e.respond(j, p2).data, e);
      var p' := Cursor(p2, j, e);
      CursorNormalised(p2, j, e);
      UnboundedNeverEnds(p', j + 1, fuel - 1, e);
      var rest := SearchRun(p', Unbounded, j + 1, fuel - 1, e).requests;
      var t := SearchRun(p, Unbounded, j, fuel, e).requests;
      assert forall k :: 1 <= k < fuel ==> t[k] == rest[k - 1];
    }
  }

  /**
   * `_search` with a `limit` of `n`: the requests ask for the page plan of
   * `n` in order, and when every page is full and the fuel allows, exactly
   * the whole plan is sent and the generator ends by itself.
   */
  lemma SearchFollowsPlan(kwargs: Payload, n: int, e: SearchEnv, fuel: nat)
    requires e.maxPerRequest >= 1 && QuotaOf(kwargs) == Ok(Remaining(n))
    ensures LimitsFollow(SearchSpec(kwargs, e, fuel).requests, Plan(n, e.maxPerRequest))
    ensures e.maxRetries >= 1 && AddNecArgs(kwargs["limit" := VInt(e.maxPerRequest)], e.maxPerRequest).Ok? &&
            (forall k: nat, q: Payload :: FullPage(e.respond(k, q).data, e)) &&
            fuel >= |Plan(n, e.maxPerRequest)| ==>
              SearchSpec(kwargs, e, fuel).status == Finished &&
              |SearchSpec(kwargs, e, fuel).requests| == |Plan(n, e.maxPerRequest)|
  {
    var p := kwargs["limit" := VInt(e.maxPerRequest)];
    PlanShape(n, e.maxPerRequest);
    LimitsFollowPlan(p, n, 0, fuel, e);
    if e.maxRetries >= 1 && AddNecArgs(p, e.maxPerRequest).Ok? &&
       (forall k: nat, q: Payload :: FullPage(e.respond(k, q).data, e)) &&
       fuel >= |Plan(n, e.maxPerRequest)| {
      FullPagesRunWholePlan(p, n, 0, fuel, e);
    }
  }

  /**
   * `_search` without a limit, while every page is full, runs until the fuel
   * is spent, every request asking for `max_results_per_request` records.
   */
  lemma SearchWithoutLimitNeverEnds(kwargs: Payload, e: SearchEnv, fuel: nat)
    requires QuotaOf(kwargs) == Ok(Unbounded) && e.maxRetries >= 1
    requires AddNecArgs(kwargs["limit" := VInt(e.maxPerRequest)], e.maxPerRequest).Ok?
    requires forall k: nat, q: Payload :: FullPage(e.respond(k, q).data, e)
    ensures var t := SearchSpec(kwargs, e, fuel);
            t.status == OutOfFuel && |t.requests| == fuel &&
            forall k :: 0 <= k < fuel ==> "limit" in t.requests[k] && t.requests[k]["limit"] == VInt(e.maxPerRequest)
  {
    UnboundedNeverEnds(kwargs["limit" := VInt(e.maxPerRequest)], 0, fuel, e);
  }

  /**
   * A `limit` that is neither None nor an integer makes `_search` raise
   * TypeError at its first comparison, before anything is sent.
   */
  lemma SearchRejectsBadLimit(kwargs: Payload, e: SearchEnv, fuel: nat)
    requires fuel > 0 && QuotaOf(kwargs).Err?
    ensures "limit" in kwargs && !kwargs["limit"].VInt? && kwargs["limit"] != VNone
    ensures SearchSpec(kwargs, e, fuel) == Trace([], [], Failed(TypeError))
  {
  }

  /**
   * With `max_retries <= 0`, `_get` never sends and raises UnboundLocalError,
   * so `_search` yields nothing and sends nothing; only a TypeError met
   * earlier, in the limit or the filter, raises first.
   */
  lemma SearchWithoutRetries(kwargs: Payload, e: SearchEnv, fuel: nat)
    requires fuel > 0 && e.maxRetries <= 0
    ensures var t := SearchSpec(kwargs, e, fuel);
            t.out == [] && t.requests == [] && (t.status == Failed(UnboundLocalError) || t.status == Failed(TypeError))
    ensures var m := e.maxPerRequest;
            QuotaOf(kwargs).Ok? &&
            AddNecArgs(Advance(kwargs["limit" := VInt(m)], QuotaOf(kwargs).value, m).0, m).Ok? ==>
              SearchSpec(kwargs, e, fuel).status == Failed(UnboundLocalError)
  {
    if QuotaOf(kwargs).Ok? {
      SearchRunRequests(kwargs["limit" := VInt(e.maxPerRequest)], QuotaOf(kwargs).value, 0, fuel, e);
    }
  }

  /**
   * With a page size `max_results_per_request <= 0` (which the constructor
   * lets through), a limit above the page size is never used up: each turn
   * leaves the page's `limit` alone and the quota does not shrink, so while
   * every page is full the search runs until the fuel is spent.
   */
  lemma {:induction false} NonPositivePageNeverEnds(p: Payload, n: int, j: nat, fuel: nat, e: SearchEnv)
    requires e.maxPerRequest <= 0 && n > e.maxPerRequest && e.maxRetries >= 1
    requires "limit" in p && AddNecArgs(p, e.maxPerRequest).Ok?
    requires forall k: nat, q: Payload :: FullPage(e.respond(k, q).data, e)
    ensures var t := SearchRun(p, Remaining(n), j, fuel, e);
            t.status == OutOfFuel && |t.requests| == fuel &&
            forall k :: 0 <= k < fuel ==> "limit" in t.requests[k] && t.requests[k]["limit"] == p["limit"]
    decreases fuel
  {
    if fuel > 0 {
      var m := e.maxPerRequest;
      SearchRunRequests(p, Remaining(n), j, fuel, e);
      assert Advance(p, Remaining(n), m) == (p, Remaining(n - m));
      var p2 := AddNecArgs(p, m).value;
      AddNecArgsKeepsKey(p, m, "limit");
      AddNecArgsIdempotent(p, m);
      assert FullPage(e.respond(j, p2).data, e);
      var p' := Cursor(p2, j, e);
      CursorNormalised(p2, j, e);
      NonPositivePageNeverEnds(p', n - m, j + 1, fuel - 1, e);
      var rest := SearchRun(p', Remaining(n - m), j + 1, fuel - 1, e).requests;
      var t := SearchRun(p, Remaining(n), j, fuel, e).requests;
      assert forall k :: 1 <= k < fuel ==> t[k] == rest[k - 1];
    }
  }

  /**
   * `_search` with a positive `limit` and a page size of zero or less never
   * ends by itself while every page is full: every request asks for the
   * page size and the fuel runs out.
   */
  lemma SearchWithNonPositivePageNeverEnds(kwargs: Payload, n: int, e: SearchEnv, fuel: nat)
    requires QuotaOf(kwargs) == Ok(Remaining(n)) && n >= 1
    requires e.maxPerRequest <= 0 && e.maxRetries >= 1
    requires AddNecArgs(kwargs["limit" := VInt(e.maxPerRequest)], e.maxPerRequest).Ok?
    requires forall k: nat, q: Payload :: FullPage(e.respond(k, q).data, e)
    ensures var t := SearchSpec(kwargs, e, fuel);
            t.status == OutOfFuel && |t.requests| == fuel &&
            forall k :: 0 <= k < fuel ==> "limit" in t.requests[k] && t.requests[k]["limit"] == VInt(e.maxPerRequest)
  {
    NonPositivePageNeverEnds(kwargs["limit" := VInt(e.maxPerRequest)], n, 0, fuel, e);
  }

  /** A `before` already in the payload reaches the first request unchanged. */
  lemma FirstRequestKeepsBefore(p: Payload, q: Quota, j: nat, fuel: nat, e: SearchEnv)
    requires "before" in p
    ensures var t := SearchRun(p, q, j, fuel, e);
            |t.requests| > 0 ==> "before" in t.requests[0] && t.requests[0]["before"] == p["before"]
  {
    if fuel > 0 {
      SearchRunRequests(p, q, j, fuel, e);
      var (p1, q1) := Advance(p, q, e.maxPerRequest);
      if AddNecArgs(p1, e.maxPerRequest).Ok? {
        AddNecArgsKeepsKey(p1, e.maxPerRequest, "before");
      }
    }
  }

  /**
   * The cursor: every request after the first carries as `before` the
   * `created_utc` of the last record of the page the previous request got.
   */
  lemma {:induction false} CursorFollowsLastItem(p: Payload, q: Quota, j: nat, fuel: nat, e: SearchEnv)
    ensures CursorChain(SearchRun(p, q, j, fuel, e).requests, j, e.respond)
    decreases fuel
  {
    if fuel > 0 {
      SearchRunRequests(p, q, j, fuel, e);
      var (p1, q1) := Advance(p, q, e.maxPerRequest);
      var r := AddNecArgs(p1, e.maxPerRequest);
      if r.Ok? && Continues(r.value, q1, j, e) {
        var p' := Cursor(r.value, j, e);
        CursorFollowsLastItem(p', q1, j + 1, fuel - 1, e);
        FirstRequestKeepsBefore(p', q1, j + 1, fuel - 1, e);
        CursorChainCons(r.value, SearchRun(p', q1, j + 1, fuel - 1, e).requests, j, e.respond);
      }
    }
  }
}
