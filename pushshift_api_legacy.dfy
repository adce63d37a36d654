/**
 * The older search client of `psaw/PushshiftAPI.py`, the one the package
 * exports. It differs from the current client in four observable ways: its
 * `_add_nec_args` turns any non-list filter into a list with `list()` and
 * appends `created_utc` on every call; its rate limit spaces requests by a
 * fixed interval measured from the previous request; `_get` unwraps `data`
 * (or returns the whole body for a limited payload); and `_query` tests the
 * stop condition on the raw record, before it is wrapped.
 *
 * As for the current client, the server is the function `respond`, a
 * generator is a method returning its Trace, and `fuel` bounds the number of
 * requests.
 */
module LegacyApi {
  import opened Values
  import opened Things
  import opened Paging

  /** The filter's elements as `list()` gives them; a list is kept as it is. */
  function FilterList(f: Value): (r: Result<seq<Value>>)
    ensures f.VList? || f.VTuple? ==> r == Ok(f.items)
    ensures f.VStr? ==> r == Ok(Chars(f.s))
    ensures r.Err? <==> !(f.VList? || f.VStr? || f.VTuple?)
    ensures r.Err? ==> r.error == TypeError
  {
    if f.VList? then Ok(f.items) else PyList(f)
  }

  /** `payload.get('created_utc', None) is None`: no `created_utc` query parameter is set. */
  predicate NoCreatedUtcParam(p: Payload)
  {
    CreatedUtc !in p || p[CreatedUtc] == VNone
  }

  /**
   * `_add_nec_args` of the older client: a limited payload is left alone;
   * otherwise a missing `limit` defaults to the page size, and when there is
   * a filter but no `created_utc` parameter the filter becomes a list and
   * `created_utc` is appended to it, whether or not it is already there.
   */
  function AddNecArgsLegacy(p: Payload, maxPerRequest: int): (r: Result<Payload>)
    ensures Limited(p) ==> r == Ok(p)
    ensures r.Err? ==> r.error == TypeError
  {
    if Limited(p) then Ok(p)
    else
      var withLimit := if "limit" in p then p else p["limit" := VInt(maxPerRequest)];
      if "filter" in withLimit && NoCreatedUtcParam(withLimit) then
        match FilterList(withLimit["filter"])
        case Err(e) => Err(e)
        case Ok(xs) => Ok(withLimit["filter" := VList(xs + [VStr(CreatedUtc)])])
      else Ok(withLimit)
  }

  /**
   * What the older `_add_nec_args` does to a payload that is not limited: it
   * fails exactly when it has to list a filter that is not iterable; an
   * existing limit is kept and a missing one gets the page size; a string
   * filter is split into its characters; nothing else changes.
   */
  lemma AddNecArgsLegacySpec(p: Payload, maxPerRequest: int)
    ensures var r := AddNecArgsLegacy(p, maxPerRequest);
      && (r.Err? <==> !Limited(p) && "filter" in p && NoCreatedUtcParam(p) && FilterList(p["filter"]).Err?)
      && (r.Ok? && "limit" in p ==> "limit" in r.value && r.value["limit"] == p["limit"])
      && (r.Ok? && !Limited(p) && "limit" !in p ==> "limit" in r.value && r.value["limit"] == VInt(maxPerRequest))
      && (r.Ok? && !Limited(p) && "filter" in p && NoCreatedUtcParam(p) ==>
            "filter" in r.value && r.value["filter"] == VList(FilterList(p["filter"]).value + [VStr(CreatedUtc)]))
      && (r.Ok? && !Limited(p) && "filter" in p && p["filter"].VStr? && NoCreatedUtcParam(p) ==>
            r.value["filter"] == VList(Chars(p["filter"].s) + [VStr(CreatedUtc)]))
      && (r.Ok? && !Limited(p) ==> r.value.Keys == p.Keys + {"limit"})
      && (r.Ok? ==> forall k :: k in p && k != "limit" && k != "filter" ==> r.value[k] == p[k])
      && (r.Ok? && !NoCreatedUtcParam(p) ==> forall k :: k in p && k != "limit" ==> r.value[k] == p[k])
  {
  }

  /**
   * Not idempotent: run again on the payload it produced, it appends a second
   * `created_utc` to the filter, which is why every request of a query asks
   * for one more copy of it.
   */
  lemma AddNecArgsLegacyAppendsAgain(p: Payload, maxPerRequest: int)
    requires !Limited(p) && "filter" in p && NoCreatedUtcParam(p) && AddNecArgsLegacy(p, maxPerRequest).Ok?
    ensures var once := AddNecArgsLegacy(p, maxPerRequest).value;
            var twice := AddNecArgsLegacy(once, maxPerRequest);
            twice.Ok? && twice.value["filter"] == VList(once["filter"].items + [VStr(CreatedUtc)]) &&
            twice != AddNecArgsLegacy(p, maxPerRequest)
  {
    var once := AddNecArgsLegacy(p, maxPerRequest).value;
    AddNecArgsLegacySpec(p, maxPerRequest);
    assert Limited(once) <==> Limited(p);
    assert NoCreatedUtcParam(once);
    AddNecArgsLegacySpec(once, maxPerRequest);
    var twice := AddNecArgsLegacy(once, maxPerRequest);
    assert |twice.value["filter"].items| == |once["filter"].items| + 1;
  }

  /** The interval `_rate_limit(nth)` keeps: the larger of `rate_limit` and the backoff, capped at `max_sleep`. */
  function LegacyInterval(rateLimit: int, backoff: int, nth: int, maxSleep: int): (interval: int)
    ensures interval <= maxSleep
    ensures interval == maxSleep || (interval >= rateLimit && interval >= backoff * nth)
    ensures interval == rateLimit || interval == backoff * nth || interval == maxSleep
    ensures interval <= rateLimit || interval <= backoff * nth
  {
    var longer := if rateLimit > backoff * nth then rateLimit else backoff * nth;
    if longer < maxSleep then longer else maxSleep
  }

  /** The sleep of `_rate_limit`: what is missing from the elapsed time to reach the interval. */
  function RateLimitSleep(elapsed: int, interval: int): (slept: int)
    ensures slept >= 0
    ensures elapsed + slept >= interval
    ensures slept > 0 <==> elapsed < interval
    ensures slept > 0 ==> elapsed + slept == interval
  {
    if elapsed < interval then interval - elapsed else 0
  }

  /**
   * The least time the first `n` attempts of a retry loop take, from the
   * previous request to the last of them: the sum of their intervals.
   */
  function Spacing(rateLimit: int, backoff: int, maxSleep: int, n: nat): int
  {
    if n == 0 then 0 else Spacing(rateLimit, backoff, maxSleep, n - 1) + LegacyInterval(rateLimit, backoff, n - 1, maxSleep)
  }

  /**
   * With `rate_limit >= 1`, as the constructor demands, and a `max_sleep` of
   * at least 1, consecutive attempts are at least a second apart: `n`
   * attempts take at least `n` seconds.
   */
  lemma {:induction false} SpacingAtLeastOnePerAttempt(rateLimit: int, backoff: int, maxSleep: int, n: nat)
    requires rateLimit >= 1 && maxSleep >= 1
    ensures Spacing(rateLimit, backoff, maxSleep, n) >= n
  {
    if n > 0 {
      SpacingAtLeastOnePerAttempt(rateLimit, backoff, maxSleep, n - 1);
    }
  }

  /** One step of the `limit` bookkeeping of `_query`, which sets the page's `limit` whenever there is a quota. */
  function LegacyAdvance(p: Payload, q: Quota, maxPerRequest: int): (r: (Payload, Quota))
    ensures q.Unbounded? ==> r == (p, Unbounded)
    ensures q.Remaining? ==> r.1.Remaining? && "limit" in r.0 && r.0 == p["limit" := r.0["limit"]]
  {
    match q
    case Unbounded => (p, Unbounded)
    case Remaining(n) =>
      if n > maxPerRequest then (p["limit" := VInt(maxPerRequest)], Remaining(n - maxPerRequest))
      else (p["limit" := VInt(n)], Remaining(0))
  }

  /**
   * The quota step asks for the first size of the page plan of what remains,
   * and leaves the plan's other sizes for later; once the quota reaches 0
   * the plan has run out.
   */
  lemma LegacyAdvanceFollowsPlan(p: Payload, n: int, m: int)
    requires m >= 1
    ensures var (p1, q1) := LegacyAdvance(p, Remaining(n), m);
            && p1 == p["limit" := VInt(Plan(n, m)[0])]
            && (q1.n == 0 <==> |Plan(n, m)| == 1)
            && (q1.n != 0 ==> Plan(q1.n, m) == Plan(n, m)[1..])
  {
  }

  /** What `_get` hands back: the `data` array, or the whole body for a limited payload. */
  datatype Fetched = Data(records: seq<Record>) | Body(response: Response)

  /**
   * `_wrap_thing` of the older client with the offset `utc_offset_secs`
   * answers: `created_utc` is read first (KeyError), then the offset, whose
   * detection is not guarded here and may raise, then the subtraction.
   */
  function WrapLegacy(rec: Record, kind: string, offset: Result<int>): (r: Result<Thing>)
    ensures CreatedUtc !in rec ==> r == Err(KeyError(CreatedUtc))
    ensures CreatedUtc in rec && offset.Err? ==> r == Err(offset.error)
    ensures offset.Ok? ==> r == WrapThing(rec, kind, offset.value)
    ensures r.Ok? <==> offset.Ok? && HasTimestamp(rec)
  {
    if CreatedUtc !in rec then Err(KeyError(CreatedUtc))
    else
      match offset
      case Err(err) => Err(err)
      case Ok(off) => WrapThing(rec, kind, off)
  }

  /**
   * Everything `_query` is given besides the payload: its arguments, the
   * configuration, the offset `utc_offset_secs` answers with (or the error
   * its detection raises) and the server.
   */
  datatype QueryEnv = QueryEnv(
    kind: string,
    stop: Record -> bool,
    offset: Result<int>,
    maxPerRequest: int,
    maxRetries: int,
    respond: (nat, Payload) -> Response)

  /**
   * The inner loop of `_query` over one page: the stop condition is called
   * with the raw record first; only a record that does not stop the walk is
   * wrapped.
   */
  function ScanRaw(recs: seq<Record>, kind: string, offset: Result<int>, stop: Record -> bool): (s: Scan)
    decreases |recs|
  {
    if recs == [] then Scan([], Completed)
    else if stop(recs[0]) then Scan([], Stopped)
    else
      match WrapLegacy(recs[0], kind, offset)
      case Err(e) => Scan([], WrapFailed(e))
      case Ok(t) =>
        var rest := ScanRaw(recs[1..], kind, offset, stop);
        Scan([t] + rest.items, rest.end)
  }

  /**
   * The items kept from a page are its first records, wrapped, none of them
   * satisfying `stop`; the walk ends at the end of the page, at the first
   * record that satisfies `stop` (whether or not it could be wrapped), or at
   * the first record that cannot be wrapped.
   */
  lemma {:induction false} ScanRawSpec(recs: seq<Record>, kind: string, offset: Result<int>, stop: Record -> bool)
    ensures var s := ScanRaw(recs, kind, offset, stop);
      && |s.items| <= |recs|
      && (forall i :: 0 <= i < |s.items| ==>
            !stop(recs[i]) && WrapLegacy(recs[i], kind, offset) == Ok(s.items[i]))
      && (s.end == Completed ==> |s.items| == |recs|)
      && (s.end == Stopped ==> |s.items| < |recs| && stop(recs[|s.items|]))
      && (s.end.WrapFailed? ==>
            |s.items| < |recs| && !stop(recs[|s.items|]) &&
            WrapLegacy(recs[|s.items|], kind, offset) == Err(s.end.error))
    decreases |recs|
  {
    if recs != [] && !stop(recs[0]) && WrapLegacy(recs[0], kind, offset).Ok? {
      ScanRawSpec(recs[1..], kind, offset, stop);
      var rest := ScanRaw(recs[1..], kind, offset, stop);
      var s := ScanRaw(recs, kind, offset, stop);
      assert s.items == [WrapLegacy(recs[0], kind, offset).value] + rest.items;
      forall i | 1 <= i < |s.items|
        ensures !stop(recs[i]) && WrapLegacy(recs[i], kind, offset) == Ok(s.items[i])
      {
        assert recs[1..][i - 1] == recs[i];
      }
      if s.end != Completed {
        assert recs[1..][|rest.items|] == recs[|s.items|];
      }
    }
  }

  /** Walking two pieces of a page one after the other is walking the page. */
  lemma {:induction false} ScanRawAppend(a: seq<Record>, b: seq<Record>, kind: string, offset: Result<int>, stop: Record -> bool)
    ensures var sa := ScanRaw(a, kind, offset, stop);
            var sb := ScanRaw(b, kind, offset, stop);
            ScanRaw(a + b, kind, offset, stop) == if sa.end == Completed then Scan(sa.items + sb.items, sb.end) else sa
    decreases |a|
  {
    if a == [] {
      assert a + b == b;
    } else {
      assert (a + b)[0] == a[0] && (a + b)[1..] == a[1..] + b;
      ScanRawAppend(a[1..], b, kind, offset, stop);
      var sa := ScanRaw(a[1..], kind, offset, stop);
      var sb := ScanRaw(b, kind, offset, stop);
      assert forall t: Thing :: [t] + (sa.items + sb.items) == ([t] + sa.items) + sb.items;
    }
  }

  /** One turn of the walk at record `i`, once the records before it were all kept. */
  lemma ScanRawStep(recs: seq<Record>, i: nat, kind: string, offset: Result<int>, stop: Record -> bool)
    requires i < |recs| && ScanRaw(recs[..i], kind, offset, stop).end == Completed
    ensures var kept := ScanRaw(recs[..i], kind, offset, stop).items;
            if stop(recs[i]) then ScanRaw(recs, kind, offset, stop) == Scan(kept, Stopped)
            else match WrapLegacy(recs[i], kind, offset)
              case Err(e) => ScanRaw(recs, kind, offset, stop) == Scan(kept, WrapFailed(e))
              case Ok(t) => ScanRaw(recs[..i + 1], kind, offset, stop) == Scan(kept + [t], Completed)
  {
    assert recs[..i] + recs[i..] == recs;
    ScanRawAppend(recs[..i], recs[i..], kind, offset, stop);
    assert recs[i..][0] == recs[i] && recs[i..][1..] == recs[i + 1..];
    assert recs[..i] + [recs[i]] == recs[..i + 1];
    ScanRawAppend(recs[..i], [recs[i]], kind, offset, stop);
    assert [recs[i]][0] == recs[i] && [recs[i]][1..] == [];
  }

  /** A completely walked non-empty page leaves a last item whose record carries `created_utc`. */
  lemma CompletedRawHasLast(recs: seq<Record>, kind: string, offset: Result<int>, stop: Record -> bool)
    requires recs != [] && ScanRaw(recs, kind, offset, stop).end == Completed
    ensures var s := ScanRaw(recs, kind, offset, stop);
      |s.items| == |recs| && CreatedUtc in s.items[|s.items| - 1].record &&
      s.items[|s.items| - 1].record == recs[|recs| - 1]
  {
    ScanRawSpec(recs, kind, offset, stop);
    var s := ScanRaw(recs, kind, offset, stop);
    assert WrapLegacy(recs[|recs| - 1], kind, offset) == Ok(s.items[|s.items| - 1]);
  }

  /** `payload['before'] = thing.created_utc` after a full page. */
  function LegacyNextPayload(p: Payload, s: Scan): Payload
    requires |s.items| > 0 && CreatedUtc in s.items[|s.items| - 1].record
  {
    p["before" := s.items[|s.items| - 1].record[CreatedUtc]]
  }

  /**
   * `_query` from request `j` on, with payload `p` and quota `q` at the top
   * of its loop: set the page's limit, normalise, then send and walk the
   * page. At most `fuel` requests are sent.
   */
  function QueryRun(p: Payload, q: Quota, j: nat, fuel: nat, e: QueryEnv): Trace
    decreases fuel, 3
  {
    if fuel == 0 then Trace([], [], OutOfFuel)
    else
      var (p1, q1) := LegacyAdvance(p, q, e.maxPerRequest);
      match AddNecArgsLegacy(p1, e.maxPerRequest)
      case Err(err) => Trace([], [], Failed(err))
      case Ok(p2) => QueryPage(p2, q1, j, fuel, e)
  }

  /**
   * The query once the normalised payload `p2` is handed to `_get` as
   * request `j`: without a single attempt `_get` raises UnboundLocalError
   * before anything is sent; otherwise a limited payload yields the whole
   * body and ends, an empty page ends the query, and any other page is walked.
   */
  function QueryPage(p2: Payload, q1: Quota, j: nat, fuel: nat, e: QueryEnv): Trace
    requires fuel > 0
    decreases fuel, 2
  {
    var response := e.respond(j, p2);
    if e.maxRetries <= 0 then Trace([], [], Failed(UnboundLocalError))
    else if Limited(p2) then Trace([Whole(response)], [p2], Finished)
    else if response.data == [] then Trace([], [p2], Finished)
    else
      var s := ScanRaw(response.data, e.kind, e.offset, e.stop);
      if s.end == Completed then
        CompletedRawHasLast(response.data, e.kind, e.offset, e.stop);
        QueryPageEnd(p2, q1, s, j, fuel, e)
      else QueryPageEnd(p2, q1, s, j, fuel, e)
  }

  /**
   * How a walked page ends the turn: its items are yielded; a failed wrap
   * raises, a stop or a quota that reached exactly 0 ends the query, and
   * otherwise the cursor `before` moves to the last item.
   */
  function QueryPageEnd(p2: Payload, q1: Quota, s: Scan, j: nat, fuel: nat, e: QueryEnv): Trace
    requires fuel > 0
    requires s.end == Completed ==> |s.items| > 0 && CreatedUtc in s.items[|s.items| - 1].record
    decreases fuel, 1
  {
    var out := Items(s.items);
    match s.end
    case WrapFailed(err) => Trace(out, [p2], Failed(err))
    case Stopped => Trace(out, [p2], Finished)
    case Completed =>
      if q1.Remaining? && q1.n == 0 then Trace(out, [p2], Finished)
      else Then(out, [p2], QueryRun(LegacyNextPayload(p2, s), q1, j + 1, fuel - 1, e))
  }

  /** What the query looks like from turn `j` on once that turn led to `step`. */
  function QueryFollow(step: Step, j: nat, fuel: nat, e: QueryEnv): Trace
    requires fuel > 0
  {
    match step
    case Done(out, requests, status) => Trace(out, requests, status)
    case Next(out, request, p', q') => Then(out, [request], QueryRun(p', q', j + 1, fuel - 1, e))
  }

  /** A turn that goes on adds its output and its request in front of the rest of the query. */
  lemma QueryFollowNext(out: seq<Output>, requests: seq<Payload>, step: Step, j: nat, left: nat, e: QueryEnv)
    requires left > 0 && step.Next?
    ensures Then(out, requests, QueryFollow(step, j, left, e))
         == Then(out + step.out, requests + [step.request], QueryRun(step.payload, step.quota, j + 1, left - 1, e))
  {
    ThenAssociates(out, requests, step.out, [step.request], QueryRun(step.payload, step.quota, j + 1, left - 1, e));
  }

  /**
   * `_query(kind, stop_condition, **kwargs)`: the payload is a copy of
   * kwargs, and the caller's limit becomes the quota.
   */
  function QuerySpec(kwargs: Payload, e: QueryEnv, fuel: nat): Trace
  {
    if fuel == 0 then Trace([], [], OutOfFuel)
    else
      match QuotaOf(kwargs)
      case Err(err) => Trace([], [], Failed(err))
      case Ok(q) => QueryRun(kwargs, q, 0, fuel, e)
  }

  class PushshiftApi {
    const maxRetries: int
    const maxSleep: int
    const backoff: int
    const rateLimit: int
    const maxResultsPerRequest: int
    /** `_last_request_time`: when the previous request was sent. */
    var lastRequestTime: int
    /** `_utc_offset_secs`: the memoised offset, None until first asked for. */
    var utcOffset: Option<int>

    /** The constructor's assertions are its preconditions. */
    constructor (maxRetries: int, maxSleep: int, backoff: int, rateLimit: int, maxResultsPerRequest: int)
      requires rateLimit >= 1 && maxResultsPerRequest <= 500 && backoff >= 1
      ensures this.maxRetries == maxRetries && this.maxSleep == maxSleep && this.backoff == backoff
      ensures this.rateLimit == rateLimit && this.maxResultsPerRequest == maxResultsPerRequest
      ensures lastRequestTime == 0 && utcOffset == None
    {
      this.maxRetries := maxRetries;
      this.maxSleep := maxSleep;
      this.backoff := backoff;
      this.rateLimit := rateLimit;
      this.maxResultsPerRequest := maxResultsPerRequest;
      lastRequestTime := 0;
      utcOffset := None;
    }

    /** The offset `utc_offset_secs` answers with, given the offset detection finds. */
    function ResolvedOffset(detected: Result<int>): Result<int>
      reads this
    {
      if utcOffset.Some? && utcOffset.value != 0 then Ok(utcOffset.value) else detected
    }

    /**
     * `utc_offset_secs`: a memoised offset wins unless it is falsy (None or
     * 0), in which case the local offset is detected again and memoised.
     * Detection is `detected`; its error propagates and nothing is memoised.
     */
    method UtcOffsetSecs(detected: Result<int>) returns (off: Result<int>)
      modifies this`utcOffset
      ensures off == old(ResolvedOffset(detected))
      ensures old(utcOffset).Some? && old(utcOffset).value != 0 ==> off == Ok(old(utcOffset).value)
      ensures off.Ok? ==> utcOffset == Some(off.value)
      ensures off.Err? ==> off == detected && utcOffset == old(utcOffset)
    {
      if utcOffset.Some? && utcOffset.value != 0 {
        return Ok(utcOffset.value);
      }
      if detected.Err? {
        return detected;
      }
      utcOffset := Some(detected.value);
      off := detected;
    }

    /**
     * `_rate_limit(nth_request)` at time `now`: sleep until the interval since
     * the previous request has passed, then stamp this request. Sleeping is
     * taken to last exactly as long as asked.
     */
    method RateLimit(nth: int, now: int) returns (slept: int)
      modifies this`lastRequestTime
      ensures slept == RateLimitSleep(now - old(lastRequestTime), LegacyInterval(rateLimit, backoff, nth, maxSleep))
      ensures lastRequestTime == now + slept
      ensures lastRequestTime - old(lastRequestTime) >= LegacyInterval(rateLimit, backoff, nth, maxSleep)
    {
      var d := now - lastRequestTime;
      var interval := LegacyInterval(rateLimit, backoff, nth, maxSleep);
      slept := 0;
      if d < interval {
        slept := interval - d;
      }
      lastRequestTime := now + slept;
    }

    /**
     * `_get(kind, payload)`: normalise the payload (raising before any request
     * when the filter cannot be listed), then the retry loop: attempt `a`
     * first calls `_rate_limit(a)` at time `clock(a)`, then gets status
     * `status(a)` and body `bodies(a)`; at most `maxRetries` attempts,
     * stopping after the first 200. The last body's `data` is returned, or
     * the whole body for a limited payload. With no attempt at all the unset
     * `response` raises UnboundLocalError.
     */
    method Get(payload: Payload, status: nat -> int, bodies: nat -> Response, clock: nat -> int)
      returns (normalised: Result<Payload>, r: Result<Fetched>, attempts: nat)
      modifies this`lastRequestTime
      ensures normalised == AddNecArgsLegacy(payload, maxResultsPerRequest)
      ensures normalised.Err? ==> attempts == 0 && r == Err(normalised.error)
      ensures normalised.Ok? && maxRetries <= 0 ==> attempts == 0 && r == Err(UnboundLocalError)
      ensures normalised.Ok? && maxRetries > 0 ==>
        1 <= attempts <= maxRetries && (status(attempts - 1) == 200 || attempts == maxRetries) &&
        r == Ok(if Limited(normalised.value) then Body(bodies(attempts - 1)) else Data(bodies(attempts - 1).data))
      ensures forall a :: 0 <= a < attempts - 1 ==> status(a) != 200
      ensures attempts == 0 ==> lastRequestTime == old(lastRequestTime)
      ensures lastRequestTime - old(lastRequestTime) >= Spacing(rateLimit, backoff, maxSleep, attempts)
    {
      normalised := AddNecArgsLegacy(payload, maxResultsPerRequest);
      if normalised.Err? {
        return normalised, Err(normalised.error), 0;
      }
      var i: nat, success := 0, false;
      var response: Option<Response> := None;
      while !success && i < maxRetries
        invariant maxRetries > 0 ==> i <= maxRetries
        invariant maxRetries <= 0 ==> i == 0
        invariant i == 0 <==> response.None?
        invariant i == 0 ==> !success && lastRequestTime == old(lastRequestTime)
        invariant i > 0 ==> response == Some(bodies(i - 1)) && (success <==> status(i - 1) == 200)
        invariant forall a :: 0 <= a < i - 1 ==> status(a) != 200
        invariant lastRequestTime - old(lastRequestTime) >= Spacing(rateLimit, backoff, maxSleep, i)
      {
        var _ := RateLimit(i, clock(i));
        response := Some(bodies(i));
        success := status(i) == 200;
        i := i + 1;
      }
      attempts := i;
      if response.None? {
        return normalised, Err(UnboundLocalError), 0;
      }
      if Limited(normalised.value) {
        r := Ok(Body(response.value));
      } else {
        r := Ok(Data(response.value.data));
      }
    }

    /**
     * `_wrap_thing(thing, kind)` on this client: a record without
     * `created_utc` raises KeyError before the offset is asked for, and a
     * failed detection raises before the subtraction.
     */
    method WrapWithOffset(rec: Record, kind: string, detected: Result<int>) returns (r: Result<Thing>)
      modifies this`utcOffset
      ensures ResolvedOffset(detected) == old(ResolvedOffset(detected))
      ensures r == WrapLegacy(rec, kind, ResolvedOffset(detected))
    {
      if CreatedUtc !in rec {
        return Err(KeyError(CreatedUtc));
      }
      var off := UtcOffsetSecs(detected);
      if off.Err? {
        return Err(off.error);
      }
      r := WrapThing(rec, kind, off.value);
    }

    /**
     * The `for thing in results` loop of `_query` over one non-empty page:
     * the items it yields, how it ended, and the last item it kept.
     */
    method WalkPage(recs: seq<Record>, kind: string, stop: Record -> bool, detected: Result<int>)
      returns (out: seq<Output>, end: ScanEnd, last: Option<Thing>, ghost seen: seq<Thing>)
      modifies this`utcOffset
      ensures ResolvedOffset(detected) == old(ResolvedOffset(detected))
      ensures ScanRaw(recs, kind, ResolvedOffset(detected), stop) == Scan(seen, end)
      ensures out == Items(seen)
      ensures last == if seen == [] then None else Some(seen[|seen| - 1])
    {
      ghost var offset := ResolvedOffset(detected);
      seen := [];
      out, last := [], None;
      var i := 0;
      while i < |recs|
        invariant 0 <= i <= |recs|
        invariant ResolvedOffset(detected) == offset
        invariant ScanRaw(recs[..i], kind, offset, stop) == Scan(seen, Completed)
        invariant out == Items(seen)
        invariant last == if seen == [] then None else Some(seen[|seen| - 1])
      {
        ScanRawStep(recs, i, kind, offset, stop);
        if stop(recs[i]) {
          end := Stopped;
          return;
        }
        var wrapped := WrapWithOffset(recs[i], kind, detected);
        if wrapped.Err? {
          end := WrapFailed(wrapped.error);
          return;
        }
        var thing := wrapped.value;
        ItemsAppend(seen, thing);
        last := Some(thing);
        seen := seen + [thing];
        out := out + [Item(thing)];
        i := i + 1;
      }
      assert recs[..i] == recs;
      end := Completed;
    }

    /**
     * The end of one turn, after the page sent as `request` was walked: on a
     * full page set the cursor `before` and go on unless the quota is 0.
     */
    method Conclude(request: Payload, next: Quota, j: nat, out: seq<Output>, end: ScanEnd, last: Option<Thing>,
                    ghost seen: seq<Thing>, ghost fuel: nat, ghost e: QueryEnv)
      returns (step: Step)
      requires fuel > 0 && out == Items(seen)
      requires last == if seen == [] then None else Some(seen[|seen| - 1])
      requires end == Completed ==> seen != [] && CreatedUtc in seen[|seen| - 1].record
      ensures QueryPageEnd(request, next, Scan(seen, end), j, fuel, e) == QueryFollow(step, j, fuel, e)
      ensures step.Next? ==> step.quota == next
    {
      if end.WrapFailed? {
        return Done(out, [request], Failed(end.error));
      }
      if end == Stopped {
        return Done(out, [request], Finished);
      }
      var payload := request["before" := last.value.record[CreatedUtc]];
      if next.Remaining? && next.n == 0 {
        return Done(out, [request], Finished);
      }
      step := Next(out, request, payload, next);
    }

    /**
     * The rest of one turn: send the normalised payload as request `j`; a
     * limited payload yields the whole body, an empty page ends the query,
     * otherwise walk the page and conclude the turn.
     */
    method HandlePage(request: Payload, next: Quota, j: nat, kind: string, stop: Record -> bool,
                      respond: (nat, Payload) -> Response, detected: Result<int>, ghost fuel: nat)
      returns (step: Step)
      requires fuel > 0
      modifies this`utcOffset
      ensures ResolvedOffset(detected) == old(ResolvedOffset(detected))
      ensures QueryPage(request, next, j, fuel,
                        QueryEnv(kind, stop, old(ResolvedOffset(detected)), maxResultsPerRequest, maxRetries, respond))
              == QueryFollow(step, j, fuel,
                             QueryEnv(kind, stop, old(ResolvedOffset(detected)), maxResultsPerRequest, maxRetries, respond))
      ensures step.Next? ==> step.quota == next
    {
      ghost var e := QueryEnv(kind, stop, ResolvedOffset(detected), maxResultsPerRequest, maxRetries, respond);
      if maxRetries <= 0 {
        return Done([], [], Failed(UnboundLocalError));
      }
      var response := respond(j, request);
      if Limited(request) {
        return Done([Whole(response)], [request], Finished);
      }
      var recs := response.data;
      if recs == [] {
        return Done([], [request], Finished);
      }
      var out, end, last, seen := WalkPage(recs, kind, stop, detected);
      if end == Completed {
        CompletedRawHasLast(recs, kind, e.offset, stop);
      }
      step := Conclude(request, next, j, out, end, last, seen, fuel, e);
    }

    /**
     * One turn of the `while True` loop of `_query`: the quota step sets the
     * page's `limit`, `_get` normalises the payload (a failure ends the query
     * before anything is sent), then the page is sent and walked.
     */
    method Turn(payload: Payload, quota: Quota, j: nat, kind: string, stop: Record -> bool,
                respond: (nat, Payload) -> Response, detected: Result<int>, ghost fuel: nat)
      returns (step: Step)
      requires fuel > 0
      modifies this`utcOffset
      ensures ResolvedOffset(detected) == old(ResolvedOffset(detected))
      ensures QueryRun(payload, quota, j, fuel,
                       QueryEnv(kind, stop, old(ResolvedOffset(detected)), maxResultsPerRequest, maxRetries, respond))
              == QueryFollow(step, j, fuel,
                             QueryEnv(kind, stop, old(ResolvedOffset(detected)), maxResultsPerRequest, maxRetries, respond))
    {
      var request := payload;
      var next := quota;
      if quota.Remaining? {
        if quota.n > maxResultsPerRequest {
          request := request["limit" := VInt(maxResultsPerRequest)];
          next := Remaining(quota.n - maxResultsPerRequest);
        } else {
          request := request["limit" := VInt(quota.n)];
          next := Remaining(0);
        }
      }
      var normalised := AddNecArgsLegacy(request, maxResultsPerRequest);
      if normalised.Err? {
        return Done([], [], Failed(normalised.error));
      }
      step := HandlePage(normalised.value, next, j, kind, stop, respond, detected, fuel);
    }

    /**
     * `_query(kind, stop_condition, **kwargs)`: the whole generator, run until
     * it ends by itself, raises, or has sent `fuel` requests.
     */
    method Query(kind: string, stop: Record -> bool, kwargs: Payload,
                 respond: (nat, Payload) -> Response, detected: Result<int>, fuel: nat)
      returns (t: Trace)
      modifies this`utcOffset
      ensures t == QuerySpec(kwargs, QueryEnv(kind, stop, old(ResolvedOffset(detected)), maxResultsPerRequest, maxRetries, respond), fuel)
    {
      ghost var e := QueryEnv(kind, stop, ResolvedOffset(detected), maxResultsPerRequest, maxRetries, respond);
      if fuel == 0 {
        return Trace([], [], OutOfFuel);
      }
      var limit := QuotaOf(kwargs);
      if limit.Err? {
        return Trace([], [], Failed(limit.error));
      }
      var quota := limit.value;
      var payload := kwargs;
      var out: seq<Output> := [];
      var requests: seq<Payload> := [];
      var j: nat, left: nat := 0, fuel;
      ghost var spec := QuerySpec(kwargs, e, fuel);
      assert spec == QueryRun(payload, quota, 0, fuel, e);
      ThenAssociates([], [], [], [], spec);
      while left > 0
        invariant ResolvedOffset(detected) == e.offset
        invariant spec == Then(out, requests, QueryRun(payload, quota, j, left, e))
      {
        var step := Turn(payload, quota, j, kind, stop, respond, detected, left);
        if step.Done? {
          return Trace(out + step.out, requests + step.requests, step.status);
        }
        QueryFollowNext(out, requests, step, j, left, e);
        out, requests, payload, quota := out + step.out, requests + [step.request], step.payload, step.quota;
        j, left := j + 1, left - 1;
      }
      t := Trace(out, requests, OutOfFuel);
    }

    /** `search_comments(**kwargs)`: `_query` with kind `comment` and the kwargs unchanged. */
    method SearchComments(stop: Record -> bool, kwargs: Payload, respond: (nat, Payload) -> Response,
                          detected: Result<int>, fuel: nat)
      returns (t: Trace)
      modifies this`utcOffset
      ensures t == QuerySpec(kwargs, QueryEnv("comment", stop, old(ResolvedOffset(detected)), maxResultsPerRequest, maxRetries, respond), fuel)
    {
      t := Query("comment", stop, kwargs, respond, detected, fuel);
    }

    /** `search_submissions(**kwargs)`: `_query` with kind `submission` and the kwargs unchanged. */
    method SearchSubmissions(stop: Record -> bool, kwargs: Payload, respond: (nat, Payload) -> Response,
                             detected: Result<int>, fuel: nat)
      returns (t: Trace)
      modifies this`utcOffset
      ensures t == QuerySpec(kwargs, QueryEnv("submission", stop, old(ResolvedOffset(detected)), maxResultsPerRequest, maxRetries, respond), fuel)
    {
      t := Query("submission", stop, kwargs, respond, detected, fuel);
    }
  }

  /** A key other than `filter` that the payload has keeps its value through the older `_add_nec_args`. */
  lemma AddNecArgsLegacyKeepsKey(p: Payload, m: int, k: string)
    requires k in p && k != "filter" && AddNecArgsLegacy(p, m).Ok?
    ensures k in AddNecArgsLegacy(p, m).value && AddNecArgsLegacy(p, m).value[k] == p[k]
  {
  }

  /**
   * A limited payload is sent once, as it stands after the quota step, and
   * the whole response body is yielded as the query's only output.
   */
  lemma LimitedQueryYieldsBody(kwargs: Payload, e: QueryEnv, fuel: nat)
    requires fuel > 0 && Limited(kwargs) && QuotaOf(kwargs).Ok?
    ensures var p1 := LegacyAdvance(kwargs, QuotaOf(kwargs).value, e.maxPerRequest).0;
            QuerySpec(kwargs, e, fuel) ==
              if e.maxRetries <= 0 then Trace([], [], Failed(UnboundLocalError))
              else Trace([Whole(e.respond(0, p1))], [p1], Finished)
  {
    var q := QuotaOf(kwargs).value;
    var (p1, q1) := LegacyAdvance(kwargs, q, e.maxPerRequest);
    assert Limited(p1);
    assert QuerySpec(kwargs, e, fuel) == QueryRun(kwargs, q, 0, fuel, e);
    assert QueryRun(kwargs, q, 0, fuel, e) == QueryPage(p1, q1, 0, fuel, e);
  }

  /** The records before position `|seen|` are kept as `seen`: none satisfies `stop` and each wraps. */
  ghost predicate KeptRawBefore(recs: seq<Record>, kind: string, offset: Result<int>, stop: Record -> bool, seen: seq<Thing>)
  {
    |seen| <= |recs| &&
    forall i :: 0 <= i < |seen| ==> !stop(recs[i]) && WrapLegacy(recs[i], kind, offset) == Ok(seen[i])
  }

  lemma {:induction false} ScanRawOfKept(recs: seq<Record>, kind: string, offset: Result<int>, stop: Record -> bool,
                                         seen: seq<Thing>)
    requires KeptRawBefore(recs, kind, offset, stop, seen)
    ensures ScanRaw(recs[..|seen|], kind, offset, stop) == Scan(seen, Completed)
    decreases |seen|
  {
    if seen == [] {
      assert recs[..0] == [];
    } else {
      var k := |seen| - 1;
      assert KeptRawBefore(recs, kind, offset, stop, seen[..k]);
      ScanRawOfKept(recs, kind, offset, stop, seen[..k]);
      ScanRawStep(recs, k, kind, offset, stop);
      assert seen[..k] + [seen[k]] == seen;
    }
  }

  /**
   * Where a page of a query that is not limited is cut short: a record
   * satisfying `stop` ends the query by itself even when it could not have
   * been wrapped, since the condition sees the raw record first; a record
   * that does not stop it and cannot be wrapped raises. The items before
   * the cut have been yielded. An empty page ends the query.
   */
  lemma RawPageCutShort(p2: Payload, q1: Quota, j: nat, fuel: nat, e: QueryEnv, seen: seq<Thing>)
    requires fuel > 0 && !Limited(p2)
    requires KeptRawBefore(e.respond(j, p2).data, e.kind, e.offset, e.stop, seen)
    ensures e.maxRetries <= 0 ==> QueryPage(p2, q1, j, fuel, e) == Trace([], [], Failed(UnboundLocalError))
    ensures e.maxRetries > 0 && e.respond(j, p2).data == [] ==> QueryPage(p2, q1, j, fuel, e) == Trace([], [p2], Finished)
    ensures var recs := e.respond(j, p2).data;
            e.maxRetries > 0 && |seen| < |recs| && e.stop(recs[|seen|]) ==>
              QueryPage(p2, q1, j, fuel, e) == Trace(Items(seen), [p2], Finished)
    ensures var recs := e.respond(j, p2).data;
            e.maxRetries > 0 && |seen| < |recs| && !e.stop(recs[|seen|]) && WrapLegacy(recs[|seen|], e.kind, e.offset).Err? ==>
              QueryPage(p2, q1, j, fuel, e) ==
                Trace(Items(seen), [p2], Failed(WrapLegacy(recs[|seen|], e.kind, e.offset).error))
  {
    var recs := e.respond(j, p2).data;
    if |seen| < |recs| {
      ScanRawOfKept(recs, e.kind, e.offset, e.stop, seen);
      ScanRawStep(recs, |seen|, e.kind, e.offset, e.stop);
    }
  }

  /** The server answered with a non-empty page that is walked to its end. */
  ghost predicate FullRawPage(recs: seq<Record>, e: QueryEnv)
  {
    recs != [] && ScanRaw(recs, e.kind, e.offset, e.stop).end == Completed
  }

  /** Whether the page sent as request `j` lets the query go on: it was fetched, walked to its end, and quota remains. */
  ghost predicate QueryContinues(p2: Payload, q1: Quota, j: nat, e: QueryEnv)
  {
    e.maxRetries > 0 && !Limited(p2) && FullRawPage(e.respond(j, p2).data, e) && !(q1.Remaining? && q1.n == 0)
  }

  /** The payload after a full page: `before` is the `created_utc` of the page's last record. */
  ghost function LegacyCursor(p2: Payload, j: nat, e: QueryEnv): (next: Payload)
    requires FullRawPage(e.respond(j, p2).data, e)
    ensures var recs := e.respond(j, p2).data;
            CreatedUtc in recs[|recs| - 1] && next == p2["before" := recs[|recs| - 1][CreatedUtc]]
  {
    var recs := e.respond(j, p2).data;
    CompletedRawHasLast(recs, e.kind, e.offset, e.stop);
    LegacyNextPayload(p2, ScanRaw(recs, e.kind, e.offset, e.stop))
  }

  lemma QueryPageNext(p2: Payload, q1: Quota, j: nat, fuel: nat, e: QueryEnv)
    requires fuel > 0 && QueryContinues(p2, q1, j, e)
    ensures var s := ScanRaw(e.respond(j, p2).data, e.kind, e.offset, e.stop);
            QueryPage(p2, q1, j, fuel, e) ==
              Then(Items(s.items), [p2], QueryRun(LegacyCursor(p2, j, e), q1, j + 1, fuel - 1, e))
  {
    var recs := e.respond(j, p2).data;
    CompletedRawHasLast(recs, e.kind, e.offset, e.stop);
  }

  lemma QueryPageLast(p2: Payload, q1: Quota, j: nat, fuel: nat, e: QueryEnv)
    requires fuel > 0 && !QueryContinues(p2, q1, j, e)
    ensures e.maxRetries <= 0 ==> QueryPage(p2, q1, j, fuel, e) == Trace([], [], Failed(UnboundLocalError))
    ensures e.maxRetries > 0 ==> QueryPage(p2, q1, j, fuel, e).requests == [p2]
    ensures QueryPage(p2, q1, j, fuel, e).status != OutOfFuel
    ensures e.maxRetries > 0 && (Limited(p2) || FullRawPage(e.respond(j, p2).data, e)) ==>
              QueryPage(p2, q1, j, fuel, e).status == Finished
  {
    var recs := e.respond(j, p2).data;
    if e.maxRetries > 0 && !Limited(p2) && FullRawPage(recs, e) {
      CompletedRawHasLast(recs, e.kind, e.offset, e.stop);
    }
  }

  /** The requests one turn of the query sends and how it goes on after it. */
  lemma QueryRunRequests(p: Payload, q: Quota, j: nat, fuel: nat, e: QueryEnv)
    requires fuel > 0
    ensures var (p1, q1) := LegacyAdvance(p, q, e.maxPerRequest);
            var r := AddNecArgsLegacy(p1, e.maxPerRequest);
            var t := QueryRun(p, q, j, fuel, e);
            && (r.Err? ==> t.requests == [] && t.status == Failed(r.error))
            && (r.Ok? && e.maxRetries <= 0 ==> t == Trace([], [], Failed(UnboundLocalError)))
            && (r.Ok? && e.maxRetries > 0 && !QueryContinues(r.value, q1, j, e) ==>
                  t.requests == [r.value] && t.status != OutOfFuel)
            && (r.Ok? && e.maxRetries > 0 && !QueryContinues(r.value, q1, j, e) && Limited(r.value) ==>
                  t.status == Finished)
            && (r.Ok? && e.maxRetries > 0 && !QueryContinues(r.value, q1, j, e) && FullRawPage(e.respond(j, r.value).data, e) ==>
                  t.status == Finished)
            && (r.Ok? && QueryContinues(r.value, q1, j, e) ==>
                  var rest := QueryRun(LegacyCursor(r.value, j, e), q1, j + 1, fuel - 1, e);
                  t.requests == [r.value] + rest.requests && t.status == rest.status)
  {
    var (p1, q1) := LegacyAdvance(p, q, e.maxPerRequest);
    var r := AddNecArgsLegacy(p1, e.maxPerRequest);
    if r.Ok? {
      if QueryContinues(r.value, q1, j, e) {
        QueryPageNext(r.value, q1, j, fuel, e);
      } else {
        QueryPageLast(r.value, q1, j, fuel, e);
      }
    }
  }

  /**
   * With a limit of `n`, the `limit` of the requests the older client sends
   * follows the page plan, whatever `limit` the payload held before, and it
   * never sends more requests than the plan has.
   */
  lemma {:induction false} LegacyLimitsFollowPlan(p: Payload, n: int, j: nat, fuel: nat, e: QueryEnv)
    requires e.maxPerRequest >= 1
    ensures LimitsFollow(QueryRun(p, Remaining(n), j, fuel, e).requests, Plan(n, e.maxPerRequest))
    decreases fuel
  {
    var m := e.maxPerRequest;
    if fuel > 0 {
      QueryRunRequests(p, Remaining(n), j, fuel, e);
      var (p1, q1) := LegacyAdvance(p, Remaining(n), m);
      var r := AddNecArgsLegacy(p1, m);
      if r.Ok? {
        var p2 := r.value;
        LegacyAdvanceFollowsPlan(p, n, m);
        AddNecArgsLegacyKeepsKey(p1, m, "limit");
        if QueryContinues(p2, q1, j, e) {
          var p' := LegacyCursor(p2, j, e);
          LegacyLimitsFollowPlan(p', q1.n, j + 1, fuel - 1, e);
          LimitsFollowCons(p2, QueryRun(p', q1, j + 1, fuel - 1, e).requests, Plan(n, m));
        } else {
          LimitsFollowCons(p2, [], Plan(n, m));
        }
      }
    }
  }

  /**
   * Whether the older `_add_nec_args` succeeds does not depend on a key
   * other than the filter, `created_utc` and the limited ones, and it
   * succeeds again on what it produced, its filter being a list by then.
   */
  lemma AddNecArgsLegacyStaysOk(p: Payload, m: int, k: string, v: Value)
    requires AddNecArgsLegacy(p, m).Ok? && k != "filter" && k != CreatedUtc && |k| != 1
    ensures AddNecArgsLegacy(p[k := v], m).Ok?
    ensures AddNecArgsLegacy(AddNecArgsLegacy(p, m).value, m).Ok?
  {
    assert Limited(p[k := v]) == Limited(p);
    AddNecArgsLegacySpec(p, m);
    var r := AddNecArgsLegacy(p, m).value;
    assert Limited(r) == Limited(p);
    AddNecArgsLegacySpec(r, m);
  }

  /**
   * A payload that is not limited and normalises keeps both properties from
   * one request to the next: after the quota step, after normalisation, and
   * after the cursor moves.
   */
  lemma TurnStaysNormalisable(p: Payload, q: Quota, j: nat, e: QueryEnv)
    requires !Limited(p) && AddNecArgsLegacy(p, e.maxPerRequest).Ok?
    ensures var r := AddNecArgsLegacy(LegacyAdvance(p, q, e.maxPerRequest).0, e.maxPerRequest);
            r.Ok? && !Limited(r.value) &&
            (FullRawPage(e.respond(j, r.value).data, e) ==>
               !Limited(LegacyCursor(r.value, j, e)) &&
               AddNecArgsLegacy(LegacyCursor(r.value, j, e), e.maxPerRequest).Ok?)
  {
    var m := e.maxPerRequest;
    var p1 := LegacyAdvance(p, q, m).0;
    if p1 != p {
      AddNecArgsLegacyStaysOk(p, m, "limit", p1["limit"]);
    }
    assert Limited(p1) == Limited(p);
    var r := AddNecArgsLegacy(p1, m);
    AddNecArgsLegacySpec(p1, m);
    assert Limited(r.value) == Limited(p1);
    if FullRawPage(e.respond(j, r.value).data, e) {
      var p' := LegacyCursor(r.value, j, e);
      AddNecArgsLegacyStaysOk(p1, m, "before", p'["before"]);
      assert p' == r.value["before" := p'["before"]];
    }
  }

  /**
   * When every page comes back full, a query with a limit of `n` that is not
   * limited and whose payload normalises sends one request per entry of the
   * plan and ends by itself, fuel permitting.
   */
  lemma {:induction false} LegacyFullPagesRunWholePlan(p: Payload, n: int, j: nat, fuel: nat, e: QueryEnv)
    requires e.maxPerRequest >= 1 && e.maxRetries >= 1 && !Limited(p) && AddNecArgsLegacy(p, e.maxPerRequest).Ok?
    requires forall k: nat, q: Payload :: FullRawPage(e.respond(k, q).data, e)
    requires fuel >= |Plan(n, e.maxPerRequest)|
    ensures var t := QueryRun(p, Remaining(n), j, fuel, e);
            t.status == Finished && |t.requests| == |Plan(n, e.maxPerRequest)|
    decreases fuel
  {
    var m := e.maxPerRequest;
    PlanShape(n, m);
    QueryRunRequests(p, Remaining(n), j, fuel, e);
    TurnStaysNormalisable(p, Remaining(n), j, e);
    var p2 := AddNecArgsLegacy(LegacyAdvance(p, Remaining(n), m).0, m).value;
    assert FullRawPage(e.respond(j, p2).data, e);
    if n > m {
      assert Plan(n, m) == [m] + Plan(n - m, m);
      LegacyFullPagesRunWholePlan(LegacyCursor(p2, j, e), n - m, j + 1, fuel - 1, e);
    }
  }

  /**
   * Without a limit, as long as every page is full, a query that is not
   * limited and whose payload normalises never ends by itself: it sends one
   * request per unit of fuel.
   */
  lemma {:induction false} LegacyUnboundedNeverEnds(p: Payload, j: nat, fuel: nat, e: QueryEnv)
    requires e.maxRetries >= 1 && !Limited(p) && AddNecArgsLegacy(p, e.maxPerRequest).Ok?
    requires forall k: nat, q: Payload :: FullRawPage(e.respond(k, q).data, e)
    ensures var t := QueryRun(p, Unbounded, j, fuel, e);
            t.status == OutOfFuel && |t.requests| == fuel
    decreases fuel
  {
    if fuel > 0 {
      QueryRunRequests(p, Unbounded, j, fuel, e);
      TurnStaysNormalisable(p, Unbounded, j, e);
      var p2 := AddNecArgsLegacy(p, e.maxPerRequest).value;
      assert FullRawPage(e.respond(j, p2).data, e);
      LegacyUnboundedNeverEnds(LegacyCursor(p2, j, e), j + 1, fuel - 1, e);
    }
  }

  /**
   * `_query` with a `limit` of `n`: the requests ask for the page plan of
   * `n` in order; when the kwargs are not limited and normalise, and every
   * page is full, exactly the whole plan is sent, fuel permitting, and the
   * generator ends by itself.
   */
  lemma QueryFollowsPlan(kwargs: Payload, n: int, e: QueryEnv, fuel: nat)
    requires e.maxPerRequest >= 1 && QuotaOf(kwargs) == Ok(Remaining(n))
    ensures LimitsFollow(QuerySpec(kwargs, e, fuel).requests, Plan(n, e.maxPerRequest))
    ensures e.maxRetries >= 1 && !Limited(kwargs) && AddNecArgsLegacy(kwargs, e.maxPerRequest).Ok? &&
            (forall k: nat, q: Payload :: FullRawPage(e.respond(k, q).data, e)) &&
            fuel >= |Plan(n, e.maxPerRequest)| ==>
              QuerySpec(kwargs, e, fuel).status == Finished &&
              |QuerySpec(kwargs, e, fuel).requests| == |Plan(n, e.maxPerRequest)|
  {
    LegacyLimitsFollowPlan(kwargs, n, 0, fuel, e);
    if e.maxRetries >= 1 && !Limited(kwargs) && AddNecArgsLegacy(kwargs, e.maxPerRequest).Ok? &&
       (forall k: nat, q: Payload :: FullRawPage(e.respond(k, q).data, e)) &&
       fuel >= |Plan(n, e.maxPerRequest)| {
      LegacyFullPagesRunWholePlan(kwargs, n, 0, fuel, e);
    }
  }

  /** `_query` without a limit, while every page is full, runs until the fuel is spent. */
  lemma QueryWithoutLimitNeverEnds(kwargs: Payload, e: QueryEnv, fuel: nat)
    requires QuotaOf(kwargs) == Ok(Unbounded) && e.maxRetries >= 1
    requires !Limited(kwargs) && AddNecArgsLegacy(kwargs, e.maxPerRequest).Ok?
    requires forall k: nat, q: Payload :: FullRawPage(e.respond(k, q).data, e)
    ensures QuerySpec(kwargs, e, fuel).status == OutOfFuel && |QuerySpec(kwargs, e, fuel).requests| == fuel
  {
    LegacyUnboundedNeverEnds(kwargs, 0, fuel, e);
  }

  /** The filter of request `b` is that of request `a` with one more `created_utc` at the end. */
  ghost predicate FilterAppended(a: Payload, b: Payload)
  {
    "filter" in a && "filter" in b && a["filter"].VList? &&
    b["filter"] == VList(a["filter"].items + [VStr(CreatedUtc)])
  }

  /** Each request's filter is the previous one's with one more `created_utc`. */
  ghost predicate FilterChain(requests: seq<Payload>)
  {
    forall k :: 0 <= k < |requests| - 1 ==> FilterAppended(requests[k], requests[k + 1])
  }

  lemma FilterChainCons(a: Payload, rest: seq<Payload>)
    requires FilterChain(rest)
    requires rest != [] ==> FilterAppended(a, rest[0])
    ensures FilterChain([a] + rest)
  {
    var requests := [a] + rest;
    forall k | 0 <= k < |requests| - 1 ensures FilterAppended(requests[k], requests[k + 1]) {
      if k > 0 {
        assert requests[k] == rest[k - 1] && requests[k + 1] == rest[k];
      }
    }
  }

  /** The first request of a query that is not limited carries the listed filter with `created_utc` appended. */
  lemma FirstRequestFilter(p: Payload, q: Quota, j: nat, fuel: nat, e: QueryEnv)
    requires "filter" in p && NoCreatedUtcParam(p) && !Limited(p)
    ensures var t := QueryRun(p, q, j, fuel, e);
            |t.requests| > 0 ==>
              FilterList(p["filter"]).Ok? && "filter" in t.requests[0] &&
              t.requests[0]["filter"] == VList(FilterList(p["filter"]).value + [VStr(CreatedUtc)]) &&
              NoCreatedUtcParam(t.requests[0]) && !Limited(t.requests[0])
  {
    if fuel > 0 {
      QueryRunRequests(p, q, j, fuel, e);
      var p1 := LegacyAdvance(p, q, e.maxPerRequest).0;
      var r := AddNecArgsLegacy(p1, e.maxPerRequest);
      if r.Ok? {
        assert !Limited(p1) && "filter" in p1 && p1["filter"] == p["filter"] && NoCreatedUtcParam(p1);
        AddNecArgsLegacySpec(p1, e.maxPerRequest);
        assert Limited(r.value) == Limited(p1);
      }
    }
  }

  /**
   * With a filter and no `created_utc` parameter, the older client appends
   * another `created_utc` to the filter on every request: the first request
   * has the caller's filter, listed, plus one, and each later request one
   * more than the request before it.
   */
  lemma {:induction false} FilterGrowsEachRequest(p: Payload, q: Quota, j: nat, fuel: nat, e: QueryEnv)
    requires "filter" in p && NoCreatedUtcParam(p) && !Limited(p)
    ensures FilterChain(QueryRun(p, q, j, fuel, e).requests)
    decreases fuel
  {
    if fuel > 0 {
      QueryRunRequests(p, q, j, fuel, e);
      FirstRequestFilter(p, q, j, fuel, e);
      var (p1, q1) := LegacyAdvance(p, q, e.maxPerRequest);
      var r := AddNecArgsLegacy(p1, e.maxPerRequest);
      if r.Ok? && QueryContinues(r.value, q1, j, e) {
        var p' := LegacyCursor(r.value, j, e);
        assert p'["filter"] == r.value["filter"] && NoCreatedUtcParam(p') && !Limited(p');
        FilterGrowsEachRequest(p', q1, j + 1, fuel - 1, e);
        FirstRequestFilter(p', q1, j + 1, fuel - 1, e);
        FilterChainCons(r.value, QueryRun(p', q1, j + 1, fuel - 1, e).requests);
      }
    }
  }

  /**
   * `_query` with a filter and no `created_utc` parameter, not limited: the
   * first request asks for the listed filter plus `created_utc`, and each
   * later request for one more `created_utc` than the one before.
   */
  lemma QueryFilterGrows(kwargs: Payload, e: QueryEnv, fuel: nat)
    requires "filter" in kwargs && NoCreatedUtcParam(kwargs) && !Limited(kwargs)
    ensures var t := QuerySpec(kwargs, e, fuel);
            FilterChain(t.requests) &&
            (|t.requests| > 0 ==>
              FilterList(kwargs["filter"]).Ok? && "filter" in t.requests[0] &&
              t.requests[0]["filter"] == VList(FilterList(kwargs["filter"]).value + [VStr(CreatedUtc)]))
  {
    if fuel > 0 && QuotaOf(kwargs).Ok? {
      FilterGrowsEachRequest(kwargs, QuotaOf(kwargs).value, 0, fuel, e);
      FirstRequestFilter(kwargs, QuotaOf(kwargs).value, 0, fuel, e);
    }
  }

  /** A `before` already in the payload reaches the first request unchanged. */
  lemma LegacyFirstRequestKeepsBefore(p: Payload, q: Quota, j: nat, fuel: nat, e: QueryEnv)
    requires "before" in p
    ensures var t := QueryRun(p, q, j, fuel, e);
            |t.requests| > 0 ==> "before" in t.requests[0] && t.requests[0]["before"] == p["before"]
  {
    if fuel > 0 {
      QueryRunRequests(p, q, j, fuel, e);
      var p1 := LegacyAdvance(p, q, e.maxPerRequest).0;
      if AddNecArgsLegacy(p1, e.maxPerRequest).Ok? {
        AddNecArgsLegacyKeepsKey(p1, e.maxPerRequest, "before");
      }
    }
  }

  /**
   * The cursor of the older client: every request after the first carries as
   * `before` the `created_utc` of the last record of the previous page.
   */
  lemma {:induction false} LegacyCursorFollowsLastItem(p: Payload, q: Quota, j: nat, fuel: nat, e: QueryEnv)
    ensures CursorChain(QueryRun(p, q, j, fuel, e).requests, j, e.respond)
    decreases fuel
  {
    if fuel > 0 {
      QueryRunRequests(p, q, j, fuel, e);
      var (p1, q1) := LegacyAdvance(p, q, e.maxPerRequest);
      var r := AddNecArgsLegacy(p1, e.maxPerRequest);
      if r.Ok? && QueryContinues(r.value, q1, j, e) {
        var p' := LegacyCursor(r.value, j, e);
        LegacyCursorFollowsLastItem(p', q1, j + 1, fuel - 1, e);
        LegacyFirstRequestKeepsBefore(p', q1, j + 1, fuel - 1, e);
        CursorChainCons(r.value, QueryRun(p', q1, j + 1, fuel - 1, e).requests, j, e.respond);
      }
    }
  }

  /**
   * A `limit` that is neither None nor an integer makes `_query` raise
   * TypeError at its first comparison, before anything is sent.
   */
  lemma QueryRejectsBadLimit(kwargs: Payload, e: QueryEnv, fuel: nat)
    requires fuel > 0 && QuotaOf(kwargs).Err?
    ensures "limit" in kwargs && !kwargs["limit"].VInt? && kwargs["limit"] != VNone
    ensures QuerySpec(kwargs, e, fuel) == Trace([], [], Failed(TypeError))
  {
  }

  /**
   * With `max_retries <= 0`, `_get` never sends and raises UnboundLocalError,
   * so `_query` yields nothing and sends nothing; only a TypeError met
   * earlier, in the limit or the filter, raises first.
   */
  lemma QueryWithoutRetries(kwargs: Payload, e: QueryEnv, fuel: nat)
    requires fuel > 0 && e.maxRetries <= 0
    ensures var t := QuerySpec(kwargs, e, fuel);
            t.out == [] && t.requests == [] && (t.status == Failed(UnboundLocalError) || t.status == Failed(TypeError))
    ensures var m := e.maxPerRequest;
            QuotaOf(kwargs).Ok? &&
            AddNecArgsLegacy(LegacyAdvance(kwargs, QuotaOf(kwargs).value, m).0, m).Ok? ==>
              QuerySpec(kwargs, e, fuel).status == Failed(UnboundLocalError)
  {
    if QuotaOf(kwargs).Ok? {
      QueryRunRequests(kwargs, QuotaOf(kwargs).value, 0, fuel, e);
    }
  }

  /**
   * With a page size `max_results_per_request <= 0` (which the constructor
   * lets through), a limit above the page size is never used up: each turn
   * asks for the page size and the quota does not shrink, so while every
   * page is full the query runs until the fuel is spent.
   */
  lemma {:induction false} LegacyNonPositivePageNeverEnds(p: Payload, n: int, j: nat, fuel: nat, e: QueryEnv)
    requires e.maxPerRequest <= 0 && n > e.maxPerRequest && e.maxRetries >= 1
    requires !Limited(p) && AddNecArgsLegacy(p, e.maxPerRequest).Ok?
    requires forall k: nat, q: Payload :: FullRawPage(e.respond(k, q).data, e)
    ensures var t := QueryRun(p, Remaining(n), j, fuel, e);
            t.status == OutOfFuel && |t.requests| == fuel &&
            forall k :: 0 <= k < fuel ==> "limit" in t.requests[k] && t.requests[k]["limit"] == VInt(e.maxPerRequest)
    decreases fuel
  {
    if fuel > 0 {
      var m := e.maxPerRequest;
      QueryRunRequests(p, Remaining(n), j, fuel, e);
      TurnStaysNormalisable(p, Remaining(n), j, e);
      var p1 := LegacyAdvance(p, Remaining(n), m).0;
      assert p1 == p["limit" := VInt(m)];
      AddNecArgsLegacyKeepsKey(p1, m, "limit");
      var p2 := AddNecArgsLegacy(p1, m).value;
      assert FullRawPage(e.respond(j, p2).data, e);
      var p' := LegacyCursor(p2, j, e);
      LegacyNonPositivePageNeverEnds(p', n - m, j + 1, fuel - 1, e);
      var rest := QueryRun(p', Remaining(n - m), j + 1, fuel - 1, e).requests;
      var t := QueryRun(p, Remaining(n), j, fuel, e).requests;
      assert forall k :: 1 <= k < fuel ==> t[k] == rest[k - 1];
    }
  }

  /**
   * `_query` with a positive `limit` and a page size of zero or less never
   * ends by itself while every page is full.
   */
  lemma QueryWithNonPositivePageNeverEnds(kwargs: Payload, n: int, e: QueryEnv, fuel: nat)
    requires QuotaOf(kwargs) == Ok(Remaining(n)) && n >= 1
    requires e.maxPerRequest <= 0 && e.maxRetries >= 1
    requires !Limited(kwargs) && AddNecArgsLegacy(kwargs, e.maxPerRequest).Ok?
    requires forall k: nat, q: Payload :: FullRawPage(e.respond(k, q).data, e)
    ensures var t := QuerySpec(kwargs, e, fuel);
            t.status == OutOfFuel && |t.requests| == fuel &&
            forall k :: 0 <= k < fuel ==> "limit" in t.requests[k] && t.requests[k]["limit"] == VInt(e.maxPerRequest)
  {
    LegacyNonPositivePageNeverEnds(kwargs, n, 0, fuel, e);
  }

  /**
   * When the local offset cannot be detected, no record is ever wrapped: the
   * walk of a page keeps nothing and ends at its first record, which stops
   * the walk, lacks `created_utc`, or raises the detection's error.
   */
  lemma FailedDetectionKeepsNothing(recs: seq<Record>, kind: string, err: Error, stop: Record -> bool)
    requires recs != []
    ensures var s := ScanRaw(recs, kind, Err(err), stop);
            s.items == [] &&
            (s.end == Stopped <==> stop(recs[0])) &&
            (!stop(recs[0]) && CreatedUtc !in recs[0] ==> s.end == WrapFailed(KeyError(CreatedUtc))) &&
            (!stop(recs[0]) && CreatedUtc in recs[0] ==> s.end == WrapFailed(err))
  {
  }

  /**
   * So a query that is not limited, once detection fails, raises that error
   * on the first record of the first non-empty page unless the stop
   * condition accepts it, having yielded nothing from that page.
   */
  lemma FailedDetectionEndsQuery(p2: Payload, q1: Quota, j: nat, fuel: nat, e: QueryEnv)
    requires fuel > 0 && e.maxRetries >= 1 && !Limited(p2) && e.offset.Err?
    requires var recs := e.respond(j, p2).data;
             recs != [] && !e.stop(recs[0]) && CreatedUtc in recs[0]
    ensures QueryPage(p2, q1, j, fuel, e) == Trace([], [p2], Failed(e.offset.error))
  {
    FailedDetectionKeepsNothing(e.respond(j, p2).data, e.kind, e.offset.error, e.stop);
  }
}
