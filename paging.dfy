/**
 * How a total `limit` is split into per-request page sizes. Both API variants
 * walk the same schedule: full pages of `max_results_per_request` while more
 * than a page remains, then one page with what is left.
 */
module Paging {
  import opened Values
  import opened Things

  /** What a search generator yields: one item, one page as a batch, or a whole response. */
  datatype Output = Item(thing: Thing) | Batch(things: seq<Thing>) | Whole(response: Response)

  /** How a search generator ended: by itself, by raising, or cut off by the fuel bound. */
  datatype Status = Finished | Failed(error: Error) | OutOfFuel

  /** Everything a consumer observes of one search: what was yielded and which requests were sent. */
  datatype Trace = Trace(out: seq<Output>, requests: seq<Payload>, status: Status)

  /** How the walk over one page's records ended. */
  datatype ScanEnd = Completed | Stopped | WrapFailed(error: Error)

  /** The items of one page that were wrapped and passed, and how the walk ended. */
  datatype Scan = Scan(items: seq<Thing>, end: ScanEnd)

  /** A trace that first yields `out` and sends `requests`, then continues as `rest`. */
  function Then(out: seq<Output>, requests: seq<Payload>, rest: Trace): Trace
  {
    Trace(out + rest.out, requests + rest.requests, rest.status)
  }

  /** Yielding nothing first changes nothing; yielding in two steps is yielding the concatenation. */
  lemma ThenAssociates(out: seq<Output>, requests: seq<Payload>, out2: seq<Output>, requests2: seq<Payload>, rest: Trace)
    ensures Then([], [], rest) == rest
    ensures Then(out, requests, Then(out2, requests2, rest)) == Then(out + out2, requests + requests2, rest)
  {
    assert [] + rest.out == rest.out && [] + rest.requests == rest.requests;
    assert out + (out2 + rest.out) == (out + out2) + rest.out;
    assert requests + (requests2 + rest.requests) == (requests + requests2) + rest.requests;
  }

  /** What one turn of the paging loop leads to: the generator ends, or it goes on with the next payload. */
  datatype Step =
    | Done(out: seq<Output>, requests: seq<Payload>, status: Status)
    | Next(out: seq<Output>, request: Payload, payload: Payload, quota: Quota)

  function Items(things: seq<Thing>): (r: seq<Output>)
    ensures |r| == |things| && forall i :: 0 <= i < |things| ==> r[i] == Item(things[i])
  {
    if things == [] then [] else [Item(things[0])] + Items(things[1..])
  }

  lemma ItemsAppend(things: seq<Thing>, t: Thing)
    ensures Items(things + [t]) == Items(things) + [Item(t)]
  {
  }

  /** What is left of the caller's `limit`; `Unbounded` when none was given. */
  datatype Quota = Unbounded | Remaining(n: int)

  /**
   * `limit = kwargs.get("limit", None)`. Absent or None means no limit; any
   * other non-number makes the first `limit > max_results_per_request`
   * comparison raise TypeError. (Booleans, which Python compares as 0 and 1,
   * are not modelled.)
   */
  function QuotaOf(kwargs: Payload): (r: Result<Quota>)
    ensures r == Ok(Unbounded) <==> "limit" !in kwargs || kwargs["limit"] == VNone
    ensures r.Ok? && r.value.Remaining? <==> "limit" in kwargs && kwargs["limit"].VInt?
    ensures r.Ok? && r.value.Remaining? ==> r.value.n == kwargs["limit"].i
    ensures r.Err? ==> r.error == TypeError
  {
    if "limit" !in kwargs || kwargs["limit"] == VNone then Ok(Unbounded)
    else if kwargs["limit"].VInt? then Ok(Remaining(kwargs["limit"].i))
    else Err(TypeError)
  }

  /** The page sizes requested for a total of `limit` with pages of `m`. */
  function Plan(limit: int, m: int): (sizes: seq<int>)
    requires m >= 1
    decreases limit
  {
    if limit > m then [m] + Plan(limit - m, m) else [limit]
  }

  function Sum(s: seq<int>): int
  {
    if s == [] then 0 else s[0] + Sum(s[1..])
  }

  /** The requested sizes add up to the caller's limit, whatever its sign. */
  lemma {:induction false} PlanSum(limit: int, m: int)
    requires m >= 1
    ensures Sum(Plan(limit, m)) == limit
    decreases limit
  {
    if limit > m {
      PlanSum(limit - m, m);
      assert Plan(limit, m)[1..] == Plan(limit - m, m);
    }
  }

  /**
   * Every request but the last asks for a full page; the last asks for what
   * remains, `limit - (k-1)*m`; a limit of at most zero is sent once as is.
   */
  lemma {:induction false} PlanShape(limit: int, m: int)
    requires m >= 1
    ensures |Plan(limit, m)| >= 1
    ensures forall i :: 0 <= i < |Plan(limit, m)| - 1 ==> Plan(limit, m)[i] == m
    ensures Plan(limit, m)[|Plan(limit, m)| - 1] == limit - (|Plan(limit, m)| - 1) * m
    ensures limit <= 0 ==> Plan(limit, m) == [limit]
    ensures limit >= 1 ==> forall i :: 0 <= i < |Plan(limit, m)| ==> 1 <= Plan(limit, m)[i] <= m
    decreases limit
  {
    if limit > m {
      PlanShape(limit - m, m);
      var rest := Plan(limit - m, m);
      assert Plan(limit, m) == [m] + rest;
      assert forall i :: 1 <= i < |rest| + 1 ==> Plan(limit, m)[i] == rest[i - 1];
    }
  }

  /**
   * For a positive limit the number k of requests is ceil(limit / m), stated
   * without division: (k-1)*m < limit <= k*m.
   */
  lemma {:induction false} PlanCount(limit: int, m: int)
    requires m >= 1 && limit >= 1
    ensures (|Plan(limit, m)| - 1) * m < limit <= |Plan(limit, m)| * m
    decreases limit
  {
    if limit > m {
      PlanCount(limit - m, m);
      var k := |Plan(limit - m, m)|;
      assert |Plan(limit, m)| == k + 1;
      assert (k + 1) * m == k * m + m;
    }
  }

  /** limit = 25 with pages of 10 is asked for as 10, 10, 5. */
  lemma PlanExample()
    ensures Plan(25, 10) == [10, 10, 5]
    ensures Plan(5, 10) == [5]
  {
    assert Plan(5, 10) == [5];
    assert Plan(15, 10) == [10, 5];
  }

  /** The `limit` of each request is the corresponding size of the plan, and there are no more requests than sizes. */
  ghost predicate LimitsFollow(requests: seq<Payload>, plan: seq<int>)
  {
    |requests| <= |plan| &&
    forall k :: 0 <= k < |requests| ==> "limit" in requests[k] && requests[k]["limit"] == VInt(plan[k])
  }

  lemma LimitsFollowCons(a: Payload, rest: seq<Payload>, plan: seq<int>)
    requires plan != [] && "limit" in a && a["limit"] == VInt(plan[0])
    requires LimitsFollow(rest, plan[1..])
    ensures LimitsFollow([a] + rest, plan)
  {
    var requests := [a] + rest;
    forall k | 1 <= k < |requests| ensures requests[k] == rest[k - 1] && plan[k] == plan[1..][k - 1] {
    }
  }

  /**
   * Request `b` carries as `before` the `created_utc` of the last record of
   * the page the server answered request `a`, sent as number `idx`, with.
   */
  ghost predicate CursorAfter(a: Payload, b: Payload, idx: nat, respond: (nat, Payload) -> Response)
  {
    var recs := respond(idx, a).data;
    recs != [] && CreatedUtc in recs[|recs| - 1] && "before" in b && b["before"] == recs[|recs| - 1][CreatedUtc]
  }

  /** Every request after the first one, sent as number `j + k`, follows the page of the one before it. */
  ghost predicate CursorChain(requests: seq<Payload>, j: nat, respond: (nat, Payload) -> Response)
  {
    forall k :: 0 <= k < |requests| - 1 ==> CursorAfter(requests[k], requests[k + 1], j + k, respond)
  }

  lemma CursorChainCons(a: Payload, rest: seq<Payload>, j: nat, respond: (nat, Payload) -> Response)
    requires CursorChain(rest, j + 1, respond)
    requires rest != [] ==> CursorAfter(a, rest[0], j, respond)
    ensures CursorChain([a] + rest, j, respond)
  {
    var requests := [a] + rest;
    forall k | 0 <= k < |requests| - 1 ensures CursorAfter(requests[k], requests[k + 1], j + k, respond) {
      if k > 0 {
        assert requests[k] == rest[k - 1] && requests[k + 1] == rest[k];
        assert CursorAfter(rest[k - 1], rest[k], (j + 1) + (k - 1), respond);
      }
    }
  }
}
