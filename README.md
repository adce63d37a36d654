# psaw search clients in Dafny

This project models the search core of psaw, a Python wrapper around the
Pushshift Reddit search API. It covers four pieces:

- **Rate-limit cache** (`src/rate_limit_cache.py`). A sliding window of request timestamps. It evicts entries older than the window, reports whether it is full, computes the wait until the oldest entry leaves, and records new requests.
- **Current client** (`psaw/pushshift_api_minimal.py`). It normalises the payload (`_add_nec_args`), retries with a rate-limit wait (`_impose_rate_limit`, `_get`), and runs the paging generator (`_handle_paging` with `_search`). That generator walks the pages the server returns. It yields wrapped items or one batch per page and moves the `before` cursor to the last item of each full page.
- **Older exported client** (`psaw/PushshiftAPI.py`). It has its own `_add_nec_args`, a fixed-interval `_rate_limit`, a `_get` that unwraps `data`, and the generator `_query` with `search_comments` and `search_submissions`.
- **Helpers** (`psaw/utilities.py`): `validate_fields`, `peek_first_item`, `slice_dict`, `build_search_kwargs` and `string_to_list`.

## Modules

- `values.dfy` (`Values`): payloads and records as maps of JSON values, Python's errors, `_limited`, and Python's `list()`.
- `things.dfy` (`Things`): the item `_wrap_thing` builds, and `_epoch_utc_to_local`.
- `paging.dfy` (`Paging`): traces, quotas and the page plan that both clients follow, plus the cursor chain.
- `rate_limit_cache.dfy` (`RateLimiting`): `RateLimitCache`, a class over a `seq<int>` queue.
- `pushshift_api_minimal.dfy` (`MinimalApi`): the class `PushshiftApiMinimal` and the specification of `_search`.
- `pushshift_api_legacy.dfy` (`LegacyApi`): the class `PushshiftApi` and the specification of `_query`.
- `utilities.dfy` (`Utilities`): the helpers.

### How the generators are modelled

Each generator is a method whose loop mirrors the Python loop one page per turn. The method returns a `Trace`, which holds three things:

- the yielded outputs;
- the payloads sent;
- how the generator ended: by itself, by raising, or when the fuel ran out.

Each method is proved equal to a recursive specification function (`SearchSpec` or `QuerySpec`). The lemmas about the page plan, the cursor and the filter are proved about those functions.

The server is a function `respond(j, payload)`. It gives the body that `_get` finally returns for the `j`-th request. The `fuel` parameter bounds the number of requests, because a search without a limit never ends by itself.

### Where the code and the documentation disagree

The model follows the code.

- Neither client raises on a non-200 status. After the last retry, the last body is used whatever its status.
- `_limited_args = "aggs"` is a string, not a tuple. `_limited` therefore tests for the one-letter keys `a`, `g` and `s`. A payload with `aggs` is not limited.
- A short page does not end the search. Only an empty page, a stop, or a used-up limit does.
- The cursor `before` is the last item's `created_utc` value exactly as the server returned it.

## Model

| member | source | states |
|---|---|---|
| Values.Limited | psaw/pushshift_api_minimal.py:80-82 | a payload is limited iff it has one of the keys `a`, `g`, `s` (the letters of the string `"aggs"`) |
| Values.PyList | psaw/pushshift_api_minimal.py:117-118 | `list(v)`: a string becomes its one-character strings in order, a list or other iterable its elements, anything else raises TypeError |
| Values.Chars | psaw/PushshiftAPI.py:68-69 | iterating a string yields each character as a one-character string, in order |
| Things.EpochUtcToLocal | psaw/pushshift_api_minimal.py:84-85 | the local time plus the offset is the UTC epoch; a zero offset changes nothing |
| Things.WrapThing | psaw/pushshift_api_minimal.py:87-93 | wrapping succeeds iff the record has a numeric `created_utc`, and keeps the record |
| Things.WrapThingSpec | psaw/pushshift_api_minimal.py:87-93 | missing `created_utc` raises KeyError, a non-number TypeError; `created` is `created_utc` minus the offset; `d_` holds every field plus `created`; the attributes are those of `d_` |
| Things.WrapRawCopy | psaw/PushshiftAPI.py:44-50 | `d_` of a record without `d_` holds no `d_` key and has exactly the record's keys plus `created`; with offset 0 `created` equals `created_utc` |
| Paging.QuotaOf | psaw/pushshift_api_minimal.py:137-146 | an absent or None limit is unbounded, an integer limit is the quota, anything else raises TypeError at the first comparison |
| Paging.PlanSum | psaw/pushshift_api_minimal.py:140-152 | the page sizes requested add up to the caller's limit |
| Paging.PlanShape | psaw/pushshift_api_minimal.py:140-152 | every page but the last is full, the last is the remainder, and a non-positive limit is sent once as is |
| Paging.PlanCount | psaw/pushshift_api_minimal.py:140-152 | a positive limit takes ceil(limit / page size) requests |
| Paging.PlanExample | psaw/pushshift_api_minimal.py:140-152 | a limit of 25 with pages of 10 is asked for as 10, 10, 5 |
| RateLimiting.Evicted | src/rate_limit_cache.py:18-23 | eviction leaves a suffix of the queue whose oldest entry is within the window, and drops only entries older than the window |
| RateLimiting.EvictedSortedWithin | src/rate_limit_cache.py:18-23 | on a time-ordered queue eviction keeps the order, leaves only entries within the window, and is idempotent |
| RateLimiting.RecordKeepsSorted | src/rate_limit_cache.py:39-43 | recording a timestamp no older than the last keeps the queue time-ordered |
| RateLimiting.BlockedUntilOldestAges | src/rate_limit_cache.py:25-29 | a full cache stays blocked while its oldest entry is inside the window, and empties once all entries have aged out |
| RateLimiting.WindowWait | src/rate_limit_cache.py:31-37 | the wait is never negative, is the whole window on an empty cache, and otherwise is what remains until the oldest entry leaves |
| RateLimiting.RateLimitCache.constructor | src/rate_limit_cache.py:6-9 | stores the capacity and the window and starts with an empty queue |
| RateLimiting.RateLimitCache.Delta | src/rate_limit_cache.py:11-16 | the age of the oldest entry, or 0 when the cache is empty |
| RateLimiting.RateLimitCache.Update | src/rate_limit_cache.py:18-23 | the queue becomes its eviction at `now` |
| RateLimiting.RateLimitCache.Blocked | src/rate_limit_cache.py:25-29 | evicts, then answers whether the queue is at capacity |
| RateLimiting.RateLimitCache.Interval | src/rate_limit_cache.py:31-37 | evicts, then returns the window minus the oldest entry's age, or 0 when that is not positive |
| RateLimiting.RateLimitCache.New | src/rate_limit_cache.py:39-43 | on a full cache raises "blocked" and records nothing; otherwise appends `now`, staying within capacity |
| MinimalApi.FilterElements | psaw/pushshift_api_minimal.py:114-118 | a list filter is kept, a string becomes a one-element list, another iterable its elements, anything else raises TypeError |
| MinimalApi.WithCreatedUtc | psaw/pushshift_api_minimal.py:119-120 | the filter then contains `created_utc`, appended only when it was absent |
| MinimalApi.AddNecArgs | psaw/pushshift_api_minimal.py:106-120 | a limited payload is left alone; the only error is TypeError |
| MinimalApi.AddNecArgsSpec | psaw/pushshift_api_minimal.py:106-120 | fails iff a non-limited payload has a non-iterable filter; keeps an existing limit, defaults a missing one to the page size; the filter keeps its elements and gains `created_utc`; no other key changes |
| MinimalApi.AddNecArgsKeepsKey | psaw/pushshift_api_minimal.py:106-120 | a key other than `filter` keeps its value |
| MinimalApi.AddNecArgsIdempotent | psaw/pushshift_api_minimal.py:147 | normalising the already normalised payload before each request changes nothing, and leaves a filter as a list holding `created_utc` |
| MinimalApi.AddNecArgsOkAfterAssign | psaw/pushshift_api_minimal.py:189 | setting a multi-letter key other than `filter` (such as `before`) does not change whether normalisation succeeds |
| MinimalApi.AggsAloneNotLimited | psaw/pushshift_api_minimal.py:15 | a payload whose only key is `aggs` is not limited, while `a` or `s` alone is |
| MinimalApi.RateLimitWait | psaw/pushshift_api_minimal.py:98-102 | the wait is the larger of the blocked interval and `backoff * nth`, capped at `max_sleep` |
| MinimalApi.AdvanceFollowsPlan | psaw/pushshift_api_minimal.py:140-146 | the quota step asks for the first size of the page plan, leaves the rest of the plan, and changes only `limit` |
| MinimalApi.ScanPageSpec | psaw/pushshift_api_minimal.py:169-182 | the kept items are the page's first records wrapped in order, none satisfying `stop`; the walk ends at the page end, at the first stopping item, or at the first unwrappable record |
| MinimalApi.ScanPageAppend | psaw/pushshift_api_minimal.py:170-182 | walking a page in two pieces is walking it whole |
| MinimalApi.PageCutShort | psaw/pushshift_api_minimal.py:161-176 | with no attempt allowed the search raises UnboundLocalError before sending; otherwise an empty page ends the search with nothing yielded; a stop ends it after the items (or the partial batch) before it; an unwrappable record raises after the items before it (no batch) |
| MinimalApi.Cursor | psaw/pushshift_api_minimal.py:187-189 | after a full page the next payload is the sent one with `before` set to the `created_utc` of the page's last record |
| MinimalApi.SearchRunRequests | psaw/pushshift_api_minimal.py:140-189 | one turn sends the normalised payload, and either ends there or goes on from the cursor; a failed normalisation, or `max_retries <= 0`, sends nothing and raises |
| MinimalApi.CursorNormalised | psaw/pushshift_api_minimal.py:147 | the payload with the cursor set still normalises to itself and keeps its `limit` |
| MinimalApi.LimitsFollowPlan | psaw/pushshift_api_minimal.py:136-152 | with a limit of `n`, the requests' limits follow the page plan of `n` and never outnumber it |
| MinimalApi.FullPagesRunWholePlan | psaw/pushshift_api_minimal.py:136-152 | with at least one attempt per request and full pages, a limit of `n` sends exactly one request per plan entry and ends by itself |
| MinimalApi.UnboundedNeverEnds | psaw/pushshift_api_minimal.py:136-152 | without a limit and with full pages the search sends one request per unit of fuel, each with the same limit |
| MinimalApi.SearchFollowsPlan | psaw/pushshift_api_minimal.py:154-189 | `_search` with a limit: the requests follow the plan, and with at least one attempt and full pages the whole plan is sent and the search ends by itself |
| MinimalApi.SearchWithoutLimitNeverEnds | psaw/pushshift_api_minimal.py:154-189 | `_search` without a limit and with full pages never ends by itself; every request asks for a full page |
| MinimalApi.FirstRequestKeepsBefore | psaw/pushshift_api_minimal.py:157 | a caller's `before` reaches the first request unchanged |
| MinimalApi.CursorFollowsLastItem | psaw/pushshift_api_minimal.py:187-189 | every request after the first carries as `before` the `created_utc` of the last record of the previous page |
| MinimalApi.SearchRejectsBadLimit | psaw/pushshift_api_minimal.py:137-142 | a `limit` that is neither None nor an integer raises TypeError before anything is sent |
| MinimalApi.SearchWithoutRetries | psaw/pushshift_api_minimal.py:128-134 | with `max_retries <= 0` the search yields nothing, sends nothing, and raises UnboundLocalError unless the limit or the filter raised TypeError first |
| MinimalApi.NonPositivePageNeverEnds | psaw/pushshift_api_minimal.py:140-152 | with a page size of zero or less, a limit above it never runs out: with full pages one request per unit of fuel, each with the same `limit` |
| MinimalApi.SearchWithNonPositivePageNeverEnds | psaw/pushshift_api_minimal.py:136-152 | `_search` with a positive limit and a page size of zero or less never ends by itself over full pages; every request asks for the page size |
| MinimalApi.PushshiftApiMinimal.constructor | psaw/pushshift_api_minimal.py:26-57 | stores the configuration and builds an empty rate-limit cache with a 60-second window |
| MinimalApi.PushshiftApiMinimal.UtcOffsetSecs | psaw/pushshift_api_minimal.py:63-78 | an explicit or memoised offset wins; otherwise the detected offset (0 when detection fails or is off); the answer is memoised |
| MinimalApi.PushshiftApiMinimal.ImposeRateLimit | psaw/pushshift_api_minimal.py:95-104 | evicts the cache, then sleeps the capped larger of the blocked interval and the backoff, or not at all |
| MinimalApi.PushshiftApiMinimal.Get | psaw/pushshift_api_minimal.py:122-134 | at most `max_retries` attempts, stopping at the first 200; the last body is returned whatever its status; no attempt raises UnboundLocalError; every sleep is bounded and the cache only shrinks |
| MinimalApi.PushshiftApiMinimal.WrapWithOffset | psaw/pushshift_api_minimal.py:87-93 | wraps with the resolved offset, reading `created_utc` before the offset is resolved |
| MinimalApi.PushshiftApiMinimal.ScanItems | psaw/pushshift_api_minimal.py:165-185 | the loop over one page keeps exactly what the page walk keeps and yields the items, or the batch (partial on a stop, none after a failed wrap) |
| MinimalApi.PushshiftApiMinimal.Prepare | psaw/pushshift_api_minimal.py:140-147 | the quota step and then normalisation of `self.payload` |
| MinimalApi.PushshiftApiMinimal.Conclude | psaw/pushshift_api_minimal.py:151-189 | after a page, a stop or a failed wrap ends the search; a full page sets the cursor and goes on unless the quota is spent |
| MinimalApi.PushshiftApiMinimal.HandlePage | psaw/pushshift_api_minimal.py:161-189 | sending and walking one page is that page's part of the search specification |
| MinimalApi.PushshiftApiMinimal.Turn | psaw/pushshift_api_minimal.py:140-189 | one loop turn is one step of the search specification |
| MinimalApi.PushshiftApiMinimal.Search | psaw/pushshift_api_minimal.py:154-189 | the generator's trace is the search specification of the kwargs |
| LegacyApi.FilterList | psaw/PushshiftAPI.py:68-69 | a list or tuple filter keeps its elements, a string becomes its one-character strings in order, anything else raises TypeError |
| LegacyApi.AddNecArgsLegacy | psaw/PushshiftAPI.py:60-70 | a limited payload is left alone; the only error is TypeError |
| LegacyApi.AddNecArgsLegacySpec | psaw/PushshiftAPI.py:60-70 | fails iff a filter must be listed and is not iterable; keeps or defaults the limit; appends `created_utc` to the listed filter (a string filter becomes its characters) only when no `created_utc` parameter is set; no other key changes |
| LegacyApi.AddNecArgsLegacyAppendsAgain | psaw/PushshiftAPI.py:67-70 | normalising again appends a second `created_utc`: the older normalisation is not idempotent |
| LegacyApi.AddNecArgsLegacyKeepsKey | psaw/PushshiftAPI.py:60-70 | a key other than `filter` keeps its value |
| LegacyApi.AddNecArgsLegacyStaysOk | psaw/PushshiftAPI.py:60-70 | setting a multi-letter key other than `filter` or `created_utc` (the limit, the cursor) keeps normalisation possible, and normalising its own output succeeds again |
| LegacyApi.LegacyInterval | psaw/PushshiftAPI.py:54-55 | the interval is exactly the larger of `rate_limit` and `backoff * nth`, capped at `max_sleep` |
| LegacyApi.RateLimitSleep | psaw/PushshiftAPI.py:53-57 | sleeps only when the elapsed time is short of the interval, exactly enough to reach it |
| LegacyApi.SpacingAtLeastOnePerAttempt | psaw/PushshiftAPI.py:18 | with `rate_limit >= 1` (the constructor's assertion) and `max_sleep >= 1`, `n` attempts take at least `n` seconds |
| LegacyApi.LegacyAdvance | psaw/PushshiftAPI.py:93-99 | without a limit nothing changes; with one, `limit` is set on the payload and nothing else |
| LegacyApi.LegacyAdvanceFollowsPlan | psaw/PushshiftAPI.py:93-99 | the step asks for the first plan size of what remains, leaves the rest of the plan, and the quota reaches 0 exactly on the last size |
| LegacyApi.ScanRawSpec | psaw/PushshiftAPI.py:109-114 | the kept items are the first records wrapped, none satisfying `stop`; the walk ends at the page end, at the first record satisfying `stop` (tested before wrapping), or at the first unwrappable record |
| LegacyApi.ScanRawAppend | psaw/PushshiftAPI.py:109-114 | walking a page in two pieces is walking it whole |
| LegacyApi.LimitedQueryYieldsBody | psaw/PushshiftAPI.py:101-105 | a limited query sends one request and yields the whole response body as its only output, or raises UnboundLocalError without sending when `max_retries <= 0` |
| LegacyApi.RawPageCutShort | psaw/PushshiftAPI.py:107-114 | with no attempt allowed the query raises UnboundLocalError before sending; otherwise an empty page ends the query; a record satisfying `stop` ends it even when it could not be wrapped; an unwrappable record raises |
| LegacyApi.LegacyCursor | psaw/PushshiftAPI.py:115 | after a full page the next payload is the sent one with `before` set to the last record's `created_utc` |
| LegacyApi.QueryRunRequests | psaw/PushshiftAPI.py:93-117 | one turn sends the normalised payload and either ends there or goes on from the cursor; a failed normalisation, or `max_retries <= 0`, sends nothing and raises |
| LegacyApi.TurnStaysNormalisable | psaw/PushshiftAPI.py:93-115 | a payload that is not limited and normalises stays so after the quota step, after normalisation and after the cursor moves |
| LegacyApi.LegacyLimitsFollowPlan | psaw/PushshiftAPI.py:89-117 | with a limit of `n`, the requests' limits follow the page plan of `n` and never outnumber it |
| LegacyApi.LegacyFullPagesRunWholePlan | psaw/PushshiftAPI.py:89-117 | with full pages, a limit of `n` sends one request per plan entry and ends by itself |
| LegacyApi.LegacyUnboundedNeverEnds | psaw/PushshiftAPI.py:92-117 | without a limit and with full pages the query runs until the fuel is spent |
| LegacyApi.QueryFollowsPlan | psaw/PushshiftAPI.py:88-117 | `_query` with a limit follows the page plan, sending it whole when every page is full |
| LegacyApi.QueryWithoutLimitNeverEnds | psaw/PushshiftAPI.py:88-117 | `_query` without a limit and with full pages never ends by itself |
| LegacyApi.FirstRequestFilter | psaw/PushshiftAPI.py:66-70 | the first request's filter is the listed filter with one `created_utc` appended |
| LegacyApi.FilterGrowsEachRequest | psaw/PushshiftAPI.py:66-70 | each later request's filter is the previous one's with one more `created_utc` |
| LegacyApi.QueryFilterGrows | psaw/PushshiftAPI.py:88-117 | over a whole `_query`, every request's filter grows by one `created_utc` over the previous one |
| LegacyApi.LegacyFirstRequestKeepsBefore | psaw/PushshiftAPI.py:90 | a caller's `before` reaches the first request unchanged |
| LegacyApi.LegacyCursorFollowsLastItem | psaw/PushshiftAPI.py:109-115 | every request after the first carries as `before` the `created_utc` of the previous page's last record |
| LegacyApi.WrapLegacy | psaw/PushshiftAPI.py:41-46 | a missing `created_utc` raises KeyError first, then a failed offset detection its error, then a non-number TypeError; with an offset it is the current wrap |
| LegacyApi.QueryRejectsBadLimit | psaw/PushshiftAPI.py:89-94 | a `limit` that is neither None nor an integer raises TypeError before anything is sent |
| LegacyApi.QueryWithoutRetries | psaw/PushshiftAPI.py:75-81 | with `max_retries <= 0` the query yields nothing, sends nothing, and raises UnboundLocalError unless the limit or the filter raised TypeError first |
| LegacyApi.LegacyNonPositivePageNeverEnds | psaw/PushshiftAPI.py:93-117 | with a page size of zero or less, a limit above it never runs out: with full pages one request per unit of fuel, each asking for the page size |
| LegacyApi.QueryWithNonPositivePageNeverEnds | psaw/PushshiftAPI.py:88-117 | `_query` with a positive limit and a page size of zero or less never ends by itself over full pages |
| LegacyApi.FailedDetectionKeepsNothing | psaw/PushshiftAPI.py:109-114 | once offset detection fails, a page walk keeps nothing and ends at the first record: a stop, KeyError, or the detection's error |
| LegacyApi.FailedDetectionEndsQuery | psaw/PushshiftAPI.py:107-114 | a query that is not limited raises the detection error on the first page's first record, unless `stop` accepts it or it lacks `created_utc` |
| LegacyApi.PushshiftApi.constructor | psaw/PushshiftAPI.py:11-28 | its assertions become preconditions; stores the configuration, no previous request time and no offset |
| LegacyApi.PushshiftApi.UtcOffsetSecs | psaw/PushshiftAPI.py:30-35 | a memoised offset wins unless it is None or 0, in which case the offset is detected again; a detected offset is memoised, while a detection error propagates and memoises nothing |
| LegacyApi.PushshiftApi.RateLimit | psaw/PushshiftAPI.py:52-58 | sleeps what is missing to the interval and stamps the request, so it is at least one interval after the previous one |
| LegacyApi.PushshiftApi.Get | psaw/PushshiftAPI.py:72-86 | normalises first (raising before any request); at most `max_retries` attempts stopping at the first 200; returns the last body's `data`, or the whole body when limited; no attempt raises UnboundLocalError; the attempts are spaced by their intervals |
| LegacyApi.PushshiftApi.WrapWithOffset | psaw/PushshiftAPI.py:44-50 | wraps with the resolved offset: a missing `created_utc` raises KeyError before the offset is resolved, and a detection error raises before the subtraction |
| LegacyApi.PushshiftApi.WalkPage | psaw/PushshiftAPI.py:109-114 | the loop over one page yields exactly the items the page walk keeps |
| LegacyApi.PushshiftApi.Conclude | psaw/PushshiftAPI.py:109-117 | after a page, a stop or a failed wrap ends the query; a full page sets the cursor and goes on unless the quota is 0 |
| LegacyApi.PushshiftApi.HandlePage | psaw/PushshiftAPI.py:101-117 | sending and walking one page is that page's part of the query specification |
| LegacyApi.PushshiftApi.Turn | psaw/PushshiftAPI.py:92-117 | one loop turn is one step of the query specification |
| LegacyApi.PushshiftApi.Query | psaw/PushshiftAPI.py:88-117 | the generator's trace is the query specification of the kwargs |
| LegacyApi.PushshiftApi.SearchComments | psaw/PushshiftAPI.py:121-122 | the query with kind `comment` and the kwargs unchanged |
| LegacyApi.PushshiftApi.SearchSubmissions | psaw/PushshiftAPI.py:118-119 | the query with kind `submission` and the kwargs unchanged |
| Utilities.ValidateFields | psaw/utilities.py:4-23 | both sets are subsets of the requested fields; the missing ones are absent from `d_`, the final ones present |
| Utilities.ValidateFieldsPartition | psaw/utilities.py:12-23 | final and missing partition the requested fields by presence in `d_`; without `fields` nothing is missing |
| Utilities.PeekFirstItem | psaw/utilities.py:26-41 | the returned generator starts with the returned item |
| Utilities.PeekKeepsEverything | psaw/utilities.py:34-41 | a non-empty generator comes back whole with its first item; an empty one as the single value None |
| Utilities.SliceDict | psaw/utilities.py:44-56 | the keys are those both requested and present, with `d`'s values |
| Utilities.SliceDictProperties | psaw/utilities.py:44-56 | the slice is a sub-dictionary, slicing again changes nothing, slicing by all keys gives `d` |
| Utilities.OverriddenSpec | psaw/utilities.py:59-75 | a key is present iff `d` has it or a kwarg gives it a non-None value; non-None kwargs win; no kwargs gives `d`; applying twice equals once |
| Utilities.BuildSearchKwargs | psaw/utilities.py:70-75 | the loop's result is `d` overridden by the non-None kwargs |
| Utilities.Strip | psaw/utilities.py:87 | the stripped string is no longer and neither starts nor ends with whitespace |
| Utilities.StripCutsOnlySpace | psaw/utilities.py:87 | the stripped string is a piece of the input, and everything cut off is whitespace |
| Utilities.StripIdempotent | psaw/utilities.py:87 | stripping twice equals stripping once |
| Utilities.Split | psaw/utilities.py:87 | splitting gives at least one piece |
| Utilities.SplitSpec | psaw/utilities.py:87 | one more piece than commas, no piece contains a comma, and joining with commas gives the input back |
| Utilities.SplitExample | psaw/utilities.py:87 | "a, b ,c" splits into "a", " b ", "c" |
| Utilities.StringToList | psaw/utilities.py:78-88 | None stays None; otherwise each entry is the stripped piece between commas |
| Utilities.StringToListSpec | psaw/utilities.py:86-88 | one entry per comma plus one; no entry contains a comma or has surrounding whitespace |
| Utilities.StringToListSingle | psaw/utilities.py:86-88 | " x " becomes the one-element list "x" |

## Left out

- Network, JSON parsing and the clock are parameters: the server is `respond` (or `status`/`bodies` in `Get`), `time.time()` is `now`/`clock`, and `time.sleep` is the returned sleep, taken to last exactly as asked.
- Inside `Search` and `Query` a request is `respond(j, payload)`. The retry loop and its rate-limit wait are modelled separately in each client's `Get`, and the traces do not record sleeps. What the retry loop decides for the search is kept: with `max_retries <= 0` the first request raises UnboundLocalError before anything is sent (`SearchWithoutRetries`, `QueryWithoutRetries`).
- Local timezone detection is the `detected` parameter. In the current client it is the detected offset, or None when detection raised ValueError, which is caught. In the older client it is a `Result`, and a ValueError from detection propagates out of `_wrap_thing`. The detection is taken to give the same answer for the whole run of a generator.
- `MinimalApi.PushshiftApiMinimal.constructor`: when `rate_limit_per_minute` is None the constructor fetches the server's limit from the `meta` endpoint; the model takes the limit as a given value. `domain`, `base_url` and the URL formatting are not modelled.
- `MinimalApi.PushshiftApiMinimal.ImposeRateLimit`: the `hasattr(self, "_rlcache")` guard only matters during the constructor's meta fetch, which is not modelled. The cache always exists here.
- `MinimalApi.PushshiftApiMinimal.Get`: it does not model `if not payload: payload = {}`, because the payload only becomes URL parameters, which are not modelled.
- `Things.WrapThing`: the namedtuple is modelled as the record plus `created`. The in-place mutation of the raw record (adding `created` and `d_`) is not modelled, because the generators never read a record again after wrapping it. Records whose keys are not valid identifiers, which `namedtuple` would reject, are not modelled.
- A response body without `data` (KeyError in both clients) is not modelled: every `Response` has a `data` sequence.
- Float and boolean values of `limit` and `created_utc` are not modelled. A number is an `int`, and `created_utc - offset` is exact.
- Nothing calls `RateLimitCache.new` from the clients, so the cache never fills by itself. `RateLimiting.RateLimitCache.New` is modelled on its own.
- The fuel bound: the model cannot express a generator that runs forever. A search without a limit, over full pages, ends with `OutOfFuel` after `fuel` requests.
- `MinimalApi.PushshiftApiMinimal.Search`: interleaving is not modelled. The current client keeps the running query in `self.payload`, which `_handle_paging` reads again each time it resumes. So two `_search` generators on one client that are consumed alternately share one payload, and each sends the other's filter, limit and cursor. The model runs each search alone from start to end. The older client's `_query` works on a local copy and has no such sharing.
- `MinimalApi.PushshiftApiMinimal.Get`: each sleep is stated only as bounded by 0 and `max_sleep`. Its exact value is the contract of `ImposeRateLimit`, which `Pace` calls. `Pace` does not restate it, so that the eviction stays out of the retry loop's proof.
- Both constructors accept `max_results_per_request <= 0`. The page plan (`Plan`) is defined only for a positive page size. For the other case, `NonPositivePageNeverEnds` and `LegacyNonPositivePageNeverEnds` state what the code does: a positive limit never runs out, so the generator pages until the server returns an empty page.
- Laziness: the trace of a generator is its whole run. A consumer that stops iterating early sees a prefix of the outputs, and fewer requests are sent.
- The unused counter `n` of the older `_query` is not modelled.
- `Utilities.IsSpace`: it is the whitespace set of `str.isspace()`, written out as code point ranges.
- `Utilities.PeekFirstItem`: a generator is the sequence of values it would yield. A generator whose first item is `None` cannot be told from an empty one; this is as in the source.
- `DummyProgressBar` in `psaw/utilities.py`, `psaw/psaw.py`, `psaw/writers.py` and `psaw/pushshift_api.py` are not part of this model.
- Python's `stop_condition(**thing)` in the older client is a predicate on the raw record, and the current client's `stop_condition(thing)` a predicate on the wrapped item. `search_comments` and `search_submissions` take the stop condition as a separate parameter rather than inside kwargs.
