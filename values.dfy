/**
 * The values the search client passes around: query payloads (keyword
 * arguments turned into URL parameters), the raw records of a server
 * response and the errors Python would raise on them.
 */
module Values {

  datatype Option<+T> = None | Some(value: T)

  /** The Python exceptions the modelled code can raise. */
  datatype Error =
    | TypeError          // list() of a non-iterable, `limit > n` on a non-number, arithmetic on a non-number
    | KeyError(key: string)
    | UnboundLocalError  // `response` read after a retry loop that never ran
    | CacheBlocked       // "RateLimitCache is blocked."
    | ValueError         // the local timezone offset could not be determined

  datatype Result<+T> = Ok(value: T) | Err(error: Error)

  /**
   * A JSON / Python value as it appears in a payload or a record.
   * VTuple stands for every iterable that is not a list or a string
   * (tuple, set, generator): `list()` turns it into its elements.
   */
  datatype Value =
    | VNone
    | VBool(b: bool)
    | VInt(i: int)
    | VStr(s: string)
    | VList(items: seq<Value>)
    | VTuple(items: seq<Value>)

  /** Query parameters (the `**kwargs` of a search). */
  type Payload = map<string, Value>

  /** One raw record of the `data` array of a response. */
  type Record = map<string, Value>

  /** A parsed response body: its `data` array and every other top-level field. */
  datatype Response = Response(data: seq<Record>, meta: map<string, Value>)

  const CreatedUtc: string := "created_utc"

  /** `_limited_args = "aggs"` is a plain string, not a one-element tuple. */
  const LimitedArgs: string := "aggs"

  /**
   * `any(arg in payload for arg in self._limited_args)`: iterating the
   * string "aggs" yields the single characters a, g, g, s.
   */
  predicate Limited(p: Payload)
    ensures Limited(p) <==> "a" in p || "g" in p || "s" in p
  {
    assert [LimitedArgs[0]] == "a" && [LimitedArgs[1]] == "g" && [LimitedArgs[3]] == "s";
    exists i :: 0 <= i < |LimitedArgs| && [LimitedArgs[i]] in p
  }

  /** Iterating a Python string: each character as a one-character string. */
  function Chars(s: string): (r: seq<Value>)
    ensures |r| == |s| && forall i :: 0 <= i < |s| ==> r[i] == VStr([s[i]])
  {
    if s == [] then [] else [VStr([s[0]])] + Chars(s[1..])
  }

  /** Python's `list(v)` for a value that is not already a list. */
  function PyList(v: Value): (r: Result<seq<Value>>)
    ensures r.Err? <==> !(v.VStr? || v.VList? || v.VTuple?)
    ensures r.Err? ==> r.error == TypeError
    ensures v.VStr? ==> r.Ok? && |r.value| == |v.s|
    ensures v.VStr? ==> forall i :: 0 <= i < |v.s| ==> r.value[i] == VStr([v.s[i]])
    ensures (v.VList? || v.VTuple?) ==> r == Ok(v.items)
  {
    match v
    case VStr(s) => Ok(Chars(s))
    case VList(items) => Ok(items)
    case VTuple(items) => Ok(items)
    case _ => Err(TypeError)
  }
}
