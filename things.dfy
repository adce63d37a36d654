/**
 * Result items: the read-only view `_wrap_thing` builds over one raw record.
 * Both API variants wrap records the same way; they differ only in where the
 * UTC offset comes from.
 */
module Things {
  import opened Values

  const Created: string := "created"
  const RawKey: string := "d_"

  /**
   * The namedtuple `_wrap_thing` returns, held as the record it was built
   * from and the local time `created` that was added to it.
   */
  datatype Thing = Thing(kind: string, record: Record, created: int)
  {
    /** The attribute `d_`: a deep copy of the record with `created` added. */
    function Raw(): map<string, Value>
    {
      record[Created := VInt(created)]
    }

    /** The attributes other than `d_`: every entry of `d_` under its own name. */
    function Fields(): map<string, Value>
    {
      Raw() - {RawKey}
    }
  }

  /** `_epoch_utc_to_local`: shift a UTC epoch by the configured offset. */
  function EpochUtcToLocal(epoch: int, offset: int): (local: int)
    ensures local + offset == epoch
    ensures offset == 0 ==> local == epoch
  {
    epoch - offset
  }

  /** The record's `created_utc` when it is a number Python can subtract from. */
  predicate HasTimestamp(rec: Record)
  {
    CreatedUtc in rec && rec[CreatedUtc].VInt?
  }

  /**
   * `_wrap_thing(thing, kind)`: add `created`, copy the record into `d_`,
   * and expose every key as an attribute. A record without `created_utc`
   * raises KeyError; a non-numeric one raises TypeError.
   */
  function WrapThing(rec: Record, kind: string, offset: int): (r: Result<Thing>)
    ensures r.Ok? <==> HasTimestamp(rec)
    ensures r.Ok? ==> r.value.record == rec
  {
    if CreatedUtc !in rec then Err(KeyError(CreatedUtc))
    else if !rec[CreatedUtc].VInt? then Err(TypeError)
    else Ok(Thing(kind, rec, EpochUtcToLocal(rec[CreatedUtc].i, offset)))
  }

  /**
   * What a wrapped item holds: `created` is `created_utc` shifted by the
   * offset, `d_` holds every original field plus `created`, and the other
   * attributes are those of `d_`. A missing `created_utc` raises KeyError,
   * a non-numeric one TypeError.
   */
  lemma WrapThingSpec(rec: Record, kind: string, offset: int)
    ensures var r := WrapThing(rec, kind, offset);
      && (CreatedUtc !in rec ==> r == Err(KeyError(CreatedUtc)))
      && (CreatedUtc in rec && !rec[CreatedUtc].VInt? ==> r == Err(TypeError))
      && (r.Ok? ==> r.value.kind == kind)
      && (r.Ok? ==> Created in r.value.Fields() && Created in r.value.Raw())
      && (r.Ok? ==> r.value.Fields()[Created] == r.value.Raw()[Created] == VInt(rec[CreatedUtc].i - offset))
      && (r.Ok? ==> r.value.Raw().Keys == rec.Keys + {Created})
      && (r.Ok? ==> forall k :: k in rec && k != Created ==> r.value.Raw()[k] == rec[k])
      && (r.Ok? ==> CreatedUtc in r.value.Fields() && r.value.Fields()[CreatedUtc] == rec[CreatedUtc])
      && (r.Ok? ==> r.value.Fields().Keys == r.value.Raw().Keys - {RawKey})
      && (r.Ok? ==> forall k :: k in r.value.Fields() ==> r.value.Fields()[k] == r.value.Raw()[k])
  {
    assert Created != RawKey && CreatedUtc != RawKey;
  }

  /**
   * For a record without a `d_` key, `d_` deep-equals the record with
   * `created` added and holds no `d_` key of its own; with a zero offset
   * `created` equals `created_utc`.
   */
  lemma WrapRawCopy(rec: Record, kind: string, offset: int)
    requires HasTimestamp(rec) && RawKey !in rec
    ensures RawKey !in WrapThing(rec, kind, offset).value.Raw()
    ensures WrapThing(rec, kind, offset).value.Fields().Keys == rec.Keys + {Created}
    ensures offset == 0 ==>
      WrapThing(rec, kind, offset).value.Fields()[Created] == rec[CreatedUtc]
  {
    assert RawKey != Created;
  }
}
