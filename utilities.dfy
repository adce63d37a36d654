/**
 * The helpers of `psaw/utilities.py`: field validation over key sets, dict
 * slicing, building search kwargs without None values, peeking at the first
 * item of a generator, and comma-list parsing.
 */
module Utilities {
  import opened Values
  import opened Things

  /**
   * `validate_fields(item, fields)`: the requested fields (all of the item's
   * `d_` keys when `fields` is None) split into those the item has and
   * those it lacks; returns `(final_fields, missing_fields)`.
   */
  function ValidateFields(item: Thing, fields: Option<seq<string>>): (r: (set<string>, set<string>))
    ensures var requested := if fields.None? then item.Raw().Keys else set f | f in fields.value;
            r.0 <= requested && r.1 <= requested
    ensures forall k :: k in r.1 ==> k !in item.Raw()
    ensures forall k :: k in r.0 ==> k in item.Raw()
  {
    var actual := item.Raw().Keys;
    var requested := if fields.None? then actual else set f | f in fields.value;
    (requested * actual, requested - actual)
  }

  /**
   * The two sets partition the requested fields: every requested field is
   * in exactly one of them, present ones in `final`, absent ones in
   * `missing`; without `fields`, nothing is missing and every key of `d_`
   * is kept.
   */
  lemma ValidateFieldsPartition(item: Thing, fields: Option<seq<string>>)
    ensures var (final, missing) := ValidateFields(item, fields);
            var requested := if fields.None? then item.Raw().Keys else set f | f in fields.value;
            && final * missing == {}
            && final + missing == requested
            && (forall k :: k in requested ==> (k in final <==> k in item.Raw()))
            && (fields.None? ==> missing == {} && final == item.Raw().Keys)
            && (fields.Some? ==> forall k :: k in missing <==> k in fields.value && k !in item.Raw())
  {
  }

  /**
   * `peek_first_item(gen)`: the first item, or None when there is none, and
   * a generator that starts with that same value followed by the rest. A
   * generator is modelled by the sequence of values it would yield.
   */
  function PeekFirstItem(gen: seq<Value>): (r: (Value, seq<Value>))
    ensures |r.1| >= 1 && r.1[0] == r.0
  {
    var item := if gen == [] then VNone else gen[0];
    var rest := if gen == [] then [] else gen[1..];
    (item, [item] + rest)
  }

  /**
   * Peeking loses nothing: a non-empty generator is handed back whole, with
   * its first item; an empty one comes back as the single value None.
   */
  lemma PeekKeepsEverything(gen: seq<Value>)
    ensures gen != [] ==> PeekFirstItem(gen) == (gen[0], gen)
    ensures gen == [] ==> PeekFirstItem(gen) == (VNone, [VNone])
  {
    if gen != [] {
      assert [gen[0]] + gen[1..] == gen;
    } else {
      assert [VNone] + [] == [VNone];
    }
  }

  /** `slice_dict(d, keys)`: the entries of `d` whose key is among `keys`. */
  function SliceDict(d: map<string, Value>, keys: seq<string>): (sd: map<string, Value>)
    ensures sd.Keys == (set k | k in keys) * d.Keys
    ensures forall k :: k in sd ==> sd[k] == d[k]
  {
    map k | k in keys && k in d :: d[k]
  }

  /**
   * Slicing keeps a sub-dictionary of `d`, slicing again by the same keys
   * changes nothing, and slicing by all of `d`'s keys gives `d` back.
   */
  lemma SliceDictProperties(d: map<string, Value>, keys: seq<string>, all: seq<string>)
    requires forall k :: k in d ==> k in all
    ensures var sd := SliceDict(d, keys);
            sd.Keys <= d.Keys && SliceDict(sd, keys) == sd
    ensures SliceDict(d, all) == d
  {
  }

  /** What `build_search_kwargs(d, **kwargs)` returns: `d` overridden by the kwargs that are not None. */
  ghost function Overridden(d: map<string, Value>, kwargs: map<string, Value>): map<string, Value>
  {
    map k | k in d.Keys + kwargs.Keys && (k in d || kwargs[k] != VNone) ::
      if k in kwargs && kwargs[k] != VNone then kwargs[k] else d[k]
  }

  /**
   * A key is in the result when `d` has it or a kwarg gives it a value other
   * than None; the kwarg wins when it is not None, otherwise `d`'s entry (or
   * its absence) stays.
   */
  lemma OverriddenSpec(d: map<string, Value>, kwargs: map<string, Value>)
    ensures var nd := Overridden(d, kwargs);
            && (forall k :: k in nd <==> k in d || (k in kwargs && kwargs[k] != VNone))
            && (forall k :: k in kwargs && kwargs[k] != VNone ==> nd[k] == kwargs[k])
            && (forall k :: k in d && (k !in kwargs || kwargs[k] == VNone) ==> nd[k] == d[k])
    ensures Overridden(d, map[]) == d
    ensures Overridden(Overridden(d, kwargs), kwargs) == Overridden(d, kwargs)
  {
  }

  /**
   * `build_search_kwargs(d, **kwargs)`: copy `d`, then set every kwarg whose
   * value is not None. `d` itself is a value here, so it cannot change.
   */
  method BuildSearchKwargs(d: map<string, Value>, kwargs: map<string, Value>) returns (nd: map<string, Value>)
    ensures nd == Overridden(d, kwargs)
  {
    nd := d;
    var todo := kwargs.Keys;
    while todo != {}
      invariant todo <= kwargs.Keys
      invariant forall k :: k in nd <==> k in d || (k in kwargs && k !in todo && kwargs[k] != VNone)
      invariant forall k :: k in nd ==>
                  nd[k] == if k in kwargs && k !in todo && kwargs[k] != VNone then kwargs[k] else d[k]
      decreases todo
    {
      var k :| k in todo;
      if kwargs[k] != VNone {
        nd := nd[k := kwargs[k]];
      }
      todo := todo - {k};
    }
    OverriddenSpec(d, kwargs);
  }

  /** Python's `str.isspace()` for one character: the characters `str.strip()` removes. */
  predicate IsSpace(c: char)
  {
    ('\U{9}' <= c <= '\U{D}') || ('\U{1C}' <= c <= '\U{20}') || c == '\U{85}' || c == '\U{A0}' ||
    c == '\U{1680}' || ('\U{2000}' <= c <= '\U{200A}') || c == '\U{2028}' || c == '\U{2029}' ||
    c == '\U{202F}' || c == '\U{205F}' || c == '\U{3000}'
  }

  /** The number of whitespace characters at the start of `s`. */
  function LeadingSpace(s: string): (n: nat)
    ensures n <= |s|
    ensures forall i :: 0 <= i < n ==> IsSpace(s[i])
    ensures n < |s| ==> !IsSpace(s[n])
  {
    if s != [] && IsSpace(s[0]) then 1 + LeadingSpace(s[1..]) else 0
  }

  /** The number of whitespace characters at the end of `s`. */
  function TrailingSpace(s: string): (n: nat)
    ensures n <= |s|
    ensures forall i :: |s| - n <= i < |s| ==> IsSpace(s[i])
    ensures n < |s| ==> !IsSpace(s[|s| - n - 1])
  {
    if s != [] && IsSpace(s[|s| - 1]) then 1 + TrailingSpace(s[..|s| - 1]) else 0
  }

  /**
   * `str.strip()`: `s` without its leading and trailing whitespace. The
   * result is a piece of `s` that neither starts nor ends with whitespace,
   * and all that was cut off is whitespace.
   */
  function Strip(s: string): (r: string)
    ensures |r| <= |s|
    ensures r == [] || (!IsSpace(r[0]) && !IsSpace(r[|r| - 1]))
  {
    var lead := LeadingSpace(s);
    if lead == |s| then
      assert s == s[0..0] + s[0..|s|];
      s[0..0]
    else
      var t := TrailingSpace(s);
      assert !IsSpace(s[lead]);
      s[lead..|s| - t]
  }

  /** What stripping cuts off on either side is whitespace, and what remains is a piece of `s`. */
  lemma StripCutsOnlySpace(s: string)
    ensures exists i, j :: 0 <= i <= j <= |s| && Strip(s) == s[i..j] &&
              (forall k :: 0 <= k < i ==> IsSpace(s[k])) && (forall k :: j <= k < |s| ==> IsSpace(s[k]))
  {
    var lead := LeadingSpace(s);
    if lead == |s| {
      assert Strip(s) == s[0..0];
    } else {
      assert !IsSpace(s[lead]);
      var t := TrailingSpace(s);
      assert Strip(s) == s[lead..|s| - t];
    }
  }

  /** Stripping twice strips no more than once. */
  lemma StripIdempotent(s: string)
    ensures Strip(Strip(s)) == Strip(s)
  {
    var r := Strip(s);
    if r != [] {
      assert LeadingSpace(r) == 0;
      assert TrailingSpace(r) == 0;
      assert r[0..|r|] == r;
    }
  }

  /** `s.split(',')`: the pieces between the commas, from left to right. */
  function Split(s: string): (pieces: seq<string>)
    ensures |pieces| >= 1
    decreases |s|
  {
    if s == [] then [""]
    else
      var rest := Split(s[1..]);
      if s[0] == ',' then [""] + rest
      else [[s[0]] + rest[0]] + rest[1..]
  }

  /** `','.join(pieces)`. */
  function Join(pieces: seq<string>): string
    requires |pieces| >= 1
    decreases |pieces|
  {
    if |pieces| == 1 then pieces[0] else pieces[0] + "," + Join(pieces[1..])
  }

  function Commas(s: string): nat
  {
    if s == [] then 0 else (if s[0] == ',' then 1 else 0) + Commas(s[1..])
  }

  /**
   * Splitting on commas gives one more piece than there are commas, no piece
   * holds a comma, and joining the pieces with commas gives `s` back.
   */
  lemma {:induction false} SplitSpec(s: string)
    ensures |Split(s)| == Commas(s) + 1
    ensures forall i :: 0 <= i < |Split(s)| ==> ',' !in Split(s)[i]
    ensures Join(Split(s)) == s
    decreases |s|
  {
    if s != [] {
      SplitSpec(s[1..]);
      var rest := Split(s[1..]);
      if s[0] == ',' {
        assert Split(s)[1..] == rest;
        assert s == "" + "," + s[1..];
      } else {
        var pieces := Split(s);
        assert pieces[0] == [s[0]] + rest[0];
        assert pieces[1..] == rest[1..];
        forall i | 1 <= i < |pieces| ensures ',' !in pieces[i] {
          assert pieces[i] == rest[i];
        }
        if |rest| == 1 {
          assert Join(pieces) == [s[0]] + rest[0];
        } else {
          assert Join(pieces) == [s[0]] + rest[0] + "," + Join(rest[1..]);
          assert Join(rest) == rest[0] + "," + Join(rest[1..]);
        }
        assert s == [s[0]] + s[1..];
      }
    }
  }

  /** Splitting what was joined gives back the pieces, when none of them holds a comma. */
  lemma {:induction false} SplitJoin(pieces: seq<string>)
    requires |pieces| >= 1 && forall i :: 0 <= i < |pieces| ==> ',' !in pieces[i]
    ensures Split(Join(pieces)) == pieces
    decreases |pieces|
  {
    if |pieces| == 1 {
      SplitNoComma(pieces[0]);
    } else {
      SplitJoin(pieces[1..]);
      SplitPieceThenComma(pieces[0], Join(pieces[1..]));
      assert [pieces[0]] + pieces[1..] == pieces;
    }
  }

  lemma {:induction false} SplitNoComma(s: string)
    requires ',' !in s
    ensures Split(s) == [s]
    decreases |s|
  {
    if s != [] {
      assert s[0] in s;
      assert forall c :: c in s[1..] ==> c in s;
      SplitNoComma(s[1..]);
      assert [s[0]] + s[1..] == s;
    }
  }

  lemma {:induction false} SplitPieceThenComma(a: string, b: string)
    requires ',' !in a
    ensures Split(a + "," + b) == [a] + Split(b)
    decreases |a|
  {
    if a == [] {
      assert a + "," + b == [','] + b;
      assert (a + "," + b)[1..] == b;
    } else {
      assert a[0] in a;
      assert forall c :: c in a[1..] ==> c in a;
      SplitPieceThenComma(a[1..], b);
      var s := a + "," + b;
      assert s[0] == a[0] && s[1..] == a[1..] + "," + b;
      assert [a[0]] + a[1..] == a;
    }
  }

  /**
   * `string_to_list(s)`: None stays None; otherwise the comma-separated
   * pieces of `s`, each stripped of surrounding whitespace.
   */
  function StringToList(s: Option<string>): (r: Option<seq<string>>)
    ensures s.None? <==> r.None?
    ensures s.Some? ==> (|r.value| == |Split(s.value)| &&
                         forall i :: 0 <= i < |r.value| ==> r.value[i] == Strip(Split(s.value)[i]))
  {
    match s
    case None => None
    case Some(x) =>
      var pieces := Split(x);
      Some(seq(|pieces|, i requires 0 <= i < |pieces| => Strip(pieces[i])))
  }

  /**
   * What `string_to_list` promises: one entry per comma plus one, no entry
   * holding a comma or surrounded by whitespace, and each entry the piece
   * of `s` between its commas with only whitespace removed.
   */
  lemma StringToListSpec(s: string)
    ensures var r := StringToList(Some(s)).value;
            && |r| == Commas(s) + 1
            && (forall i :: 0 <= i < |r| ==> ',' !in r[i])
            && (forall i :: 0 <= i < |r| ==> r[i] == [] || (!IsSpace(r[i][0]) && !IsSpace(r[i][|r[i]| - 1])))
            && (forall i :: 0 <= i < |r| ==> Strip(r[i]) == r[i])
  {
    SplitSpec(s);
    var pieces := Split(s);
    var r := StringToList(Some(s)).value;
    forall i | 0 <= i < |r| ensures ',' !in r[i] && Strip(r[i]) == r[i] {
      StripCutsOnlySpace(pieces[i]);
      var a, b :| 0 <= a <= b <= |pieces[i]| && r[i] == pieces[i][a..b];
      assert forall c :: c in r[i] ==> c in pieces[i];
      StripIdempotent(pieces[i]);
    }
  }

  /** "a, b ,c" splits into "a", " b " and "c". */
  lemma SplitExample(s: string)
    requires s == "a, b ,c"
    ensures Split(s) == ["a", " b ", "c"]
  {
    SplitNoComma("c");
    SplitPieceThenComma(" b ", "c");
    assert " b " + "," + "c" == " b ,c";
    SplitPieceThenComma("a", " b ,c");
    assert "a" + "," + " b ,c" == s;
  }

  /** A string without commas is parsed as itself, stripped. */
  lemma StringToListSingle(s: string)
    requires s == " x "
    ensures StringToList(Some(s)) == Some(["x"])
  {
    SplitNoComma(s);
    StripExample(s, "x");
    var r := StringToList(Some(s)).value;
    assert |r| == 1 && r[0] == Strip(s);
    assert r == ["x"];
  }

  /** A one-letter string padded with at most one space on each side strips to the letter. */
  lemma StripExample(s: string, letter: string)
    requires |letter| == 1 && !IsSpace(letter[0])
    requires s == letter || s == " " + letter + " "
    ensures Strip(s) == letter
  {
    if s != letter {
      assert s[1..] == letter + " " && s[..2] == " " + letter;
      assert LeadingSpace(s[1..]) == 0;
      assert LeadingSpace(s) == 1;
      assert TrailingSpace(s[..2]) == 0;
      assert TrailingSpace(s) == 1;
      assert s[1..2] == letter;
    }
  }
}
