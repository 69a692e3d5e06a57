/**
  The schema service: `transform_json_schema` applies the entries of a
  path catalogue with the helper's processing, and `convert_schema`
  filters the catalogue and applies it when the target version is
  10.0.0.

  A catalogue entry is a JSON object such as
  `{"json_path": "$.title", "description": "..."}`; some entries also
  carry an `additional_context` list.
*/
module SchemaService {
  import opened Wrappers
  import opened Json
  import opened JsonPath
  import opened Rewrite
  import Transform

  /** The version whose schemas the service produces by rewriting. */
  const TargetV10: string := "10.0.0"

  /** An entry the transform applies: an object with a `json_path` member. */
  predicate Applied(entry: Value)
  {
    entry.Obj? && "json_path" in Keys(entry.fields)
  }

  /** The applied entries hold a path in the dialect the passes read. */
  predicate PathsParse(entries: seq<Value>)
  {
    forall i :: 0 <= i < |entries| ==> Applied(entries[i]) ==>
      var p := Get(entries[i].fields, "json_path").value;
      p.Str? && Parse(p.s).Some?
  }

  /** The segments of the applied entries, in catalogue order; the other entries are skipped. */
  function Selected(entries: seq<Value>): (r: seq<seq<Segment>>)
    requires PathsParse(entries)
    ensures |r| <= |entries|
  {
    if entries == [] then []
    else
      assert PathsParse(entries[1..]) by {
        assert forall i :: 0 <= i < |entries[1..]| ==> entries[1..][i] == entries[i + 1];
      }
      var rest := Selected(entries[1..]);
      if Applied(entries[0]) then [Parse(Get(entries[0].fields, "json_path").value.s).value] + rest
      else rest
  }

  lemma PathsParseTail(entries: seq<Value>)
    requires entries != [] && PathsParse(entries)
    ensures PathsParse(entries[1..])
  {
    assert forall i :: 0 <= i < |entries[1..]| ==> entries[1..][i] == entries[i + 1];
  }

  /** The path of an applied entry. */
  function PathOf(entry: Value): seq<Segment>
    requires Applied(entry)
    requires var p := Get(entry.fields, "json_path").value; p.Str? && Parse(p.s).Some?
  {
    Parse(Get(entry.fields, "json_path").value.s).value
  }

  /**
    One round of the entry loop: an applied entry runs its pass and the
    loop goes on from the result, any other entry is skipped.
  */
  lemma TransformStep(entries: seq<Value>, i: nat, current: Value)
    requires i < |entries| && PathsParse(entries[i..])
    ensures PathsParse(entries[i + 1..])
    ensures Applied(entries[i]) ==>
              var p := Get(entries[i].fields, "json_path").value; p.Str? && Parse(p.s).Some?
    ensures Applied(entries[i]) ==>
              Convert(Transform.Helper, current, Selected(entries[i..]))
              == match Pass(Transform.Helper, current, PathOf(entries[i]))
                 case Err(e) => Err(e)
                 case Ok(w) => Convert(Transform.Helper, w, Selected(entries[i + 1..]))
    ensures !Applied(entries[i]) ==>
              Convert(Transform.Helper, current, Selected(entries[i..])) == Convert(Transform.Helper, current, Selected(entries[i + 1..]))
  {
    var es := entries[i..];
    assert es[0] == entries[i] && es[1..] == entries[i + 1..];
    PathsParseTail(es);
    if Applied(entries[i]) {
      var segs := PathOf(entries[i]);
      assert Selected(es) == [segs] + Selected(es[1..]);
      assert ([segs] + Selected(es[1..]))[1..] == Selected(es[1..]);
    }
  }

  /**
    The loop of `transform_json_schema`: an entry that is not an object
    with a `json_path` member is skipped; for any other, its path is
    parsed and its pass applied to the schema as the earlier entries left
    it.
  */
  method TransformJsonSchema(schema: Value, entries: seq<Value>) returns (r: Result<Value>)
    requires PathsParse(entries)
    ensures r == Convert(Transform.Helper, schema, Selected(entries))
  {
    var current := schema;
    var i := 0;
    assert entries[i..] == entries;
    while i < |entries|
      invariant 0 <= i <= |entries|
      invariant PathsParse(entries[i..])
      invariant Convert(Transform.Helper, schema, Selected(entries)) == Convert(Transform.Helper, current, Selected(entries[i..]))
    {
      var entry := entries[i];
      TransformStep(entries, i, current);
      if entry.Obj? && "json_path" in Keys(entry.fields) {
        var segs := Parse(Get(entry.fields, "json_path").value.s).value;
        var next := Pass(Transform.Helper, current, segs);
        if next.Err? {
          return Err(next.error);
        }
        current := next.value;
      }
      i := i + 1;
    }
    return Ok(current);
  }

  // ---------------------------------------------------------------------
  // convert_schema

  /** An entry every member of which is a string. */
  predicate StringEntry(entry: Value)
  {
    entry.Obj? && forall i :: 0 <= i < |entry.fields| ==> entry.fields[i].1.Str?
  }

  /** The catalogue filter of `convert_schema`: the entries whose members are all strings, in order. */
  function StringEntries(catalogue: seq<Value>): (r: seq<Value>)
    ensures |r| <= |catalogue|
  {
    if catalogue == [] then []
    else if StringEntry(catalogue[0]) then [catalogue[0]] + StringEntries(catalogue[1..])
    else StringEntries(catalogue[1..])
  }

  /** The filter keeps exactly the string entries of the catalogue. */
  lemma {:induction false} StringEntriesMembers(catalogue: seq<Value>)
    ensures forall e :: e in StringEntries(catalogue) <==> e in catalogue && StringEntry(e)
  {
    if catalogue != [] {
      StringEntriesMembers(catalogue[1..]);
      assert catalogue == [catalogue[0]] + catalogue[1..];
    }
  }

  /**
    The filter works entry by entry: the kept entries of a joined
    catalogue are those of the first part, then those of the second, each
    in catalogue order and with its repeats.
  */
  lemma {:induction false} StringEntriesAppend(a: seq<Value>, b: seq<Value>)
    ensures StringEntries(a + b) == StringEntries(a) + StringEntries(b)
  {
    if a == [] {
      assert a + b == b;
    } else {
      assert (a + b)[0] == a[0] && (a + b)[1..] == a[1..] + b;
      StringEntriesAppend(a[1..], b);
      if StringEntry(a[0]) {
        assert [a[0]] + (StringEntries(a[1..]) + StringEntries(b))
               == ([a[0]] + StringEntries(a[1..])) + StringEntries(b);
      }
    }
  }

  /** A catalogue of string entries only is kept whole, in order. */
  lemma {:induction false} StringEntriesKeepAll(catalogue: seq<Value>)
    requires forall i :: 0 <= i < |catalogue| ==> StringEntry(catalogue[i])
    ensures StringEntries(catalogue) == catalogue
  {
    if catalogue != [] {
      assert StringEntry(catalogue[0]);
      assert forall i :: 1 <= i < |catalogue| ==> catalogue[1..][i - 1] == catalogue[i];
      StringEntriesKeepAll(catalogue[1..]);
      assert [catalogue[0]] + catalogue[1..] == catalogue;
    }
  }

  /** Filtering a filtered catalogue changes nothing. */
  lemma {:induction false} StringEntriesIdempotent(catalogue: seq<Value>)
    ensures StringEntries(StringEntries(catalogue)) == StringEntries(catalogue)
  {
    if catalogue != [] {
      StringEntriesIdempotent(catalogue[1..]);
      if StringEntry(catalogue[0]) {
        assert ([catalogue[0]] + StringEntries(catalogue[1..]))[1..] == StringEntries(catalogue[1..]);
      }
    }
  }

  /** An entry carrying an `additional_context` list is never applied. */
  lemma AdditionalContextDropped(catalogue: seq<Value>, e: Value, k: string, items: seq<Value>)
    requires e.Obj? && (k, Arr(items)) in e.fields
    ensures e !in StringEntries(catalogue)
  {
    StringEntriesMembers(catalogue);
    var i :| 0 <= i < |e.fields| && e.fields[i] == (k, Arr(items));
  }

  /** The catalogue paths parse after filtering. */
  predicate CatalogueParses(catalogue: seq<Value>)
  {
    forall e :: e in catalogue && StringEntry(e) && "json_path" in Keys(e.fields) ==>
      var p := Get(e.fields, "json_path").value; p.Str? ==> Parse(p.s).Some?
  }

  lemma FilteredPathsParse(catalogue: seq<Value>)
    requires CatalogueParses(catalogue)
    ensures PathsParse(StringEntries(catalogue))
  {
    StringEntriesMembers(catalogue);
    var f := StringEntries(catalogue);
    forall i | 0 <= i < |f| && Applied(f[i])
      ensures Get(f[i].fields, "json_path").value.Str?
    {
      assert f[i] in f;
      var j :| 0 <= j < |f[i].fields| && f[i].fields[j].0 == "json_path";
      GetFirst(f[i].fields, "json_path");
    }
  }

  /** The value `Get` finds is the one of some member with that key. */
  lemma {:induction false} GetFirst(fields: seq<(string, Value)>, k: string)
    requires k in Keys(fields)
    ensures exists j :: 0 <= j < |fields| && fields[j] == (k, Get(fields, k).value)
  {
    if fields[0].0 != k {
      KeysCons(fields[0], fields[1..]);
      assert [fields[0]] + fields[1..] == fields;
      GetFirst(fields[1..], k);
      var j :| 0 <= j < |fields[1..]| && fields[1..][j] == (k, Get(fields[1..], k).value);
      assert fields[j + 1] == fields[1..][j];
    } else {
      assert fields[0] == (k, Get(fields, k).value);
    }
  }

  /**
    `convert_schema`: for target 10.0.0 the string entries of the
    catalogue are applied to (a copy of) the schema; for any other target
    the schema is returned as it is. The current version plays no part.
  */
  method ConvertSchema(currentVersion: string, targetVersion: string, schema: Value, catalogue: seq<Value>)
    returns (r: Result<Value>)
    requires CatalogueParses(catalogue)
    ensures PathsParse(StringEntries(catalogue))
    ensures targetVersion == TargetV10 ==> r == Convert(Transform.Helper, schema, Selected(StringEntries(catalogue)))
    ensures targetVersion != TargetV10 ==> r == Ok(schema)
    ensures r.Ok? ==> SameShape(schema, r.value)
  {
    FilteredPathsParse(catalogue);
    var extractable := StringEntries(catalogue);
    if targetVersion == TargetV10 {
      r := TransformJsonSchema(schema, extractable);
    } else {
      r := Ok(schema);
    }
  }
}
