/**
  `convert_to_v10`: the path catalogue applied to a schema, one path after
  the other, each pass rewriting every match of its path.
*/
module Converter {
  import opened Wrappers
  import opened Json
  import opened JsonPath
  import opened Rewrite
  import Transform

  /** Every path of the catalogue is written in the dialect the passes read. */
  predicate AllParse(paths: seq<string>)
  {
    forall i :: 0 <= i < |paths| ==> Parse(paths[i]).Some?
  }

  /** The segments of each path of the catalogue, in order. */
  function ParseAll(paths: seq<string>): (r: seq<seq<Segment>>)
    requires AllParse(paths)
    ensures |r| == |paths| && forall i :: 0 <= i < |paths| ==> Some(r[i]) == Parse(paths[i])
  {
    seq(|paths|, i requires 0 <= i < |paths| => Parse(paths[i]).value)
  }

  /**
    The path loop of `convert_to_v10`: each path is parsed and its pass
    applied to the schema as the previous passes left it. An exception in
    a pass ends the conversion.
  */
  method ConvertToV10(schema: Value, paths: seq<string>) returns (r: Result<Value>)
    requires AllParse(paths)
    ensures r == Convert(Transform.V10, schema, ParseAll(paths))
  {
    ghost var all := ParseAll(paths);
    var current := schema;
    var i := 0;
    assert all[i..] == all;
    while i < |paths|
      invariant 0 <= i <= |paths|
      invariant Convert(Transform.V10, schema, all) == Convert(Transform.V10, current, all[i..])
    {
      var segs := Parse(paths[i]).value;
      assert all[i..][0] == segs && all[i..][1..] == all[i + 1..];
      var next := Pass(Transform.V10, current, segs);
      if next.Err? {
        return Err(next.error);
      }
      current := next.value;
      i := i + 1;
    }
    return Ok(current);
  }

  /** The catalogue entry `$` matches the schema itself, and reading its parent raises AttributeError. */
  lemma RootPathRaises(schema: Value)
    ensures AllParse(["$"])
    ensures Convert(Transform.V10, schema, ParseAll(["$"])) == Err(AttributeError)
    ensures Convert(Transform.Helper, schema, ParseAll(["$"])) == Err(AttributeError)
  {
    assert Parse("$") == Some([]);
    assert ParseAll(["$"]) == [[]];
  }

  /**
    A number, boolean or null at a matched member fails the v10 conversion
    with TypeError, while the helper's processing keeps the schema as it
    was.
  */
  lemma ScalarMember(fields: seq<(string, Value)>, n: string)
    requires n in Keys(fields) && n != ""
    requires var v := Get(fields, n).value; v.Num? || v.Bool? || v.Null?
    ensures Pass(Transform.V10, Obj(fields), [Field(n)]) == Err(TypeError)
    ensures Pass(Transform.Helper, Obj(fields), [Field(n)]) == Ok(Obj(fields))
  {
    PassField(Transform.V10, fields, n);
    PassField(Transform.Helper, fields, n);
    AssignSame(fields, n);
  }
}
