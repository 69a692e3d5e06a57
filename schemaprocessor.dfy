/**
  `process_schema`: the version gate in front of `convert_to_v10`. The
  path catalogue it applies is a parameter.
*/
module SchemaProcessor {
  import opened Json
  import opened Rewrite
  import Transform
  import Converter

  /**
    Target `10.0.0` (compared as an exact string) converts the schema with
    the catalogue; any other target returns the schema as it came. The
    current version plays no part in the result.
  */
  method ProcessSchema(currentVersion: string, targetVersion: string, schema: Value, paths: seq<string>)
    returns (r: Result<Value>)
    requires Converter.AllParse(paths)
    ensures targetVersion == "10.0.0" ==> r == Convert(Transform.V10, schema, Converter.ParseAll(paths))
    ensures targetVersion != "10.0.0" ==> r == Ok(schema)
    ensures r.Ok? ==> SameShape(schema, r.value)
  {
    if targetVersion == "10.0.0" {
      r := Converter.ConvertToV10(schema, paths);
    } else {
      r := Ok(schema);
    }
  }
}
