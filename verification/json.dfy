/** Values of a GraphQL response as Ruby builds them: `nil`, booleans,
    integers, strings, arrays and (insertion-ordered) hashes. */
module JsonValues {
  import opened Hashes

  datatype Json = JNull | JBool(b: bool) | JNum(n: int) | JStr(s: string) | JArr(items: seq<Json>) | JObj(h: Hash<string, Json>)
  {
    /** Ruby truthiness: everything except `nil` and `false`. */
    predicate Truthy() { !JNull? && !(JBool? && !b) }
  }

  /** A one-entry-at-a-time hash literal. */
  function Obj1(k: string, v: Json): (r: Hash<string, Json>)
    ensures r.Valid() && r.keys == [k] && r.Get(k).Some? && r.m[k] == v
  {
    Empty<string, Json>().Put(k, v)
  }

  /** `{ "line" => line, "column" => column }` */
  function LineColumn(line: Json, column: Json): (r: Hash<string, Json>)
    ensures r.Valid() && r.keys == ["line", "column"]
    ensures r.m["line"] == line && r.m["column"] == column
  {
    Obj1("line", line).Put("column", column)
  }
}
