/** The error objects that become entries of a response's `"errors"` list:
    `ExecutionError`, `ParseError` and `InvalidNullError`, each with the hash
    its `to_h` builds. */
module ErrorObjects {
  import opened Wrappers
  import opened Hashes
  import opened JsonValues

  /** The source position of an AST node. */
  datatype Position = Position(line: int, col: int)

  /** `GraphQL8::ExecutionError`; `path` is assigned by the executor after
      construction and starts out unset. */
  datatype ExecutionError = ExecutionError(
    message: string,
    astNode: Option<Position>,
    path: Option<seq<Json>>,
    options: Option<Hash<string, Json>>,
    extensions: Option<Hash<string, Json>>)
  {
    /** The hashes given to the constructor are Ruby hashes, and so is an
        `"extensions"` entry of the options when it is a hash. */
    ghost predicate Valid() {
      (options.Some? ==>
        options.value.Valid() &&
        (options.value.Get("extensions").Some? && options.value.m["extensions"].JObj? ==>
          options.value.m["extensions"].h.Valid())) &&
      (extensions.Some? ==> extensions.value.Valid())
    }
  }

  /** `ExecutionError.new(message, ast_node:, options:, extensions:)` */
  function NewExecutionError(message: string, astNode: Option<Position>, options: Option<Hash<string, Json>>,
                             extensions: Option<Hash<string, Json>>): (e: ExecutionError)
    ensures e.message == message && e.astNode == astNode && e.options == options && e.extensions == extensions
    ensures e.path.None?
  {
    ExecutionError(message, astNode, None, options, extensions)
  }

  /** The locations entry for a node at `p`. */
  function Locations(p: Position): Json {
    JArr([JObj(LineColumn(JNum(p.line), JNum(p.col)))])
  }

  /** The keys `to_h` writes are distinct strings. */
  lemma KeysDistinct()
    ensures "message" != "locations" && "message" != "path" && "message" != "extensions"
    ensures "locations" != "path" && "locations" != "extensions" && "path" != "extensions"
  {
    assert "message"[0] == 'm' && "locations"[0] == 'l' && "path"[0] == 'p' && "extensions"[0] == 'e';
  }

  /** The hash before `options` and `extensions` are merged in. */
  function OwnHash(e: ExecutionError): (r: Hash<string, Json>)
    ensures r.Valid() && |r.keys| > 0 && r.keys[0] == "message"
    ensures r.Get("message") == Some(JStr(e.message))
    ensures r.Get("locations") == if e.astNode.Some? then Some(Locations(e.astNode.value)) else None
    ensures r.Get("path") == if e.path.Some? then Some(JArr(e.path.value)) else None
    ensures r.Get("extensions").None?
  {
    var h0 := Obj1("message", JStr(e.message));
    assert h0.Get("path").None? && h0.Get("extensions").None? && h0.Get("locations").None?;
    var h1 := if e.astNode.Some? then h0.Put("locations", Locations(e.astNode.value)) else h0;
    assert h1.Get("message") == Some(JStr(e.message)) && h1.Get("path").None? && h1.Get("extensions").None?;
    if e.path.Some? then h1.Put("path", JArr(e.path.value)) else h1
  }

  /** The hash before `extensions` is merged in. */
  function BaseHash(e: ExecutionError): (r: Hash<string, Json>)
    requires e.Valid()
    ensures r.Valid() && |r.keys| > 0 && r.keys[0] == "message"
    ensures forall k :: r.Get(k) == if e.options.Some? && k in e.options.value.m then e.options.value.Get(k) else OwnHash(e).Get(k)
  {
    var h := OwnHash(e);
    if e.options.Some? then h.Merge(e.options.value) else h
  }

  /** `ExecutionError#to_h`. `hash["extensions"] ||= {}` keeps a truthy
      entry, and `merge!` on one that is not a hash raises. */
  function ToH(e: ExecutionError): (r: Result<Hash<string, Json>, string>)
    requires e.Valid()
    ensures r.Success? ==> r.value.Valid() && |r.value.keys| > 0 && r.value.keys[0] == "message"
    ensures r.Success? ==> forall k :: k != "extensions" ==> r.value.Get(k) == BaseHash(e).Get(k)
  {
    var h := BaseHash(e);
    if e.extensions.None? then Success(h)
    else
      var existing := h.Get("extensions");
      if existing.None? || !existing.value.Truthy() then
        Success(h.Put("extensions", JObj(Empty<string, Json>().Merge(e.extensions.value))))
      else if existing.value.JObj? then
        Success(h.Put("extensions", JObj(existing.value.h.Merge(e.extensions.value))))
      else
        Failure("undefined method `merge!'")
  }

  /** `to_h` fails exactly when extensions are given and the options put a
      truthy non-hash under `"extensions"`. */
  lemma ToHFailure(e: ExecutionError)
    requires e.Valid()
    ensures ToH(e).Failure? <==>
      e.extensions.Some? && e.options.Some? && e.options.value.Get("extensions").Some? &&
      e.options.value.m["extensions"].Truthy() && !e.options.value.m["extensions"].JObj?
  {
  }

  /** `"locations"` holds the node's one position and `"path"` the path,
      unless the options, merged over them at the top level, replace them. */
  lemma ToHEntries(e: ExecutionError)
    requires e.Valid() && ToH(e).Success?
    ensures ToH(e).value.Get("message").Some?
    ensures ToH(e).value.Get("locations").Some? <==> e.astNode.Some? || (e.options.Some? && "locations" in e.options.value.m)
    ensures e.astNode.Some? && (e.options.None? || "locations" !in e.options.value.m) ==>
      ToH(e).value.Get("locations") == Some(Locations(e.astNode.value))
    ensures ToH(e).value.Get("path").Some? <==> e.path.Some? || (e.options.Some? && "path" in e.options.value.m)
    ensures e.path.Some? && (e.options.None? || "path" !in e.options.value.m) ==>
      ToH(e).value.Get("path") == Some(JArr(e.path.value))
    ensures e.options.Some? ==>
      forall k :: k in e.options.value.m && k != "extensions" ==> ToH(e).value.Get(k) == e.options.value.Get(k)
  {
    var r := ToH(e).value;
    assert r.Get("message") == BaseHash(e).Get("message");
    assert r.Get("locations") == BaseHash(e).Get("locations");
    assert r.Get("path") == BaseHash(e).Get("path");
  }

  /** `"extensions"` holds the extensions merged over any hash the options
      put there, and is left as the options made it when there are none. */
  lemma ToHExtensions(e: ExecutionError)
    requires e.Valid() && ToH(e).Success?
    ensures e.extensions.Some? ==>
      ToH(e).value.Get("extensions").Some? && ToH(e).value.m["extensions"].JObj? &&
      forall k :: k in e.extensions.value.m ==> ToH(e).value.m["extensions"].h.Get(k) == e.extensions.value.Get(k)
    ensures e.extensions.None? ==>
      ToH(e).value.Get("extensions") == if e.options.Some? then e.options.value.Get("extensions") else None
  {
  }

  /** `GraphQL8::ParseError` */
  datatype ParseError = ParseError(message: string, line: Option<int>, col: Option<int>, query: Option<string>)

  /** `ParseError.new(message, line, col, query, filename:)` */
  function NewParseError(message: string, line: Option<int>, col: Option<int>, query: Option<string>,
                         filename: Option<string>): (e: ParseError)
    ensures filename.None? ==> e.message == message
    ensures filename.Some? ==> e.message == message + " (" + filename.value + ")"
    ensures e.line == line && e.col == col && e.query == query
  {
    ParseError(if filename.Some? then message + " (" + filename.value + ")" else message, line, col, query)
  }

  /** `ParseError#to_h` */
  function ParseErrorToH(e: ParseError): (r: Hash<string, Json>)
    ensures r.Valid() && r.keys == ["message", "locations"]
    ensures r.m["message"] == JStr(e.message)
    ensures e.line.None? ==> r.m["locations"] == JArr([])
    ensures e.line.Some? ==>
      r.m["locations"] == JArr([JObj(LineColumn(JNum(e.line.value), if e.col.Some? then JNum(e.col.value) else JNull))])
  {
    KeysDistinct();
    var locations := if e.line.Some? then
        [JObj(LineColumn(JNum(e.line.value), if e.col.Some? then JNum(e.col.value) else JNull))]
      else [];
    Obj1("message", JStr(e.message)).Put("locations", JArr(locations))
  }

  /** `GraphQL8::InvalidNullError`: a field returned `nil` (or an
      `ExecutionError`) although its type is non-null. */
  datatype InvalidNullError = InvalidNullError(parentType: string, field: string, value: Json)
  {
    function Message(): (m: string)
      ensures |m| == |NullPrefix| + |parentType| + 1 + |field|
      ensures m[..|NullPrefix|] == NullPrefix
      ensures m[|m| - |field|..] == field
    {
      NullPrefix + parentType + "." + field
    }

    /** `to_h` */
    function ToH(): (r: Hash<string, Json>)
      ensures r.Valid() && r.keys == ["message"] && r.m["message"] == JStr(Message())
    {
      Obj1("message", JStr(Message()))
    }

    /** `parent_error?` (deprecated) */
    function ParentError(): (r: bool)
      ensures !r
    {
      false
    }
  }

  const NullPrefix := "Cannot return null for non-nullable field "

  /** Since GraphQL names contain no `.`, the message identifies the parent
      type and the field. */
  lemma InvalidNullMessageInjective(a: InvalidNullError, b: InvalidNullError)
    requires '.' !in a.parentType && '.' !in b.parentType
    requires a.Message() == b.Message()
    ensures a.parentType == b.parentType && a.field == b.field
  {
    var n := |NullPrefix|;
    assert a.Message()[n..] == a.parentType + "." + a.field;
    assert b.Message()[n..] == b.parentType + "." + b.field;
    SplitAtFirstDot(a.parentType, a.field, b.parentType, b.field);
  }

  lemma SplitAtFirstDot(p: string, f: string, q: string, g: string)
    requires '.' !in p && '.' !in q
    requires p + "." + f == q + "." + g
    ensures p == q && f == g
  {
    var x := p + "." + f;
    assert x[|p|] == '.';
    assert (q + "." + g)[|q|] == '.';
    assert |p| == |q|;
    assert p == x[..|p|];
    assert q == x[..|q|];
    assert f == x[|p| + 1..];
    assert g == (q + "." + g)[|q| + 1..];
  }
}
