/** `Schema::DefaultTypeError`: the schema's default policy for runtime type
    errors. An invalid null is recorded on the query context; an unresolved
    type or a bad string encoding is raised; anything else is ignored. */
module DefaultTypeError {
  import opened Wrappers
  import opened GraphTypes
  import opened ErrorObjects

  datatype TypeError =
    | InvalidNull(error: InvalidNullError)
    | UnresolvedType(resolved: GType, possible: seq<GType>)
    | StringEncoding(str: string)
    | OtherTypeError

  /** The errors after handling `e`, and the error raised, if any. */
  function Handle(errors: seq<TypeError>, e: TypeError): (r: (seq<TypeError>, Option<TypeError>))
    ensures |errors| <= |r.0| <= |errors| + 1 && r.0[..|errors|] == errors
    ensures |r.0| == |errors| + 1 <==> e.InvalidNull?
    ensures |r.0| == |errors| + 1 ==> r.0[|errors|] == e
    ensures r.1.Some? <==> e.UnresolvedType? || e.StringEncoding?
    ensures r.1.Some? ==> r.1.value == e
  {
    match e
    case InvalidNull(_) => (errors + [e], None)
    case UnresolvedType(_, _) => (errors, Some(e))
    case StringEncoding(_) => (errors, Some(e))
    case OtherTypeError => (errors, None)
  }

  /** The part of a query context that error handling touches. */
  class Context {
    /** `ctx.errors` */
    var errors: seq<TypeError>

    constructor()
      ensures errors == []
    {
      errors := [];
    }

    /** `DefaultTypeError.call(type_error, ctx)`; the result is the error it
        raises, if any. */
    method Call(e: TypeError) returns (raised: Option<TypeError>)
      modifies this
      ensures (errors, raised) == Handle(old(errors), e)
    {
      match e {
        case InvalidNull(_) =>
          errors := errors + [e];
          raised := None;
        case UnresolvedType(_, _) =>
          raised := Some(e);
        case StringEncoding(_) =>
          raised := Some(e);
        case OtherTypeError =>
          raised := None;
      }
    }
  }
}
