/** The Ruby values that inputs and arguments take, and the argument values
    of a query's AST. */
module RubyValues {
  import opened Hashes

  /** Ruby values that arguments coerce to. `RInput` is an input-object
      instance holding its keyword arguments; `RNullNode` is the AST's
      `NullValue` node itself, which `flatten_ast_value` passes through. */
  datatype RValue =
    | RNil
    | RBool(b: bool)
    | RInt(i: int)
    | RStr(s: string)
    | RList(items: seq<RValue>)
    | RHash(h: Hash<string, RValue>)
    | RInput(typeName: string, args: Hash<string, RValue>)
    | RNullNode

  /** Ruby truthiness: everything but `nil` and `false`. */
  predicate Truthy(v: RValue) {
    !v.RNil? && v != RBool(false)
  }

  /** Argument values in a query's AST. `ALit` is a string, number or boolean
      literal, which the parser keeps as a plain Ruby value. */
  datatype AstValue =
    | AVar(name: string)
    | ANull
    | AEnum(name: string)
    | AInputObject(args: seq<(string, AstValue)>)
    | AList(items: seq<AstValue>)
    | ALit(lit: RValue)
}
