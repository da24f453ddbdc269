/** `Types::Boolean`: the built-in `Boolean` scalar (section 3.5.4 of the
    GraphQL specification, June 2018). */
module BooleanType {
  import opened RubyValues

  /** `coerce_input(value, ctx)`: `true` and `false` pass, anything else
      becomes `nil`. */
  function CoerceInput(v: RValue): (r: RValue)
    ensures r == v <==> v.RBool? || v.RNil?
    ensures r != v ==> r.RNil?
    ensures r.RNil? || r.RBool?
  {
    if v == RBool(true) || v == RBool(false) then v else RNil
  }

  /** `coerce_result(value, ctx)`: `!!value`. */
  function CoerceResult(v: RValue): (r: RValue)
    ensures r.RBool?
    ensures r.b <==> Truthy(v)
  {
    RBool(!v.RNil? && v != RBool(false))
  }

  /** Coercing an input again changes nothing, and a coerced boolean
      serializes back to itself. */
  lemma CoerceInputIdempotent(v: RValue)
    ensures CoerceInput(CoerceInput(v)) == CoerceInput(v)
    ensures CoerceInput(v).RBool? ==> CoerceResult(CoerceInput(v)) == CoerceInput(v)
  {
  }

  /** No string is a boolean input, not even `"true"`, and every string,
      `"false"` included, is a truthy result. */
  lemma StringsRejected(s: string)
    ensures CoerceInput(RStr(s)) == RNil
    ensures CoerceResult(RStr(s)) == RBool(true)
  {
  }
}
