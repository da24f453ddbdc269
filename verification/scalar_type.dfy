/** `ScalarType`: a leaf type whose input and result coercion are
    application-supplied callables. */
module ScalarTypes {
  import opened GraphTypes
  import opened RubyValues
  import opened Wrappers
  import opened InputValidation

  /** A value `coerce_non_null_input` receives: a plain Ruby value, a Ruby
      array, or an AST node for an input object (represented by the hash its
      `to_h` gives, `Nodes::InputObject#to_h` not being part of this model)
      or for an enum value. */
  datatype Input =
    | Plain(v: RValue)
    | Items(items: seq<Input>)
    | InputObjectNode(toH: RValue)
    | EnumNode(name: string)

  /** `raw_coercion_input(value)` */
  function RawCoercionInput(i: Input): (r: RValue)
    ensures i.Plain? ==> r == i.v
    ensures i.InputObjectNode? ==> r == i.toH
    ensures i.EnumNode? ==> r == RStr(i.name)
    ensures i.Items? ==> r.RList? && |r.items| == |i.items|
  {
    match i
    case Plain(v) => v
    case Items(items) => RList(RawItems(i, items))
    case InputObjectNode(h) => h
    case EnumNode(name) => RStr(name)
  }

  function RawItems(parent: Input, items: seq<Input>): (r: seq<RValue>)
    requires forall x :: x in items ==> x < parent
    ensures |r| == |items|
    decreases parent, |items|
  {
    if items == [] then []
    else
      assert items[0] in items && forall x :: x in items[1..] ==> x in items;
      [RawCoercionInput(items[0])] + RawItems(parent, items[1..])
  }

  /** Arrays are mapped element by element, in order. */
  lemma {:induction false} RawItemsAt(parent: Input, items: seq<Input>, k: nat)
    requires forall x :: x in items ==> x < parent
    requires k < |items|
    ensures RawItems(parent, items)[k] == RawCoercionInput(items[k])
    decreases |items|
  {
    if k > 0 {
      assert forall x :: x in items[1..] ==> x in items;
      RawItemsAt(parent, items[1..], k - 1);
    }
  }

  /** The array form of `raw_coercion_input`: element `k` of the result is
      the raw form of element `k`. */
  lemma RawArray(items: seq<Input>, k: nat)
    requires k < |items|
    ensures RawCoercionInput(Items(items)).items[k] == RawCoercionInput(items[k])
  {
    RawItemsAt(Items(items), items, k);
  }

  /** `"Could not coerce value #{serialize(value)} to #{name}"`; `printed` is
      how `Language.serialize` prints the value. */
  function CoercionProblem(printed: string, name: string): Problem {
    Problem("Could not coerce value " + printed + " to " + name, [])
  }

  class ScalarType {
    const name: string
    /** `@coerce_input_proc` and `@coerce_result_proc`; the context argument
        is left out. */
    var coerceInputProc: RValue -> RValue
    var coerceResultProc: RValue -> RValue

    /** `initialize`: both procs are `NoOpCoerce`, the identity. */
    constructor(name: string)
      ensures this.name == name
      ensures forall x :: coerceInputProc(x) == x && coerceResultProc(x) == x
    {
      this.name := name;
      coerceInputProc := x => x;
      coerceResultProc := x => x;
    }

    /** `kind` */
    function Kind(): (k: TypeKind)
      ensures k == SCALAR
    {
      SCALAR
    }

    /** `coerce_input=(fn)`: `nil` leaves the proc as it was. */
    method SetCoerceInput(fn: Option<RValue -> RValue>)
      modifies this
      ensures coerceInputProc == if fn.Some? then fn.value else old(coerceInputProc)
      ensures coerceResultProc == old(coerceResultProc)
    {
      if fn.Some? {
        coerceInputProc := fn.value;
      }
    }

    /** `coerce_result=(fn)`: `nil` leaves the proc as it was. */
    method SetCoerceResult(fn: Option<RValue -> RValue>)
      modifies this
      ensures coerceResultProc == if fn.Some? then fn.value else old(coerceResultProc)
      ensures coerceInputProc == old(coerceInputProc)
    {
      if fn.Some? {
        coerceResultProc := fn.value;
      }
    }

    /** `coerce=(fn)`: sets both procs to the same callable. */
    method SetCoerce(fn: Option<RValue -> RValue>)
      modifies this
      ensures fn.Some? ==> coerceInputProc == fn.value && coerceResultProc == fn.value
      ensures fn.None? ==> coerceInputProc == old(coerceInputProc) && coerceResultProc == old(coerceResultProc)
    {
      SetCoerceInput(fn);
      SetCoerceResult(fn);
    }

    /** `coerce_result(value, ctx)` */
    function CoerceResult(v: RValue): RValue
      reads this
    {
      coerceResultProc(v)
    }

    /** `coerce_non_null_input(value, ctx)` */
    function CoerceNonNullInput(i: Input): RValue
      reads this
    {
      coerceInputProc(RawCoercionInput(i))
    }

    /** `validate_non_null_input(value, ctx)`: one problem exactly when
        coercion gives `nil`. */
    method ValidateNonNullInput(i: Input, printed: string) returns (result: ValidationResult)
      ensures fresh(result)
      ensures CoerceNonNullInput(i).RNil? ==> result.problems == [CoercionProblem(printed, name)]
      ensures !CoerceNonNullInput(i).RNil? ==> result.problems == []
    {
      result := new ValidationResult();
      var coerced := coerceInputProc(RawCoercionInput(i));
      if coerced.RNil? {
        result.AddProblem("Could not coerce value " + printed + " to " + name, []);
      }
    }
  }

  /** A fresh scalar coerces inputs to their raw form: an enum node to its
      name and an array element by element. */
  lemma DefaultCoercion(s: ScalarType, name: string, items: seq<Input>, k: nat)
    requires forall x :: s.coerceInputProc(x) == x
    requires k < |items|
    ensures s.CoerceNonNullInput(EnumNode(name)) == RStr(name)
    ensures s.CoerceNonNullInput(Items(items)).items[k] == RawCoercionInput(items[k])
  {
    RawArray(items, k);
  }
}
