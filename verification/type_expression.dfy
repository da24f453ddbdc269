/** `Schema::TypeExpression.build_type`: the schema type named by an AST type
    reference, looked up in the schema's type map. */
module TypeExpression {
  import opened Wrappers
  import opened GraphTypes

  /** AST type references; `OtherNode` is any other node. */
  datatype TypeNode = TypeName(name: string) | NonNullTypeNode(ofType: TypeNode) | ListTypeNode(ofType: TypeNode) | OtherNode

  datatype Wrapping = WrapNonNull | WrapList

  /** `wrap_type(type, wrapper)`: `nil` stays `nil`. */
  function WrapType(t: Option<GType>, w: Wrapping): (r: Option<GType>)
    ensures r.Some? <==> t.Some?
    ensures r.Some? ==> r.value == (if w == WrapNonNull then NonNull(t.value) else ListOf(t.value))
  {
    match t
    case None => None
    case Some(inner) => Some(if w == WrapNonNull then NonNull(inner) else ListOf(inner))
  }

  /** `build_type(types, ast_node)`: a type is built only around a name the
      type map holds, with the reference's wrappers in order. */
  function BuildType(types: map<string, TypeDefn>, node: TypeNode): (r: Option<GType>)
    ensures r.Some? ==>
      InnerName(node).Some? && InnerName(node).value in types &&
      Unwrap(r.value) == types[InnerName(node).value] && TypeWrappers(r.value) == NodeWrappers(node)
  {
    match node
    case TypeName(name) => if name in types then Some(Named(types[name])) else None
    case NonNullTypeNode(inner) => WrapType(BuildType(types, inner), WrapNonNull)
    case ListTypeNode(inner) => WrapType(BuildType(types, inner), WrapList)
    case OtherNode => None
  }

  /** The wrappers of an AST reference, outermost first, and the name inside. */
  function NodeWrappers(node: TypeNode): seq<Wrapping> {
    match node
    case NonNullTypeNode(inner) => [WrapNonNull] + NodeWrappers(inner)
    case ListTypeNode(inner) => [WrapList] + NodeWrappers(inner)
    case _ => []
  }

  function InnerName(node: TypeNode): Option<string> {
    match node
    case TypeName(name) => Some(name)
    case NonNullTypeNode(inner) => InnerName(inner)
    case ListTypeNode(inner) => InnerName(inner)
    case OtherNode => None
  }

  /** The wrappers of a schema type, outermost first. */
  function TypeWrappers(t: GType): seq<Wrapping> {
    match t
    case Named(_) => []
    case NonNull(inner) => [WrapNonNull] + TypeWrappers(inner)
    case ListOf(inner) => [WrapList] + TypeWrappers(inner)
  }

  /** The result is `nil` exactly when the innermost name is missing from the
      type map (or the reference holds a node of another kind); otherwise it
      has the reference's wrappers in the same order around the looked-up
      named type. */
  lemma {:induction false} BuildTypeShape(types: map<string, TypeDefn>, node: TypeNode)
    ensures BuildType(types, node).None? <==> InnerName(node).None? || InnerName(node).value !in types
    ensures BuildType(types, node).Some? ==>
      TypeWrappers(BuildType(types, node).value) == NodeWrappers(node) &&
      Unwrap(BuildType(types, node).value) == types[InnerName(node).value]
  {
    match node
    case TypeName(_) =>
    case OtherNode =>
    case NonNullTypeNode(inner) => BuildTypeShape(types, inner);
    case ListTypeNode(inner) => BuildTypeShape(types, inner);
  }
}
