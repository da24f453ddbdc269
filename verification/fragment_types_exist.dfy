/** `StaticValidation::FragmentTypesExist`: the type condition of a fragment
    names a type of the schema (section 5.5.1.2 of the GraphQL
    specification, June 2018). */
module FragmentTypesExist {
  import opened Wrappers
  import opened RubyArrays
  import opened GraphTypes
  import opened ValidationContexts

  /** The two node kinds the rule hooks into. */
  datatype FragmentKind = FragmentDefinition | InlineFragment

  /** `typeCondition` is `None` for an inline fragment without `on T`. */
  datatype FragmentNode = FragmentNode(id: NodeId, kind: FragmentKind, typeCondition: Option<string>)

  /** `No such type T, so it can't be a fragment condition` */
  function NoSuchTypeMessage(name: string): (r: string)
    ensures |r| == 50 + |name| && r[..13] == "No such type " && r[13..13 + |name|] == name
  {
    "No such type " + name + ", so it can't be a fragment condition"
  }

  /** A type condition naming a type the schema does not show. */
  predicate Missing(node: FragmentNode, types: map<string, TypeDefn>)
  {
    node.typeCondition.Some? && node.typeCondition.value !in types
  }

  /** What the hook adds for one fragment; `types` are the types the
      schema's warden shows. */
  function TypeErrors(node: FragmentNode, types: map<string, TypeDefn>, path: seq<string>): seq<Message>
  {
    match node.typeCondition
    case None => []
    case Some(name) => if name in types then [] else [Message(NoSuchTypeMessage(name), [node.id], path)]
  }

  function DocumentErrors(nodes: seq<FragmentNode>, types: map<string, TypeDefn>, path: seq<string>): seq<Message>
  {
    FlatMap(nodes, node => TypeErrors(node, types, path))
  }

  /** `validate_type_exists` */
  method ValidateTypeExists(ctx: ValidationContext, node: FragmentNode, types: map<string, TypeDefn>, path: seq<string>)
    returns (action: VisitAction)
    modifies ctx
    ensures ctx.errors == old(ctx.errors) + TypeErrors(node, types, path)
    ensures action == Skip <==> Missing(node, types)
  {
    action := Continue;
    if node.typeCondition.None? {
      return;
    }
    var typeName := node.typeCondition.value;
    if typeName !in types {
      ctx.AddError(Message(NoSuchTypeMessage(typeName), [node.id], path));
      action := Skip;
    }
  }

  /** A fragment without a type condition is never reported. */
  lemma NoConditionNoError(node: FragmentNode, types: map<string, TypeDefn>, path: seq<string>)
    requires node.typeCondition.None?
    ensures TypeErrors(node, types, path) == []
  {
  }

  /** One error per fragment whose type condition names a missing type. */
  lemma OnePerMissingType(nodes: seq<FragmentNode>, types: map<string, TypeDefn>, path: seq<string>)
    ensures |DocumentErrors(nodes, types, path)| == |Filter(nodes, node => Missing(node, types))|
  {
    FlatMapCount(nodes, node => TypeErrors(node, types, path), node => Missing(node, types));
  }

  /** Every error names the missing type of a fragment it is about. */
  lemma ErrorsNameMissingType(nodes: seq<FragmentNode>, types: map<string, TypeDefn>, path: seq<string>, e: Message)
    ensures e in DocumentErrors(nodes, types, path) <==>
      exists i :: 0 <= i < |nodes| && Missing(nodes[i], types) &&
        e == Message(NoSuchTypeMessage(nodes[i].typeCondition.value), [nodes[i].id], path)
  {
    FlatMapIn(nodes, node => TypeErrors(node, types, path), e);
  }
}
