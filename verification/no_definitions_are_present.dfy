/** `StaticValidation::NoDefinitionsArePresent`: an executable document holds
    no type-system definitions or extensions (section 5.1.1 of the GraphQL
    specification, June 2018). */
module NoDefinitionsArePresent {
  import opened ValidationContexts

  /** The kinds of a document's top-level definitions. */
  datatype DefinitionKind =
    | OperationDefinition | FragmentDefinition
    | DirectiveDefinition | SchemaDefinition | ScalarTypeDefinition | ObjectTypeDefinition
    | InputObjectTypeDefinition | InterfaceTypeDefinition | UnionTypeDefinition | EnumTypeDefinition
    | SchemaExtension | ScalarTypeExtension | ObjectTypeExtension | InputObjectTypeExtension
    | InterfaceTypeExtension | UnionTypeExtension | EnumTypeExtension

  /** The fifteen kinds `register_node` is attached to. */
  predicate IsSchemaDefinition(k: DefinitionKind) {
    !k.OperationDefinition? && !k.FragmentDefinition?
  }

  datatype DefinitionNode = DefinitionNode(id: NodeId, kind: DefinitionKind)

  const DefinitionsMessage: string := "Query cannot contain schema definitions"

  /** The schema definitions among `defns`, in document order. */
  function SchemaDefinitionIds(defns: seq<DefinitionNode>): (r: seq<NodeId>)
    ensures |r| <= |defns|
  {
    if defns == [] then []
    else
      var last := defns[|defns| - 1];
      SchemaDefinitionIds(defns[..|defns| - 1]) + (if IsSchemaDefinition(last.kind) then [last.id] else [])
  }

  /** The errors for a document whose top-level definitions are `defns`. */
  function DocumentErrors(defns: seq<DefinitionNode>, path: seq<string>): seq<Message>
  {
    var ids := SchemaDefinitionIds(defns);
    if ids != [] then [Message(DefinitionsMessage, ids, path)] else []
  }

  class NoDefinitionsArePresent {
    /** `schema_definition_nodes` */
    var schemaDefinitionNodes: seq<NodeId>

    constructor()
      ensures schemaDefinitionNodes == []
    {
      schemaDefinitionNodes := [];
    }

    /** `register_node`: collect the node and skip its subtree. */
    method RegisterNode(node: DefinitionNode) returns (action: VisitAction)
      requires IsSchemaDefinition(node.kind)
      modifies this
      ensures schemaDefinitionNodes == old(schemaDefinitionNodes) + [node.id]
      ensures action == Skip
    {
      schemaDefinitionNodes := schemaDefinitionNodes + [node.id];
      action := Skip;
    }

    /** The leave hook of `Document`. */
    method LeaveDocument(ctx: ValidationContext, path: seq<string>)
      modifies ctx
      ensures ctx.errors == old(ctx.errors) +
        (if schemaDefinitionNodes != [] then [Message(DefinitionsMessage, schemaDefinitionNodes, path)] else [])
    {
      if |schemaDefinitionNodes| > 0 {
        ctx.AddError(Message(DefinitionsMessage, schemaDefinitionNodes, path));
      } else {
        assert ctx.errors == ctx.errors + [];
      }
    }
  }

  /** `validate` followed by the visit of the document's definitions: what the
      rule returned for each of them. */
  method Validate(ctx: ValidationContext, defns: seq<DefinitionNode>, path: seq<string>)
    returns (actions: seq<VisitAction>)
    modifies ctx
    ensures ctx.errors == old(ctx.errors) + DocumentErrors(defns, path)
    ensures |actions| == |defns|
    ensures forall i :: 0 <= i < |defns| ==> (actions[i] == Skip <==> IsSchemaDefinition(defns[i].kind))
  {
    var rule := new NoDefinitionsArePresent();
    actions := [];
    for i := 0 to |defns|
      invariant rule.schemaDefinitionNodes == SchemaDefinitionIds(defns[..i])
      invariant ctx.errors == old(ctx.errors)
      invariant |actions| == i
      invariant forall j :: 0 <= j < i ==> (actions[j] == Skip <==> IsSchemaDefinition(defns[j].kind))
    {
      assert defns[..i + 1][..i] == defns[..i];
      var action := Continue;
      if IsSchemaDefinition(defns[i].kind) {
        action := rule.RegisterNode(defns[i]);
      }
      actions := actions + [action];
    }
    assert defns[..|defns|] == defns;
    rule.LeaveDocument(ctx, path);
  }

  /** The collected nodes are exactly the schema definitions and extensions
      of the document. */
  lemma {:induction false} SchemaDefinitionIdsExact(defns: seq<DefinitionNode>, id: NodeId)
    ensures id in SchemaDefinitionIds(defns) <==>
      exists i :: 0 <= i < |defns| && IsSchemaDefinition(defns[i].kind) && defns[i].id == id
  {
    if defns != [] {
      var init := defns[..|defns| - 1];
      SchemaDefinitionIdsExact(init, id);
      assert forall i :: 0 <= i < |init| ==> init[i] == defns[i];
      if exists i :: 0 <= i < |defns| && IsSchemaDefinition(defns[i].kind) && defns[i].id == id {
        var i :| 0 <= i < |defns| && IsSchemaDefinition(defns[i].kind) && defns[i].id == id;
        if i < |init| {
          assert IsSchemaDefinition(init[i].kind) && init[i].id == id;
        }
      }
    }
  }

  /** At most one error per document, listing every schema definition. */
  lemma AtMostOneError(defns: seq<DefinitionNode>, path: seq<string>)
    ensures |DocumentErrors(defns, path)| <= 1
    ensures forall e :: e in DocumentErrors(defns, path) ==> e.nodes == SchemaDefinitionIds(defns) && e.message == DefinitionsMessage
  {
  }

  /** A document is reported iff it holds a schema definition or extension. */
  lemma ReportedIff(defns: seq<DefinitionNode>, path: seq<string>)
    ensures DocumentErrors(defns, path) != [] <==> exists i :: 0 <= i < |defns| && IsSchemaDefinition(defns[i].kind)
  {
    var ids := SchemaDefinitionIds(defns);
    if ids != [] {
      SchemaDefinitionIdsExact(defns, ids[0]);
    }
    if exists i :: 0 <= i < |defns| && IsSchemaDefinition(defns[i].kind) {
      var i :| 0 <= i < |defns| && IsSchemaDefinition(defns[i].kind);
      SchemaDefinitionIdsExact(defns, defns[i].id);
    }
  }
}
