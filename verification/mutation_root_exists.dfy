/** `StaticValidation::MutationRootExists`: a document may hold a mutation
    only when the schema has a mutation root type. */
module MutationRootExists {
  import opened RubyArrays
  import opened ValidationContexts

  /** `operationType` is the keyword the operation was written with. */
  datatype OperationNode = OperationNode(id: NodeId, operationType: string)

  const NotConfiguredMessage: string := "Schema is not configured for mutations"

  predicate IsMutation(op: OperationNode) {
    op.operationType == "mutation"
  }

  /** What the enter hook adds for one operation. */
  function OperationErrors(op: OperationNode, path: seq<string>): seq<Message>
  {
    if IsMutation(op) then [Message(NotConfiguredMessage, [op.id], path)] else []
  }

  /** The errors for the operations of a document; with a mutation root the
      hook is never registered. */
  function DocumentErrors(hasMutationRoot: bool, ops: seq<OperationNode>, path: seq<string>): seq<Message>
  {
    if hasMutationRoot then [] else FlatMap(ops, op => OperationErrors(op, path))
  }

  /** The enter hook of `OperationDefinition`: a mutation is reported and its
      subtree skipped. */
  method EnterOperation(ctx: ValidationContext, op: OperationNode, path: seq<string>) returns (action: VisitAction)
    modifies ctx
    ensures ctx.errors == old(ctx.errors) + OperationErrors(op, path)
    ensures action == Skip <==> IsMutation(op)
  {
    if op.operationType == "mutation" {
      ctx.AddError(Message(NotConfiguredMessage, [op.id], path));
      return Skip;
    }
    assert ctx.errors == ctx.errors + [];
    return Continue;
  }

  /** `validate` followed by the visit of the document's operations: what the
      hook returned for each of them (`Continue` where it is not registered). */
  method Validate(ctx: ValidationContext, hasMutationRoot: bool, ops: seq<OperationNode>, path: seq<string>)
    returns (actions: seq<VisitAction>)
    modifies ctx
    ensures ctx.errors == old(ctx.errors) + DocumentErrors(hasMutationRoot, ops, path)
    ensures |actions| == |ops|
    ensures forall i :: 0 <= i < |ops| ==> (actions[i] == Skip <==> !hasMutationRoot && IsMutation(ops[i]))
  {
    actions := [];
    if hasMutationRoot {
      actions := seq(|ops|, _ => Continue);
      assert ctx.errors == ctx.errors + [];
      return;
    }
    ghost var start := ctx.errors;
    ghost var check := op => OperationErrors(op, path);
    for i := 0 to |ops|
      invariant ctx.errors == start + FlatMap(ops[..i], check)
      invariant |actions| == i
      invariant forall j :: 0 <= j < i ==> (actions[j] == Skip <==> IsMutation(ops[j]))
    {
      ghost var done := FlatMap(ops[..i], check);
      FlatMapSnoc(ops, i, check);
      var action := EnterOperation(ctx, ops[i], path);
      actions := actions + [action];
      AppendAssoc(start, done, check(ops[i]));
    }
    assert ops[..|ops|] == ops;
  }

  /** With a mutation root nothing is ever reported. */
  lemma WithRootNoErrors(ops: seq<OperationNode>, path: seq<string>)
    ensures DocumentErrors(true, ops, path) == []
  {
  }

  /** Without one, there is exactly one error per mutation. */
  lemma OnePerMutation(ops: seq<OperationNode>, path: seq<string>)
    ensures |DocumentErrors(false, ops, path)| == |Filter(ops, IsMutation)|
  {
    FlatMapCount(ops, op => OperationErrors(op, path), IsMutation);
  }

  /** Only mutations are reported: queries and subscriptions are untouched. */
  lemma OnlyMutationsReported(hasMutationRoot: bool, ops: seq<OperationNode>, path: seq<string>, e: Message)
    ensures e in DocumentErrors(hasMutationRoot, ops, path) <==>
      !hasMutationRoot && exists i :: 0 <= i < |ops| && IsMutation(ops[i]) && e == Message(NotConfiguredMessage, [ops[i].id], path)
  {
    FlatMapIn(ops, op => OperationErrors(op, path), e);
  }
}
