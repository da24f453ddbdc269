/** `StaticValidation::ArgumentsAreDefined`: every argument used is declared
    by the field, directive or input object it is passed to (section 5.4.1
    of the GraphQL specification, June 2018). */
module ArgumentsAreDefined {
  import opened Wrappers
  import opened ArgumentsValidator
  import opened ValidationContexts

  datatype ArgumentNode = ArgumentNode(id: NodeId, name: string)

  /** `KIND 'PARENT' doesn't accept argument 'A'` */
  function UndeclaredMessage(parent: ParentNode, owner: Owner, argumentName: string): string
  {
    NodeType(parent) + " '" + ParentName(parent, owner.name) + "' doesn't accept argument '" + argumentName + "'"
  }

  /** What `validate_node` adds for one argument. */
  function ArgumentErrors(parent: ParentNode, node: ArgumentNode, owner: Owner, path: seq<string>): seq<Message>
  {
    if node.name in owner.argumentNames then []
    else [Message(UndeclaredMessage(parent, owner, node.name), [node.id], path)]
  }

  /** What the hook of `Argument` adds, or the exception it raises. */
  function HookErrors(parent: ParentNode, node: ArgumentNode, scope: ArgumentScope, path: seq<string>): Result<seq<Message>, string>
  {
    match Dispatch(parent, scope)
    case Failure(e) => Failure(e)
    case Success(None) => Success([])
    case Success(Some(owner)) => Success(ArgumentErrors(parent, node, owner, path))
  }

  /** `validate_node`: `SKIP` after reporting an undeclared argument. */
  method ValidateNode(ctx: ValidationContext, parent: ParentNode, node: ArgumentNode, owner: Owner, path: seq<string>)
    returns (action: VisitAction)
    modifies ctx
    ensures ctx.errors == old(ctx.errors) + ArgumentErrors(parent, node, owner, path)
    ensures action == Skip <==> node.name !in owner.argumentNames
  {
    var i := 0;
    while i < |owner.argumentNames| && owner.argumentNames[i] != node.name
      invariant 0 <= i <= |owner.argumentNames|
      invariant forall j :: 0 <= j < i ==> owner.argumentNames[j] != node.name
    {
      i := i + 1;
    }
    if i == |owner.argumentNames| {
      var kindOfNode := NodeType(parent);
      var errorArgName := ParentName(parent, owner.name);
      ctx.AddError(Message(kindOfNode + " '" + errorArgName + "' doesn't accept argument '" + node.name + "'", [node.id], path));
      action := Skip;
    } else {
      assert ctx.errors == ctx.errors + [];
      action := Continue;
    }
  }

  /** The hook `ArgumentsValidator#validate` registers for `Argument`. */
  method EnterArgument(ctx: ValidationContext, parent: ParentNode, node: ArgumentNode, scope: ArgumentScope, path: seq<string>)
    returns (outcome: Outcome, action: VisitAction)
    modifies ctx
    ensures HookErrors(parent, node, scope, path).Success? ==>
      outcome == Returned && ctx.errors == old(ctx.errors) + HookErrors(parent, node, scope, path).value
    ensures HookErrors(parent, node, scope, path).Failure? ==>
      outcome == Raised(HookErrors(parent, node, scope, path).error) && ctx.errors == old(ctx.errors)
    ensures action == Skip <==> HookErrors(parent, node, scope, path).Success? && HookErrors(parent, node, scope, path).value != []
  {
    var owner := Dispatch(parent, scope);
    action := Continue;
    if owner.Failure? {
      return Raised(owner.error), Continue;
    }
    outcome := Returned;
    if owner.value.None? {
      assert ctx.errors == ctx.errors + [];
      return;
    }
    action := ValidateNode(ctx, parent, node, owner.value.value, path);
  }

  /** An argument is reported iff its owner does not declare its name; the
      message names the parent's kind, the parent and the argument. */
  lemma ReportedIffUndeclared(parent: ParentNode, node: ArgumentNode, owner: Owner, path: seq<string>)
    ensures |ArgumentErrors(parent, node, owner, path)| <= 1
    ensures ArgumentErrors(parent, node, owner, path) != [] <==> forall i :: 0 <= i < |owner.argumentNames| ==> owner.argumentNames[i] != node.name
  {
  }

  /** On a field, the message names the field by its alias when it has one. */
  lemma FieldMessage(alias: Option<string>, fieldName: string, node: ArgumentNode, owner: Owner)
    ensures UndeclaredMessage(FieldParent(alias, fieldName), owner, node.name) ==
      "Field" + " '" + alias.GetOr(fieldName) + "' doesn't accept argument '" + node.name + "'"
  {
  }

  /** In an input object, the message names the input object type. */
  lemma InputObjectMessage(node: ArgumentNode, owner: Owner)
    ensures UndeclaredMessage(InputObjectParent, owner, node.name) ==
      "InputObject" + " '" + owner.name + "' doesn't accept argument '" + node.name + "'"
  {
  }
}
