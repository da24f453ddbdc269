/** `StaticValidation::VariableDefaultValuesAreCorrectlyTyped`: a variable's
    default value must be a valid literal of its type, and a non-null
    variable may not have one (section 5.7.2 of the GraphQL specification,
    October 2016). */
module VariableDefaultValuesAreCorrectlyTyped {
  import opened Wrappers
  import opened RubyArrays
  import opened RubyValues
  import opened GraphTypes
  import opened TypeExpression
  import opened ValidationContexts

  datatype VariableDefinitionNode = VariableDefinitionNode(id: NodeId, name: string, typeNode: TypeNode, defaultValue: Option<AstValue>)

  /** What `context.valid_literal?(value, type)` does: return true or
      false, or raise `CoercionError` (with a message) or
      `LiteralValidationError`. */
  datatype LiteralCheck = Valid | Invalid | CoercionError(message: string) | LiteralValidationError

  function NonNullMessage(name: string): string
  {
    "Non-null variable $" + name + " can't have a default value"
  }

  function MismatchMessage(name: string, t: GType): string
  {
    "Default value for $" + name + " doesn't match type " + Signature(t)
  }

  /** The text of the error for a literal that did not check, if any:
      a `CoercionError`'s own message, the mismatch text otherwise. */
  function LiteralErrorMessage(node: VariableDefinitionNode, t: GType, check: LiteralCheck): Option<string>
  {
    match check
    case Valid => None
    case CoercionError(msg) => Some(msg)
    case _ => Some(MismatchMessage(node.name, t))
  }

  /** What `validate_default_value` adds for a definition with a default;
      `types` is the schema's type map and `validLiteral` the literal
      check. */
  function DefaultValueErrors(node: VariableDefinitionNode, types: map<string, TypeDefn>,
                              validLiteral: (AstValue, GType) -> LiteralCheck, path: seq<string>): seq<Message>
    requires node.defaultValue.Some?
  {
    if node.typeNode.NonNullTypeNode? then [Message(NonNullMessage(node.name), [node.id], path)]
    else match BuildType(types, node.typeNode)
      case None => []
      case Some(t) =>
        match LiteralErrorMessage(node, t, validLiteral(node.defaultValue.value, t))
        case None => []
        case Some(msg) => [Message(msg, [node.id], path)]
  }

  /** What the hook adds for any variable definition. */
  function DefinitionErrors(node: VariableDefinitionNode, types: map<string, TypeDefn>,
                            validLiteral: (AstValue, GType) -> LiteralCheck, path: seq<string>): seq<Message>
  {
    if node.defaultValue.None? then [] else DefaultValueErrors(node, types, validLiteral, path)
  }

  /** The hook of `VariableDefinition`. */
  method EnterVariableDefinition(ctx: ValidationContext, node: VariableDefinitionNode, types: map<string, TypeDefn>,
                                 validLiteral: (AstValue, GType) -> LiteralCheck, path: seq<string>)
    modifies ctx
    ensures ctx.errors == old(ctx.errors) + DefinitionErrors(node, types, validLiteral, path)
  {
    if node.defaultValue.Some? {
      ValidateDefaultValue(ctx, node, types, validLiteral, path);
    } else {
      assert ctx.errors == ctx.errors + [];
    }
  }

  /** `validate_default_value`: `valid` and `error_message` are set across
      the rescue clauses, then at most one error is added. */
  method ValidateDefaultValue(ctx: ValidationContext, node: VariableDefinitionNode, types: map<string, TypeDefn>,
                              validLiteral: (AstValue, GType) -> LiteralCheck, path: seq<string>)
    requires node.defaultValue.Some?
    modifies ctx
    ensures ctx.errors == old(ctx.errors) + DefaultValueErrors(node, types, validLiteral, path)
  {
    var value := node.defaultValue.value;
    if node.typeNode.NonNullTypeNode? {
      ctx.AddError(Message(NonNullMessage(node.name), [node.id], path));
      return;
    }
    var t := BuildType(types, node.typeNode);
    if t.None? {
      // reported by another rule
      assert ctx.errors == ctx.errors + [];
      return;
    }
    var valid := false;
    var errorMessage: Option<string> := None;
    match validLiteral(value, t.value) {
      case Valid => valid := true;
      case Invalid => valid := false;
      case CoercionError(msg) => errorMessage := Some(msg);
      case LiteralValidationError =>
    }
    if !valid {
      if errorMessage.None? {
        errorMessage := Some(MismatchMessage(node.name, t.value));
      }
      ctx.AddError(Message(errorMessage.value, [node.id], path));
    } else {
      assert ctx.errors == ctx.errors + [];
    }
  }

  /** A definition without a default is never reported, and one with a
      default at most once. */
  lemma AtMostOneError(node: VariableDefinitionNode, types: map<string, TypeDefn>,
                       validLiteral: (AstValue, GType) -> LiteralCheck, path: seq<string>)
    ensures node.defaultValue.None? ==> DefinitionErrors(node, types, validLiteral, path) == []
    ensures |DefinitionErrors(node, types, validLiteral, path)| <= 1
    ensures forall e :: e in DefinitionErrors(node, types, validLiteral, path) ==> e.nodes == [node.id]
  {
  }

  /** A non-null variable with a default always gets the non-null error,
      whatever the default is. */
  lemma NonNullWithDefault(node: VariableDefinitionNode, types: map<string, TypeDefn>,
                           validLiteral: (AstValue, GType) -> LiteralCheck, path: seq<string>)
    requires node.defaultValue.Some? && node.typeNode.NonNullTypeNode?
    ensures DefinitionErrors(node, types, validLiteral, path) == [Message(NonNullMessage(node.name), [node.id], path)]
  {
  }

  /** A nullable declared type the schema does not have is left to another
      rule. */
  lemma UnknownTypeNoError(node: VariableDefinitionNode, types: map<string, TypeDefn>,
                           validLiteral: (AstValue, GType) -> LiteralCheck, path: seq<string>)
    requires !node.typeNode.NonNullTypeNode?
    requires InnerName(node.typeNode).None? || InnerName(node.typeNode).value !in types
    ensures DefinitionErrors(node, types, validLiteral, path) == []
  {
    BuildTypeShape(types, node.typeNode);
  }

  /** For a nullable known type, the default is reported iff the literal
      check does not return true; a `CoercionError`'s message is used as is,
      and otherwise (false, or a swallowed `LiteralValidationError`) the
      mismatch text names the variable and the type. */
  lemma LiteralChecked(node: VariableDefinitionNode, types: map<string, TypeDefn>,
                       validLiteral: (AstValue, GType) -> LiteralCheck, path: seq<string>)
    requires node.defaultValue.Some? && !node.typeNode.NonNullTypeNode?
    requires BuildType(types, node.typeNode).Some?
    ensures var t := BuildType(types, node.typeNode).value;
      var check := validLiteral(node.defaultValue.value, t);
      var errs := DefinitionErrors(node, types, validLiteral, path);
      (errs == [] <==> check == Valid) &&
      (check.CoercionError? ==> errs == [Message(check.message, [node.id], path)]) &&
      (check == Invalid || check == LiteralValidationError ==> errs == [Message(MismatchMessage(node.name, t), [node.id], path)])
  {
  }
}
