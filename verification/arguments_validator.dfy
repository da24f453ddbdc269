/** `StaticValidation::ArgumentsValidator`: the base of the rules that check
    each argument of a document against the definition that owns it. It
    names the parent for messages and finds the owning definition. */
module ArgumentsValidator {
  import opened Wrappers
  import opened RubyStrings
  import opened GraphTypes

  /** The node an argument is written in: a field (with its alias, if any),
      an input object literal, a directive, or any other kind of node (its
      class name and its `name`). */
  datatype ParentNode =
    | FieldParent(alias: Option<string>, fieldName: string)
    | InputObjectParent
    | DirectiveParent(directiveName: string)
    | OtherParent(className: string, otherName: string)

  /** A definition that accepts arguments, with the names of its arguments
      that the schema's warden shows. */
  datatype Owner = Owner(name: string, argumentNames: seq<string>)

  /** What the validation context knows at an argument: the definition of
      the enclosing argument (its type), the schema's directives, the
      definition of the current field, and the visible fields of an input
      object type. */
  datatype ArgumentScope = ArgumentScope(
    argumentDefinition: Option<GType>,
    directives: map<string, Owner>,
    fieldDefinition: Option<Owner>,
    inputFields: TypeDefn -> seq<string>)

  /** `parent.class.name` */
  function ClassName(parent: ParentNode): string
  {
    match parent
    case FieldParent(_, _) => NodesClass("Field")
    case InputObjectParent => NodesClass("InputObject")
    case DirectiveParent(_) => NodesClass("Directive")
    case OtherParent(className, _) => className
  }

  function NodesClass(name: string): string
  {
    Join(["GraphQL8", "Language", "Nodes", name], "::")
  }

  /** `node_type`: the last `::` segment of the class name (`nil`, printed
      as the empty string, for an empty name). */
  function NodeType(parent: ParentNode): (r: string)
    ensures parent.FieldParent? ==> r == "Field"
    ensures parent.InputObjectParent? ==> r == "InputObject"
    ensures parent.DirectiveParent? ==> r == "Directive"
  {
    match parent
    case FieldParent(_, _) => NodesClassType("Field"); ShortName(ClassName(parent))
    case InputObjectParent => NodesClassType("InputObject"); ShortName(ClassName(parent))
    case DirectiveParent(_) => NodesClassType("Directive"); ShortName(ClassName(parent))
    case OtherParent(_, _) => ShortName(ClassName(parent))
  }

  /** The last `::` segment of a class name. */
  function ShortName(className: string): string
  {
    var segments := Split(className, "::");
    if segments == [] then "" else segments[|segments| - 1]
  }

  /** `parent_name`: a field's alias or else its name, the owning type's
      name for an input object, `parent.name` otherwise. */
  function ParentName(parent: ParentNode, ownerName: string): (r: string)
    ensures parent.FieldParent? ==> r == parent.alias.GetOr(parent.fieldName)
    ensures parent.InputObjectParent? ==> r == ownerName
    ensures parent.DirectiveParent? ==> r == parent.directiveName
    ensures parent.OtherParent? ==> r == parent.otherName
  {
    match parent
    case FieldParent(alias, name) => if alias.Some? then alias.value else name
    case InputObjectParent => ownerName
    case DirectiveParent(name) => name
    case OtherParent(_, name) => name
  }

  /** The owner `validate` hands to `validate_node`: `Success(None)` where
      the hook returns early, `Failure` where it raises (an unexpected parent,
      or a missing definition whose arguments are then read). An argument of
      an input object is checked only inside an argument whose unwrapped type
      is an input object, and then against that type's fields; a directive or
      field argument is checked against the directive or field definition. */
  function Dispatch(parent: ParentNode, scope: ArgumentScope): (r: Result<Option<Owner>, string>)
    ensures parent.InputObjectParent? ==>
      (r == Success(None) <==> scope.argumentDefinition.None? || Unwrap(scope.argumentDefinition.value).kind != INPUT_OBJECT)
    ensures parent.InputObjectParent? && r.Success? && r.value.Some? ==>
      r.value.value.name == Unwrap(scope.argumentDefinition.value).name
    ensures parent.DirectiveParent? && parent.directiveName in scope.directives ==>
      r == Success(Some(scope.directives[parent.directiveName]))
    ensures parent.FieldParent? && scope.fieldDefinition.Some? ==> r == Success(Some(scope.fieldDefinition.value))
    ensures r.Failure? <==>
      parent.OtherParent? || (parent.DirectiveParent? && parent.directiveName !in scope.directives) ||
      (parent.FieldParent? && scope.fieldDefinition.None?)
  {
    match parent
    case InputObjectParent =>
      (match scope.argumentDefinition
       case None => Success(None)
       case Some(t) =>
         var defn := Unwrap(t);
         if defn.kind != INPUT_OBJECT then Success(None)
         else Success(Some(Owner(defn.name, scope.inputFields(defn)))))
    case DirectiveParent(name) =>
      if name in scope.directives then Success(Some(scope.directives[name]))
      else Failure("undefined method `arguments' for nil")
    case FieldParent(_, _) =>
      if scope.fieldDefinition.Some? then Success(Some(scope.fieldDefinition.value))
      else Failure("undefined method `arguments' for nil")
    case OtherParent(className, _) => Failure("Unexpected argument parent: " + className)
  }

  /** A class name whose segments hold no colon ends in its last segment. */
  lemma LastSegment(segments: seq<string>)
    requires segments != [] && segments[|segments| - 1] != []
    requires forall i :: 0 <= i < |segments| ==> ':' !in segments[i]
    ensures var parts := Split(Join(segments, "::"), "::"); parts != [] && parts[|parts| - 1] == segments[|segments| - 1]
  {
    FieldsJoin(segments, "::");
  }

  /** A class of `GraphQL8::Language::Nodes` is reported by its own short
      name. */
  lemma NodesClassType(name: string)
    requires name != [] && ':' !in name
    ensures ShortName(NodesClass(name)) == name
  {
    var segments := ["GraphQL8", "Language", "Nodes", name];
    assert segments[3] == name;
    forall i | 0 <= i < 3 ensures ':' !in segments[i] {
      assert forall j :: 0 <= j < |segments[i]| ==> segments[i][j] != ':';
    }
    LastSegment(segments);
  }
}
