/** `StaticValidation::DirectivesAreInValidLocations`: a directive may only be
    used where its definition allows (section 5.7.2 of the GraphQL
    specification, June 2018). */
module DirectivesAreInValidLocations {
  import opened Wrappers
  import opened RubyStrings
  import opened RubyArrays
  import opened ValidationContexts

  /** The locations of `GraphQL8::Directive`: the seven executable ones, and
      the type-system ones under their constant names. */
  datatype Location =
    | QUERY | MUTATION | SUBSCRIPTION | FIELD | FRAGMENT_DEFINITION | FRAGMENT_SPREAD | INLINE_FRAGMENT
    | TypeSystemLocation(constName: string)

  /** A directive definition of the schema. */
  datatype DirectiveDefn = DirectiveDefn(name: string, locations: seq<Location>)

  /** A directive used in the document. */
  datatype DirectiveNode = DirectiveNode(id: NodeId, name: string)

  /** The node a directive is attached to; `OtherParent` carries the class
      name of any other kind of node. */
  datatype ParentNode =
    | OperationParent(operationType: string)
    | FieldParent | InlineFragmentParent | FragmentSpreadParent | FragmentDefinitionParent
    | OtherParent(className: string)

  /** `LOCATION_MESSAGE_NAMES[loc]`; type-system locations are not in the
      table. */
  function LocationMessageName(loc: Location): Option<string>
  {
    match loc
    case QUERY => Some("queries")
    case MUTATION => Some("mutations")
    case SUBSCRIPTION => Some("subscriptions")
    case FIELD => Some("fields")
    case FRAGMENT_DEFINITION => Some("fragment definitions")
    case FRAGMENT_SPREAD => Some("fragment spreads")
    case INLINE_FRAGMENT => Some("inline fragments")
    case TypeSystemLocation(_) => None
  }

  /** The name of the location's constant in `GraphQL8::Directive`. */
  function ConstName(loc: Location): string
  {
    match loc
    case QUERY => "QUERY"
    case MUTATION => "MUTATION"
    case SUBSCRIPTION => "SUBSCRIPTION"
    case FIELD => "FIELD"
    case FRAGMENT_DEFINITION => "FRAGMENT_DEFINITION"
    case FRAGMENT_SPREAD => "FRAGMENT_SPREAD"
    case INLINE_FRAGMENT => "INLINE_FRAGMENT"
    case TypeSystemLocation(name) => name
  }

  /** `Directive.const_get(operation_type.upcase)`: `None` where the constant
      lookup raises. The parser only produces `query`, `mutation` and
      `subscription` as operation types (see `OperationKeywords`); other
      strings are accepted here only because the parameter is a string. */
  function OperationLocation(operationType: string): (r: Option<Location>)
    ensures r.Some? ==> ConstName(r.value) == UpcaseStr(operationType)
  {
    var name := UpcaseStr(operationType);
    if name == "QUERY" then Some(QUERY)
    else if name == "MUTATION" then Some(MUTATION)
    else if name == "SUBSCRIPTION" then Some(SUBSCRIPTION)
    else None
  }

  /** `SIMPLE_LOCATIONS[ast_parent.class]` */
  function SimpleLocation(parent: ParentNode): Location
    requires !parent.OperationParent? && !parent.OtherParent?
  {
    match parent
    case FieldParent => FIELD
    case InlineFragmentParent => INLINE_FRAGMENT
    case FragmentSpreadParent => FRAGMENT_SPREAD
    case FragmentDefinitionParent => FRAGMENT_DEFINITION
  }

  /** `'@D' can't be applied to LOC (allowed: L1, L2)`; a location missing
      from the table prints as the empty string. */
  function NotAllowedMessage(defn: DirectiveDefn, required: Location): string
  {
    "'@" + defn.name + "' can't be applied to " + LocationMessageName(required).GetOr("") +
      " (allowed: " + Join(Apply(defn.locations, (l: Location) => LocationMessageName(l).GetOr("")), ", ") + ")"
  }

  function MisplacedMessage(className: string): string
  {
    "Directives can't be applied to " + className + "s"
  }

  /** `assert_includes_location`; reading the locations of an undefined
      directive raises. */
  function IncludesErrors(directives: map<string, DirectiveDefn>, node: DirectiveNode, required: Location, path: seq<string>)
    : (r: Result<seq<Message>, string>)
    ensures r.Failure? <==> node.name !in directives
    ensures r.Success? ==> (r.value == [] <==> required in directives[node.name].locations)
    ensures r.Success? && r.value != [] ==>
      r.value == [Message(NotAllowedMessage(directives[node.name], required), [node.id], path)]
  {
    if node.name !in directives then Failure("undefined method `locations' for nil")
    else
      var defn := directives[node.name];
      if required in defn.locations then Success([])
      else Success([Message(NotAllowedMessage(defn, required), [node.id], path)])
  }

  /** What `validate_location` adds for one directive, or the exception it
      raises: at most one error, about that node; a misplaced directive is
      reported on any other kind of parent; the hook raises on an operation
      type without a location constant, and on an undefined directive
      wherever it must check a location. */
  function LocationErrors(directives: map<string, DirectiveDefn>, node: DirectiveNode, parent: ParentNode, path: seq<string>)
    : (r: Result<seq<Message>, string>)
    ensures r.Success? ==> |r.value| <= 1 && forall e :: e in r.value ==> e.nodes == [node.id]
    ensures parent.OtherParent? ==> r == Success([Message(MisplacedMessage(parent.className), [node.id], path)])
    ensures r.Failure? <==>
      (parent.OperationParent? && OperationLocation(parent.operationType).None?) ||
      (!parent.OtherParent? && node.name !in directives)
  {
    match parent
    case OperationParent(operationType) =>
      (match OperationLocation(operationType)
       case None => Failure("uninitialized constant " + UpcaseStr(operationType))
       case Some(required) => IncludesErrors(directives, node, required, path))
    case OtherParent(className) => Success([Message(MisplacedMessage(className), [node.id], path)])
    case _ => IncludesErrors(directives, node, SimpleLocation(parent), path)
  }

  /** `validate_location` */
  method ValidateLocation(ctx: ValidationContext, node: DirectiveNode, parent: ParentNode,
                          directives: map<string, DirectiveDefn>, path: seq<string>)
    returns (outcome: Outcome)
    modifies ctx
    ensures LocationErrors(directives, node, parent, path).Success? ==>
      outcome == Returned && ctx.errors == old(ctx.errors) + LocationErrors(directives, node, parent, path).value
    ensures LocationErrors(directives, node, parent, path).Failure? ==>
      outcome == Raised(LocationErrors(directives, node, parent, path).error) && ctx.errors == old(ctx.errors)
  {
    var required: Location;
    match parent {
      case OperationParent(operationType) =>
        var loc := OperationLocation(operationType);
        if loc.None? {
          return Raised("uninitialized constant " + UpcaseStr(operationType));
        }
        required := loc.value;
      case OtherParent(className) =>
        ctx.AddError(Message(MisplacedMessage(className), [node.id], path));
        return Returned;
      case _ =>
        required := SimpleLocation(parent);
    }
    outcome := AssertIncludesLocation(ctx, node, required, directives, path);
  }

  /** `assert_includes_location` */
  method AssertIncludesLocation(ctx: ValidationContext, node: DirectiveNode, required: Location,
                                directives: map<string, DirectiveDefn>, path: seq<string>)
    returns (outcome: Outcome)
    modifies ctx
    ensures IncludesErrors(directives, node, required, path).Success? ==>
      outcome == Returned && ctx.errors == old(ctx.errors) + IncludesErrors(directives, node, required, path).value
    ensures IncludesErrors(directives, node, required, path).Failure? ==>
      outcome == Raised(IncludesErrors(directives, node, required, path).error) && ctx.errors == old(ctx.errors)
  {
    if node.name !in directives {
      return Raised("undefined method `locations' for nil");
    }
    var defn := directives[node.name];
    if required !in defn.locations {
      ctx.AddError(Message(NotAllowedMessage(defn, required), [node.id], path));
    } else {
      assert ctx.errors == ctx.errors + [];
    }
    return Returned;
  }

  /** The location a directive needs on each kind of parent: the upcased
      operation type on an operation, the node's own location on a field or
      fragment, and none on anything else. */
  function RequiredLocation(parent: ParentNode): (r: Option<Location>)
    ensures parent.OperationParent? ==> r == OperationLocation(parent.operationType)
    ensures parent.FieldParent? ==> r == Some(FIELD)
    ensures parent.InlineFragmentParent? ==> r == Some(INLINE_FRAGMENT)
    ensures parent.FragmentSpreadParent? ==> r == Some(FRAGMENT_SPREAD)
    ensures parent.FragmentDefinitionParent? ==> r == Some(FRAGMENT_DEFINITION)
    ensures parent.OtherParent? ==> r == None
  {
    match parent
    case OperationParent(t) => OperationLocation(t)
    case OtherParent(_) => None
    case _ => Some(SimpleLocation(parent))
  }

  /** For a defined directive on a known kind of parent, an error is added iff
      the required location is not among the directive's locations, and the
      error names the directive, the required location and every allowed
      location in the directive's order. */
  lemma ErrorIffNotAllowed(directives: map<string, DirectiveDefn>, node: DirectiveNode, parent: ParentNode, path: seq<string>)
    requires node.name in directives
    requires RequiredLocation(parent).Some?
    ensures LocationErrors(directives, node, parent, path).Success?
    ensures var errs := LocationErrors(directives, node, parent, path).value;
      (errs != [] <==> RequiredLocation(parent).value !in directives[node.name].locations) &&
      (errs != [] ==> errs == [Message(NotAllowedMessage(directives[node.name], RequiredLocation(parent).value), [node.id], path)])
  {
  }

  /** An undefined directive makes the hook raise wherever it must check a
      location, which is why the rule runs after `DirectivesAreDefined`,
      whose `SKIP` keeps it from such directives. */
  lemma UndefinedRaises(directives: map<string, DirectiveDefn>, node: DirectiveNode, parent: ParentNode, path: seq<string>)
    requires node.name !in directives
    ensures LocationErrors(directives, node, parent, path).Failure? <==> !parent.OtherParent?
  {
  }

  /** The three operation keywords map to their locations. */
  lemma OperationKeywords()
    ensures OperationLocation("query") == Some(QUERY)
    ensures OperationLocation("mutation") == Some(MUTATION)
    ensures OperationLocation("subscription") == Some(SUBSCRIPTION)
  {
    assert UpcaseStr("query") == "QUERY";
    assert UpcaseStr("mutation") == "MUTATION";
    assert UpcaseStr("subscription") == "SUBSCRIPTION";
  }

  /** The message table names the seven executable locations, each
      differently, and nothing else. */
  lemma MessageNamesDistinct(a: Location, b: Location)
    requires LocationMessageName(a).Some? && LocationMessageName(a) == LocationMessageName(b)
    ensures a == b && !a.TypeSystemLocation?
  {
  }
}
