/** `StaticValidation::DirectivesAreDefined`: every directive used in a
    document is defined by the schema (section 5.7.1 of the GraphQL
    specification, June 2018). */
module DirectivesAreDefined {
  import opened RubyArrays
  import opened ValidationContexts

  datatype DirectiveNode = DirectiveNode(id: NodeId, name: string)

  /** `Directive @N is not defined` */
  function NotDefinedMessage(name: string): (r: string)
    ensures |r| == 26 + |name| && r[..11] == "Directive @" && r[11..|r| - 15] == name
  {
    "Directive @" + name + " is not defined"
  }

  /** What the hook adds for one directive node. */
  function DirectiveErrors(node: DirectiveNode, directiveNames: seq<string>, path: seq<string>): seq<Message>
  {
    if node.name in directiveNames then [] else [Message(NotDefinedMessage(node.name), [node.id], path)]
  }

  /** What the hook adds for the directive nodes it is called on, in order. */
  function DocumentErrors(nodes: seq<DirectiveNode>, directiveNames: seq<string>, path: seq<string>): seq<Message>
  {
    FlatMap(nodes, node => DirectiveErrors(node, directiveNames, path))
  }

  /** `validate_directive`: `SKIP` after reporting an undefined directive,
      `nil` otherwise. */
  method ValidateDirective(ctx: ValidationContext, node: DirectiveNode, directiveNames: seq<string>, path: seq<string>)
    returns (action: VisitAction)
    modifies ctx
    ensures ctx.errors == old(ctx.errors) + DirectiveErrors(node, directiveNames, path)
    ensures action == Skip <==> node.name !in directiveNames
  {
    if node.name !in directiveNames {
      ctx.AddError(Message(NotDefinedMessage(node.name), [node.id], path));
      action := Skip;
    } else {
      assert ctx.errors == ctx.errors + [];
      action := Continue;
    }
  }

  /** The directive's name can be read back from the message. */
  lemma NotDefinedMessageInjective(a: string, b: string)
    requires NotDefinedMessage(a) == NotDefinedMessage(b)
    ensures a == b
  {
    assert a == NotDefinedMessage(a)[11..|NotDefinedMessage(a)| - 15];
  }

  /** One error per use of an undefined directive, and none for defined
      ones. */
  lemma OnePerUndefinedUse(nodes: seq<DirectiveNode>, directiveNames: seq<string>, path: seq<string>)
    ensures |DocumentErrors(nodes, directiveNames, path)| == |Filter(nodes, (node: DirectiveNode) => node.name !in directiveNames)|
  {
    FlatMapCount(nodes, node => DirectiveErrors(node, directiveNames, path), (node: DirectiveNode) => node.name !in directiveNames);
  }

  /** Every error is about one undefined directive and names it; every use
      of an undefined directive is reported. */
  lemma ErrorsNameUndefined(nodes: seq<DirectiveNode>, directiveNames: seq<string>, path: seq<string>, e: Message)
    ensures e in DocumentErrors(nodes, directiveNames, path) <==>
      exists i :: 0 <= i < |nodes| && nodes[i].name !in directiveNames &&
        e == Message(NotDefinedMessage(nodes[i].name), [nodes[i].id], path)
  {
    FlatMapIn(nodes, node => DirectiveErrors(node, directiveNames, path), e);
  }
}
