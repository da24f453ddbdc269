/** `StaticValidation::ValidationContext` as far as the rules use it: the
    list of errors every rule appends to, and the messages they append
    (`StaticValidation::Message`, built by `MessageHelper#message`). */
module ValidationContexts {
  /** AST nodes are referred to by an identity; a message lists the nodes it
      is about (their locations are read from them when it is reported). */
  type NodeId = nat

  /** A validation error: its text, the nodes it is about and the path of
      field names that led to them. */
  datatype Message = Message(message: string, nodes: seq<NodeId>, path: seq<string>)

  /** What a visitor hook returns: `nil` (go on into the node's children) or
      `Visitor::SKIP` (leave them out). */
  datatype VisitAction = Continue | Skip

  /** How a hook ends: normally, or by raising an exception (which aborts
      the validation). */
  datatype Outcome = Returned | Raised(error: string)

  class ValidationContext {
    /** `@errors` */
    var errors: seq<Message>

    constructor()
      ensures errors == []
    {
      errors := [];
    }

    /** `context.errors << message` */
    method AddError(m: Message)
      modifies this
      ensures errors == old(errors) + [m]
    {
      errors := errors + [m];
    }
  }
}
