/** `StaticValidation::FragmentsAreFinite`: fragment spreads must not form a
    cycle (section 5.5.2.2 of the GraphQL specification, June 2018). The
    cycles themselves are found by the document's dependency map, which is
    not part of this model: its cyclical definitions are an input. */
module FragmentsAreFinite {
  import opened RubyArrays
  import opened ValidationContexts

  datatype DefinitionKind = OperationDefinition | FragmentDefinition

  /** A definition of the dependency map: its name, the kind of its node,
      the node, and the path to it. */
  datatype Definition = Definition(name: string, kind: DefinitionKind, node: NodeId, path: seq<string>)

  /** `Fragment N contains an infinite loop` */
  function LoopMessage(name: string): (r: string)
    ensures |r| == 35 + |name| && r[..9] == "Fragment " && r[9..9 + |name|] == name
  {
    "Fragment " + name + " contains an infinite loop"
  }

  predicate IsFragment(defn: Definition) {
    defn.kind == FragmentDefinition
  }

  function DefinitionErrors(defn: Definition): seq<Message>
  {
    if IsFragment(defn) then [Message(LoopMessage(defn.name), [defn.node], defn.path)] else []
  }

  /** The errors for the cyclical definitions, in the map's order. */
  function CycleErrors(cyclical: seq<Definition>): seq<Message>
  {
    FlatMap(cyclical, DefinitionErrors)
  }

  /** The leave hook of `Document`. */
  method LeaveDocument(ctx: ValidationContext, cyclical: seq<Definition>)
    modifies ctx
    ensures ctx.errors == old(ctx.errors) + CycleErrors(cyclical)
  {
    ghost var start := ctx.errors;
    for i := 0 to |cyclical|
      invariant ctx.errors == start + FlatMap(cyclical[..i], DefinitionErrors)
    {
      ghost var done := FlatMap(cyclical[..i], DefinitionErrors);
      FlatMapSnoc(cyclical, i, DefinitionErrors);
      var defn := cyclical[i];
      if defn.kind == FragmentDefinition {
        ctx.AddError(Message(LoopMessage(defn.name), [defn.node], defn.path));
      } else {
        assert ctx.errors == ctx.errors + [];
      }
      AppendAssoc(start, done, DefinitionErrors(defn));
    }
    assert cyclical[..|cyclical|] == cyclical;
  }

  /** One error per cyclical fragment definition. */
  lemma OnePerCyclicalFragment(cyclical: seq<Definition>)
    ensures |CycleErrors(cyclical)| == |Filter(cyclical, IsFragment)|
  {
    FlatMapCount(cyclical, DefinitionErrors, IsFragment);
  }

  /** Every error is about a cyclical fragment definition, with its node and
      path; cyclical operations are not reported. */
  lemma ErrorsAreFragments(cyclical: seq<Definition>, e: Message)
    ensures e in CycleErrors(cyclical) <==>
      exists i :: 0 <= i < |cyclical| && IsFragment(cyclical[i]) &&
        e == Message(LoopMessage(cyclical[i].name), [cyclical[i].node], cyclical[i].path)
  {
    FlatMapIn(cyclical, DefinitionErrors, e);
  }

  /** The fragment's name can be read back from the message. */
  lemma LoopMessageInjective(a: string, b: string)
    requires LoopMessage(a) == LoopMessage(b)
    ensures a == b
  {
    assert a == LoopMessage(a)[9..9 + |a|];
  }
}
