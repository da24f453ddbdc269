/** `StaticValidation::FragmentsAreNamed`: a fragment definition must have a
    name. */
module FragmentsAreNamed {
  import opened Wrappers
  import opened RubyArrays
  import opened ValidationContexts

  datatype FragmentDefinitionNode = FragmentDefinitionNode(id: NodeId, name: Option<string>)

  const NoNameMessage: string := "Fragment definition has no name"

  /** What the hook adds for one fragment definition. */
  function NameErrors(node: FragmentDefinitionNode, path: seq<string>): seq<Message>
  {
    if node.name.None? then [Message(NoNameMessage, [node.id], path)] else []
  }

  function DocumentErrors(defns: seq<FragmentDefinitionNode>, path: seq<string>): seq<Message>
  {
    FlatMap(defns, node => NameErrors(node, path))
  }

  /** `validate_name_exists`; its value is never `SKIP`, so the visit goes
      on into the fragment. */
  method ValidateNameExists(ctx: ValidationContext, node: FragmentDefinitionNode, path: seq<string>)
    returns (action: VisitAction)
    modifies ctx
    ensures ctx.errors == old(ctx.errors) + NameErrors(node, path)
    ensures action == Continue
  {
    if node.name.None? {
      ctx.AddError(Message(NoNameMessage, [node.id], path));
    } else {
      assert ctx.errors == ctx.errors + [];
    }
    action := Continue;
  }

  /** One error per unnamed fragment definition. */
  lemma OnePerUnnamed(defns: seq<FragmentDefinitionNode>, path: seq<string>)
    ensures |DocumentErrors(defns, path)| == |Filter(defns, (node: FragmentDefinitionNode) => node.name.None?)|
  {
    FlatMapCount(defns, node => NameErrors(node, path), (node: FragmentDefinitionNode) => node.name.None?);
  }

  /** An error is reported for a definition iff it has no name. */
  lemma ReportedIffUnnamed(defns: seq<FragmentDefinitionNode>, path: seq<string>, i: nat)
    requires i < |defns|
    ensures Message(NoNameMessage, [defns[i].id], path) in DocumentErrors(defns, path) <==>
      exists j :: 0 <= j < |defns| && defns[j].id == defns[i].id && defns[j].name.None?
  {
    FlatMapIn(defns, node => NameErrors(node, path), Message(NoNameMessage, [defns[i].id], path));
  }
}
