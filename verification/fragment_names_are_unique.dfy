/** `StaticValidation::FragmentNamesAreUnique`: no two fragment definitions of
    a document share a name (section 5.5.1.1 of the GraphQL specification,
    June 2018). */
module FragmentNamesAreUnique {
  import opened Wrappers
  import opened Hashes
  import opened RubyArrays
  import opened Grouping
  import opened NameUniqueness
  import opened ValidationContexts

  /** A fragment definition as the rule sees it; `name` is `None` for a
      fragment without a name. */
  datatype FragmentNode = FragmentNode(id: NodeId, name: Option<string>)

  /** `Fragment name "N" must be unique` */
  function UniqueMessage(name: Option<string>): string
  {
    "Fragment name \"" + name.GetOr("") + "\" must be unique"
  }

  /** `fragments_by_name[node.name] << node` for every fragment definition. */
  function Entries(frags: seq<FragmentNode>): (r: seq<(Option<string>, NodeId)>)
    ensures |r| == |frags|
    ensures forall i :: 0 <= i < |frags| ==> r[i] == (frags[i].name, frags[i].id)
  {
    seq(|frags|, i requires 0 <= i < |frags| => (frags[i].name, frags[i].id))
  }

  /** The errors the rule adds for a document whose fragment definitions are
      `frags`. */
  function FragmentNameErrors(frags: seq<FragmentNode>, path: seq<string>): seq<Message>
  {
    DuplicateErrors(Entries(frags), UniqueMessage, path)
  }

  class FragmentNamesAreUnique {
    /** `fragments_by_name` */
    var fragmentsByName: Hash<Option<string>, seq<NodeId>>
    /** The fragment definitions entered so far. */
    ghost var entered: seq<FragmentNode>

    ghost predicate Valid()
      reads this
    {
      fragmentsByName == GroupBy(Entries(entered))
    }

    constructor()
      ensures Valid() && entered == []
    {
      fragmentsByName := Empty();
      entered := [];
    }

    /** The enter hook of `FragmentDefinition`. */
    method EnterFragment(node: FragmentNode)
      requires Valid()
      modifies this
      ensures Valid() && entered == old(entered) + [node]
    {
      ghost var items := Entries(entered + [node]);
      assert items[..|items| - 1] == Entries(entered);
      fragmentsByName := Push(fragmentsByName, node.name, node.id);
      entered := entered + [node];
    }

    /** The leave hook of `Document`. */
    method LeaveDocument(ctx: ValidationContext, path: seq<string>)
      requires Valid()
      modifies ctx
      ensures ctx.errors == old(ctx.errors) + FragmentNameErrors(entered, path)
    {
      ReportDuplicates(ctx, fragmentsByName, UniqueMessage, path);
    }
  }

  /** `validate`: the hook for each fragment definition in document order,
      then the leave hook. */
  method Validate(ctx: ValidationContext, frags: seq<FragmentNode>, path: seq<string>)
    modifies ctx
    ensures ctx.errors == old(ctx.errors) + FragmentNameErrors(frags, path)
  {
    var rule := new FragmentNamesAreUnique();
    for i := 0 to |frags|
      invariant rule.Valid() && rule.entered == frags[..i]
      invariant ctx.errors == old(ctx.errors)
    {
      rule.EnterFragment(frags[i]);
      TakeSnoc(frags, i);
    }
    assert frags[..|frags|] == frags;
    rule.LeaveDocument(ctx, path);
  }

  /** Exactly one error per name with more than one definition, in order of
      first appearance, each listing all the definitions of that name. */
  lemma OnePerDuplicatedName(frags: seq<FragmentNode>, path: seq<string>)
    ensures FragmentNameErrors(frags, path) ==
      Apply(Duplicated(Entries(frags)), k => Message(UniqueMessage(k), Members(Entries(frags), k), path))
  {
    DuplicateErrorsExact(Entries(frags), UniqueMessage, path);
  }

  /** Fragment definitions with pairwise different names produce no error. */
  lemma UniqueNames(frags: seq<FragmentNode>, path: seq<string>)
    requires forall i, j :: 0 <= i < j < |frags| ==> frags[i].name != frags[j].name
    ensures FragmentNameErrors(frags, path) == []
  {
    UniqueNamesNoErrors(Entries(frags), UniqueMessage, path);
  }
}
