/** `StaticValidation::VariableNamesAreUnique`: no operation declares two
    variables with the same name (section 5.8.1 of the GraphQL specification,
    June 2018). */
module VariableNamesAreUnique {
  import opened Hashes
  import opened RubyArrays
  import opened Grouping
  import opened NameUniqueness
  import opened ValidationContexts

  datatype VariableNode = VariableNode(id: NodeId, name: string)

  /** An operation definition with its variable definitions in order. */
  datatype OperationNode = OperationNode(id: NodeId, variables: seq<VariableNode>)

  /** `There can only be one variable named "N"` */
  function UniqueMessage(name: string): string
  {
    "There can only be one variable named \"" + name + "\""
  }

  function Entries(vars: seq<VariableNode>): (r: seq<(string, NodeId)>)
    ensures |r| == |vars|
    ensures forall i :: 0 <= i < |vars| ==> r[i] == (vars[i].name, vars[i].id)
  {
    seq(|vars|, i requires 0 <= i < |vars| => (vars[i].name, vars[i].id))
  }

  /** The errors the hook adds for one operation. */
  function OperationErrors(op: OperationNode, path: seq<string>): seq<Message>
  {
    if op.variables == [] then [] else DuplicateErrors(Entries(op.variables), UniqueMessage, path)
  }

  /** The errors the rule adds for the operations of a document, in order. */
  function VariableNameErrors(ops: seq<OperationNode>, path: seq<string>): seq<Message>
  {
    FlatMap(ops, op => OperationErrors(op, path))
  }

  /** The hook of `OperationDefinition`. */
  method EnterOperation(ctx: ValidationContext, op: OperationNode, path: seq<string>)
    modifies ctx
    ensures ctx.errors == old(ctx.errors) + OperationErrors(op, path)
  {
    var varDefns := op.variables;
    if |varDefns| > 0 {
      var varsByName: Hash<string, seq<NodeId>> := Empty();
      for i := 0 to |varDefns|
        invariant varsByName == GroupBy(Entries(varDefns[..i]))
      {
        ghost var items := Entries(varDefns[..i + 1]);
        assert items[..|items| - 1] == Entries(varDefns[..i]);
        varsByName := Push(varsByName, varDefns[i].name, varDefns[i].id);
      }
      assert varDefns[..|varDefns|] == varDefns;
      ReportDuplicates(ctx, varsByName, UniqueMessage, path);
    }
  }

  /** `validate`: the hook for every operation in document order. */
  method Validate(ctx: ValidationContext, ops: seq<OperationNode>, path: seq<string>)
    modifies ctx
    ensures ctx.errors == old(ctx.errors) + VariableNameErrors(ops, path)
  {
    ghost var start := ctx.errors;
    ghost var check := op => OperationErrors(op, path);
    for i := 0 to |ops|
      invariant ctx.errors == start + FlatMap(ops[..i], check)
    {
      ghost var done := FlatMap(ops[..i], check);
      FlatMapSnoc(ops, i, check);
      EnterOperation(ctx, ops[i], path);
      assert check(ops[i]) == OperationErrors(ops[i], path);
      AppendAssoc(start, done, check(ops[i]));
    }
    assert ops[..|ops|] == ops;
  }

  /** Each operation is checked on its own: the errors for two runs of
      operations are the errors of each, one after the other. */
  lemma OperationsIndependent(a: seq<OperationNode>, b: seq<OperationNode>, path: seq<string>)
    ensures VariableNameErrors(a + b, path) == VariableNameErrors(a, path) + VariableNameErrors(b, path)
  {
    FlatMapAppend(a, b, op => OperationErrors(op, path));
  }

  /** Within one operation: exactly one error per variable name declared
      more than once, in order of first appearance, listing all its
      definitions; an operation without variables gets none. */
  lemma OnePerDuplicatedName(op: OperationNode, path: seq<string>)
    ensures OperationErrors(op, path) ==
      Apply(Duplicated(Entries(op.variables)), k => Message(UniqueMessage(k), Members(Entries(op.variables), k), path))
  {
    DuplicateErrorsExact(Entries(op.variables), UniqueMessage, path);
    if op.variables == [] {
      assert Uniq(KeysOf(Entries(op.variables))) == [];
    }
  }

  /** Variables with pairwise different names produce no error. */
  lemma UniqueNames(op: OperationNode, path: seq<string>)
    requires forall i, j :: 0 <= i < j < |op.variables| ==> op.variables[i].name != op.variables[j].name
    ensures OperationErrors(op, path) == []
  {
    UniqueNamesNoErrors(Entries(op.variables), UniqueMessage, path);
  }
}
