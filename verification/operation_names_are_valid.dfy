/** `StaticValidation::OperationNamesAreValid`: an anonymous operation must be
    the only operation of its document, and operation names must be unique
    (sections 5.2.1.1 and 5.2.2.1 of the GraphQL specification, June 2018). */
module OperationNamesAreValid {
  import opened Wrappers
  import opened Hashes
  import opened RubyArrays
  import opened Grouping
  import opened ValidationContexts

  /** An operation definition as the rule sees it; `name` is `None` for an
      anonymous operation. */
  datatype OperationNode = OperationNode(id: NodeId, name: Option<string>)

  const RequiredMessage: string := "Operation name is required" + " when multiple operations are present"

  /** `Operation name "N" must be unique`; `nil` interpolates as the empty
      string. */
  function UniqueMessage(name: Option<string>): (r: string)
    ensures |r| == 32 + |name.GetOr("")|
    ensures r[..16] == "Operation name \"" && r[16..|r| - 16] == name.GetOr("")
  {
    "Operation name \"" + name.GetOr("") + "\" must be unique"
  }

  /** `op_names[node.name] << node` for every operation, in document order. */
  function Entries(ops: seq<OperationNode>): (r: seq<(Option<string>, NodeId)>)
    ensures |r| == |ops|
    ensures forall i :: 0 <= i < |ops| ==> r[i] == (ops[i].name, ops[i].id)
  {
    seq(|ops|, i requires 0 <= i < |ops| => (ops[i].name, ops[i].id))
  }

  /** What the leave hook adds for the group of operations named `name`. */
  function GroupErrors(name: Option<string>, nodes: seq<NodeId>, opCount: nat, path: seq<string>): seq<Message>
  {
    if name.None? && opCount > 1 then [Message(RequiredMessage, nodes, path)]
    else if |nodes| > 1 then [Message(UniqueMessage(name), nodes, path)]
    else []
  }

  /** The errors the rule adds for a document whose operations are `ops`. */
  function OperationNameErrors(ops: seq<OperationNode>, path: seq<string>): seq<Message>
  {
    var groups := GroupBy(Entries(ops));
    EachEntry(groups, groups.keys, (name, nodes) => GroupErrors(name, nodes, |ops|, path))
  }

  /** The operation definitions that carry `name`, in document order. */
  function Named(ops: seq<OperationNode>, name: Option<string>): seq<NodeId>
  {
    Members(Entries(ops), name)
  }

  class OperationNamesAreValid {
    /** `op_names`: the operations grouped by name. */
    var opNames: Hash<Option<string>, seq<NodeId>>
    /** The operations entered so far. */
    ghost var entered: seq<OperationNode>

    ghost predicate Valid()
      reads this
    {
      opNames == GroupBy(Entries(entered))
    }

    constructor()
      ensures Valid() && entered == []
    {
      opNames := Empty();
      entered := [];
    }

    /** The enter hook of `OperationDefinition`. */
    method EnterOperation(node: OperationNode)
      requires Valid()
      modifies this
      ensures Valid() && entered == old(entered) + [node]
    {
      ghost var items := Entries(entered + [node]);
      assert items[..|items| - 1] == Entries(entered);
      opNames := Push(opNames, node.name, node.id);
      entered := entered + [node];
    }

    /** The leave hook of `Document`. */
    method LeaveDocument(ctx: ValidationContext, path: seq<string>)
      requires Valid()
      modifies ctx
      ensures ctx.errors == old(ctx.errors) + OperationNameErrors(entered, path)
    {
      var opCount := CountOperations();
      GroupByTally(Entries(entered));
      ReportGroups(ctx, opCount, path);
    }

    /** `op_names.values.inject(0) { |m, v| m + v.size }` */
    method CountOperations() returns (opCount: nat)
      requires Valid()
      ensures opCount == Tally(opNames, opNames.keys)
    {
      var keys := opNames.keys;
      opCount := 0;
      var i := 0;
      while i < |keys|
        invariant 0 <= i <= |keys|
        invariant opCount == Tally(opNames, keys[..i])
      {
        TallyAppend(opNames, keys[..i], [keys[i]]);
        TakeSnoc(keys, i);
        opCount := opCount + |opNames.m[keys[i]]|;
        i := i + 1;
      }
      assert keys[..i] == keys;
    }

    /** The block of `op_names.each` for the operations named `name`. */
    static method ReportGroup(ctx: ValidationContext, name: Option<string>, nodes: seq<NodeId>, opCount: nat, path: seq<string>)
      modifies ctx
      ensures ctx.errors == old(ctx.errors) + GroupErrors(name, nodes, opCount, path)
    {
      if name.None? && opCount > 1 {
        ctx.AddError(Message(RequiredMessage, nodes, path));
      } else if |nodes| > 1 {
        ctx.AddError(Message(UniqueMessage(name), nodes, path));
      }
    }

    /** `op_names.each`, appending each group's error. */
    method ReportGroups(ctx: ValidationContext, opCount: nat, path: seq<string>)
      requires Valid()
      modifies ctx
      ensures ctx.errors == old(ctx.errors) +
        EachEntry(opNames, opNames.keys, (name, nodes) => GroupErrors(name, nodes, opCount, path))
    {
      var keys := opNames.keys;
      ghost var f := (name, nodes) => GroupErrors(name, nodes, opCount, path);
      ghost var start := ctx.errors;
      var i := 0;
      while i < |keys|
        invariant 0 <= i <= |keys|
        invariant ctx.errors == start + EachEntry(opNames, keys[..i], f)
      {
        var name := keys[i];
        ghost var done := EachEntry(opNames, keys[..i], f);
        EachEntrySnoc(opNames, keys, i, f);
        ReportGroup(ctx, name, opNames.m[name], opCount, path);
        AppendAssoc(start, done, f(name, opNames.m[name]));
        i := i + 1;
      }
      assert keys[..i] == keys;
    }
  }

  /** `validate`: the enter hook for each operation in document order, then
      the leave hook. */
  method Validate(ctx: ValidationContext, ops: seq<OperationNode>, path: seq<string>)
    modifies ctx
    ensures ctx.errors == old(ctx.errors) + OperationNameErrors(ops, path)
  {
    var rule := new OperationNamesAreValid();
    for i := 0 to |ops|
      invariant rule.Valid() && rule.entered == ops[..i]
      invariant ctx.errors == old(ctx.errors)
    {
      rule.EnterOperation(ops[i]);
      TakeSnoc(ops, i);
    }
    assert ops[..|ops|] == ops;
    rule.LeaveDocument(ctx, path);
  }

  /** The group of anonymous operations never gets the uniqueness error: when
      it has more than one member the document has more than one operation. */
  lemma AnonymousNeverUnique(nodes: seq<NodeId>, opCount: nat, path: seq<string>)
    requires |nodes| <= opCount
    ensures forall e :: e in GroupErrors(None, nodes, opCount, path) ==> e.message == RequiredMessage
    ensures |GroupErrors(None, nodes, opCount, path)| == if opCount > 1 then 1 else 0
  {
  }

  lemma UniqueMessageInjective(a: Option<string>, b: Option<string>)
    requires UniqueMessage(a) == UniqueMessage(b)
    ensures a.GetOr("") == b.GetOr("")
  {
  }

  lemma UniqueIsNotRequired(name: Option<string>)
    ensures UniqueMessage(name) != RequiredMessage
  {
    assert UniqueMessage(name)[15] == '"';
    assert RequiredMessage[15] == 'i';
  }

  /** An error is reported iff the group of some name that occurs in the
      document yields it. */
  lemma {:induction false} ErrorsFromGroups(ops: seq<OperationNode>, path: seq<string>, e: Message)
    ensures e in OperationNameErrors(ops, path) <==>
      exists k :: k in KeysOf(Entries(ops)) && e in GroupErrors(k, Named(ops, k), |ops|, path)
  {
    var items := Entries(ops);
    var groups := GroupBy(items);
    var f := (name, nodes) => GroupErrors(name, nodes, |ops|, path);
    GroupByContents(items);
    EachEntryIn(groups, groups.keys, f, e);
    forall k | k in groups.keys
      ensures groups.m[k] == Named(ops, k)
    {
      assert groups.Get(k) == Some(Members(items, k));
    }
  }

  /** The "required" error is reported, listing all anonymous operations, iff
      the document has an anonymous operation and more than one operation in
      all. */
  lemma {:induction false} RequiredIff(ops: seq<OperationNode>, path: seq<string>)
    ensures Message(RequiredMessage, Named(ops, None), path) in OperationNameErrors(ops, path) <==>
      (exists i :: 0 <= i < |ops| && ops[i].name.None?) && |ops| > 1
  {
    var e := Message(RequiredMessage, Named(ops, None), path);
    if e in OperationNameErrors(ops, path) {
      RequiredOnlyForAnonymous(ops, path);
      AnonymousWitness(ops);
    }
    if (exists i :: 0 <= i < |ops| && ops[i].name.None?) && |ops| > 1 {
      RequiredReported(ops, path);
    }
  }

  lemma AnonymousWitness(ops: seq<OperationNode>)
    requires None in KeysOf(Entries(ops))
    ensures exists i :: 0 <= i < |ops| && ops[i].name.None?
  {
    var items := Entries(ops);
    var i :| 0 <= i < |items| && KeysOf(items)[i] == None;
    assert ops[i].name.None?;
  }

  lemma RequiredReported(ops: seq<OperationNode>, path: seq<string>)
    requires (exists i :: 0 <= i < |ops| && ops[i].name.None?) && |ops| > 1
    ensures Message(RequiredMessage, Named(ops, None), path) in OperationNameErrors(ops, path)
  {
    var items := Entries(ops);
    var e := Message(RequiredMessage, Named(ops, None), path);
    ErrorsFromGroups(ops, path, e);
    var i :| 0 <= i < |ops| && ops[i].name.None?;
    assert KeysOf(items)[i] == None;
    assert e in GroupErrors(None, Named(ops, None), |ops|, path);
  }

  /** No other error carries the "required" text: an error with it lists
      all anonymous operations, of a document with more than one. */
  lemma {:induction false} RequiredOnlyForAnonymous(ops: seq<OperationNode>, path: seq<string>)
    ensures forall e :: e in OperationNameErrors(ops, path) && e.message == RequiredMessage ==>
      e.nodes == Named(ops, None) && |ops| > 1 && None in KeysOf(Entries(ops))
  {
    forall e | e in OperationNameErrors(ops, path) && e.message == RequiredMessage
      ensures e.nodes == Named(ops, None) && |ops| > 1 && None in KeysOf(Entries(ops))
    {
      RequiredError(ops, path, e);
    }
  }

  lemma RequiredError(ops: seq<OperationNode>, path: seq<string>, e: Message)
    requires e in OperationNameErrors(ops, path) && e.message == RequiredMessage
    ensures e.nodes == Named(ops, None) && |ops| > 1 && None in KeysOf(Entries(ops))
  {
    var items := Entries(ops);
    ErrorsFromGroups(ops, path, e);
    var k :| k in KeysOf(items) && e in GroupErrors(k, Named(ops, k), |ops|, path);
    UniqueIsNotRequired(k);
  }

  /** A named group gets the uniqueness error, listing all its operations,
      iff it holds more than one operation. */
  lemma {:induction false} UniqueIff(ops: seq<OperationNode>, name: string, path: seq<string>)
    ensures Message(UniqueMessage(Some(name)), Named(ops, Some(name)), path) in OperationNameErrors(ops, path) <==>
      |Named(ops, Some(name))| > 1
  {
    var items := Entries(ops);
    var e := Message(UniqueMessage(Some(name)), Named(ops, Some(name)), path);
    ErrorsFromGroups(ops, path, e);
    UniqueIsNotRequired(Some(name));
    AnonymousNeverUnique(Named(ops, None), |ops|, path);
    if e in OperationNameErrors(ops, path) {
      var k :| k in KeysOf(items) && e in GroupErrors(k, Named(ops, k), |ops|, path);
      if k.Some? {
        UniqueMessageInjective(k, Some(name));
      }
    }
    if |Named(ops, Some(name))| > 1 {
      assert Some(name) in KeysOf(items);
      assert e in GroupErrors(Some(name), Named(ops, Some(name)), |ops|, path);
    }
  }

  /** A document with a single operation, anonymous or not, gets no error. */
  lemma SingleOperation(op: OperationNode, path: seq<string>)
    ensures OperationNameErrors([op], path) == []
  {
    var errs := OperationNameErrors([op], path);
    if errs != [] {
      var e := errs[0];
      ErrorsFromGroups([op], path, e);
      assert false;
    }
  }

  /** At most one error per distinct name. */
  lemma AtMostOnePerName(ops: seq<OperationNode>, path: seq<string>)
    ensures |OperationNameErrors(ops, path)| <= |Uniq(KeysOf(Entries(ops)))|
  {
    var groups := GroupBy(Entries(ops));
    GroupByContents(Entries(ops));
    EachEntryLength(groups, groups.keys, (name, nodes) => GroupErrors(name, nodes, |ops|, path), 1);
  }
}
