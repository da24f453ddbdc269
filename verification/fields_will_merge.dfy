/** `StaticValidation::FieldsWillMerge`: the AST fields that the rewrite pass
    merged into one internal-representation node must select the same field
    with the same arguments (section 5.3.2 of the GraphQL specification,
    June 2018). */
module FieldsWillMerge {
  import opened Wrappers
  import opened Hashes
  import opened RubyStrings
  import opened RubyArrays
  import opened RubyValues
  import opened Language
  import opened ValidationContexts

  /** An argument value in the AST. A node (variable, enum value, input
      object, null) prints as its query string; `generated` is what
      `JSON.generate` prints for that node object when it sits inside a list,
      which is not its query string. A list is a plain array, which
      `Language.serialize` prints element by element, so a node inside it
      prints as `generated`. Any other literal prints with
      `Language.serialize`. */
  datatype ArgumentValue =
    | NodeValue(queryString: string, generated: string)
    | ListValue(elements: seq<ArgumentValue>)
    | LiteralValue(v: RValue)

  datatype Argument = Argument(name: string, value: ArgumentValue)

  /** A field selection in the AST: `name` is the underlying field name. */
  datatype FieldNode = FieldNode(id: NodeId, name: string, arguments: seq<Argument>)

  /** An internal-representation node: its result name and the AST fields
      merged into it, in document order. */
  datatype IrepNode = IrepNode(name: string, astNodes: seq<FieldNode>)

  /** A field's arguments keyed by name, each value printed as a string. */
  type ArgumentMap = Hash<string, RValue>

  /** `NO_ARGS`: the one map shared by every field without arguments. */
  const NoArgs: ArgumentMap := Hash([], map[])

  /** The printed form of an argument value in the argument map. */
  function Printed(v: ArgumentValue, json: RValue -> string): (r: string)
    ensures v.NodeValue? ==> r == v.queryString
    ensures v.ListValue? ==> |r| >= 2 && r[0] == '[' && r[|r| - 1] == ']'
    ensures v.LiteralValue? ==> r == Serialize(v.v, json)
  {
    if v.NodeValue? then v.queryString else Serialized(v, json)
  }

  /** `Language.serialize` of an argument value that is not printed as a
      node: a list is bracketed and a node inside it is `JSON.generate`d. */
  function Serialized(v: ArgumentValue, json: RValue -> string): (r: string)
    ensures v.NodeValue? ==> r == v.generated
    ensures v.ListValue? ==> |r| >= 2 && r[0] == '[' && r[|r| - 1] == ']'
    ensures v.LiteralValue? ==> r == Serialize(v.v, json)
    decreases v, 1, 0
  {
    match v
    case NodeValue(_, g) => g
    case ListValue(elements) => "[" + Join(Elements(v, elements, json), ",") + "]"
    case LiteralValue(x) => Serialize(x, json)
  }

  /** The serialized elements of a list argument, in order. */
  function Elements(parent: ArgumentValue, elements: seq<ArgumentValue>, json: RValue -> string): (r: seq<string>)
    requires forall x :: x in elements ==> x < parent
    ensures |r| == |elements|
    ensures forall i :: 0 <= i < |elements| ==> r[i] == (assert elements[i] in elements; Serialized(elements[i], json))
    decreases parent, 0, |elements|
  {
    if elements == [] then []
    else
      assert elements[0] in elements && forall x :: x in elements[1..] ==> x in elements;
      [Serialized(elements[0], json)] + Elements(parent, elements[1..], json)
  }

  /** `arguments.reduce({}) { |memo, a| memo[a.name] = printed; memo }` */
  function Reduced(args: seq<Argument>, json: RValue -> string): (r: ArgumentMap)
    ensures r.Valid()
  {
    if args == [] then Empty()
    else
      var last := args[|args| - 1];
      Reduced(args[..|args| - 1], json).Put(last.name, RStr(Printed(last.value, json)))
  }

  /** The argument map of one AST field. */
  function ArgumentsOf(n: FieldNode, json: RValue -> string): ArgumentMap
  {
    if n.arguments != [] then Reduced(n.arguments, json) else NoArgs
  }

  function Names(node: IrepNode): seq<string>
  {
    Apply(node.astNodes, (n: FieldNode) => n.name)
  }

  function Ids(node: IrepNode): seq<NodeId>
  {
    Apply(node.astNodes, (n: FieldNode) => n.id)
  }

  /** The distinct underlying names, sorted, as the conflict message lists
      them. */
  function ConflictNames(node: IrepNode): seq<string>
  {
    SortBy(Uniq(Names(node)), s => s)
  }

  /** The argument maps of the merged fields after `uniq!`: maps are equal
      when they hold the same entries, whatever their order. */
  function DistinctArguments(node: IrepNode, json: RValue -> string): seq<ArgumentMap>
  {
    UniqBy(Apply(node.astNodes, n => ArgumentsOf(n, json)), (h: ArgumentMap) => h.m)
  }

  function FieldConflictMessage(name: string, names: seq<string>): string
  {
    "Field '" + name + "' has a field conflict: " + Join(names, " or ") + "?"
  }

  function ArgumentConflictMessage(name: string, args: seq<ArgumentMap>, json: RValue -> string): string
  {
    "Field '" + name + "' has an argument conflict: " +
      Join(Apply(args, (a: ArgumentMap) => Serialize(RHash(a), json)), " or ") + "?"
  }

  function FieldConflictErrors(node: IrepNode): seq<Message>
  {
    if |Uniq(Names(node))| > 1 then [Message(FieldConflictMessage(node.name, ConflictNames(node)), Ids(node), [])]
    else []
  }

  function ArgumentConflictErrors(node: IrepNode, json: RValue -> string): seq<Message>
  {
    var args := DistinctArguments(node, json);
    if |args| > 1 then [Message(ArgumentConflictMessage(node.name, args, json), Ids(node), [])]
    else []
  }

  /** The errors the rule adds for one irep node. */
  function NodeErrors(node: IrepNode, json: RValue -> string): seq<Message>
  {
    if |node.astNodes| > 1 then FieldConflictErrors(node) + ArgumentConflictErrors(node, json) else []
  }

  /** The errors the rule adds for the irep nodes of a document, in the
      order `each_irep_node` yields them. */
  function MergeErrors(nodes: seq<IrepNode>, json: RValue -> string): seq<Message>
  {
    FlatMap(nodes, node => NodeErrors(node, json))
  }

  /** `validate`: the block of `each_irep_node` for every node. */
  method Validate(ctx: ValidationContext, nodes: seq<IrepNode>, json: RValue -> string)
    modifies ctx
    ensures ctx.errors == old(ctx.errors) + MergeErrors(nodes, json)
  {
    ghost var start := ctx.errors;
    ghost var check := node => NodeErrors(node, json);
    for i := 0 to |nodes|
      invariant ctx.errors == start + FlatMap(nodes[..i], check)
    {
      ghost var done := FlatMap(nodes[..i], check);
      FlatMapSnoc(nodes, i, check);
      ValidateNode(ctx, nodes[i], json);
      assert check(nodes[i]) == NodeErrors(nodes[i], json);
      AppendAssoc(start, done, check(nodes[i]));
    }
    assert nodes[..|nodes|] == nodes;
  }

  /** The block for one irep node. */
  method ValidateNode(ctx: ValidationContext, node: IrepNode, json: RValue -> string)
    modifies ctx
    ensures ctx.errors == old(ctx.errors) + NodeErrors(node, json)
  {
    if |node.astNodes| > 1 {
      ghost var start := ctx.errors;
      ghost var fieldErrors := FieldConflictErrors(node);
      ghost var argumentErrors := ArgumentConflictErrors(node, json);
      assert NodeErrors(node, json) == fieldErrors + argumentErrors;
      ReportFieldConflict(ctx, node);
      ReportArgumentConflict(ctx, node, json);
      AppendAssoc(start, fieldErrors, argumentErrors);
    } else {
      assert ctx.errors == ctx.errors + [];
    }
  }

  /** More than one field backing the node. */
  method ReportFieldConflict(ctx: ValidationContext, node: IrepNode)
    modifies ctx
    ensures ctx.errors == old(ctx.errors) + FieldConflictErrors(node)
  {
    var defnNames := Uniq(Names(node));
    if |defnNames| > 1 {
      var sorted := SortBy(defnNames, s => s);
      ctx.AddError(Message(FieldConflictMessage(node.name, sorted), Ids(node), []));
    } else {
      assert ctx.errors == ctx.errors + [];
    }
  }

  /** Incompatible or non-identical arguments on the node. */
  method ReportArgumentConflict(ctx: ValidationContext, node: IrepNode, json: RValue -> string)
    modifies ctx
    ensures ctx.errors == old(ctx.errors) + ArgumentConflictErrors(node, json)
  {
    var args := ArgumentMaps(node, json);
    assert args == Apply(node.astNodes, n => ArgumentsOf(n, json));
    args := Deduplicate(args);
    if |args| > 1 {
      ctx.AddError(Message(ArgumentConflictMessage(node.name, args, json), Ids(node), []));
    } else {
      assert ctx.errors == ctx.errors + [];
    }
  }

  /** `node.ast_nodes.map { ... }`: the argument map of every merged field. */
  method ArgumentMaps(node: IrepNode, json: RValue -> string) returns (args: seq<ArgumentMap>)
    ensures |args| == |node.astNodes|
    ensures forall i :: 0 <= i < |args| ==> args[i] == ArgumentsOf(node.astNodes[i], json)
  {
    args := [];
    for i := 0 to |node.astNodes|
      invariant |args| == i
      invariant forall j :: 0 <= j < i ==> args[j] == ArgumentsOf(node.astNodes[j], json)
    {
      var n := node.astNodes[i];
      var memo := NoArgs;
      if |n.arguments| > 0 {
        memo := Reduce(n.arguments, json);
      }
      args := args + [memo];
    }
  }

  /** The `reduce` into a memo hash. */
  method Reduce(arguments: seq<Argument>, json: RValue -> string) returns (memo: ArgumentMap)
    ensures memo == Reduced(arguments, json)
  {
    memo := Empty();
    for i := 0 to |arguments|
      invariant memo == Reduced(arguments[..i], json)
    {
      assert arguments[..i + 1][..i] == arguments[..i];
      memo := memo.Put(arguments[i].name, RStr(Printed(arguments[i].value, json)));
    }
    assert arguments[..|arguments|] == arguments;
  }

  /** `args.uniq!`: keeps the first map of each set of entries. */
  method Deduplicate(args: seq<ArgumentMap>) returns (r: seq<ArgumentMap>)
    ensures r == UniqBy(args, (h: ArgumentMap) => h.m)
  {
    r := UniqInPlace(args, (h: ArgumentMap) => h.m);
  }

  /** The loop of `uniq!`, with the keys seen so far in a set. */
  method UniqInPlace<T, K(==)>(xs: seq<T>, key: T -> K) returns (r: seq<T>)
    ensures r == UniqBy(xs, key)
  {
    ghost var target := UniqBy(xs, key);
    var seen: set<K> := {};
    r := [];
    assert xs[0..] == xs;
    for i := 0 to |xs|
      invariant r + UniqByAfter(xs[i..], key, seen) == target
    {
      var k := key(xs[i]);
      UniqStep(xs, i, key, seen, r);
      if k !in seen {
        r := r + [xs[i]];
        seen := seen + {k};
      }
    }
    assert xs[|xs|..] == [];
    assert r + [] == r;
  }

  /** One step of `uniq!`: keeping the element when its key is new, and
      dropping it otherwise, leaves the same overall answer. */
  lemma UniqStep<T, K>(xs: seq<T>, i: nat, key: T -> K, seen: set<K>, r: seq<T>)
    requires i < |xs|
    ensures key(xs[i]) in seen ==>
      r + UniqByAfter(xs[i..], key, seen) == r + UniqByAfter(xs[i + 1..], key, seen)
    ensures key(xs[i]) !in seen ==>
      r + UniqByAfter(xs[i..], key, seen) == (r + [xs[i]]) + UniqByAfter(xs[i + 1..], key, seen + {key(xs[i])})
  {
    UniqByAfterStep(xs, i, key, seen);
    AppendAssoc(r, [xs[i]], UniqByAfter(xs[i + 1..], key, seen + {key(xs[i])}));
  }

  /** A node that merges at most one AST field is never reported. */
  lemma SingleFieldNoErrors(node: IrepNode, json: RValue -> string)
    requires |node.astNodes| <= 1
    ensures NodeErrors(node, json) == []
  {
  }

  /** At most two errors per node, each about all the merged fields. */
  lemma ErrorsShape(node: IrepNode, json: RValue -> string)
    ensures |NodeErrors(node, json)| <= 2
    ensures forall e :: e in NodeErrors(node, json) ==> e.nodes == Ids(node) && |e.nodes| == |node.astNodes|
  {
    if |node.astNodes| > 1 {
      var f, a := FieldConflictErrors(node), ArgumentConflictErrors(node, json);
      AtMostOneAbout(f, Ids(node));
      AtMostOneAbout(a, Ids(node));
      assert NodeErrors(node, json) == f + a;
    }
  }

  lemma AtMostOneAbout(errs: seq<Message>, ids: seq<NodeId>)
    requires errs == [] || (|errs| == 1 && errs[0].nodes == ids)
    ensures |errs| <= 1 && forall e :: e in errs ==> e.nodes == ids
  {
  }

  /** The field-conflict error is reported iff two merged fields select
      different underlying fields. */
  lemma FieldConflictIff(node: IrepNode)
    ensures FieldConflictErrors(node) != [] <==>
      exists i, j :: 0 <= i < |node.astNodes| && 0 <= j < |node.astNodes| && node.astNodes[i].name != node.astNodes[j].name
  {
    var names := Names(node);
    DistinctMoreThanOne(names, Uniq(names));
    if exists i, j :: 0 <= i < |names| && 0 <= j < |names| && names[i] != names[j] {
      var i, j :| 0 <= i < |names| && 0 <= j < |names| && names[i] != names[j];
      assert node.astNodes[i].name != node.astNodes[j].name;
    }
  }

  /** The conflict message lists every underlying name once, in sorted
      order. */
  lemma ConflictNamesSorted(node: IrepNode)
    ensures SortedBy(ConflictNames(node), s => s)
    ensures forall s :: s in ConflictNames(node) <==> exists i :: 0 <= i < |node.astNodes| && node.astNodes[i].name == s
    ensures |ConflictNames(node)| == |Uniq(Names(node))|
  {
    var u := Uniq(Names(node));
    assert |multiset(ConflictNames(node))| == |multiset(u)|;
    forall s ensures s in ConflictNames(node) <==> s in u {
      assert s in ConflictNames(node) <==> s in multiset(ConflictNames(node));
    }
    forall s | s in Names(node) ensures exists i :: 0 <= i < |node.astNodes| && node.astNodes[i].name == s {
      var i :| 0 <= i < |Names(node)| && Names(node)[i] == s;
    }
  }

  /** The argument-conflict error is reported iff two merged fields have
      argument maps with different entries. */
  lemma ArgumentConflictIff(node: IrepNode, json: RValue -> string)
    ensures ArgumentConflictErrors(node, json) != [] <==>
      exists i, j :: 0 <= i < |node.astNodes| && 0 <= j < |node.astNodes| &&
        ArgumentsOf(node.astNodes[i], json).m != ArgumentsOf(node.astNodes[j], json).m
  {
    var maps := Apply(node.astNodes, n => ArgumentsOf(n, json));
    UniqByMoreThanOne(maps, (h: ArgumentMap) => h.m);
  }

  predicate NamesDistinct(args: seq<Argument>)
  {
    forall i, j :: 0 <= i < j < |args| ==> args[i].name != args[j].name
  }

  /** With distinct argument names, each argument's printed value is found
      under its name. */
  lemma {:induction false} ReducedHas(args: seq<Argument>, json: RValue -> string, i: nat)
    requires NamesDistinct(args) && i < |args|
    ensures Reduced(args, json).Get(args[i].name) == Some(RStr(Printed(args[i].value, json)))
  {
    var init := args[..|args| - 1];
    if i < |init| {
      assert init[i] == args[i];
      ReducedHas(init, json, i);
    }
  }

  /** A name no argument carries is not in the map. */
  lemma {:induction false} ReducedLacks(args: seq<Argument>, json: RValue -> string, k: string)
    requires forall i :: 0 <= i < |args| ==> args[i].name != k
    ensures Reduced(args, json).Get(k) == None
  {
    if args != [] {
      var init := args[..|args| - 1];
      assert forall i :: 0 <= i < |init| ==> init[i] == args[i];
      ReducedLacks(init, json, k);
    }
  }

  /** The order in which a field's arguments are written does not matter:
      the same arguments in any order give the same map, so they cannot
      conflict. */
  lemma ArgumentOrderIrrelevant(a: seq<Argument>, b: seq<Argument>, json: RValue -> string)
    requires NamesDistinct(a) && NamesDistinct(b)
    requires forall x :: x in a <==> x in b
    ensures Reduced(a, json).m == Reduced(b, json).m
  {
    var ma := Reduced(a, json);
    var mb := Reduced(b, json);
    forall k ensures (k in ma.m <==> k in mb.m) && (k in ma.m ==> ma.m[k] == mb.m[k]) {
      SameEntry(a, b, json, k);
    }
  }

  lemma SameEntry(a: seq<Argument>, b: seq<Argument>, json: RValue -> string, k: string)
    requires NamesDistinct(a) && NamesDistinct(b)
    requires forall x :: x in a <==> x in b
    ensures Reduced(a, json).Get(k) == Reduced(b, json).Get(k)
  {
    if exists i :: 0 <= i < |a| && a[i].name == k {
      var i :| 0 <= i < |a| && a[i].name == k;
      assert a[i] in b;
      var j :| 0 <= j < |b| && b[j] == a[i];
      ReducedHas(a, json, i);
      ReducedHas(b, json, j);
    } else {
      ReducedLacks(a, json, k);
      forall j | 0 <= j < |b| ensures b[j].name != k {
        assert b[j] in a;
      }
      ReducedLacks(b, json, k);
    }
  }

  /** Nodes are checked one by one: the errors of two runs of nodes are the
      errors of each, one after the other. */
  lemma NodesIndependent(a: seq<IrepNode>, b: seq<IrepNode>, json: RValue -> string)
    ensures MergeErrors(a + b, json) == MergeErrors(a, json) + MergeErrors(b, json)
  {
    FlatMapAppend(a, b, node => NodeErrors(node, json));
  }
}
