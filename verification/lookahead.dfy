/** `Execution::Lookahead`: looking ahead from a field at the selections the
    query makes below it, matching field names and argument constraints,
    including through inline fragments and fragment spreads. */
module Lookaheads {
  import opened Wrappers
  import opened Hashes
  import opened BuildType
  import opened RubyValues
  import opened LookaheadArguments
  import opened RubyArrays
  import RubyStrings

  /** The AST nodes a lookahead looks through. */
  datatype Node =
    | Field(name: string, args: seq<(string, AstValue)>, selections: seq<Node>)
    | InlineFragment(selections: seq<Node>)
    | FragmentSpread(fragmentName: string)
    | OperationDef(selections: seq<Node>)
    | OtherNode

  /** The selections of a node (`ast_node.selections`). */
  function Children(n: Node): seq<Node> {
    match n
    case Field(_, _, sels) => sels
    case InlineFragment(sels) => sels
    case OperationDef(sels) => sels
    case _ => []
  }

  /** A field definition: its GraphQL name, its Ruby method name, the name of
      its unwrapped return type, and its argument definitions. */
  datatype FieldDefn = FieldDefn(name: string, originalName: string, typeName: string, arguments: Hash<string, ArgDefn>)

  /** The query: argument helpers, the document's fragments, and the
      schema's field lookup (`FieldHelpers.get_field`, `None` where it raises
      its invariant error). */
  datatype Env = Env(query: Query, fragments: map<string, seq<Node>>, getField: (string, string) -> Option<FieldDefn>)

  ghost predicate EnvValid(env: Env) {
    QueryValid(env.query) && forall o, f :: env.getField(o, f).Some? ==> env.getField(o, f).value.arguments.Valid()
  }

  /** A field name as given: a Ruby symbol (`:full_content`) or a string
      (`"fullContent"`). */
  datatype Name = Sym(sym: string) | Str(str: string)

  /** `normalize_name`: a symbol is camelized, a string used verbatim; only a
      symbol can fail, and a symbol without `_` is used verbatim too. */
  function NormalizeName(n: Name): (r: Result<string, BuildError>)
    ensures n.Str? ==> r == Success(n.str)
    ensures n.Sym? && '_' !in n.sym ==> r == Success(n.sym)
    ensures r.Failure? ==> n.Sym? && r.error == NoMethod
  {
    match n
    case Sym(s) => Camelize(s)
    case Str(s) => Success(s)
  }

  /** `normalize_keyword`: a string is underscored, and so has no capital
      letter; a symbol is used verbatim. */
  function NormalizeKeyword(n: Name): (r: string)
    ensures n.Sym? ==> r == n.sym
    ensures n.Str? ==> forall i :: 0 <= i < |r| ==> !RubyStrings.IsUpper(r[i])
  {
    match n
    case Sym(s) => s
    case Str(s) => Underscore(s)
  }

  /** Argument constraints (`arguments:`); `None` stands for `nil`. */
  type Constraints = Option<seq<(Name, RValue)>>

  /** Every constraint names a keyword present in the coerced arguments with
      an equal value; extra arguments are allowed. */
  predicate PassesArgs(kw: Hash<string, RValue>, cs: seq<(Name, RValue)>) {
    forall i :: 0 <= i < |cs| ==>
      NormalizeKeyword(cs[i].0) in kw.m && kw.m[NormalizeKeyword(cs[i].0)] == cs[i].1
  }

  /** `find_selected_nodes`: the field nodes it appends to `matches`. It
      returns a truthy value exactly when it appends something. Fragment
      spreads are followed at most `fuel` deep. */
  function FindSelected(env: Env, node: Node, fieldName: string, defn: FieldDefn, cs: Constraints, fuel: nat)
    : (r: Result<seq<Node>, string>)
    requires EnvValid(env) && defn.arguments.Valid()
    ensures r.Success? ==> forall m :: m in r.value ==> m.Field? && m.name == fieldName
    decreases fuel, node, 1, 0
  {
    match node
    case Field(name, args, _) =>
      if name != fieldName then Success([])
      else if cs.None? || cs.value == [] then Success([node])
      else
        var kw :- KwArgs(env.query, defn.arguments, AInputObject(args));
        if PassesArgs(kw, cs.value) then Success([node]) else Success([])
    case InlineFragment(sels) => FindFirst(env, node, sels, fieldName, defn, cs, fuel)
    case FragmentSpread(name) =>
      if name !in env.fragments then Failure("undefined method `selections' for nil")
      else if fuel == 0 then Failure("fragment spreads nested deeper than the fuel")
      else FindFirst(env, InlineFragment(env.fragments[name]), env.fragments[name], fieldName, defn, cs, fuel - 1)
    case _ => Failure("Unexpected selection comparison")
  }

  /** `selections.find { |s| find_selected_nodes(s, ...) }`: the matches of
      the first selection that has any. */
  function FindFirst(env: Env, parent: Node, rest: seq<Node>, fieldName: string, defn: FieldDefn, cs: Constraints, fuel: nat)
    : (r: Result<seq<Node>, string>)
    requires EnvValid(env) && defn.arguments.Valid()
    requires forall a :: a in rest ==> a < parent
    ensures r.Success? ==> forall m :: m in r.value ==> m.Field? && m.name == fieldName
    decreases fuel, parent, 0, |rest|
  {
    if rest == [] then Success([])
    else
      assert rest[0] in rest && forall a :: a in rest[1..] ==> a in rest;
      var found :- FindSelected(env, rest[0], fieldName, defn, cs, fuel);
      if found != [] then Success(found) else FindFirst(env, parent, rest[1..], fieldName, defn, cs, fuel)
  }

  /** A lookahead: the AST nodes it stands for and the field they select (or
      the root type for an operation), or `NULL_LOOKAHEAD`. */
  datatype Lookahead = Real(nodes: seq<Node>, field: Option<FieldDefn>, rootType: Option<string>) | Null
  {
    /** `selected?` */
    predicate Selected() { Real? }

    /** `name`: the field's Ruby method name, `nil` without a field. */
    function Name(): (r: Option<string>)
      ensures r.Some? <==> Real? && field.Some?
    {
      if Real? && field.Some? then Some(field.value.originalName) else None
    }

    /** The type whose fields are selected next (`nil` for a lookahead with
        neither a field nor a root type). */
    function Owner(): Option<string>
      requires Real?
    {
      if field.Some? then Some(field.value.typeName) else rootType
    }
  }

  /** The nodes matched under every selection of every node, in order. */
  function CollectNodes(env: Env, nodes: seq<Node>, fieldName: string, defn: FieldDefn, cs: Constraints, fuel: nat,
                        acc: seq<Node>): Result<seq<Node>, string>
    requires EnvValid(env) && defn.arguments.Valid()
  {
    if nodes == [] then Success(acc)
    else
      var acc' :- CollectSelections(env, Children(nodes[0]), fieldName, defn, cs, fuel, acc);
      CollectNodes(env, nodes[1..], fieldName, defn, cs, fuel, acc')
  }

  function CollectSelections(env: Env, sels: seq<Node>, fieldName: string, defn: FieldDefn, cs: Constraints, fuel: nat,
                             acc: seq<Node>): Result<seq<Node>, string>
    requires EnvValid(env) && defn.arguments.Valid()
  {
    if sels == [] then Success(acc)
    else
      var found :- FindSelected(env, sels[0], fieldName, defn, cs, fuel);
      CollectSelections(env, sels[1..], fieldName, defn, cs, fuel, acc + found)
  }

  /** `selection(field_name, arguments:)`: the null lookahead answers
      itself; a real lookahead is answered only for nodes that matched, and
      carries the field definition. */
  function SelectionOf(env: Env, la: Lookahead, name: Name, cs: Constraints, fuel: nat): (r: Result<Lookahead, string>)
    requires EnvValid(env)
    ensures la.Null? ==> r == Success(Null)
    ensures r.Success? && r.value.Real? ==> r.value.nodes != [] && r.value.field.Some? && r.value.rootType.None?
  {
    if la.Null? then Success(Null)
    else
      var next := NormalizeName(name);
      if next.Failure? then Failure("undefined method for an empty camelized name")
      else if la.Owner().None? then Failure("undefined method `get_field' for nil")
      else
        var defn := env.getField(la.Owner().value, next.value);
        if defn.None? then Failure("Invariant: no field for " + la.Owner().value + "." + next.value)
        else
          var matches :- CollectNodes(env, la.nodes, next.value, defn.value, cs, fuel, []);
          if matches != [] then Success(Real(matches, defn, None)) else Success(Null)
  }

  /** `selects?(field_name, arguments:)` */
  function Selects(env: Env, la: Lookahead, name: Name, cs: Constraints, fuel: nat): (r: Result<bool, string>)
    requires EnvValid(env)
    ensures la.Null? ==> r == Success(false)
    ensures r.Success? <==> SelectionOf(env, la, name, cs, fuel).Success?
    ensures r.Success? ==> r.value == SelectionOf(env, la, name, cs, fuel).value.Selected()
  {
    if la.Null? then Success(false)
    else
      var s :- SelectionOf(env, la, name, cs, fuel);
      Success(s.Selected())
  }

  /** `selection`, accumulating `next_nodes` in its two loops. */
  method Selection(env: Env, la: Lookahead, name: Name, cs: Constraints, fuel: nat) returns (r: Result<Lookahead, string>)
    requires EnvValid(env)
    ensures r == SelectionOf(env, la, name, cs, fuel)
  {
    if la.Null? {
      return Success(Null);
    }
    var next := NormalizeName(name);
    if next.Failure? {
      return Failure("undefined method for an empty camelized name");
    }
    var owner := la.Owner();
    if owner.None? {
      return Failure("undefined method `get_field' for nil");
    }
    var defn := env.getField(owner.value, next.value);
    if defn.None? {
      return Failure("Invariant: no field for " + owner.value + "." + next.value);
    }
    var nodes := la.nodes;
    var matches: seq<Node> := [];
    ghost var target := CollectNodes(env, nodes, next.value, defn.value, cs, fuel, []);
    var i := 0;
    while i < |nodes|
      invariant 0 <= i <= |nodes|
      invariant target == CollectNodes(env, nodes[i..], next.value, defn.value, cs, fuel, matches)
    {
      assert nodes[i..][0] == nodes[i] && nodes[i..][1..] == nodes[i + 1..];
      var found := MatchSelections(env, Children(nodes[i]), next.value, defn.value, cs, fuel, matches);
      if found.Failure? {
        return Failure(found.error);
      }
      matches := found.value;
      i := i + 1;
    }
    if matches != [] {
      r := Success(Real(matches, defn, None));
    } else {
      r := Success(Null);
    }
  }

  /** The inner loop of `selection`: `find_selected_nodes` on each selection
      of one node, appending to `matches`. */
  method MatchSelections(env: Env, sels: seq<Node>, fieldName: string, defn: FieldDefn, cs: Constraints, fuel: nat,
                         matches: seq<Node>) returns (r: Result<seq<Node>, string>)
    requires EnvValid(env) && defn.arguments.Valid()
    ensures r == CollectSelections(env, sels, fieldName, defn, cs, fuel, matches)
  {
    var acc := matches;
    var j := 0;
    while j < |sels|
      invariant 0 <= j <= |sels|
      invariant CollectSelections(env, sels, fieldName, defn, cs, fuel, matches) ==
        CollectSelections(env, sels[j..], fieldName, defn, cs, fuel, acc)
    {
      assert sels[j..][0] == sels[j] && sels[j..][1..] == sels[j + 1..];
      var found := FindSelected(env, sels[j], fieldName, defn, cs, fuel);
      if found.Failure? {
        return Failure(found.error);
      }
      acc := acc + found.value;
      j := j + 1;
    }
    r := Success(acc);
  }

  /** The name `selections` keys a subselection by. */
  function SelectionName(n: Node): Result<string, string> {
    match n
    case Field(name, _, _) => Success(name)
    case FragmentSpread(name) => Success(name)
    case _ => Failure("undefined method `name'")
  }

  /** The `subselections_by_name` hash after the given subselections and
      those of the given nodes, where `sel` is `selection` by name: the first
      lookahead computed for each name is kept. */
  function ByName(nodes: seq<Node>, sels: seq<Node>, sel: string -> Result<Lookahead, string>,
                  h: Hash<string, Lookahead>): (r: Result<Hash<string, Lookahead>, string>)
    requires h.Valid()
    ensures r.Success? ==> r.value.Valid() && |h.keys| <= |r.value.keys| && r.value.keys[..|h.keys|] == h.keys
    ensures r.Success? ==> forall k :: k in h.m ==> r.value.Get(k) == h.Get(k)
    decreases |nodes|, |sels|
  {
    if sels != [] then
      var name :- SelectionName(sels[0]);
      if name in h.m then ByName(nodes, sels[1..], sel, h)
      else
        var s :- sel(name);
        ByName(nodes, sels[1..], sel, h.Put(name, s))
    else if nodes != [] then ByName(nodes[1..], Children(nodes[0]), sel, h)
    else Success(h)
  }

  /** `selection` by a string name, as `selections` calls it. */
  function SelectionByName(env: Env, la: Lookahead, cs: Constraints, fuel: nat): string -> Result<Lookahead, string>
    requires EnvValid(env)
  {
    k => SelectionOf(env, la, Name.Str(k), cs, fuel)
  }

  /** The selected lookaheads among `vs`, in order. */
  function SelectedOnly(vs: seq<Lookahead>): (r: seq<Lookahead>)
    ensures forall x :: x in r <==> x in vs && x.Selected()
  {
    if vs == [] then [] else (if vs[0].Selected() then [vs[0]] else []) + SelectedOnly(vs[1..])
  }

  /** `selections(arguments:)` */
  function SelectionsOf(env: Env, la: Lookahead, cs: Constraints, fuel: nat): (r: Result<seq<Lookahead>, string>)
    requires EnvValid(env)
    ensures la.Null? ==> r == Success([])
    ensures r.Success? ==> forall x :: x in r.value ==> x.Selected()
  {
    if la.Null? then Success([])
    else
      var h :- ByName(la.nodes, [], SelectionByName(env, la, cs, fuel), Empty());
      Success(SelectedOnly(h.Values()))
  }

  /** `selections`, filling `subselections_by_name` in its two loops. */
  method Selections(env: Env, la: Lookahead, cs: Constraints, fuel: nat) returns (r: Result<seq<Lookahead>, string>)
    requires EnvValid(env)
    ensures r == SelectionsOf(env, la, cs, fuel)
  {
    if la.Null? {
      return Success([]);
    }
    var nodes := la.nodes;
    ghost var sel := SelectionByName(env, la, cs, fuel);
    ghost var target := ByName(nodes, [], sel, Empty());
    var h: Hash<string, Lookahead> := Empty();
    var i := 0;
    while i < |nodes|
      invariant 0 <= i <= |nodes| && h.Valid()
      invariant target == ByName(nodes[i..], [], sel, h)
    {
      assert nodes[i..][0] == nodes[i] && nodes[i..][1..] == nodes[i + 1..];
      var next := AddByName(env, la, cs, fuel, nodes[i + 1..], Children(nodes[i]), h);
      if next.Failure? {
        return Failure(next.error);
      }
      h := next.value;
      i := i + 1;
    }
    assert nodes[i..] == [];
    r := Success(SelectedOnly(h.Values()));
  }

  /** The inner loop of `selections`: the subselections of one node, each
      looked up by name unless its name is already a key of `h`. */
  method AddByName(env: Env, la: Lookahead, cs: Constraints, fuel: nat, rest: seq<Node>, sels: seq<Node>,
                   h: Hash<string, Lookahead>) returns (r: Result<Hash<string, Lookahead>, string>)
    requires EnvValid(env) && h.Valid()
    ensures r.Failure? ==> ByName(rest, sels, SelectionByName(env, la, cs, fuel), h) == Failure(r.error)
    ensures r.Success? ==> r.value.Valid()
    ensures r.Success? ==>
      ByName(rest, sels, SelectionByName(env, la, cs, fuel), h) == ByName(rest, [], SelectionByName(env, la, cs, fuel), r.value)
  {
    ghost var sel := SelectionByName(env, la, cs, fuel);
    ghost var target := ByName(rest, sels, sel, h);
    var acc := h;
    var j := 0;
    while j < |sels|
      invariant 0 <= j <= |sels| && acc.Valid()
      invariant target == ByName(rest, sels[j..], sel, acc)
    {
      assert sels[j..][0] == sels[j] && sels[j..][1..] == sels[j + 1..];
      var name := SelectionName(sels[j]);
      if name.Failure? {
        return Failure(name.error);
      }
      if name.value !in acc.m {
        var s := Selection(env, la, Name.Str(name.value), cs, fuel);
        if s.Failure? {
          return Failure(s.error);
        }
        acc := acc.Put(name.value, s.value);
      }
      j := j + 1;
    }
    assert sels[j..] == [];
    r := Success(acc);
  }

  // Properties

  /** The accumulated nodes stay in front, and everything collected after
      them is a field node of the requested name. */
  lemma {:induction false} CollectSelectionsFields(env: Env, sels: seq<Node>, fieldName: string, defn: FieldDefn,
                                                   cs: Constraints, fuel: nat, acc: seq<Node>)
    requires EnvValid(env) && defn.arguments.Valid()
    ensures var r := CollectSelections(env, sels, fieldName, defn, cs, fuel, acc);
      r.Success? ==>
        |acc| <= |r.value| && r.value[..|acc|] == acc &&
        forall m :: m in r.value[|acc|..] ==> m.Field? && m.name == fieldName
    decreases |sels|
  {
    if sels != [] {
      var found := FindSelected(env, sels[0], fieldName, defn, cs, fuel);
      if found.Success? {
        var acc' := acc + found.value;
        CollectSelectionsFields(env, sels[1..], fieldName, defn, cs, fuel, acc');
        var r := CollectSelections(env, sels[1..], fieldName, defn, cs, fuel, acc');
        if r.Success? {
          assert r.value[..|acc'|][..|acc|] == acc;
          forall m | m in r.value[|acc|..] ensures m.Field? && m.name == fieldName {
            var i :| |acc| <= i < |r.value| && r.value[i] == m;
            if i < |acc'| {
              assert m == found.value[i - |acc|];
            } else {
              assert m == r.value[|acc'|..][i - |acc'|];
            }
          }
        }
      }
    }
  }

  lemma {:induction false} CollectNodesFields(env: Env, nodes: seq<Node>, fieldName: string, defn: FieldDefn,
                                              cs: Constraints, fuel: nat, acc: seq<Node>)
    requires EnvValid(env) && defn.arguments.Valid()
    ensures var r := CollectNodes(env, nodes, fieldName, defn, cs, fuel, acc);
      r.Success? ==>
        |acc| <= |r.value| && r.value[..|acc|] == acc &&
        forall m :: m in r.value[|acc|..] ==> m.Field? && m.name == fieldName
    decreases |nodes|
  {
    if nodes != [] {
      CollectSelectionsFields(env, Children(nodes[0]), fieldName, defn, cs, fuel, acc);
      var mid := CollectSelections(env, Children(nodes[0]), fieldName, defn, cs, fuel, acc);
      if mid.Success? {
        var acc' := mid.value;
        CollectNodesFields(env, nodes[1..], fieldName, defn, cs, fuel, acc');
        var r := CollectNodes(env, nodes[1..], fieldName, defn, cs, fuel, acc');
        if r.Success? {
          assert r.value[..|acc'|][..|acc|] == acc;
          forall m | m in r.value[|acc|..] ensures m.Field? && m.name == fieldName {
            var i :| |acc| <= i < |r.value| && r.value[i] == m;
            if i < |acc'| {
              assert m == acc'[|acc|..][i - |acc|];
            } else {
              assert m == r.value[|acc'|..][i - |acc'|];
            }
          }
        }
      }
    }
  }

  /** `selection` on a real lookahead: a name that does not normalize, a
      missing owner type or an unknown field raises; otherwise the result is
      `NULL_LOOKAHEAD` exactly when no node matched, and a real result holds
      the matched field nodes, all of the normalized name, with the schema's
      definition of that field. */
  lemma SelectionResult(env: Env, la: Lookahead, name: Name, cs: Constraints, fuel: nat)
    requires EnvValid(env) && la.Real?
    ensures var r := SelectionOf(env, la, name, cs, fuel);
      (NormalizeName(name).Failure? || la.Owner().None? ||
       env.getField(la.Owner().value, NormalizeName(name).value).None?) ==> r.Failure?
    ensures var r := SelectionOf(env, la, name, cs, fuel);
      r.Success? ==>
        NormalizeName(name).Success? && la.Owner().Some? &&
        var fieldName := NormalizeName(name).value;
        var defn := env.getField(la.Owner().value, fieldName);
        defn.Some? &&
        var matched := CollectNodes(env, la.nodes, fieldName, defn.value, cs, fuel, []);
        matched.Success? &&
        (r.value.Null? <==> matched.value == []) &&
        (r.value.Real? ==>
          r.value.nodes == matched.value && r.value.field == defn &&
          forall m :: m in r.value.nodes ==> m.Field? && m.name == fieldName)
  {
    var r := SelectionOf(env, la, name, cs, fuel);
    if r.Success? {
      var fieldName := NormalizeName(name).value;
      var defn := env.getField(la.Owner().value, fieldName);
      CollectNodesFields(env, la.nodes, fieldName, defn.value, cs, fuel, []);
      var matched := CollectNodes(env, la.nodes, fieldName, defn.value, cs, fuel, []);
      assert matched.value[0..] == matched.value;
    }
  }

  /** A field node matches when its name is the requested one and, if there
      are constraints, every constraint is met by its coerced arguments;
      extra arguments do not matter. A non-matching node contributes nothing. */
  lemma FieldMatch(env: Env, n: Node, fieldName: string, defn: FieldDefn, cs: Constraints, fuel: nat)
    requires EnvValid(env) && defn.arguments.Valid() && n.Field?
    ensures var r := FindSelected(env, n, fieldName, defn, cs, fuel);
      r.Success? ==> r.value == [] || r.value == [n]
    ensures n.name != fieldName ==> FindSelected(env, n, fieldName, defn, cs, fuel) == Success([])
    ensures n.name == fieldName && (cs.None? || cs.value == []) ==> FindSelected(env, n, fieldName, defn, cs, fuel) == Success([n])
    ensures n.name == fieldName && cs.Some? && cs.value != [] ==>
      var kw := KwArgs(env.query, defn.arguments, AInputObject(n.args));
      (FindSelected(env, n, fieldName, defn, cs, fuel) == Success([n]) <==> kw.Success? && PassesArgs(kw.value, cs.value))
  {
  }

  /** A single constraint is met exactly when its normalized keyword is
      present with an equal value. */
  lemma PassesOne(kw: Hash<string, RValue>, n: Name, v: RValue)
    ensures PassesArgs(kw, [(n, v)]) <==> NormalizeKeyword(n) in kw.m && kw.m[NormalizeKeyword(n)] == v
  {
    assert [(n, v)][0] == (n, v);
  }

  /** A string keyword is underscored before it is looked up, so it
      constrains the same keyword as the symbol of its underscored form;
      `arguments: { "someThing" => v }` constrains the same keyword as
      `arguments: { some_thing: v }`. */
  lemma StringKeywordUnderscored(kw: Hash<string, RValue>, s: string, v: RValue)
    ensures PassesArgs(kw, [(Name.Str(s), v)]) <==> PassesArgs(kw, [(Sym(Underscore(s)), v)])
    ensures PassesArgs(kw, [(Name.Str("someThing"), v)]) <==> PassesArgs(kw, [(Sym("some_thing"), v)])
  {
    PassesOne(kw, Name.Str(s), v);
    PassesOne(kw, Sym(Underscore(s)), v);
    var t, u := "someThing", "some_thing";
    UnderscoreSomeThing();
    assert NormalizeKeyword(Name.Str(t)) == u;
    PassesOne(kw, Name.Str(t), v);
    PassesOne(kw, Sym(u), v);
  }

  /** A symbol without underscores names the same field as the string. */
  lemma PlainSymbol(s: string)
    requires '_' !in s
    ensures NormalizeName(Sym(s)) == NormalizeName(Name.Str(s))
  {
    CamelizeFacts(s);
  }

  /** Inside a fragment the search stops at the first selection that
      matches: the selections after it are not looked at. */
  lemma {:induction false} FindFirstStops(env: Env, parent: Node, rest: seq<Node>, fieldName: string, defn: FieldDefn,
                                          cs: Constraints, fuel: nat, i: nat)
    requires EnvValid(env) && defn.arguments.Valid()
    requires forall a :: a in rest ==> a < parent
    requires i < |rest|
    requires forall j :: 0 <= j < i ==> FindSelected(env, rest[j], fieldName, defn, cs, fuel) == Success([])
    requires var f := FindSelected(env, rest[i], fieldName, defn, cs, fuel); f.Success? && f.value != []
    ensures FindFirst(env, parent, rest, fieldName, defn, cs, fuel) == FindSelected(env, rest[i], fieldName, defn, cs, fuel)
  {
    assert rest[0] in rest && forall a :: a in rest[1..] ==> a in rest;
    if i > 0 {
      FindFirstStops(env, parent, rest[1..], fieldName, defn, cs, fuel, i - 1);
    }
  }

  /** At the top level every selection is scanned: whatever any of them
      matches is collected. */
  lemma {:induction false} CollectSelectionsAll(env: Env, sels: seq<Node>, fieldName: string, defn: FieldDefn,
                                                cs: Constraints, fuel: nat, acc: seq<Node>, i: nat)
    requires EnvValid(env) && defn.arguments.Valid()
    requires i < |sels|
    requires CollectSelections(env, sels, fieldName, defn, cs, fuel, acc).Success?
    ensures FindSelected(env, sels[i], fieldName, defn, cs, fuel).Success?
    ensures forall m :: m in FindSelected(env, sels[i], fieldName, defn, cs, fuel).value ==>
      m in CollectSelections(env, sels, fieldName, defn, cs, fuel, acc).value
    decreases |sels|
  {
    var found := FindSelected(env, sels[0], fieldName, defn, cs, fuel);
    var acc' := acc + found.value;
    if i > 0 {
      CollectSelectionsAll(env, sels[1..], fieldName, defn, cs, fuel, acc', i - 1);
    } else {
      CollectSelectionsFields(env, sels[1..], fieldName, defn, cs, fuel, acc');
      var r := CollectSelections(env, sels[1..], fieldName, defn, cs, fuel, acc');
      forall m | m in found.value ensures m in r.value {
        var k :| 0 <= k < |found.value| && found.value[k] == m;
        assert m == r.value[..|acc'|][|acc| + k];
      }
    }
  }

  /** The key `selections` files a subselection under (`""` for one without
      a name, which `SelectionName` rejects). */
  function KeyOf(n: Node): string {
    match n
    case Field(name, _, _) => name
    case FragmentSpread(name) => name
    case _ => ""
  }

  /** The subselections `selections` visits, in order. */
  function Scan(nodes: seq<Node>, sels: seq<Node>): seq<Node> {
    if nodes == [] then sels else sels + Scan(nodes[1..], Children(nodes[0]))
  }

  function Keys(xs: seq<Node>): (r: seq<string>)
    ensures |r| == |xs| && forall i :: 0 <= i < |xs| ==> r[i] == KeyOf(xs[i])
  {
    if xs == [] then [] else [KeyOf(xs[0])] + Keys(xs[1..])
  }

  lemma ScanCons(nodes: seq<Node>, sels: seq<Node>)
    requires sels != []
    ensures Scan(nodes, sels) == [sels[0]] + Scan(nodes, sels[1..])
    ensures Keys(Scan(nodes, sels)) == [KeyOf(sels[0])] + Keys(Scan(nodes, sels[1..]))
  {
    assert sels == [sels[0]] + sels[1..];
  }

  /** One step of `||=`: the keys after a name is seen. */
  lemma KeysStep(keys: seq<string>, name: string, rest: seq<string>, after: seq<string>)
    requires after == (if name in keys then keys else keys + [name])
    ensures after + UniqAfter(rest, after) == keys + UniqAfter([name] + rest, keys)
  {
    var xs := [name] + rest;
    assert xs[0] == name && xs[1..] == rest;
    if name in keys {
      assert UniqAfter(xs, keys) == UniqAfter(rest, keys);
    } else {
      var tail := UniqAfter(rest, after);
      assert UniqAfter(xs, keys) == [name] + tail;
      assert after + tail == keys + ([name] + tail);
    }
  }

  /** `subselections_by_name` ends up with one key per distinct subselection
      name, in order of first occurrence. */
  lemma {:induction false} ByNameKeys(nodes: seq<Node>, sels: seq<Node>, sel: string -> Result<Lookahead, string>,
                                      h: Hash<string, Lookahead>)
    requires h.Valid()
    ensures var r := ByName(nodes, sels, sel, h);
      r.Success? ==> r.value.keys == h.keys + UniqAfter(Keys(Scan(nodes, sels)), h.keys)
    decreases |nodes|, |sels|, 1
  {
    if sels != [] {
      ByNameKeysCons(nodes, sels, sel, h);
    } else if nodes != [] {
      assert Scan(nodes, sels) == Scan(nodes[1..], Children(nodes[0]));
      ByNameKeys(nodes[1..], Children(nodes[0]), sel, h);
    } else {
      assert Keys(Scan(nodes, sels)) == [];
      assert h.keys + [] == h.keys;
    }
  }

  lemma {:induction false} ByNameKeysCons(nodes: seq<Node>, sels: seq<Node>, sel: string -> Result<Lookahead, string>,
                                          h: Hash<string, Lookahead>)
    requires h.Valid()
    requires sels != []
    ensures var r := ByName(nodes, sels, sel, h);
      r.Success? ==> r.value.keys == h.keys + UniqAfter(Keys(Scan(nodes, sels)), h.keys)
    decreases |nodes|, |sels|, 0
  {
    if ByName(nodes, sels, sel, h).Success? {
      var name := SelectionName(sels[0]).value;
      ScanCons(nodes, sels);
      var after := if name in h.m then h else h.Put(name, sel(name).value);
      ByNameKeys(nodes, sels[1..], sel, after);
      KeysStep(h.keys, name, Keys(Scan(nodes, sels[1..])), after.keys);
    }
  }

  /** A subselection without a name (an inline fragment) raises. */
  lemma {:induction false} ByNameNamed(nodes: seq<Node>, sels: seq<Node>, sel: string -> Result<Lookahead, string>,
                                       h: Hash<string, Lookahead>)
    requires h.Valid()
    ensures ByName(nodes, sels, sel, h).Success? ==> forall x :: x in Scan(nodes, sels) ==> SelectionName(x).Success?
    decreases |nodes|, |sels|
  {
    if ByName(nodes, sels, sel, h).Success? {
      if sels != [] {
        var name := SelectionName(sels[0]).value;
        ScanCons(nodes, sels);
        var after := if name in h.m then h else h.Put(name, sel(name).value);
        ByNameNamed(nodes, sels[1..], sel, after);
      } else if nodes != [] {
        assert Scan(nodes, sels) == Scan(nodes[1..], Children(nodes[0]));
        ByNameNamed(nodes[1..], Children(nodes[0]), sel, h);
      }
    }
  }

  /** Each name added to `subselections_by_name` holds what `sel` gives for
      it. */
  lemma {:induction false} ByNameValues(nodes: seq<Node>, sels: seq<Node>, sel: string -> Result<Lookahead, string>,
                                        h: Hash<string, Lookahead>)
    requires h.Valid()
    ensures var r := ByName(nodes, sels, sel, h);
      r.Success? ==> forall k :: k in r.value.m && k !in h.m ==> sel(k) == Success(r.value.m[k])
    decreases |nodes|, |sels|
  {
    var r := ByName(nodes, sels, sel, h);
    if r.Success? {
      if sels != [] {
        var name := SelectionName(sels[0]).value;
        if name in h.m {
          ByNameValues(nodes, sels[1..], sel, h);
        } else {
          var h' := h.Put(name, sel(name).value);
          ByNameValues(nodes, sels[1..], sel, h');
          assert r.value.Get(name) == h'.Get(name);
        }
      } else if nodes != [] {
        ByNameValues(nodes[1..], Children(nodes[0]), sel, h);
      }
    }
  }

  /** The selected values of the hash `ByName` fills from scratch are
      exactly the selected lookaheads `sel` gives for the distinct names. */
  lemma SelectedByName(nodes: seq<Node>, sel: string -> Result<Lookahead, string>)
    ensures var h := ByName(nodes, [], sel, Empty());
      h.Success? ==>
        var names := Uniq(Keys(Scan(nodes, [])));
        forall x :: x in SelectedOnly(h.value.Values()) <==>
          x.Selected() && exists k :: k in names && sel(k) == Success(x)
  {
    var r := ByName(nodes, [], sel, Empty());
    if r.Success? {
      ByNameKeys(nodes, [], sel, Empty());
      ByNameValues(nodes, [], sel, Empty());
      var names := Uniq(Keys(Scan(nodes, [])));
      assert r.value.keys == names;
      ValuesBySel(r.value, names, sel);
    }
  }

  /** A hash whose every entry is what `sel` gives for its key holds, as
      values, exactly what `sel` gives for its keys. */
  lemma ValuesBySel(h: Hash<string, Lookahead>, names: seq<string>, sel: string -> Result<Lookahead, string>)
    requires h.Valid() && h.keys == names
    requires forall k :: k in h.m ==> sel(k) == Success(h.m[k])
    ensures forall x :: x in h.Values() <==> exists k :: k in names && sel(k) == Success(x)
  {
    forall x | x in h.Values()
      ensures exists k :: k in names && sel(k) == Success(x)
    {
      var i :| 0 <= i < |h.Values()| && h.Values()[i] == x;
      assert h.keys[i] in names;
    }
    forall x: Lookahead, k | k in names && sel(k) == Success(x)
      ensures x in h.Values()
    {
      var i :| 0 <= i < |h.keys| && h.keys[i] == k;
      assert h.Values()[i] == x;
    }
  }

  /** `selections` returns the selected lookaheads among those `selection`
      gives for each distinct subselection name. */
  lemma SelectionsResult(env: Env, la: Lookahead, cs: Constraints, fuel: nat)
    requires EnvValid(env) && la.Real?
    ensures var r := SelectionsOf(env, la, cs, fuel);
      r.Success? ==>
        var names := Uniq(Keys(Scan(la.nodes, [])));
        forall x :: x in r.value <==>
          x.Selected() && exists k :: k in names && SelectionByName(env, la, cs, fuel)(k) == Success(x)
  {
    SelectedByName(la.nodes, SelectionByName(env, la, cs, fuel));
  }
}
