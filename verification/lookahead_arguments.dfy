/** `Execution::Lookahead::ArgumentHelpers`: turning the argument literals of a
    query into Ruby keyword arguments, telling a `null` the client wrote apart
    from an argument it left out, and filling in declared defaults. */
module LookaheadArguments {
  import opened Wrappers
  import opened Hashes
  import opened GraphTypes
  import opened RubyValues

  /** An argument definition: its Ruby keyword, its type and its default. */
  datatype ArgDefn = ArgDefn(keyword: string, argType: GType, default: Option<RValue>)

  /** What the helpers consult: the query's variables, the argument
      definitions of each input object type, and each leaf type's
      `coerce_input`. */
  datatype Query = Query(
    variables: map<string, RValue>,
    inputArguments: TypeDefn -> Hash<string, ArgDefn>,
    coerceInput: (TypeDefn, RValue) -> RValue)

  /** Argument definitions are Ruby hashes. */
  ghost predicate QueryValid(q: Query) {
    forall d :: q.inputArguments(d).Valid()
  }

  /** `query.variables[name]`, `nil` when it is missing. */
  function Variable(q: Query, name: string): RValue {
    if name in q.variables then q.variables[name] else RNil
  }

  /** `arg_to_value(query, nil, arg_type, ast_value)`: whether the argument is
      present, and its value. Only a variable can be absent, and a list type
      always gives a list. A leaf-typed literal is flattened with the
      corrected `Flatten`. */
  function ArgToValue(q: Query, t: GType, v: AstValue): (r: Result<(bool, RValue), string>)
    requires QueryValid(q)
    ensures r.Success? && !v.AVar? ==> r.value.0
    ensures r.Success? && t.ListOf? && !v.AVar? && !v.ANull? ==> r.value.1.RList?
    decreases v, Depth(t) + 2, 0
  {
    if v.AVar? then
      if v.name in q.variables then Success((true, q.variables[v.name])) else Success((false, RNil))
    else if v.ANull? then Success((true, RNil))
    else
      match t
      case NonNull(inner) => ArgToValue(q, inner, v)
      case ListOf(inner) =>
        if v.AList? then
          var items :- ListValues(q, inner, v, v.items, []);
          Success((true, RList(items)))
        else
          // `Array(ast_value)` wraps a single value.
          var one :- ArgToValue(q, inner, v);
          Success((true, RList([one.1])))
      case Named(d) =>
        if d.kind == INPUT_OBJECT then
          if !v.AInputObject? then Failure("undefined method `arguments'")
          else
            var args :- KwArgs(q, q.inputArguments(d), v);
            Success((true, RInput(d.name, args)))
        else
          Success((true, q.coerceInput(d, Flatten(q, v))))
  }

  /** The elements of a list literal, each converted with the element type;
      an element's presence is ignored. */
  function ListValues(q: Query, inner: GType, parent: AstValue, rest: seq<AstValue>, acc: seq<RValue>)
    : (r: Result<seq<RValue>, string>)
    requires QueryValid(q)
    requires forall a :: a in rest ==> a < parent
    ensures r.Success? ==> |r.value| == |acc| + |rest| && r.value[..|acc|] == acc
    decreases parent, 0, |rest|
  {
    if rest == [] then Success(acc)
    else
      assert rest[0] in rest && forall a :: a in rest[1..] ==> a in rest;
      var x :- ArgToValue(q, inner, rest[0]);
      ListValues(q, inner, parent, rest[1..], acc + [x.1])
  }

  /** `arguments(query, nil, arg_owner, ast_node)` for an AST node whose
      arguments are `node.args`. */
  function KwArgs(q: Query, defs: Hash<string, ArgDefn>, node: AstValue): (r: Result<Hash<string, RValue>, string>)
    requires QueryValid(q)
    requires node.AInputObject? && defs.Valid()
    ensures r.Success? ==> r.value.Valid()
    decreases node, 1, 0
  {
    var given :- GivenArgs(q, defs, node, node.args, Empty());
    Success(Defaults(defs, defs.keys, given))
  }

  /** The first loop of `arguments`: every argument in the query, converted
      and stored under its keyword when present. */
  function GivenArgs(q: Query, defs: Hash<string, ArgDefn>, parent: AstValue, rest: seq<(string, AstValue)>,
                     kw: Hash<string, RValue>): (r: Result<Hash<string, RValue>, string>)
    requires QueryValid(q)
    requires forall a :: a in rest ==> a.1 < parent
    requires defs.Valid() && kw.Valid()
    ensures r.Success? ==> r.value.Valid()
    ensures r.Success? ==> forall k :: k in kw.m ==> k in r.value.m
    decreases parent, 0, |rest|
  {
    if rest == [] then Success(kw)
    else
      var (name, value) := rest[0];
      if name !in defs.m then Failure("Invariant: missing argument definition for " + name)
      else
        var defn := defs.m[name];
        var x :- ArgToValue(q, defn.argType, value);
        GivenArgs(q, defs, parent, rest[1..], if x.0 then kw.Put(defn.keyword, x.1) else kw)
  }

  /** The second loop of `arguments`: defaults for the keywords still absent. */
  function Defaults(defs: Hash<string, ArgDefn>, rest: seq<string>, kw: Hash<string, RValue>): (r: Hash<string, RValue>)
    requires defs.Valid() && kw.Valid()
    requires forall n :: n in rest ==> n in defs.m
    ensures r.Valid()
    ensures forall k :: k in kw.m ==> k in r.m && r.m[k] == kw.m[k]
  {
    if rest == [] then kw
    else
      var defn := defs.m[rest[0]];
      Defaults(defs, rest[1..], if defn.default.Some? && defn.keyword !in kw.m then kw.Put(defn.keyword, defn.default.value) else kw)
  }

  /** What a variable reference found inside a literal becomes: the written
      call raises, the intended one looks the variable up. */
  datatype VariableMode = AsWritten | Resolving(q: Query)

  /** Ruby's `ArgumentError` for a call with one argument too few. */
  const ARITY_ERROR: string := "wrong number of arguments (given 1, expected 2)"

  function OnVariable(mode: VariableMode, name: string): (r: Result<RValue, string>)
    ensures r.Failure? ==> mode.AsWritten? && r.error == ARITY_ERROR
  {
    match mode
    case AsWritten => Failure(ARITY_ERROR)
    case Resolving(q) => Success(Variable(q, name))
  }

  /** `flatten_ast_value`, parameterised by what a variable reference found
      inside a literal becomes. */
  function FlattenWith(v: AstValue, onVariable: VariableMode): (r: Result<RValue, string>)
    ensures r.Failure? ==> onVariable.AsWritten? && r.error == ARITY_ERROR
    decreases v, 1, 0
  {
    match v
    case AEnum(name) => Success(RStr(name))
    case AInputObject(args) => var h :- FlattenArgs(v, args, Empty(), onVariable); Success(RHash(h))
    case AList(items) => var xs :- FlattenItems(v, items, [], onVariable); Success(RList(xs))
    case AVar(name) => OnVariable(onVariable, name)
    case ANull => Success(RNullNode)
    case ALit(lit) => Success(lit)
  }

  function FlattenArgs(parent: AstValue, rest: seq<(string, AstValue)>, h: Hash<string, RValue>,
                       onVariable: VariableMode): (r: Result<Hash<string, RValue>, string>)
    requires forall a :: a in rest ==> a.1 < parent
    requires h.Valid()
    ensures r.Success? ==> r.value.Valid()
    ensures r.Failure? ==> onVariable.AsWritten? && r.error == ARITY_ERROR
    decreases parent, 0, |rest|
  {
    if rest == [] then Success(h)
    else
      var x :- FlattenWith(rest[0].1, onVariable);
      FlattenArgs(parent, rest[1..], h.Put(rest[0].0, x), onVariable)
  }

  function FlattenItems(parent: AstValue, rest: seq<AstValue>, acc: seq<RValue>,
                        onVariable: VariableMode): (r: Result<seq<RValue>, string>)
    requires forall a :: a in rest ==> a < parent
    ensures r.Success? ==> |r.value| == |acc| + |rest| && r.value[..|acc|] == acc
    ensures r.Failure? ==> onVariable.AsWritten? && r.error == ARITY_ERROR
    decreases parent, 0, |rest|
  {
    if rest == [] then Success(acc)
    else
      assert rest[0] in rest && forall a :: a in rest[1..] ==> a in rest;
      var x :- FlattenWith(rest[0], onVariable);
      FlattenItems(parent, rest[1..], acc + [x], onVariable)
  }

  /** `flatten_ast_value` as written: a variable inside a literal is flattened
      by a call that omits the `query` argument, which raises Ruby's
      `ArgumentError`; nothing else fails. */
  function FlattenAsWritten(v: AstValue): (r: Result<RValue, string>)
    ensures r.Failure? ==> r.error == ARITY_ERROR
  {
    FlattenWith(v, AsWritten)
  }

  /** `flatten_ast_value` as evidently intended: a variable inside a literal
      becomes the variable's value, an enum its name, and a list a list of
      as many values. */
  function Flatten(q: Query, v: AstValue): (r: RValue)
    ensures v.AVar? ==> r == Variable(q, v.name)
    ensures v.AEnum? ==> r == RStr(v.name)
    ensures v.AList? ==> r.RList? && |r.items| == |v.items|
  {
    var r := FlattenWith(v, Resolving(q));
    FlattenTotal(v, Resolving(q));
    r.value
  }

  /** The literal mentions a variable somewhere. */
  predicate HasVariable(v: AstValue) {
    match v
    case AVar(_) => true
    case AInputObject(args) => exists i :: 0 <= i < |args| && HasVariable(args[i].1)
    case AList(items) => exists i :: 0 <= i < |items| && HasVariable(items[i])
    case _ => false
  }

  /** With variables resolved to values, flattening never fails. */
  lemma {:induction false} FlattenTotal(v: AstValue, onVariable: VariableMode)
    requires onVariable.Resolving?
    ensures FlattenWith(v, onVariable).Success?
    decreases v, 1, 0
  {
    match v
    case AInputObject(args) => FlattenArgsTotal(v, args, Empty(), onVariable);
    case AList(items) => FlattenItemsTotal(v, items, [], onVariable);
    case _ =>
  }

  lemma {:induction false} FlattenArgsTotal(parent: AstValue, rest: seq<(string, AstValue)>, h: Hash<string, RValue>,
                                            onVariable: VariableMode)
    requires forall a :: a in rest ==> a.1 < parent
    requires h.Valid() && onVariable.Resolving?
    ensures FlattenArgs(parent, rest, h, onVariable).Success?
    decreases parent, 0, |rest|
  {
    if rest != [] {
      FlattenTotal(rest[0].1, onVariable);
      var x := FlattenWith(rest[0].1, onVariable).value;
      FlattenArgsTotal(parent, rest[1..], h.Put(rest[0].0, x), onVariable);
    }
  }

  lemma {:induction false} FlattenItemsTotal(parent: AstValue, rest: seq<AstValue>, acc: seq<RValue>,
                                             onVariable: VariableMode)
    requires forall a :: a in rest ==> a < parent
    requires onVariable.Resolving?
    ensures FlattenItems(parent, rest, acc, onVariable).Success?
    decreases parent, 0, |rest|
  {
    if rest != [] {
      assert rest[0] in rest && forall a :: a in rest[1..] ==> a in rest;
      FlattenTotal(rest[0], onVariable);
      var x := FlattenWith(rest[0], onVariable).value;
      FlattenItemsTotal(parent, rest[1..], acc + [x], onVariable);
    }
  }

  /** `arguments`, building `kwarg_arguments` in its two loops. */
  method Arguments(q: Query, defs: Hash<string, ArgDefn>, node: AstValue) returns (r: Result<Hash<string, RValue>, string>)
    requires QueryValid(q) && node.AInputObject? && defs.Valid()
    ensures r == KwArgs(q, defs, node)
  {
    var args := node.args;
    var kw: Hash<string, RValue> := Empty();
    var i := 0;
    while i < |args|
      invariant 0 <= i <= |args| && kw.Valid()
      invariant GivenArgs(q, defs, node, args, Empty()) == GivenArgs(q, defs, node, args[i..], kw)
    {
      assert args[i..][0] == args[i] && args[i..][1..] == args[i + 1..];
      var (name, value) := args[i];
      if name !in defs.m {
        return Failure("Invariant: missing argument definition for " + name);
      }
      var defn := defs.m[name];
      var x := ArgToValue(q, defn.argType, value);
      if x.Failure? {
        return Failure(x.error);
      }
      if x.value.0 {
        kw := kw.Put(defn.keyword, x.value.1);
      }
      i := i + 1;
    }
    ghost var given := kw;
    var j := 0;
    while j < |defs.keys|
      invariant 0 <= j <= |defs.keys| && kw.Valid()
      invariant Defaults(defs, defs.keys, given) == Defaults(defs, defs.keys[j..], kw)
    {
      assert defs.keys[j..][0] == defs.keys[j] && defs.keys[j..][1..] == defs.keys[j + 1..];
      var defn := defs.m[defs.keys[j]];
      if defn.default.Some? && defn.keyword !in kw.m {
        kw := kw.Put(defn.keyword, defn.default.value);
      }
      j := j + 1;
    }
    r := Success(kw);
  }

  /** A variable is present exactly when the query supplies it; a `null`
      literal is present with `nil`; a list is always present, with one
      entry per element of a list literal, and a single value is taken as a
      one-element list. */
  lemma ArgToValueShape(q: Query, t: GType, v: AstValue)
    requires QueryValid(q)
    ensures v.AVar? ==> ArgToValue(q, t, v) == Success((v.name in q.variables, Variable(q, v.name)))
    ensures v.ANull? ==> ArgToValue(q, t, v) == Success((true, RNil))
    ensures !v.AVar? && !v.ANull? && t.NonNull? ==> ArgToValue(q, t, v) == ArgToValue(q, t.ofType, v)
    ensures !v.AVar? && !v.ANull? && t.ListOf? && ArgToValue(q, t, v).Success? ==>
      ArgToValue(q, t, v).value.0 && ArgToValue(q, t, v).value.1.RList? &&
      |ArgToValue(q, t, v).value.1.items| == (if v.AList? then |v.items| else 1)
  {
  }

  /** An argument the owner does not declare makes `arguments` raise. */
  lemma {:induction false} UndeclaredRaises(q: Query, defs: Hash<string, ArgDefn>, parent: AstValue,
                                            rest: seq<(string, AstValue)>, kw: Hash<string, RValue>, i: nat)
    requires QueryValid(q) && defs.Valid() && kw.Valid()
    requires forall a :: a in rest ==> a.1 < parent
    requires i < |rest| && rest[i].0 !in defs.m
    ensures GivenArgs(q, defs, parent, rest, kw).Failure?
    decreases i
  {
    if i > 0 && rest[0].0 in defs.m {
      var defn := defs.m[rest[0].0];
      var x := ArgToValue(q, defn.argType, rest[0].1);
      if x.Success? {
        assert rest[1..][i - 1] == rest[i];
        UndeclaredRaises(q, defs, parent, rest[1..], if x.value.0 then kw.Put(defn.keyword, x.value.1) else kw, i - 1);
      }
    }
  }

  /** Defaults never replace a keyword the query gave, even one given as
      `null`; every declared default ends up present; and nothing else is
      added. */
  lemma {:induction false} DefaultsFill(defs: Hash<string, ArgDefn>, rest: seq<string>, kw: Hash<string, RValue>)
    requires defs.Valid() && kw.Valid()
    requires forall n :: n in rest ==> n in defs.m
    ensures forall k :: k in kw.m ==> Defaults(defs, rest, kw).Get(k) == kw.Get(k)
    ensures forall n :: n in rest && defs.m[n].default.Some? ==> defs.m[n].keyword in Defaults(defs, rest, kw).m
    ensures forall k :: k in Defaults(defs, rest, kw).m ==>
      k in kw.m || exists n :: n in rest && defs.m[n].default.Some? && defs.m[n].keyword == k
  {
    if rest != [] {
      var defn := defs.m[rest[0]];
      var kw' := if defn.default.Some? && defn.keyword !in kw.m then kw.Put(defn.keyword, defn.default.value) else kw;
      DefaultsFill(defs, rest[1..], kw');
      assert forall n :: n in rest[1..] ==> n in rest;
      assert forall n :: n in rest ==> n == rest[0] || n in rest[1..];
    }
  }

  /** Where the written and the intended `flatten_ast_value` part: the
      written one fails on every literal holding a variable, and agrees with
      the intended one everywhere else. */
  lemma {:induction false} FlattenAsWrittenFails(q: Query, v: AstValue)
    ensures FlattenAsWritten(v).Failure? <==> HasVariable(v)
    ensures !HasVariable(v) ==> FlattenAsWritten(v) == Success(Flatten(q, v))
    decreases v, 1, 0
  {
    var bad, good := AsWritten, Resolving(q);
    match v
    case AInputObject(args) => FlattenArgsAgree(q, v, args, Empty(), bad, good);
    case AList(items) => FlattenItemsAgree(q, v, items, [], bad, good);
    case _ =>
  }

  lemma {:induction false} FlattenArgsAgree(q: Query, parent: AstValue, rest: seq<(string, AstValue)>, h: Hash<string, RValue>,
                                            bad: VariableMode, good: VariableMode)
    requires forall a :: a in rest ==> a.1 < parent
    requires h.Valid()
    requires bad == AsWritten && good == Resolving(q)
    ensures FlattenArgs(parent, rest, h, bad).Failure? <==> exists i :: 0 <= i < |rest| && HasVariable(rest[i].1)
    ensures (forall i :: 0 <= i < |rest| ==> !HasVariable(rest[i].1)) ==>
      FlattenArgs(parent, rest, h, bad) == FlattenArgs(parent, rest, h, good)
    decreases parent, 0, |rest|
  {
    if rest != [] {
      FlattenAsWrittenFails(q, rest[0].1);
      assert FlattenWith(rest[0].1, bad) == FlattenAsWritten(rest[0].1);
      FlattenTotal(rest[0].1, good);
      if !HasVariable(rest[0].1) {
        var x := FlattenWith(rest[0].1, bad).value;
        assert FlattenWith(rest[0].1, good) == Success(Flatten(q, rest[0].1));
        FlattenArgsAgree(q, parent, rest[1..], h.Put(rest[0].0, x), bad, good);
        assert forall i :: 1 <= i < |rest| ==> rest[1..][i - 1] == rest[i];
      }
    }
  }

  lemma {:induction false} FlattenItemsAgree(q: Query, parent: AstValue, rest: seq<AstValue>, acc: seq<RValue>,
                                             bad: VariableMode, good: VariableMode)
    requires forall a :: a in rest ==> a < parent
    requires bad == AsWritten && good == Resolving(q)
    ensures FlattenItems(parent, rest, acc, bad).Failure? <==> exists i :: 0 <= i < |rest| && HasVariable(rest[i])
    ensures (forall i :: 0 <= i < |rest| ==> !HasVariable(rest[i])) ==>
      FlattenItems(parent, rest, acc, bad) == FlattenItems(parent, rest, acc, good)
    decreases parent, 0, |rest|
  {
    if rest != [] {
      assert rest[0] in rest && forall a :: a in rest[1..] ==> a in rest;
      FlattenAsWrittenFails(q, rest[0]);
      assert FlattenWith(rest[0], bad) == FlattenAsWritten(rest[0]);
      FlattenTotal(rest[0], good);
      if !HasVariable(rest[0]) {
        var x := FlattenWith(rest[0], bad).value;
        assert FlattenWith(rest[0], good) == Success(Flatten(q, rest[0]));
        FlattenItemsAgree(q, parent, rest[1..], acc + [x], bad, good);
        assert forall i :: 1 <= i < |rest| ==> rest[1..][i - 1] == rest[i];
      }
    }
  }

  /** A variable inside a list literal: `[$x]` given to a scalar argument. */
  lemma NestedVariable(q: Query, x: string)
    ensures FlattenAsWritten(AList([AVar(x)])).Failure?
    ensures Flatten(q, AList([AVar(x)])) == RList([Variable(q, x)])
  {
    var v := AList([AVar(x)]);
    assert HasVariable(v) by { assert HasVariable(v.items[0]); }
    FlattenAsWrittenFails(q, v);
    assert v.items[1..] == [];
    assert FlattenWith(AVar(x), Resolving(q)) == Success(Variable(q, x));
    assert FlattenItems(v, v.items, [], Resolving(q)) == FlattenItems(v, [], [Variable(q, x)], Resolving(q));
    assert FlattenItems(v, [], [Variable(q, x)], Resolving(q)) == Success([Variable(q, x)]);
  }
}
