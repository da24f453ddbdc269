/** `Query::SerialExecution::ValueResolution.resolve`: completing the value a
    resolver returned against the field's type (sections 6.4.3 and 6.4.4 of
    the GraphQL specification, June 2018). Null propagation, list completion
    and abstract-type resolution are modelled; type resolution, result
    coercion and the resolution of object selections are parameters. */
module ValueResolution {
  import opened Wrappers
  import opened GraphTypes
  import opened Typecast
  import opened PossibleTypes
  import opened JsonValues
  import opened ErrorObjects
  import opened DefaultTypeError

  /** What a resolver may return: `nil`, an `ExecutionError`, an array, or any
      other object (identified by a number). */
  datatype Value = Nil | ExecErr(error: ExecutionError) | Items(items: seq<Value>) | Obj(id: int)

  /** The collaborators of `resolve`: the schema's object types (for
      `possible_types`), `query.resolve_type(value)`,
      `field_type.coerce_result(value, ctx)` and
      `selection_resolution.resolve(value, type, selection, ctx)`. The path
      stands for the context, which child contexts extend by the list index. */
  datatype Env = Env(
    objectTypes: seq<TypeDefn>,
    resolveType: Value -> GType,
    coerceResult: (TypeDefn, Value, seq<int>) -> Json,
    resolveSelection: (Value, TypeDefn, seq<int>) -> Json)

  /** A schema in which unions hold object types and the object types are
      objects, as schema construction ensures. */
  ghost predicate WellFormed(env: Env, t: GType) {
    (forall d :: d in env.objectTypes ==> d.kind == OBJECT) && UnionsHoldObjects(t)
  }

  datatype Raised = TypeErrorRaised(error: TypeError) | UnknownKind(kind: TypeKind) | NotEnumerable

  /** A completed value, `PropagateNull` raised, or another exception. */
  datatype Outcome = Completed(json: Json) | PropagateNull | Raise(raised: Raised)

  /** The possible types of an abstract type are object types. */
  lemma PossibleAreObjects(env: Env, t: GType)
    requires WellFormed(env, t) && t.IsAbstract()
    ensures forall r :: r in PossibleTypesOf(env.objectTypes, t) ==> r.Named? && r.defn.kind == OBJECT
  {
    var ps := PossibleTypesOf(env.objectTypes, t);
    forall r | r in ps ensures r.Named? && r.defn.kind == OBJECT {
      var i :| 0 <= i < |ps| && ps[i] == r;
      if t.defn.kind == UNION {
        assert t.defn.possibleTypes[i] in t.defn.possibleTypes;
      } else {
        var impl := Implementers(env.objectTypes, t.defn);
        assert impl[i] in impl;
      }
    }
  }

  /** `resolve(parent_type, field_defn, field_type, value, selection, ctx)`:
      the outcome and the context's errors afterwards. An array completed
      against a list type gives one entry per element. */
  function Complete(env: Env, parent: string, field: string, t: GType, v: Value, path: seq<int>,
                    errors: seq<TypeError>): (r: (Outcome, seq<TypeError>))
    requires WellFormed(env, t)
    ensures t.ListOf? && v.Items? && r.0.Completed? ==> r.0.json.JArr? && |r.0.json.items| == |v.items|
    decreases v, Depth(t), if t.IsAbstract() then 1 else 0
  {
    if v.Nil? || v.ExecErr? then
      if t.NonNull? then
        if v.Nil? then (PropagateNull, Handle(errors, InvalidNull(InvalidNullError(parent, field, JNull))).0)
        else (PropagateNull, errors)
      else (Completed(JNull), errors)
    else
      match t
      case NonNull(inner) => Complete(env, parent, field, inner, v, path, errors)
      case ListOf(inner) =>
        if v.Items? then CompleteItems(env, parent, field, inner, v, |v.items|, path, errors)
        else (Raise(NotEnumerable), errors)
      case Named(d) =>
        if d.kind == SCALAR || d.kind == ENUM then (Completed(env.coerceResult(d, v, path)), errors)
        else if d.kind == OBJECT then (Completed(env.resolveSelection(v, d, path)), errors)
        else if d.kind == UNION || d.kind == INTERFACE then
          var resolved := env.resolveType(v);
          var possible := PossibleTypesOf(env.objectTypes, t);
          if resolved !in possible then
            var (errs, raised) := Handle(errors, UnresolvedType(resolved, possible));
            (Raise(TypeErrorRaised(raised.value)), errs)
          else
            PossibleAreObjects(env, t);
            Complete(env, parent, field, resolved, v, path, errors)
        else (Raise(UnknownKind(d.kind)), errors)
  }

  /** The first `n` elements of a list value, each completed with the element
      type in a child context keyed by its index, stopping at the first that
      does not complete. */
  function CompleteItems(env: Env, parent: string, field: string, inner: GType, v: Value, n: nat, path: seq<int>,
                         errors: seq<TypeError>): (r: (Outcome, seq<TypeError>))
    requires v.Items? && n <= |v.items| && WellFormed(env, inner)
    ensures r.0.Completed? ==> r.0.json.JArr? && |r.0.json.items| == n
    decreases v, Depth(inner), n
  {
    if n == 0 then (Completed(JArr([])), errors)
    else
      var (prev, errs) := CompleteItems(env, parent, field, inner, v, n - 1, path, errors);
      if !prev.Completed? then (prev, errs)
      else
        var (o, errs') := Complete(env, parent, field, inner, v.items[n - 1], path + [n - 1], errs);
        if o.Completed? then (Completed(JArr(prev.json.items + [o.json])), errs') else (o, errs')
  }

  /** Once an element fails to complete, later elements are not visited. */
  lemma {:induction false} ItemsStop(env: Env, parent: string, field: string, inner: GType, v: Value, n: nat, m: nat,
                                     path: seq<int>, errors: seq<TypeError>)
    requires v.Items? && m <= n <= |v.items| && WellFormed(env, inner)
    requires !CompleteItems(env, parent, field, inner, v, m, path, errors).0.Completed?
    ensures CompleteItems(env, parent, field, inner, v, n, path, errors) == CompleteItems(env, parent, field, inner, v, m, path, errors)
    decreases n
  {
    if n > m {
      ItemsStop(env, parent, field, inner, v, n - 1, m, path, errors);
    }
  }

  /** `resolve`, with the errors recorded on `ctx`. */
  method Resolve(env: Env, parent: string, field: string, t: GType, v: Value, path: seq<int>, ctx: Context)
    returns (o: Outcome)
    requires WellFormed(env, t)
    modifies ctx
    ensures (o, ctx.errors) == Complete(env, parent, field, t, v, path, old(ctx.errors))
    decreases v, Depth(t), if t.IsAbstract() then 1 else 0
  {
    if v.Nil? || v.ExecErr? {
      if t.NonNull? {
        if v.Nil? {
          var _ := ctx.Call(InvalidNull(InvalidNullError(parent, field, JNull)));
        }
        return PropagateNull;
      }
      return Completed(JNull);
    }
    match t {
      case NonNull(inner) =>
        o := Resolve(env, parent, field, inner, v, path, ctx);
      case ListOf(inner) =>
        if !v.Items? {
          return Raise(NotEnumerable);
        }
        var result: seq<Json> := [];
        var i := 0;
        while i < |v.items|
          invariant 0 <= i <= |v.items|
          invariant CompleteItems(env, parent, field, inner, v, i, path, old(ctx.errors)) == (Completed(JArr(result)), ctx.errors)
        {
          var r := Resolve(env, parent, field, inner, v.items[i], path + [i], ctx);
          if !r.Completed? {
            assert CompleteItems(env, parent, field, inner, v, i + 1, path, old(ctx.errors)) == (r, ctx.errors);
            ItemsStop(env, parent, field, inner, v, |v.items|, i + 1, path, old(ctx.errors));
            return r;
          }
          result := result + [r.json];
          i := i + 1;
        }
        o := Completed(JArr(result));
      case Named(d) =>
        if d.kind == SCALAR || d.kind == ENUM {
          o := Completed(env.coerceResult(d, v, path));
        } else if d.kind == OBJECT {
          o := Completed(env.resolveSelection(v, d, path));
        } else if d.kind == UNION || d.kind == INTERFACE {
          var resolved := env.resolveType(v);
          var possible := PossibleTypesOf(env.objectTypes, t);
          if resolved !in possible {
            var raised := ctx.Call(UnresolvedType(resolved, possible));
            return Raise(TypeErrorRaised(raised.value));
          }
          PossibleAreObjects(env, t);
          o := Resolve(env, parent, field, resolved, v, path, ctx);
        } else {
          o := Raise(UnknownKind(d.kind));
        }
    }
  }

  /** A `nil` on a non-null type records an `InvalidNullError` for the field
      and propagates the null. */
  lemma NullOnNonNull(env: Env, parent: string, field: string, t: GType, path: seq<int>, errors: seq<TypeError>)
    requires WellFormed(env, t) && t.NonNull?
    ensures Complete(env, parent, field, t, Nil, path, errors) ==
      (PropagateNull, errors + [InvalidNull(InvalidNullError(parent, field, JNull))])
  {
  }

  /** An `ExecutionError` on a non-null type propagates the null without
      recording an `InvalidNullError`. */
  lemma ErrorOnNonNull(env: Env, parent: string, field: string, t: GType, e: ExecutionError, path: seq<int>,
                       errors: seq<TypeError>)
    requires WellFormed(env, t) && t.NonNull?
    ensures Complete(env, parent, field, t, ExecErr(e), path, errors) == (PropagateNull, errors)
  {
  }

  /** On a nullable type, `nil` and an `ExecutionError` complete to `nil`. */
  lemma NullableNothing(env: Env, parent: string, field: string, t: GType, v: Value, path: seq<int>,
                        errors: seq<TypeError>)
    requires WellFormed(env, t) && !t.NonNull? && (v.Nil? || v.ExecErr?)
    ensures Complete(env, parent, field, t, v, path, errors) == (Completed(JNull), errors)
  {
  }

  /** Scalars and enums go through the type's `coerce_result`; objects through
      selection resolution; other named kinds raise. */
  lemma NamedCompletion(env: Env, parent: string, field: string, d: TypeDefn, v: Value, path: seq<int>,
                        errors: seq<TypeError>)
    requires WellFormed(env, Named(d)) && !v.Nil? && !v.ExecErr?
    ensures d.kind == SCALAR || d.kind == ENUM ==>
      Complete(env, parent, field, Named(d), v, path, errors) == (Completed(env.coerceResult(d, v, path)), errors)
    ensures d.kind == OBJECT ==>
      Complete(env, parent, field, Named(d), v, path, errors) == (Completed(env.resolveSelection(v, d, path)), errors)
    ensures d.kind == INPUT_OBJECT ==>
      Complete(env, parent, field, Named(d), v, path, errors) == (Raise(UnknownKind(INPUT_OBJECT)), errors)
  {
  }

  /** A non-null wrapper around a present value completes as its inner type. */
  lemma NonNullPresent(env: Env, parent: string, field: string, inner: GType, v: Value, path: seq<int>,
                       errors: seq<TypeError>)
    requires WellFormed(env, NonNull(inner)) && !v.Nil? && !v.ExecErr?
    ensures Complete(env, parent, field, NonNull(inner), v, path, errors) == Complete(env, parent, field, inner, v, path, errors)
  {
  }

  /** A union or interface resolves the value's type: one outside the possible
      types is raised as an `UnresolvedTypeError` (the default policy), one
      inside completes the value as that type. */
  lemma AbstractCompletion(env: Env, parent: string, field: string, t: GType, v: Value, path: seq<int>,
                           errors: seq<TypeError>)
    requires WellFormed(env, t) && t.IsAbstract() && !v.Nil? && !v.ExecErr?
    ensures env.resolveType(v) !in PossibleTypesOf(env.objectTypes, t) ==>
      Complete(env, parent, field, t, v, path, errors) ==
        (Raise(TypeErrorRaised(UnresolvedType(env.resolveType(v), PossibleTypesOf(env.objectTypes, t)))), errors)
    ensures env.resolveType(v) in PossibleTypesOf(env.objectTypes, t) ==>
      env.resolveType(v).Named? && env.resolveType(v).defn.kind == OBJECT &&
      Complete(env, parent, field, t, v, path, errors) ==
        (Completed(env.resolveSelection(v, env.resolveType(v).defn, path)), errors)
  {
    var resolved := env.resolveType(v);
    var possible := PossibleTypesOf(env.objectTypes, t);
    PossibleAreObjects(env, t);
    if resolved in possible {
      assert resolved.Named? && resolved.defn.kind == OBJECT;
      assert Complete(env, parent, field, resolved, v, path, errors) ==
        (Completed(env.resolveSelection(v, resolved.defn, path)), errors);
    }
  }

  /** A completed list's first `m` results are those of its first `m`
      elements. */
  lemma {:induction false} ItemsPrefix(env: Env, parent: string, field: string, inner: GType, v: Value, n: nat, m: nat,
                                       path: seq<int>, errors: seq<TypeError>)
    requires v.Items? && m <= n <= |v.items| && WellFormed(env, inner)
    requires CompleteItems(env, parent, field, inner, v, n, path, errors).0.Completed?
    ensures CompleteItems(env, parent, field, inner, v, m, path, errors).0.Completed?
    ensures CompleteItems(env, parent, field, inner, v, m, path, errors).0.json.items ==
      CompleteItems(env, parent, field, inner, v, n, path, errors).0.json.items[..m]
    decreases n
  {
    if n > m {
      var prev := CompleteItems(env, parent, field, inner, v, n - 1, path, errors).0;
      var cur := CompleteItems(env, parent, field, inner, v, n, path, errors).0;
      assert prev.Completed?;
      assert prev.json.items == cur.json.items[..n - 1];
      ItemsPrefix(env, parent, field, inner, v, n - 1, m, path, errors);
    } else {
      var cur := CompleteItems(env, parent, field, inner, v, n, path, errors).0;
      assert cur.json.items[..m] == cur.json.items;
    }
  }

  /** The `j`th result is the `j`th element completed under the key `j`. */
  lemma ItemAt(env: Env, parent: string, field: string, inner: GType, v: Value, j: nat, path: seq<int>,
               errors: seq<TypeError>)
    requires v.Items? && j < |v.items| && WellFormed(env, inner)
    requires CompleteItems(env, parent, field, inner, v, j + 1, path, errors).0.Completed?
    ensures
      var before := CompleteItems(env, parent, field, inner, v, j, path, errors);
      Complete(env, parent, field, inner, v.items[j], path + [j], before.1).0 ==
        Completed(CompleteItems(env, parent, field, inner, v, j + 1, path, errors).0.json.items[j])
  {
  }

  /** A completed list has one entry per element of the value, the `i`th being
      the element completed with the element type under the key `i`, after
      the elements before it. */
  lemma ListCompletion(env: Env, parent: string, field: string, inner: GType, items: seq<Value>, path: seq<int>,
                       errors: seq<TypeError>)
    requires WellFormed(env, ListOf(inner))
    requires Complete(env, parent, field, ListOf(inner), Items(items), path, errors).0.Completed?
    ensures Complete(env, parent, field, ListOf(inner), Items(items), path, errors).0.json.JArr?
    ensures |Complete(env, parent, field, ListOf(inner), Items(items), path, errors).0.json.items| == |items|
    ensures forall i :: 0 <= i < |items| ==>
      Complete(env, parent, field, inner, items[i], path + [i],
               CompleteItems(env, parent, field, inner, Items(items), i, path, errors).1).0 ==
      Completed(Complete(env, parent, field, ListOf(inner), Items(items), path, errors).0.json.items[i])
  {
    var v := Items(items);
    var whole := CompleteItems(env, parent, field, inner, v, |items|, path, errors).0;
    assert Complete(env, parent, field, ListOf(inner), v, path, errors).0 == whole;
    forall i | 0 <= i < |items|
      ensures Complete(env, parent, field, inner, items[i], path + [i],
                       CompleteItems(env, parent, field, inner, v, i, path, errors).1).0 ==
              Completed(whole.json.items[i])
    {
      ItemsPrefix(env, parent, field, inner, v, |items|, i + 1, path, errors);
      ItemAt(env, parent, field, inner, v, i, path, errors);
      assert v.items[i] == items[i];
    }
  }

  /** `after` is `before` followed by invalid-null errors only. */
  ghost predicate AppendsInvalidNulls(before: seq<TypeError>, after: seq<TypeError>)
  {
    |before| <= |after| && after[..|before|] == before &&
    forall i :: |before| <= i < |after| ==> after[i].InvalidNull?
  }

  lemma AppendsTrans(a: seq<TypeError>, b: seq<TypeError>, c: seq<TypeError>)
    requires AppendsInvalidNulls(a, b) && AppendsInvalidNulls(b, c)
    ensures AppendsInvalidNulls(a, c)
  {
    assert c[..|a|] == c[..|b|][..|a|];
  }

  /** Completion only appends to the context's errors, and only
      `InvalidNullError`s. */
  lemma {:induction false} ErrorsOnlyGrow(env: Env, parent: string, field: string, t: GType, v: Value, path: seq<int>,
                                          errors: seq<TypeError>)
    requires WellFormed(env, t)
    ensures var errs := Complete(env, parent, field, t, v, path, errors).1;
      AppendsInvalidNulls(errors, errs)
    decreases v, Depth(t), if t.IsAbstract() then 1 else 0
  {
    if v.Nil? || v.ExecErr? {
    } else {
      match t
      case NonNull(inner) => ErrorsOnlyGrow(env, parent, field, inner, v, path, errors);
      case ListOf(inner) =>
        if v.Items? {
          ItemsErrorsOnlyGrow(env, parent, field, inner, v, |v.items|, path, errors);
        }
      case Named(d) =>
        if t.IsAbstract() {
          var resolved := env.resolveType(v);
          if resolved in PossibleTypesOf(env.objectTypes, t) {
            PossibleAreObjects(env, t);
            ErrorsOnlyGrow(env, parent, field, resolved, v, path, errors);
          }
        }
    }
  }

  lemma {:induction false} ItemsErrorsOnlyGrow(env: Env, parent: string, field: string, inner: GType, v: Value, n: nat,
                                               path: seq<int>, errors: seq<TypeError>)
    requires v.Items? && n <= |v.items| && WellFormed(env, inner)
    ensures var errs := CompleteItems(env, parent, field, inner, v, n, path, errors).1;
      AppendsInvalidNulls(errors, errs)
    decreases v, Depth(inner), n
  {
    if n > 0 {
      ItemsErrorsOnlyGrow(env, parent, field, inner, v, n - 1, path, errors);
      var (prev, errs) := CompleteItems(env, parent, field, inner, v, n - 1, path, errors);
      if prev.Completed? {
        var after := Complete(env, parent, field, inner, v.items[n - 1], path + [n - 1], errs).1;
        ErrorsOnlyGrow(env, parent, field, inner, v.items[n - 1], path + [n - 1], errs);
        AppendsTrans(errors, errs, after);
        assert CompleteItems(env, parent, field, inner, v, n, path, errors).1 == after;
      } else {
        assert CompleteItems(env, parent, field, inner, v, n, path, errors).1 == errs;
      }
    } else {
      assert errors[..|errors|] == errors;
    }
  }
}
