/** `InputObjectType`: coercing and validating input objects (section 3.10
    of the GraphQL specification, June 2018). */
module InputObjects {
  import opened Wrappers
  import opened Hashes
  import opened RubyValues
  import opened InputValidation
  import opened RubyArrays

  /** A declared input field: its type's `coerce_result`, `coerce_input` and
      `validate_input` (as the problems it reports), its default value and
      its `prepare` hook. The context argument is left out. */
  datatype InputField = InputField(
    coerceResult: RValue -> RValue,
    coerceInput: RValue -> RValue,
    validateInput: RValue -> seq<Problem>,
    default: Option<RValue>,
    prepare: RValue -> RValue)

  /** An input object type: its name and its `arguments` hash. */
  datatype InputObjectType = InputObjectType(name: string, arguments: Hash<string, InputField>)

  /** A key of an application-supplied hash: a symbol or a string. */
  datatype Key = SymKey(sym: string) | StrKey(str: string)

  /** `key.to_s` */
  function KeyString(k: Key): string {
    match k
    case SymKey(s) => s
    case StrKey(s) => s
  }

  // coerce_result

  /** `value.reduce({}) { |memo, (k, v)| memo[k.to_s] = v; memo }` over the
      keys still to visit. */
  function StringKeys(ks: seq<Key>, value: map<Key, RValue>, memo: Hash<string, RValue>): (r: Hash<string, RValue>)
    requires memo.Valid() && forall k :: k in ks ==> k in value
    ensures r.Valid()
    ensures forall s :: s in r.m <==> s in memo.m || exists k :: k in ks && KeyString(k) == s
  {
    if ks == [] then memo
    else StringKeys(ks[1..], value, memo.Put(KeyString(ks[0]), value[ks[0]]))
  }

  /** Keys that stringify differently keep their values; of two that
      stringify alike, the later one wins. */
  lemma {:induction false} StringKeysValue(ks: seq<Key>, value: map<Key, RValue>, memo: Hash<string, RValue>, i: nat)
    requires memo.Valid() && forall k :: k in ks ==> k in value
    requires i < |ks|
    requires forall j :: i < j < |ks| ==> KeyString(ks[j]) != KeyString(ks[i])
    ensures StringKeys(ks, value, memo).m[KeyString(ks[i])] == value[ks[i]]
  {
    var memo' := memo.Put(KeyString(ks[0]), value[ks[0]]);
    if i == 0 {
      StringKeysKeeps(ks[1..], value, memo', KeyString(ks[0]));
    } else {
      StringKeysValue(ks[1..], value, memo', i - 1);
    }
  }

  lemma {:induction false} StringKeysKeeps(ks: seq<Key>, value: map<Key, RValue>, memo: Hash<string, RValue>, s: string)
    requires memo.Valid() && forall k :: k in ks ==> k in value
    requires s in memo.m && forall k :: k in ks ==> KeyString(k) != s
    ensures StringKeys(ks, value, memo).m[s] == memo.m[s]
  {
    if ks != [] {
      StringKeysKeeps(ks[1..], value, memo.Put(KeyString(ks[0]), value[ks[0]]), s);
    }
  }

  /** The result entry for one declared key: `nil` stays `nil` without
      consulting the field type. */
  function ResultEntry(f: InputField, v: RValue): RValue {
    if v.RNil? then RNil else f.coerceResult(v)
  }

  /** `coerce_result`'s loop over the declared arguments still to visit
      (the callers pass the declared names, so the lookup always succeeds). */
  function CoerceResultFrom(t: InputObjectType, ks: seq<string>, value: Hash<string, RValue>,
                            result: Hash<string, RValue>): (r: Hash<string, RValue>)
    requires result.Valid()
    ensures r.Valid()
  {
    if ks == [] then result
    else
      match t.arguments.Get(ks[0])
      case None => CoerceResultFrom(t, ks[1..], value, result)
      case Some(f) => CoerceResultFrom(t, ks[1..], value, ResultStep(f, ks[0], value, result))
  }

  /** One visit of `coerce_result`'s loop, for key `k` declared as `f`. */
  function ResultStep(f: InputField, k: string, value: Hash<string, RValue>, result: Hash<string, RValue>): (r: Hash<string, RValue>)
    requires result.Valid()
    ensures r.Valid()
  {
    if k in value.m then result.Put(k, ResultEntry(f, value.m[k])) else result
  }

  lemma CoerceResultUnfold(t: InputObjectType, ks: seq<string>, i: nat, value: Hash<string, RValue>, result: Hash<string, RValue>)
    requires result.Valid() && i < |ks| && ks[i] in t.arguments.m
    ensures CoerceResultFrom(t, ks[i..], value, result) ==
      CoerceResultFrom(t, ks[i + 1..], value, ResultStep(t.arguments.m[ks[i]], ks[i], value, result))
  {
    assert ks[i..][0] == ks[i] && ks[i..][1..] == ks[i + 1..];
  }

  /** The declared keys that the value has, in declaration order. */
  function Present(ks: seq<string>, value: Hash<string, RValue>): (r: seq<string>)
    ensures forall k :: k in r <==> k in ks && k in value.m
  {
    if ks == [] then [] else (if ks[0] in value.m then [ks[0]] else []) + Present(ks[1..], value)
  }

  /** The body of `coerce_result`'s loop for the argument `k`, declared as
      `f`. */
  method VisitResultKey(f: InputField, k: string, value: Hash<string, RValue>, result: Hash<string, RValue>)
    returns (result': Hash<string, RValue>)
    requires result.Valid()
    ensures result' == ResultStep(f, k, value, result)
  {
    result' := result;
    if k in value.m {
      result' := result.Put(k, ResultEntry(f, value.m[k]));
    }
  }

  /** `coerce_result(value, ctx)`. */
  method CoerceResult(t: InputObjectType, value: Hash<Key, RValue>) returns (result: Hash<string, RValue>)
    requires t.arguments.Valid() && value.Valid()
    ensures result == CoerceResultFrom(t, t.arguments.keys, StringKeys(value.keys, value.m, Empty()), Empty())
  {
    var strings := StringKeys(value.keys, value.m, Empty());
    var ks := t.arguments.keys;
    result := Empty();
    ghost var target := CoerceResultFrom(t, ks, strings, Empty());
    var i := 0;
    while i < |ks|
      invariant 0 <= i <= |ks| && result.Valid()
      invariant target == CoerceResultFrom(t, ks[i..], strings, result)
    {
      var k := ks[i];
      CoerceResultUnfold(t, ks, i, strings, result);
      result := VisitResultKey(t.arguments.m[k], k, strings, result);
      i := i + 1;
    }
  }

  /** The output keys are exactly the declared arguments present in the
      input, in declaration order: undeclared keys are dropped. */
  lemma {:induction false} CoerceResultKeys(t: InputObjectType, ks: seq<string>, value: Hash<string, RValue>,
                                            result: Hash<string, RValue>)
    requires result.Valid() && forall k :: k in ks ==> k in t.arguments.m
    requires forall i, j :: 0 <= i < j < |ks| ==> ks[i] != ks[j]
    requires forall k :: k in ks ==> k !in result.m
    ensures CoerceResultFrom(t, ks, value, result).keys == result.keys + Present(ks, value)
    decreases |ks|, 1
  {
    if ks != [] {
      CoerceResultKeysStep(t, ks, value, result);
    } else {
      assert result.keys + [] == result.keys;
    }
  }

  lemma {:induction false} CoerceResultKeysStep(t: InputObjectType, ks: seq<string>, value: Hash<string, RValue>,
                                                result: Hash<string, RValue>)
    requires result.Valid() && forall k :: k in ks ==> k in t.arguments.m
    requires forall i, j :: 0 <= i < j < |ks| ==> ks[i] != ks[j]
    requires forall k :: k in ks ==> k !in result.m
    requires ks != []
    ensures CoerceResultFrom(t, ks, value, result).keys == result.keys + Present(ks, value)
    decreases |ks|, 0
  {
    var k := ks[0];
    var tail := ks[1..];
    var rest := Present(tail, value);
    var here := if k in value.m then [k] else [];
    DistinctTail(ks);
    assert Present(ks, value) == here + rest;
    var result' := if k in value.m then result.Put(k, ResultEntry(t.arguments.m[k], value.m[k])) else result;
    assert CoerceResultFrom(t, ks, value, result) == CoerceResultFrom(t, tail, value, result');
    assert result'.keys == result.keys + here;
    AppendAssoc(result.keys, here, rest);
    assert forall x :: x in tail ==> x !in result'.m by {
      forall x | x in tail ensures x !in result'.m {
        assert x != k && result'.Get(x) == result.Get(x);
      }
    }
    CoerceResultKeys(t, tail, value, result');
    assert CoerceResultFrom(t, tail, value, result').keys == result'.keys + rest;
  }

  /** Each output entry holds its coerced value, `nil` staying `nil`. */
  lemma {:induction false} CoerceResultValues(t: InputObjectType, ks: seq<string>, value: Hash<string, RValue>,
                                              result: Hash<string, RValue>)
    requires result.Valid() && forall k :: k in ks ==> k in t.arguments.m
    requires forall i, j :: 0 <= i < j < |ks| ==> ks[i] != ks[j]
    ensures forall k :: k in ks && k in value.m ==>
      CoerceResultFrom(t, ks, value, result).Get(k) == Some(ResultEntry(t.arguments.m[k], value.m[k]))
    ensures forall k :: k !in ks ==> CoerceResultFrom(t, ks, value, result).Get(k) == result.Get(k)
  {
    if ks != [] {
      var k := ks[0];
      var result' := if k in value.m then result.Put(k, ResultEntry(t.arguments.m[k], value.m[k])) else result;
      DistinctTail(ks);
      CoerceResultValues(t, ks[1..], value, result');
    }
  }

  /** `coerce_result` on a hash with string keys: one entry per declared
      argument the input has, in declaration order, holding its coerced
      value. */
  lemma CoerceResultOutput(t: InputObjectType, value: Hash<string, RValue>)
    requires t.arguments.Valid()
    ensures var r := CoerceResultFrom(t, t.arguments.keys, value, Empty());
      r.keys == Present(t.arguments.keys, value) &&
      forall k :: k in t.arguments.m && k in value.m ==> r.Get(k) == Some(ResultEntry(t.arguments.m[k], value.m[k]))
  {
    CoerceResultKeys(t, t.arguments.keys, value, Empty());
    CoerceResultValues(t, t.arguments.keys, value, Empty());
  }

  lemma DistinctTail(ks: seq<string>)
    requires ks != [] && forall i, j :: 0 <= i < j < |ks| ==> ks[i] != ks[j]
    ensures forall x :: x in ks[1..] ==> x in ks && x != ks[0]
    ensures forall i, j :: 0 <= i < j < |ks[1..]| ==> ks[1..][i] != ks[1..][j]
  {
    forall x | x in ks[1..] ensures x in ks && x != ks[0] {
      var j :| 0 <= j < |ks[1..]| && ks[1..][j] == x;
      assert ks[j + 1] == x;
    }
  }

  // coerce_non_null_input

  /** What `arguments_class.new(input_values, defaults_used:)` is built from. */
  datatype Coerced = Coerced(values: Hash<string, RValue>, defaultsUsed: set<string>)

  /** `coerce_non_null_input`'s loop over the declared arguments still to
      visit (the callers pass the declared names, so the lookup always
      succeeds). */
  function CoerceInputFrom(t: InputObjectType, ks: seq<string>, value: Hash<string, RValue>, acc: Coerced): (r: Coerced)
    requires acc.values.Valid()
    ensures r.values.Valid()
  {
    if ks == [] then acc
    else
      match t.arguments.Get(ks[0])
      case None => CoerceInputFrom(t, ks[1..], value, acc)
      case Some(f) => CoerceInputFrom(t, ks[1..], value, InputStep(f, ks[0], value, acc))
  }

  /** One visit of `coerce_non_null_input`'s loop, for key `k` declared as `f`. */
  function InputStep(f: InputField, k: string, value: Hash<string, RValue>, acc: Coerced): (r: Coerced)
    requires acc.values.Valid()
    ensures r.values.Valid()
  {
    if k in value.m then Coerced(acc.values.Put(k, f.prepare(f.coerceInput(value.m[k]))), acc.defaultsUsed)
    else if f.default.Some? then Coerced(acc.values.Put(k, f.coerceInput(f.default.value)), acc.defaultsUsed + {k})
    else acc
  }

  lemma CoerceInputUnfold(t: InputObjectType, ks: seq<string>, i: nat, value: Hash<string, RValue>, acc: Coerced)
    requires acc.values.Valid() && i < |ks| && ks[i] in t.arguments.m
    ensures CoerceInputFrom(t, ks[i..], value, acc) ==
      CoerceInputFrom(t, ks[i + 1..], value, InputStep(t.arguments.m[ks[i]], ks[i], value, acc))
  {
    assert ks[i..][0] == ks[i] && ks[i..][1..] == ks[i + 1..];
  }

  /** The body of `coerce_non_null_input`'s loop for the argument `k`,
      declared as `f`. */
  method VisitArgument(f: InputField, k: string, value: Hash<string, RValue>,
                       inputValues: Hash<string, RValue>, defaultsUsed: set<string>)
    returns (inputValues': Hash<string, RValue>, defaultsUsed': set<string>)
    requires inputValues.Valid()
    ensures Coerced(inputValues', defaultsUsed') == InputStep(f, k, value, Coerced(inputValues, defaultsUsed))
  {
    inputValues', defaultsUsed' := inputValues, defaultsUsed;
    if k in value.m {
      var coerced := f.coerceInput(value.m[k]);
      inputValues' := inputValues.Put(k, f.prepare(coerced));
    } else if f.default.Some? {
      var coerced := f.coerceInput(f.default.value);
      inputValues' := inputValues.Put(k, coerced);
      defaultsUsed' := defaultsUsed + {k};
    }
  }

  /** `coerce_non_null_input(value, ctx)`. */
  method CoerceNonNullInput(t: InputObjectType, value: Hash<string, RValue>) returns (r: Coerced)
    requires t.arguments.Valid()
    ensures r == CoerceInputFrom(t, t.arguments.keys, value, Coerced(Empty(), {}))
  {
    var inputValues: Hash<string, RValue> := Empty();
    var defaultsUsed: set<string> := {};
    var ks := t.arguments.keys;
    ghost var target := CoerceInputFrom(t, ks, value, Coerced(Empty(), {}));
    var i := 0;
    while i < |ks|
      invariant 0 <= i <= |ks| && inputValues.Valid()
      invariant target == CoerceInputFrom(t, ks[i..], value, Coerced(inputValues, defaultsUsed))
    {
      var k := ks[i];
      CoerceInputUnfold(t, ks, i, value, Coerced(inputValues, defaultsUsed));
      inputValues, defaultsUsed := VisitArgument(t.arguments.m[k], k, value, inputValues, defaultsUsed);
      i := i + 1;
    }
    r := Coerced(inputValues, defaultsUsed);
  }

  /** Each declared key, once visited: a supplied value is coerced by the
      field type and then prepared; an absent key with a default gets the
      coerced default and is recorded in `defaults_used`; an absent key
      without one is left out. Nothing else is added. */
  lemma {:induction false} CoerceInputEntries(t: InputObjectType, ks: seq<string>, value: Hash<string, RValue>, acc: Coerced)
    requires acc.values.Valid() && forall k :: k in ks ==> k in t.arguments.m
    requires forall i, j :: 0 <= i < j < |ks| ==> ks[i] != ks[j]
    requires forall k :: k in ks ==> k !in acc.values.m && k !in acc.defaultsUsed
    ensures var r := CoerceInputFrom(t, ks, value, acc);
      forall k :: k in ks ==>
        var f := t.arguments.m[k];
        (k in value.m ==> r.values.Get(k) == Some(f.prepare(f.coerceInput(value.m[k]))) && k !in r.defaultsUsed) &&
        (k !in value.m && f.default.Some? ==> r.values.Get(k) == Some(f.coerceInput(f.default.value)) && k in r.defaultsUsed) &&
        (k !in value.m && f.default.None? ==> k !in r.values.m && k !in r.defaultsUsed)
    ensures var r := CoerceInputFrom(t, ks, value, acc);
      forall k :: k !in ks ==> r.values.Get(k) == acc.values.Get(k) && (k in r.defaultsUsed <==> k in acc.defaultsUsed)
  {
    if ks != [] {
      var k := ks[0];
      var f := t.arguments.m[k];
      var acc' :=
        if k in value.m then Coerced(acc.values.Put(k, f.prepare(f.coerceInput(value.m[k]))), acc.defaultsUsed)
        else if f.default.Some? then Coerced(acc.values.Put(k, f.coerceInput(f.default.value)), acc.defaultsUsed + {k})
        else acc;
      DistinctTail(ks);
      CoerceInputEntries(t, ks[1..], value, acc');
    }
  }

  /** `coerce_non_null_input`: the values hold exactly the declared keys
      that are supplied or have a default, and `defaults_used` exactly those
      filled from a default. */
  lemma CoerceNonNullInputResult(t: InputObjectType, value: Hash<string, RValue>)
    requires t.arguments.Valid()
    ensures var r := CoerceInputFrom(t, t.arguments.keys, value, Coerced(Empty(), {}));
      (forall k :: k in r.values.m <==> k in t.arguments.m && (k in value.m || t.arguments.m[k].default.Some?)) &&
      (forall k :: k in r.defaultsUsed <==> k in t.arguments.m && k !in value.m && t.arguments.m[k].default.Some?) &&
      (forall k :: k in t.arguments.m && k in value.m ==>
        r.values.m[k] == t.arguments.m[k].prepare(t.arguments.m[k].coerceInput(value.m[k]))) &&
      (forall k :: k in t.arguments.m && k !in value.m && t.arguments.m[k].default.Some? ==>
        r.values.m[k] == t.arguments.m[k].coerceInput(t.arguments.m[k].default.value))
  {
    CoerceInputEntries(t, t.arguments.keys, value, Coerced(Empty(), {}));
  }

  // validate_non_null_input

  /** `INVALID_OBJECT_MESSAGE % { object: JSON.generate(input) }`. */
  function InvalidObject(printed: string): Problem {
    Problem("Expected " + printed + " to be a key, value object responding to `to_h` or `to_unsafe_h`.", [])
  }

  /** The entries `input.each` yields once `to_h` succeeds: a hash's own or
      an arguments object's; `None` for a value without `to_h` or
      `to_unsafe_h`. Arrays and `nil` are dealt with before this: `nil.to_h`
      succeeds, but `nil` has no `each`. */
  function Entries(input: RValue): Option<Hash<string, RValue>> {
    match input
    case RHash(h) => Some(h)
    case RInput(_, args) => Some(args)
    case _ => None
  }

  /** The `NoMethodError` that `input.each` raises on `nil`. */
  const NilEachError := "undefined method `each' for nil:NilClass"

  /** One "Field is not defined" problem per input key outside the visible
      arguments, at that key, in input order. */
  function Undeclared(keys: seq<string>, visible: seq<string>, name: string): (r: seq<Problem>)
    ensures |r| <= |keys|
    ensures forall p :: p in r ==>
      p.explanation == "Field is not defined on " + name && |p.path| == 1 && p.path[0] in keys && p.path[0] !in visible
    ensures forall k :: k in keys && k !in visible ==> Problem("Field is not defined on " + name, [k]) in r
  {
    if keys == [] then []
    else
      (if keys[0] !in visible then [Problem("Field is not defined on " + name, [keys[0]])] else []) +
      Undeclared(keys[1..], visible, name)
  }

  /** The problems of every visible field's validation (absent keys are
      validated as `nil`), each under the field's name. */
  function FieldProblems(t: InputObjectType, visible: seq<string>, entries: Hash<string, RValue>): (r: seq<Problem>)
    requires forall n :: n in visible ==> n in t.arguments.m
  {
    if visible == [] then []
    else
      var n := visible[0];
      Prefixed([n], t.arguments.m[n].validateInput(entries.Get(n).GetOr(RNil))) + FieldProblems(t, visible[1..], entries)
  }

  /** All the problems `validate_non_null_input` reports; `printed` is the
      input as `JSON.generate` prints it and `visible` the names of the
      arguments the warden shows. `nil` raises. */
  function ValidationProblems(t: InputObjectType, input: RValue, visible: seq<string>, printed: string): Result<seq<Problem>, string>
    requires forall n :: n in visible ==> n in t.arguments.m
  {
    if input.RList? then Success([InvalidObject(printed)])
    else if input.RNil? then Failure(NilEachError)
    else if Entries(input).None? then Success([InvalidObject(printed)])
    else
      var entries := Entries(input).value;
      Success(Undeclared(entries.keys, visible, t.name) + FieldProblems(t, visible, entries))
  }

  /** `validate_non_null_input(input, ctx)`: the result object, or the
      error raised on `nil`. */
  method ValidateNonNullInput(t: InputObjectType, input: RValue, visible: seq<string>, printed: string)
    returns (outcome: Result<ValidationResult, string>)
    requires forall n :: n in visible ==> n in t.arguments.m
    ensures outcome.Success? <==> ValidationProblems(t, input, visible, printed).Success?
    ensures outcome.Failure? ==> outcome.error == ValidationProblems(t, input, visible, printed).error
    ensures outcome.Success? ==>
      fresh(outcome.value) && outcome.value.problems == ValidationProblems(t, input, visible, printed).value
  {
    var result := new ValidationResult();
    if input.RList? {
      result.AddProblem(InvalidObject(printed).explanation, []);
      return Success(result);
    }
    if input.RNil? {
      return Failure(NilEachError);
    }
    var entries := Entries(input);
    if entries.None? {
      result.AddProblem(InvalidObject(printed).explanation, []);
      return Success(result);
    }
    var h := entries.value;
    assert ValidationProblems(t, input, visible, printed).value == Undeclared(h.keys, visible, t.name) + FieldProblems(t, visible, h);
    ReportUndeclared(result, h.keys, visible, t.name);
    assert result.problems == Undeclared(h.keys, visible, t.name);
    ReportFields(result, t, visible, h);
    return Success(result);
  }

  /** `validate_non_null_input`'s loop over the input's keys. */
  method ReportUndeclared(result: ValidationResult, keys: seq<string>, visible: seq<string>, name: string)
    modifies result
    ensures result.problems == old(result.problems) + Undeclared(keys, visible, name)
  {
    ghost var start := result.problems;
    var i := 0;
    while i < |keys|
      invariant 0 <= i <= |keys|
      invariant result.problems == start + Undeclared(keys[..i], visible, name)
    {
      ghost var done := Undeclared(keys[..i], visible, name);
      UndeclaredSnoc(keys, i, visible, name);
      if keys[i] !in visible {
        result.AddProblem("Field is not defined on " + name, [keys[i]]);
        AppendAssoc(start, done, [Problem("Field is not defined on " + name, [keys[i]])]);
      } else {
        assert done + [] == done;
      }
      i := i + 1;
    }
    assert keys[..i] == keys;
  }

  /** `validate_non_null_input`'s loop over the visible arguments. */
  method ReportFields(result: ValidationResult, t: InputObjectType, visible: seq<string>, h: Hash<string, RValue>)
    requires forall n :: n in visible ==> n in t.arguments.m
    modifies result
    ensures result.problems == old(result.problems) + FieldProblems(t, visible, h)
  {
    var j := 0;
    while j < |visible|
      invariant 0 <= j <= |visible|
      invariant result.problems == old(result.problems) + FieldProblems(t, visible[..j], h)
    {
      ghost var done := FieldProblems(t, visible[..j], h);
      FieldProblemsAppend(t, visible[..j], [visible[j]], h);
      TakeSnoc(visible, j);
      var n := visible[j];
      var fieldResult := t.arguments.m[n].validateInput(h.Get(n).GetOr(RNil));
      assert FieldProblems(t, [n], h) == Prefixed([n], fieldResult) + FieldProblems(t, [], h);
      assert FieldProblems(t, [n], h) == Prefixed([n], fieldResult);
      if fieldResult != [] {
        result.MergeResult([n], fieldResult);
      } else {
        assert Prefixed([n], fieldResult) == [];
      }
      AppendAssoc(old(result.problems), done, Prefixed([n], fieldResult));
      j := j + 1;
    }
    assert visible[..j] == visible;
  }

  lemma UndeclaredSnoc(keys: seq<string>, i: nat, visible: seq<string>, name: string)
    requires i < |keys|
    ensures Undeclared(keys[..i + 1], visible, name) == Undeclared(keys[..i], visible, name) +
      (if keys[i] !in visible then [Problem("Field is not defined on " + name, [keys[i]])] else [])
  {
    UndeclaredAppend(keys[..i], [keys[i]], visible, name);
    TakeSnoc(keys, i);
    assert [keys[i]][1..] == [];
  }

  lemma {:induction false} UndeclaredAppend(a: seq<string>, b: seq<string>, visible: seq<string>, name: string)
    ensures Undeclared(a + b, visible, name) == Undeclared(a, visible, name) + Undeclared(b, visible, name)
  {
    if a == [] {
      assert a + b == b;
    } else {
      assert (a + b)[0] == a[0] && (a + b)[1..] == a[1..] + b;
      UndeclaredAppend(a[1..], b, visible, name);
    }
  }

  lemma {:induction false} FieldProblemsAppend(t: InputObjectType, a: seq<string>, b: seq<string>, entries: Hash<string, RValue>)
    requires forall n :: n in a + b ==> n in t.arguments.m
    ensures FieldProblems(t, a + b, entries) == FieldProblems(t, a, entries) + FieldProblems(t, b, entries)
  {
    if a == [] {
      assert a + b == b;
    } else {
      assert (a + b)[0] == a[0] && (a + b)[1..] == a[1..] + b;
      FieldProblemsAppend(t, a[1..], b, entries);
    }
  }

  /** Field validation reports nothing exactly when every visible field
      validates. */
  lemma {:induction false} FieldProblemsEmpty(t: InputObjectType, visible: seq<string>, entries: Hash<string, RValue>)
    requires forall n :: n in visible ==> n in t.arguments.m
    ensures FieldProblems(t, visible, entries) == [] <==>
      forall n :: n in visible ==> t.arguments.m[n].validateInput(entries.Get(n).GetOr(RNil)) == []
  {
    if visible != [] {
      FieldProblemsEmpty(t, visible[1..], entries);
      assert forall n :: n in visible ==> n == visible[0] || n in visible[1..];
    }
  }

  /** `nil` raises; an array, or a value that is not key-value, gets
      exactly one problem; otherwise the input is valid exactly when every
      key is a visible argument and every visible field validates, present
      or not. */
  lemma ValidationOutcome(t: InputObjectType, input: RValue, visible: seq<string>, printed: string)
    requires forall n :: n in visible ==> n in t.arguments.m
    ensures ValidationProblems(t, input, visible, printed).Failure? <==> input.RNil?
    ensures input.RList? || (!input.RNil? && Entries(input).None?) ==>
      |ValidationProblems(t, input, visible, printed).value| == 1
    ensures !input.RList? && Entries(input).Some? ==>
      (ValidationProblems(t, input, visible, printed).value == [] <==>
        (forall k :: k in Entries(input).value.keys ==> k in visible) &&
        forall n :: n in visible ==> t.arguments.m[n].validateInput(Entries(input).value.Get(n).GetOr(RNil)) == [])
  {
    if !input.RList? && Entries(input).Some? {
      var entries := Entries(input).value;
      var u := Undeclared(entries.keys, visible, t.name);
      var f := FieldProblems(t, visible, entries);
      assert ValidationProblems(t, input, visible, printed).value == u + f;
      FieldProblemsEmpty(t, visible, entries);
      if exists k :: k in entries.keys && k !in visible {
        var k :| k in entries.keys && k !in visible;
        assert Problem("Field is not defined on " + t.name, [k]) in u;
      }
      if u != [] {
        assert u[0] in u;
      }
    }
  }
}
