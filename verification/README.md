# graphql8 core, modelled in Dafny

This project models the core of the Ruby `graphql8` library:

- the static validation rules, each a hook that appends error messages to a `ValidationContext`, and the validator that runs them in order;
- the class-based schema registries (`Schema::Enum`, `Schema::Union`, `Schema::Object`, `Schema::Member::HasArguments`), each of which inherits its table from the class it extends;
- the type utilities (`BuildType`, `Typecast`, `PossibleTypes`, `Schema::Wrapper`/`List`/`NonNull`, `NameValidator`) and the scope of a query;
- the execution helpers (`Execution::Lookahead`, serial `ValueResolution`, `DefaultTypeError`);
- input coercion and validation for scalars, booleans and input objects;
- the error objects (`ExecutionError`, `ParseError`, `InvalidNullError`).

Each Ruby file in the core becomes one Dafny module:

- Ruby values, hashes (insertion ordered, with `merge` semantics), arrays and strings become datatypes and sequences.
- Objects whose methods update their fields become classes.
- Loops become methods with invariants. Each is proved against a specification function, and the properties the library promises are proved as lemmas about those functions.

## Model

| member | source | states |
|---|---|---|
| Typecast.SubtypeReflexive | lib/graphql8/execution/typecast.rb:8-10 | every type is a subtype of itself |
| Typecast.Subtype | lib/graphql8/execution/typecast.rb:7-47 | a subtype carries at least the parent's wrappers: a non-null wrapper may be added, none taken away |
| Typecast.NullableNotUnderNonNull | lib/graphql8/execution/typecast.rb:20-45 | a nullable child never fits a non-null parent |
| Typecast.NonNullChild | lib/graphql8/execution/typecast.rb:11-18 | a non-null child fits iff its inner type fits the parent, with a non-null parent unwrapped too |
| Typecast.RelaxParent | lib/graphql8/execution/typecast.rb:11-18 | what fits a non-null parent also fits its nullable form |
| Typecast.BelowItsNonNull | lib/graphql8/execution/typecast.rb:11-18 | a type's non-null form is a subtype of the type |
| Typecast.StrengthenChild | lib/graphql8/execution/typecast.rb:11-18 | making a fitting child non-null keeps it fitting |
| Typecast.ListCovariant | lib/graphql8/execution/typecast.rb:34-42 | a list fits a list iff its item type fits the item type |
| Typecast.SubtypeKeepsListDepth | lib/graphql8/execution/typecast.rb:34-45 | subtypes have the same list nesting, so a non-list child never fits a list parent |
| Typecast.ConcreteParentAcceptsOnlyItself | lib/graphql8/execution/typecast.rb:8-45 | a scalar, enum, object or input parent accepts only itself, possibly made non-null |
| Typecast.SubtypeTransitive | lib/graphql8/execution/typecast.rb:7-47 | when unions hold object types, a subtype of a subtype is a subtype |
| PossibleTypes.ObjectTypes | lib/graphql8/schema/possible_types.rb:16 | exactly the schema's object types |
| PossibleTypes.Implementers | lib/graphql8/schema/possible_types.rb:19 | sorted by name, and a permutation of the object types that list the interface, so each appears as often as in the schema |
| PossibleTypes.PossibleTypesOf | lib/graphql8/schema/possible_types.rb:27-32 | a union answers its declared types in order, an interface its sorted implementers, any other type itself alone |
| PossibleTypes.InterfaceMembers | lib/graphql8/schema/possible_types.rb:18-30 | a type is a possible type of an interface iff it is a schema object type listing the interface |
| PossibleTypes.PossibleTypesCache.constructor | lib/graphql8/schema/possible_types.rb:15-21 | the cache starts with the schema's object types and an empty memo |
| PossibleTypes.PossibleTypesCache.PossibleTypes | lib/graphql8/schema/possible_types.rb:18-36 | answers `PossibleTypesOf` for a type or a class-based type's definition and raises for anything else; the memo keeps its entries and only gains the interface looked up |
| Scopes.Scope.constructor | lib/graphql8/internal_representation/scope.rb:20-35 | a type scope is abstract and has no type list; an array scope keeps the array; a nil scope is empty |
| Scopes.Scope.Each | lib/graphql8/internal_representation/scope.rb:69-75 | a type-defined scope yields its type once; otherwise its types in order (none for a nil scope) |
| Scopes.Scope.ConcreteTypes | lib/graphql8/internal_representation/scope.rb:79-85 | answers the possible types of the scope's type, or its type list, and memoises them |
| Scopes.Scope.Enter | lib/graphql8/internal_representation/scope.rb:40-64 | nil gives the empty scope; the scope's own type gives this scope; an abstract type gives its possible types within the current concrete types; a concrete type gives a scope of it if it is in scope, else the empty scope; anything else raises; the concrete types never grow |
| Scopes.NewScope | lib/graphql8/internal_representation/scope.rb:20-35 | builds a scope for a type, an array or nil, and raises for anything else |
| TypeExpression.WrapType | lib/graphql8/schema/type_expression.rb:26-32 | nil stays nil; a type gets exactly one wrapper of the given kind |
| TypeExpression.BuildTypeShape | lib/graphql8/schema/type_expression.rb:11-31 | the result is nil exactly when the innermost name is missing or a node of another kind is met; otherwise it has the reference's wrappers in the same order around the looked-up type |
| TypeExpression.BuildType | lib/graphql8/schema/type_expression.rb:11-24 | a built type is the looked-up type of the innermost name, wrapped exactly as the reference is |
| BuildType.Finish | lib/graphql8/schema/member/build_type.rb:79-94 | a failure stays a failure; the list wrapper is applied before non-null |
| BuildType.ParseStr | lib/graphql8/schema/member/build_type.rb:16-48 | with `null: false` the result is non-null; a failure is an undefined constant, a class that is not a type, or an unexpected input |
| BuildType.ParseType | lib/graphql8/schema/member/build_type.rb:12-82 | with `null: false` the result is non-null; a type object or a class with a definition gives that type's definition; an array gives a list; a `List`/`NonNull` wrapper instance raises `Unexpected type input`; `false` raises its own error |
| BuildType.ToTypeName | lib/graphql8/schema/member/build_type.rb:97-116 | only the unhandled-input error is raised; strings, classes, type objects and wrapper instances are always named, a type object, class with a definition or wrapper instance by its unwrapped type's name |
| BuildType.TypeNameOfParsed | lib/graphql8/schema/member/build_type.rb:12-116 | for a type object, a class with a definition, or an array of one of these, parsing succeeds and `to_type_name` names the unwrapped parsed type |
| BuildType.Underscore | lib/graphql8/schema/member/build_type.rb:160-165 | the result has no uppercase letter |
| BuildType.Camelize | lib/graphql8/schema/member/build_type.rb:118-127 | a string without `_` is unchanged; the only error is the `NoMethodError` of an underscores-only string |
| BuildType.ParseStringType | lib/graphql8/schema/member/build_type.rb:15-94 | the recursive string parse answers exactly `ParseStr` |
| BuildType.ParseTypeExpr | lib/graphql8/schema/member/build_type.rb:12-95 | the parse of any type expression, including a `List`/`NonNull` wrapper instance (which raises), answers exactly `ParseType` |
| BuildType.BuiltinNames | lib/graphql8/schema/member/build_type.rb:18-27 | each of `String`, `Int`, `Integer`, `Float`, `Boolean` and `ID` names its built-in scalar (`Integer` the Int scalar) without constant lookup, non-null unless `null: true`; with a trailing `!` it is non-null either way |
| BuildType.NullArgument | lib/graphql8/schema/member/build_type.rb:32-91 | `null: false` only adds an outer non-null, except that a bang-terminated custom name resets it |
| BuildType.ListString | lib/graphql8/schema/member/build_type.rb:28-87 | `"[T]"` is a list of non-null `T`, made non-null itself when `null: false` |
| BuildType.BangString | lib/graphql8/schema/member/build_type.rb:32-34 | a trailing `!` makes the outer type non-null whatever `null:` says |
| BuildType.ArrayForms | lib/graphql8/schema/member/build_type.rb:51-66 | `[T]` gives non-null members, `[T, null: true]` nullable members, and any other array raises |
| BuildType.SignatureChars | lib/graphql8/schema/member/build_type.rb:28-32 | a type signature has no newline, and a named type's neither looks like a list nor ends in a bang |
| BuildType.SignatureRoundTrip | lib/graphql8/schema/member/build_type.rb:12-95 | parsing the signature of a type the string form can express gives back that type |
| BuildType.LastOf | lib/graphql8/schema/member/build_type.rb:110 | the last segment, present iff there is one |
| BuildType.ToTypeNameKeepsBrackets | lib/graphql8/schema/member/build_type.rb:97-116 | as written, `"[Foo]"` names `[Foo]` while a list of `Foo` names `Foo` |
| BuildType.IntendedNameOfSignature | lib/graphql8/schema/member/build_type.rb:97-116 | with the brackets and bangs each removed, a type's signature names the same type as the type itself |
| BuildType.StripMarksSignature | lib/graphql8/schema/member/build_type.rb:110 | removing the brackets and bangs from a signature leaves the named type's name |
| BuildType.CapitalizeAll | lib/graphql8/schema/member/build_type.rb:120 | each word capitalised, position by position |
| BuildType.CamelizeFacts | lib/graphql8/schema/member/build_type.rb:118-126 | a string without `_` is unchanged; otherwise only the leading underscores remain, followed by a lowercase character, and the letters agree up to case; a string of underscores alone raises |
| BuildType.CapitalizeAllSameUpToCase | lib/graphql8/schema/member/build_type.rb:120 | capitalising the words changes only case |
| BuildType.SplitAcronymsKeeps | lib/graphql8/schema/member/build_type.rb:162 | the first substitution only inserts underscores |
| BuildType.SplitWordsKeeps | lib/graphql8/schema/member/build_type.rb:163 | the second substitution only inserts underscores |
| BuildType.UnderscoreFacts | lib/graphql8/schema/member/build_type.rb:160-165 | the result has no uppercase letter and, underscores aside, is the downcased input |
| BuildType.UnderscoreAcronym | lib/graphql8/schema/member/build_type.rb:162-164 | an acronym followed by a word is split before the word's capital |
| BuildType.UnderscoreSomeThing | lib/graphql8/schema/member/build_type.rb:163-164 | `someThing` becomes `some_thing` |
| DefaultTypeError.Handle | lib/graphql8/schema/default_type_error.rb:5-12 | an invalid null is appended to the errors and nothing is raised; an unresolved type or a string-encoding error is raised and nothing recorded; anything else is ignored |
| DefaultTypeError.Context.constructor | lib/graphql8/schema/default_type_error.rb:5 | a context starts with no errors |
| DefaultTypeError.Context.Call | lib/graphql8/schema/default_type_error.rb:5-12 | the new errors and the raised error are exactly those of `Handle` |
| ValueResolution.Complete | lib/graphql8/query/serial_execution/value_resolution.rb:6-83 | a completed list value has one JSON entry per item |
| ValueResolution.Resolve | lib/graphql8/query/serial_execution/value_resolution.rb:6-83 | the outcome and the recorded type errors are exactly those of `Complete` |
| ValueResolution.PossibleAreObjects | lib/graphql8/schema/possible_types.rb:27-30 | an abstract type's possible types are object types, so resolving into one never recurses again |
| ValueResolution.CompleteItems | lib/graphql8/query/serial_execution/value_resolution.rb:21-42 | a completed list has one entry per item completed so far |
| ValueResolution.ItemsStop | lib/graphql8/query/serial_execution/value_resolution.rb:25-41 | once an item fails to complete, later items change nothing |
| ValueResolution.NullOnNonNull | lib/graphql8/query/serial_execution/value_resolution.rb:7-13 | nil on a non-null type records an invalid null and propagates null |
| ValueResolution.ErrorOnNonNull | lib/graphql8/query/serial_execution/value_resolution.rb:7-13 | an execution error on a non-null type propagates null without recording a type error |
| ValueResolution.NullableNothing | lib/graphql8/query/serial_execution/value_resolution.rb:7-16 | nil or an execution error on a nullable type completes as null |
| ValueResolution.NamedCompletion | lib/graphql8/query/serial_execution/value_resolution.rb:18-80 | scalars and enums are coerced, objects resolve their selections, any other kind raises |
| ValueResolution.NonNullPresent | lib/graphql8/query/serial_execution/value_resolution.rb:43-52 | a present value on a non-null type completes as on the inner type |
| ValueResolution.AbstractCompletion | lib/graphql8/query/serial_execution/value_resolution.rb:60-78 | a resolved type outside the possible types raises an unresolved-type error; otherwise the value completes as that object type |
| ValueResolution.ItemsPrefix | lib/graphql8/query/serial_execution/value_resolution.rb:21-42 | completing fewer items gives a prefix of the completed list |
| ValueResolution.ItemAt | lib/graphql8/query/serial_execution/value_resolution.rb:25-41 | each list entry is the completion of the matching item at its index path |
| ValueResolution.ListCompletion | lib/graphql8/query/serial_execution/value_resolution.rb:21-42 | a completed list has one entry per item, each the item's own completion |
| ValueResolution.ErrorsOnlyGrow | lib/graphql8/query/serial_execution/value_resolution.rb:6-83 | completion only appends to the recorded errors, and only invalid nulls |
| ValueResolution.ItemsErrorsOnlyGrow | lib/graphql8/query/serial_execution/value_resolution.rb:21-42 | completing list items only appends invalid nulls to the errors |
| Lookaheads.FindSelected | lib/graphql8/execution/lookahead.rb:187-214 | only field nodes with the wanted name are ever matched |
| Lookaheads.FieldMatch | lib/graphql8/execution/lookahead.rb:189-205 | a field node is matched iff its name is the wanted one and, when constraints are given, its coerced arguments pass them all |
| Lookaheads.FindFirst | lib/graphql8/execution/lookahead.rb:207-210 | only field nodes with the wanted name are ever matched inside a fragment |
| Lookaheads.FindFirstStops | lib/graphql8/execution/lookahead.rb:207-210 | inside a fragment, the search stops at the first subselection that matches something |
| Lookaheads.PassesOne | lib/graphql8/execution/lookahead.rb:196-200 | a constraint passes iff its normalised keyword is among the arguments with an equal value |
| Lookaheads.StringKeywordUnderscored | lib/graphql8/execution/lookahead.rb:177-183 | a string constraint keyword constrains the same keyword as the symbol of its underscored form, so `"someThing"` and `:some_thing` constrain alike |
| Lookaheads.PlainSymbol | lib/graphql8/execution/lookahead.rb:169-175 | a symbol without `_` names the same field as the string |
| Lookaheads.Lookahead.Name | lib/graphql8/execution/lookahead.rb:134-138 | a name exists exactly for a real lookahead with a field |
| Lookaheads.Selects | lib/graphql8/execution/lookahead.rb:57-152 | true iff `selection` answers a real lookahead; always false on the null lookahead |
| Lookaheads.SelectionOf | lib/graphql8/execution/lookahead.rb:69-95 | the null lookahead answers itself; a real answer has nodes and a field, and no root type |
| Lookaheads.NormalizeName | lib/graphql8/execution/lookahead.rb:169-175 | a string name is kept; a symbol without `_` is kept; only a symbol can fail, with `NoMethodError` |
| Lookaheads.NormalizeKeyword | lib/graphql8/execution/lookahead.rb:177-183 | a symbol keyword is kept; a string keyword is underscored, so it has no uppercase letter |
| Lookaheads.Selection | lib/graphql8/execution/lookahead.rb:69-156 | the loop answers exactly `SelectionOf` |
| Lookaheads.MatchSelections | lib/graphql8/execution/lookahead.rb:82-84 | the inner loop over one node's selections answers exactly `CollectSelections` |
| Lookaheads.SelectionResult | lib/graphql8/execution/lookahead.rb:69-95 | an unknown field raises; otherwise the result is null iff no node matched, and a real result holds exactly the matched nodes, all named as wanted, with the field's definition |
| Lookaheads.CollectSelectionsFields | lib/graphql8/execution/lookahead.rb:81-85 | matching keeps the earlier matches and adds only fields with the wanted name |
| Lookaheads.CollectNodesFields | lib/graphql8/execution/lookahead.rb:81-85 | over all nodes, matching keeps the earlier matches and adds only wanted fields |
| Lookaheads.CollectSelectionsAll | lib/graphql8/execution/lookahead.rb:82-84 | every match of every subselection is among the collected nodes |
| Lookaheads.ByName | lib/graphql8/execution/lookahead.rb:113-118 | the first lookahead computed for a name is kept and names keep their first position |
| Lookaheads.ByNameKeys | lib/graphql8/execution/lookahead.rb:113-118 | the names are the distinct subselection names in order of first appearance |
| Lookaheads.ByNameValues | lib/graphql8/execution/lookahead.rb:116 | each entry is the lookahead `selection` answers for its name |
| Lookaheads.ByNameNamed | lib/graphql8/execution/lookahead.rb:116 | a successful scan met only nodes that have a name |
| Lookaheads.SelectedOnly | lib/graphql8/execution/lookahead.rb:121 | exactly the selected lookaheads |
| Lookaheads.SelectedByName | lib/graphql8/execution/lookahead.rb:113-121 | the answer holds exactly the selected lookaheads computed for the distinct names |
| Lookaheads.SelectionsOf | lib/graphql8/execution/lookahead.rb:112-160 | the null lookahead has none, and every lookahead answered is selected |
| Lookaheads.Selections | lib/graphql8/execution/lookahead.rb:112-122 | the loop answers exactly `SelectionsOf` |
| Lookaheads.AddByName | lib/graphql8/execution/lookahead.rb:115-117 | the inner loop over one node's subselections leaves the hash `ByName` would reach, or raises what it would raise |
| Lookaheads.SelectionsResult | lib/graphql8/execution/lookahead.rb:112-122 | the answer holds exactly the selected lookaheads `selection` gives for each distinct subselection name |
| LookaheadArguments.ListValues | lib/graphql8/execution/lookahead.rb:262-270 | one value per list item, after those already converted |
| LookaheadArguments.ArgToValueShape | lib/graphql8/execution/lookahead.rb:250-283 | a variable is present iff the query defines it; a null literal is a present nil; a non-null type is unwrapped; a list type gives one entry per item, a single value being wrapped |
| LookaheadArguments.ArgToValue | lib/graphql8/execution/lookahead.rb:250-283 | any literal other than a variable is present; a non-null literal on a list type gives a list |
| LookaheadArguments.GivenArgs | lib/graphql8/execution/lookahead.rb:223-236 | the given arguments only add keywords: every keyword already collected stays |
| LookaheadArguments.Defaults | lib/graphql8/execution/lookahead.rb:237-241 | defaults never overwrite a keyword already collected |
| LookaheadArguments.KwArgs | lib/graphql8/execution/lookahead.rb:220-243 | a well-formed argument hash (leaf literals flattened with the corrected `Flatten`) |
| LookaheadArguments.Arguments | lib/graphql8/execution/lookahead.rb:220-243 | the loops answer exactly `KwArgs` |
| LookaheadArguments.UndeclaredRaises | lib/graphql8/execution/lookahead.rb:224 | an argument the owner does not define raises |
| LookaheadArguments.DefaultsFill | lib/graphql8/execution/lookahead.rb:237-241 | given arguments are kept; every argument with a default gets its keyword; nothing else is added |
| LookaheadArguments.FlattenTotal | lib/graphql8/execution/lookahead.rb:285-302 | with variables resolved, flattening never fails |
| LookaheadArguments.Flatten | lib/graphql8/execution/lookahead.rb:285-302 | a variable gives its value in the query, an enum its name, a list one value per item |
| LookaheadArguments.FlattenAsWritten | lib/graphql8/execution/lookahead.rb:285-302 | as written, the only failure is the wrong-number-of-arguments `ArgumentError` |
| LookaheadArguments.FlattenAsWrittenFails | lib/graphql8/execution/lookahead.rb:297-298 | as written, flattening fails exactly on a literal that mentions a variable, and agrees with the intended version elsewhere |
| LookaheadArguments.NestedVariable | lib/graphql8/execution/lookahead.rb:296-298 | as written, `[$x]` fails to flatten while the intended version gives the variable's value in a list |
| LookaheadArguments.FlattenArgsAgree | lib/graphql8/execution/lookahead.rb:289-294 | an input object fails to flatten as written iff one of its fields mentions a variable |
| LookaheadArguments.FlattenItemsAgree | lib/graphql8/execution/lookahead.rb:295-296 | a list fails to flatten as written iff one of its items mentions a variable |
| Language.Serialize | lib/graphql8/language.rb:16-32 | a hash prints in braces, an array in brackets, anything else as its JSON encoding |
| Language.Pairs | lib/graphql8/language.rb:18-20 | one entry per key, each the key, a colon and the serialised value (`nil` for a missing key) |
| Language.Items | lib/graphql8/language.rb:24-26 | one entry per array element, each the serialised element |
| Language.SerializeNoSpace | lib/graphql8/language.rb:16-32 | when the JSON encodings and the keys contain no whitespace, neither does the output: nothing is put between separators |
| BooleanType.CoerceInput | lib/graphql8/types/boolean.rb:7-9 | true and false (and nil) pass through unchanged; anything else becomes nil |
| BooleanType.CoerceResult | lib/graphql8/types/boolean.rb:11-13 | always a boolean, true exactly for a truthy value |
| BooleanType.CoerceInputIdempotent | lib/graphql8/types/boolean.rb:7-13 | coercing input twice is coercing once, and a coerced boolean survives result coercion |
| BooleanType.StringsRejected | lib/graphql8/types/boolean.rb:7-13 | no string is accepted as input, not even `"true"`, and every string, `"false"` included, is a truthy result |
| ScalarTypes.RawCoercionInput | lib/graphql8/scalar_type.rb:115-125 | an input object becomes its hash, an enum its name, an array one raw value per element, anything else itself |
| ScalarTypes.RawItems | lib/graphql8/scalar_type.rb:118-119 | one raw value per element |
| ScalarTypes.RawArray | lib/graphql8/scalar_type.rb:118-119 | each element of an array is converted on its own |
| ScalarTypes.ScalarType.constructor | lib/graphql8/scalar_type.rb:65-74 | both coercions start as the identity |
| ScalarTypes.ScalarType.Kind | lib/graphql8/scalar_type.rb:101-103 | a scalar's kind is SCALAR |
| ScalarTypes.ScalarType.SetCoerceInput | lib/graphql8/scalar_type.rb:81-85 | a nil proc leaves the input coercion unchanged; the result coercion is untouched |
| ScalarTypes.ScalarType.SetCoerceResult | lib/graphql8/scalar_type.rb:95-99 | a nil proc leaves the result coercion unchanged; the input coercion is untouched |
| ScalarTypes.ScalarType.SetCoerce | lib/graphql8/scalar_type.rb:76-79 | sets both coercions to the same proc, or leaves both when it is nil |
| ScalarTypes.ScalarType.ValidateNonNullInput | lib/graphql8/scalar_type.rb:127-133 | exactly one "Could not coerce" problem when the coerced input is nil, none otherwise |
| ScalarTypes.DefaultCoercion | lib/graphql8/scalar_type.rb:65-125 | with the default coercion any enum literal reads as its name and a list element by element |
| InputObjects.StringKeys | lib/graphql8/input_object_type.rb:65 | the keys become strings, and no other key appears |
| InputObjects.StringKeysValue | lib/graphql8/input_object_type.rb:65 | a key whose string form is not repeated later keeps its value; a later duplicate wins |
| InputObjects.CoerceResult | lib/graphql8/input_object_type.rb:58-81 | the loops answer exactly `CoerceResultFrom` over the declared arguments of the string-keyed input |
| InputObjects.VisitResultKey | lib/graphql8/input_object_type.rb:70-77 | a declared key the input has is added, holding `nil` for `nil` and the field type's coerced result otherwise; a key the input lacks adds nothing |
| InputObjects.CoerceResultOutput | lib/graphql8/input_object_type.rb:67-80 | the result has the declared arguments present in the input, in declaration order, each nil or coerced by its field type |
| InputObjects.CoerceResultKeys | lib/graphql8/input_object_type.rb:69-78 | the result's keys are the declared arguments present in the input, in declaration order |
| InputObjects.CoerceResultValues | lib/graphql8/input_object_type.rb:72-76 | each present declared argument is nil or coerced by its field type |
| InputObjects.Present | lib/graphql8/input_object_type.rb:71 | exactly the declared arguments present in the input |
| InputObjects.CoerceNonNullInput | lib/graphql8/input_object_type.rb:85-103 | the loop answers exactly `CoerceInputFrom` over the declared arguments |
| InputObjects.VisitArgument | lib/graphql8/input_object_type.rb:90-99 | a supplied key gets its coerced then prepared value; an absent key with a default gets the coerced default and joins the defaults used; any other key changes nothing |
| InputObjects.CoerceInputEntries | lib/graphql8/input_object_type.rb:89-100 | a present argument is coerced and prepared; an absent one with a default gets the coerced default and is recorded as defaulted; an absent one without stays absent |
| InputObjects.CoerceNonNullInputResult | lib/graphql8/input_object_type.rb:85-103 | the values are exactly the present or defaulted arguments, and the defaults used are exactly the absent arguments with defaults |
| InputObjects.Undeclared | lib/graphql8/input_object_type.rb:136-140 | one "Field is not defined" problem per input key outside the visible arguments, at that key |
| InputObjects.UndeclaredAppend | lib/graphql8/input_object_type.rb:136-140 | the input keys are checked one by one, in order |
| InputObjects.FieldProblemsAppend | lib/graphql8/input_object_type.rb:143-148 | the visible arguments are validated one by one, in order |
| InputObjects.FieldProblemsEmpty | lib/graphql8/input_object_type.rb:143-148 | no field problem iff every visible argument's value validates |
| InputObjects.ValidateNonNullInput | lib/graphql8/input_object_type.rb:108-151 | `nil` raises `NoMethodError` (it has `to_h` but no `each`); otherwise the problems are exactly `ValidationProblems`: an array or a non-hash gets the invalid-object problem, a hash its undeclared keys then its field problems |
| InputObjects.ReportUndeclared | lib/graphql8/input_object_type.rb:136-140 | the loop appends exactly `Undeclared` |
| InputObjects.ReportFields | lib/graphql8/input_object_type.rb:143-148 | the loop appends exactly the field problems |
| InputObjects.ValidationOutcome | lib/graphql8/input_object_type.rb:108-151 | raises exactly for `nil`; an array or a value without `to_h` gets exactly one problem; otherwise the input is valid iff every key is a visible argument and every visible argument validates |
| InputValidation.Prefixed | lib/graphql8/input_object_type.rb:146 | each merged problem keeps its explanation and has its path put under the field name |
| InputValidation.ValidationResult.constructor | lib/graphql8/input_object_type.rb:110 | a new result has no problems |
| InputValidation.ValidationResult.AddProblem | lib/graphql8/input_object_type.rb:113-138 | appends exactly one problem with the given explanation and path |
| InputValidation.ValidationResult.MergeResult | lib/graphql8/input_object_type.rb:146 | appends the inner problems with their paths under the field name |
| InputValidation.PrefixedAppend | lib/graphql8/input_object_type.rb:146 | merging problems one list at a time is merging them at once |
| ErrorObjects.NewExecutionError | lib/graphql8/execution_error.rb:24-29 | the error keeps its message, node, options and extensions, and has no path yet |
| ErrorObjects.OwnHash | lib/graphql8/execution_error.rb:32-46 | `message` comes first; `locations` holds the node's line and column exactly when there is a node; `path` exactly when there is one |
| ErrorObjects.BaseHash | lib/graphql8/execution_error.rb:47-49 | the options override the error's own entries; `message` stays first |
| ErrorObjects.ToH | lib/graphql8/execution_error.rb:32-55 | every entry but `extensions` is the merged base hash's |
| ErrorObjects.ToHFailure | lib/graphql8/execution_error.rb:50-52 | raises exactly when extensions are given and the options hold a truthy non-hash `extensions` entry |
| ErrorObjects.ToHEntries | lib/graphql8/execution_error.rb:32-55 | `locations` and `path` appear when the error has them or the options give them, the options winning; every option other than `extensions` is copied |
| ErrorObjects.ToHExtensions | lib/graphql8/execution_error.rb:50-53 | the extensions are merged into the `extensions` entry; without extensions, the entry is whatever the options gave |
| ErrorObjects.NewParseError | lib/graphql8/parse_error.rb:6-15 | a filename is appended to the message in parentheses; line, column and query are kept |
| ErrorObjects.ParseErrorToH | lib/graphql8/parse_error.rb:17-23 | exactly `message` then `locations`, the latter empty without a line and otherwise holding the line and column |
| ErrorObjects.InvalidNullError.Message | lib/graphql8/invalid_null_error.rb:15-20 | `Cannot return null for non-nullable field P.f`, starting with the fixed text and ending with the field name |
| ErrorObjects.InvalidNullError.ToH | lib/graphql8/invalid_null_error.rb:23-25 | exactly one entry, the message |
| ErrorObjects.InvalidNullError.ParentError | lib/graphql8/invalid_null_error.rb:28-30 | always false |
| ErrorObjects.InvalidNullMessageInjective | lib/graphql8/invalid_null_error.rb:19 | when type names hold no dot, the message determines the parent type and the field |
| GraphTypes.Depth | lib/graphql8/schema/wrapper.rb:20-22 | zero exactly for a named type |
| GraphTypes.UnwrapWrapper | lib/graphql8/schema/wrapper.rb:20-22 | a wrapper unwraps to what its inner type unwraps to, which is reached by stripping wrappers |
| GraphTypes.StripToUnwrap | lib/graphql8/schema/wrapper.rb:20-22 | stripping every wrapper reaches the unwrapped named type |
| GraphTypes.Kind | lib/graphql8/schema/list.rb:14-16 | LIST exactly for a list and NON_NULL exactly for a non-null type |
| GraphTypes.Signature | lib/graphql8/schema/list.rb:23-25 | a list's signature is bracketed, a non-null type's ends in `!`, and it is at least as long as the list nesting plus the named type's name |
| GraphTypes.SignatureLayout | lib/graphql8/schema/list.rb:23-25 | a signature opens with one `[` per list level, followed by the named type's name |
| NameValidator.IsValidChars | lib/graphql8/name_validator.rb:4-14 | a valid name is a letter or `_` followed by letters, digits and `_` |
| NameValidator.EmptyIsInvalid | lib/graphql8/name_validator.rb:4 | the empty name is invalid |
| NameValidator.DigitStartIsInvalid | lib/graphql8/name_validator.rb:4 | a name starting with a digit is invalid |
| NameValidator.Validate | lib/graphql8/name_validator.rb:6-8 | succeeds exactly for a valid name, otherwise raises for that name |
| NameValidator.ValidateAsWritten | lib/graphql8/name_validator.rb:4-14 | as written, succeeds exactly when some line of the name is a valid name |
| NameValidator.ValidPassesAsWritten | lib/graphql8/name_validator.rb:4-14 | every valid name passes the check as written |
| NameValidator.MultilineNamePassesAsWritten | lib/graphql8/name_validator.rb:4-14 | as written, `"1\nok"` passes though it is not a valid name |
| ValidationContexts.ValidationContext.constructor | lib/graphql8/static_validation/validation_context.rb:21-24 | a fresh context starts with no errors |
| ValidationContexts.ValidationContext.AddError | lib/graphql8/static_validation/validation_context.rb:17 | appending a message keeps every earlier error and adds exactly this one at the end |
| FieldsWillMerge.Validate | lib/graphql8/static_validation/rules/fields_will_merge.rb:8-45 | appends exactly `MergeErrors`: each irep node's errors, in the order the nodes are yielded |
| FieldsWillMerge.ValidateNode | lib/graphql8/static_validation/rules/fields_will_merge.rb:9-43 | appends the node's field-conflict error, then its argument-conflict error |
| FieldsWillMerge.ReportFieldConflict | lib/graphql8/static_validation/rules/fields_will_merge.rb:11-18 | appends one error exactly when the merged fields back more than one underlying field |
| FieldsWillMerge.ReportArgumentConflict | lib/graphql8/static_validation/rules/fields_will_merge.rb:21-42 | appends one error exactly when more than one distinct argument map remains after `uniq!` |
| FieldsWillMerge.ArgumentMaps | lib/graphql8/static_validation/rules/fields_will_merge.rb:21-36 | one argument map per merged AST field, in order; a field without arguments gets `NO_ARGS` |
| FieldsWillMerge.Reduce | lib/graphql8/static_validation/rules/fields_will_merge.rb:23-32 | the memo hash equals `Reduced`: each argument's printed value under its name, later ones overwriting |
| FieldsWillMerge.Printed | lib/graphql8/static_validation/rules/fields_will_merge.rb:24-30 | a node argument is stored as its query string; a list or other literal as `Language.serialize` prints it |
| FieldsWillMerge.Serialized | lib/graphql8/language.rb:16-31 | a list argument prints bracketed, element by element, a node inside it as `JSON.generate` prints the node; a plain literal as `Language.serialize` |
| FieldsWillMerge.Deduplicate | lib/graphql8/static_validation/rules/fields_will_merge.rb:37 | `uniq!` keeps the first of each group of maps with equal entries, in order |
| FieldsWillMerge.SingleFieldNoErrors | lib/graphql8/static_validation/rules/fields_will_merge.rb:10 | a node backed by at most one AST field is never reported |
| FieldsWillMerge.ErrorsShape | lib/graphql8/static_validation/rules/fields_will_merge.rb:10-43 | at most two errors per node, each listing all of the node's AST fields |
| FieldsWillMerge.FieldConflictIff | lib/graphql8/static_validation/rules/fields_will_merge.rb:11-18 | the field-conflict error exists iff two merged fields have different underlying names |
| FieldsWillMerge.ConflictNamesSorted | lib/graphql8/static_validation/rules/fields_will_merge.rb:15-16 | the message lists each underlying name exactly once, in sorted order |
| FieldsWillMerge.ArgumentConflictIff | lib/graphql8/static_validation/rules/fields_will_merge.rb:21-42 | the argument-conflict error exists iff two merged fields have argument maps with different entries |
| FieldsWillMerge.ReducedHas | lib/graphql8/static_validation/rules/fields_will_merge.rb:23-31 | with distinct argument names, each argument's printed value is stored under its name |
| FieldsWillMerge.ReducedLacks | lib/graphql8/static_validation/rules/fields_will_merge.rb:23-31 | a name that no argument carries is not in the map |
| FieldsWillMerge.ArgumentOrderIrrelevant | lib/graphql8/static_validation/rules/fields_will_merge.rb:21-37 | the same arguments written in another order give a map with the same entries, so no conflict |
| FieldsWillMerge.NodesIndependent | lib/graphql8/static_validation/rules/fields_will_merge.rb:9-44 | the errors of two runs of nodes are the errors of each run, concatenated |
| Grouping.GroupByContents | lib/graphql8/static_validation/rules/operation_names_are_valid.rb:8-12 | after `h[k] << node` for every item, the keys are the distinct keys in order of first appearance and each key holds exactly its items, in order |
| Grouping.GroupBy | lib/graphql8/static_validation/rules/operation_names_are_valid.rb:8-12 | a well-formed hash with no more keys than items |
| Grouping.GroupByTally | lib/graphql8/static_validation/rules/operation_names_are_valid.rb:15 | summing the group sizes counts every item exactly once |
| NameUniqueness.ReportDuplicates | lib/graphql8/static_validation/rules/fragment_names_are_unique.rb:14-18 | the walk over the groups appends one error for each name with more than one definition |
| NameUniqueness.ReportDuplicate | lib/graphql8/static_validation/rules/fragment_names_are_unique.rb:15-17 | appends one error listing every definition of a name defined more than once, and nothing for a name defined once |
| NameUniqueness.DuplicateErrorsExact | lib/graphql8/static_validation/rules/fragment_names_are_unique.rb:13-19 | exactly one error per duplicated name, in order of first appearance, listing all its definitions in document order |
| NameUniqueness.UniqueNamesNoErrors | lib/graphql8/static_validation/rules/fragment_names_are_unique.rb:15 | with no name defined twice there is no error |
| OperationNamesAreValid.OperationNamesAreValid.EnterOperation | lib/graphql8/static_validation/rules/operation_names_are_valid.rb:10-12 | files the operation under its name (nil for an anonymous one) |
| OperationNamesAreValid.OperationNamesAreValid.LeaveDocument | lib/graphql8/static_validation/rules/operation_names_are_valid.rb:14-24 | appends exactly `OperationNameErrors` of the operations entered |
| OperationNamesAreValid.OperationNamesAreValid.CountOperations | lib/graphql8/static_validation/rules/operation_names_are_valid.rb:15 | `op_count` is the sum of the group sizes |
| OperationNamesAreValid.OperationNamesAreValid.ReportGroups | lib/graphql8/static_validation/rules/operation_names_are_valid.rb:17-23 | one pass over the groups in key order, each adding the required error, the unique error or nothing |
| OperationNamesAreValid.OperationNamesAreValid.ReportGroup | lib/graphql8/static_validation/rules/operation_names_are_valid.rb:18-22 | appends the required error for the anonymous group of a document with several operations, else the unique error for a group of more than one, else nothing |
| OperationNamesAreValid.Validate | lib/graphql8/static_validation/rules/operation_names_are_valid.rb:7-25 | the enter hook for each operation, then the leave hook, append exactly `OperationNameErrors` |
| OperationNamesAreValid.UniqueMessage | lib/graphql8/static_validation/rules/operation_names_are_valid.rb:21 | the message embeds the name (nil as empty) between fixed text, so distinct names give distinct messages |
| OperationNamesAreValid.AnonymousNeverUnique | lib/graphql8/static_validation/rules/operation_names_are_valid.rb:18-21 | the anonymous group only ever gets the required error, and gets it iff the document has more than one operation |
| OperationNamesAreValid.UniqueMessageInjective | lib/graphql8/static_validation/rules/operation_names_are_valid.rb:21 | equal uniqueness messages come from equal names |
| OperationNamesAreValid.UniqueIsNotRequired | lib/graphql8/static_validation/rules/operation_names_are_valid.rb:19-21 | no uniqueness message equals the required message |
| OperationNamesAreValid.ErrorsFromGroups | lib/graphql8/static_validation/rules/operation_names_are_valid.rb:17-23 | an error is reported iff the group of some name in the document yields it |
| OperationNamesAreValid.RequiredIff | lib/graphql8/static_validation/rules/operation_names_are_valid.rb:18-19 | the required error, listing all anonymous operations, is reported iff there is an anonymous operation and more than one operation |
| OperationNamesAreValid.RequiredOnlyForAnonymous | lib/graphql8/static_validation/rules/operation_names_are_valid.rb:18-19 | every error with the required text lists exactly the anonymous operations, and only a document with an anonymous operation and more than one operation gets one |
| OperationNamesAreValid.UniqueIff | lib/graphql8/static_validation/rules/operation_names_are_valid.rb:20-21 | a named group gets the uniqueness error iff it has more than one operation |
| OperationNamesAreValid.SingleOperation | lib/graphql8/static_validation/rules/operation_names_are_valid.rb:18-21 | a document with one operation, named or not, gets no error |
| OperationNamesAreValid.AtMostOnePerName | lib/graphql8/static_validation/rules/operation_names_are_valid.rb:17-23 | at most one error per distinct name |
| FragmentNamesAreUnique.FragmentNamesAreUnique.EnterFragment | lib/graphql8/static_validation/rules/fragment_names_are_unique.rb:9-11 | files the fragment definition under its name |
| FragmentNamesAreUnique.FragmentNamesAreUnique.LeaveDocument | lib/graphql8/static_validation/rules/fragment_names_are_unique.rb:13-19 | appends exactly `FragmentNameErrors` of the definitions entered |
| FragmentNamesAreUnique.Validate | lib/graphql8/static_validation/rules/fragment_names_are_unique.rb:7-20 | the hook for each definition, then the leave hook, append exactly `FragmentNameErrors` |
| FragmentNamesAreUnique.OnePerDuplicatedName | lib/graphql8/static_validation/rules/fragment_names_are_unique.rb:13-19 | exactly one error per name defined more than once, in order of first appearance, listing all its definitions |
| FragmentNamesAreUnique.UniqueNames | lib/graphql8/static_validation/rules/fragment_names_are_unique.rb:15 | definitions with pairwise different names produce no error |
| VariableNamesAreUnique.EnterOperation | lib/graphql8/static_validation/rules/variable_names_are_unique.rb:8-19 | appends exactly `OperationErrors` for one operation; none when it has no variables |
| VariableNamesAreUnique.Validate | lib/graphql8/static_validation/rules/variable_names_are_unique.rb:7-20 | appends each operation's errors, in document order |
| VariableNamesAreUnique.OperationsIndependent | lib/graphql8/static_validation/rules/variable_names_are_unique.rb:8-19 | the errors of two runs of operations are the errors of each run, concatenated |
| VariableNamesAreUnique.OnePerDuplicatedName | lib/graphql8/static_validation/rules/variable_names_are_unique.rb:10-17 | exactly one error per variable name declared more than once, in order of first appearance, listing all its definitions |
| VariableNamesAreUnique.UniqueNames | lib/graphql8/static_validation/rules/variable_names_are_unique.rb:14 | variables with pairwise different names produce no error |
| DirectivesAreDefined.NotDefinedMessage | lib/graphql8/static_validation/rules/directives_are_defined.rb:18 | the message is fixed text around the directive's name |
| DirectivesAreDefined.ValidateDirective | lib/graphql8/static_validation/rules/directives_are_defined.rb:16-23 | appends one error and answers SKIP exactly when the directive's name is not a schema directive |
| DirectivesAreDefined.NotDefinedMessageInjective | lib/graphql8/static_validation/rules/directives_are_defined.rb:18 | equal messages come from equal directive names |
| DirectivesAreDefined.OnePerUndefinedUse | lib/graphql8/static_validation/rules/directives_are_defined.rb:7-23 | a document gets exactly one error per use of an undefined directive |
| DirectivesAreDefined.ErrorsNameUndefined | lib/graphql8/static_validation/rules/directives_are_defined.rb:7-23 | an error is reported iff it names, and points at, a use of an undefined directive |
| FragmentsAreNamed.ValidateNameExists | lib/graphql8/static_validation/rules/fragments_are_named.rb:13-17 | appends one error exactly when the definition has no name, and never skips |
| FragmentsAreNamed.OnePerUnnamed | lib/graphql8/static_validation/rules/fragments_are_named.rb:7-17 | a document gets exactly one error per unnamed fragment definition |
| FragmentsAreNamed.ReportedIffUnnamed | lib/graphql8/static_validation/rules/fragments_are_named.rb:14-15 | a definition is reported iff it has no name |
| FragmentTypesExist.NoSuchTypeMessage | lib/graphql8/static_validation/rules/fragment_types_exist.rb:25 | the message is fixed text around the type condition's name |
| FragmentTypesExist.ValidateTypeExists | lib/graphql8/static_validation/rules/fragment_types_exist.rb:20-28 | appends one error and answers SKIP exactly when the type condition names no visible type |
| FragmentTypesExist.NoConditionNoError | lib/graphql8/static_validation/rules/fragment_types_exist.rb:21 | a fragment without a type condition is never reported |
| FragmentTypesExist.OnePerMissingType | lib/graphql8/static_validation/rules/fragment_types_exist.rb:12-28 | exactly one error per fragment, definition or inline, whose type is missing |
| FragmentTypesExist.ErrorsNameMissingType | lib/graphql8/static_validation/rules/fragment_types_exist.rb:12-28 | an error is reported iff it names, and points at, a fragment whose type is missing |
| MutationRootExists.EnterOperation | lib/graphql8/static_validation/rules/mutation_root_exists.rb:12-17 | appends one error and answers SKIP exactly for a mutation |
| MutationRootExists.Validate | lib/graphql8/static_validation/rules/mutation_root_exists.rb:7-18 | with a mutation root nothing is registered; otherwise each mutation gets one error and is skipped |
| MutationRootExists.WithRootNoErrors | lib/graphql8/static_validation/rules/mutation_root_exists.rb:8 | a schema with a mutation root yields no error |
| MutationRootExists.OnePerMutation | lib/graphql8/static_validation/rules/mutation_root_exists.rb:12-17 | without a mutation root, exactly one error per mutation operation |
| MutationRootExists.OnlyMutationsReported | lib/graphql8/static_validation/rules/mutation_root_exists.rb:8-17 | an error is reported iff the schema has no mutation root and it points at a mutation |
| FragmentsAreFinite.LoopMessage | lib/graphql8/static_validation/rules/fragments_are_finite.rb:12 | the message is fixed text around the fragment's name |
| FragmentsAreFinite.LeaveDocument | lib/graphql8/static_validation/rules/fragments_are_finite.rb:8-15 | appends, in order, one error for each cyclical definition that is a fragment |
| FragmentsAreFinite.OnePerCyclicalFragment | lib/graphql8/static_validation/rules/fragments_are_finite.rb:10-14 | exactly one error per cyclical fragment definition; cyclical operations get none |
| FragmentsAreFinite.ErrorsAreFragments | lib/graphql8/static_validation/rules/fragments_are_finite.rb:10-14 | an error is reported iff it is the loop message of a cyclical fragment, at that fragment's node and path |
| FragmentsAreFinite.LoopMessageInjective | lib/graphql8/static_validation/rules/fragments_are_finite.rb:12 | equal messages come from equal fragment names |
| NoDefinitionsArePresent.SchemaDefinitionIds | lib/graphql8/static_validation/rules/no_definitions_are_present.rb:9-31 | the registered nodes are at most the document's definitions |
| NoDefinitionsArePresent.NoDefinitionsArePresent.RegisterNode | lib/graphql8/static_validation/rules/no_definitions_are_present.rb:9-12 | appends the node to the list and answers SKIP |
| NoDefinitionsArePresent.NoDefinitionsArePresent.LeaveDocument | lib/graphql8/static_validation/rules/no_definitions_are_present.rb:33-37 | appends one error listing every registered node, and only when there is one |
| NoDefinitionsArePresent.Validate | lib/graphql8/static_validation/rules/no_definitions_are_present.rb:7-38 | appends exactly `DocumentErrors`; exactly the fifteen schema definition and extension kinds are skipped |
| NoDefinitionsArePresent.SchemaDefinitionIdsExact | lib/graphql8/static_validation/rules/no_definitions_are_present.rb:16-31 | a node is listed iff it is one of the document's schema definitions or extensions |
| NoDefinitionsArePresent.AtMostOneError | lib/graphql8/static_validation/rules/no_definitions_are_present.rb:33-37 | at most one error, with the fixed message and all the listed nodes |
| NoDefinitionsArePresent.ReportedIff | lib/graphql8/static_validation/rules/no_definitions_are_present.rb:34 | an error is reported iff the document has a schema definition or extension |
| DirectivesAreInValidLocations.OperationLocation | lib/graphql8/static_validation/rules/directives_are_in_valid_locations.rb:41 | the location an operation type names is the constant whose name is the upcased keyword |
| DirectivesAreInValidLocations.RequiredLocation | lib/graphql8/static_validation/rules/directives_are_in_valid_locations.rb:39-46 | an operation parent needs its operation's location, the four simple parents their fixed location, any other parent none |
| DirectivesAreInValidLocations.ValidateLocation | lib/graphql8/static_validation/rules/directives_are_in_valid_locations.rb:37-49 | appends `LocationErrors` when they can be computed, and raises (adding nothing) when the directive is undefined under a checked parent |
| DirectivesAreInValidLocations.AssertIncludesLocation | lib/graphql8/static_validation/rules/directives_are_in_valid_locations.rb:51-57 | appends the not-allowed error exactly when the required location is missing; raises for an undefined directive |
| DirectivesAreInValidLocations.ErrorIffNotAllowed | lib/graphql8/static_validation/rules/directives_are_in_valid_locations.rb:51-56 | for a defined directive under a checked parent, an error iff its locations lack the required one, naming the required and all allowed locations |
| DirectivesAreInValidLocations.LocationErrors | lib/graphql8/static_validation/rules/directives_are_in_valid_locations.rb:37-49 | at most one error, about the directive node; any other kind of parent is reported as misplaced; it raises exactly for an operation type without a location, or an undefined directive under a checked parent |
| DirectivesAreInValidLocations.IncludesErrors | lib/graphql8/static_validation/rules/directives_are_in_valid_locations.rb:51-57 | raises iff the directive is undefined; otherwise one error, naming the directive and its allowed locations, exactly when the required location is not among them |
| DirectivesAreInValidLocations.UndefinedRaises | lib/graphql8/static_validation/rules/directives_are_in_valid_locations.rb:38-52 | an undefined directive raises exactly under the parents whose location is checked |
| DirectivesAreInValidLocations.OperationKeywords | lib/graphql8/static_validation/rules/directives_are_in_valid_locations.rb:19-41 | query, mutation and subscription map to QUERY, MUTATION and SUBSCRIPTION |
| DirectivesAreInValidLocations.MessageNamesDistinct | lib/graphql8/static_validation/rules/directives_are_in_valid_locations.rb:18-26 | the message table gives the seven executable locations pairwise different names and names nothing else |
| VariableDefaultValuesAreCorrectlyTyped.EnterVariableDefinition | lib/graphql8/static_validation/rules/variable_default_values_are_correctly_typed.rb:8-12 | a definition without a default adds nothing; one with a default adds `DefaultValueErrors` |
| VariableDefaultValuesAreCorrectlyTyped.ValidateDefaultValue | lib/graphql8/static_validation/rules/variable_default_values_are_correctly_typed.rb:15-38 | appends exactly `DefaultValueErrors`, following the non-null, unknown-type and literal-check branches |
| VariableDefaultValuesAreCorrectlyTyped.AtMostOneError | lib/graphql8/static_validation/rules/variable_default_values_are_correctly_typed.rb:8-38 | no error without a default and at most one with one, always at the definition node |
| VariableDefaultValuesAreCorrectlyTyped.NonNullWithDefault | lib/graphql8/static_validation/rules/variable_default_values_are_correctly_typed.rb:17-18 | a non-null variable with a default always gets the non-null error |
| VariableDefaultValuesAreCorrectlyTyped.UnknownTypeNoError | lib/graphql8/static_validation/rules/variable_default_values_are_correctly_typed.rb:20-22 | a nullable type the schema lacks is left to another rule |
| VariableDefaultValuesAreCorrectlyTyped.LiteralChecked | lib/graphql8/static_validation/rules/variable_default_values_are_correctly_typed.rb:24-35 | reported iff the literal check is not true; a coercion error's message is used, otherwise the mismatch text |
| ArgumentsValidator.ParentName | lib/graphql8/static_validation/arguments_validator.rb:9-17 | a field is named by its alias when it has one, else its name; an input object by the owning type's name; any other parent by its own name |
| ArgumentsValidator.LastSegment | lib/graphql8/static_validation/arguments_validator.rb:19-21 | the last `::` segment of a joined class name is its last component when no component holds a colon |
| ArgumentsValidator.NodesClassType | lib/graphql8/static_validation/arguments_validator.rb:19-21 | a node class of `GraphQL8::Language::Nodes` is reported by its short name |
| ArgumentsValidator.NodeType | lib/graphql8/static_validation/arguments_validator.rb:19-21 | a field, input object or directive parent is reported by its short class name |
| ArgumentsValidator.Dispatch | lib/graphql8/static_validation/arguments_validator.rb:29-49 | an input-object argument is checked only inside an argument whose unwrapped type is an input object, against that type; a directive or field argument against its definition; it raises exactly for an unexpected parent or a missing directive or field definition |
| ArgumentsAreDefined.ValidateNode | lib/graphql8/static_validation/rules/arguments_are_defined.rb:5-15 | appends one error exactly when the owner's visible arguments lack the name, and answers SKIP exactly then |
| ArgumentsAreDefined.EnterArgument | lib/graphql8/static_validation/arguments_validator.rb:29-49 | adds the errors of `validate_node` for the dispatched owner, nothing where the hook returns early, raises (adding nothing) where dispatch fails; SKIP iff an error was added |
| ArgumentsAreDefined.ReportedIffUndeclared | lib/graphql8/static_validation/rules/arguments_are_defined.rb:6-11 | at most one error per argument, reported iff no declared argument has its name |
| ArgumentsAreDefined.FieldMessage | lib/graphql8/static_validation/rules/arguments_are_defined.rb:8-10 | on a field the message reads `Field 'alias-or-name' doesn't accept argument 'a'` |
| ArgumentsAreDefined.InputObjectMessage | lib/graphql8/static_validation/rules/arguments_are_defined.rb:8-10 | in an input object the message names the input object type |
| AllRules.Position | lib/graphql8/static_validation/all_rules.rb:9-37 | every rule has a position in the default list holding that rule |
| AllRules.ExactlyOnce | lib/graphql8/static_validation/all_rules.rb:9-37 | the default list has 27 rules, each exactly once |
| AllRules.Precedence | lib/graphql8/static_validation/all_rules.rb:6-36 | definitions are rejected first; directives are defined before their locations are checked; fragment types exist before fields are looked up, and fields are defined before they are merged; arguments are defined before their literals are checked; operation names are checked last |
| Validator.Validate | lib/graphql8/static_validation/validator.rb:24-51 | the errors are those of the visit over the attached hooks followed by the irep handlers'; the rewritten document is answered iff there is no error |
| Validator.AddErrors | lib/graphql8/static_validation/validator.rb:39-43 | the context's errors grow by exactly the given errors, in order |
| Validator.HookOrder | lib/graphql8/static_validation/validator.rb:29-37 | the rewrite pass is attached first; the rules follow in list order only when validating; without validation nothing else is attached |
| Enums.RuntimeValue | lib/graphql8/schema/enum_value.rb:43 | the stored value is always truthy and a truthy given value is kept |
| Enums.InitialDescription | lib/graphql8/schema/enum_value.rb:42 | the positional description wins over the keyword; there is none only when neither is given |
| Enums.EnumValue.constructor | lib/graphql8/schema/enum_value.rb:40-46 | the value keeps its name and owner, the initial description and runtime value, and the deprecation reason |
| Enums.EnumValue.Description | lib/graphql8/schema/enum_value.rb:52-57 | replaces the description only when one is given, answers the current one, changes nothing else |
| Enums.EnumValue.Value | lib/graphql8/schema/enum_value.rb:59-64 | replaces the value only when the new one is truthy, answers the current one, changes nothing else |
| Enums.EnumValue.ToGraphql | lib/graphql8/schema/enum_value.rb:67-75 | the runtime value carries this value's name, description, value and deprecation reason |
| Enums.Definitions | lib/graphql8/schema/enum.rb:56-58 | one runtime value per enum value, position by position |
| Enums.AddValues | lib/graphql8/schema/enum.rb:56-58 | the loop adds exactly `Definitions` of the values, in order |
| Enums.EnumType.constructor | lib/graphql8/schema/enum.rb:77-79 | a new enum class has no own values and no own value class |
| Enums.EnumType.Values | lib/graphql8/schema/enum.rb:44-48 | every value is filed under its name; own values win; the inherited names come first, in their order |
| Enums.EnumType.EnumValueClass | lib/graphql8/schema/enum.rb:64-82 | the class's own value class, else the nearest above, else `Schema::EnumValue` |
| Enums.EnumType.SetEnumValueClass | lib/graphql8/schema/enum.rb:64-69 | sets the value class only when one is given and answers the one in effect |
| Enums.EnumType.DefineValue | lib/graphql8/schema/enum.rb:36-41 | files a fresh value owned by this class under its name, replacing any earlier one, built from the given arguments |
| Enums.EnumType.ToGraphql | lib/graphql8/schema/enum.rb:51-61 | the runtime enum has this name and description and one value per entry of `values`, in order, named by its key |
| Enums.EnumType.InheritedLookup | lib/graphql8/schema/enum.rb:44-48 | a name not defined here comes from the class above, and from nowhere for a direct subclass of `Schema::Enum` |
| Enums.EnumType.ValuesFromNearest | lib/graphql8/schema/enum.rb:44-48 | the value under a name is the one on the nearest class, from this one upwards, that defines it |
| Unions.UnionType.constructor | lib/graphql8/schema/union.rb:4-7 | a new union has its name and description and no declared types |
| Unions.UnionType.AllPossibleTypes | lib/graphql8/schema/union.rb:12-14 | no type twice; a type is listed iff it is declared here or inherited |
| Unions.UnionType.PossibleTypes | lib/graphql8/schema/union.rb:8-16 | with types, replaces the declaration and answers it; without, changes nothing and answers the full list |
| Unions.UnionType.ReadPossibleTypes | lib/graphql8/schema/union.rb:12-14 | answers the full list |
| Unions.UnionType.ToGraphql | lib/graphql8/schema/union.rb:18-28 | the runtime union has this union's name, description and full list of types |
| Unions.UnionType.DeclaredFirst | lib/graphql8/schema/union.rb:12-14 | a declaration without repeats comes first, in declared order |
| Unions.UniqPrefix | lib/graphql8/schema/union.rb:14 | `(xs + ys).uniq` starts with `xs` when `xs` has no repeats |
| HasArguments.ArgumentOwner.constructor | lib/graphql8/schema/member/has_arguments.rb:52-54 | a new member has no own arguments and no own argument class |
| HasArguments.ArgumentOwner.Arguments | lib/graphql8/schema/member/has_arguments.rb:31-35 | every argument is filed under its name; own arguments override; inherited names come first, in their order |
| HasArguments.ArgumentOwner.ArgumentClass | lib/graphql8/schema/member/has_arguments.rb:43-49 | the own argument class, else the nearest above, else `Schema::Argument` |
| HasArguments.ArgumentOwner.SetArgumentClass | lib/graphql8/schema/member/has_arguments.rb:43-49 | sets the class only when one is given and answers the one in effect |
| HasArguments.ArgumentOwner.AddArgument | lib/graphql8/schema/member/has_arguments.rb:25-28 | files the argument under its name, replacing one of that name, and answers it |
| HasArguments.ArgumentOwner.DefineArgument | lib/graphql8/schema/member/has_arguments.rb:16-20 | builds an argument owned by this member with the argument class in effect and files it under its name |
| HasArguments.ArgumentOwner.InheritedLookup | lib/graphql8/schema/member/has_arguments.rb:31-35 | a name not defined here comes from the class above, and from nowhere without one |
| HasArguments.ArgumentOwner.ArgumentsFromNearest | lib/graphql8/schema/member/has_arguments.rb:31-35 | the argument under a name is the one on the nearest member, from this one upwards, that defines it |
| Objects.NotInterfaceMessage | lib/graphql8/schema/object.rb:64 | the message starts with the module's name followed by the fixed 97-character explanation |
| Objects.FirstNonInterface | lib/graphql8/schema/object.rb:61-65 | none iff every module listed is an interface; otherwise a listed module that is not one |
| Objects.FindNonInterface | lib/graphql8/schema/object.rb:61-65 | the loop finds the first module that is not an interface |
| Objects.FirstNonInterfaceAppend | lib/graphql8/schema/object.rb:61-65 | the first offending module of a prefix is the first of the whole list |
| Objects.LegacyFields | lib/graphql8/schema/object.rb:89-92 | the legacy fields become class-based fields under the same names, in the same order |
| Objects.BuildLegacyFields | lib/graphql8/schema/object.rb:89-92 | the loop builds exactly `LegacyFields` |
| Objects.WithLegacyGet | lib/graphql8/schema/object.rb:85-97 | the class's own fields win every clash; a missing name comes from the first legacy interface that has it |
| Objects.MergeLegacy | lib/graphql8/schema/object.rb:87-95 | the loop folds the legacy interfaces in exactly as `WithLegacy` |
| Objects.DefinitionsByNameKeys | lib/graphql8/schema/object.rb:107-110 | a runtime field is registered under a name iff some field's definition carries it, and each entry carries its key |
| Objects.DefinitionsKeepNames | lib/graphql8/schema/object.rb:107-110 | when definitions keep the field names, the runtime type has exactly the class's fields in order |
| Objects.ObjectType.constructor | lib/graphql8/schema/object.rb:80-82 | a new object class has no own interfaces |
| Objects.ObjectType.Interfaces | lib/graphql8/schema/object.rb:76-78 | the own interfaces come first, followed by the class above's |
| Objects.ObjectType.Implements | lib/graphql8/schema/object.rb:60-74 | raises the message for the first module that is not an interface and leaves the list unchanged; otherwise appends all the given interfaces |
| Objects.ObjectType.Fields | lib/graphql8/schema/object.rb:85-97 | the class's fields with the legacy interfaces' fields folded in, as `WithLegacy` |
| Objects.ObjectType.ToGraphql | lib/graphql8/schema/object.rb:100-115 | the runtime object has this name and the interfaces, and one definition per field of `fields` (the inherited fields with each legacy interface's fields merged under them), keyed by the name the definition carries |

## Left out

- The AST visitor, `TypeStack` and `DefinitionDependencies` are not part of this model. Each rule hook takes the nodes, types and dependency map it would read from them as parameters.
- A hook that answers `SKIP` stops descent in the visitor. The visitor is not modelled, so neither is this effect on later hooks.
- JSON generation and the AST printer are parameters: `Language.Serialize` takes the generated JSON, and messages that quote printed values take the printed string.
- Schema lookups through the warden (types, fields, directives, possible types) are parameters: a map or a function given to each member.
- `Execution::Lookahead` follows fragment spreads with a fuel bound. A document whose spreads nest deeper than the fuel is answered with a failure, where Ruby would go on following them.
- The `Message` class is reduced to its text, its nodes and its path; the path is a parameter.
- Exception texts for Ruby errors raised by the runtime (`NoMethodError`, `ArgumentError`) are indicative. The model keeps only which error is raised. The same holds for `ArgumentsValidator.Dispatch`'s "Unexpected argument parent" text, which leaves out the ` (#<parent>)` suffix that prints the node object.
- `Object.const_get` (constantize) in `BuildType` is a parameter that maps a constant name to what it resolves to.
- `Schema::Union.possible_types` calls `super`. Its result is the `inherited` parameter: what an ancestor that defines `possible_types` answers, or nothing.
- `Schema::Argument` and `Schema::Field#to_graphql` are not part of this model. An argument is its name, its type expression, its owner and its argument class, and a field's runtime definition name is a parameter.
- `Schema::Object.implements` with a Ruby module includes that module into the class. Only the recorded interface list is modelled, not the methods the inclusion brings.
- The instance-level `argument_class` delegates to the class. Only the class-level form is modelled.
- `Schema::Enum.value` with a block evaluates the block on the new value, and a custom `enum_value_class` instantiates that class. The block is not modelled, and the value is always a `Schema::EnumValue`.
- `visible?`, `accessible?`, `authorized?` and `authorized_new` are not modelled. Nor are the `kind` constants beyond LIST and NON_NULL, the introspection and mutation flags, `metadata[:type_class]`, or `resolve_type` in `Union#to_graphql`.
- Scalar `coerce_input`/`coerce_result` procs are parameters without the query context argument.
- ScalarTypes.ScalarType.ValidateNonNullInput: the `coerce_input` proc is a total function, so a proc that raises (a `CoercionError`, say) is not modelled; Ruby does not rescue it here and the error propagates to the caller, where the model always answers a validation result.
- InputObjects.CoerceNonNullInput: the fields' `coerce_input` and `prepare` hooks are total functions, so a hook that raises is not modelled, and neither is the propagation of that error out of the coercion loop.
- Validator.Validate: `query.trace("validate", …)` wraps the validation for instrumentation; tracing is not modelled, only the value the block answers.
- ErrorObjects.ToH: `ExecutionError#to_h` calls `merge!` on the `extensions` hash it takes from the options. That hash may be shared with the caller's options, and the write through that alias is not modelled.
- `InputValidationResult` is not part of this model's sources. It is modelled from its uses in `input_object_type.rb` as a list of problems, each with a path and an explanation.
- `Schema#type_from_ast` is modelled by `TypeExpression.BuildType` over the schema's type map, which the rules take as a parameter.
- ArgToValue: a literal on a leaf type is flattened with the corrected `Flatten`, which reads a nested variable's value, where `lookahead.rb:297-298` raises `ArgumentError` (see Findings). `FlattenAsWrittenFails` shows the two agree on every literal without a nested variable.
- KwArgs: inherits the corrected flattening from `ArgToValue`, and so do `Arguments`, `FieldMatch`, `FindSelected`, `Selection` and `SelectionOf`. On an argument literal that nests a variable they answer a value where the library raises.
- Case mapping (`Downcase`, `Upcase`, `Capitalize`, and through them `Underscore`, `Camelize` and `NormalizeKeyword`) covers ASCII letters only; Ruby also maps non-ASCII letters.
- Ruby floats are not modelled: `RValue` and the JSON values have no float, so `Float` inputs, results and literals are out of scope.
- A schema's own `type_error` hook is not modelled: type errors always go through `DefaultTypeError`.
- SortBy: equal keys keep the order insertion sort leaves them in; Ruby's `sort_by` promises no order for them.

## Findings

| source | as written | input that shows it | evidently intended | confidence | as-written member | corrected member |
|---|---|---|---|---|---|---|
| lib/graphql8/schema/member/build_type.rb:110 | `gsub(/\]\[\!/, "")` deletes only the three-character text `][!` | `"[Foo]"` gives `[Foo]`, while the list of `Foo` it describes gives `Foo` | delete every `[`, `]` and `!`, so that a signature names its unwrapped type | not executed | BuildType.ToTypeNameKeepsBrackets | BuildType.IntendedNameOfSignature |
| lib/graphql8/execution/lookahead.rb:297-298 | a variable is flattened by `flatten_ast_value(query.variables[v.name])`, with one argument where two are required | a variable nested in a literal on a scalar- or enum-typed argument (for example `[$x]` or `{a: $x}` on a custom-scalar argument) raises `ArgumentError`; on a list-typed argument `[$x]` is flattened element by element instead, and `$x` is resolved | `flatten_ast_value(query, query.variables[v.name])` | not executed | LookaheadArguments.NestedVariable | LookaheadArguments.FlattenTotal |
| lib/graphql8/name_validator.rb:4 | `^` and `$` match at line boundaries in Ruby, so the regex accepts a name with any valid line | `"1\nok"` passes `validate!` | anchor at the whole string (`\A`, `\z`) | not executed | NameValidator.MultilineNamePassesAsWritten | NameValidator.Validate |
