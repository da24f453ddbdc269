/** `StaticValidation::ALL_RULES`: the default rules, in the order their hooks
    are attached. Order matters: a hook that returns `SKIP` stops the later
    hooks on the same node and the visit of its children, so a rule that
    rejects a node comes before the rules that would fail on it. */
module AllRules {
  datatype Rule =
    | NoDefinitionsArePresent | DirectivesAreDefined | DirectivesAreInValidLocations | UniqueDirectivesPerLocation
    | FragmentsAreFinite | FragmentsAreNamed | FragmentNamesAreUnique | FragmentsAreUsed | FragmentTypesExist
    | FragmentsAreOnCompositeTypes | FragmentSpreadsArePossible | FieldsAreDefinedOnType | FieldsWillMerge
    | FieldsHaveAppropriateSelections | ArgumentsAreDefined | ArgumentLiteralsAreCompatible
    | RequiredArgumentsArePresent | RequiredInputObjectAttributesArePresent | ArgumentNamesAreUnique
    | VariableNamesAreUnique | VariablesAreInputTypes | VariableDefaultValuesAreCorrectlyTyped
    | VariablesAreUsedAndDefined | VariableUsagesAreAllowed | MutationRootExists | SubscriptionRootExists
    | OperationNamesAreValid

  const ALL_RULES: seq<Rule> := [
    NoDefinitionsArePresent,
    DirectivesAreDefined,
    DirectivesAreInValidLocations,
    UniqueDirectivesPerLocation,
    FragmentsAreFinite,
    FragmentsAreNamed,
    FragmentNamesAreUnique,
    FragmentsAreUsed,
    FragmentTypesExist,
    FragmentsAreOnCompositeTypes,
    FragmentSpreadsArePossible,
    FieldsAreDefinedOnType,
    FieldsWillMerge,
    FieldsHaveAppropriateSelections,
    ArgumentsAreDefined,
    ArgumentLiteralsAreCompatible,
    RequiredArgumentsArePresent,
    RequiredInputObjectAttributesArePresent,
    ArgumentNamesAreUnique,
    VariableNamesAreUnique,
    VariablesAreInputTypes,
    VariableDefaultValuesAreCorrectlyTyped,
    VariablesAreUsedAndDefined,
    VariableUsagesAreAllowed,
    MutationRootExists,
    SubscriptionRootExists,
    OperationNamesAreValid
  ]

  /** Where a rule stands in `ALL_RULES`: every rule is in the list. */
  function Position(rule: Rule): (i: nat)
    ensures i < |ALL_RULES| && ALL_RULES[i] == rule
  {
    match rule
    case NoDefinitionsArePresent => 0
    case DirectivesAreDefined => 1
    case DirectivesAreInValidLocations => 2
    case UniqueDirectivesPerLocation => 3
    case FragmentsAreFinite => 4
    case FragmentsAreNamed => 5
    case FragmentNamesAreUnique => 6
    case FragmentsAreUsed => 7
    case FragmentTypesExist => 8
    case FragmentsAreOnCompositeTypes => 9
    case FragmentSpreadsArePossible => 10
    case FieldsAreDefinedOnType => 11
    case FieldsWillMerge => 12
    case FieldsHaveAppropriateSelections => 13
    case ArgumentsAreDefined => 14
    case ArgumentLiteralsAreCompatible => 15
    case RequiredArgumentsArePresent => 16
    case RequiredInputObjectAttributesArePresent => 17
    case ArgumentNamesAreUnique => 18
    case VariableNamesAreUnique => 19
    case VariablesAreInputTypes => 20
    case VariableDefaultValuesAreCorrectlyTyped => 21
    case VariablesAreUsedAndDefined => 22
    case VariableUsagesAreAllowed => 23
    case MutationRootExists => 24
    case SubscriptionRootExists => 25
    case OperationNamesAreValid => 26
  }

  /** Twenty-seven rules, none listed twice, so each has one position. */
  lemma ExactlyOnce()
    ensures |ALL_RULES| == 27
    ensures forall i, j :: 0 <= i < j < |ALL_RULES| ==> ALL_RULES[i] != ALL_RULES[j]
  {
    forall i, j | 0 <= i < j < |ALL_RULES| ensures ALL_RULES[i] != ALL_RULES[j] {
      PositionOfEntry(i);
      PositionOfEntry(j);
    }
  }

  lemma PositionOfEntry(i: nat)
    requires i < |ALL_RULES|
    ensures Position(ALL_RULES[i]) == i
  {
  }

  /** The rules whose `SKIP` protects later ones come first: undefined
      directives are skipped before their locations are read, missing
      fragment types before fields are looked up on them, undefined fields
      before fields are merged, undeclared arguments before their literals
      are checked. */
  lemma Precedence()
    ensures Position(NoDefinitionsArePresent) == 0
    ensures Position(OperationNamesAreValid) == |ALL_RULES| - 1
    ensures Position(DirectivesAreDefined) < Position(DirectivesAreInValidLocations)
    ensures Position(FragmentTypesExist) < Position(FieldsAreDefinedOnType) < Position(FieldsWillMerge)
    ensures Position(ArgumentsAreDefined) < Position(ArgumentLiteralsAreCompatible)
  {
  }
}
