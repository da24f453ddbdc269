/** `StaticValidation::Validator#validate`: attach the rewrite pass and the
    rules to one visit of the document, then run the handlers the rules
    registered on the rewritten nodes. The visit and the rewrite are not
    part of this model: they are given as functions of the attached
    hooks. */
module Validator {
  import opened Wrappers
  import opened RubyArrays
  import opened ValidationContexts
  import opened AllRules

  /** What is attached to the visitor: the rewrite pass or a rule. */
  datatype Hook = Rewrite | RuleHook(rule: Rule)

  /** `{ errors: ..., irep: ... }`; `D` is the rewritten document. */
  datatype ValidationResult<D> = ValidationResult(errors: seq<Message>, irep: Option<D>)

  /** The hooks in the order they are attached. */
  function Hooks(rules: seq<Rule>, validate: bool): (r: seq<Hook>)
  {
    [Rewrite] + (if validate then Apply(rules, rule => RuleHook(rule)) else [])
  }

  /** `validate(query, validate:)`. `visit` gives the errors the hooks add
      during the visit and the rewritten document; `handlers` the errors the
      rules' irep-node handlers add on that document afterwards. */
  method Validate<D>(rules: seq<Rule>, validate: bool,
                     visit: seq<Hook> -> (seq<Message>, D),
                     handlers: (seq<Hook>, D) -> seq<Message>)
    returns (result: ValidationResult<D>)
    ensures var hooks := Hooks(rules, validate);
      result.errors == visit(hooks).0 + handlers(hooks, visit(hooks).1)
    ensures result.irep.None? <==> result.errors != []
    ensures result.irep.Some? ==> result.irep.value == visit(Hooks(rules, validate)).1
  {
    var context := new ValidationContext();
    var hooks := [Rewrite];
    if validate {
      for i := 0 to |rules|
        invariant hooks == [Rewrite] + Apply(rules[..i], rule => RuleHook(rule))
      {
        assert Apply(rules[..i + 1], rule => RuleHook(rule)) == Apply(rules[..i], rule => RuleHook(rule)) + [RuleHook(rules[i])];
        hooks := hooks + [RuleHook(rules[i])];
      }
      assert rules[..|rules|] == rules;
    } else {
      assert hooks == [Rewrite] + [];
    }
    var (visitErrors, rewriteResult) := visit(hooks);
    AddErrors(context, visitErrors);
    AddErrors(context, handlers(hooks, rewriteResult));
    var irep := if |context.errors| > 0 then None else Some(rewriteResult);
    result := ValidationResult(context.errors, irep);
  }

  /** The hooks append their errors one by one. */
  method AddErrors(context: ValidationContext, errors: seq<Message>)
    modifies context
    ensures context.errors == old(context.errors) + errors
  {
    for i := 0 to |errors|
      invariant context.errors == old(context.errors) + errors[..i]
    {
      TakeSnoc(errors, i);
      context.AddError(errors[i]);
    }
    assert errors[..|errors|] == errors;
  }

  /** The rewrite pass always comes first, so its enter and leave hooks run
      before any rule's; the rules follow in list order, and only when
      `validate` is set. */
  lemma HookOrder(rules: seq<Rule>, validate: bool)
    ensures Hooks(rules, validate)[0] == Rewrite
    ensures validate ==> |Hooks(rules, validate)| == |rules| + 1
    ensures validate ==> forall i :: 0 <= i < |rules| ==> Hooks(rules, validate)[i + 1] == RuleHook(rules[i])
    ensures !validate ==> Hooks(rules, validate) == [Rewrite]
    ensures forall h :: h in Hooks(rules, validate) && h != Rewrite ==> validate && h.rule in rules
  {
    forall h | h in Hooks(rules, validate) && h != Rewrite ensures validate && h.rule in rules {
      var k :| 0 <= k < |Hooks(rules, validate)| && Hooks(rules, validate)[k] == h;
      assert k > 0;
    }
  }
}
