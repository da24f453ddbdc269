/** `Query::InputValidationResult`, which the input types fill while they
    validate a value: a list of problems, each an explanation and the path
    (argument names) to the offending part of the input. The class itself is
    not part of this model's sources; it is represented by its two
    operations, `add_problem` and `merge_result!`, as the input types use
    them. */
module InputValidation {
  import opened RubyArrays

  datatype Problem = Problem(explanation: string, path: seq<string>)

  /** The problems of an inner result, reported under `path`. */
  function Prefixed(path: seq<string>, ps: seq<Problem>): (r: seq<Problem>)
    ensures |r| == |ps|
    ensures forall i :: 0 <= i < |ps| ==> r[i] == Problem(ps[i].explanation, path + ps[i].path)
  {
    if ps == [] then [] else [Problem(ps[0].explanation, path + ps[0].path)] + Prefixed(path, ps[1..])
  }

  class ValidationResult {
    var problems: seq<Problem>

    constructor()
      ensures problems == []
    {
      problems := [];
    }

    /** `valid?` */
    predicate IsValid()
      reads this
    {
      problems == []
    }

    /** `add_problem(explanation, path)` */
    method AddProblem(explanation: string, path: seq<string>)
      modifies this
      ensures problems == old(problems) + [Problem(explanation, path)]
    {
      problems := problems + [Problem(explanation, path)];
    }

    /** `merge_result!(path, inner)`: each of the inner problems, in order,
        with `path` in front of its own path. */
    method MergeResult(path: seq<string>, inner: seq<Problem>)
      modifies this
      ensures problems == old(problems) + Prefixed(path, inner)
    {
      var i := 0;
      while i < |inner|
        invariant 0 <= i <= |inner|
        invariant problems == old(problems) + Prefixed(path, inner[..i])
      {
        TakeSnoc(inner, i);
        PrefixedAppend(path, inner[..i], [inner[i]]);
        AddProblem(inner[i].explanation, path + inner[i].path);
        i := i + 1;
      }
      assert inner[..i] == inner;
    }
  }

  lemma PrefixedAppend(path: seq<string>, a: seq<Problem>, b: seq<Problem>)
    ensures Prefixed(path, a + b) == Prefixed(path, a) + Prefixed(path, b)
  {
    var l, r := Prefixed(path, a + b), Prefixed(path, a) + Prefixed(path, b);
    assert |l| == |r|;
    forall i | 0 <= i < |l| ensures l[i] == r[i] {
      if i < |a| {
        assert (a + b)[i] == a[i];
      } else {
        assert (a + b)[i] == b[i - |a|];
      }
    }
  }
}
