/** `Schema::Union`: a union class declares its member types with
    `possible_types(*types)` and reads them back with `possible_types`. The
    member types are given by their class names. */
module Unions {
  import opened Wrappers
  import opened RubyArrays

  /** `GraphQL8::UnionType`, what `to_graphql` builds. */
  datatype UnionTypeDefn = UnionTypeDefn(name: string, description: Option<string>, possibleTypes: seq<string>)

  class UnionType {
    const graphqlName: string
    const description: Option<string>
    /** `@possible_types`; `None` until the setter runs. */
    var declared: Option<seq<string>>

    constructor(graphqlName: string, description: Option<string>)
      ensures this.graphqlName == graphqlName && this.description == description
      ensures declared.None?
    {
      this.graphqlName := graphqlName;
      this.description := description;
      declared := None;
    }

    /** The reader's answer: the declared list (or `[]`) followed by
        `inherited`, without repeats. `inherited` is what `super` answers
        when an ancestor defines `possible_types`, `None` when none does. */
    function AllPossibleTypes(inherited: Option<seq<string>>): (r: seq<string>)
      reads this
      ensures Distinct(r)
      ensures forall t :: t in r <==> t in declared.GetOr([]) || t in inherited.GetOr([])
    {
      Uniq(declared.GetOr([]) + inherited.GetOr([]))
    }

    /** `possible_types(*types)`: with types, replaces the declared list
        (and answers it); without, answers the full list and changes
        nothing. */
    method PossibleTypes(types: seq<string>, inherited: Option<seq<string>>) returns (r: seq<string>)
      modifies this
      ensures |types| > 0 ==> declared == Some(types) && r == types
      ensures |types| == 0 ==> declared == old(declared) && r == AllPossibleTypes(inherited)
    {
      if |types| > 0 {
        declared := Some(types);
        r := types;
      } else {
        r := ReadPossibleTypes(inherited);
      }
    }

    /** The reader branch of `possible_types`. */
    method ReadPossibleTypes(inherited: Option<seq<string>>) returns (r: seq<string>)
      ensures r == AllPossibleTypes(inherited)
    {
      var all := declared.GetOr([]);
      if inherited.Some? {
        all := all + inherited.value;
      } else {
        assert all + [] == all;
      }
      r := Uniq(all);
    }

    /** `to_graphql`: the runtime union has this union's name and exactly
        its possible types. */
    method ToGraphql(inherited: Option<seq<string>>) returns (t: UnionTypeDefn)
      ensures t.name == graphqlName && t.description == description
      ensures t.possibleTypes == AllPossibleTypes(inherited)
    {
      var types := ReadPossibleTypes(inherited);
      t := UnionTypeDefn(graphqlName, description, types);
    }

    /** Declared types come first, in declared order, when the declaration
        has no repeats; the reader never repeats a type. */
    lemma DeclaredFirst(inherited: Option<seq<string>>)
      requires declared.Some? && Distinct(declared.value)
      ensures |declared.value| <= |AllPossibleTypes(inherited)|
      ensures AllPossibleTypes(inherited)[..|declared.value|] == declared.value
    {
      UniqPrefix(declared.value, inherited.GetOr([]));
    }
  }

  /** `(xs + ys).uniq` starts with `xs` when `xs` has no repeats. */
  lemma {:induction false} UniqPrefix<T(!new)>(xs: seq<T>, ys: seq<T>)
    requires Distinct(xs)
    ensures |xs| <= |Uniq(xs + ys)| && Uniq(xs + ys)[..|xs|] == xs
  {
    UniqAfterPrefix(xs, ys, []);
  }

  lemma {:induction false} UniqAfterPrefix<T(!new)>(xs: seq<T>, ys: seq<T>, seen: seq<T>)
    requires Distinct(xs) && forall x :: x in xs ==> x !in seen
    ensures |xs| <= |UniqAfter(xs + ys, seen)| && UniqAfter(xs + ys, seen)[..|xs|] == xs
    decreases |xs|
  {
    if xs != [] {
      assert (xs + ys)[0] == xs[0];
      assert (xs + ys)[1..] == xs[1..] + ys;
      assert forall x :: x in xs[1..] ==> x !in seen + [xs[0]];
      UniqAfterPrefix(xs[1..], ys, seen + [xs[0]]);
    }
  }
}
