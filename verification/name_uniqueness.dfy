/** The shape shared by `FragmentNamesAreUnique` and `VariableNamesAreUnique`:
    definitions are grouped by name in a `Hash.new { |h, k| h[k] = [] }`, and
    every name with more than one definition gets one error that lists all
    of them. */
module NameUniqueness {
  import opened Wrappers
  import opened Hashes
  import opened RubyArrays
  import opened Grouping
  import opened ValidationContexts

  /** What the walk over the groups adds for one name. */
  function DuplicateError<K>(name: K, nodes: seq<NodeId>, message: K -> string, path: seq<string>): seq<Message>
  {
    if |nodes| > 1 then [Message(message(name), nodes, path)] else []
  }

  /** The errors for definitions filed under their names (`items` holds the
      pairs in document order). */
  function DuplicateErrors<K(==, !new)>(items: seq<(K, NodeId)>, message: K -> string, path: seq<string>): seq<Message>
  {
    var groups := GroupBy(items);
    EachEntry(groups, groups.keys, (name, nodes) => DuplicateError(name, nodes, message, path))
  }

  /** The names that have more than one definition, in order of first
      appearance. */
  function Duplicated<K(==, !new)>(items: seq<(K, NodeId)>): seq<K>
  {
    Filter(Uniq(KeysOf(items)), k => |Members(items, k)| > 1)
  }

  /** Exactly one error per duplicated name, in order of first appearance,
      listing every definition of that name in document order. */
  lemma {:induction false} DuplicateErrorsExact<K(!new)>(items: seq<(K, NodeId)>, message: K -> string, path: seq<string>)
    ensures DuplicateErrors(items, message, path) ==
      Apply(Duplicated(items), k => Message(message(k), Members(items, k), path))
  {
    var groups := GroupBy(items);
    GroupByContents(items);
    var g := k => Message(message(k), Members(items, k), path);
    var p := k => |Members(items, k)| > 1;
    forall k | k in groups.keys
      ensures DuplicateError(k, groups.m[k], message, path) == if p(k) then [g(k)] else []
    {
      assert groups.Get(k) == Some(Members(items, k));
    }
    EachEntryFilter(groups, groups.keys, (name, nodes) => DuplicateError(name, nodes, message, path), p, g);
  }

  lemma {:induction false} EachEntryFilter<K(!new), V, E>(h: Hash<K, seq<V>>, ks: seq<K>, f: (K, seq<V>) -> seq<E>, p: K -> bool, g: K -> E)
    requires forall k :: k in ks ==> k in h.m
    requires forall k :: k in ks ==> f(k, h.m[k]) == if p(k) then [g(k)] else []
    ensures EachEntry(h, ks, f) == Apply(Filter(ks, p), g)
    decreases |ks|
  {
    if ks != [] {
      assert forall x :: x in ks[1..] ==> x in ks;
      EachEntryFilter(h, ks[1..], f, p, g);
      EachEntryFilterStep(h, ks, f, p, g);
    }
  }

  lemma EachEntryFilterStep<K(!new), V, E>(h: Hash<K, seq<V>>, ks: seq<K>, f: (K, seq<V>) -> seq<E>, p: K -> bool, g: K -> E)
    requires ks != [] && forall k :: k in ks ==> k in h.m
    requires forall k :: k in ks ==> f(k, h.m[k]) == if p(k) then [g(k)] else []
    requires EachEntry(h, ks[1..], f) == Apply(Filter(ks[1..], p), g)
    ensures EachEntry(h, ks, f) == Apply(Filter(ks, p), g)
  {
    var k, tail := ks[0], ks[1..];
    var head := if p(k) then [k] else [];
    var rest := Filter(tail, p);
    assert EachEntry(h, ks, f) == f(k, h.m[k]) + EachEntry(h, tail, f);
    assert Filter(ks, p) == head + rest;
    assert f(k, h.m[k]) == Apply(head, g) by {
      assert k in ks;
    }
    ApplyAppend(head, rest, g);
  }

  lemma ApplyAppend<K, E>(a: seq<K>, b: seq<K>, g: K -> E)
    ensures Apply(a + b, g) == Apply(a, g) + Apply(b, g)
  {
    assert forall i :: 0 <= i < |a + b| ==> Apply(a + b, g)[i] == (Apply(a, g) + Apply(b, g))[i];
  }

  /** With no name defined twice there is nothing to report. */
  lemma UniqueNamesNoErrors<K(!new)>(items: seq<(K, NodeId)>, message: K -> string, path: seq<string>)
    requires Distinct(KeysOf(items))
    ensures DuplicateErrors(items, message, path) == []
  {
    DuplicateErrorsExact(items, message, path);
    if Duplicated(items) != [] {
      var k := Duplicated(items)[0];
      assert k in Duplicated(items);
      MembersOfDistinct(items, k);
      assert false;
    }
  }

  lemma {:induction false} MembersOfDistinct<K, V>(items: seq<(K, V)>, k: K)
    requires Distinct(KeysOf(items))
    ensures |Members(items, k)| <= 1
  {
    if items != [] {
      var init := items[..|items| - 1];
      var last := items[|items| - 1];
      assert forall i :: 0 <= i < |init| ==> KeysOf(init)[i] == KeysOf(items)[i];
      MembersOfDistinct(init, k);
      if last.0 == k {
        assert forall i :: 0 <= i < |init| ==> init[i].0 != k by {
          forall i | 0 <= i < |init| ensures init[i].0 != k {
            assert KeysOf(items)[i] != KeysOf(items)[|items| - 1];
          }
        }
      }
    }
  }

  /** The block of `each` for the nodes that share `name`. */
  method ReportDuplicate<K>(ctx: ValidationContext, name: K, nodes: seq<NodeId>, message: K -> string, path: seq<string>)
    modifies ctx
    ensures ctx.errors == old(ctx.errors) + DuplicateError(name, nodes, message, path)
  {
    if |nodes| > 1 {
      ctx.AddError(Message(message(name), nodes, path));
    }
  }

  /** The walk over the groups when the document is left: one error for each
      name with more than one definition. */
  method ReportDuplicates<K(==, !new)>(ctx: ValidationContext, groups: Hash<K, seq<NodeId>>, message: K -> string, path: seq<string>)
    requires groups.Valid()
    modifies ctx
    ensures ctx.errors == old(ctx.errors) +
      EachEntry(groups, groups.keys, (name, nodes) => DuplicateError(name, nodes, message, path))
  {
    var keys := groups.keys;
    ghost var f := (name, nodes) => DuplicateError(name, nodes, message, path);
    ghost var start := ctx.errors;
    var i := 0;
    while i < |keys|
      invariant 0 <= i <= |keys|
      invariant ctx.errors == start + EachEntry(groups, keys[..i], f)
    {
      var name := keys[i];
      ghost var done := EachEntry(groups, keys[..i], f);
      EachEntrySnoc(groups, keys, i, f);
      ReportDuplicate(ctx, name, groups.m[name], message, path);
      AppendAssoc(start, done, f(name, groups.m[name]));
      i := i + 1;
    }
    assert keys[..i] == keys;
  }
}
