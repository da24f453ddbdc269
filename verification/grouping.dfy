/** Grouping into a `Hash.new { |h, k| h[k] = [] }`, which several
    validation rules fill with `h[key] << node` while the document is visited
    and then walk with `each` when the document is left. */
module Grouping {
  import opened Wrappers
  import opened Hashes
  import opened RubyArrays

  /** The keys of the items, in order. */
  function KeysOf<K, V>(items: seq<(K, V)>): (r: seq<K>)
    ensures |r| == |items|
    ensures forall i :: 0 <= i < |items| ==> r[i] == items[i].0
  {
    seq(|items|, i requires 0 <= i < |items| => items[i].0)
  }

  /** The values of the items whose key is `k`, in order. */
  function Members<K(==), V>(items: seq<(K, V)>, k: K): (r: seq<V>)
    ensures |r| <= |items|
    ensures (forall i :: 0 <= i < |items| ==> items[i].0 != k) ==> r == []
  {
    if items == [] then []
    else
      var last := items[|items| - 1];
      Members(items[..|items| - 1], k) + (if last.0 == k then [last.1] else [])
  }

  /** Pushing every item, in order, onto the array of its key. */
  function GroupBy<K(!new), V>(items: seq<(K, V)>): (r: Hash<K, seq<V>>)
    ensures r.Valid()
    ensures |r.keys| <= |items|
  {
    if items == [] then Empty()
    else
      var last := items[|items| - 1];
      Push(GroupBy(items[..|items| - 1]), last.0, last.1)
  }

  /** The keys of the grouping are the distinct keys of the items, in order
      of first appearance, and each key holds exactly the values filed under
      it, in order. */
  lemma {:induction false} GroupByContents<K(!new), V>(items: seq<(K, V)>)
    ensures GroupBy(items).keys == Uniq(KeysOf(items))
    ensures forall k :: GroupBy(items).Get(k) == if k in KeysOf(items) then Some(Members(items, k)) else None
  {
    GroupByKeys(items);
    forall k ensures GroupBy(items).Get(k) == if k in KeysOf(items) then Some(Members(items, k)) else None {
      GroupByGet(items, k);
    }
  }

  lemma {:induction false} GroupByKeys<K(!new), V>(items: seq<(K, V)>)
    ensures GroupBy(items).keys == Uniq(KeysOf(items))
  {
    if items != [] {
      var init := items[..|items| - 1];
      var last := items[|items| - 1];
      GroupByKeys(init);
      KeysOfSnoc(items);
      UniqAfterSnoc(KeysOf(init), [], last.0);
      GroupBySnocKeys(init, last, GroupBy(init).keys);
    }
  }

  lemma KeysOfSnoc<K, V>(items: seq<(K, V)>)
    requires items != []
    ensures KeysOf(items) == KeysOf(items[..|items| - 1]) + [items[|items| - 1].0]
  {
  }

  lemma GroupBySnocKeys<K(!new), V>(init: seq<(K, V)>, last: (K, V), ks: seq<K>)
    requires ks == GroupBy(init).keys
    ensures GroupBy(init + [last]).keys == if last.0 in ks then ks else ks + [last.0]
  {
    assert (init + [last])[..|init|] == init;
  }

  lemma {:induction false} GroupByGet<K(!new), V>(items: seq<(K, V)>, k: K)
    ensures GroupBy(items).Get(k) == if k in KeysOf(items) then Some(Members(items, k)) else None
  {
    if items != [] {
      var init := items[..|items| - 1];
      var last := items[|items| - 1];
      GroupByGet(init, k);
      KeysOfSnoc(items);
      assert items == init + [last];
      GroupBySnocGet(init, last, k);
      MembersSnoc(init, last, k);
      if k !in KeysOf(init) {
        assert forall i :: 0 <= i < |init| ==> init[i].0 == KeysOf(init)[i];
        assert Members(init, k) == [];
        assert GroupBy(init).Get(k) == None;
        assert [] + [last.1] == [last.1];
      } else {
        assert GroupBy(init).Get(k) == Some(Members(init, k));
        assert Members(init, k) + [] == Members(init, k);
      }
    }
  }

  lemma MembersSnoc<K, V>(init: seq<(K, V)>, last: (K, V), k: K)
    ensures Members(init + [last], k) == Members(init, k) + (if last.0 == k then [last.1] else [])
  {
    assert (init + [last])[..|init|] == init;
  }

  lemma GroupBySnocGet<K(!new), V>(init: seq<(K, V)>, last: (K, V), k: K)
    ensures GroupBy(init + [last]).Get(k) ==
      if last.0 == k then Some(GroupBy(init).Get(k).GetOr([]) + [last.1]) else GroupBy(init).Get(k)
  {
    assert (init + [last])[..|init|] == init;
  }

  /** Uniq of a sequence extended by one element. */
  lemma {:induction false} UniqAfterSnoc<T(!new)>(xs: seq<T>, seen: seq<T>, x: T)
    ensures UniqAfter(xs + [x], seen) == UniqAfter(xs, seen) + (if x in xs || x in seen then [] else [x])
    decreases |xs|
  {
    if xs == [] {
      assert [] + [x] == [x];
      assert [x][1..] == [];
    } else {
      assert (xs + [x])[0] == xs[0];
      assert (xs + [x])[1..] == xs[1..] + [x];
      if xs[0] in seen {
        UniqAfterSnoc(xs[1..], seen, x);
      } else {
        UniqAfterSnoc(xs[1..], seen + [xs[0]], x);
      }
    }
  }

  /** The total size of the arrays under `ks`: `values.inject(0) { |m, v| m + v.size }`
      when `ks` are the hash's keys. */
  function Tally<K(!new), V>(h: Hash<K, seq<V>>, ks: seq<K>): nat
  {
    if ks == [] then 0 else |h.Get(ks[0]).GetOr([])| + Tally(h, ks[1..])
  }

  lemma {:induction false} TallyAppend<K(!new), V>(h: Hash<K, seq<V>>, a: seq<K>, b: seq<K>)
    ensures Tally(h, a + b) == Tally(h, a) + Tally(h, b)
    decreases |a|
  {
    if a == [] {
      assert a + b == b;
    } else {
      assert (a + b)[1..] == a[1..] + b;
      TallyAppend(h, a[1..], b);
    }
  }

  lemma {:induction false} TallyPush<K(!new), V>(h: Hash<K, seq<V>>, ks: seq<K>, k: K, x: V)
    requires h.Valid() && Distinct(ks)
    ensures Tally(Push(h, k, x), ks) == Tally(h, ks) + (if k in ks then 1 else 0)
    decreases |ks|
  {
    if ks != [] {
      assert forall i, j :: 0 <= i < j < |ks[1..]| ==> ks[1..][i] == ks[i + 1] && ks[1..][j] == ks[j + 1];
      TallyPush(h, ks[1..], k, x);
      assert ks[0] == k ==> k !in ks[1..];
    }
  }

  /** Grouping loses and invents no item: the arrays hold all of them. */
  lemma {:induction false} GroupByTally<K(!new), V>(items: seq<(K, V)>)
    ensures Tally(GroupBy(items), GroupBy(items).keys) == |items|
  {
    if items != [] {
      var init := items[..|items| - 1];
      var last := items[|items| - 1];
      var h := GroupBy(init);
      GroupByTally(init);
      if last.0 in h.m {
        TallyPush(h, h.keys, last.0, last.1);
      } else {
        var r := Push(h, last.0, last.1);
        TallyAppend(r, h.keys, [last.0]);
        TallyPush(h, h.keys, last.0, last.1);
        assert [last.0][1..] == [];
      }
    }
  }

  /** `h.each { |k, vs| ... }` restricted to `ks`: what the block yields for
      each entry, in order. */
  function EachEntry<K(!new), V, E>(h: Hash<K, seq<V>>, ks: seq<K>, f: (K, seq<V>) -> seq<E>): (r: seq<E>)
    requires forall k :: k in ks ==> k in h.m
  {
    if ks == [] then [] else f(ks[0], h.m[ks[0]]) + EachEntry(h, ks[1..], f)
  }

  lemma {:induction false} EachEntryAppend<K(!new), V, E>(h: Hash<K, seq<V>>, a: seq<K>, b: seq<K>, f: (K, seq<V>) -> seq<E>)
    requires forall k :: k in a + b ==> k in h.m
    ensures EachEntry(h, a + b, f) == EachEntry(h, a, f) + EachEntry(h, b, f)
    decreases |a|
  {
    if a == [] {
      assert a + b == b;
    } else {
      assert (a + b)[0] == a[0];
      assert (a + b)[1..] == a[1..] + b;
      EachEntryAppend(h, a[1..], b, f);
    }
  }

  /** Walking one more key of `ks` appends what the block yields for it. */
  lemma EachEntrySnoc<K(!new), V, E>(h: Hash<K, seq<V>>, ks: seq<K>, i: nat, f: (K, seq<V>) -> seq<E>)
    requires forall k :: k in ks ==> k in h.m
    requires i < |ks|
    ensures EachEntry(h, ks[..i + 1], f) == EachEntry(h, ks[..i], f) + f(ks[i], h.m[ks[i]])
  {
    EachEntryAppend(h, ks[..i], [ks[i]], f);
    assert ks[..i + 1] == ks[..i] + [ks[i]];
    assert f(ks[i], h.m[ks[i]]) + [] == f(ks[i], h.m[ks[i]]);
  }

  /** An element comes out of the walk iff the block yields it for some
      entry. */
  lemma {:induction false} EachEntryIn<K(!new), V, E>(h: Hash<K, seq<V>>, ks: seq<K>, f: (K, seq<V>) -> seq<E>, e: E)
    requires forall k :: k in ks ==> k in h.m
    ensures e in EachEntry(h, ks, f) <==> exists k :: k in ks && e in f(k, h.m[k])
    decreases |ks|
  {
    if ks != [] {
      EachEntryIn(h, ks[1..], f, e);
      assert forall k :: k in ks <==> k == ks[0] || k in ks[1..];
    }
  }

  /** The walk yields at most `bound` elements per entry. */
  lemma {:induction false} EachEntryLength<K(!new), V, E>(h: Hash<K, seq<V>>, ks: seq<K>, f: (K, seq<V>) -> seq<E>, bound: nat)
    requires forall k :: k in ks ==> k in h.m
    requires forall k :: k in ks ==> |f(k, h.m[k])| <= bound
    ensures |EachEntry(h, ks, f)| <= bound * |ks|
    decreases |ks|
  {
    if ks != [] {
      EachEntryLength(h, ks[1..], f, bound);
    }
  }
}
