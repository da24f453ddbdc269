/** Ruby's Hash, as the core uses it: an insertion-ordered table with distinct
    keys. Assigning an existing key replaces its value in place (the key keeps
    its position); assigning a new key appends it. `merge` assigns the entries
    of the argument one by one, so the argument's values win and its new keys
    follow the receiver's keys in the argument's order. */
module Hashes {
  import opened Wrappers

  /** `keys` is the iteration order, `m` the lookup table. */
  datatype Hash<K(!new), V> = Hash(keys: seq<K>, m: map<K, V>)
  {
    ghost predicate Valid() {
      (forall i, j :: 0 <= i < j < |keys| ==> keys[i] != keys[j]) &&
      (forall k :: k in m <==> k in keys)
    }

    /** `h[k]`, with `None` for a missing key (Ruby's `nil`). */
    function Get(k: K): (r: Option<V>)
      ensures r.Some? <==> k in m
      ensures r.Some? ==> r.value == m[k]
    {
      if k in m then Some(m[k]) else None
    }

    /** `h[k] = v` */
    function Put(k: K, v: V): (r: Hash<K, V>)
      requires Valid()
      ensures r.Valid()
      ensures r.Get(k) == Some(v)
      ensures forall k' :: k' != k ==> r.Get(k') == Get(k')
      ensures k in m ==> r.keys == keys
      ensures k !in m ==> r.keys == keys + [k]
    {
      Hash(if k in m then keys else keys + [k], m[k := v])
    }

    /** The values in iteration order (`h.values`). */
    function Values(): (vs: seq<V>)
      requires Valid()
      ensures |vs| == |keys|
      ensures forall i :: 0 <= i < |keys| ==> vs[i] == m[keys[i]]
    {
      seq(|keys|, i requires 0 <= i < |keys| && Valid() => m[keys[i]])
    }

    /** `h.merge(other)` */
    function Merge(other: Hash<K, V>): (r: Hash<K, V>)
      requires Valid() && other.Valid()
      ensures r.Valid()
      ensures forall k :: r.Get(k) == if k in other.m then other.Get(k) else Get(k)
      ensures |keys| <= |r.keys| && r.keys[..|keys|] == keys
      ensures forall k :: k in r.keys <==> k in keys || k in other.keys
      ensures r.m == m + other.m
    {
      var added := NewKeys(other.keys, m);
      var ks := keys + added;
      assert forall i, j :: 0 <= i < j < |ks| ==> ks[i] != ks[j] by {
        forall i, j | 0 <= i < j < |ks| ensures ks[i] != ks[j] {
          if j >= |keys| && i < |keys| {
            assert ks[j] == added[j - |keys|];
            assert ks[j] !in m;
          }
        }
      }
      Hash(ks, m + other.m)
    }
  }

  function Empty<K(!new), V>(): (r: Hash<K, V>)
    ensures r.Valid() && r.keys == []
  {
    Hash([], map[])
  }

  /** The keys of `ks` that `m` lacks, in order. */
  function NewKeys<K(!new), V>(ks: seq<K>, m: map<K, V>): (r: seq<K>)
    requires forall i, j :: 0 <= i < j < |ks| ==> ks[i] != ks[j]
    ensures forall k :: k in r <==> k in ks && k !in m
    ensures forall i, j :: 0 <= i < j < |r| ==> r[i] != r[j]
  {
    if ks == [] then []
    else (if ks[0] in m then [] else [ks[0]]) + NewKeys(ks[1..], m)
  }

  /** `h[k] << x` on a `Hash.new { |h, k| h[k] = [] }`: group `x` under `k`. */
  function Push<K(!new), V>(h: Hash<K, seq<V>>, k: K, x: V): (r: Hash<K, seq<V>>)
    requires h.Valid()
    ensures r.Valid()
    ensures r.Get(k) == Some(h.Get(k).GetOr([]) + [x])
    ensures forall k' :: k' != k ==> r.Get(k') == h.Get(k')
    ensures k in h.m ==> r.keys == h.keys
    ensures k !in h.m ==> r.keys == h.keys + [k]
  {
    h.Put(k, h.Get(k).GetOr([]) + [x])
  }
}
