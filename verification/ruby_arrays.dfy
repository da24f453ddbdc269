/** The parts of Ruby's Array that the core relies on: `uniq` and `&` (both
    keep the first occurrence, in the receiver's order) and `sort_by`. */
module RubyArrays {
  import opened RubyStrings

  ghost predicate Distinct<T>(xs: seq<T>) {
    forall i, j :: 0 <= i < j < |xs| ==> xs[i] != xs[j]
  }

  /** `xs.uniq` */
  function Uniq<T(==, !new)>(xs: seq<T>): (r: seq<T>)
    ensures Distinct(r)
    ensures forall x :: x in r <==> x in xs
    ensures Distinct(xs) ==> r == xs
  {
    UniqAfter(xs, [])
  }

  /** The elements of `xs` that are not in `seen` and not earlier in `xs`. */
  function UniqAfter<T(==, !new)>(xs: seq<T>, seen: seq<T>): (r: seq<T>)
    ensures Distinct(r)
    ensures forall x :: x in r <==> x in xs && x !in seen
    ensures Distinct(xs) && (forall x :: x in xs ==> x !in seen) ==> r == xs
    decreases |xs|
  {
    if xs == [] then []
    else if xs[0] in seen then UniqAfter(xs[1..], seen)
    else
      var rest := UniqAfter(xs[1..], seen + [xs[0]]);
      assert Distinct(xs) ==> xs[0] !in xs[1..];
      assert xs[0] !in rest;
      var r := [xs[0]] + rest;
      assert forall j :: 0 < j < |r| ==> r[j] == rest[j - 1];
      r
  }

  /** `xs & ys`: the elements of `xs` that occur in `ys`, without repeats,
      in the order of `xs`. */
  function Intersect<T(==, !new)>(xs: seq<T>, ys: seq<T>): (r: seq<T>)
    ensures Distinct(r)
    ensures forall x :: x in r <==> x in xs && x in ys
  {
    Uniq(Select(xs, ys))
  }

  /** The elements of `xs` that occur in `ys`, in order. */
  function Select<T(==, !new)>(xs: seq<T>, ys: seq<T>): (r: seq<T>)
    ensures forall x :: x in r <==> x in xs && x in ys
    ensures |r| <= |xs|
  {
    if xs == [] then []
    else (if xs[0] in ys then [xs[0]] else []) + Select(xs[1..], ys)
  }

  /** `xs.select { |x| p(x) }` */
  function Filter<T(!new)>(xs: seq<T>, p: T -> bool): (r: seq<T>)
    ensures forall x :: x in r <==> x in xs && p(x)
    ensures |r| <= |xs|
  {
    if xs == [] then []
    else (if p(xs[0]) then [xs[0]] else []) + Filter(xs[1..], p)
  }

  ghost predicate SortedBy<T>(xs: seq<T>, key: T -> string) {
    forall i, j :: 0 <= i < j < |xs| ==> LessEq(key(xs[i]), key(xs[j]))
  }

  /** `xs.sort_by(&key)`: sorted by key, a permutation of `xs`. Ruby's
      `sort_by` is not stable; the model fixes one order for equal keys. */
  function SortBy<T>(xs: seq<T>, key: T -> string): (r: seq<T>)
    ensures SortedBy(r, key)
    ensures multiset(r) == multiset(xs)
  {
    if xs == [] then []
    else
      var rest := SortBy(xs[1..], key);
      assert xs == [xs[0]] + xs[1..];
      InsertBy(xs[0], rest, key)
  }

  function InsertBy<T>(x: T, xs: seq<T>, key: T -> string): (r: seq<T>)
    requires SortedBy(xs, key)
    ensures SortedBy(r, key)
    ensures multiset(r) == multiset{x} + multiset(xs)
  {
    if xs == [] then [x]
    else if LessEq(key(x), key(xs[0])) then
      InsertFront(x, xs, key);
      [x] + xs
    else
      var rest := InsertBy(x, xs[1..], key);
      InsertAfterHead(x, xs, key, rest);
      [xs[0]] + rest
  }

  /** An element no greater than the head of a sorted sequence can go in
      front of it. */
  lemma InsertFront<T>(x: T, xs: seq<T>, key: T -> string)
    requires SortedBy(xs, key) && xs != [] && LessEq(key(x), key(xs[0]))
    ensures SortedBy([x] + xs, key)
  {
    forall j | 0 <= j < |xs| ensures LessEq(key(x), key(xs[j])) {
      if j > 0 { LessEqTrans(key(x), key(xs[0]), key(xs[j])); }
    }
    forall i, j | 0 <= i < j < |[x] + xs| ensures LessEq(key(([x] + xs)[i]), key(([x] + xs)[j])) {
      if i > 0 {
        assert ([x] + xs)[i] == xs[i - 1] && ([x] + xs)[j] == xs[j - 1];
      }
    }
  }

  /** An element greater than the head of a sorted sequence, inserted into
      its tail, leaves the head in front. */
  lemma InsertAfterHead<T>(x: T, xs: seq<T>, key: T -> string, rest: seq<T>)
    requires SortedBy(xs, key) && xs != [] && !LessEq(key(x), key(xs[0]))
    requires SortedBy(rest, key) && multiset(rest) == multiset{x} + multiset(xs[1..])
    ensures SortedBy([xs[0]] + rest, key)
    ensures multiset([xs[0]] + rest) == multiset{x} + multiset(xs)
  {
    LessEqTotal(key(x), key(xs[0]));
    assert xs == [xs[0]] + xs[1..];
    forall j | 0 <= j < |rest| ensures LessEq(key(xs[0]), key(rest[j])) {
      assert rest[j] in multiset(rest);
      if rest[j] != x {
        assert rest[j] in multiset(xs[1..]);
        var k :| 0 <= k < |xs[1..]| && xs[1..][k] == rest[j];
        assert xs[k + 1] == rest[j];
      }
    }
    var r := [xs[0]] + rest;
    forall i, j | 0 <= i < j < |r| ensures LessEq(key(r[i]), key(r[j])) {
      if i > 0 {
        assert r[i] == rest[i - 1] && r[j] == rest[j - 1];
      } else {
        assert r[j] == rest[j - 1];
      }
    }
  }

  /** `ks.map { |k| g(k) }` */
  function Apply<K, E>(ks: seq<K>, g: K -> E): (r: seq<E>)
    ensures |r| == |ks|
    ensures forall i :: 0 <= i < |ks| ==> r[i] == g(ks[i])
  {
    seq(|ks|, i requires 0 <= i < |ks| => g(ks[i]))
  }

  /** `xs.flat_map { |x| f(x) }` */
  function FlatMap<T, E>(xs: seq<T>, f: T -> seq<E>): seq<E>
  {
    if xs == [] then [] else FlatMap(xs[..|xs| - 1], f) + f(xs[|xs| - 1])
  }

  lemma {:induction false} FlatMapAppend<T, E>(a: seq<T>, b: seq<T>, f: T -> seq<E>)
    ensures FlatMap(a + b, f) == FlatMap(a, f) + FlatMap(b, f)
    decreases |b|
  {
    if b == [] {
      assert a + b == a;
    } else {
      var init := b[..|b| - 1];
      assert (a + b)[..|a + b| - 1] == a + init;
      assert (a + b)[|a + b| - 1] == b[|b| - 1];
      FlatMapAppend(a, init, f);
    }
  }

  lemma FlatMapSnoc<T, E>(xs: seq<T>, i: nat, f: T -> seq<E>)
    requires i < |xs|
    ensures FlatMap(xs[..i + 1], f) == FlatMap(xs[..i], f) + f(xs[i])
  {
    assert xs[..i + 1][..i] == xs[..i];
  }

  /** `xs.uniq { |x| key(x) }` (and `uniq!`, which does the same in place):
      the first element of every key, in order. */
  function UniqBy<T, K(==)>(xs: seq<T>, key: T -> K): (r: seq<T>)
    ensures forall i, j :: 0 <= i < j < |r| ==> key(r[i]) != key(r[j])
    ensures forall x :: x in r ==> x in xs
    ensures forall i :: 0 <= i < |xs| ==> exists j :: 0 <= j < |r| && key(r[j]) == key(xs[i])
  {
    UniqByAfter(xs, key, {})
  }

  /** The first element of every key that is not in `seen`, in order. */
  function UniqByAfter<T, K(==)>(xs: seq<T>, key: T -> K, seen: set<K>): (r: seq<T>)
    ensures forall i, j :: 0 <= i < j < |r| ==> key(r[i]) != key(r[j])
    ensures forall x :: x in r ==> x in xs && key(x) !in seen
    ensures forall i :: 0 <= i < |xs| ==> key(xs[i]) in seen || exists j :: 0 <= j < |r| && key(r[j]) == key(xs[i])
    decreases |xs|
  {
    if xs == [] then []
    else if key(xs[0]) in seen then
      var rest := UniqByAfter(xs[1..], key, seen);
      UniqBySkip(xs, key, seen, rest);
      rest
    else
      var rest := UniqByAfter(xs[1..], key, seen + {key(xs[0])});
      UniqByKeep(xs, key, seen, rest);
      [xs[0]] + rest
  }

  /** A head whose key was seen adds nothing. */
  lemma UniqBySkip<T, K>(xs: seq<T>, key: T -> K, seen: set<K>, rest: seq<T>)
    requires xs != [] && key(xs[0]) in seen
    requires forall x :: x in rest ==> x in xs[1..] && key(x) !in seen
    requires forall i :: 0 <= i < |xs[1..]| ==> key(xs[1..][i]) in seen || exists j :: 0 <= j < |rest| && key(rest[j]) == key(xs[1..][i])
    ensures forall x :: x in rest ==> x in xs && key(x) !in seen
    ensures forall i :: 0 <= i < |xs| ==> key(xs[i]) in seen || exists j :: 0 <= j < |rest| && key(rest[j]) == key(xs[i])
  {
    forall i | 0 < i < |xs|
      ensures key(xs[i]) in seen || exists j :: 0 <= j < |rest| && key(rest[j]) == key(xs[i])
    {
      assert xs[i] == xs[1..][i - 1];
    }
  }

  /** A head with an unseen key is kept in front of what follows. */
  lemma UniqByKeep<T, K>(xs: seq<T>, key: T -> K, seen: set<K>, rest: seq<T>)
    requires xs != [] && key(xs[0]) !in seen
    requires forall i, j :: 0 <= i < j < |rest| ==> key(rest[i]) != key(rest[j])
    requires forall x :: x in rest ==> x in xs[1..] && key(x) !in seen + {key(xs[0])}
    requires forall i :: 0 <= i < |xs[1..]| ==>
      key(xs[1..][i]) in seen + {key(xs[0])} || exists j :: 0 <= j < |rest| && key(rest[j]) == key(xs[1..][i])
    ensures var r := [xs[0]] + rest;
      (forall i, j :: 0 <= i < j < |r| ==> key(r[i]) != key(r[j])) &&
      (forall x :: x in r ==> x in xs && key(x) !in seen) &&
      (forall i :: 0 <= i < |xs| ==> key(xs[i]) in seen || exists j :: 0 <= j < |r| && key(r[j]) == key(xs[i]))
  {
    UniqByKeepDistinct(xs[0], rest, key, seen);
    UniqByKeepCovers(xs, key, seen, rest);
  }

  lemma UniqByKeepDistinct<T, K>(x: T, rest: seq<T>, key: T -> K, seen: set<K>)
    requires forall i, j :: 0 <= i < j < |rest| ==> key(rest[i]) != key(rest[j])
    requires forall y :: y in rest ==> key(y) != key(x)
    ensures var r := [x] + rest; forall i, j :: 0 <= i < j < |r| ==> key(r[i]) != key(r[j])
  {
    var r := [x] + rest;
    forall i, j | 0 <= i < j < |r| ensures key(r[i]) != key(r[j]) {
      assert r[j] == rest[j - 1];
      if i > 0 {
        assert r[i] == rest[i - 1];
      } else {
        assert r[j] in rest;
      }
    }
  }

  lemma UniqByKeepCovers<T, K>(xs: seq<T>, key: T -> K, seen: set<K>, rest: seq<T>)
    requires xs != []
    requires forall i :: 0 <= i < |xs[1..]| ==>
      key(xs[1..][i]) in seen + {key(xs[0])} || exists j :: 0 <= j < |rest| && key(rest[j]) == key(xs[1..][i])
    ensures var r := [xs[0]] + rest;
      forall i :: 0 <= i < |xs| ==> key(xs[i]) in seen || exists j :: 0 <= j < |r| && key(r[j]) == key(xs[i])
  {
    var r := [xs[0]] + rest;
    forall i | 0 <= i < |xs|
      ensures key(xs[i]) in seen || exists j :: 0 <= j < |r| && key(r[j]) == key(xs[i])
    {
      if i == 0 || key(xs[i]) == key(xs[0]) {
        assert key(r[0]) == key(xs[i]);
      } else if key(xs[i]) !in seen {
        assert xs[i] == xs[1..][i - 1];
        var j :| 0 <= j < |rest| && key(rest[j]) == key(xs[i]);
        assert r[j + 1] == rest[j];
      }
    }
  }

  /** A sequence with distinct elements that has the same elements as `xs`
      has more than one of them iff `xs` holds two different values. */
  lemma DistinctMoreThanOne<T>(xs: seq<T>, r: seq<T>)
    requires Distinct(r)
    requires forall x :: x in r <==> x in xs
    ensures |r| > 1 <==> exists i, j :: 0 <= i < |xs| && 0 <= j < |xs| && xs[i] != xs[j]
  {
    if |r| > 1 {
      assert r[0] in xs && r[1] in xs;
      var i :| 0 <= i < |xs| && xs[i] == r[0];
      var j :| 0 <= j < |xs| && xs[j] == r[1];
    }
    if exists i, j :: 0 <= i < |xs| && 0 <= j < |xs| && xs[i] != xs[j] {
      var i, j :| 0 <= i < |xs| && 0 <= j < |xs| && xs[i] != xs[j];
      assert xs[i] in r && xs[j] in r;
    }
  }

  /** `UniqBy` keeps more than one element iff two elements of `xs` have
      different keys. */
  lemma UniqByMoreThanOne<T, K>(xs: seq<T>, key: T -> K)
    ensures |UniqBy(xs, key)| > 1 <==> exists i, j :: 0 <= i < |xs| && 0 <= j < |xs| && key(xs[i]) != key(xs[j])
  {
    var r := UniqBy(xs, key);
    if |r| > 1 {
      assert r[0] in xs && r[1] in xs;
      var i :| 0 <= i < |xs| && xs[i] == r[0];
      var j :| 0 <= j < |xs| && xs[j] == r[1];
      assert key(xs[i]) != key(xs[j]);
    }
    if exists i, j :: 0 <= i < |xs| && 0 <= j < |xs| && key(xs[i]) != key(xs[j]) {
      var i, j :| 0 <= i < |xs| && 0 <= j < |xs| && key(xs[i]) != key(xs[j]);
      var a :| 0 <= a < |r| && key(r[a]) == key(xs[i]);
      var b :| 0 <= b < |r| && key(r[b]) == key(xs[j]);
      assert a != b;
    }
  }

  /** One step of `UniqByAfter` from position `i`. */
  lemma UniqByAfterStep<T, K>(xs: seq<T>, i: nat, key: T -> K, seen: set<K>)
    requires i < |xs|
    ensures UniqByAfter(xs[i..], key, seen) ==
      if key(xs[i]) in seen then UniqByAfter(xs[i + 1..], key, seen)
      else [xs[i]] + UniqByAfter(xs[i + 1..], key, seen + {key(xs[i])})
  {
    assert xs[i..][0] == xs[i];
    assert xs[i..][1..] == xs[i + 1..];
  }

  /** A prefix one longer is the prefix and the next element. */
  lemma TakeSnoc<T>(s: seq<T>, i: nat)
    requires i < |s|
    ensures s[..i + 1] == s[..i] + [s[i]]
  {
  }

  /** A sequence is its prefix followed by the rest. */
  lemma TakeDrop<T>(s: seq<T>, i: nat)
    requires i <= |s|
    ensures s[..i] + s[i..] == s
  {
  }

  lemma AppendAssoc<T>(a: seq<T>, b: seq<T>, c: seq<T>)
    ensures a + (b + c) == (a + b) + c
  {
  }

  lemma FlatMapCons<T, E>(xs: seq<T>, f: T -> seq<E>)
    requires xs != []
    ensures FlatMap(xs, f) == f(xs[0]) + FlatMap(xs[1..], f)
  {
    assert xs == [xs[0]] + xs[1..];
    assert [xs[0]][..0] == [];
    FlatMapAppend([xs[0]], xs[1..], f);
  }

  /** An element comes out of `flat_map` iff the block yields it for some
      element. */
  lemma {:induction false} FlatMapIn<T, E>(xs: seq<T>, f: T -> seq<E>, e: E)
    ensures e in FlatMap(xs, f) <==> exists i :: 0 <= i < |xs| && e in f(xs[i])
    decreases |xs|
  {
    if xs != [] {
      var init := xs[..|xs| - 1];
      FlatMapIn(init, f, e);
      if exists i :: 0 <= i < |xs| && e in f(xs[i]) {
        var i :| 0 <= i < |xs| && e in f(xs[i]);
        if i < |init| {
          assert init[i] == xs[i];
        }
      }
      if exists i :: 0 <= i < |init| && e in f(init[i]) {
        var i :| 0 <= i < |init| && e in f(init[i]);
        assert init[i] == xs[i];
      }
    }
  }

  /** When the block yields one element for the elements satisfying `p` and
      none for the others, `flat_map` yields one element per element
      satisfying `p`. */
  lemma {:induction false} FlatMapCount<T(!new), E>(xs: seq<T>, f: T -> seq<E>, p: T -> bool)
    requires forall i :: 0 <= i < |xs| ==> |f(xs[i])| == if p(xs[i]) then 1 else 0
    ensures |FlatMap(xs, f)| == |Filter(xs, p)|
    decreases |xs|
  {
    if xs != [] {
      FlatMapCons(xs, f);
      assert forall i :: 0 <= i < |xs[1..]| ==> xs[1..][i] == xs[i + 1];
      FlatMapCount(xs[1..], f, p);
    }
  }
}
