/**
 * The collections that the buffering operators fill while they drain an
 * upstream fetch.  Every such loop has the shape
 *
 *   while (true) { holder = fetch.next(); if (!holder.exists()) break; <step> }
 *
 * so its effect is a left fold of `<step>` over the values the upstream
 * yields.  Each step below is one of those loop bodies (`LinkedHashSet.add`,
 * `LinkedHashMap.putIfAbsent`, "get the list, create it if missing, add"),
 * and each lemma says what the fold of that step computes, in terms of the
 * reference definitions of `SetOps`.
 */
module Buffers {
  import opened Sequences
  import opened SetOps

  /** The state after running `step` over `xs` in order, starting from `init`. */
  function FoldLeft<S, T>(step: (S, T) -> S, init: S, xs: seq<T>): S
  {
    if xs == [] then init else step(FoldLeft(step, init, xs[..|xs| - 1]), xs[|xs| - 1])
  }

  /** One more value is one more step. */
  lemma FoldLeftSnoc<S, T>(step: (S, T) -> S, init: S, xs: seq<T>, x: T)
    ensures FoldLeft(step, init, xs + [x]) == step(FoldLeft(step, init, xs), x)
  {
    assert (xs + [x])[..|xs|] == xs;
  }

  /** The fold over one more value of a prefix of `xs`. */
  lemma FoldLeftPrefix<S, T>(step: (S, T) -> S, init: S, xs: seq<T>, k: nat)
    requires k < |xs|
    ensures FoldLeft(step, init, xs[..k + 1]) == step(FoldLeft(step, init, xs[..k]), xs[k])
  {
    assert xs[..k + 1][..k] == xs[..k];
  }

  /** The fold over one more value of a slice of `xs`. */
  lemma FoldLeftSlice<S, T>(step: (S, T) -> S, init: S, xs: seq<T>, i: nat, j: nat)
    requires i <= j < |xs|
    ensures FoldLeft(step, init, xs[i..j + 1]) == step(FoldLeft(step, init, xs[i..j]), xs[j])
  {
    assert xs[i..j + 1][..j - i] == xs[i..j];
  }

  /** Draining one upstream and then another folds over their concatenation. */
  lemma {:induction false} FoldLeftAppend<S, T>(step: (S, T) -> S, init: S, xs: seq<T>, ys: seq<T>)
    ensures FoldLeft(step, FoldLeft(step, init, xs), ys) == FoldLeft(step, init, xs + ys)
    decreases |ys|
  {
    if ys == [] {
      assert xs + ys == xs;
    } else {
      var front, last := ys[..|ys| - 1], ys[|ys| - 1];
      FoldLeftAppend(step, init, xs, front);
      assert ys == front + [last];
      assert xs + ys == (xs + front) + [last];
      FoldLeftSnoc(step, init, xs + front, last);
      FoldLeftSnoc(step, FoldLeft(step, init, xs), front, last);
    }
  }

  // ---------------------------------------------------------------------
  // ArrayList.add

  /** `list.add(v)`. */
  function Push<T>(list: seq<T>, v: T): seq<T>
  {
    list + [v]
  }

  /** Adding every value to an empty list gives them back in order. */
  lemma {:induction false} PushAll<T>(xs: seq<T>)
    ensures FoldLeft(Push, [], xs) == xs
    decreases |xs|
  {
    if xs != [] {
      var init, last := xs[..|xs| - 1], xs[|xs| - 1];
      PushAll(init);
      assert FoldLeft(Push, [], xs) == Push(FoldLeft(Push, [], init), last);
      assert xs == init + [last];
    }
  }

  // ---------------------------------------------------------------------
  // LinkedHashSet.add

  /** `linkedHashSet.add(v)`: a value not present yet goes to the end of the iteration order. */
  function AddToLinkedSet<T(==)>(s: seq<T>, v: T): (r: seq<T>)
    ensures v in r && s <= r && |r| <= |s| + 1
  {
    if v in s then s else s + [v]
  }

  /** A `LinkedHashSet` filled in input order iterates as `distinct`. */
  lemma {:induction false} LinkedSetIsDistinct<T>(xs: seq<T>)
    ensures FoldLeft(AddToLinkedSet, [], xs) == Distinct(xs)
    decreases |xs|
  {
    if xs != [] {
      var front, last := xs[..|xs| - 1], xs[|xs| - 1];
      LinkedSetIsDistinct(front);
      DistinctMembership(front, last);
    }
  }

  /** Filling one `LinkedHashSet` from the left input and then the right one gives `union`. */
  lemma LinkedSetIsUnion<T>(xs: seq<T>, ys: seq<T>)
    ensures FoldLeft(AddToLinkedSet, FoldLeft(AddToLinkedSet, [], xs), ys) == Union(xs, ys)
  {
    FoldLeftAppend(AddToLinkedSet, [], xs, ys);
    LinkedSetIsDistinct(xs + ys);
  }

  // ---------------------------------------------------------------------
  // HashSet.add and HashMap.put

  /** `hashSet.add(v)`. */
  function AddToHashSet<T>(s: set<T>, v: T): (r: set<T>)
    ensures v in r && s <= r
  {
    s + {v}
  }

  /** A `HashSet` filled from `xs` contains exactly the values of `xs`. */
  lemma {:induction false} HashSetHolds<T>(xs: seq<T>)
    ensures forall y :: y in FoldLeft(AddToHashSet, {}, xs) <==> y in xs
    decreases |xs|
  {
    if xs != [] {
      HashSetHolds(xs[..|xs| - 1]);
      assert xs == xs[..|xs| - 1] + [xs[|xs| - 1]];
    }
  }

  /** `hashMap.put(key(v), v)`, as a step. */
  function PutByKey<T, K>(key: T -> K): (step: (map<K, T>, T) -> map<K, T>)
  {
    (m: map<K, T>, v: T) => m[key(v) := v]
  }

  /** A `HashMap` filled by key from `xs` has exactly the keys of `xs`. */
  lemma {:induction false} HashMapKeys<T, K>(key: T -> K, xs: seq<T>)
    ensures forall k :: k in FoldLeft(PutByKey(key), map[], xs) <==> k in Map(key, xs)
    decreases |xs|
  {
    if xs != [] {
      var front := xs[..|xs| - 1];
      HashMapKeys(key, front);
      MapSnoc(key, front, xs[|xs| - 1]);
      assert xs == front + [xs[|xs| - 1]];
    }
  }

  // ---------------------------------------------------------------------
  // LinkedHashMap.putIfAbsent

  /** `linkedHashMap.putIfAbsent(key(v), v)`, as a step. */
  function PutIfAbsentByKey<T, K(!new)>(key: T -> K): (step: (LinkedMap<K, T>, T) -> LinkedMap<K, T>)
  {
    (m: LinkedMap<K, T>, v: T) => m.PutIfAbsent(key(v), v)
  }

  /**
   * Filling a `LinkedHashMap` with `putIfAbsent` keeps, for every key, the
   * first value that has it, in first-seen key order: its `values()` are
   * `distinctBy`.
   */
  lemma {:induction false} LinkedMapIsDistinctBy<T, K(!new)>(key: T -> K, xs: seq<T>)
    ensures FoldLeft(PutIfAbsentByKey(key), EmptyLinkedMap(), xs).Valid()
    ensures forall k :: k in FoldLeft(PutIfAbsentByKey(key), EmptyLinkedMap(), xs).entries <==> k in Map(key, xs)
    ensures FoldLeft(PutIfAbsentByKey(key), EmptyLinkedMap(), xs).Values() == DistinctBy(key, xs)
    decreases |xs|
  {
    if xs != [] {
      var front, last := xs[..|xs| - 1], xs[|xs| - 1];
      LinkedMapIsDistinctBy(key, front);
      MapSnoc(key, front, last);
      assert xs == front + [last];
      var m := FoldLeft(PutIfAbsentByKey(key), EmptyLinkedMap(), front);
      var k := key(last);
      if k !in m.entries {
        var m' := m.PutIfAbsent(k, last);
        assert forall i :: 0 <= i < |m.keys| ==> m.keys[i] in m.entries;
        assert m'.Values() == m.Values() + [last];
      }
    }
  }

  /** `unionBy` is one `putIfAbsent` map filled from the left input and then the right one. */
  lemma LinkedMapIsUnionBy<T, K(!new)>(key: T -> K, xs: seq<T>, ys: seq<T>)
    ensures FoldLeft(PutIfAbsentByKey(key), FoldLeft(PutIfAbsentByKey(key), EmptyLinkedMap(), xs), ys).Valid()
    ensures FoldLeft(PutIfAbsentByKey(key), FoldLeft(PutIfAbsentByKey(key), EmptyLinkedMap(), xs), ys).Values()
      == UnionBy(key, xs, ys)
  {
    FoldLeftAppend(PutIfAbsentByKey(key), EmptyLinkedMap(), xs, ys);
    LinkedMapIsDistinctBy(key, xs + ys);
  }

  // ---------------------------------------------------------------------
  // LinkedHashMap<K, List<T>>: "get the list, create and put it if missing, add"

  /** The grouping step of `groupBy`, `join` and `groupJoin`, as a step. */
  function GroupInto<T, K(!new)>(key: T -> K): (step: (LinkedMap<K, seq<T>>, T) -> LinkedMap<K, seq<T>>)
  {
    (m: LinkedMap<K, seq<T>>, v: T) =>
      var k := key(v);
      if k in m.entries then m.Put(k, m.entries[k] + [v]) else m.Put(k, [v])
  }

  lemma WithKeySnoc<T, K>(key: T -> K, xs: seq<T>, x: T, k: K)
    ensures WithKey(key, xs + [x], k) == WithKey(key, xs, k) + (if key(x) == k then [x] else [])
  {
    assert (xs + [x])[..|xs|] == xs;
  }

  /**
   * The grouping map has the distinct keys in first-seen order, and maps
   * each to the values with that key, in input order.
   */
  lemma {:induction false} GroupIntoCollects<T, K(!new)>(key: T -> K, xs: seq<T>)
    ensures FoldLeft(GroupInto(key), EmptyLinkedMap(), xs).Valid()
    ensures FoldLeft(GroupInto(key), EmptyLinkedMap(), xs).keys == Distinct(Map(key, xs))
    ensures forall k :: k in FoldLeft(GroupInto(key), EmptyLinkedMap(), xs).entries ==>
      FoldLeft(GroupInto(key), EmptyLinkedMap(), xs).entries[k] == WithKey(key, xs, k)
    decreases |xs|
  {
    if xs != [] {
      var front, last := xs[..|xs| - 1], xs[|xs| - 1];
      GroupIntoCollects(key, front);
      MapSnoc(key, front, last);
      assert xs == front + [last];
      assert Map(key, xs)[..|xs| - 1] == Map(key, front);
      var m := FoldLeft(GroupInto(key), EmptyLinkedMap(), front);
      DistinctMembership(Map(key, front), key(last));
      forall k | k in FoldLeft(GroupInto(key), EmptyLinkedMap(), xs).entries
        ensures FoldLeft(GroupInto(key), EmptyLinkedMap(), xs).entries[k] == WithKey(key, xs, k)
      {
        WithKeySnoc(key, front, last, k);
        if k != key(last) {
          assert k in m.entries;
        } else if k !in m.entries {
          assert k !in Map(key, front);
          assert forall i :: 0 <= i < |front| ==> key(front[i]) != k by {
            forall i | 0 <= i < |front| ensures key(front[i]) != k {
              assert Map(key, front)[i] == key(front[i]);
            }
          }
          WithKeyNone(key, front, k);
        }
      }
    }
  }

  /** No value has the key: nothing is kept. */
  lemma {:induction false} WithKeyNone<T, K>(key: T -> K, xs: seq<T>, k: K)
    requires forall i :: 0 <= i < |xs| ==> key(xs[i]) != k
    ensures WithKey(key, xs, k) == []
    decreases |xs|
  {
    if xs != [] {
      WithKeyNone(key, xs[..|xs| - 1], k);
      WithKeySnoc(key, xs[..|xs| - 1], xs[|xs| - 1], k);
      assert xs == xs[..|xs| - 1] + [xs[|xs| - 1]];
    }
  }

  /** A key is in the grouping map exactly when some value has it. */
  lemma GroupIntoMembership<T, K(!new)>(key: T -> K, xs: seq<T>, k: K)
    ensures k in FoldLeft(GroupInto(key), EmptyLinkedMap(), xs).entries <==> k in Map(key, xs)
  {
    GroupIntoCollects(key, xs);
    DistinctMembership(Map(key, xs), k);
  }
}
