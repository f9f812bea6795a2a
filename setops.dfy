/**
 * Reference definitions of the operators that compare values or keys
 * (`distinct`, `distinctBy`, `union`, `unionBy`, `except`, `intersect`,
 * `groupBy`, `join`, `groupJoin`), and a model of `java.util.LinkedHashMap`,
 * which those operators use to remember keys in first-seen order.
 */
module SetOps {
  import opened Sequences

  /** The position of the first occurrence of `y` in `xs`. */
  function IndexOf<T(==)>(xs: seq<T>, y: T): (i: nat)
    requires y in xs
    ensures i < |xs| && xs[i] == y
    ensures forall k :: 0 <= k < i ==> xs[k] != y
  {
    if xs[0] == y then 0 else 1 + IndexOf(xs[1..], y)
  }

  lemma IndexOfAppend<T>(a: seq<T>, b: seq<T>, y: T)
    requires y in a
    ensures IndexOf(a + b, y) == IndexOf(a, y)
  {
    var i, j := IndexOf(a + b, y), IndexOf(a, y);
    assert (a + b)[j] == y;
    assert i <= j;
    assert a[i] == (a + b)[i];
  }

  ghost predicate NoDuplicates<T>(s: seq<T>) {
    forall i, j :: 0 <= i < j < |s| ==> s[i] != s[j]
  }

  /**
   * `distinct`: each value once, at the place of its first occurrence
   * (the iteration order of a `LinkedHashSet` filled in input order).
   */
  function Distinct<T(==)>(xs: seq<T>): (r: seq<T>)
  {
    if xs == [] then [] else
      var init, last := xs[..|xs| - 1], xs[|xs| - 1];
      Distinct(init) + (if last in init then [] else [last])
  }

  lemma {:induction false} DistinctMembership<T>(xs: seq<T>, y: T)
    ensures y in Distinct(xs) <==> y in xs
    decreases |xs|
  {
    if xs != [] {
      var init := xs[..|xs| - 1];
      DistinctMembership(init, y);
      assert xs == init + [xs[|xs| - 1]];
    }
  }

  /**
   * `distinct` keeps every value of the input exactly once, in the order of
   * first occurrences: this pins the result down completely.
   */
  lemma {:induction false} DistinctCharacterization<T>(xs: seq<T>)
    ensures forall y :: y in Distinct(xs) <==> y in xs
    ensures NoDuplicates(Distinct(xs))
    ensures forall i, j :: 0 <= i < j < |Distinct(xs)| ==>
      IndexOf(xs, Distinct(xs)[i]) < IndexOf(xs, Distinct(xs)[j])
    decreases |xs|
  {
    forall y ensures y in Distinct(xs) <==> y in xs { DistinctMembership(xs, y); }
    if xs != [] {
      var init, last := xs[..|xs| - 1], xs[|xs| - 1];
      DistinctCharacterization(init);
      var d := Distinct(init);
      assert xs == init + [last];
      forall y | y in d ensures IndexOf(xs, y) == IndexOf(init, y) {
        DistinctMembership(init, y);
        IndexOfAppend(init, [last], y);
      }
      if last !in init {
        var r := d + [last];
        assert IndexOf(xs, last) == |init| by {
          assert forall k :: 0 <= k < |init| ==> xs[k] == init[k];
        }
        forall i, j | 0 <= i < j < |r| ensures IndexOf(xs, r[i]) < IndexOf(xs, r[j]) {
          assert r[i] in d;
          if j == |d| {
            assert IndexOf(init, r[i]) < |init|;
          } else {
            assert r[j] in d;
          }
        }
      }
    }
  }

  /**
   * `distinctBy(key)`: the first value for each key, in the order in which
   * the keys were first seen (`putIfAbsent` into a `LinkedHashMap`).
   */
  function DistinctBy<T, K(==)>(key: T -> K, xs: seq<T>): (r: seq<T>)
  {
    if xs == [] then [] else
      var init, last := xs[..|xs| - 1], xs[|xs| - 1];
      DistinctBy(key, init) + (if key(last) in Map(key, init) then [] else [last])
  }

  lemma MapSnoc<T, U>(f: T -> U, xs: seq<T>, x: T)
    ensures Map(f, xs + [x]) == Map(f, xs) + [f(x)]
  {
  }

  lemma MapPrefix<T, U>(f: T -> U, xs: seq<T>, k: nat)
    requires k <= |xs|
    ensures Map(f, xs[..k]) == Map(f, xs)[..k]
  {
  }

  /**
   * The keys of `distinctBy`'s result are the distinct keys of the input,
   * and the value kept for each key is the first one that has it.
   */
  lemma {:induction false} DistinctByCharacterization<T, K>(key: T -> K, xs: seq<T>)
    ensures Map(key, DistinctBy(key, xs)) == Distinct(Map(key, xs))
    ensures forall i :: 0 <= i < |DistinctBy(key, xs)| ==>
      key(DistinctBy(key, xs)[i]) in Map(key, xs) &&
      DistinctBy(key, xs)[i] == xs[IndexOf(Map(key, xs), key(DistinctBy(key, xs)[i]))]
    decreases |xs|
  {
    if xs != [] {
      var init, last := xs[..|xs| - 1], xs[|xs| - 1];
      DistinctByCharacterization(key, init);
      var ks := Map(key, init);
      assert Map(key, xs) == ks + [key(last)];
      assert Map(key, xs)[..|xs| - 1] == ks;
      MapSnoc(key, DistinctBy(key, init), last);
      var r := DistinctBy(key, xs);
      forall i | 0 <= i < |r|
        ensures key(r[i]) in Map(key, xs) && r[i] == xs[IndexOf(Map(key, xs), key(r[i]))]
      {
        if i < |DistinctBy(key, init)| {
          IndexOfAppend(ks, [key(last)], key(r[i]));
        } else {
          assert forall k :: 0 <= k < |init| ==> Map(key, xs)[k] == ks[k];
        }
      }
    }
  }

  /** `distinct` is `distinctBy` with the identity as key. */
  lemma {:induction false} DistinctIsDistinctByIdentity<T>(xs: seq<T>)
    ensures DistinctBy(x => x, xs) == Distinct(xs)
    decreases |xs|
  {
    if xs != [] {
      var init := xs[..|xs| - 1];
      DistinctIsDistinctByIdentity(init);
      assert Map(x => x, init) == init;
    }
  }

  /**
   * `distinctBy(key)` in the older revision: `put` into a `LinkedHashMap`,
   * so each key keeps its first-seen position but the LAST value that has it.
   */
  function DistinctByLast<T, K(==)>(key: T -> K, xs: seq<T>): (r: seq<T>)
    ensures |r| == |Distinct(Map(key, xs))|
  {
    var ks := Distinct(Map(key, xs));
    seq(|ks|, i requires 0 <= i < |ks| =>
      DistinctMembership(Map(key, xs), ks[i]); xs[LastIndexWithKey(key, xs, ks[i])])
  }

  /** The position of the last value of `xs` whose key is `k`, for a key that occurs. */
  function LastIndexWithKey<T, K(==)>(key: T -> K, xs: seq<T>, k: K): (j: nat)
    requires k in Map(key, xs)
    ensures j < |xs| && key(xs[j]) == k
    ensures forall i :: j < i < |xs| ==> key(xs[i]) != k
  {
    var n := |xs| - 1;
    if key(xs[n]) == k then n else
      assert Map(key, xs) == Map(key, xs[..n]) + [key(xs[n])];
      LastIndexWithKey(key, xs[..n], k)
  }

  /** The values of `xs` whose key is `k`, in order. */
  function WithKey<T, K(==)>(key: T -> K, xs: seq<T>, k: K): (r: seq<T>)
  {
    Filter(x => key(x) == k, xs)
  }

  /**
   * `groupBy(key)`: one group per distinct key, in first-seen order, each
   * holding the values with that key in input order.
   */
  function Groups<T, K(==)>(key: T -> K, xs: seq<T>): (r: seq<(K, seq<T>)>)
  {
    var ks := Distinct(Map(key, xs));
    seq(|ks|, i requires 0 <= i < |ks| => (ks[i], WithKey(key, xs, ks[i])))
  }

  /**
   * The groups partition the input: their keys are the distinct keys, no group is
   * empty, and every value lies in the group of its own key.
   */
  lemma GroupsCharacterization<T, K>(key: T -> K, xs: seq<T>)
    ensures Map((g: (K, seq<T>)) => g.0, Groups(key, xs)) == Distinct(Map(key, xs))
    ensures forall i :: 0 <= i < |Groups(key, xs)| ==> Groups(key, xs)[i].1 != []
    ensures forall i, x :: 0 <= i < |Groups(key, xs)| && x in Groups(key, xs)[i].1 ==>
      x in xs && key(x) == Groups(key, xs)[i].0
    ensures forall x :: x in xs ==>
      (exists i :: 0 <= i < |Groups(key, xs)| && Groups(key, xs)[i].0 == key(x) && x in Groups(key, xs)[i].1)
  {
    var gs := Groups(key, xs);
    var ks := Distinct(Map(key, xs));
    forall i | 0 <= i < |gs| ensures gs[i].1 != [] {
      DistinctMembership(Map(key, xs), ks[i]);
      var j :| 0 <= j < |xs| && key(xs[j]) == ks[i];
      FilterMembership(x => key(x) == ks[i], xs, xs[j]);
    }
    forall i, x | 0 <= i < |gs| && x in gs[i].1 ensures x in xs && key(x) == gs[i].0 {
      FilterMembership(y => key(y) == ks[i], xs, x);
    }
    forall x | x in xs ensures exists i :: 0 <= i < |gs| && gs[i].0 == key(x) && x in gs[i].1 {
      var j :| 0 <= j < |xs| && xs[j] == x;
      assert Map(key, xs)[j] == key(x);
      DistinctMembership(Map(key, xs), key(x));
      var i :| 0 <= i < |ks| && ks[i] == key(x);
      FilterMembership(y => key(y) == ks[i], xs, x);
      assert gs[i].0 == key(x) && x in gs[i].1;
    }
  }

  /** `union`: the distinct values of the left input followed by the new ones of the right. */
  function Union<T(==)>(xs: seq<T>, ys: seq<T>): (r: seq<T>)
  {
    Distinct(xs + ys)
  }

  lemma {:induction false} DistinctAppendPrefix<T>(xs: seq<T>, ys: seq<T>)
    ensures Distinct(xs) <= Distinct(xs + ys)
    decreases |ys|
  {
    if ys == [] {
      assert xs + ys == xs;
    } else {
      var init := ys[..|ys| - 1];
      assert (xs + ys)[..|xs + ys| - 1] == xs + init;
      DistinctAppendPrefix(xs, init);
    }
  }

  /**
   * `union` holds every value of either input once, and starts with the
   * distinct values of the left input.
   */
  lemma UnionCharacterization<T>(xs: seq<T>, ys: seq<T>)
    ensures forall y :: y in Union(xs, ys) <==> y in xs || y in ys
    ensures NoDuplicates(Union(xs, ys))
    ensures Distinct(xs) <= Union(xs, ys)
  {
    DistinctCharacterization(xs + ys);
    DistinctAppendPrefix(xs, ys);
  }

  /** `unionBy(key)`: the first value for each key over the left input then the right one. */
  function UnionBy<T, K(==)>(key: T -> K, xs: seq<T>, ys: seq<T>): (r: seq<T>)
  {
    DistinctBy(key, xs + ys)
  }

  /** The membership tests of `except`, `intersect` and their keyed forms. */
  function NotIn<T(==)>(ys: seq<T>): T -> bool
  {
    x => x !in ys
  }

  function In<T(==)>(ys: seq<T>): T -> bool
  {
    x => x in ys
  }

  function KeyNotIn<T, K(==)>(key: T -> K, keys: seq<K>): T -> bool
  {
    x => key(x) !in keys
  }

  function KeyIn<T, K(==)>(key: T -> K, keys: seq<K>): T -> bool
  {
    x => key(x) in keys
  }

  /** `except`: the left values that do not occur on the right, duplicates and order kept. */
  function Except<T(==)>(xs: seq<T>, ys: seq<T>): (r: seq<T>)
  {
    Filter(NotIn(ys), xs)
  }

  /** `exceptBy(key)`: the left values whose key is not the key of any right value. */
  function ExceptBy<T, K(==)>(key: T -> K, xs: seq<T>, ys: seq<T>): (r: seq<T>)
  {
    Filter(KeyNotIn(key, Map(key, ys)), xs)
  }

  /** `intersect`: the left values that occur on the right, duplicates and order kept. */
  function Intersect<T(==)>(xs: seq<T>, ys: seq<T>): (r: seq<T>)
  {
    Filter(In(ys), xs)
  }

  /** `intersectBy(key)`: the left values whose key is one of the right-hand keys. */
  function IntersectBy<T, K(==)>(key: T -> K, xs: seq<T>, keys: seq<K>): (r: seq<T>)
  {
    Filter(KeyIn(key, keys), xs)
  }

  /** `except` and `intersect` split the left input between them. */
  lemma ExceptIntersectMembership<T>(xs: seq<T>, ys: seq<T>, y: T)
    ensures y in Except(xs, ys) <==> y in xs && y !in ys
    ensures y in Intersect(xs, ys) <==> y in xs && y in ys
    ensures |Except(xs, ys)| + |Intersect(xs, ys)| == |xs|
  {
    FilterMembership(NotIn(ys), xs, y);
    FilterMembership(In(ys), xs, y);
    FilterComplement(In(ys), NotIn(ys), xs);
  }

  lemma {:induction false} FilterComplement<T>(p: T -> bool, q: T -> bool, xs: seq<T>)
    requires forall x :: q(x) == !p(x)
    ensures |Filter(p, xs)| + |Filter(q, xs)| == |xs|
    decreases |xs|
  {
    if xs != [] {
      FilterComplement(p, q, xs[..|xs| - 1]);
    }
  }

  /** The right values whose key is `k`: what `join` and `groupJoin` pair with a left value of key `k`. */
  function Matches<T, K(==)>(key: T -> K, ys: seq<T>, k: K): (r: seq<T>)
  {
    WithKey(key, ys, k)
  }

  /** A left value with its matches on the right, passed to the result selector. */
  function Paired<L, R, K(==), U>(lkey: L -> K, rkey: R -> K, result: (L, seq<R>) -> U, ys: seq<R>): L -> U
  {
    x => result(x, Matches(rkey, ys, lkey(x)))
  }

  /**
   * `groupJoin`: every left value with the (possibly empty) list of right
   * values of the same key, passed to `result`, one result per left value.
   */
  function GroupJoin<L, R, K(==), U>(lkey: L -> K, rkey: R -> K, result: (L, seq<R>) -> U,
                                    xs: seq<L>, ys: seq<R>): (r: seq<U>)
    ensures |r| == |xs|
  {
    if xs == [] then [] else
      var x := xs[|xs| - 1];
      GroupJoin(lkey, rkey, result, xs[..|xs| - 1], ys) + [result(x, Matches(rkey, ys, lkey(x)))]
  }

  /**
   * `join`: one result per left value that has at least one right value of
   * the same key, carrying the whole list of those right values.
   */
  function Join<L, R, K(==), U>(lkey: L -> K, rkey: R -> K, result: (L, seq<R>) -> U,
                               xs: seq<L>, ys: seq<R>): (r: seq<U>)
    ensures |r| <= |xs|
  {
    if xs == [] then [] else
      var x := xs[|xs| - 1];
      Join(lkey, rkey, result, xs[..|xs| - 1], ys)
        + (if lkey(x) in Map(rkey, ys) then [result(x, Matches(rkey, ys, lkey(x)))] else [])
  }

  /** `groupJoin` is the pairing applied to every left value. */
  lemma {:induction false} GroupJoinCharacterization<L, R, K, U>(lkey: L -> K, rkey: R -> K,
      result: (L, seq<R>) -> U, xs: seq<L>, ys: seq<R>)
    ensures GroupJoin(lkey, rkey, result, xs, ys) == Map(Paired(lkey, rkey, result, ys), xs)
    decreases |xs|
  {
    if xs != [] {
      var front, last := xs[..|xs| - 1], xs[|xs| - 1];
      GroupJoinCharacterization(lkey, rkey, result, front, ys);
      MapSnoc(Paired(lkey, rkey, result, ys), front, last);
      assert xs == front + [last];
    }
  }

  /** `join` is the pairing applied to the left values whose key occurs on the right. */
  lemma {:induction false} JoinCharacterization<L, R, K, U>(lkey: L -> K, rkey: R -> K,
      result: (L, seq<R>) -> U, xs: seq<L>, ys: seq<R>)
    ensures Join(lkey, rkey, result, xs, ys)
      == Map(Paired(lkey, rkey, result, ys), Filter(KeyIn(lkey, Map(rkey, ys)), xs))
    decreases |xs|
  {
    if xs != [] {
      var front, last := xs[..|xs| - 1], xs[|xs| - 1];
      JoinCharacterization(lkey, rkey, result, front, ys);
      var p := KeyIn(lkey, Map(rkey, ys));
      assert Filter(p, xs) == Filter(p, front) + (if p(last) then [last] else []);
      if p(last) {
        MapSnoc(Paired(lkey, rkey, result, ys), Filter(p, front), last);
      }
    }
  }

  /** Left value `k` of `groupJoin` gives result `k`. */
  lemma GroupJoinAt<L, R, K, U>(lkey: L -> K, rkey: R -> K, result: (L, seq<R>) -> U,
      xs: seq<L>, ys: seq<R>, k: nat)
    requires k < |xs|
    ensures GroupJoin(lkey, rkey, result, xs, ys)[k] == result(xs[k], Matches(rkey, ys, lkey(xs[k])))
  {
    GroupJoinCharacterization(lkey, rkey, result, xs, ys);
  }

  /**
   * A `join` that has read `k` left values has produced `|Join(..., xs[..k], ys)|`
   * results; left value `k`, when its key is on the right, gives the next one.
   */
  lemma JoinAdvance<L, R, K, U>(lkey: L -> K, rkey: R -> K, result: (L, seq<R>) -> U,
      xs: seq<L>, ys: seq<R>, k: nat)
    requires k < |xs|
    ensures |Join(lkey, rkey, result, xs[..k + 1], ys)|
      == |Join(lkey, rkey, result, xs[..k], ys)| + (if lkey(xs[k]) in Map(rkey, ys) then 1 else 0)
    ensures lkey(xs[k]) in Map(rkey, ys) ==>
      && |Join(lkey, rkey, result, xs[..k], ys)| < |Join(lkey, rkey, result, xs, ys)|
      && Join(lkey, rkey, result, xs, ys)[|Join(lkey, rkey, result, xs[..k], ys)|]
         == result(xs[k], Matches(rkey, ys, lkey(xs[k])))
  {
    assert xs[..k + 1][..k] == xs[..k];
    var p := KeyIn(lkey, Map(rkey, ys));
    JoinCharacterization(lkey, rkey, result, xs[..k], ys);
    JoinCharacterization(lkey, rkey, result, xs, ys);
    FilterAdvance(p, xs, k);
  }

  /** A key has matches exactly when some right value has it. */
  lemma MatchesNonEmpty<R, K>(rkey: R -> K, ys: seq<R>, k: K)
    ensures Matches(rkey, ys, k) != [] <==> k in Map(rkey, ys)
  {
    if k in Map(rkey, ys) {
      var j :| 0 <= j < |ys| && rkey(ys[j]) == k;
      FilterMembership(y => rkey(y) == k, ys, ys[j]);
    }
    if Matches(rkey, ys, k) != [] {
      FilterMembership(y => rkey(y) == k, ys, Matches(rkey, ys, k)[0]);
      var y := Matches(rkey, ys, k)[0];
      var j :| 0 <= j < |ys| && ys[j] == y;
      assert Map(rkey, ys)[j] == k;
    }
  }

  /**
   * `join` is `groupJoin` restricted to the left values with a non-empty
   * match list.
   */
  lemma {:induction false} JoinIsFilteredGroupJoin<L, R, K, U>(lkey: L -> K, rkey: R -> K,
      result: (L, seq<R>) -> U, xs: seq<L>, ys: seq<R>)
    ensures Join(lkey, rkey, result, xs, ys) ==
      Map(Paired(lkey, rkey, result, ys), Filter(x => Matches(rkey, ys, lkey(x)) != [], xs))
  {
    JoinCharacterization(lkey, rkey, result, xs, ys);
    forall x ensures KeyIn(lkey, Map(rkey, ys))(x) == (Matches(rkey, ys, lkey(x)) != []) {
      MatchesNonEmpty(rkey, ys, lkey(x));
    }
    FilterExt(KeyIn(lkey, Map(rkey, ys)), x => Matches(rkey, ys, lkey(x)) != [], xs);
  }

  lemma {:induction false} FilterExt<T>(p: T -> bool, q: T -> bool, xs: seq<T>)
    requires forall x :: p(x) == q(x)
    ensures Filter(p, xs) == Filter(q, xs)
    decreases |xs|
  {
    if xs != [] {
      FilterExt(p, q, xs[..|xs| - 1]);
    }
  }

  // ---------------------------------------------------------------------
  // java.util.LinkedHashMap

  /**
   * A `LinkedHashMap`: a map plus the order in which its keys were first
   * inserted.  Re-putting an existing key keeps its position.
   */
  datatype LinkedMap<K(!new), V> = LinkedMap(keys: seq<K>, entries: map<K, V>)
  {
    ghost predicate Valid() {
      NoDuplicates(keys) && (forall k :: k in entries <==> k in keys)
    }

    /** `map.values()` in iteration order. */
    function Values(): (r: seq<V>)
      requires Valid()
      ensures |r| == |keys|
    {
      seq(|keys|, i requires 0 <= i < |keys| && Valid() => entries[keys[i]])
    }

    /** `map.put(k, v)`. */
    function Put(k: K, v: V): (m: LinkedMap<K, V>)
      ensures Valid() ==> m.Valid()
      ensures m.entries == entries[k := v]
      ensures m.keys == if k in entries then keys else keys + [k]
    {
      if k in entries then LinkedMap(keys, entries[k := v]) else LinkedMap(keys + [k], entries[k := v])
    }

    /** `map.putIfAbsent(k, v)`. */
    function PutIfAbsent(k: K, v: V): (m: LinkedMap<K, V>)
      ensures Valid() ==> m.Valid()
      ensures k in entries ==> m == this
      ensures k !in entries ==> m.keys == keys + [k] && m.entries == entries[k := v]
    {
      if k in entries then this else Put(k, v)
    }
  }

  function EmptyLinkedMap<K(!new), V>(): (m: LinkedMap<K, V>)
    ensures m.Valid() && m.keys == [] && m.entries == map[]
  {
    LinkedMap([], map[])
  }
}
