/**
 * Reference definitions for the older revision (`main.Linq`) where it
 * differs from the current one.
 *
 * `distinctBy`, `unionBy` and `toDictionary` fill a `LinkedHashMap` with
 * `put`, which keeps each key at its first-seen position but overwrites
 * its value, so each key ends up with the LAST value that has it.
 * `contains` calls `v.equals(target)` on each value in turn.  `chunk`,
 * `skipLast`, `reverse` and `toLookup` do not do what their names promise;
 * their behaviour as written is defined here, each with an input that shows
 * how it departs from the current revision's version.
 */
module LegacySpecs {
  import opened Values
  import opened Sequences
  import opened SetOps
  import opened Buffers
  import opened Operators

  // ---------------------------------------------------------------------
  // LinkedHashMap.put

  /** `linkedHashMap.put(key(v), v)`, as a step. */
  function PutLastByKey<T, K(!new)>(key: T -> K): (step: (LinkedMap<K, T>, T) -> LinkedMap<K, T>)
  {
    (m: LinkedMap<K, T>, v: T) => m.Put(key(v), v)
  }

  /** Filling a `LinkedHashMap` with `put` orders its keys by first occurrence. */
  lemma {:induction false} PutKeysFirstSeen<T, K(!new)>(key: T -> K, xs: seq<T>)
    ensures FoldLeft(PutLastByKey(key), EmptyLinkedMap(), xs).Valid()
    ensures FoldLeft(PutLastByKey(key), EmptyLinkedMap(), xs).keys == Distinct(Map(key, xs))
    decreases |xs|
  {
    if xs != [] {
      var front, last := xs[..|xs| - 1], xs[|xs| - 1];
      PutKeysFirstSeen(key, front);
      MapSnoc(key, front, last);
      assert xs == front + [last];
      DistinctMembership(Map(key, front), key(last));
      var ks := Map(key, xs);
      assert ks[..|ks| - 1] == Map(key, front);
    }
  }

  /** Filling a `LinkedHashMap` with `put` leaves each key with the last value that has it. */
  lemma {:induction false} PutKeepsLast<T, K(!new)>(key: T -> K, xs: seq<T>, k: K)
    requires k in Map(key, xs)
    ensures k in FoldLeft(PutLastByKey(key), EmptyLinkedMap(), xs).entries
    ensures FoldLeft(PutLastByKey(key), EmptyLinkedMap(), xs).entries[k] == xs[LastIndexWithKey(key, xs, k)]
    decreases |xs|
  {
    var front, last := xs[..|xs| - 1], xs[|xs| - 1];
    MapSnoc(key, front, last);
    assert xs == front + [last];
    if key(last) != k {
      PutKeepsLast(key, front, k);
    }
  }

  /** The `values()` of a map filled with `put` are `DistinctByLast`. */
  lemma PutIsDistinctByLast<T, K(!new)>(key: T -> K, xs: seq<T>)
    ensures FoldLeft(PutLastByKey(key), EmptyLinkedMap(), xs).Valid()
    ensures FoldLeft(PutLastByKey(key), EmptyLinkedMap(), xs).Values() == DistinctByLast(key, xs)
  {
    var m := FoldLeft(PutLastByKey(key), EmptyLinkedMap(), xs);
    PutKeysFirstSeen(key, xs);
    var ks := Distinct(Map(key, xs));
    forall i | 0 <= i < |ks|
      ensures m.Values()[i] == DistinctByLast(key, xs)[i]
    {
      DistinctMembership(Map(key, xs), ks[i]);
      PutKeepsLast(key, xs, ks[i]);
    }
  }

  /** `unionBy` of the older revision: one `put` map filled from the left input and then the right one. */
  lemma PutIsUnionByLast<T, K(!new)>(key: T -> K, xs: seq<T>, ys: seq<T>)
    ensures FoldLeft(PutLastByKey(key), FoldLeft(PutLastByKey(key), EmptyLinkedMap(), xs), ys).Valid()
    ensures FoldLeft(PutLastByKey(key), FoldLeft(PutLastByKey(key), EmptyLinkedMap(), xs), ys).Values()
      == DistinctByLast(key, xs + ys)
  {
    FoldLeftAppend(PutLastByKey(key), EmptyLinkedMap(), xs, ys);
    PutIsDistinctByLast(key, xs + ys);
  }

  /** `DistinctByLast` has one value per key, in the order the keys first occur. */
  lemma DistinctByLastKeys<T, K(!new)>(key: T -> K, xs: seq<T>)
    ensures Map(key, DistinctByLast(key, xs)) == Distinct(Map(key, xs))
  {
    var ks := Distinct(Map(key, xs));
    forall i | 0 <= i < |ks|
      ensures Map(key, DistinctByLast(key, xs))[i] == ks[i]
    {
      DistinctMembership(Map(key, xs), ks[i]);
    }
  }

  /** A value that no later value shares a key with is kept by `DistinctByLast`. */
  lemma DistinctByLastKeepsLast<T, K(!new)>(key: T -> K, xs: seq<T>, j: nat)
    requires j < |xs|
    requires forall i :: j < i < |xs| ==> key(xs[i]) != key(xs[j])
    ensures xs[j] in DistinctByLast(key, xs)
  {
    var k := key(xs[j]);
    var ks := Distinct(Map(key, xs));
    assert Map(key, xs)[j] == k;
    DistinctMembership(Map(key, xs), k);
    var i := IndexOf(ks, k);
    var last := LastIndexWithKey(key, xs, k);
    assert last == j;
    assert DistinctByLast(key, xs)[i] == xs[j];
  }

  /**
   * `toDictionary(key)` of the older revision: the `put` map; it never fails,
   * and each key maps to the last value that has it.
   */
  lemma ToDictionaryKeepsLast<T, K(!new)>(key: T -> K, xs: seq<T>, k: K)
    ensures FoldLeft(PutLastByKey(key), EmptyLinkedMap(), xs).Valid()
    ensures k in FoldLeft(PutLastByKey(key), EmptyLinkedMap(), xs).entries <==> k in Map(key, xs)
    ensures k in Map(key, xs) ==>
      FoldLeft(PutLastByKey(key), EmptyLinkedMap(), xs).entries[k] == xs[LastIndexWithKey(key, xs, k)]
  {
    PutKeysFirstSeen(key, xs);
    DistinctMembership(Map(key, xs), k);
    if k in Map(key, xs) {
      PutKeepsLast(key, xs, k);
    }
  }

  // ---------------------------------------------------------------------
  // contains

  /**
   * `contains(target)` of the older revision: `v.equals(target)` on each
   * value in turn, which throws `NullPointerException` at a `null` value
   * met at or before the first match (a `null` target is matched by the
   * first `null` value, on which `equals` is called).
   */
  function ContainsAsWritten(xs: seq<Value>, target: Value): (r: Result<bool>)
  {
    if xs == [] then Ok(false)
    else if xs[0] == Null then Err(NullPointer)
    else if xs[0] == target then Ok(true)
    else ContainsAsWritten(xs[1..], target)
  }

  /**
   * It throws exactly when a `null` comes no later than the first match;
   * otherwise it answers whether the target occurs.
   */
  lemma {:induction false} ContainsAsWrittenMeaning(xs: seq<Value>, target: Value)
    ensures ContainsAsWritten(xs, target).Err? <==>
      Null in xs && (target in xs ==> IndexOf(xs, Null) <= IndexOf(xs, target))
    ensures ContainsAsWritten(xs, target).Err? ==> ContainsAsWritten(xs, target).error == NullPointer
    ensures ContainsAsWritten(xs, target).Ok? ==> ContainsAsWritten(xs, target).value == (target in xs)
    decreases |xs|
  {
    if xs != [] && xs[0] != Null && xs[0] != target {
      ContainsAsWrittenMeaning(xs[1..], target);
      assert xs == [xs[0]] + xs[1..];
      if Null in xs[1..] {
        IndexOfShift(xs, Null);
      }
      if target in xs[1..] {
        IndexOfShift(xs, target);
      }
    }
  }

  /** Past a head that differs from `y`, the first position of `y` is one more than in the tail. */
  lemma IndexOfShift<T>(xs: seq<T>, y: T)
    requires xs != [] && xs[0] != y && y in xs[1..]
    ensures IndexOf(xs, y) == 1 + IndexOf(xs[1..], y)
  {
  }

  /** Without `null` values it is the membership test. */
  lemma ContainsWithoutNulls(xs: seq<Value>, target: Value)
    requires Null !in xs
    ensures ContainsAsWritten(xs, target) == Ok(target in xs)
  {
    ContainsAsWrittenMeaning(xs, target);
  }

  // ---------------------------------------------------------------------
  // chunk, as written

  /**
   * The answer of one `get()` of the older `chunk(size)` once its upstream
   * iterator has handed out `k` of the values `xs`, with the upstream
   * position after it.  The loop adds a value and then BREAKS when more
   * values remain, so a positive `size` gives one-value lists; with `size`
   * of two or more, the last value finds the loop going on and `next()`
   * throws on the exhausted upstream.  A `size` of zero or less adds
   * nothing and gives an empty list without moving on.
   */
  function ChunkAsWritten(size: int, xs: seq<Value>, k: nat): (r: (Result<Holder<Value>>, nat))
    requires k <= |xs|
    ensures k <= r.1 <= |xs|
  {
    if k == |xs| then (Ok(None), k)
    else if size <= 0 then (Ok(Of(List([]))), k)
    else if k + 1 < |xs| || size == 1 then (Ok(Of(List([xs[k]]))), k + 1)
    else (Err(NoSuchElement), k + 1)
  }

  /** With `size` one, it gives the one-value blocks that `Chunks(1, …)` describes. */
  lemma ChunkAsWrittenSingletons(xs: seq<Value>, k: nat)
    requires k < |xs|
    ensures |ChunkValues(1, xs)| == |xs|
    ensures ChunkAsWritten(1, xs, k) == (Ok(Of(ChunkValues(1, xs)[k])), k + 1)
  {
    ChunksOfOne(xs, k);
  }

  lemma {:induction false} ChunksOfOne<T>(xs: seq<T>, k: nat)
    requires k < |xs|
    ensures |Chunks(1, xs)| == |xs| && Chunks(1, xs)[k] == [xs[k]]
    decreases |xs|
  {
    if 1 < |xs| {
      if k > 0 {
        ChunksOfOne(xs[1..], k - 1);
      } else {
        ChunksOfOne(xs[1..], 0);
      }
    }
  }

  /**
   * On `[1, 2]` with `size` 2, the first `get()` answers `[1]` where
   * `chunk(2)` evidently means `[1, 2]`, and the second throws
   * `NoSuchElementException`.
   */
  lemma ChunkAsWrittenSplitsPairs()
    ensures ChunkAsWritten(2, [Int(1), Int(2)], 0) == (Ok(Of(List([Int(1)]))), 1)
    ensures ChunkAsWritten(2, [Int(1), Int(2)], 1) == (Err(NoSuchElement), 2)
    ensures ChunkValues(2, [Int(1), Int(2)]) == [List([Int(1), Int(2)])]
  {
    assert Chunks(2, [Int(1), Int(2)]) == [[Int(1), Int(2)]];
  }

  // ---------------------------------------------------------------------
  // skipLast, as written

  /**
   * The answer of every `get()` of the older `skipLast(size)`: the local
   * `it` declared inside the `if` hides the field, so the field stays
   * `null`; whenever values are left to give (`count - size > 0`) the
   * method calls `hasNext()` on it and throws `NullPointerException`.
   * `size`, the count and `count - size` are Java `long`s, so the
   * difference wraps around.
   */
  function SkipLastAsWritten(size: int, xs: seq<Value>): (r: Result<Holder<Value>>)
    requires IsInt64(size)
    ensures r != Ok(None) ==> r == Err(NullPointer)
  {
    if Wrap64(|xs| - size) > 0 then Err(NullPointer) else Ok(None)
  }

  /**
   * It never yields a value: for a positive `size` and fewer than 2^63
   * values it throws whenever `skipLast` should yield something, and ends
   * otherwise.
   */
  lemma SkipLastAsWrittenYieldsNothing(size: int, xs: seq<Value>)
    requires IsInt64(size) && size > 0
    requires |xs| < 0x8000_0000_0000_0000
    ensures SkipLastAsWritten(size, xs).Err? <==> DropLast(size, xs) != []
  {
  }

  /**
   * For a negative `size` the `long` difference can wrap: with
   * `Long.MIN_VALUE` on an empty query, `0 - size` wraps back to
   * `Long.MIN_VALUE`, so the first `get()` ends instead of throwing, while
   * one value more than that makes it throw.
   */
  lemma SkipLastAsWrittenLongWrap()
    ensures SkipLastAsWritten(-0x8000_0000_0000_0000, []) == Ok(None)
    ensures SkipLastAsWritten(-0x7FFF_FFFF_FFFF_FFFF, []) == Err(NullPointer)
  {
  }

  /** On `[1, 2]` with `size` 1 it throws, where `skipLast(1)` evidently means `[1]`. */
  lemma SkipLastAsWrittenThrows()
    ensures SkipLastAsWritten(1, [Int(1), Int(2)]) == Err(NullPointer)
    ensures DropLast(1, [Int(1), Int(2)]) == [Int(1)]
  {
  }

  // ---------------------------------------------------------------------
  // reverse, as written

  /**
   * `toList()` of the `Linq` that the older `reverse()` returns, with
   * `depth` stack frames left.  The unqualified `toList()` inside the
   * iterator's `get()` binds to that `Linq` itself rather than to the one
   * being reversed, so iterating it calls `toList()` on it again: every
   * level runs the first `get()` of a fresh iterator, which starts the next
   * level, until the stack runs out.
   */
  function ReversedToList(depth: nat): (r: Result<seq<Value>>)
    ensures r == Err(StackOverflow)
  {
    if depth == 0 then Err(StackOverflow)
    else
      // Every level fails, so the `Ok` arm is never taken; it is the
      // reversal the recursion would answer if a level ever returned.
      match ReversedToList(depth - 1)
      case Ok(list) => Ok(Reverse(list))
      case Err(e) => Err(e)
  }

  // ---------------------------------------------------------------------
  // toLookup, as written

  /**
   * The loop of the older `toLookup(key)`: it looks up the list of each
   * value's key and creates and fills one when missing, but never puts it
   * into the map, which stays empty.
   */
  function LookupStep(key: Value -> Value): (step: (LinkedMap<Value, seq<Value>>, Value) -> LinkedMap<Value, seq<Value>>)
  {
    (m: LinkedMap<Value, seq<Value>>, v: Value) =>
      var list := if key(v) in m.entries then m.entries[key(v)] else [];
      var _ := list + [v];
      m
  }

  /** The map it returns is empty whatever the input. */
  lemma {:induction false} LookupStaysEmpty(key: Value -> Value, xs: seq<Value>)
    ensures FoldLeft(LookupStep(key), EmptyLinkedMap(), xs) == EmptyLinkedMap()
    decreases |xs|
  {
    if xs != [] {
      LookupStaysEmpty(key, xs[..|xs| - 1]);
    }
  }

  /**
   * On any one-value input it returns an empty map, where `toLookup`
   * evidently means a map from the value's key to a list of that value.
   */
  lemma LookupAsWrittenLosesValues(key: Value -> Value, v: Value)
    ensures FoldLeft(LookupStep(key), EmptyLinkedMap(), [v]).keys == []
    ensures FoldLeft(GroupInto(key), EmptyLinkedMap(), [v]).keys == [key(v)]
    ensures FoldLeft(GroupInto(key), EmptyLinkedMap(), [v]).entries == map[key(v) := [v]]
  {
    LookupStaysEmpty(key, [v]);
    FoldLeftSnoc(GroupInto(key), EmptyLinkedMap(), [], v);
    assert [] + [v] == [v];
  }
}
