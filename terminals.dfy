/**
 * The terminal operations of `Linq`: each opens a fetch, pulls from it with
 * `next()` until it has its answer, and closes it on every path, including
 * the ones that throw (the try-with-resources around every body).
 *
 * Each method takes the fetch `fetch()` would have built, still unused, and
 * is proved against the reference definition in `Reductions`, `SetOps`,
 * `Buffers` or `Sequences` of what it computes from the values the fetch
 * yields.  The operations that may stop early also state how far they
 * pulled.
 */
module Terminals {
  import opened Values
  import opened Sequences
  import opened SetOps
  import opened Buffers
  import opened Sorting
  import opened Reductions
  import opened Fetching

  /** The fetch is closed, and its `internalClose` ran exactly once. */
  ghost predicate Released(fetch: Fetch)
    reads fetch
  {
    fetch.Valid() && fetch.closed && fetch.closeRuns == 1
  }

  // ---------------------------------------------------------------------
  // aggregate, sum, average, count

  /** `aggregate(func)`. */
  method Aggregate(fetch: Fetch, f: (Value, Value) -> Value) returns (r: Result<Value>)
    requires fetch.Pristine()
    modifies fetch
    ensures Released(fetch)
    ensures r == Aggregated(f, fetch.Contents)
  {
    var first := fetch.Next();
    if !first.value.Exists() {
      return Err(NoSuchElement);
    }
    var result := fetch.Drain(f, first.value.value);
    return Ok(result);
  }

  /** `aggregate(seed, func)`. */
  method AggregateSeeded(fetch: Fetch, seed: Value, f: (Value, Value) -> Value) returns (r: Value)
    requires fetch.Pristine()
    modifies fetch
    ensures Released(fetch)
    ensures Ok(r) == Aggregated(f, [seed] + fetch.Contents)
  {
    r := fetch.Drain(f, seed);
    assert fetch.Contents[0..] == fetch.Contents;
    AggregatedSeeded(f, seed, fetch.Contents);
  }

  /** `sum(func)`: the sum on a Java `long`. */
  method Sum(fetch: Fetch, f: Value -> int) returns (r: int)
    requires fetch.Pristine()
    modifies fetch
    ensures Released(fetch)
    ensures r == Wrap64(Reductions.Sum(f, fetch.Contents))
  {
    r := fetch.Drain(LongAdd(f), 0);
    assert fetch.Contents[0..] == fetch.Contents;
    LongSumIsWrappedSum(f, fetch.Contents);
  }

  /** `average(func)`: `long` sum and count, then `sum / count`, which throws on no values. */
  method Average(fetch: Fetch, f: Value -> int) returns (r: Result<int>)
    requires fetch.Pristine()
    modifies fetch
    ensures Released(fetch)
    ensures r == Reductions.Average(f, fetch.Contents)
  {
    var sum, count := 0, 0;
    while true
      invariant fetch.Open() && count == fetch.produced
      invariant sum == Wrap64(Reductions.Sum(f, fetch.Contents[..fetch.produced]))
      decreases |fetch.Contents| - fetch.produced
    {
      ghost var k := fetch.produced;
      var current := fetch.Next();
      if !current.value.Exists() {
        assert fetch.Contents[..k] == fetch.Contents;
        if count == 0 {
          return Err(Arithmetic);
        }
        return Ok(JavaDiv(sum, count));
      }
      assert fetch.Contents[..k + 1][..k] == fetch.Contents[..k];
      Wrap64Absorbs(Reductions.Sum(f, fetch.Contents[..k]), f(current.value.value));
      sum, count := Wrap64(sum + f(current.value.value)), count + 1;
    }
  }

  /** `count()`. */
  method Count(fetch: Fetch) returns (r: nat)
    requires fetch.Pristine()
    modifies fetch
    ensures Released(fetch)
    ensures r == |fetch.Contents|
  {
    r := 0;
    while true
      invariant fetch.Open() && r == fetch.produced
      decreases |fetch.Contents| - fetch.produced
    {
      var current := fetch.Next();
      if !current.value.Exists() {
        return;
      }
      r := r + 1;
    }
  }

  // ---------------------------------------------------------------------
  // all, any, contains

  /** `all(predicate)`: stops at the first value that fails. */
  method All(fetch: Fetch, p: Value -> bool) returns (r: bool)
    requires fetch.Pristine()
    modifies fetch
    ensures Released(fetch)
    ensures r <==> forall i :: 0 <= i < |fetch.Contents| ==> p(fetch.Contents[i])
    ensures !r ==>
      && 0 < fetch.produced && !p(fetch.Contents[fetch.produced - 1])
      && forall i :: 0 <= i < fetch.produced - 1 ==> p(fetch.Contents[i])
  {
    while true
      invariant fetch.Open()
      invariant forall i :: 0 <= i < fetch.produced ==> p(fetch.Contents[i])
      decreases |fetch.Contents| - fetch.produced
    {
      var current := fetch.Next();
      if !current.value.Exists() {
        return true;
      }
      if !p(current.value.value) {
        fetch.Close();
        return false;
      }
    }
  }

  /** `any()`: pulls one value at most. */
  method Any(fetch: Fetch) returns (r: bool)
    requires fetch.Pristine()
    modifies fetch
    ensures Released(fetch)
    ensures r <==> fetch.Contents != []
    ensures fetch.produced == if r then 1 else 0
  {
    var current := fetch.Next();
    fetch.Close();
    r := current.value.Exists();
  }

  /** `any(predicate)`: stops at the first value that passes. */
  method AnyMatch(fetch: Fetch, p: Value -> bool) returns (r: bool)
    requires fetch.Pristine()
    modifies fetch
    ensures Released(fetch)
    ensures r <==> exists i :: 0 <= i < |fetch.Contents| && p(fetch.Contents[i])
    ensures r ==>
      && 0 < fetch.produced && p(fetch.Contents[fetch.produced - 1])
      && forall i :: 0 <= i < fetch.produced - 1 ==> !p(fetch.Contents[i])
  {
    while true
      invariant fetch.Open()
      invariant forall i :: 0 <= i < fetch.produced ==> !p(fetch.Contents[i])
      decreases |fetch.Contents| - fetch.produced
    {
      var current := fetch.Next();
      if !current.value.Exists() {
        return false;
      }
      if p(current.value.value) {
        fetch.Close();
        return true;
      }
    }
  }

  /** `contains(target)`: `Objects.equals`, stopping at the first equal value. */
  method Contains(fetch: Fetch, target: Value) returns (r: bool)
    requires fetch.Pristine()
    modifies fetch
    ensures Released(fetch)
    ensures r <==> target in fetch.Contents
    ensures r ==> fetch.produced == IndexOf(fetch.Contents, target) + 1
  {
    while true
      invariant fetch.Open()
      invariant forall i :: 0 <= i < fetch.produced ==> fetch.Contents[i] != target
      decreases |fetch.Contents| - fetch.produced
    {
      var current := fetch.Next();
      if !current.value.Exists() {
        return false;
      }
      if target == current.value.value {
        fetch.Close();
        return true;
      }
    }
  }

  // ---------------------------------------------------------------------
  // elementAt, first, last, single

  /** `elementAt(index)`: counts values until it reaches `index`; a negative index never matches. */
  method ElementAt(fetch: Fetch, index: int) returns (r: Result<Value>)
    requires fetch.Pristine()
    modifies fetch
    ensures Released(fetch)
    ensures r == if 0 <= index < |fetch.Contents| then Ok(fetch.Contents[index]) else Err(IndexOutOfBounds)
    ensures fetch.produced == if 0 <= index < |fetch.Contents| then index + 1 else |fetch.Contents|
  {
    var count := 0;
    while true
      invariant fetch.Open() && count == fetch.produced && (index < 0 || count <= index)
      decreases |fetch.Contents| - fetch.produced
    {
      var current := fetch.Next();
      if !current.value.Exists() {
        return Err(IndexOutOfBounds);
      }
      if count == index {
        fetch.Close();
        return Ok(current.value.value);
      }
      count := count + 1;
    }
  }

  /** `elementAtOrDefault(index, defaultValue)`. */
  method ElementAtOrDefault(fetch: Fetch, index: int, default: Value) returns (r: Value)
    requires fetch.Pristine()
    modifies fetch
    ensures Released(fetch)
    ensures r == if 0 <= index < |fetch.Contents| then fetch.Contents[index] else default
    ensures fetch.produced == if 0 <= index < |fetch.Contents| then index + 1 else |fetch.Contents|
  {
    var count := 0;
    while true
      invariant fetch.Open() && count == fetch.produced && (index < 0 || count <= index)
      decreases |fetch.Contents| - fetch.produced
    {
      var current := fetch.Next();
      if !current.value.Exists() {
        return default;
      }
      if count == index {
        fetch.Close();
        return current.value.value;
      }
      count := count + 1;
    }
  }

  /** `first()`: pulls one value at most. */
  method First(fetch: Fetch) returns (r: Result<Value>)
    requires fetch.Pristine()
    modifies fetch
    ensures Released(fetch)
    ensures r == if fetch.Contents == [] then Err(NoSuchElement) else Ok(fetch.Contents[0])
    ensures fetch.produced == if fetch.Contents == [] then 0 else 1
  {
    var first := fetch.Next();
    if !first.value.Exists() {
      return Err(NoSuchElement);
    }
    fetch.Close();
    return Ok(first.value.value);
  }

  /** `firstOrDefault(defaultValue)`. */
  method FirstOrDefault(fetch: Fetch, default: Value) returns (r: Value)
    requires fetch.Pristine()
    modifies fetch
    ensures Released(fetch)
    ensures r == if fetch.Contents == [] then default else fetch.Contents[0]
    ensures fetch.produced == if fetch.Contents == [] then 0 else 1
  {
    var first := fetch.Next();
    if first.value.Exists() {
      fetch.Close();
      return first.value.value;
    } else {
      return default;
    }
  }

  /** `last()`. */
  method Last(fetch: Fetch) returns (r: Result<Value>)
    requires fetch.Pristine()
    modifies fetch
    ensures Released(fetch)
    ensures r == if fetch.Contents == [] then Err(NoSuchElement) else Ok(fetch.Contents[|fetch.Contents| - 1])
  {
    var last := fetch.Next();
    if !last.value.Exists() {
      return Err(NoSuchElement);
    }
    var v := fetch.Drain(Latest(), last.value.value);
    LatestIsLast(last.value.value, fetch.Contents[1..]);
    assert [fetch.Contents[0]] + fetch.Contents[1..] == fetch.Contents;
    return Ok(v);
  }

  /** `lastOrDefault(defaultValue)`. */
  method LastOrDefault(fetch: Fetch, default: Value) returns (r: Value)
    requires fetch.Pristine()
    modifies fetch
    ensures Released(fetch)
    ensures r == if fetch.Contents == [] then default else fetch.Contents[|fetch.Contents| - 1]
  {
    var last := fetch.Next();
    if last.value.Exists() {
      r := fetch.Drain(Latest(), last.value.value);
      LatestIsLast(last.value.value, fetch.Contents[1..]);
      assert [fetch.Contents[0]] + fetch.Contents[1..] == fetch.Contents;
    } else {
      r := default;
    }
  }

  /** `single()`: `IllegalStateException` for no value and for a second one; pulls two values at most. */
  method Single(fetch: Fetch) returns (r: Result<Value>)
    requires fetch.Pristine()
    modifies fetch
    ensures Released(fetch)
    ensures r == if |fetch.Contents| == 1 then Ok(fetch.Contents[0]) else Err(IllegalState)
    ensures fetch.produced == if |fetch.Contents| < 2 then |fetch.Contents| else 2
  {
    var current := fetch.Next();
    if !current.value.Exists() {
      return Err(IllegalState);
    }
    var second := fetch.Next();
    if second.value.Exists() {
      fetch.Close();
      return Err(IllegalState);
    }
    return Ok(current.value.value);
  }

  /** `singleOrDefault(defaultValue)`: the default for no value, `IllegalStateException` for a second one. */
  method SingleOrDefault(fetch: Fetch, default: Value) returns (r: Result<Value>)
    requires fetch.Pristine()
    modifies fetch
    ensures Released(fetch)
    ensures r == if fetch.Contents == [] then Ok(default)
                 else if |fetch.Contents| == 1 then Ok(fetch.Contents[0])
                 else Err(IllegalState)
    ensures fetch.produced == if |fetch.Contents| < 2 then |fetch.Contents| else 2
  {
    var current := fetch.Next();
    if !current.value.Exists() {
      return Ok(default);
    }
    var second := fetch.Next();
    if second.value.Exists() {
      fetch.Close();
      return Err(IllegalState);
    }
    return Ok(current.value.value);
  }

  // ---------------------------------------------------------------------
  // max, min, maxBy, minBy

  /** `max(comparator)`: the earliest of the greatest values. */
  method Max(fetch: Fetch, cmp: (Value, Value) -> int) returns (r: Result<Value>)
    requires fetch.Pristine()
    modifies fetch
    ensures Released(fetch)
    ensures r == Aggregated(MaxStep(cmp), fetch.Contents)
    ensures IsComparator(cmp) && r.Ok? ==>
      && r.value in fetch.Contents
      && (forall j :: 0 <= j < |fetch.Contents| ==> cmp(fetch.Contents[j], r.value) <= 0)
      && (forall j :: 0 <= j < IndexOf(fetch.Contents, r.value) ==> cmp(fetch.Contents[j], r.value) < 0)
  {
    var max := fetch.Next();
    if !max.value.Exists() {
      return Err(NoSuchElement);
    }
    var result := fetch.Drain(MaxStep(cmp), max.value.value);
    r := Ok(result);
    if IsComparator(cmp) {
      MaxIsEarliestGreatest(cmp, fetch.Contents);
    }
  }

  /** `min(comparator)`: the earliest of the least values. */
  method Min(fetch: Fetch, cmp: (Value, Value) -> int) returns (r: Result<Value>)
    requires fetch.Pristine()
    modifies fetch
    ensures Released(fetch)
    ensures r == Aggregated(MinStep(cmp), fetch.Contents)
    ensures IsComparator(cmp) && r.Ok? ==>
      && r.value in fetch.Contents
      && (forall j :: 0 <= j < |fetch.Contents| ==> cmp(r.value, fetch.Contents[j]) <= 0)
      && (forall j :: 0 <= j < IndexOf(fetch.Contents, r.value) ==> cmp(r.value, fetch.Contents[j]) < 0)
  {
    var min := fetch.Next();
    if !min.value.Exists() {
      return Err(NoSuchElement);
    }
    var result := fetch.Drain(MinStep(cmp), min.value.value);
    r := Ok(result);
    if IsComparator(cmp) {
      MinIsEarliestLeast(cmp, fetch.Contents);
    }
  }

  /** `maxBy(keyFactory, keyComparator)`: keeps the key of the current maximum beside it. */
  method MaxBy<K(!new)>(fetch: Fetch, key: Value -> K, keyCmp: (K, K) -> int) returns (r: Result<Value>)
    requires fetch.Pristine()
    modifies fetch
    ensures Released(fetch)
    ensures r == Aggregated(MaxStep(By(key, keyCmp)), fetch.Contents)
    ensures IsComparator(keyCmp) && r.Ok? ==>
      && r.value in fetch.Contents
      && (forall j :: 0 <= j < |fetch.Contents| ==> keyCmp(key(fetch.Contents[j]), key(r.value)) <= 0)
      && (forall j :: 0 <= j < IndexOf(fetch.Contents, r.value) ==> keyCmp(key(fetch.Contents[j]), key(r.value)) < 0)
  {
    var max := fetch.Next();
    if !max.value.Exists() {
      return Err(NoSuchElement);
    }
    var best := fetch.Drain(MaxByStep(key, keyCmp), (max.value.value, key(max.value.value)));
    MaxByTracksMax(key, keyCmp, max.value.value, fetch.Contents[1..]);
    r := Ok(best.0);
    if IsComparator(keyCmp) {
      ByIsComparator(key, keyCmp);
      MaxIsEarliestGreatest(By(key, keyCmp), fetch.Contents);
    }
  }

  /** `minBy(keyFactory, keyComparator)`. */
  method MinBy<K(!new)>(fetch: Fetch, key: Value -> K, keyCmp: (K, K) -> int) returns (r: Result<Value>)
    requires fetch.Pristine()
    modifies fetch
    ensures Released(fetch)
    ensures r == Aggregated(MinStep(By(key, keyCmp)), fetch.Contents)
    ensures IsComparator(keyCmp) && r.Ok? ==>
      && r.value in fetch.Contents
      && (forall j :: 0 <= j < |fetch.Contents| ==> keyCmp(key(r.value), key(fetch.Contents[j])) <= 0)
      && (forall j :: 0 <= j < IndexOf(fetch.Contents, r.value) ==> keyCmp(key(r.value), key(fetch.Contents[j])) < 0)
  {
    var min := fetch.Next();
    if !min.value.Exists() {
      return Err(NoSuchElement);
    }
    var best := fetch.Drain(MinByStep(key, keyCmp), (min.value.value, key(min.value.value)));
    MinByTracksMin(key, keyCmp, min.value.value, fetch.Contents[1..]);
    r := Ok(best.0);
    if IsComparator(keyCmp) {
      ByIsComparator(key, keyCmp);
      MinIsEarliestLeast(By(key, keyCmp), fetch.Contents);
    }
  }

  /** `maxBy(keyFactory)` on `Integer` keys, compared with `compareTo`. */
  method MaxByComparable(fetch: Fetch, key: Value -> int) returns (r: Result<Value>)
    requires fetch.Pristine()
    modifies fetch
    ensures Released(fetch)
    ensures r.Err? <==> fetch.Contents == []
    ensures r.Ok? ==>
      && r.value in fetch.Contents
      && (forall j :: 0 <= j < |fetch.Contents| ==> key(fetch.Contents[j]) <= key(r.value))
      && (forall j :: 0 <= j < IndexOf(fetch.Contents, r.value) ==> key(fetch.Contents[j]) < key(r.value))
  {
    r := MaxBy(fetch, key, CompareInts);
    if r.Ok? {
      ByIntsIsComparator(key);
      MaxIsEarliestGreatest(By(key, CompareInts), fetch.Contents);
    }
  }

  /** `minBy(keyFactory)` on `Integer` keys. */
  method MinByComparable(fetch: Fetch, key: Value -> int) returns (r: Result<Value>)
    requires fetch.Pristine()
    modifies fetch
    ensures Released(fetch)
    ensures r.Err? <==> fetch.Contents == []
    ensures r.Ok? ==>
      && r.value in fetch.Contents
      && (forall j :: 0 <= j < |fetch.Contents| ==> key(r.value) <= key(fetch.Contents[j]))
      && (forall j :: 0 <= j < IndexOf(fetch.Contents, r.value) ==> key(r.value) < key(fetch.Contents[j]))
  {
    r := MinBy(fetch, key, CompareInts);
    if r.Ok? {
      ByIntsIsComparator(key);
      MinIsEarliestLeast(By(key, CompareInts), fetch.Contents);
    }
  }

  // ---------------------------------------------------------------------
  // sequenceEqual

  /**
   * `sequenceEqual(right)`: pulls both in step and compares the holders, so
   * an exhausted side differs from one that still has values.
   */
  method SequenceEqual(left: Fetch, right: Fetch) returns (r: bool)
    requires left.Pristine() && right.Pristine() && left != right
    modifies left, right
    ensures Released(left) && Released(right)
    ensures r <==> left.Contents == right.Contents
  {
    while true
      invariant left.Open() && right.Open() && left.produced == right.produced
      invariant forall i :: 0 <= i < left.produced ==> left.Contents[i] == right.Contents[i]
      decreases |left.Contents| - left.produced
    {
      var l := left.Next();
      var rh := right.Next();
      if !l.value.Exists() && !rh.value.Exists() {
        return true;
      }
      if l.value != rh.value {
        left.Close();
        right.Close();
        return false;
      }
    }
  }

  // ---------------------------------------------------------------------
  // forEach and the collecting operations

  /** `forEach(consumer)`, with the consumer's effect as a state it steps on each value. */
  method ForEach<S>(fetch: Fetch, accept: (S, Value) -> S, state: S) returns (after: S)
    requires fetch.Pristine()
    modifies fetch
    ensures Released(fetch)
    ensures after == FoldLeft(accept, state, fetch.Contents)
  {
    after := fetch.Drain(accept, state);
    assert fetch.Contents[0..] == fetch.Contents;
  }

  /** `toList()`: every value in order. */
  method ToList(fetch: Fetch) returns (list: seq<Value>)
    requires fetch.Pristine()
    modifies fetch
    ensures Released(fetch)
    ensures list == fetch.Contents
  {
    list := fetch.Drain(Push, []);
    assert fetch.Contents[0..] == fetch.Contents;
    PushAll(fetch.Contents);
  }

  /**
   * `toArray(array)`: `ArrayList.toArray(array)` on the collected values —
   * into `array` when it is long enough, with `null` after the last value if
   * there is room, else into a new array of the exact size.
   */
  method ToArray(fetch: Fetch, a: array<Value>) returns (r: array<Value>)
    requires fetch.Pristine()
    modifies fetch, a
    ensures Released(fetch)
    ensures r.Length >= |fetch.Contents| && r[..|fetch.Contents|] == fetch.Contents
    ensures a.Length >= |fetch.Contents| ==>
      && r == a
      && (a.Length > |fetch.Contents| ==> a[|fetch.Contents|] == Null)
      && forall i :: |fetch.Contents| < i < a.Length ==> a[i] == old(a[i])
    ensures a.Length < |fetch.Contents| ==> fresh(r) && r.Length == |fetch.Contents| && unchanged(a)
  {
    var list := ToList(fetch);
    if a.Length >= |list| {
      forall i | 0 <= i < |list| {
        a[i] := list[i];
      }
      if a.Length > |list| {
        a[|list|] := Null;
      }
      r := a;
    } else {
      r := new Value[|list|](i requires 0 <= i < |list| => list[i]);
    }
  }

  /** `toHashSet()`: a `LinkedHashSet`, each value once in first-seen order. */
  method ToHashSet(fetch: Fetch) returns (s: seq<Value>)
    requires fetch.Pristine()
    modifies fetch
    ensures Released(fetch)
    ensures s == Distinct(fetch.Contents)
  {
    s := fetch.Drain(AddToLinkedSet, []);
    assert fetch.Contents[0..] == fetch.Contents;
    LinkedSetIsDistinct(fetch.Contents);
  }

  /** `toDictionary(keyFactory)`: throws at the first repeated key. */
  method ToDictionary<K(!new)>(fetch: Fetch, key: Value -> K) returns (r: Result<LinkedMap<K, Value>>)
    requires fetch.Pristine()
    modifies fetch
    ensures Released(fetch)
    ensures r == Dictionary(key, fetch.Contents)
  {
    var m := EmptyLinkedMap();
    assert fetch.Contents[..0] == [];
    while true
      invariant fetch.Open()
      invariant Dictionary(key, fetch.Contents[..fetch.produced]) == Ok(m)
      decreases |fetch.Contents| - fetch.produced
    {
      ghost var k := fetch.produced;
      var current := fetch.Next();
      if !current.value.Exists() {
        assert fetch.Contents[..k] == fetch.Contents;
        return Ok(m);
      }
      var v := current.value.value;
      DictionaryPrefix(key, fetch.Contents, k);
      if key(v) in m.entries {
        DictionaryFailsOnward(key, fetch.Contents, k + 1);
        fetch.Close();
        return Err(IllegalArgument);
      }
      m := m.Put(key(v), v);
    }
  }

  /** `toLookup(keyFactory)`: a `LinkedHashMap` from each key, in first-seen order, to its values in order. */
  method ToLookup<K(!new)>(fetch: Fetch, key: Value -> K) returns (m: LinkedMap<K, seq<Value>>)
    requires fetch.Pristine()
    modifies fetch
    ensures Released(fetch)
    ensures m.Valid() && m.keys == Distinct(Map(key, fetch.Contents))
    ensures forall k :: k in m.entries ==> m.entries[k] == WithKey(key, fetch.Contents, k)
  {
    m := fetch.Drain(GroupInto(key), EmptyLinkedMap());
    assert fetch.Contents[0..] == fetch.Contents;
    GroupIntoCollects(key, fetch.Contents);
  }
}
