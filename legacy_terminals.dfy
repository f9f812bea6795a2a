/**
 * The terminal operations of the older revision.  Each opens a fresh
 * iterator of its query (`iterator()` or `for (T v : this)`) and pulls from
 * it with `hasNext()` and `next()`; none of them changes anything a caller
 * can see, so each is a method over the query's values.
 *
 * Where the current revision throws on a missing value, these answer a
 * `Nullable` (`Holder`) that is none.  Each is proved against the same
 * reference definitions (module Reductions and others) as the current
 * revision's terminal operations, which makes the two comparable.
 */
module LegacyTerminals {
  import opened Values
  import opened Sequences
  import opened SetOps
  import opened Buffers
  import opened Sorting
  import opened Reductions
  import opened LegacyIteration
  import opened LegacySpecs

  /** The `Nullable` answer for a result the current revision would throw on. */
  function Nullable<T>(r: Result<T>): (h: Holder<T>)
    ensures h.Exists() <==> r.Ok?
    ensures h.Exists() ==> h.value == r.value
  {
    if r.Ok? then Of(r.value) else None
  }

  // ---------------------------------------------------------------------
  // aggregate, sum, average, count

  /** `aggregate(func)`: the first value combined with each later one, or none. */
  method Aggregate(q: Query, f: (Value, Value) -> Value) returns (r: Holder<Value>)
    ensures r == Nullable(Aggregated(f, Elements(q)))
  {
    var it := Iterator(q);
    var first := it.Advance();
    if !first.Exists() {
      return None;
    }
    var l := it.Drain(f, first.value);
    return Of(l);
  }

  /** `aggregate(seed, func)`. */
  method AggregateSeeded(q: Query, seed: Value, f: (Value, Value) -> Value) returns (r: Value)
    ensures Ok(r) == Aggregated(f, [seed] + Elements(q))
  {
    var it := Iterator(q);
    r := it.Drain(f, seed);
    assert it.Contents[0..] == it.Contents;
    AggregatedSeeded(f, seed, it.Contents);
  }

  /** `sum(func)`: `s += func.apply(v)` on a `long`. */
  method Sum(q: Query, f: Value -> int) returns (r: int)
    ensures r == Wrap64(Reductions.Sum(f, Elements(q)))
  {
    r := ForEach(q, LongAdd(f), 0);
    LongSumIsWrappedSum(f, Elements(q));
  }

  /** `count()`. */
  method Count(q: Query) returns (c: nat)
    ensures c == |Elements(q)|
  {
    var it := Iterator(q);
    c := 0;
    while true
      invariant it.Idle() && it.Contents == Elements(q) && c == it.produced
      decreases |it.Contents| - it.produced
    {
      var h := it.Advance();
      if !h.Exists() {
        return;
      }
      c := c + 1;
    }
  }

  /**
   * `average(func)`: the `long` sum of `select(func).aggregate(0L, +)`, then
   * `count()` on a second pass, then `sum / count`; none when there is no
   * value.
   */
  method Average(q: Query, f: Value -> int) returns (r: Holder<int>)
    ensures r == Nullable(Reductions.Average(f, Elements(q)))
  {
    var sum := ForEach(q, LongAdd(f), 0);
    LongSumIsWrappedSum(f, Elements(q));
    var count := Count(q);
    if count == 0 {
      return None;
    }
    return Of(JavaDiv(sum, count));
  }

  // ---------------------------------------------------------------------
  // all, any, contains

  /** `all(pred)`: stops at the first value that fails. */
  method All(q: Query, p: Value -> bool) returns (r: bool)
    ensures r <==> forall i :: 0 <= i < |Elements(q)| ==> p(Elements(q)[i])
  {
    var it := Iterator(q);
    while true
      invariant it.Idle() && it.Contents == Elements(q)
      invariant forall i :: 0 <= i < it.produced ==> p(it.Contents[i])
      decreases |it.Contents| - it.produced
    {
      var h := it.Advance();
      if !h.Exists() {
        return true;
      }
      if !p(h.value) {
        return false;
      }
    }
  }

  /** `any(pred)`: stops at the first value that passes. */
  method Any(q: Query, p: Value -> bool) returns (r: bool)
    ensures r <==> exists i :: 0 <= i < |Elements(q)| && p(Elements(q)[i])
  {
    var it := Iterator(q);
    while true
      invariant it.Idle() && it.Contents == Elements(q)
      invariant forall i :: 0 <= i < it.produced ==> !p(it.Contents[i])
      decreases |it.Contents| - it.produced
    {
      var h := it.Advance();
      if !h.Exists() {
        return false;
      }
      if p(h.value) {
        return true;
      }
    }
  }

  /**
   * `contains(target)`: `v.equals(target)` on each value, which throws
   * `NullPointerException` at a `null` value (see
   * `LegacySpecs.ContainsAsWrittenMeaning`).
   */
  method Contains(q: Query, target: Value) returns (r: Result<bool>)
    ensures r == ContainsAsWritten(Elements(q), target)
  {
    var it := Iterator(q);
    while true
      invariant it.Idle() && it.Contents == Elements(q) && it.produced <= |it.Contents|
      invariant ContainsAsWritten(it.Contents[it.produced..], target) == ContainsAsWritten(Elements(q), target)
      decreases |it.Contents| - it.produced
    {
      ghost var k := it.produced;
      var h := it.Advance();
      if !h.Exists() {
        return Ok(false);
      }
      assert it.Contents[k..][1..] == it.Contents[k + 1..];
      if h.value == Null {
        return Err(NullPointer);
      }
      if h.value == target {
        return Ok(true);
      }
    }
  }

  // ---------------------------------------------------------------------
  // elementAt, first, last, single

  /** `elementAt(index)`: counts values until it reaches `index`; a negative index never matches. */
  method ElementAt(q: Query, index: int) returns (r: Holder<Value>)
    ensures r == if 0 <= index < |Elements(q)| then Of(Elements(q)[index]) else None
  {
    var it := Iterator(q);
    var c := 0;
    while true
      invariant it.Idle() && it.Contents == Elements(q) && c == it.produced && (index < 0 || c <= index)
      decreases |it.Contents| - it.produced
    {
      var h := it.Advance();
      if !h.Exists() {
        return None;
      }
      if c == index {
        return Of(h.value);
      }
      c := c + 1;
    }
  }

  /** `elementAt(index, defaultValue)`. */
  method ElementAtOrDefault(q: Query, index: int, default: Value) returns (r: Value)
    ensures r == if 0 <= index < |Elements(q)| then Elements(q)[index] else default
  {
    var it := Iterator(q);
    var c := 0;
    while true
      invariant it.Idle() && it.Contents == Elements(q) && c == it.produced && (index < 0 || c <= index)
      decreases |it.Contents| - it.produced
    {
      var h := it.Advance();
      if !h.Exists() {
        return default;
      }
      if c == index {
        return h.value;
      }
      c := c + 1;
    }
  }

  /** `first()`. */
  method First(q: Query) returns (r: Holder<Value>)
    ensures r == if Elements(q) == [] then None else Of(Elements(q)[0])
  {
    var it := Iterator(q);
    r := it.Advance();
  }

  /** `firstOrDefault(defaultValue)`. */
  method FirstOrDefault(q: Query, default: Value) returns (r: Value)
    ensures r == if Elements(q) == [] then default else Elements(q)[0]
  {
    var it := Iterator(q);
    var h := it.Advance();
    if h.Exists() {
      return h.value;
    } else {
      return default;
    }
  }

  /** `last()`: `do { value = it.next(); } while (it.hasNext())` once there is a first value. */
  method Last(q: Query) returns (r: Holder<Value>)
    ensures r == if Elements(q) == [] then None else Of(Elements(q)[|Elements(q)| - 1])
  {
    var it := Iterator(q);
    var h := it.Advance();
    if !h.Exists() {
      return None;
    }
    var value := it.Drain(Latest(), h.value);
    LatestIsLast(h.value, it.Contents[1..]);
    assert [it.Contents[0]] + it.Contents[1..] == it.Contents;
    return Of(value);
  }

  /** `single()`: `IllegalStateException` for no value and for a second one. */
  method Single(q: Query) returns (r: Result<Value>)
    ensures r == if |Elements(q)| == 1 then Ok(Elements(q)[0]) else Err(IllegalState)
  {
    var it := Iterator(q);
    var v := it.Advance();
    if !v.Exists() {
      return Err(IllegalState);
    }
    var more := it.HasNext();
    if more {
      return Err(IllegalState);
    }
    return Ok(v.value);
  }

  /** `single(defaultValue)`: the default for no value, `IllegalStateException` for a second one. */
  method SingleOrDefault(q: Query, default: Value) returns (r: Result<Value>)
    ensures r == if Elements(q) == [] then Ok(default)
                 else if |Elements(q)| == 1 then Ok(Elements(q)[0])
                 else Err(IllegalState)
  {
    var it := Iterator(q);
    var v := it.Advance();
    if !v.Exists() {
      return Ok(default);
    }
    var more := it.HasNext();
    if more {
      return Err(IllegalState);
    }
    return Ok(v.value);
  }

  // ---------------------------------------------------------------------
  // max, min, maxBy, minBy

  /** `max(cmp)`: replaces the maximum when `cmp.compare(m, v) < 0`, so it keeps the earliest greatest value. */
  method Max(q: Query, cmp: (Value, Value) -> int) returns (r: Holder<Value>)
    ensures r == Nullable(Aggregated(MaxStep(cmp), Elements(q)))
    ensures IsComparator(cmp) && r.Exists() ==>
      && r.value in Elements(q)
      && (forall j :: 0 <= j < |Elements(q)| ==> cmp(Elements(q)[j], r.value) <= 0)
      && (forall j :: 0 <= j < IndexOf(Elements(q), r.value) ==> cmp(Elements(q)[j], r.value) < 0)
  {
    var it := Iterator(q);
    var first := it.Advance();
    if !first.Exists() {
      return None;
    }
    var m := it.Drain(MaxStep(cmp), first.value);
    r := Of(m);
    if IsComparator(cmp) {
      MaxIsEarliestGreatest(cmp, it.Contents);
    }
  }

  /**
   * `min(cmp)`: replaces the minimum when `cmp.compare(v, m) < 0`, the step
   * of `max` under the swapped comparator; under a comparator that keeps
   * its contract it is the current revision's `min`, the earliest least
   * value.
   */
  method Min(q: Query, cmp: (Value, Value) -> int) returns (r: Holder<Value>)
    ensures r == Nullable(Aggregated(MaxStep(Reversed(cmp)), Elements(q)))
    ensures IsComparator(cmp) ==> r == Nullable(Aggregated(MinStep(cmp), Elements(q)))
    ensures IsComparator(cmp) && r.Exists() ==>
      && r.value in Elements(q)
      && (forall j :: 0 <= j < |Elements(q)| ==> cmp(r.value, Elements(q)[j]) <= 0)
      && (forall j :: 0 <= j < IndexOf(Elements(q), r.value) ==> cmp(r.value, Elements(q)[j]) < 0)
  {
    var it := Iterator(q);
    var first := it.Advance();
    if !first.Exists() {
      return None;
    }
    var m := it.Drain(MaxStep(Reversed(cmp)), first.value);
    r := Of(m);
    if IsComparator(cmp) {
      MinIsReversedMax(cmp, it.Contents[0], it.Contents[1..]);
      ReversedIsComparator(cmp);
      MaxIsEarliestGreatest(Reversed(cmp), it.Contents);
    }
  }

  /** `maxBy(cmp, keySelector)`: keeps the key of the current maximum beside it. */
  method MaxBy<K(!new)>(q: Query, cmp: (K, K) -> int, keySelector: Value -> K) returns (r: Holder<Value>)
    ensures r == Nullable(Aggregated(MaxStep(By(keySelector, cmp)), Elements(q)))
    ensures IsComparator(cmp) && r.Exists() ==>
      && r.value in Elements(q)
      && (forall j :: 0 <= j < |Elements(q)| ==> cmp(keySelector(Elements(q)[j]), keySelector(r.value)) <= 0)
      && (forall j :: 0 <= j < IndexOf(Elements(q), r.value) ==>
            cmp(keySelector(Elements(q)[j]), keySelector(r.value)) < 0)
  {
    var it := Iterator(q);
    var first := it.Advance();
    if !first.Exists() {
      return None;
    }
    var best := it.Drain(MaxByStep(keySelector, cmp), (first.value, keySelector(first.value)));
    assert best.0 == FoldLeft(MaxStep(By(keySelector, cmp)), first.value, it.Contents[1..]) by {
      MaxByTracksMax(keySelector, cmp, first.value, it.Contents[1..]);
    }
    r := Of(best.0);
    if IsComparator(cmp) {
      ByIsComparator(keySelector, cmp);
      MaxIsEarliestGreatest(By(keySelector, cmp), it.Contents);
    }
  }

  /**
   * `minBy(cmp, keySelector)`: replaces the minimum when
   * `cmp.compare(k, mk) < 0`, the step of `maxBy` under the swapped key
   * comparator; it keeps the earliest value with the least key.
   */
  method MinBy<K(!new)>(q: Query, cmp: (K, K) -> int, keySelector: Value -> K) returns (r: Holder<Value>)
    ensures r == Nullable(Aggregated(MaxStep(By(keySelector, Reversed(cmp))), Elements(q)))
    ensures IsComparator(cmp) && r.Exists() ==>
      && r.value in Elements(q)
      && (forall j :: 0 <= j < |Elements(q)| ==> cmp(keySelector(r.value), keySelector(Elements(q)[j])) <= 0)
      && (forall j :: 0 <= j < IndexOf(Elements(q), r.value) ==>
            cmp(keySelector(r.value), keySelector(Elements(q)[j])) < 0)
  {
    var it := Iterator(q);
    var first := it.Advance();
    if !first.Exists() {
      return None;
    }
    var best := it.Drain(MaxByStep(keySelector, Reversed(cmp)), (first.value, keySelector(first.value)));
    assert best.0 == FoldLeft(MaxStep(By(keySelector, Reversed(cmp))), first.value, it.Contents[1..]) by {
      MaxByTracksMax(keySelector, Reversed(cmp), first.value, it.Contents[1..]);
    }
    r := Of(best.0);
    if IsComparator(cmp) {
      assert IsComparator(By(keySelector, Reversed(cmp))) by {
        ReversedIsComparator(cmp);
        ByIsComparator(keySelector, Reversed(cmp));
      }
      MaxIsEarliestGreatest(By(keySelector, Reversed(cmp)), it.Contents);
    }
  }

  // ---------------------------------------------------------------------
  // sequenceEqual

  /**
   * `sequenceEqual(rightLinq)`: compares values while both iterators have
   * one, then whether both have run out together.
   */
  method SequenceEqual(q: Query, rightLinq: Query) returns (r: bool)
    ensures r <==> Elements(q) == Elements(rightLinq)
  {
    var left := Iterator(q);
    var right := Iterator(rightLinq);
    while true
      invariant left.Valid() && right.Valid() && left != right
      invariant left.Contents == Elements(q) && right.Contents == Elements(rightLinq)
      invariant left.Position() == right.Position()
      invariant forall i :: 0 <= i < left.Position() ==> left.Contents[i] == right.Contents[i]
      decreases |left.Contents| - left.Position()
    {
      var done;
      done, r := Turn(left, right);
      if done {
        return;
      }
    }
  }

  /**
   * One turn of `sequenceEqual`'s loop at position `p` of both iterators:
   * the next pair of values, or the answer once either iterator has run
   * out or a pair differs.
   */
  method Turn(left: Iter, right: Iter) returns (done: bool, r: bool)
    requires left.Valid() && right.Valid() && left != right
    requires left.Position() == right.Position()
    modifies left, right
    ensures left.Valid() && right.Valid()
    ensures !done ==>
      && left.Position() == right.Position() == old(left.Position()) + 1
      && left.Contents[old(left.Position())] == right.Contents[old(left.Position())]
    ensures done ==>
      var p := old(left.Position());
      && (r <==> p == |left.Contents| && p == |right.Contents|)
      && (!r && p < |left.Contents| && p < |right.Contents| ==> left.Contents[p] != right.Contents[p])
  {
    var both := left.HasNext();
    if both {
      both := right.HasNext();
    }
    if !both {
      var l := left.HasNext();
      var rh := right.HasNext();
      return true, l == rh;
    }
    var a := left.Next();
    var b := right.Next();
    if a.value != b.value {
      return true, false;
    }
    return false, false;
  }

  // ---------------------------------------------------------------------
  // the collecting operations

  /**
   * `toArray(a)`: `ArrayList.toArray(a)` on the collected values — into
   * `a` when it is long enough, with `null` after the last value if there
   * is room, else into a new array of the exact size.
   */
  method ToArray(q: Query, a: array<Value>) returns (r: array<Value>)
    modifies a
    ensures r.Length >= |Elements(q)| && r[..|Elements(q)|] == Elements(q)
    ensures a.Length >= |Elements(q)| ==>
      && r == a
      && (a.Length > |Elements(q)| ==> a[|Elements(q)|] == Null)
      && forall i :: |Elements(q)| < i < a.Length ==> a[i] == old(a[i])
    ensures a.Length < |Elements(q)| ==> fresh(r) && r.Length == |Elements(q)| && unchanged(a)
  {
    var list := ToList(q);
    if a.Length >= |list| {
      forall i | 0 <= i < |list| {
        a[i] := list[i];
      }
      if a.Length > |list| {
        a[|list|] := Null;
      }
      r := a;
    } else {
      r := new Value[|list|](i requires 0 <= i < |list| => list[i]);
    }
  }

  /** `toHashSet()`: a `LinkedHashSet`, each value once in first-seen order. */
  method ToHashSet(q: Query) returns (s: seq<Value>)
    ensures s == Distinct(Elements(q))
  {
    s := ForEach(q, AddToLinkedSet, []);
    LinkedSetIsDistinct(Elements(q));
  }

  /**
   * `toDictionary(keySelector)`: `put` into a `LinkedHashMap`, so it never
   * throws; each key is in first-seen order and maps to the LAST value
   * with that key.
   */
  method ToDictionary<K(!new)>(q: Query, keySelector: Value -> K) returns (m: LinkedMap<K, Value>)
    ensures m.Valid() && m.keys == Distinct(Map(keySelector, Elements(q)))
    ensures forall k :: k in m.entries ==>
      k in Map(keySelector, Elements(q)) && m.entries[k] == Elements(q)[LastIndexWithKey(keySelector, Elements(q), k)]
  {
    m := ForEach(q, PutLastByKey(keySelector), EmptyLinkedMap());
    PutKeysFirstSeen(keySelector, Elements(q));
    forall k | k in m.entries
      ensures k in Map(keySelector, Elements(q))
      ensures m.entries[k] == Elements(q)[LastIndexWithKey(keySelector, Elements(q), k)]
    {
      ToDictionaryKeepsLast(keySelector, Elements(q), k);
    }
  }

  /**
   * `toLookup(keySelector)`, as written: each value goes into a list that
   * is never put into the map, so the map stays empty (see
   * `LegacySpecs.LookupAsWrittenLosesValues`).
   */
  method ToLookup(q: Query, keySelector: Value -> Value) returns (m: LinkedMap<Value, seq<Value>>)
    ensures m == EmptyLinkedMap()
  {
    m := ForEach(q, LookupStep(keySelector), EmptyLinkedMap());
    LookupStaysEmpty(keySelector, Elements(q));
  }
}
