/**
 * The buffering operators of the older revision: the iterators whose
 * `get()` first reads a whole query into a collection.
 *
 * `distinct`, `distinctBy`, `union`, `unionBy`, `groupBy` and `takeLast`
 * read their upstream (`for (T v : Linq.this)`, a fresh iterator drained by
 * `LegacyIteration.ForEach`) into a set, map or queue on the first `get()`
 * and then hand out that collection's iterator.  The Java field `it` is
 * modelled by `remaining`: `Unbuilt` while the field is `null`, then the
 * values the collection's iterator has still to hand out.
 *
 * `except`, `intersect`, their keyed forms, `join` and `groupJoin` open
 * the left iterator when they are created and read the right query into a
 * set or map on the first `get()`; then each `get()` walks the left
 * iterator to the next value that the set or map lets through.
 *
 * `skipLast` and `reverse` are modelled as written (module LegacySpecs).
 * As in module LegacyStages, `Get` is the iterator's `get()` and is not
 * run again after it answered none.
 */
module LegacyBuffered {
  import opened Values
  import opened Sequences
  import opened SetOps
  import opened Buffers
  import opened Operators
  import opened Fetching
  import opened LegacyIteration
  import opened LegacySpecs

  /** The iterator of `distinct()`: a `LinkedHashSet` of the upstream values. */
  class DistinctIterator {
    const linq: Query
    var remaining: Lazy<seq<Value>>
    ghost const Contents: seq<Value>
    ghost var produced: nat
    ghost var ended: bool

    ghost predicate Valid()
      reads this
    {
      && Contents == Distinct(Elements(linq))
      && produced <= |Contents| && (ended ==> produced == |Contents|)
      && (!ended ==>
            match remaining
            case Unbuilt => produced == 0
            case Built(rest) => rest == Contents[produced..])
    }

    constructor (linq: Query)
      ensures Valid() && produced == 0 && !ended && Contents == Distinct(Elements(linq))
    {
      this.linq, remaining := linq, Unbuilt;
      Contents := Distinct(Elements(linq));
      produced, ended := 0, false;
    }

    method Get() returns (r: Holder<Value>)
      requires Valid() && !ended
      modifies this
      ensures Valid()
      ensures r == AnswerAt(Contents, old(produced))
      ensures produced == old(produced) + (if r.Exists() then 1 else 0)
      ensures ended <==> !r.Exists()
    {
      if remaining.Unbuilt? {
        var found := ForEach(linq, AddToLinkedSet, []);
        assert found == Contents by {
          LinkedSetIsDistinct(Elements(linq));
        }
        remaining := Built(found);
      }
      if remaining.value != [] {
        r := Of(remaining.value[0]);
        remaining, produced := Built(remaining.value[1..]), produced + 1;
      } else {
        r, ended := None, true;
      }
    }
  }

  /**
   * The iterator of `distinctBy(func)`: a `LinkedHashMap` filled with
   * `put`, so each key keeps its first position and its last value.
   */
  class DistinctByIterator {
    const linq: Query
    const func: Value -> Value
    var remaining: Lazy<seq<Value>>
    ghost const Contents: seq<Value>
    ghost var produced: nat
    ghost var ended: bool

    ghost predicate Valid()
      reads this
    {
      && Contents == DistinctByLast(func, Elements(linq))
      && produced <= |Contents| && (ended ==> produced == |Contents|)
      && (!ended ==>
            match remaining
            case Unbuilt => produced == 0
            case Built(rest) => rest == Contents[produced..])
    }

    constructor (linq: Query, func: Value -> Value)
      ensures Valid() && produced == 0 && !ended && Contents == DistinctByLast(func, Elements(linq))
    {
      this.linq, this.func, remaining := linq, func, Unbuilt;
      Contents := DistinctByLast(func, Elements(linq));
      produced, ended := 0, false;
    }

    method Get() returns (r: Holder<Value>)
      requires Valid() && !ended
      modifies this
      ensures Valid()
      ensures r == AnswerAt(Contents, old(produced))
      ensures produced == old(produced) + (if r.Exists() then 1 else 0)
      ensures ended <==> !r.Exists()
    {
      if remaining.Unbuilt? {
        var table := ForEach(linq, PutLastByKey(func), EmptyLinkedMap());
        assert table.Values() == Contents by {
          PutIsDistinctByLast(func, Elements(linq));
        }
        remaining := Built(table.Values());
      }
      if remaining.value != [] {
        r := Of(remaining.value[0]);
        remaining, produced := Built(remaining.value[1..]), produced + 1;
      } else {
        r, ended := None, true;
      }
    }
  }

  /** The iterator of `union(right)`: one `LinkedHashSet` filled from this query and then `right`. */
  class UnionIterator {
    const linq: Query
    const right: Query
    var remaining: Lazy<seq<Value>>
    ghost const Contents: seq<Value>
    ghost var produced: nat
    ghost var ended: bool

    ghost predicate Valid()
      reads this
    {
      && Contents == Union(Elements(linq), Elements(right))
      && produced <= |Contents| && (ended ==> produced == |Contents|)
      && (!ended ==>
            match remaining
            case Unbuilt => produced == 0
            case Built(rest) => rest == Contents[produced..])
    }

    constructor (linq: Query, right: Query)
      ensures Valid() && produced == 0 && !ended && Contents == Union(Elements(linq), Elements(right))
    {
      this.linq, this.right, remaining := linq, right, Unbuilt;
      Contents := Union(Elements(linq), Elements(right));
      produced, ended := 0, false;
    }

    method Get() returns (r: Holder<Value>)
      requires Valid() && !ended
      modifies this
      ensures Valid()
      ensures r == AnswerAt(Contents, old(produced))
      ensures produced == old(produced) + (if r.Exists() then 1 else 0)
      ensures ended <==> !r.Exists()
    {
      if remaining.Unbuilt? {
        var found := ForEach(linq, AddToLinkedSet, []);
        found := ForEach(right, AddToLinkedSet, found);
        assert found == Contents by {
          LinkedSetIsUnion(Elements(linq), Elements(right));
        }
        remaining := Built(found);
      }
      if remaining.value != [] {
        r := Of(remaining.value[0]);
        remaining, produced := Built(remaining.value[1..]), produced + 1;
      } else {
        r, ended := None, true;
      }
    }
  }

  /**
   * The iterator of `unionBy(right, keySelector)`: one `put` map filled from
   * this query and then `right`, so each key keeps the last value of both.
   */
  class UnionByIterator {
    const linq: Query
    const right: Query
    const keySelector: Value -> Value
    var remaining: Lazy<seq<Value>>
    ghost const Contents: seq<Value>
    ghost var produced: nat
    ghost var ended: bool

    ghost predicate Valid()
      reads this
    {
      && Contents == DistinctByLast(keySelector, Elements(linq) + Elements(right))
      && produced <= |Contents| && (ended ==> produced == |Contents|)
      && (!ended ==>
            match remaining
            case Unbuilt => produced == 0
            case Built(rest) => rest == Contents[produced..])
    }

    constructor (linq: Query, right: Query, keySelector: Value -> Value)
      ensures Valid() && produced == 0 && !ended
      ensures Contents == DistinctByLast(keySelector, Elements(linq) + Elements(right))
    {
      this.linq, this.right, this.keySelector, remaining := linq, right, keySelector, Unbuilt;
      Contents := DistinctByLast(keySelector, Elements(linq) + Elements(right));
      produced, ended := 0, false;
    }

    method Get() returns (r: Holder<Value>)
      requires Valid() && !ended
      modifies this
      ensures Valid()
      ensures r == AnswerAt(Contents, old(produced))
      ensures produced == old(produced) + (if r.Exists() then 1 else 0)
      ensures ended <==> !r.Exists()
    {
      if remaining.Unbuilt? {
        var table := ForEach(linq, PutLastByKey(keySelector), EmptyLinkedMap());
        table := ForEach(right, PutLastByKey(keySelector), table);
        assert table.Values() == Contents by {
          PutIsUnionByLast(keySelector, Elements(linq), Elements(right));
        }
        remaining := Built(table.Values());
      }
      if remaining.value != [] {
        r := Of(remaining.value[0]);
        remaining, produced := Built(remaining.value[1..]), produced + 1;
      } else {
        r, ended := None, true;
      }
    }
  }

  /** The iterator of `groupBy(keySelector)`: the entries of a `LinkedHashMap` of lists. */
  class GroupByIterator {
    const linq: Query
    const keySelector: Value -> Value
    var remaining: Lazy<seq<Value>>
    ghost const Contents: seq<Value>
    ghost var produced: nat
    ghost var ended: bool

    ghost predicate Valid()
      reads this
    {
      && Contents == GroupValues(keySelector, Elements(linq))
      && produced <= |Contents| && (ended ==> produced == |Contents|)
      && (!ended ==>
            match remaining
            case Unbuilt => produced == 0
            case Built(rest) => rest == Contents[produced..])
    }

    constructor (linq: Query, keySelector: Value -> Value)
      ensures Valid() && produced == 0 && !ended && Contents == GroupValues(keySelector, Elements(linq))
    {
      this.linq, this.keySelector, remaining := linq, keySelector, Unbuilt;
      Contents := GroupValues(keySelector, Elements(linq));
      produced, ended := 0, false;
    }

    method Get() returns (r: Holder<Value>)
      requires Valid() && !ended
      modifies this
      ensures Valid()
      ensures r == AnswerAt(Contents, old(produced))
      ensures produced == old(produced) + (if r.Exists() then 1 else 0)
      ensures ended <==> !r.Exists()
    {
      if remaining.Unbuilt? {
        var table := ForEach(linq, GroupInto(keySelector), EmptyLinkedMap());
        assert GroupEntries(table) == Contents by {
          GroupEntriesAreGroups(keySelector, Elements(linq));
        }
        remaining := Built(GroupEntries(table));
      }
      if remaining.value != [] {
        r := Of(remaining.value[0]);
        remaining, produced := Built(remaining.value[1..]), produced + 1;
      } else {
        r, ended := None, true;
      }
    }
  }

  /**
   * The iterator of `takeLast(size)`: an `ArrayDeque` that drops its oldest
   * value when it holds `size`.  With `size` zero the first value finds the
   * queue "full" and `remove()` throws on the empty queue, before `it` is
   * set; so on a non-empty input EVERY `get()` throws again.
   */
  class TakeLastIterator {
    const linq: Query
    const size: int
    var remaining: Lazy<seq<Value>>
    ghost const Contents: seq<Value>
    ghost var produced: nat
    ghost var ended: bool

    ghost predicate Valid()
      reads this
    {
      && Contents == LastN(size, Elements(linq))
      && produced <= |Contents| && (ended ==> produced == |Contents|)
      && (TakeLastThrows(size, Elements(linq)) == 1 ==> remaining.Unbuilt?)
      && (!ended ==>
            match remaining
            case Unbuilt => produced == 0
            case Built(rest) => rest == Contents[produced..])
    }

    constructor (linq: Query, size: int)
      ensures Valid() && produced == 0 && !ended && Contents == LastN(size, Elements(linq))
    {
      this.linq, this.size, remaining := linq, size, Unbuilt;
      Contents := LastN(size, Elements(linq));
      produced, ended := 0, false;
    }

    method Get() returns (r: Result<Holder<Value>>)
      requires Valid() && !ended
      modifies this
      ensures Valid()
      ensures TakeLastThrows(size, Elements(linq)) == 1 ==>
        r == Err(NoSuchElement) && produced == old(produced) && !ended
      ensures TakeLastThrows(size, Elements(linq)) == 0 ==>
        && r == Ok(AnswerAt(Contents, old(produced)))
        && produced == old(produced) + (if r.value.Exists() then 1 else 0)
        && (ended <==> !r.value.Exists())
    {
      if remaining.Unbuilt? {
        var q, thrown := Fill();
        if thrown {
          return Err(NoSuchElement);
        }
        remaining := Built(q);
      }
      if remaining.value != [] {
        r := Ok(Of(remaining.value[0]));
        remaining, produced := Built(remaining.value[1..]), produced + 1;
      } else {
        r, ended := Ok(None), true;
      }
    }

    /** The `for (T v : Linq.this)` loop that fills the queue; it reports whether `q.remove()` threw. */
    method Fill() returns (q: seq<Value>, thrown: bool)
      ensures thrown <==> TakeLastThrows(size, Elements(linq)) == 1
      ensures !thrown ==> q == LastN(size, Elements(linq))
    {
      var it := Iterator(linq);
      q := [];
      while true
        invariant it.Idle() && it.Contents == Elements(linq)
        invariant q == FoldLeft(Enqueue(size), [], it.Contents[..it.produced])
        invariant size == 0 ==> q == [] && it.produced == 0
        decreases |it.Contents| - it.produced
      {
        ghost var k := it.produced;
        var h := it.Advance();
        if !h.Exists() {
          assert it.Contents[..k] == it.Contents;
          if size != 0 {
            QueueIsLastN(size, it.Contents);
          }
          return q, false;
        }
        if |q| == size && q == [] {
          return q, true;
        }
        FoldLeftPrefix(Enqueue(size), [], it.Contents, k);
        if |q| == size {
          q := q[1..];
        }
        q := q + [h.value];
      }
    }
  }

  /**
   * The iterator of `skipLast(size)`, as written (see
   * `LegacySpecs.SkipLastAsWritten`): the field `it` is never set, because
   * the iterators the first `get()` opens go into a local variable of the
   * same name.
   */
  class SkipLastIterator {
    const linq: Query
    const size: int
    var it: Iter?
    var to: int
    var i: int

    ghost predicate Valid()
      reads this
    {
      it == null && IsInt64(size)
    }

    constructor (linq: Query, size: int)
      requires IsInt64(size)
      ensures Valid() && this.linq == linq && this.size == size
    {
      this.linq, this.size, it, to, i := linq, size, null, 0, 0;
    }

    method Get() returns (r: Result<Holder<Value>>)
      requires Valid()
      modifies this
      ensures Valid()
      ensures r == SkipLastAsWritten(size, Elements(linq))
    {
      if it == null {
        var c := 0;
        var local := Iterator(linq);
        while true
          invariant it == null
          invariant local.Idle() && local.Contents == Elements(linq) && c == local.produced
          decreases |local.Contents| - local.produced
        {
          var h := local.Advance();
          if !h.Exists() {
            break;
          }
          c := c + 1;
        }
        local := Iterator(linq);
        // Java's `c` is a `long` too; wrapping it first gives the same `to`
        to, i := Wrap64(c - size), 0;
      }
      if i < to {
        // `it.hasNext()` on the field, which is still `null`
        return Err(NullPointer);
      }
      return Ok(None);
    }
  }

  /**
   * The iterator of `reverse()`, as written: its first `get()` calls the
   * unqualified `toList()`, which is the reversed `Linq`'s own (see
   * `LegacySpecs.ReversedToList`), so it never gets to the list and throws
   * `StackOverflowError`, however many stack frames `depth` leaves.
   */
  class ReverseIterator {
    var remaining: Lazy<seq<Value>>

    ghost predicate Valid()
      reads this
    {
      remaining.Unbuilt?
    }

    constructor ()
      ensures Valid()
    {
      remaining := Unbuilt;
    }

    method Get(depth: nat) returns (r: Result<Holder<Value>>)
      requires Valid()
      ensures Valid()
      ensures r == Err(StackOverflow)
    {
      var list := ReversedToList(depth);
      r := Err(list.error);
    }
  }

  /** The iterator of `except(right)`: the left values not in a `HashSet` of the right ones. */
  class ExceptIterator {
    const iter: Iter
    const right: Query
    var rightSet: Lazy<set<Value>>
    ghost const Contents: seq<Value>
    ghost var produced: nat
    ghost var ended: bool

    ghost predicate Sound()
      reads this, iter
    {
      && iter.Idle() && Contents == Except(iter.Contents, Elements(right))
      && produced <= |Contents| && (ended ==> produced == |Contents|)
    }

    ghost predicate Valid()
      reads this, iter
    {
      && Sound()
      && (!ended && rightSet.Unbuilt? ==> produced == 0 && iter.produced == 0)
      && (!ended && rightSet.Built? ==>
            && (forall y :: y in rightSet.value <==> y in Elements(right))
            && produced == |Filter(NotIn(Elements(right)), iter.Contents[..iter.produced])|)
    }

    constructor (linq: Query, right: Query)
      ensures Valid() && fresh(iter) && produced == 0 && !ended
      ensures Contents == Except(Elements(linq), Elements(right))
    {
      var left := Iterator(linq);
      iter, this.right, rightSet := left, right, Unbuilt;
      Contents := Except(left.Contents, Elements(right));
      produced, ended := 0, false;
    }

    method Get() returns (r: Holder<Value>)
      requires Valid() && !ended
      modifies this, iter
      ensures Valid()
      ensures r == AnswerAt(Contents, old(produced))
      ensures produced == old(produced) + (if r.Exists() then 1 else 0)
      ensures ended <==> !r.Exists()
    {
      if rightSet.Unbuilt? {
        var filled := ForEach(right, AddToHashSet, {});
        HashSetHolds(Elements(right));
        assert iter.Contents[..0] == [];
        rightSet := Built(filled);
      }
      while true
        invariant Valid() && !ended && produced == old(produced) && rightSet.Built?
        decreases |iter.Contents| - iter.produced
      {
        var done;
        done, r := Pull();
        if done {
          return;
        }
      }
    }

    /** One turn of `while (it.hasNext())`: the next left value, handed out if the set lacks it. */
    method Pull() returns (done: bool, r: Holder<Value>)
      requires Valid() && !ended && rightSet.Built?
      modifies this, iter
      ensures Valid() && rightSet.Built?
      ensures done ==> && r == AnswerAt(Contents, old(produced))
                       && produced == old(produced) + (if r.Exists() then 1 else 0)
                       && (ended <==> !r.Exists())
      ensures !done ==> !ended && produced == old(produced) && iter.produced > old(iter.produced)
    {
      ghost var k := iter.produced;
      var h := iter.Advance();
      if !h.Exists() {
        assert iter.Contents[..k] == iter.Contents;
        ended := true;
        return true, None;
      }
      FilterAdvance(NotIn(Elements(right)), iter.Contents, k);
      done := h.value !in rightSet.value;
      if done {
        produced := produced + 1;
      }
      r := h;
    }
  }

  /** The iterator of `exceptBy(right, keySelector)`: the left values whose key is not in a `HashMap` keyed by the right ones' keys. */
  class ExceptByIterator {
    const iter: Iter
    const right: Query
    const keySelector: Value -> Value
    var rightMap: Lazy<map<Value, Value>>
    /** The keys of the right values. */
    ghost const keys: seq<Value>
    ghost const Contents: seq<Value>
    ghost var produced: nat
    ghost var ended: bool

    ghost predicate Sound()
      reads this, iter
    {
      && keys == Map(keySelector, Elements(right))
      && iter.Idle() && Contents == ExceptBy(keySelector, iter.Contents, Elements(right))
      && produced <= |Contents| && (ended ==> produced == |Contents|)
    }

    ghost predicate Valid()
      reads this, iter
    {
      && Sound()
      && (!ended && rightMap.Unbuilt? ==> produced == 0 && iter.produced == 0)
      && (!ended && rightMap.Built? ==>
            && (forall k :: k in rightMap.value <==> k in keys)
            && produced == |Filter(KeyNotIn(keySelector, keys), iter.Contents[..iter.produced])|)
    }

    constructor (linq: Query, right: Query, keySelector: Value -> Value)
      ensures Valid() && fresh(iter) && produced == 0 && !ended
      ensures Contents == ExceptBy(keySelector, Elements(linq), Elements(right))
    {
      var left := Iterator(linq);
      iter, this.right, this.keySelector, rightMap := left, right, keySelector, Unbuilt;
      Contents := ExceptBy(keySelector, left.Contents, Elements(right));
      keys := Map(keySelector, Elements(right));
      produced, ended := 0, false;
    }

    method Get() returns (r: Holder<Value>)
      requires Valid() && !ended
      modifies this, iter
      ensures Valid()
      ensures r == AnswerAt(Contents, old(produced))
      ensures produced == old(produced) + (if r.Exists() then 1 else 0)
      ensures ended <==> !r.Exists()
    {
      if rightMap.Unbuilt? {
        var filled := ForEach(right, PutByKey(keySelector), map[]);
        HashMapKeys(keySelector, Elements(right));
        assert iter.Contents[..0] == [];
        rightMap := Built(filled);
      }
      while true
        invariant Valid() && !ended && produced == old(produced) && rightMap.Built?
        decreases |iter.Contents| - iter.produced
      {
        var done;
        done, r := Pull();
        if done {
          return;
        }
      }
    }

    /** One turn of `while (it.hasNext())`: the next left value, handed out if the map lacks its key. */
    method Pull() returns (done: bool, r: Holder<Value>)
      requires Valid() && !ended && rightMap.Built?
      modifies this, iter
      ensures Valid() && rightMap.Built?
      ensures done ==> && r == AnswerAt(Contents, old(produced))
                       && produced == old(produced) + (if r.Exists() then 1 else 0)
                       && (ended <==> !r.Exists())
      ensures !done ==> !ended && produced == old(produced) && iter.produced > old(iter.produced)
    {
      ghost var k := iter.produced;
      var h := iter.Advance();
      if !h.Exists() {
        assert iter.Contents[..k] == iter.Contents;
        ended := true;
        return true, None;
      }
      done := Offer(h.value);
      r := h;
    }

    /** The rest of a turn once left value `l` has been taken: handed out if the map lacks its key. */
    method Offer(l: Value) returns (done: bool)
      requires Sound() && !ended && rightMap.Built?
      requires forall k :: k in rightMap.value <==> k in keys
      requires 0 < iter.produced && l == iter.Contents[iter.produced - 1]
      requires produced == |Filter(KeyNotIn(keySelector, keys), iter.Contents[..iter.produced - 1])|
      modifies this
      ensures Valid() && !ended && rightMap.Built?
      ensures done ==> old(produced) < |Contents| && Contents[old(produced)] == l && produced == old(produced) + 1
      ensures !done ==> produced == old(produced)
    {
      ghost var k := iter.produced - 1;
      ghost var p := KeyNotIn(keySelector, keys);
      assert && |Filter(p, iter.Contents[..k + 1])| == produced + (if p(l) then 1 else 0)
             && (p(l) ==> produced < |Contents| && Contents[produced] == l)
      by {
        FilterAdvance(p, iter.Contents, k);
      }
      done := keySelector(l) !in rightMap.value;
      if done {
        produced := produced + 1;
      }
    }
  }

  /** The iterator of `intersect(right)`: the left values in a `HashSet` of the right ones. */
  class IntersectIterator {
    const iter: Iter
    const right: Query
    var rightSet: Lazy<set<Value>>
    ghost const Contents: seq<Value>
    ghost var produced: nat
    ghost var ended: bool

    ghost predicate Sound()
      reads this, iter
    {
      && iter.Idle() && Contents == Intersect(iter.Contents, Elements(right))
      && produced <= |Contents| && (ended ==> produced == |Contents|)
    }

    ghost predicate Valid()
      reads this, iter
    {
      && Sound()
      && (!ended && rightSet.Unbuilt? ==> produced == 0 && iter.produced == 0)
      && (!ended && rightSet.Built? ==>
            && (forall y :: y in rightSet.value <==> y in Elements(right))
            && produced == |Filter(In(Elements(right)), iter.Contents[..iter.produced])|)
    }

    constructor (linq: Query, right: Query)
      ensures Valid() && fresh(iter) && produced == 0 && !ended
      ensures Contents == Intersect(Elements(linq), Elements(right))
    {
      var left := Iterator(linq);
      iter, this.right, rightSet := left, right, Unbuilt;
      Contents := Intersect(left.Contents, Elements(right));
      produced, ended := 0, false;
    }

    method Get() returns (r: Holder<Value>)
      requires Valid() && !ended
      modifies this, iter
      ensures Valid()
      ensures r == AnswerAt(Contents, old(produced))
      ensures produced == old(produced) + (if r.Exists() then 1 else 0)
      ensures ended <==> !r.Exists()
    {
      if rightSet.Unbuilt? {
        var filled := ForEach(right, AddToHashSet, {});
        HashSetHolds(Elements(right));
        assert iter.Contents[..0] == [];
        rightSet := Built(filled);
      }
      while true
        invariant Valid() && !ended && produced == old(produced) && rightSet.Built?
        decreases |iter.Contents| - iter.produced
      {
        var done;
        done, r := Pull();
        if done {
          return;
        }
      }
    }

    /** One turn of `while (it.hasNext())`: the next left value, handed out if the set has it. */
    method Pull() returns (done: bool, r: Holder<Value>)
      requires Valid() && !ended && rightSet.Built?
      modifies this, iter
      ensures Valid() && rightSet.Built?
      ensures done ==> && r == AnswerAt(Contents, old(produced))
                       && produced == old(produced) + (if r.Exists() then 1 else 0)
                       && (ended <==> !r.Exists())
      ensures !done ==> !ended && produced == old(produced) && iter.produced > old(iter.produced)
    {
      ghost var k := iter.produced;
      var h := iter.Advance();
      if !h.Exists() {
        assert iter.Contents[..k] == iter.Contents;
        ended := true;
        return true, None;
      }
      FilterAdvance(In(Elements(right)), iter.Contents, k);
      done := h.value in rightSet.value;
      if done {
        produced := produced + 1;
      }
      r := h;
    }
  }

  /** The iterator of `intersectBy(right, keySelector)`: the left values whose key is in a `HashMap` keyed by the right ones' keys. */
  class IntersectByIterator {
    const iter: Iter
    const right: Query
    const keySelector: Value -> Value
    var rightMap: Lazy<map<Value, Value>>
    /** The keys of the right values. */
    ghost const keys: seq<Value>
    ghost const Contents: seq<Value>
    ghost var produced: nat
    ghost var ended: bool

    ghost predicate Sound()
      reads this, iter
    {
      && keys == Map(keySelector, Elements(right))
      && iter.Idle() && Contents == IntersectBy(keySelector, iter.Contents, Map(keySelector, Elements(right)))
      && produced <= |Contents| && (ended ==> produced == |Contents|)
    }

    ghost predicate Valid()
      reads this, iter
    {
      && Sound()
      && (!ended && rightMap.Unbuilt? ==> produced == 0 && iter.produced == 0)
      && (!ended && rightMap.Built? ==>
            && (forall k :: k in rightMap.value <==> k in keys)
            && produced == |Filter(KeyIn(keySelector, keys), iter.Contents[..iter.produced])|)
    }

    constructor (linq: Query, right: Query, keySelector: Value -> Value)
      ensures Valid() && fresh(iter) && produced == 0 && !ended
      ensures Contents == IntersectBy(keySelector, Elements(linq), Map(keySelector, Elements(right)))
    {
      var left := Iterator(linq);
      iter, this.right, this.keySelector, rightMap := left, right, keySelector, Unbuilt;
      Contents := IntersectBy(keySelector, left.Contents, Map(keySelector, Elements(right)));
      keys := Map(keySelector, Elements(right));
      produced, ended := 0, false;
    }

    method Get() returns (r: Holder<Value>)
      requires Valid() && !ended
      modifies this, iter
      ensures Valid()
      ensures r == AnswerAt(Contents, old(produced))
      ensures produced == old(produced) + (if r.Exists() then 1 else 0)
      ensures ended <==> !r.Exists()
    {
      if rightMap.Unbuilt? {
        var filled := ForEach(right, PutByKey(keySelector), map[]);
        HashMapKeys(keySelector, Elements(right));
        assert iter.Contents[..0] == [];
        rightMap := Built(filled);
      }
      while true
        invariant Valid() && !ended && produced == old(produced) && rightMap.Built?
        decreases |iter.Contents| - iter.produced
      {
        var done;
        done, r := Pull();
        if done {
          return;
        }
      }
    }

    /** One turn of `while (it.hasNext())`: the next left value, handed out if the map has its key. */
    method Pull() returns (done: bool, r: Holder<Value>)
      requires Valid() && !ended && rightMap.Built?
      modifies this, iter
      ensures Valid() && rightMap.Built?
      ensures done ==> && r == AnswerAt(Contents, old(produced))
                       && produced == old(produced) + (if r.Exists() then 1 else 0)
                       && (ended <==> !r.Exists())
      ensures !done ==> !ended && produced == old(produced) && iter.produced > old(iter.produced)
    {
      ghost var k := iter.produced;
      var h := iter.Advance();
      if !h.Exists() {
        assert iter.Contents[..k] == iter.Contents;
        ended := true;
        return true, None;
      }
      done := Offer(h.value);
      r := h;
    }

    /** The rest of a turn once left value `l` has been taken: handed out if the map has its key. */
    method Offer(l: Value) returns (done: bool)
      requires Sound() && !ended && rightMap.Built?
      requires forall k :: k in rightMap.value <==> k in keys
      requires 0 < iter.produced && l == iter.Contents[iter.produced - 1]
      requires produced == |Filter(KeyIn(keySelector, keys), iter.Contents[..iter.produced - 1])|
      modifies this
      ensures Valid() && !ended && rightMap.Built?
      ensures done ==> old(produced) < |Contents| && Contents[old(produced)] == l && produced == old(produced) + 1
      ensures !done ==> produced == old(produced)
    {
      ghost var k := iter.produced - 1;
      ghost var p := KeyIn(keySelector, keys);
      assert && |Filter(p, iter.Contents[..k + 1])| == produced + (if p(l) then 1 else 0)
             && (p(l) ==> produced < |Contents| && Contents[produced] == l)
      by {
        FilterAdvance(p, iter.Contents, k);
      }
      done := keySelector(l) in rightMap.value;
      if done {
        produced := produced + 1;
      }
    }
  }

  /**
   * The iterator of `groupJoin(rightLinq, leftKeySelector, rightKeySelector,
   * resultSelector)`: every left value with the list of right values of its
   * key (an empty list when there are none).  The `Linq.from(list)` passed
   * to the result selector is modelled by the list itself.
   */
  class GroupJoinIterator {
    const iter: Iter
    const rightLinq: Query
    const leftKeySelector: Value -> Value
    const rightKeySelector: Value -> Value
    const resultSelector: (Value, seq<Value>) -> Value
    var rightMap: Lazy<LinkedMap<Value, seq<Value>>>
    ghost const Contents: seq<Value>
    ghost var produced: nat
    ghost var ended: bool

    ghost predicate Valid()
      reads this, iter
    {
      && iter.Idle()
      && Contents == GroupJoin(leftKeySelector, rightKeySelector, resultSelector, iter.Contents, Elements(rightLinq))
      && produced <= |Contents| && (ended ==> produced == |Contents|)
      && (!ended ==> iter.produced == produced)
      && (!ended && rightMap.Unbuilt? ==> produced == 0)
      && (!ended && rightMap.Built? ==>
            rightMap.value == FoldLeft(GroupInto(rightKeySelector), EmptyLinkedMap(), Elements(rightLinq)))
    }

    constructor (linq: Query, rightLinq: Query, leftKeySelector: Value -> Value, rightKeySelector: Value -> Value,
                 resultSelector: (Value, seq<Value>) -> Value)
      ensures Valid() && fresh(iter) && produced == 0 && !ended
      ensures Contents == GroupJoin(leftKeySelector, rightKeySelector, resultSelector, Elements(linq), Elements(rightLinq))
    {
      var left := Iterator(linq);
      iter, this.rightLinq, rightMap := left, rightLinq, Unbuilt;
      this.leftKeySelector, this.rightKeySelector, this.resultSelector := leftKeySelector, rightKeySelector, resultSelector;
      Contents := GroupJoin(leftKeySelector, rightKeySelector, resultSelector, left.Contents, Elements(rightLinq));
      produced, ended := 0, false;
    }

    method Get() returns (r: Holder<Value>)
      requires Valid() && !ended
      modifies this, iter
      ensures Valid()
      ensures r == AnswerAt(Contents, old(produced))
      ensures produced == old(produced) + (if r.Exists() then 1 else 0)
      ensures ended <==> !r.Exists()
    {
      if rightMap.Unbuilt? {
        var filled := ForEach(rightLinq, GroupInto(rightKeySelector), EmptyLinkedMap());
        rightMap := Built(filled);
      }
      var h := iter.Advance();
      if h.Exists() {
        var l := h.value;
        ListForIsMatches(rightKeySelector, Elements(rightLinq), leftKeySelector(l));
        GroupJoinAt(leftKeySelector, rightKeySelector, resultSelector, iter.Contents, Elements(rightLinq), produced);
        produced := produced + 1;
        return Of(resultSelector(l, ListFor(rightMap.value, leftKeySelector(l))));
      }
      ended := true;
      return None;
    }
  }

  /**
   * The iterator of `join(rightLinq, leftKeySelector, rightKeySelector,
   * resultSelector)`: like `groupJoin`, but the left values whose key no
   * right value has are skipped.
   */
  class JoinIterator {
    const iter: Iter
    const rightLinq: Query
    const leftKeySelector: Value -> Value
    const rightKeySelector: Value -> Value
    const resultSelector: (Value, seq<Value>) -> Value
    var rightMap: Lazy<LinkedMap<Value, seq<Value>>>
    ghost const Contents: seq<Value>
    ghost var produced: nat
    ghost var ended: bool

    ghost predicate Sound()
      reads this, iter
    {
      && iter.Idle()
      && Contents == Join(leftKeySelector, rightKeySelector, resultSelector, iter.Contents, Elements(rightLinq))
      && produced <= |Contents| && (ended ==> produced == |Contents|)
    }

    ghost predicate Valid()
      reads this, iter
    {
      && Sound()
      && (!ended && rightMap.Unbuilt? ==> produced == 0 && iter.produced == 0)
      && (!ended && rightMap.Built? ==>
            && rightMap.value == FoldLeft(GroupInto(rightKeySelector), EmptyLinkedMap(), Elements(rightLinq))
            && produced == |Join(leftKeySelector, rightKeySelector, resultSelector,
                                 iter.Contents[..iter.produced], Elements(rightLinq))|)
    }

    constructor (linq: Query, rightLinq: Query, leftKeySelector: Value -> Value, rightKeySelector: Value -> Value,
                 resultSelector: (Value, seq<Value>) -> Value)
      ensures Valid() && fresh(iter) && produced == 0 && !ended
      ensures Contents == Join(leftKeySelector, rightKeySelector, resultSelector, Elements(linq), Elements(rightLinq))
    {
      var left := Iterator(linq);
      iter, this.rightLinq, rightMap := left, rightLinq, Unbuilt;
      this.leftKeySelector, this.rightKeySelector, this.resultSelector := leftKeySelector, rightKeySelector, resultSelector;
      Contents := Join(leftKeySelector, rightKeySelector, resultSelector, left.Contents, Elements(rightLinq));
      produced, ended := 0, false;
    }

    method Get() returns (r: Holder<Value>)
      requires Valid() && !ended
      modifies this, iter
      ensures Valid()
      ensures r == AnswerAt(Contents, old(produced))
      ensures produced == old(produced) + (if r.Exists() then 1 else 0)
      ensures ended <==> !r.Exists()
    {
      if rightMap.Unbuilt? {
        var filled := ForEach(rightLinq, GroupInto(rightKeySelector), EmptyLinkedMap());
        assert iter.Contents[..0] == [];
        rightMap := Built(filled);
      }
      while true
        invariant Valid() && !ended && produced == old(produced) && rightMap.Built?
        decreases |iter.Contents| - iter.produced
      {
        var done;
        done, r := Pull();
        if done {
          return;
        }
      }
    }

    /** One turn of `while (it.hasNext())`: the next left value, joined if its key has a list. */
    method Pull() returns (done: bool, r: Holder<Value>)
      requires Valid() && !ended && rightMap.Built?
      modifies this, iter
      ensures Valid() && rightMap.Built?
      ensures done ==> && r == AnswerAt(Contents, old(produced))
                       && produced == old(produced) + (if r.Exists() then 1 else 0)
                       && (ended <==> !r.Exists())
      ensures !done ==> !ended && produced == old(produced) && iter.produced > old(iter.produced)
    {
      ghost var k := iter.produced;
      var h := iter.Advance();
      if !h.Exists() {
        assert iter.Contents[..k] == iter.Contents;
        ended := true;
        return true, None;
      }
      done, r := Offer(h.value);
    }

    /** The rest of a turn once left value `l` has been taken: the join result if `l`'s key has a list. */
    method Offer(l: Value) returns (done: bool, r: Holder<Value>)
      requires Sound() && !ended && rightMap.Built?
      requires rightMap.value == FoldLeft(GroupInto(rightKeySelector), EmptyLinkedMap(), Elements(rightLinq))
      requires 0 < iter.produced && l == iter.Contents[iter.produced - 1]
      requires produced == |Join(leftKeySelector, rightKeySelector, resultSelector,
                                 iter.Contents[..iter.produced - 1], Elements(rightLinq))|
      modifies this
      ensures Valid() && !ended && rightMap.Built?
      ensures done ==> r == AnswerAt(Contents, old(produced)) && r.Exists() && produced == old(produced) + 1
      ensures !done ==> produced == old(produced)
    {
      ghost var ys := Elements(rightLinq);
      ghost var k := iter.produced - 1;
      ghost var found := leftKeySelector(l) in Map(rightKeySelector, ys);
      assert && |Join(leftKeySelector, rightKeySelector, resultSelector, iter.Contents[..k + 1], ys)|
                == produced + (if found then 1 else 0)
             && (found ==> produced < |Contents|
                           && Contents[produced] == resultSelector(l, Matches(rightKeySelector, ys, leftKeySelector(l))))
      by {
        JoinAdvance(leftKeySelector, rightKeySelector, resultSelector, iter.Contents, ys, k);
      }
      assert && (leftKeySelector(l) in rightMap.value.entries <==> found)
             && (found ==> rightMap.value.entries[leftKeySelector(l)] == Matches(rightKeySelector, ys, leftKeySelector(l)))
      by {
        ListForIsMatches(rightKeySelector, ys, leftKeySelector(l));
      }
      done := leftKeySelector(l) in rightMap.value.entries;
      if done {
        produced := produced + 1;
        r := Of(resultSelector(l, rightMap.value.entries[leftKeySelector(l)]));
      } else {
        r := None;
      }
    }
  }
}
