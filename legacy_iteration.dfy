/**
 * The older, iterator-based revision of the library (`main.Linq`): the
 * queries it starts from and its `LinqIterator`.
 *
 * A `Linq` of this revision is something that hands out a fresh iterator
 * each time it is iterated.  The queries it can start from are `Query`
 * values: `Linq.from(list)` over a list, `range`, `repeat`, `empty`, and
 * the `OrderingLinq` that `orderBy` builds over another query.  Iterating
 * a query twice yields the same values, because a query is a value.
 *
 * `LinqIterator` caches the `Nullable` its `get()` answers in `value` until
 * `next()` takes it, so `get()` runs at most once per element and once more
 * for the end.  `Iter` is that base class over the plain sources; the
 * operator iterators (modules LegacyStages and LegacyBuffered) inherit the
 * same caching and are modelled by their `get()` alone.
 */
module LegacyIteration {
  import opened Values
  import opened Buffers
  import opened Sorting
  import opened Operators
  import opened Fetching

  datatype Query =
    | FromList(items: seq<Value>)
    | Range(start: int, count: int)
    | Repeat(value: Value, count: int)
    | Empty
    /** `OrderingLinq(linq, cmp)`: `linq` collected into a list and sorted with `cmp`. */
    | Ordering(linq: Query, cmp: (Value, Value) -> int)

  /** The values a fresh iterator of `q` yields, in order. */
  function Elements(q: Query): seq<Value>
  {
    match q
    case FromList(items) => items
    case Range(start, count) => RangeValues(start, count)
    case Repeat(v, count) => RepeatValues(v, count)
    case Empty => []
    case Ordering(linq, cmp) => StableSort(cmp, Elements(linq))
  }

  /** `orderBy(cmp)`. */
  function OrderBy(q: Query, cmp: (Value, Value) -> int): (o: Query)
    ensures o.Ordering? && o.linq == q
  {
    Ordering(q, cmp)
  }

  /** `OrderByDescending(cmp)`: the comparator with its arguments swapped. */
  function OrderByDescending(q: Query, cmp: (Value, Value) -> int): (o: Query)
    ensures o.Ordering? && o.linq == q
    ensures forall a, b :: o.cmp(a, b) == cmp(b, a)
  {
    Ordering(q, Reversed(cmp))
  }

  /** `thenBy(cmp)`: sorts the ordered values again, consulting `cmp` only where the earlier comparator ties. */
  function ThenBy(o: Query, cmp: (Value, Value) -> int): (t: Query)
    requires o.Ordering?
    ensures t.Ordering? && t.linq == o
    ensures forall a, b :: t.cmp(a, b) == if o.cmp(a, b) != 0 then o.cmp(a, b) else cmp(a, b)
  {
    Ordering(o, ThenComparing(o.cmp, cmp))
  }

  /** `thenByDescending(cmp)`: as `thenBy`, with `cmp`'s arguments swapped. */
  function ThenByDescending(o: Query, cmp: (Value, Value) -> int): (t: Query)
    requires o.Ordering?
    ensures t.Ordering? && t.linq == o
    ensures forall a, b :: t.cmp(a, b) == if o.cmp(a, b) != 0 then o.cmp(a, b) else cmp(b, a)
  {
    Ordering(o, ThenComparing(o.cmp, Reversed(cmp)))
  }

  /**
   * Under a comparator that keeps its contract, an ordering yields the
   * values of the query it orders, rearranged into sorted order.
   */
  lemma OrderingSorts(q: Query)
    requires q.Ordering? && IsComparator(q.cmp)
    ensures Sorted(q.cmp, Elements(q))
    ensures multiset(Elements(q)) == multiset(Elements(q.linq))
  {
    StableSortSorted(q.cmp, Elements(q.linq));
    StableSortPermutes(q.cmp, Elements(q.linq));
  }

  /** The `value` field: `null`, or the `Nullable` the last `get()` answered. */
  datatype Slot = Unset | Set(nullable: Holder<Value>)

  /** `LinqIterator` over one of the plain queries, with the `get()` of `from`, `range`, `repeat` and `empty`. */
  class Iter {
    const source: Query
    /** The list index of `from`, the counter `i` of `range` and `repeat` (`empty` has none and keeps it at 0). */
    var i: int
    var value: Slot

    /** The values `get()` answers, in order, before it answers none. */
    ghost const Contents: seq<Value>
    /** How many values `get()` has answered. */
    ghost var produced: nat
    /** Whether `get()` has answered none. */
    ghost var ended: bool
    /** How many times `get()` has run. */
    ghost var gets: nat

    /** The invariant that holds even between `get()` and the store into `value`. */
    ghost predicate Sound()
      reads this
    {
      && !source.Ordering? && Contents == Elements(source)
      && produced <= |Contents| && (ended ==> produced == |Contents|)
      && gets == produced + (if ended then 1 else 0)
      && i == (if source.Empty? then 0 else produced)
      && (value.Set? ==>
            if ended then value.nullable == None
            else 0 < produced && value.nullable == Of(Contents[produced - 1]))
    }

    /** Between calls: once `get()` has answered none, that answer stays in `value`. */
    ghost predicate Valid()
      reads this
    {
      Sound() && (ended ==> value == Set(None))
    }

    /** How many values the iterator's callers have received from `next()`. */
    ghost function Position(): nat
      reads this
      requires Sound()
    {
      if value.Set? && value.nullable.Exists() then produced - 1 else produced
    }

    /** No value waits in `value`, so `produced` is also what the callers have received. */
    ghost predicate Idle()
      reads this
    {
      Valid() && !(value.Set? && value.nullable.Exists())
    }

    /** `iterator()` of a plain query. */
    constructor (source: Query)
      requires !source.Ordering?
      ensures Idle() && value == Unset && this.source == source
      ensures Contents == Elements(source) && produced == 0 && !ended && gets == 0
    {
      this.source := source;
      Contents := Elements(source);
      i, value := 0, Unset;
      produced, ended, gets := 0, false, 0;
    }

    /** `get()` of `from(list)`, `range`, `repeat` and `empty`. */
    method Get() returns (r: Holder<Value>)
      requires Valid() && !ended && value == Unset
      modifies this
      ensures Sound() && value == Unset
      ensures r == AnswerAt(Contents, old(produced))
      ensures produced == old(produced) + (if r.Exists() then 1 else 0)
      ensures ended <==> !r.Exists()
      ensures gets == old(gets) + 1
    {
      gets := gets + 1;
      match source
      case FromList(items) =>
        if i < |items| {
          r := Of(items[i]);
          i, produced := i + 1, produced + 1;
        } else {
          r, ended := None, true;
        }
      case Range(start, count) =>
        if i < count {
          r := Of(Int(Wrap32(start + i)));
          i, produced := i + 1, produced + 1;
        } else {
          r, ended := None, true;
        }
      case Repeat(v, count) =>
        if i < count {
          i, produced := i + 1, produced + 1;
          r := Of(v);
        } else {
          r, ended := None, true;
        }
      case Empty =>
        r, ended := None, true;
    }

    /** `hasNext()`: runs `get()` only when `value` is `null`. */
    method HasNext() returns (b: bool)
      requires Valid()
      modifies this
      ensures Valid() && value.Set?
      ensures b <==> old(Position()) < |Contents|
      ensures Position() == old(Position())
      ensures gets == old(gets) + (if old(value).Unset? then 1 else 0)
    {
      if value.Unset? {
        var v := Get();
        value := Set(v);
      }
      b := value.nullable.Exists();
    }

    /** `next()`: the cached value, clearing the cache, or `NoSuchElementException` at the end. */
    method Next() returns (r: Result<Value>)
      requires Valid()
      modifies this
      ensures Valid()
      ensures r == if old(Position()) < |Contents| then Ok(Contents[old(Position())]) else Err(NoSuchElement)
      ensures r.Ok? ==> Idle() && value == Unset && Position() == old(Position()) + 1
      ensures r.Err? ==> value == Set(None)
      ensures gets == old(gets) + (if old(value).Unset? then 1 else 0)
    {
      var more := HasNext();
      if more {
        var ret := value.nullable;
        value := Unset;
        r := HolderValue(ret);
      } else {
        r := Err(NoSuchElement);
      }
    }

    /**
     * The `if (it.hasNext()) … it.next() … else none` turn that most
     * operators take on their upstream iterator.
     */
    method Advance() returns (h: Holder<Value>)
      requires Valid()
      modifies this
      ensures Idle() && value == (if h.Exists() then Unset else Set(None))
      ensures h == AnswerAt(Contents, old(Position()))
      ensures produced == old(Position()) + (if h.Exists() then 1 else 0)
      ensures h.Exists() <==> !ended
    {
      var more := HasNext();
      if more {
        var v := Next();
        h := Of(v.value);
      } else {
        h := None;
      }
    }

    /**
     * The `for (T v : linq)` loop of the buffering operators and most
     * terminal operations, with the loop body as a step function on the
     * accumulated state.
     */
    method Drain<S>(step: (S, Value) -> S, init: S) returns (acc: S)
      requires Idle()
      modifies this
      ensures Idle() && ended && produced == |Contents|
      ensures acc == FoldLeft(step, init, Contents[old(produced)..])
    {
      ghost var start := produced;
      acc := init;
      while true
        invariant Idle() && start <= produced
        invariant acc == FoldLeft(step, init, Contents[start..produced])
        decreases |Contents| - produced, if ended then 0 else 1
      {
        ghost var before := produced;
        var h := Advance();
        if !h.Exists() {
          assert Contents[start..produced] == Contents[start..];
          return;
        }
        FoldLeftSlice(step, init, Contents, start, before);
        acc := step(acc, h.value);
      }
    }
  }

  /**
   * `iterator()` of any query: a plain query's own iterator, or for an
   * ordering `Linq.from(list).iterator()` over `linq.toList()` sorted with
   * `Collections.sort`, which is stable.
   */
  method Iterator(q: Query) returns (it: Iter)
    ensures fresh(it) && it.Idle() && it.value == Unset && it.produced == 0 && !it.ended
    ensures it.Contents == Elements(q)
    decreases q, 0
  {
    match q
    case Ordering(linq, cmp) =>
      var list := ToList(linq);
      it := new Iter(FromList(StableSort(cmp, list)));
    case _ =>
      it := new Iter(q);
  }

  /** `toList()`: every value of a fresh iterator, in order. */
  method ToList(q: Query) returns (list: seq<Value>)
    ensures list == Elements(q)
    decreases q, 1
  {
    var it := Iterator(q);
    list := it.Drain(Push, []);
    assert it.Contents[0..] == it.Contents;
    PushAll(it.Contents);
  }

  /**
   * `for (T v : q) { … }` with the loop body as a step function: a fresh
   * iterator of `q`, drained.
   */
  method ForEach<S>(q: Query, step: (S, Value) -> S, init: S) returns (acc: S)
    ensures acc == FoldLeft(step, init, Elements(q))
  {
    var it := Iterator(q);
    acc := it.Drain(step, init);
    assert it.Contents[0..] == it.Contents;
  }
}
