/**
 * The buffering stages: on their first pull they drain the upstream into a
 * collection (a queue, a list, a `LinkedHashSet`, a `LinkedHashMap`) and
 * then hand out that collection's iterator one value per pull
 * (`takeLast`, `distinct`, `distinctBy`, `groupBy`, `orderBy`, `reverse`).
 *
 * The Java `iterator` field is modelled by `remaining`: `Unbuilt` while the
 * field is `null`, then the values the iterator has still to hand out.  The
 * collection each drain builds is the fold of the loop body over the
 * upstream's values (module Buffers), so each stage's `Contents` is the
 * reference function of module Sequences or SetOps that the fold computes.
 */
module Buffered {
  import opened Values
  import opened Sequences
  import opened SetOps
  import opened Buffers
  import opened Sorting
  import opened Operators
  import opened Fetching

  /** `TakeLastFetch`: the last `count` values, kept in a bounded queue while draining. */
  class TakeLastFetch {
    const fetch: Fetch
    const count: int
    var queue: Lazy<seq<Value>>
    ghost const Contents: seq<Value>
    ghost var produced: nat
    ghost var ended: bool
    ghost var closed: bool
    /** How many pulls have thrown `NoSuchElementException`. */
    ghost var throws: nat

    ghost predicate Valid()
      reads this, fetch
    {
      && fetch.Valid() && fetch.peek == Vacant
      && Contents == LastN(count, fetch.Contents)
      && produced <= |Contents| && (ended ==> produced == |Contents|)
      && (closed ==> fetch.closed)
      && throws <= TakeLastThrows(count, fetch.Contents)
      && (!closed && !ended ==>
            match queue
            case Unbuilt => produced == 0 && throws == 0 && fetch.Open() && fetch.produced == 0
            case Built(q) => q == Contents[produced..] && throws == TakeLastThrows(count, fetch.Contents))
    }

    constructor (fetch: Fetch, count: int)
      requires fetch.Pristine()
      ensures Valid() && !closed && !ended && produced == 0 && throws == 0
      ensures this.fetch == fetch && Contents == LastN(count, fetch.Contents)
    {
      this.fetch, this.count, queue := fetch, count, Unbuilt;
      Contents := LastN(count, fetch.Contents);
      produced, ended, closed, throws := 0, false, false, 0;
    }

    /**
     * With a `count` of zero, the first upstream value finds the queue
     * "full" and `queue.remove()` throws on the empty queue; the next pull
     * finds the queue built and empty and answers none.
     */
    method InternalNext() returns (r: Result<Holder<Value>>)
      requires Valid() && !closed && !ended
      modifies this, fetch
      ensures Valid() && !closed
      ensures old(throws) < TakeLastThrows(count, fetch.Contents) ==>
        r == Err(NoSuchElement) && throws == old(throws) + 1 && produced == old(produced) && !ended
      ensures old(throws) == TakeLastThrows(count, fetch.Contents) ==>
        && r == Ok(AnswerAt(Contents, old(produced)))
        && produced == old(produced) + (if r.value.Exists() then 1 else 0)
        && (ended <==> !r.value.Exists())
    {
      if queue.Unbuilt? {
        var thrown := Fill();
        if thrown {
          throws := 1;
          return Err(NoSuchElement);
        }
      }
      var h := Step();
      r := Ok(h);
    }

    /**
     * The draining loop of the first `internalNext`, which builds the queue;
     * it reports whether `queue.remove()` threw.
     */
    method Fill() returns (thrown: bool)
      requires Valid() && !closed && !ended && queue.Unbuilt?
      modifies this, fetch
      ensures fetch.Valid() && fetch.peek == Vacant
      ensures !closed && !ended && produced == 0 && throws == 0 && queue.Built?
      ensures thrown <==> TakeLastThrows(count, fetch.Contents) == 1
      ensures thrown ==> queue.value == []
      ensures !thrown ==> queue.value == LastN(count, fetch.Contents)
    {
      queue := Built([]);
      var q: seq<Value> := [];
      while true
        invariant fetch.Open() && queue == Built([]) && produced == 0 && throws == 0 && !ended && !closed
        invariant q == FoldLeft(Enqueue(count), [], fetch.Contents[..fetch.produced])
        invariant count == 0 ==> q == [] && fetch.produced == 0
        decreases |fetch.Contents| - fetch.produced
      {
        ghost var k := fetch.produced;
        var holder := fetch.Next();
        if !holder.value.Exists() {
          assert fetch.Contents[..k] == fetch.Contents;
          if count != 0 {
            QueueIsLastN(count, fetch.Contents);
          }
          queue := Built(q);
          return false;
        }
        var x := holder.value.value;
        if |q| == count && q == [] {
          return true;
        }
        FoldLeftPrefix(Enqueue(count), [], fetch.Contents, k);
        if |q| == count {
          q := q[1..];
        }
        q := q + [x];
      }
    }

    /** A pull once the queue is built: the queue's next value, or none. */
    method Step() returns (r: Holder<Value>)
      requires Valid() && !closed && !ended && queue.Built?
      modifies this
      ensures Valid() && !closed && throws == old(throws)
      ensures r == AnswerAt(Contents, old(produced))
      ensures produced == old(produced) + (if r.Exists() then 1 else 0)
      ensures ended <==> !r.Exists()
    {
      if |queue.value| > 0 {
        r := Of(queue.value[0]);
        queue, produced := Built(queue.value[1..]), produced + 1;
      } else {
        r, ended := None, true;
      }
    }

    method InternalClose()
      requires Valid() && !closed
      modifies this, fetch
      ensures Valid() && closed && fetch.closed && fetch.closeRuns == 1
    {
      closed := true;
      fetch.Close();
    }
  }

  /**
   * `SkipLastFetch`: all but the last `count` values.  The first pull reads
   * `count` values into a queue; each later pull reads one more value and
   * hands out the queue's oldest in its place, so the last `count` values
   * never leave the queue.
   */
  class SkipLastFetch {
    const fetch: Fetch
    const count: int
    var queue: Lazy<seq<Value>>
    ghost const Contents: seq<Value>
    ghost var produced: nat
    ghost var ended: bool
    ghost var closed: bool
    /** How many pulls have thrown `NoSuchElementException`. */
    ghost var throws: nat

    ghost predicate Valid()
      reads this, fetch
    {
      && fetch.Valid() && fetch.peek == Vacant
      && Contents == SkipLastValues(count, fetch.Contents)
      && produced <= |Contents| && (ended ==> produced == |Contents|)
      && (closed ==> fetch.closed)
      && throws <= SkipLastThrows(count, fetch.Contents)
      && (!closed && !ended ==> fetch.Open())
      && (!closed && !ended && queue.Unbuilt? ==> produced == 0 && throws == 0 && fetch.produced == 0)
      && (!closed && !ended && queue.Built? && count <= 0 ==> queue.value == [] && throws == fetch.produced)
      && (!closed && !ended && queue.Built? && 0 < count ==>
            throws == 0 && fetch.produced == produced + count && queue.value == fetch.Contents[produced..fetch.produced])
    }

    constructor (fetch: Fetch, count: int)
      requires fetch.Pristine()
      ensures Valid() && !closed && !ended && produced == 0 && throws == 0
      ensures this.fetch == fetch && Contents == SkipLastValues(count, fetch.Contents)
    {
      this.fetch, this.count, queue := fetch, count, Unbuilt;
      Contents := SkipLastValues(count, fetch.Contents);
      produced, ended, closed, throws := 0, false, false, 0;
    }

    /**
     * With a `count` that is not positive the queue stays empty, so every
     * upstream value makes `queue.removeFirst()` throw; the pull after the
     * last of them answers none.
     */
    method InternalNext() returns (r: Result<Holder<Value>>)
      requires Valid() && !closed && !ended
      modifies this, fetch
      ensures Valid() && !closed
      ensures old(throws) < SkipLastThrows(count, fetch.Contents) ==>
        r == Err(NoSuchElement) && throws == old(throws) + 1 && produced == old(produced) && !ended
      ensures old(throws) == SkipLastThrows(count, fetch.Contents) ==>
        && r == Ok(AnswerAt(Contents, old(produced)))
        && produced == old(produced) + (if r.value.Exists() then 1 else 0)
        && (ended <==> !r.value.Exists())
    {
      if queue.Unbuilt? {
        var filled := Fill();
        if !filled {
          return Ok(None);
        }
      }
      r := Step();
    }

    /** The filling loop of the first `internalNext`; false when the upstream ends first. */
    method Fill() returns (filled: bool)
      requires Valid() && !closed && !ended && queue.Unbuilt?
      modifies this, fetch
      ensures Valid() && !closed && produced == 0 && throws == 0
      ensures filled ==> !ended && queue.Built?
      ensures !filled ==> ended && 0 < count && |fetch.Contents| < count
    {
      queue := Built([]);
      var i := 0;
      while i < count
        invariant 0 <= i && (0 < count ==> i <= count) && (count <= 0 ==> i == 0)
        invariant fetch.Open() && fetch.produced == i && queue == Built(fetch.Contents[..i])
        invariant !closed && !ended && produced == 0 && throws == 0
        decreases count - i
      {
        var current := fetch.Next();
        if !current.value.Exists() {
          ended := true;
          return false;
        }
        assert fetch.Contents[..i + 1] == fetch.Contents[..i] + [current.value.value];
        queue := Built(queue.value + [current.value.value]);
        i := i + 1;
      }
      assert 0 < count ==> queue.value == fetch.Contents[produced..fetch.produced];
      return true;
    }

    /** A pull once the queue is filled: the queue's oldest value for each new upstream value. */
    method Step() returns (r: Result<Holder<Value>>)
      requires Valid() && !closed && !ended && queue.Built?
      modifies this, fetch
      ensures Valid() && !closed
      ensures old(throws) < SkipLastThrows(count, fetch.Contents) ==>
        r == Err(NoSuchElement) && throws == old(throws) + 1 && produced == old(produced) && !ended
      ensures old(throws) == SkipLastThrows(count, fetch.Contents) ==>
        && r == Ok(AnswerAt(Contents, old(produced)))
        && produced == old(produced) + (if r.value.Exists() then 1 else 0)
        && (ended <==> !r.value.Exists())
    {
      ghost var k := fetch.produced;
      var current := fetch.Next();
      if current.value.Exists() {
        if queue.value == [] {
          throws := throws + 1;
          return Err(NoSuchElement);
        }
        var first := queue.value[0];
        assert first == Contents[produced];
        WindowSlide(fetch.Contents, produced, k);
        queue := Built(queue.value[1..] + [current.value.value]);
        produced := produced + 1;
        return Ok(Of(first));
      }
      ended := true;
      return Ok(None);
    }

    method InternalClose()
      requires Valid() && !closed
      modifies this, fetch
      ensures Valid() && closed && fetch.closed && fetch.closeRuns == 1
    {
      closed := true;
      fetch.Close();
    }
  }

  /** `DistinctFetch`: the values in first-occurrence order, through a `LinkedHashSet`. */
  class DistinctFetch {
    const fetch: Fetch
    var remaining: Lazy<seq<Value>>
    ghost const Contents: seq<Value>
    ghost var produced: nat
    ghost var ended: bool
    ghost var closed: bool

    ghost predicate Valid()
      reads this, fetch
    {
      && fetch.Valid() && fetch.peek == Vacant
      && Contents == Distinct(fetch.Contents)
      && produced <= |Contents| && (ended ==> produced == |Contents|)
      && (closed ==> fetch.closed)
      && (!closed && !ended ==>
            match remaining
            case Unbuilt => produced == 0 && fetch.Open() && fetch.produced == 0
            case Built(rest) => rest == Contents[produced..])
    }

    constructor (fetch: Fetch)
      requires fetch.Pristine()
      ensures Valid() && !closed && !ended && produced == 0
      ensures this.fetch == fetch && Contents == Distinct(fetch.Contents)
    {
      this.fetch, remaining := fetch, Unbuilt;
      Contents := Distinct(fetch.Contents);
      produced, ended, closed := 0, false, false;
    }

    method InternalNext() returns (r: Holder<Value>)
      requires Valid() && !closed && !ended
      modifies this, fetch
      ensures Valid() && !closed
      ensures r == AnswerAt(Contents, old(produced))
      ensures produced == old(produced) + (if r.Exists() then 1 else 0)
      ensures ended <==> !r.Exists()
    {
      if remaining.Unbuilt? {
        Build();
      }
      if remaining.value != [] {
        r := Of(remaining.value[0]);
        remaining, produced := Built(remaining.value[1..]), produced + 1;
      } else {
        r, ended := None, true;
      }
    }

    /** The draining loop of the first `internalNext`, which fills the `LinkedHashSet`. */
    method Build()
      requires Valid() && !closed && !ended && remaining.Unbuilt?
      modifies this, fetch
      ensures Valid() && !closed && !ended && produced == 0 && remaining.Built?
    {
      var linkedSet := fetch.Drain(AddToLinkedSet, []);
      assert fetch.Contents[0..] == fetch.Contents;
      assert linkedSet == Contents by {
        LinkedSetIsDistinct(fetch.Contents);
      }
      remaining := Built(linkedSet);
    }

    method InternalClose()
      requires Valid() && !closed
      modifies this, fetch
      ensures Valid() && closed && fetch.closed && fetch.closeRuns == 1
    {
      closed := true;
      fetch.Close();
    }
  }

  /** `DistinctByFetch`: the first value of every key, through `LinkedHashMap.putIfAbsent`. */
  class DistinctByFetch {
    const fetch: Fetch
    const keyFactory: Value -> Value
    var remaining: Lazy<seq<Value>>
    ghost const Contents: seq<Value>
    ghost var produced: nat
    ghost var ended: bool
    ghost var closed: bool

    ghost predicate Valid()
      reads this, fetch
    {
      && fetch.Valid() && fetch.peek == Vacant
      && Contents == DistinctBy(keyFactory, fetch.Contents)
      && produced <= |Contents| && (ended ==> produced == |Contents|)
      && (closed ==> fetch.closed)
      && (!closed && !ended ==>
            match remaining
            case Unbuilt => produced == 0 && fetch.Open() && fetch.produced == 0
            case Built(rest) => rest == Contents[produced..])
    }

    constructor (fetch: Fetch, keyFactory: Value -> Value)
      requires fetch.Pristine()
      ensures Valid() && !closed && !ended && produced == 0
      ensures this.fetch == fetch && Contents == DistinctBy(keyFactory, fetch.Contents)
    {
      this.fetch, this.keyFactory, remaining := fetch, keyFactory, Unbuilt;
      Contents := DistinctBy(keyFactory, fetch.Contents);
      produced, ended, closed := 0, false, false;
    }

    method InternalNext() returns (r: Holder<Value>)
      requires Valid() && !closed && !ended
      modifies this, fetch
      ensures Valid() && !closed
      ensures r == AnswerAt(Contents, old(produced))
      ensures produced == old(produced) + (if r.Exists() then 1 else 0)
      ensures ended <==> !r.Exists()
    {
      if remaining.Unbuilt? {
        Build();
      }
      if remaining.value != [] {
        r := Of(remaining.value[0]);
        remaining, produced := Built(remaining.value[1..]), produced + 1;
      } else {
        r, ended := None, true;
      }
    }

    /** The draining loop of the first `internalNext`, which fills the `LinkedHashMap`. */
    method Build()
      requires Valid() && !closed && !ended && remaining.Unbuilt?
      modifies this, fetch
      ensures Valid() && !closed && !ended && produced == 0 && remaining.Built?
    {
      var linkedMap := fetch.Drain(PutIfAbsentByKey(keyFactory), EmptyLinkedMap());
      assert fetch.Contents[0..] == fetch.Contents;
      assert linkedMap.Valid() && linkedMap.Values() == Contents by {
        LinkedMapIsDistinctBy(keyFactory, fetch.Contents);
      }
      remaining := Built(linkedMap.Values());
    }

    method InternalClose()
      requires Valid() && !closed
      modifies this, fetch
      ensures Valid() && closed && fetch.closed && fetch.closeRuns == 1
    {
      closed := true;
      fetch.Close();
    }
  }

  /** `GroupByFetch`: one map entry per key, in first-seen key order, with the key's values in order. */
  class GroupByFetch {
    const fetch: Fetch
    const keyFactory: Value -> Value
    var entries: Lazy<seq<Value>>
    ghost const Contents: seq<Value>
    ghost var produced: nat
    ghost var ended: bool
    ghost var closed: bool

    ghost predicate Valid()
      reads this, fetch
    {
      && fetch.Valid() && fetch.peek == Vacant
      && Contents == GroupValues(keyFactory, fetch.Contents)
      && produced <= |Contents| && (ended ==> produced == |Contents|)
      && (closed ==> fetch.closed)
      && (!closed && !ended ==>
            match entries
            case Unbuilt => produced == 0 && fetch.Open() && fetch.produced == 0
            case Built(rest) => rest == Contents[produced..])
    }

    constructor (fetch: Fetch, keyFactory: Value -> Value)
      requires fetch.Pristine()
      ensures Valid() && !closed && !ended && produced == 0
      ensures this.fetch == fetch && Contents == GroupValues(keyFactory, fetch.Contents)
    {
      this.fetch, this.keyFactory, entries := fetch, keyFactory, Unbuilt;
      Contents := GroupValues(keyFactory, fetch.Contents);
      produced, ended, closed := 0, false, false;
    }

    method InternalNext() returns (r: Holder<Value>)
      requires Valid() && !closed && !ended
      modifies this, fetch
      ensures Valid() && !closed
      ensures r == AnswerAt(Contents, old(produced))
      ensures produced == old(produced) + (if r.Exists() then 1 else 0)
      ensures ended <==> !r.Exists()
    {
      if entries.Unbuilt? {
        Build();
      }
      if entries.value != [] {
        r := Of(entries.value[0]);
        entries, produced := Built(entries.value[1..]), produced + 1;
      } else {
        r, ended := None, true;
      }
    }

    /** The draining loop of the first `internalNext`, which fills the `LinkedHashMap` of lists. */
    method Build()
      requires Valid() && !closed && !ended && entries.Unbuilt?
      modifies this, fetch
      ensures Valid() && !closed && !ended && produced == 0 && entries.Built?
    {
      var linkedMap := fetch.Drain(GroupInto(keyFactory), EmptyLinkedMap());
      assert fetch.Contents[0..] == fetch.Contents;
      assert linkedMap.Valid() && GroupEntries(linkedMap) == Contents by {
        GroupEntriesAreGroups(keyFactory, fetch.Contents);
      }
      entries := Built(GroupEntries(linkedMap));
    }

    method InternalClose()
      requires Valid() && !closed
      modifies this, fetch
      ensures Valid() && closed && fetch.closed && fetch.closeRuns == 1
    {
      closed := true;
      fetch.Close();
    }
  }

  /**
   * `OrderFetch`: the values sorted by `comparator` with `Collections.sort`,
   * a stable sort (modelled by `StableSort`).
   */
  class OrderFetch {
    const fetch: Fetch
    const comparator: (Value, Value) -> int
    var remaining: Lazy<seq<Value>>
    ghost const Contents: seq<Value>
    ghost var produced: nat
    ghost var ended: bool
    ghost var closed: bool

    ghost predicate Valid()
      reads this, fetch
    {
      && fetch.Valid() && fetch.peek == Vacant
      && Contents == StableSort(comparator, fetch.Contents)
      && produced <= |Contents| && (ended ==> produced == |Contents|)
      && (closed ==> fetch.closed)
      && (!closed && !ended ==>
            match remaining
            case Unbuilt => produced == 0 && fetch.Open() && fetch.produced == 0
            case Built(rest) => rest == Contents[produced..])
    }

    constructor (fetch: Fetch, comparator: (Value, Value) -> int)
      requires fetch.Pristine()
      ensures Valid() && !closed && !ended && produced == 0
      ensures this.fetch == fetch && this.comparator == comparator
      ensures Contents == StableSort(comparator, fetch.Contents)
    {
      this.fetch, this.comparator, remaining := fetch, comparator, Unbuilt;
      Contents := StableSort(comparator, fetch.Contents);
      produced, ended, closed := 0, false, false;
    }

    /** `orderBy(keySelector)`: `Comparator.comparing(keySelector)`. */
    static method OrderBy(fetch: Fetch, keySelector: Value -> int) returns (o: OrderFetch)
      requires fetch.Pristine()
      ensures fresh(o) && o.Valid() && !o.closed && !o.ended && o.produced == 0 && o.fetch == fetch
      ensures o.comparator == Comparing(keySelector)
    {
      o := new OrderFetch(fetch, Comparing(keySelector));
    }

    /** `orderByDescending(keySelector)`: the keys compared by `Comparator.reverseOrder()`. */
    static method OrderByDescending(fetch: Fetch, keySelector: Value -> int) returns (o: OrderFetch)
      requires fetch.Pristine()
      ensures fresh(o) && o.Valid() && !o.closed && !o.ended && o.produced == 0 && o.fetch == fetch
      ensures o.comparator == Reversed(Comparing(keySelector))
    {
      o := new OrderFetch(fetch, Reversed(Comparing(keySelector)));
    }

    /** `thenBy(keySelector)`: a new stage over the same upstream, ties broken by the new key. */
    method ThenBy(keySelector: Value -> int) returns (o: OrderFetch)
      requires Valid() && !closed && !ended && remaining.Unbuilt?
      ensures fresh(o) && o.Valid() && !o.closed && !o.ended && o.produced == 0 && o.fetch == fetch
      ensures o.comparator == ThenComparing(comparator, Comparing(keySelector))
    {
      o := new OrderFetch(fetch, ThenComparing(comparator, Comparing(keySelector)));
    }

    /** `thenByDescending(keySelector)`: ties broken by the new key in reverse order. */
    method ThenByDescending(keySelector: Value -> int) returns (o: OrderFetch)
      requires Valid() && !closed && !ended && remaining.Unbuilt?
      ensures fresh(o) && o.Valid() && !o.closed && !o.ended && o.produced == 0 && o.fetch == fetch
      ensures o.comparator == ThenComparing(comparator, Reversed(Comparing(keySelector)))
    {
      o := new OrderFetch(fetch, ThenComparing(comparator, Reversed(Comparing(keySelector))));
    }

    method InternalNext() returns (r: Holder<Value>)
      requires Valid() && !closed && !ended
      modifies this, fetch
      ensures Valid() && !closed
      ensures r == AnswerAt(Contents, old(produced))
      ensures produced == old(produced) + (if r.Exists() then 1 else 0)
      ensures ended <==> !r.Exists()
    {
      if remaining.Unbuilt? {
        Build();
      }
      if remaining.value != [] {
        r := Of(remaining.value[0]);
        remaining, produced := Built(remaining.value[1..]), produced + 1;
      } else {
        r, ended := None, true;
      }
    }

    /** The draining loop of the first `internalNext` and the `Collections.sort` of its list. */
    method Build()
      requires Valid() && !closed && !ended && remaining.Unbuilt?
      modifies this, fetch
      ensures Valid() && !closed && !ended && produced == 0 && remaining.Built?
    {
      var list := fetch.Drain(Push, []);
      assert fetch.Contents[0..] == fetch.Contents;
      assert list == fetch.Contents by {
        PushAll(fetch.Contents);
      }
      list := StableSort(comparator, list);
      remaining := Built(list);
    }

    method InternalClose()
      requires Valid() && !closed
      modifies this, fetch
      ensures Valid() && closed && fetch.closed && fetch.closeRuns == 1
    {
      closed := true;
      fetch.Close();
    }
  }

  /** `ReverseFetch`: the values drained into a list, then `Collections.reverse`d. */
  class ReverseFetch {
    const fetch: Fetch
    var remaining: Lazy<seq<Value>>
    ghost const Contents: seq<Value>
    ghost var produced: nat
    ghost var ended: bool
    ghost var closed: bool

    ghost predicate Valid()
      reads this, fetch
    {
      && fetch.Valid() && fetch.peek == Vacant
      && Contents == Reverse(fetch.Contents)
      && produced <= |Contents| && (ended ==> produced == |Contents|)
      && (closed ==> fetch.closed)
      && (!closed && !ended ==>
            match remaining
            case Unbuilt => produced == 0 && fetch.Open() && fetch.produced == 0
            case Built(rest) => rest == Contents[produced..])
    }

    constructor (fetch: Fetch)
      requires fetch.Pristine()
      ensures Valid() && !closed && !ended && produced == 0
      ensures this.fetch == fetch && Contents == Reverse(fetch.Contents)
    {
      this.fetch, remaining := fetch, Unbuilt;
      Contents := Reverse(fetch.Contents);
      produced, ended, closed := 0, false, false;
    }

    method InternalNext() returns (r: Holder<Value>)
      requires Valid() && !closed && !ended
      modifies this, fetch
      ensures Valid() && !closed
      ensures r == AnswerAt(Contents, old(produced))
      ensures produced == old(produced) + (if r.Exists() then 1 else 0)
      ensures ended <==> !r.Exists()
    {
      if remaining.Unbuilt? {
        Build();
      }
      if remaining.value != [] {
        r := Of(remaining.value[0]);
        remaining, produced := Built(remaining.value[1..]), produced + 1;
      } else {
        r, ended := None, true;
      }
    }

    /** The draining loop of the first `internalNext` and the `Collections.reverse` of its list. */
    method Build()
      requires Valid() && !closed && !ended && remaining.Unbuilt?
      modifies this, fetch
      ensures Valid() && !closed && !ended && produced == 0 && remaining.Built?
    {
      var list := fetch.Drain(Push, []);
      assert fetch.Contents[0..] == fetch.Contents;
      assert list == fetch.Contents by {
        PushAll(fetch.Contents);
      }
      list := Reverse(list);
      remaining := Built(list);
    }

    method InternalClose()
      requires Valid() && !closed
      modifies this, fetch
      ensures Valid() && closed && fetch.closed && fetch.closeRuns == 1
    {
      closed := true;
      fetch.Close();
    }
  }
}
