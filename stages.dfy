/**
 * The streaming stages: the operators whose `internalNext` pulls at most a
 * bounded number of upstream values per call (`select`, `where`, `take`,
 * `skip`, `takeWhile`, `skipWhile`, `defaultIfEmpty`, `chunk`).
 *
 * Every stage keeps the upstream fetch it was built on and the ghost
 * sequence `Contents` of the values it yields, fixed as a reference
 * function of the upstream's values.  Its `InternalNext` yields
 * `Contents[produced]`, or none once `Contents` is used up; its
 * `InternalClose` closes the upstream.  The base class guarantees that
 * `internalNext` is not called after it answered none nor after `close()`
 * (see `Fetching.Fetch`), which is why these methods require an open stage
 * that has not ended.  Each stage pulls its upstream only with `next()`, so
 * the upstream's `peek` slot stays empty.
 */
module Stages {
  import opened Values
  import opened Sequences
  import opened Operators
  import opened Fetching

  /** `SelectFetch`: `function` (here `selector`) applied to every value. */
  class SelectFetch {
    const fetch: Fetch
    const selector: Value -> Value
    ghost const Contents: seq<Value>
    ghost var produced: nat
    ghost var ended: bool
    /** The `closed` flag of the base class, which `close()` sets before running `internalClose`. */
    ghost var closed: bool

    ghost predicate Valid()
      reads this, fetch
    {
      && fetch.Valid() && fetch.peek == Vacant
      && Contents == Map(selector, fetch.Contents)
      && produced <= |Contents| && (ended ==> produced == |Contents|)
      && (closed ==> fetch.closed)
      && (!closed && !ended ==> !fetch.closed && fetch.produced == produced)
    }

    constructor (fetch: Fetch, selector: Value -> Value)
      requires fetch.Pristine()
      ensures Valid() && !closed && !ended && produced == 0
      ensures this.fetch == fetch && Contents == Map(selector, fetch.Contents)
    {
      this.fetch, this.selector := fetch, selector;
      Contents := Map(selector, fetch.Contents);
      produced, ended, closed := 0, false, false;
    }

    method InternalNext() returns (r: Holder<Value>)
      requires Valid() && !closed && !ended
      modifies this, fetch
      ensures Valid() && !closed
      ensures r == AnswerAt(Contents, old(produced))
      ensures produced == old(produced) + (if r.Exists() then 1 else 0)
      ensures ended <==> !r.Exists()
    {
      var holder := fetch.Next();
      if holder.value.Exists() {
        produced := produced + 1;
        return Of(selector(holder.value.value));
      }
      ended := true;
      return None;
    }

    method InternalClose()
      requires Valid() && !closed
      modifies this, fetch
      ensures Valid() && closed && fetch.closed && fetch.closeRuns == 1
    {
      closed := true;
      fetch.Close();
    }
  }

  /** `WhereFetch`: the values that pass `predicate` (here `condition`), in order. */
  class WhereFetch {
    const fetch: Fetch
    const condition: Value -> bool
    ghost const Contents: seq<Value>
    ghost var produced: nat
    ghost var ended: bool
    ghost var closed: bool

    /** The part of `Valid` that does not depend on how far the pulls have got. */
    ghost predicate Sound()
      reads this, fetch
    {
      && fetch.Valid() && fetch.peek == Vacant
      && Contents == Filter(condition, fetch.Contents)
      && produced <= |Contents| && (ended ==> produced == |Contents|)
      && (closed ==> fetch.closed)
    }

    ghost predicate Valid()
      reads this, fetch
    {
      && Sound()
      && (!closed && !ended ==>
            !fetch.closed && produced == |Filter(condition, fetch.Contents[..fetch.produced])|)
    }

    constructor (fetch: Fetch, condition: Value -> bool)
      requires fetch.Pristine()
      ensures Valid() && !closed && !ended && produced == 0
      ensures this.fetch == fetch && Contents == Filter(condition, fetch.Contents)
    {
      this.fetch, this.condition := fetch, condition;
      Contents := Filter(condition, fetch.Contents);
      produced, ended, closed := 0, false, false;
    }

    method InternalNext() returns (r: Holder<Value>)
      requires Valid() && !closed && !ended
      modifies this, fetch
      ensures Valid() && !closed
      ensures r == AnswerAt(Contents, old(produced))
      ensures produced == old(produced) + (if r.Exists() then 1 else 0)
      ensures ended <==> !r.Exists()
    {
      while true
        invariant Valid() && !closed && !ended && produced == old(produced)
        decreases |fetch.Contents| - fetch.produced
      {
        var done;
        done, r := Pull();
        if done {
          return;
        }
      }
    }

    /** One turn of the loop of `internalNext`: the next upstream value, handed out if it passes. */
    method Pull() returns (done: bool, r: Holder<Value>)
      requires Valid() && !closed && !ended
      modifies this, fetch
      ensures Valid() && !closed
      ensures done ==> && r == AnswerAt(Contents, old(produced))
                       && produced == old(produced) + (if r.Exists() then 1 else 0)
                       && (ended <==> !r.Exists())
      ensures !done ==> !ended && produced == old(produced) && fetch.produced > old(fetch.produced)
    {
      ghost var k := fetch.produced;
      var holder := fetch.Next();
      if !holder.value.Exists() {
        assert fetch.Contents[..k] == fetch.Contents;
        ended := true;
        return true, None;
      }
      done, r := Offer(holder.value.value);
    }

    /** The test of a turn once upstream value `x` has been pulled. */
    method Offer(x: Value) returns (done: bool, r: Holder<Value>)
      requires Sound() && !closed && !ended && fetch.Open()
      requires 0 < fetch.produced && x == fetch.Contents[fetch.produced - 1]
      requires produced == |Filter(condition, fetch.Contents[..fetch.produced - 1])|
      modifies this
      ensures Valid() && !closed && !ended
      ensures done ==> r == AnswerAt(Contents, old(produced)) && r.Exists() && produced == old(produced) + 1
      ensures !done ==> produced == old(produced)
    {
      FilterAdvance(condition, fetch.Contents, fetch.produced - 1);
      done := condition(x);
      if done {
        produced := produced + 1;
        r := Of(x);
      } else {
        r := None;
      }
    }

    method InternalClose()
      requires Valid() && !closed
      modifies this, fetch
      ensures Valid() && closed && fetch.closed && fetch.closeRuns == 1
    {
      closed := true;
      fetch.Close();
    }
  }

  /** `TakeFetch`: the first `count` values. */
  class TakeFetch {
    const fetch: Fetch
    const count: int
    var index: int
    ghost const Contents: seq<Value>
    ghost var produced: nat
    ghost var ended: bool
    ghost var closed: bool

    ghost predicate Valid()
      reads this, fetch
    {
      && fetch.Valid() && fetch.peek == Vacant
      && Contents == Take(count, fetch.Contents)
      && produced <= |Contents| && (ended ==> produced == |Contents|)
      && (closed ==> fetch.closed)
      && (!closed && !ended ==> !fetch.closed && index == produced == fetch.produced)
    }

    constructor (fetch: Fetch, count: int)
      requires fetch.Pristine()
      ensures Valid() && !closed && !ended && produced == 0
      ensures this.fetch == fetch && Contents == Take(count, fetch.Contents)
    {
      this.fetch, this.count, index := fetch, count, 0;
      Contents := Take(count, fetch.Contents);
      produced, ended, closed := 0, false, false;
    }

    method InternalNext() returns (r: Holder<Value>)
      requires Valid() && !closed && !ended
      modifies this, fetch
      ensures Valid() && !closed
      ensures r == AnswerAt(Contents, old(produced))
      ensures produced == old(produced) + (if r.Exists() then 1 else 0)
      ensures ended <==> !r.Exists()
      ensures old(index) >= count ==> unchanged(fetch)
    {
      if index < count {
        var holder := fetch.Next();
        if !holder.value.Exists() {
          ended := true;
          return None;
        }
        index, produced := index + 1, produced + 1;
        return holder.value;
      }
      ended := true;
      return None;
    }

    method InternalClose()
      requires Valid() && !closed
      modifies this, fetch
      ensures Valid() && closed && fetch.closed && fetch.closeRuns == 1
    {
      closed := true;
      fetch.Close();
    }
  }

  /**
   * `SelectManyFetch`: the values of the fetch `function` (here `expand`)
   * builds for each upstream value, one inner fetch after another.  The
   * `inner` field starts as an `EmptyFetch`; the builder `selectMany` passes
   * `x -> mapper.apply(x).fetch()`, modelled as an array fetch over the
   * values `expand(x)` lists.
   */
  class SelectManyFetch {
    const fetch: Fetch
    const expand: Value -> seq<Value>
    var inner: Fetch
    ghost const Contents: seq<Value>
    ghost var produced: nat
    ghost var ended: bool
    ghost var closed: bool
    /** The values of the inner fetches used up before the current one. */
    ghost var prior: seq<Value>

    /** What holds at every step, inside `internalNext` as well as between calls. */
    ghost predicate Sound()
      reads this, fetch, inner
    {
      && fetch != inner
      && fetch.Valid() && fetch.peek == Vacant
      && inner.Valid() && inner.peek == Vacant
      && Contents == FlatMap(expand, fetch.Contents)
      && produced <= |Contents| && (ended ==> produced == |Contents|)
      && (closed ==> fetch.closed && inner.closed)
    }

    /** The values handed out so far are those of the used-up inner fetches and the current one's pulled values. */
    ghost predicate Tracks()
      reads this, fetch, inner
    {
      && fetch.produced <= |fetch.Contents|
      && FlatMap(expand, fetch.Contents[..fetch.produced]) == prior + inner.Contents
      && produced == |prior| + inner.produced
    }

    ghost predicate Valid()
      reads this, fetch, inner
    {
      Sound() && (!closed && !ended ==> fetch.Open() && inner.Open() && Tracks())
    }

    constructor (fetch: Fetch, expand: Value -> seq<Value>)
      requires fetch.Pristine()
      ensures Valid() && !closed && !ended && produced == 0
      ensures this.fetch == fetch && Contents == FlatMap(expand, fetch.Contents)
    {
      var empty := new Fetch.Empty();
      assert fetch.Contents[..0] == [];
      this.fetch, this.expand, inner := fetch, expand, empty;
      Contents := FlatMap(expand, fetch.Contents);
      produced, ended, closed, prior := 0, false, false, [];
    }

    method InternalNext() returns (r: Holder<Value>)
      requires Valid() && !closed && !ended
      modifies this, fetch, inner
      ensures Valid() && !closed
      ensures r == AnswerAt(Contents, old(produced))
      ensures produced == old(produced) + (if r.Exists() then 1 else 0)
      ensures ended <==> !r.Exists()
    {
      while true
        invariant Valid() && !closed && !ended && produced == old(produced)
        invariant inner == old(inner) || fresh(inner)
        decreases |fetch.Contents| - fetch.produced
      {
        var done;
        done, r := Step();
        if done {
          return;
        }
      }
    }

    /**
     * One turn of the loop of `internalNext`: the current inner fetch's next
     * value if it has one, else none if the upstream has ended, else a new
     * inner fetch for the next upstream value.
     */
    method Step() returns (done: bool, r: Holder<Value>)
      requires Valid() && !closed && !ended
      modifies this, fetch, inner
      ensures Valid() && !closed
      ensures done ==> && r == AnswerAt(Contents, old(produced))
                       && produced == old(produced) + (if r.Exists() then 1 else 0)
                       && (ended <==> !r.Exists())
      ensures !done ==> && !ended && produced == old(produced) && fresh(inner)
                        && fetch.produced > old(fetch.produced)
    {
      r := PullInner();
      if r.Exists() {
        return true, r;
      }
      var more := Advance();
      return !more, r;
    }

    /** `inner.next()`: the current inner fetch's next value, which is the stage's next value. */
    method PullInner() returns (r: Holder<Value>)
      requires Valid() && !closed && !ended
      modifies this, inner
      ensures !closed && !ended
      ensures r.Exists() ==> Valid() && r == AnswerAt(Contents, old(produced)) && produced == old(produced) + 1
      ensures !r.Exists() ==> && Sound() && Tracks() && fetch.Open() && produced == old(produced)
                              && inner.closed && inner.produced == |inner.Contents|
    {
      var holder := inner.Next();
      if holder.value.Exists() {
        FlatMapPrefix(expand, fetch.Contents, fetch.produced);
        assert Contents[produced] == (prior + inner.Contents)[produced];
        produced := produced + 1;
      }
      return holder.value;
    }

    /** With the current inner fetch used up: none if the upstream has ended, else a new inner fetch. */
    method Advance() returns (more: bool)
      requires Sound() && Tracks() && !closed && !ended && fetch.Open()
      requires inner.closed && inner.produced == |inner.Contents|
      modifies this, fetch
      ensures Valid() && !closed && produced == old(produced)
      ensures more <==> !ended
      ensures more ==> fresh(inner) && fetch.produced > old(fetch.produced)
    {
      ghost var k := fetch.produced;
      var outer := fetch.Next();
      if !outer.value.Exists() {
        assert fetch.Contents[..k] == fetch.Contents;
        ended := true;
        return false;
      }
      FlatMapNext(expand, fetch.Contents, k);
      prior := prior + inner.Contents;
      inner := FromValues(expand(outer.value.value));
      return true;
    }

    /** Closes the upstream and the current inner fetch (the used-up ones closed themselves). */
    method InternalClose()
      requires Valid() && !closed
      modifies this, fetch, inner
      ensures Valid() && closed && fetch.closed && fetch.closeRuns == 1 && inner.closed && inner.closeRuns == 1
    {
      closed := true;
      fetch.Close();
      inner.Close();
    }
  }

  /** `SkipFetch`: everything after the first `count` values. */
  class SkipFetch {
    const fetch: Fetch
    const count: int
    var index: int
    ghost const Contents: seq<Value>
    ghost var produced: nat
    ghost var ended: bool
    ghost var closed: bool

    ghost predicate Skipping()
      reads this, fetch
    {
      && 0 <= index
      && (index < count ==> produced == 0 && fetch.produced == index)
      && (count <= index ==> index == Clamp(count, |fetch.Contents|) && fetch.produced == index + produced)
    }

    ghost predicate Valid()
      reads this, fetch
    {
      && fetch.Valid() && fetch.peek == Vacant
      && Contents == Skip(count, fetch.Contents)
      && produced <= |Contents| && (ended ==> produced == |Contents|)
      && (closed ==> fetch.closed)
      && (!closed && !ended ==> !fetch.closed && Skipping())
    }

    constructor (fetch: Fetch, count: int)
      requires fetch.Pristine()
      ensures Valid() && !closed && !ended && produced == 0
      ensures this.fetch == fetch && Contents == Skip(count, fetch.Contents)
    {
      this.fetch, this.count, index := fetch, count, 0;
      Contents := Skip(count, fetch.Contents);
      produced, ended, closed := 0, false, false;
    }

    method InternalNext() returns (r: Holder<Value>)
      requires Valid() && !closed && !ended
      modifies this, fetch
      ensures Valid() && !closed
      ensures r == AnswerAt(Contents, old(produced))
      ensures produced == old(produced) + (if r.Exists() then 1 else 0)
      ensures ended <==> !r.Exists()
    {
      var more := SkipAhead();
      if !more {
        return None;
      }
      var holder := fetch.Next();
      if holder.value.Exists() {
        produced := produced + 1;
      } else {
        ended := true;
      }
      return holder.value;
    }

    /** The `while (index < count)` loop of `internalNext`; false when the upstream ends inside it. */
    method SkipAhead() returns (more: bool)
      requires Valid() && !closed && !ended
      modifies this, fetch
      ensures Valid() && !closed && produced == old(produced)
      ensures more <==> !ended
      ensures more ==> count <= index
    {
      while index < count
        invariant fetch.Open() && Skipping() && produced == old(produced) && !ended && !closed
        decreases count - index
      {
        var holder := fetch.Next();
        if !holder.value.Exists() {
          ended := true;
          return false;
        }
        index := index + 1;
      }
      return true;
    }

    method InternalClose()
      requires Valid() && !closed
      modifies this, fetch
      ensures Valid() && closed && fetch.closed && fetch.closeRuns == 1
    {
      closed := true;
      fetch.Close();
    }
  }

  /** `TakeWhileFetch`: the values before the first one that fails `predicate` (here `condition`). */
  class TakeWhileFetch {
    const fetch: Fetch
    const condition: Value -> bool
    var terminated: bool
    ghost const Contents: seq<Value>
    ghost var produced: nat
    ghost var ended: bool
    ghost var closed: bool

    ghost predicate Valid()
      reads this, fetch
    {
      && fetch.Valid() && fetch.peek == Vacant
      && Contents == TakeWhile(condition, fetch.Contents)
      && produced <= |Contents| && (ended ==> produced == |Contents|)
      && (closed ==> fetch.closed)
      && (!closed && !ended ==>
            && (terminated ==> produced == |Contents|)
            && (!terminated ==> !fetch.closed && fetch.produced == produced))
    }

    constructor (fetch: Fetch, condition: Value -> bool)
      requires fetch.Pristine()
      ensures Valid() && !closed && !ended && produced == 0
      ensures this.fetch == fetch && Contents == TakeWhile(condition, fetch.Contents)
    {
      this.fetch, this.condition, terminated := fetch, condition, false;
      Contents := TakeWhile(condition, fetch.Contents);
      produced, ended, closed := 0, false, false;
    }

    method InternalNext() returns (r: Holder<Value>)
      requires Valid() && !closed && !ended
      modifies this, fetch
      ensures Valid() && !closed
      ensures r == AnswerAt(Contents, old(produced))
      ensures produced == old(produced) + (if r.Exists() then 1 else 0)
      ensures ended <==> !r.Exists()
    {
      if terminated {
        ended := true;
        return None;
      }
      var holder := fetch.Next();
      if holder.value.Exists() {
        if condition(holder.value.value) {
          produced := produced + 1;
          return holder.value;
        } else {
          terminated, ended := true, true;
          return None;
        }
      }
      ended := true;
      return None;
    }

    method InternalClose()
      requires Valid() && !closed
      modifies this, fetch
      ensures Valid() && closed && fetch.closed && fetch.closeRuns == 1
    {
      closed := true;
      fetch.Close();
    }
  }

  /** `SkipWhileFetch`: everything from the first value that fails `predicate` (here `condition`) on. */
  class SkipWhileFetch {
    const fetch: Fetch
    const condition: Value -> bool
    var skipped: bool
    ghost const Contents: seq<Value>
    ghost var produced: nat
    ghost var ended: bool
    ghost var closed: bool

    ghost predicate Valid()
      reads this, fetch
    {
      && fetch.Valid() && fetch.peek == Vacant
      && Contents == SkipWhile(condition, fetch.Contents)
      && produced <= |Contents| && (ended ==> produced == |Contents|)
      && (closed ==> fetch.closed)
      && (!closed && !ended ==>
            && !fetch.closed
            && (!skipped ==> produced == 0 && fetch.produced == 0)
            && (skipped ==> fetch.produced == LeadingRun(condition, fetch.Contents) + produced))
    }

    constructor (fetch: Fetch, condition: Value -> bool)
      requires fetch.Pristine()
      ensures Valid() && !closed && !ended && produced == 0
      ensures this.fetch == fetch && Contents == SkipWhile(condition, fetch.Contents)
    {
      this.fetch, this.condition, skipped := fetch, condition, false;
      Contents := SkipWhile(condition, fetch.Contents);
      produced, ended, closed := 0, false, false;
    }

    method InternalNext() returns (r: Holder<Value>)
      requires Valid() && !closed && !ended
      modifies this, fetch
      ensures Valid() && !closed
      ensures r == AnswerAt(Contents, old(produced))
      ensures produced == old(produced) + (if r.Exists() then 1 else 0)
      ensures ended <==> !r.Exists()
    {
      if !skipped {
        r := SkipAhead();
        return;
      }
      var holder := fetch.Next();
      if holder.value.Exists() {
        produced := produced + 1;
      } else {
        ended := true;
      }
      return holder.value;
    }

    /** The `if (!skipped)` block of `internalNext`: reads past the leading run and hands out the value after it. */
    method SkipAhead() returns (r: Holder<Value>)
      requires Valid() && !closed && !ended && !skipped
      modifies this, fetch
      ensures Valid() && !closed && skipped
      ensures r == AnswerAt(Contents, 0)
      ensures produced == (if r.Exists() then 1 else 0)
      ensures ended <==> !r.Exists()
    {
      skipped := true;
      while true
        invariant fetch.Open() && produced == 0 && !ended && !closed && skipped
        invariant fetch.produced <= LeadingRun(condition, fetch.Contents)
        decreases |fetch.Contents| - fetch.produced
      {
        var holder := fetch.Next();
        if !holder.value.Exists() {
          ended := true;
          return None;
        }
        if !condition(holder.value.value) {
          produced := 1;
          return holder.value;
        }
      }
    }

    method InternalClose()
      requires Valid() && !closed
      modifies this, fetch
      ensures Valid() && closed && fetch.closed && fetch.closeRuns == 1
    {
      closed := true;
      fetch.Close();
    }
  }

  /** The three states of `DefaultIfEmptyFetch`. */
  datatype DefaultState = Default | Empty | FetchState

  /** `DefaultIfEmptyFetch`: the upstream's values, or `defaultValue` alone when there are none. */
  class DefaultIfEmptyFetch {
    const fetch: Fetch
    const defaultValue: Value
    var state: DefaultState
    ghost const Contents: seq<Value>
    ghost var produced: nat
    ghost var ended: bool
    ghost var closed: bool

    ghost predicate Valid()
      reads this, fetch
    {
      && fetch.Valid() && fetch.peek == Vacant
      && Contents == DefaultIfEmpty(defaultValue, fetch.Contents)
      && produced <= |Contents| && (ended ==> produced == |Contents|)
      && (closed ==> fetch.closed)
      && (!closed && !ended ==>
            match state
            case Default => produced == 0 && fetch.produced == 0 && !fetch.closed
            case FetchState => 0 < produced == fetch.produced && !fetch.closed
            case Empty => fetch.Contents == [] && produced == 1)
    }

    constructor (fetch: Fetch, defaultValue: Value)
      requires fetch.Pristine()
      ensures Valid() && !closed && !ended && produced == 0
      ensures this.fetch == fetch && Contents == DefaultIfEmpty(defaultValue, fetch.Contents)
    {
      this.fetch, this.defaultValue, state := fetch, defaultValue, Default;
      Contents := DefaultIfEmpty(defaultValue, fetch.Contents);
      produced, ended, closed := 0, false, false;
    }

    method InternalNext() returns (r: Holder<Value>)
      requires Valid() && !closed && !ended
      modifies this, fetch
      ensures Valid() && !closed
      ensures r == AnswerAt(Contents, old(produced))
      ensures produced == old(produced) + (if r.Exists() then 1 else 0)
      ensures ended <==> !r.Exists()
    {
      if state == FetchState {
        var holder := fetch.Next();
        if holder.value.Exists() {
          produced := produced + 1;
        } else {
          ended := true;
        }
        return holder.value;
      }
      if state == Default {
        var holder := fetch.Next();
        if holder.value.Exists() {
          state, produced := FetchState, 1;
          return holder.value;
        } else {
          state, produced := Empty, 1;
          return Of(defaultValue);
        }
      }
      ended := true;
      return None;
    }

    method InternalClose()
      requires Valid() && !closed
      modifies this, fetch
      ensures Valid() && closed && fetch.closed && fetch.closeRuns == 1
    {
      closed := true;
      fetch.Close();
    }
  }

  /** `ChunkFetch`: the values in lists of `size`, the last one possibly shorter. */
  class ChunkFetch {
    const fetch: Fetch
    const size: int
    var terminated: bool
    ghost const Contents: seq<Value>
    ghost var produced: nat
    ghost var ended: bool
    ghost var closed: bool

    ghost predicate Reading()
      reads this, fetch
    {
      && !fetch.closed && fetch.produced <= |fetch.Contents|
      && (size <= 0 ==> fetch.produced == 0)
      && (size > 0 ==>
            WholeBlocks(size, fetch.Contents[..fetch.produced])
            && produced == |Chunks(size, fetch.Contents[..fetch.produced])|)
    }

    ghost predicate Valid()
      reads this, fetch
    {
      && fetch.Valid() && fetch.peek == Vacant
      && Contents == ChunkValues(size, fetch.Contents)
      && produced <= |Contents| && (ended ==> produced == |Contents|)
      && (closed ==> fetch.closed)
      && (!closed && !ended ==>
            && (terminated ==> fetch.closed && produced == |Contents|)
            && (!terminated ==> Reading()))
    }

    constructor (fetch: Fetch, size: int)
      requires fetch.Pristine()
      ensures Valid() && !closed && !ended && produced == 0
      ensures this.fetch == fetch && Contents == ChunkValues(size, fetch.Contents)
    {
      this.fetch, this.size, terminated := fetch, size, false;
      Contents := ChunkValues(size, fetch.Contents);
      produced, ended, closed := 0, false, false;
      assert fetch.Contents[..0] == [];
    }

    method InternalNext() returns (r: Holder<Value>)
      requires Valid() && !closed && !ended
      modifies this, fetch
      ensures Valid() && !closed
      ensures r == AnswerAt(Contents, old(produced))
      ensures produced == old(produced) + (if r.Exists() then 1 else 0)
      ensures ended <==> !r.Exists()
    {
      if terminated {
        ended := true;
        return None;
      }
      ghost var k := fetch.produced;
      var list := ReadChunk();
      if size > 0 {
        ChunkResume(size, fetch.Contents, k, fetch.produced);
      }
      if list == [] {
        ended := true;
        return None;
      }
      produced := produced + 1;
      return Of(List(list));
    }

    /** The `for` loop of `internalNext`: up to `size` values into a list, noting the end of the upstream. */
    method ReadChunk() returns (list: seq<Value>)
      requires Valid() && !closed && !ended && !terminated
      modifies this, fetch
      ensures fetch.Valid() && fetch.peek == Vacant && !closed && !ended && produced == old(produced)
      ensures old(fetch.produced) <= fetch.produced <= |fetch.Contents|
      ensures list == fetch.Contents[old(fetch.produced)..fetch.produced]
      ensures terminated ==> fetch.closed && fetch.produced == |fetch.Contents| && |list| < size
      ensures !terminated ==> fetch.Open() && |list| == (if size > 0 then size else 0)
    {
      ghost var k := fetch.produced;
      list := [];
      var i := 0;
      while i < size
        invariant 0 <= i == |list| && (size > 0 ==> i <= size) && (size <= 0 ==> i == 0)
        invariant produced == old(produced) && !ended && !closed && !terminated
        invariant fetch.Open()
        invariant k + i == fetch.produced && list == fetch.Contents[k..fetch.produced]
        decreases size - i
      {
        var current := fetch.Next();
        if !current.value.Exists() {
          terminated := true;
          return;
        }
        SliceSnoc(fetch.Contents, k, k + i);
        list := list + [current.value.value];
        i := i + 1;
      }
    }

    method InternalClose()
      requires Valid() && !closed
      modifies this, fetch
      ensures Valid() && closed && fetch.closed && fetch.closeRuns == 1
    {
      closed := true;
      fetch.Close();
    }
  }
}
