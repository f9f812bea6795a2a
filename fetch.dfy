/**
 * `Linq.Fetch`, the pull cursor every stage of a pipeline is, over the four
 * sources the library starts pipelines from: `ArrayFetch` (`Linq.from`),
 * `RangeFetch`, `RepeatFetch` and `EmptyFetch`.
 *
 * A fetch answers `peek()` and `next()` with a `Holder`, keeps at most one
 * pulled-but-unconsumed holder in its `peek` slot, closes itself when
 * `next()` hands out the absent holder, and runs its `internalClose` at most
 * once.  The protocol methods below call `InternalNext` only through its
 * contract (the next value of `Contents`, or none at the end), which is the
 * same contract every operator stage proves of its own `InternalNext`.
 */
module Fetching {
  import opened Values
  import opened Sequences
  import opened Buffers
  import opened Operators

  /** The `peek` field: Java's `null`, or a holder pulled but not yet handed out by `next()`. */
  datatype Cache = Vacant | Cached(holder: Holder<Value>)

  /** Which of the four source classes a fetch is, with its constructor arguments (an array as its elements). */
  datatype Source =
    | ArraySource(items: seq<Value>)
    | RangeSource(start: int, count: int)
    | RepeatSource(value: Value, count: int)
    | EmptySource

  /** What a cursor over `xs` answers once `k` values have been taken: the next value, or none. */
  function AnswerAt(xs: seq<Value>, k: nat): (h: Holder<Value>)
    ensures h.Exists() <==> k < |xs|
    ensures h.Exists() ==> h.value == xs[k]
  {
    if k < |xs| then Of(xs[k]) else None
  }

  class Fetch {
    const source: Source
    /** `index` of the array, range and repeat fetches (the empty fetch has none and keeps it at 0). */
    var index: int
    var closed: bool
    var peek: Cache

    /** The values `internalNext` yields, in order, before it answers none. */
    ghost const Contents: seq<Value>
    /** How many values `internalNext` has yielded. */
    ghost var produced: nat
    /** Whether `internalNext` has answered none. */
    ghost var ended: bool
    /** How many times `internalNext` has run. */
    ghost var calls: nat
    /** How many times `internalClose` has run. */
    ghost var closeRuns: nat

    /**
     * `Contents` is what the source yields; it depends on the constructor
     * arguments only.
     */
    ghost predicate Generates()
    {
      match source
      case ArraySource(items) => Contents == items
      case RangeSource(start, count) => IsInt32(start) && IsInt32(count) && Contents == RangeValues(start, count)
      case RepeatSource(v, count) => Contents == RepeatValues(v, count)
      case EmptySource => Contents == []
    }

    /** The invariant that holds between any two steps, even inside `next()`. */
    ghost predicate Sound()
      reads this
    {
      && Generates()
      && produced <= |Contents|
      && (ended ==> produced == |Contents|)
      && calls == produced + (if ended then 1 else 0)
      && index == (if source.EmptySource? then 0 else produced)
      && closeRuns == (if closed then 1 else 0)
      && (peek.Cached? ==>
            if ended then peek.holder == None
            else 0 < produced && peek.holder == Of(Contents[produced - 1]))
    }

    /**
     * The invariant between calls: once `internalNext` has answered none,
     * either the fetch is closed or that answer still waits in `peek`, so
     * `internalNext` is never asked again.
     */
    ghost predicate Valid()
      reads this
    {
      Sound() && (ended && !closed ==> peek == Cached(None))
    }

    /** How many values the fetch's callers have received from `next()`. */
    ghost function Position(): nat
      reads this
      requires Sound()
    {
      if peek.Cached? && peek.holder.Exists() then produced - 1 else produced
    }

    /** A fetch nobody has used yet. */
    ghost predicate Pristine()
      reads this
    {
      Valid() && !closed && peek == Vacant && produced == 0 && !ended && calls == 0
    }

    /** A fetch that a stage pulls only with `next()`, and that is still open. */
    ghost predicate Open()
      reads this
    {
      Valid() && !closed && peek == Vacant && !ended
    }

    /** `Linq.from(array)`: the array's elements as they are when the fetch is built. */
    constructor FromArray(a: array<Value>)
      ensures Pristine() && source == ArraySource(a[..]) && Contents == a[..]
    {
      source := ArraySource(a[..]);
      Contents := a[..];
      index, closed, peek := 0, false, Vacant;
      produced, ended, calls, closeRuns := 0, false, 0, 0;
    }

    /** `Linq.range(start, count)`. */
    constructor Range(start: int, count: int)
      requires IsInt32(start) && IsInt32(count)
      ensures Pristine() && source == RangeSource(start, count) && Contents == RangeValues(start, count)
    {
      source := RangeSource(start, count);
      Contents := RangeValues(start, count);
      index, closed, peek := 0, false, Vacant;
      produced, ended, calls, closeRuns := 0, false, 0, 0;
    }

    /** `Linq.repeat(value, count)`. */
    constructor Repeat(v: Value, count: int)
      ensures Pristine() && source == RepeatSource(v, count) && Contents == RepeatValues(v, count)
    {
      source := RepeatSource(v, count);
      Contents := RepeatValues(v, count);
      index, closed, peek := 0, false, Vacant;
      produced, ended, calls, closeRuns := 0, false, 0, 0;
    }

    /** `Linq.empty()`. */
    constructor Empty()
      ensures Pristine() && source == EmptySource && Contents == []
    {
      source := EmptySource;
      Contents := [];
      index, closed, peek := 0, false, Vacant;
      produced, ended, calls, closeRuns := 0, false, 0, 0;
    }

    /** The `internalNext` of the four sources: the next value while the index is in range. */
    method InternalNext() returns (r: Holder<Value>)
      requires Sound() && !closed && !ended && peek == Vacant
      modifies this
      ensures Sound() && !closed && peek == Vacant
      ensures r == AnswerAt(Contents, old(produced))
      ensures produced == old(produced) + (if r.Exists() then 1 else 0)
      ensures ended <==> !r.Exists()
      ensures calls == old(calls) + 1
    {
      calls := calls + 1;
      match source
      case ArraySource(a) =>
        if index < |a| {
          r := Of(a[index]);
          index, produced := index + 1, produced + 1;
        } else {
          r, ended := None, true;
        }
      case RangeSource(start, count) =>
        if index < count {
          r := Of(Int(Wrap32(start + index)));
          index, produced := index + 1, produced + 1;
        } else {
          r, ended := None, true;
        }
      case RepeatSource(v, count) =>
        if index < count {
          index, produced := index + 1, produced + 1;
          r := Of(v);
        } else {
          r, ended := None, true;
        }
      case EmptySource =>
        r, ended := None, true;
    }

    /** `peek()`: the holder `next()` will hand out, pulled at most once. */
    method Peek() returns (r: Result<Holder<Value>>)
      requires Valid()
      modifies this
      ensures Valid()
      ensures old(closed) ==> r == Err(IllegalState) && unchanged(this)
      ensures !old(closed) ==> && r == Ok(AnswerAt(Contents, old(Position())))
                               && !closed && peek == Cached(r.value)
                               && Position() == old(Position())
                               && calls == old(calls) + (if old(peek).Vacant? then 1 else 0)
    {
      if closed {
        return Err(IllegalState);
      }
      if peek.Vacant? {
        var h := InternalNext();
        peek := Cached(h);
      }
      r := Ok(peek.holder);
    }

    /**
     * `next()`: the cached holder if there is one, else a fresh one; handing
     * out the absent holder closes the fetch.
     */
    method Next() returns (r: Result<Holder<Value>>)
      requires Valid()
      modifies this
      ensures Valid()
      ensures old(closed) ==> r == Err(IllegalState) && unchanged(this)
      ensures !old(closed) ==> && r == Ok(AnswerAt(Contents, old(Position())))
                               && peek == Vacant
                               && (r.value.Exists() ==> Open() && Position() == old(Position()) + 1)
                               && (!r.value.Exists() ==> closed && Position() == |Contents|)
                               && calls == old(calls) + (if old(peek).Vacant? then 1 else 0)
    {
      if closed {
        return Err(IllegalState);
      }
      if peek.Vacant? {
        var current := InternalNext();
        if !current.Exists() {
          Close();
        }
        r := Ok(current);
      } else {
        var current := peek.holder;
        if !current.Exists() {
          Close();
        }
        peek := Vacant;
        r := Ok(current);
      }
    }

    /** `close()`: marks the fetch closed and runs `internalClose` the first time only. */
    method Close()
      requires Sound()
      modifies this
      ensures Valid() && closed && closeRuns == 1
      ensures old(closed) ==> unchanged(this)
      ensures produced == old(produced) && ended == old(ended) && peek == old(peek) && calls == old(calls)
    {
      if !closed {
        closed := true;
        InternalClose();
      }
    }

    /** The sources' `internalClose`, which releases nothing. */
    method InternalClose()
      modifies this
      ensures closeRuns == old(closeRuns) + 1
      ensures closed == old(closed) && index == old(index) && peek == old(peek)
      ensures produced == old(produced) && ended == old(ended) && calls == old(calls)
    {
      closeRuns := closeRuns + 1;
    }

    /**
     * The draining loop the buffering stages and most terminal operations
     * run, `while (true) { h = fetch.next(); if (!h.exists()) break; … }`,
     * with the loop body as a step function on the accumulated state.
     */
    method Drain<S>(step: (S, Value) -> S, init: S) returns (acc: S)
      requires Open()
      modifies this
      ensures Valid() && closed && peek == Vacant && produced == |Contents|
      ensures acc == FoldLeft(step, init, Contents[old(produced)..])
    {
      ghost var start := produced;
      acc := init;
      while true
        invariant Open() && start <= produced
        invariant acc == FoldLeft(step, init, Contents[start..produced])
        decreases |Contents| - produced
      {
        ghost var before := produced;
        var h := Next();
        if !h.value.Exists() {
          assert Contents[start..produced] == Contents[start..];
          return;
        }
        FoldLeftSlice(step, init, Contents, start, before);
        acc := step(acc, h.value.value);
      }
    }
  }

  /** A fresh array fetch over the values of `xs`, as `Linq.from(values).fetch()` builds. */
  method FromValues(xs: seq<Value>) returns (f: Fetch)
    ensures fresh(f) && f.Pristine() && f.Contents == xs
  {
    var a := new Value[|xs|](i requires 0 <= i < |xs| => xs[i]);
    f := new Fetch.FromArray(a);
  }
}
