/**
 * The streaming operators of the older revision: the anonymous
 * `LinqIterator` subclasses that `select`, `where`, `take`, `skip`,
 * `takeWhile`, `skipWhile`, `defaultIfEmpty`, `append`, `prepend`,
 * `concat`, `zip`, `selectMany` and `chunk` return from `iterator()`.
 *
 * Each class is the state of one such iterator: the upstream iterator it
 * opens when it is created (`Linq.this.iterator()`, a fresh `Iter` of the
 * upstream query) and its own counters and flags.  Its `Get` is the
 * iterator's `get()`; the caching around it (`hasNext()`/`next()`) is the
 * base class's and is modelled once, by `LegacyIteration.Iter`.  Because
 * that base class stores the none that `get()` answers and never calls it
 * again, `Get` is required not to run after it answered none (`ended`),
 * which matters for `takeWhile`, whose `get()` would go on past the
 * failing value.  Each `Get` answers the next value of `Contents`, the
 * reference function of module Sequences or Operators of the upstream's
 * values, or none once those are used up.
 */
module LegacyStages {
  import opened Values
  import opened Sequences
  import opened Operators
  import opened Fetching
  import opened LegacyIteration
  import opened LegacySpecs

  /** The iterator of `select(func)`. */
  class SelectIterator {
    const iter: Iter
    const func: Value -> Value
    ghost const Contents: seq<Value>
    ghost var produced: nat
    ghost var ended: bool

    ghost predicate Valid()
      reads this, iter
    {
      && iter.Idle() && Contents == Map(func, iter.Contents)
      && produced <= |Contents| && (ended ==> produced == |Contents|)
      && (!ended ==> iter.produced == produced)
    }

    constructor (linq: Query, func: Value -> Value)
      ensures Valid() && fresh(iter) && produced == 0 && !ended
      ensures Contents == Map(func, Elements(linq))
    {
      var upstream := Iterator(linq);
      iter, this.func := upstream, func;
      Contents := Map(func, upstream.Contents);
      produced, ended := 0, false;
    }

    method Get() returns (r: Holder<Value>)
      requires Valid() && !ended
      modifies this, iter
      ensures Valid()
      ensures r == AnswerAt(Contents, old(produced))
      ensures produced == old(produced) + (if r.Exists() then 1 else 0)
      ensures ended <==> !r.Exists()
    {
      var h := iter.Advance();
      if h.Exists() {
        produced := produced + 1;
        return Of(func(h.value));
      }
      ended := true;
      return None;
    }
  }

  /** The iterator of `where(pred)`. */
  class WhereIterator {
    const iter: Iter
    const pred: Value -> bool
    ghost const Contents: seq<Value>
    ghost var produced: nat
    ghost var ended: bool

    ghost predicate Valid()
      reads this, iter
    {
      && iter.Idle() && Contents == Filter(pred, iter.Contents)
      && produced <= |Contents| && (ended ==> produced == |Contents|)
      && (!ended ==> produced == |Filter(pred, iter.Contents[..iter.produced])|)
    }

    constructor (linq: Query, pred: Value -> bool)
      ensures Valid() && fresh(iter) && produced == 0 && !ended
      ensures Contents == Filter(pred, Elements(linq))
    {
      var upstream := Iterator(linq);
      iter, this.pred := upstream, pred;
      Contents := Filter(pred, upstream.Contents);
      produced, ended := 0, false;
      assert upstream.Contents[..0] == [];
    }

    /** The `while (iter.hasNext())` loop: the next value that passes, or none. */
    method Get() returns (r: Holder<Value>)
      requires Valid() && !ended
      modifies this, iter
      ensures Valid()
      ensures r == AnswerAt(Contents, old(produced))
      ensures produced == old(produced) + (if r.Exists() then 1 else 0)
      ensures ended <==> !r.Exists()
    {
      while true
        invariant Valid() && !ended && produced == old(produced)
        decreases |iter.Contents| - iter.produced
      {
        ghost var k := iter.produced;
        var h := iter.Advance();
        if !h.Exists() {
          assert iter.Contents[..k] == iter.Contents;
          ended := true;
          return None;
        }
        FilterAdvance(pred, iter.Contents, k);
        if pred(h.value) {
          produced := produced + 1;
          return h;
        }
      }
    }
  }

  /** The iterator of `take(n)`. */
  class TakeIterator {
    const iter: Iter
    const n: int
    /** The `long` counter of values taken. */
    var i: int
    ghost const Contents: seq<Value>
    ghost var produced: nat
    ghost var ended: bool

    ghost predicate Valid()
      reads this, iter
    {
      && iter.Idle() && Contents == Take(n, iter.Contents)
      && produced <= |Contents| && (ended ==> produced == |Contents|)
      && (!ended ==> i == produced == iter.produced)
    }

    constructor (linq: Query, n: int)
      ensures Valid() && fresh(iter) && produced == 0 && !ended
      ensures Contents == Take(n, Elements(linq))
    {
      var upstream := Iterator(linq);
      iter, this.n, i := upstream, n, 0;
      Contents := Take(n, upstream.Contents);
      produced, ended := 0, false;
    }

    method Get() returns (r: Holder<Value>)
      requires Valid() && !ended
      modifies this, iter
      ensures Valid()
      ensures r == AnswerAt(Contents, old(produced))
      ensures produced == old(produced) + (if r.Exists() then 1 else 0)
      ensures ended <==> !r.Exists()
      ensures old(i) >= n ==> unchanged(iter)
    {
      if i < n {
        var h := iter.Advance();
        if h.Exists() {
          i, produced := i + 1, produced + 1;
          return h;
        }
      }
      ended := true;
      return None;
    }
  }

  /** The iterator of `skip(n)`. */
  class SkipIterator {
    const iter: Iter
    const n: int
    /** The `long` counter of values skipped. */
    var i: int
    ghost const Contents: seq<Value>
    ghost var produced: nat
    ghost var ended: bool

    ghost predicate Skipping()
      reads this, iter
    {
      && 0 <= i
      && (i < n ==> produced == 0 && iter.produced == i)
      && (n <= i ==> i == Clamp(n, |iter.Contents|) && iter.produced == i + produced)
    }

    ghost predicate Valid()
      reads this, iter
    {
      && iter.Idle() && Contents == Skip(n, iter.Contents)
      && produced <= |Contents| && (ended ==> produced == |Contents|)
      && (!ended ==> Skipping())
    }

    constructor (linq: Query, n: int)
      ensures Valid() && fresh(iter) && produced == 0 && !ended
      ensures Contents == Skip(n, Elements(linq))
    {
      var upstream := Iterator(linq);
      iter, this.n, i := upstream, n, 0;
      Contents := Skip(n, upstream.Contents);
      produced, ended := 0, false;
    }

    /** The `while (i < n && iter.hasNext())` loop, then the next value. */
    method Get() returns (r: Holder<Value>)
      requires Valid() && !ended
      modifies this, iter
      ensures Valid()
      ensures r == AnswerAt(Contents, old(produced))
      ensures produced == old(produced) + (if r.Exists() then 1 else 0)
      ensures ended <==> !r.Exists()
    {
      while i < n
        invariant iter.Idle() && Skipping() && produced == old(produced) && !ended
        invariant Contents == Skip(n, iter.Contents) && produced <= |Contents|
        decreases n - i
      {
        var h := iter.Advance();
        if !h.Exists() {
          ended := true;
          return None;
        }
        i := i + 1;
      }
      var h := iter.Advance();
      if h.Exists() {
        produced := produced + 1;
      } else {
        ended := true;
      }
      return h;
    }
  }

  /** The iterator of `takeWhile(p)`. */
  class TakeWhileIterator {
    const iter: Iter
    const p: Value -> bool
    ghost const Contents: seq<Value>
    ghost var produced: nat
    ghost var ended: bool

    ghost predicate Valid()
      reads this, iter
    {
      && iter.Idle() && Contents == TakeWhile(p, iter.Contents)
      && produced <= |Contents| && (ended ==> produced == |Contents|)
      && (!ended ==> iter.produced == produced)
    }

    constructor (linq: Query, p: Value -> bool)
      ensures Valid() && fresh(iter) && produced == 0 && !ended
      ensures Contents == TakeWhile(p, Elements(linq))
    {
      var upstream := Iterator(linq);
      iter, this.p := upstream, p;
      Contents := TakeWhile(p, upstream.Contents);
      produced, ended := 0, false;
    }

    method Get() returns (r: Holder<Value>)
      requires Valid() && !ended
      modifies this, iter
      ensures Valid()
      ensures r == AnswerAt(Contents, old(produced))
      ensures produced == old(produced) + (if r.Exists() then 1 else 0)
      ensures ended <==> !r.Exists()
    {
      var h := iter.Advance();
      if h.Exists() && p(h.value) {
        produced := produced + 1;
        return h;
      }
      ended := true;
      return None;
    }
  }

  /** The iterator of `skipWhile(p)`. */
  class SkipWhileIterator {
    const iter: Iter
    const p: Value -> bool
    var skipped: bool
    ghost const Contents: seq<Value>
    ghost var produced: nat
    ghost var ended: bool

    ghost predicate Valid()
      reads this, iter
    {
      && iter.Idle() && Contents == SkipWhile(p, iter.Contents)
      && produced <= |Contents| && (ended ==> produced == |Contents|)
      && (!ended && !skipped ==> produced == 0 && iter.produced <= LeadingRun(p, iter.Contents))
      && (!ended && skipped ==> iter.produced == LeadingRun(p, iter.Contents) + produced)
    }

    constructor (linq: Query, p: Value -> bool)
      ensures Valid() && fresh(iter) && produced == 0 && !ended
      ensures Contents == SkipWhile(p, Elements(linq))
    {
      var upstream := Iterator(linq);
      iter, this.p, skipped := upstream, p, false;
      Contents := SkipWhile(p, upstream.Contents);
      produced, ended := 0, false;
    }

    method Get() returns (r: Holder<Value>)
      requires Valid() && !ended
      modifies this, iter
      ensures Valid()
      ensures r == AnswerAt(Contents, old(produced))
      ensures produced == old(produced) + (if r.Exists() then 1 else 0)
      ensures ended <==> !r.Exists()
    {
      if !skipped {
        while true
          invariant Valid() && !ended && !skipped && produced == 0
          decreases |iter.Contents| - iter.produced
        {
          var h := iter.Advance();
          if !h.Exists() {
            ended := true;
            return None;
          }
          if !p(h.value) {
            skipped, produced := true, 1;
            return h;
          }
        }
      }
      r := iter.Advance();
      if r.Exists() {
        produced := produced + 1;
      } else {
        ended := true;
      }
    }
  }

  /** The iterator of `defaultIfEmpty(defaultValue)`. */
  class DefaultIfEmptyIterator {
    const iter: Iter
    const defaultValue: Value
    /** The `Boolean isIt`: `null` until the first `get()` asks whether the upstream has a value. */
    var isIt: Lazy<bool>
    var end: bool
    ghost const Contents: seq<Value>
    ghost var produced: nat
    ghost var ended: bool

    ghost predicate Valid()
      reads this, iter
    {
      && iter.Idle() && Contents == DefaultIfEmpty(defaultValue, iter.Contents)
      && produced <= |Contents| && (ended ==> produced == |Contents|)
      && (!ended ==>
            match isIt
            case Unbuilt => produced == 0 && iter.produced == 0 && !end
            case Built(b) =>
              && (b <==> iter.Contents != [])
              && (b ==> iter.produced == produced)
              && (!b ==> (end <==> produced == 1)))
    }

    constructor (linq: Query, defaultValue: Value)
      ensures Valid() && fresh(iter) && produced == 0 && !ended
      ensures Contents == DefaultIfEmpty(defaultValue, Elements(linq))
    {
      var upstream := Iterator(linq);
      iter, this.defaultValue, isIt, end := upstream, defaultValue, Unbuilt, false;
      Contents := DefaultIfEmpty(defaultValue, upstream.Contents);
      produced, ended := 0, false;
    }

    method Get() returns (r: Holder<Value>)
      requires Valid() && !ended
      modifies this, iter
      ensures Valid()
      ensures r == AnswerAt(Contents, old(produced))
      ensures produced == old(produced) + (if r.Exists() then 1 else 0)
      ensures ended <==> !r.Exists()
    {
      if isIt.Unbuilt? {
        var b := iter.HasNext();
        isIt := Built(b);
      }
      if isIt.value {
        r := iter.Advance();
      } else if !end {
        end := true;
        r := Of(defaultValue);
      } else {
        r := None;
      }
      if r.Exists() {
        produced := produced + 1;
      } else {
        ended := true;
      }
    }
  }

  /** The iterator of `append(value)`. */
  class AppendIterator {
    const iter: Iter
    const value: Value
    var end: bool
    ghost const Contents: seq<Value>
    ghost var produced: nat
    ghost var ended: bool

    ghost predicate Valid()
      reads this, iter
    {
      && iter.Idle() && Contents == iter.Contents + [value]
      && produced <= |Contents| && (ended ==> produced == |Contents|)
      && (!ended && !end ==> iter.produced == produced)
      && (!ended && end ==> iter.ended && produced == |Contents|)
    }

    constructor (linq: Query, value: Value)
      ensures Valid() && fresh(iter) && produced == 0 && !ended
      ensures Contents == Elements(linq) + [value]
    {
      var upstream := Iterator(linq);
      iter, this.value, end := upstream, value, false;
      Contents := upstream.Contents + [value];
      produced, ended := 0, false;
    }

    method Get() returns (r: Holder<Value>)
      requires Valid() && !ended
      modifies this, iter
      ensures Valid()
      ensures r == AnswerAt(Contents, old(produced))
      ensures produced == old(produced) + (if r.Exists() then 1 else 0)
      ensures ended <==> !r.Exists()
    {
      r := iter.Advance();
      if !r.Exists() {
        if !end {
          end := true;
          r := Of(value);
        }
      }
      if r.Exists() {
        produced := produced + 1;
      } else {
        ended := true;
      }
    }
  }

  /** The iterator of `prepend(value)`. */
  class PrependIterator {
    const iter: Iter
    const value: Value
    var isIt: bool
    ghost const Contents: seq<Value>
    ghost var produced: nat
    ghost var ended: bool

    ghost predicate Valid()
      reads this, iter
    {
      && iter.Idle() && Contents == [value] + iter.Contents
      && produced <= |Contents| && (ended ==> produced == |Contents|)
      && (!ended && !isIt ==> produced == 0 && iter.produced == 0)
      && (!ended && isIt ==> produced == iter.produced + 1)
    }

    constructor (linq: Query, value: Value)
      ensures Valid() && fresh(iter) && produced == 0 && !ended
      ensures Contents == [value] + Elements(linq)
    {
      var upstream := Iterator(linq);
      iter, this.value, isIt := upstream, value, false;
      Contents := [value] + upstream.Contents;
      produced, ended := 0, false;
    }

    method Get() returns (r: Holder<Value>)
      requires Valid() && !ended
      modifies this, iter
      ensures Valid()
      ensures r == AnswerAt(Contents, old(produced))
      ensures produced == old(produced) + (if r.Exists() then 1 else 0)
      ensures ended <==> !r.Exists()
    {
      if !isIt {
        isIt := true;
        r := Of(value);
      } else {
        r := iter.Advance();
      }
      if r.Exists() {
        produced := produced + 1;
      } else {
        ended := true;
      }
    }
  }

  /** The iterator of `concat(right)`: both upstream iterators are opened when it is created. */
  class ConcatIterator {
    const l: Iter
    const r: Iter
    ghost const Contents: seq<Value>
    ghost var produced: nat
    ghost var ended: bool

    ghost predicate Valid()
      reads this, l, r
    {
      && l != r && l.Idle() && r.Idle() && Contents == l.Contents + r.Contents
      && produced <= |Contents| && (ended ==> produced == |Contents|)
      && (!ended && !l.ended ==> produced == l.produced && r.produced == 0)
      && (!ended && l.ended ==> produced == |l.Contents| + r.produced)
    }

    constructor (linq: Query, right: Query)
      ensures Valid() && fresh(l) && fresh(r) && produced == 0 && !ended
      ensures Contents == Elements(linq) + Elements(right)
    {
      var left := Iterator(linq);
      var other := Iterator(right);
      l, r := left, other;
      Contents := left.Contents + other.Contents;
      produced, ended := 0, false;
    }

    method Get() returns (h: Holder<Value>)
      requires Valid() && !ended
      modifies this, l, r
      ensures Valid()
      ensures h == AnswerAt(Contents, old(produced))
      ensures produced == old(produced) + (if h.Exists() then 1 else 0)
      ensures ended <==> !h.Exists()
    {
      h := l.Advance();
      if !h.Exists() {
        h := r.Advance();
      }
      if h.Exists() {
        produced := produced + 1;
      } else {
        ended := true;
      }
    }
  }

  /** The iterator of `zip(right)`: pairs as long as both upstream iterators have a value. */
  class ZipIterator {
    const l: Iter
    const r: Iter
    ghost const Contents: seq<Value>
    ghost var produced: nat
    ghost var ended: bool

    ghost predicate Valid()
      reads this, l, r
    {
      && l != r && l.Valid() && r.Valid() && Contents == ZipValues(l.Contents, r.Contents)
      && produced <= |Contents| && (ended ==> produced == |Contents|)
      && (!ended ==> l.Idle() && r.Idle() && l.produced == r.produced == produced)
    }

    constructor (linq: Query, right: Query)
      ensures Valid() && fresh(l) && fresh(r) && produced == 0 && !ended
      ensures Contents == ZipValues(Elements(linq), Elements(right))
    {
      var left := Iterator(linq);
      var other := Iterator(right);
      l, r := left, other;
      Contents := ZipValues(left.Contents, other.Contents);
      produced, ended := 0, false;
    }

    /** `l.hasNext() && r.hasNext()`, then a `Tuple2` of both `next()` values. */
    method Get() returns (h: Holder<Value>)
      requires Valid() && !ended
      modifies this, l, r
      ensures Valid()
      ensures h == AnswerAt(Contents, old(produced))
      ensures produced == old(produced) + (if h.Exists() then 1 else 0)
      ensures ended <==> !h.Exists()
    {
      var more := l.HasNext();
      if more {
        more := r.HasNext();
      }
      if !more {
        ended := true;
        return None;
      }
      var x := l.Next();
      var y := r.Next();
      produced := produced + 1;
      return Of(Tuple2(x.value, y.value));
    }
  }

  /** The values of the query `func` gives for `v`: `func.apply(v).iterator()` hands them out. */
  function Expansion(func: Value -> Query): (f: Value -> seq<Value>)
    ensures forall v :: f(v) == Elements(func(v))
  {
    v => Elements(func(v))
  }

  /** The iterator of `selectMany(func)`: `inner` is `null` until the first upstream value is expanded. */
  class SelectManyIterator {
    const iter: Iter
    const func: Value -> Query
    var inner: Iter?
    ghost const Contents: seq<Value>
    ghost var produced: nat
    ghost var ended: bool
    /** The values of the inner iterators used up before the current one. */
    ghost var prior: seq<Value>

    ghost predicate Sound()
      reads this, iter, inner
    {
      && iter.Idle() && (inner != null ==> inner != iter && inner.Valid())
      && Contents == FlatMap(Expansion(func), iter.Contents)
      && produced <= |Contents| && (ended ==> produced == |Contents|)
    }

    /** The values handed out so far are those of the used-up inner iterators and what the current one has given. */
    ghost predicate Tracks()
      reads this, iter, inner
    {
      && iter.produced <= |iter.Contents|
      && (inner == null ==> iter.produced == 0 && prior == [] && produced == 0)
      && (inner != null ==>
            && FlatMap(Expansion(func), iter.Contents[..iter.produced]) == prior + inner.Contents
            && produced == |prior| + inner.produced)
    }

    ghost predicate Valid()
      reads this, iter, inner
    {
      Sound() && (!ended ==> (inner != null ==> inner.Idle()) && Tracks())
    }

    constructor (linq: Query, func: Value -> Query)
      ensures Valid() && fresh(iter) && inner == null && produced == 0 && !ended
      ensures Contents == FlatMap(Expansion(func), Elements(linq))
    {
      var upstream := Iterator(linq);
      iter, this.func, inner := upstream, func, null;
      Contents := FlatMap(Expansion(func), upstream.Contents);
      produced, ended, prior := 0, false, [];
    }

    /**
     * The `while (inner == null || !inner.hasNext())` loop, which opens the
     * iterator of the next upstream value's query, then `inner.next()`.
     */
    method Get() returns (r: Holder<Value>)
      requires Valid() && !ended
      modifies this, iter, inner
      ensures Valid()
      ensures r == AnswerAt(Contents, old(produced))
      ensures produced == old(produced) + (if r.Exists() then 1 else 0)
      ensures ended <==> !r.Exists()
    {
      while true
        invariant Valid() && !ended && produced == old(produced)
        invariant inner == old(inner) || (inner != null && fresh(inner))
        decreases |iter.Contents| - iter.produced
      {
        if inner != null {
          r := PullInner();
          if r.Exists() {
            return;
          }
        }
        var more := Expand();
        if !more {
          return None;
        }
      }
    }

    /** `inner.hasNext()`, and `inner.next()` when it holds. */
    method PullInner() returns (r: Holder<Value>)
      requires Valid() && !ended && inner != null
      modifies this, inner
      ensures Valid() && !ended
      ensures r.Exists() ==> r == AnswerAt(Contents, old(produced)) && produced == old(produced) + 1
      ensures inner == old(inner)
      ensures !r.Exists() ==> produced == old(produced) && inner.ended
    {
      var more := inner.HasNext();
      if !more {
        return None;
      }
      var v := inner.Next();
      FlatMapPrefix(Expansion(func), iter.Contents, iter.produced);
      assert Contents[produced] == (prior + inner.Contents)[produced];
      produced := produced + 1;
      return Of(v.value);
    }

    /** With no inner iterator or a used-up one: none if the upstream has ended, else the next value's iterator. */
    method Expand() returns (more: bool)
      requires Valid() && !ended && (inner != null ==> inner.ended)
      modifies this, iter
      ensures Valid() && produced == old(produced)
      ensures more <==> !ended
      ensures more ==> inner != null && fresh(inner) && iter.produced > old(iter.produced)
    {
      ghost var k := iter.produced;
      var h := iter.Advance();
      if !h.Exists() {
        assert iter.Contents[..k] == iter.Contents;
        ended := true;
        return false;
      }
      FlatMapNext(Expansion(func), iter.Contents, k);
      prior := prior + (if inner == null then [] else inner.Contents);
      inner := Iterator(func(h.value));
      return true;
    }
  }

  /**
   * The iterator of `chunk(size)`, as written (see `LegacySpecs.ChunkAsWritten`):
   * `for (int i = 0; i < size; i++) { list.add(it.next()); if (it.hasNext()) break; }`.
   */
  class ChunkIterator {
    const iter: Iter
    const size: int

    ghost predicate Valid()
      reads this, iter
    {
      iter.Valid()
    }

    constructor (linq: Query, size: int)
      ensures Valid() && fresh(iter) && iter.Contents == Elements(linq) && iter.Position() == 0
    {
      var upstream := Iterator(linq);
      iter, this.size := upstream, size;
    }

    /** One `get()`: what it answers, or throws, is `ChunkAsWritten` of the upstream position. */
    method Get() returns (r: Result<Holder<Value>>)
      requires Valid()
      modifies iter
      ensures Valid()
      ensures old(iter.Position()) <= |iter.Contents|
      ensures (r, iter.Position()) == ChunkAsWritten(size, iter.Contents, old(iter.Position()))
    {
      ghost var k := iter.Position();
      var more := iter.HasNext();
      if !more {
        return Ok(None);
      }
      var list: seq<Value> := [];
      var i := 0;
      while i < size
        invariant iter.Valid() && 0 <= i <= 1 && (i > 0 ==> i <= size)
        invariant i == 0 ==> list == [] && iter.Position() == k < |iter.Contents|
        invariant i > 0 ==> list == [iter.Contents[k]] && iter.Position() == k + 1 == |iter.Contents|
        decreases size - i
      {
        var v := iter.Next();
        if v.Err? {
          return Err(v.error);
        }
        list := list + [v.value];
        more := iter.HasNext();
        if more {
          break;
        }
        i := i + 1;
      }
      assert size <= 0 ==> list == [] && iter.Position() == k;
      assert size > 0 ==> list == [iter.Contents[k]] && iter.Position() == k + 1;
      assert size > 0 ==> k + 1 < |iter.Contents| || size == 1;
      return Ok(Of(List(list)));
    }
  }
}
