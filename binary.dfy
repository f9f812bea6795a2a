/**
 * The operators over two upstream fetches, `left` (the query the operator
 * is called on) and `right` (its argument): `concat` (with `append` and
 * `prepend`), `zip`, `union`, `unionBy`, `except`, `exceptBy`,
 * `intersect`, `intersectBy`, `join` and `groupJoin`.
 *
 * Every one of them keeps both upstreams, which are two distinct fetches,
 * and its `internalClose` closes both of them (with try-with-resources),
 * each exactly once.  As with the one-input stages, the operator pulls its
 * upstreams only with `next()`, so their `peek` slots stay empty.
 */
module Binary {
  import opened Values
  import opened Sequences
  import opened SetOps
  import opened Buffers
  import opened Operators
  import opened Fetching

  /**
   * `ConcatFetch`: the left values, then the right ones.  `fetch` is the
   * upstream currently pulled; it moves from `left` to `right` the first
   * time `left` answers none.
   */
  class ConcatFetch {
    const left: Fetch
    const right: Fetch
    var fetch: Fetch
    ghost const Contents: seq<Value>
    ghost var produced: nat
    ghost var ended: bool
    ghost var closed: bool

    ghost predicate Valid()
      reads this, left, right
    {
      && left != right
      && left.Valid() && left.peek == Vacant && right.Valid() && right.peek == Vacant
      && Contents == left.Contents + right.Contents
      && produced <= |Contents| && (ended ==> produced == |Contents|)
      && (closed ==> left.closed && right.closed)
      && (fetch == left || fetch == right)
      && (!closed && !ended && fetch == left ==>
            left.Open() && right.Open() && right.produced == 0 && produced == left.produced)
      && (!closed && !ended && fetch == right ==>
            left.closed && left.produced == |left.Contents| && right.Open()
            && produced == |left.Contents| + right.produced)
    }

    constructor (left: Fetch, right: Fetch)
      requires left != right && left.Pristine() && right.Pristine()
      ensures Valid() && !closed && !ended && produced == 0
      ensures this.left == left && this.right == right && Contents == left.Contents + right.Contents
    {
      this.left, this.right, fetch := left, right, left;
      Contents := left.Contents + right.Contents;
      produced, ended, closed := 0, false, false;
    }

    /** `append(value)`: the upstream followed by an array fetch over the one value. */
    static method Append(fetch: Fetch, v: Value) returns (c: ConcatFetch)
      requires fetch.Pristine()
      ensures fresh(c) && c.Valid() && !c.closed && !c.ended && c.produced == 0
      ensures c.left == fetch && c.Contents == fetch.Contents + [v]
    {
      var single := FromValues([v]);
      c := new ConcatFetch(fetch, single);
    }

    /** `prepend(value)`: an array fetch over the one value, followed by the upstream. */
    static method Prepend(fetch: Fetch, v: Value) returns (c: ConcatFetch)
      requires fetch.Pristine()
      ensures fresh(c) && c.Valid() && !c.closed && !c.ended && c.produced == 0
      ensures c.right == fetch && c.Contents == [v] + fetch.Contents
    {
      var single := FromValues([v]);
      c := new ConcatFetch(single, fetch);
    }

    method InternalNext() returns (r: Holder<Value>)
      requires Valid() && !closed && !ended
      modifies this, left, right
      ensures Valid() && !closed
      ensures r == AnswerAt(Contents, old(produced))
      ensures produced == old(produced) + (if r.Exists() then 1 else 0)
      ensures ended <==> !r.Exists()
    {
      if fetch == left {
        var current := left.Next();
        if current.value.Exists() {
          produced := produced + 1;
          return current.value;
        }
        fetch := right;
      }
      r := PullRight();
    }

    /** A pull from `right`, once `left` has run out. */
    method PullRight() returns (r: Holder<Value>)
      requires Sound() && !closed && !ended && fetch == right
      requires left.closed && left.produced == |left.Contents| && right.Open()
      requires produced == |left.Contents| + right.produced
      modifies this, right
      ensures Valid() && !closed
      ensures r == AnswerAt(Contents, old(produced))
      ensures produced == old(produced) + (if r.Exists() then 1 else 0)
      ensures ended <==> !r.Exists()
    {
      var current := right.Next();
      if current.value.Exists() {
        produced := produced + 1;
      } else {
        ended := true;
      }
      r := current.value;
    }

    /** The part of `Valid` that does not depend on how far the pulls have got. */
    ghost predicate Sound()
      reads this, left, right
    {
      && left != right
      && left.Valid() && left.peek == Vacant && right.Valid() && right.peek == Vacant
      && Contents == left.Contents + right.Contents
      && produced <= |Contents| && (ended ==> produced == |Contents|)
      && (closed ==> left.closed && right.closed)
    }

    method InternalClose()
      requires Valid() && !closed
      modifies this, left, right
      ensures Valid() && closed
      ensures left.closed && left.closeRuns == 1 && right.closed && right.closeRuns == 1
    {
      closed := true;
      left.Close();
      right.Close();
    }
  }

  /** `ZipFetch`: the pairs of values at equal positions, until either upstream runs out. */
  class ZipFetch {
    const left: Fetch
    const right: Fetch
    ghost const Contents: seq<Value>
    ghost var produced: nat
    ghost var ended: bool
    ghost var closed: bool

    ghost predicate Valid()
      reads this, left, right
    {
      && left != right
      && left.Valid() && left.peek == Vacant && right.Valid() && right.peek == Vacant
      && Contents == ZipValues(left.Contents, right.Contents)
      && produced <= |Contents| && (ended ==> produced == |Contents|)
      && (closed ==> left.closed && right.closed)
      && (!closed && !ended ==>
            left.Open() && right.Open() && left.produced == produced && right.produced == produced)
    }

    constructor (left: Fetch, right: Fetch)
      requires left != right && left.Pristine() && right.Pristine()
      ensures Valid() && !closed && !ended && produced == 0
      ensures this.left == left && this.right == right && Contents == ZipValues(left.Contents, right.Contents)
    {
      this.left, this.right := left, right;
      Contents := ZipValues(left.Contents, right.Contents);
      produced, ended, closed := 0, false, false;
    }

    /**
     * One value from each side; when the right side has run out, the left
     * value just pulled is dropped.
     */
    method InternalNext() returns (r: Holder<Value>)
      requires Valid() && !closed && !ended
      modifies this, left, right
      ensures Valid() && !closed
      ensures r == AnswerAt(Contents, old(produced))
      ensures produced == old(produced) + (if r.Exists() then 1 else 0)
      ensures ended <==> !r.Exists()
    {
      var leftHolder := left.Next();
      if !leftHolder.value.Exists() {
        ended := true;
        return None;
      }
      var rightHolder := right.Next();
      if !rightHolder.value.Exists() {
        ended := true;
        return None;
      }
      produced := produced + 1;
      return Of(Tuple2(leftHolder.value.value, rightHolder.value.value));
    }

    method InternalClose()
      requires Valid() && !closed
      modifies this, left, right
      ensures Valid() && closed
      ensures left.closed && left.closeRuns == 1 && right.closed && right.closeRuns == 1
    {
      closed := true;
      left.Close();
      right.Close();
    }
  }

  /** `UnionFetch`: a `LinkedHashSet` filled from the left values and then the right ones. */
  class UnionFetch {
    const left: Fetch
    const right: Fetch
    /** The rest of the set's iterator, `null` until the first `internalNext`. */
    var remaining: Lazy<seq<Value>>
    ghost const Contents: seq<Value>
    ghost var produced: nat
    ghost var ended: bool
    ghost var closed: bool

    ghost predicate Valid()
      reads this, left, right
    {
      && left != right
      && left.Valid() && left.peek == Vacant && right.Valid() && right.peek == Vacant
      && Contents == Union(left.Contents, right.Contents)
      && produced <= |Contents| && (ended ==> produced == |Contents|)
      && (closed ==> left.closed && right.closed)
      && (!closed && !ended && remaining.Unbuilt? ==>
            produced == 0 && left.Open() && left.produced == 0 && right.Open() && right.produced == 0)
      && (!closed && !ended && remaining.Built? ==> remaining.value == Contents[produced..])
    }

    constructor (left: Fetch, right: Fetch)
      requires left != right && left.Pristine() && right.Pristine()
      ensures Valid() && !closed && !ended && produced == 0
      ensures this.left == left && this.right == right && Contents == Union(left.Contents, right.Contents)
    {
      this.left, this.right, remaining := left, right, Unbuilt;
      Contents := Union(left.Contents, right.Contents);
      produced, ended, closed := 0, false, false;
    }

    method InternalNext() returns (r: Holder<Value>)
      requires Valid() && !closed && !ended
      modifies this, left, right
      ensures Valid() && !closed
      ensures r == AnswerAt(Contents, old(produced))
      ensures produced == old(produced) + (if r.Exists() then 1 else 0)
      ensures ended <==> !r.Exists()
    {
      if remaining.Unbuilt? {
        Build();
      }
      if remaining.value != [] {
        r := Of(remaining.value[0]);
        remaining, produced := Built(remaining.value[1..]), produced + 1;
      } else {
        r, ended := None, true;
      }
    }

    /** The two draining loops of the first `internalNext`. */
    method Build()
      requires Valid() && !closed && !ended && remaining.Unbuilt?
      modifies this, left, right
      ensures Valid() && !closed && !ended && produced == 0 && remaining.Built?
    {
      var linkedSet := left.Drain(AddToLinkedSet, []);
      linkedSet := right.Drain(AddToLinkedSet, linkedSet);
      assert left.Contents[0..] == left.Contents && right.Contents[0..] == right.Contents;
      assert linkedSet == Contents by {
        LinkedSetIsUnion(left.Contents, right.Contents);
      }
      remaining := Built(linkedSet);
    }

    method InternalClose()
      requires Valid() && !closed
      modifies this, left, right
      ensures Valid() && closed
      ensures left.closed && left.closeRuns == 1 && right.closed && right.closeRuns == 1
    {
      closed := true;
      left.Close();
      right.Close();
    }
  }

  /**
   * `UnionByFetch`: a `LinkedHashMap` from key to the first value with that
   * key, filled with `putIfAbsent` from the left values and then the right
   * ones; it yields the map's values.
   */
  class UnionByFetch {
    const left: Fetch
    const right: Fetch
    const key: Value -> Value
    var remaining: Lazy<seq<Value>>
    ghost const Contents: seq<Value>
    ghost var produced: nat
    ghost var ended: bool
    ghost var closed: bool

    ghost predicate Valid()
      reads this, left, right
    {
      && left != right
      && left.Valid() && left.peek == Vacant && right.Valid() && right.peek == Vacant
      && Contents == UnionBy(key, left.Contents, right.Contents)
      && produced <= |Contents| && (ended ==> produced == |Contents|)
      && (closed ==> left.closed && right.closed)
      && (!closed && !ended && remaining.Unbuilt? ==>
            produced == 0 && left.Open() && left.produced == 0 && right.Open() && right.produced == 0)
      && (!closed && !ended && remaining.Built? ==> remaining.value == Contents[produced..])
    }

    constructor (left: Fetch, right: Fetch, key: Value -> Value)
      requires left != right && left.Pristine() && right.Pristine()
      ensures Valid() && !closed && !ended && produced == 0
      ensures this.left == left && this.right == right && this.key == key
      ensures Contents == UnionBy(key, left.Contents, right.Contents)
    {
      this.left, this.right, this.key, remaining := left, right, key, Unbuilt;
      Contents := UnionBy(key, left.Contents, right.Contents);
      produced, ended, closed := 0, false, false;
    }

    method InternalNext() returns (r: Holder<Value>)
      requires Valid() && !closed && !ended
      modifies this, left, right
      ensures Valid() && !closed
      ensures r == AnswerAt(Contents, old(produced))
      ensures produced == old(produced) + (if r.Exists() then 1 else 0)
      ensures ended <==> !r.Exists()
    {
      if remaining.Unbuilt? {
        Build();
      }
      if remaining.value != [] {
        r := Of(remaining.value[0]);
        remaining, produced := Built(remaining.value[1..]), produced + 1;
      } else {
        r, ended := None, true;
      }
    }

    /** The two draining loops of the first `internalNext`. */
    method Build()
      requires Valid() && !closed && !ended && remaining.Unbuilt?
      modifies this, left, right
      ensures Valid() && !closed && !ended && produced == 0 && remaining.Built?
    {
      var linkedMap := left.Drain(PutIfAbsentByKey(key), EmptyLinkedMap());
      linkedMap := right.Drain(PutIfAbsentByKey(key), linkedMap);
      assert left.Contents[0..] == left.Contents && right.Contents[0..] == right.Contents;
      assert linkedMap.Valid() && linkedMap.Values() == Contents by {
        LinkedMapIsUnionBy(key, left.Contents, right.Contents);
      }
      remaining := Built(linkedMap.Values());
    }

    method InternalClose()
      requires Valid() && !closed
      modifies this, left, right
      ensures Valid() && closed
      ensures left.closed && left.closeRuns == 1 && right.closed && right.closeRuns == 1
    {
      closed := true;
      left.Close();
      right.Close();
    }
  }

  /** `ExceptFetch`: the left values that are not among the right ones, read into a `HashSet` first. */
  class ExceptFetch {
    const left: Fetch
    const right: Fetch
    var hashSet: Lazy<set<Value>>
    ghost const Contents: seq<Value>
    ghost var produced: nat
    ghost var ended: bool
    ghost var closed: bool

    /** The part of `Valid` that does not depend on how far the pulls have got. */
    ghost predicate Sound()
      reads this, left, right
    {
      && left != right
      && left.Valid() && left.peek == Vacant && right.Valid() && right.peek == Vacant
      && Contents == Except(left.Contents, right.Contents)
      && produced <= |Contents| && (ended ==> produced == |Contents|)
      && (closed ==> left.closed && right.closed)
    }

    ghost predicate Valid()
      reads this, left, right
    {
      && Sound()
      && (!closed && !ended ==> left.Open())
      && (!closed && !ended && hashSet.Unbuilt? ==>
            produced == 0 && left.produced == 0 && right.Open() && right.produced == 0)
      && (!closed && !ended && hashSet.Built? ==>
            && right.closed && (forall y :: y in hashSet.value <==> y in right.Contents)
            && produced == |Filter(NotIn(right.Contents), left.Contents[..left.produced])|)
    }

    constructor (left: Fetch, right: Fetch)
      requires left != right && left.Pristine() && right.Pristine()
      ensures Valid() && !closed && !ended && produced == 0
      ensures this.left == left && this.right == right
      ensures Contents == Except(left.Contents, right.Contents)
    {
      this.left, this.right, hashSet := left, right, Unbuilt;
      Contents := Except(left.Contents, right.Contents);
      produced, ended, closed := 0, false, false;
    }

    method InternalNext() returns (r: Holder<Value>)
      requires Valid() && !closed && !ended
      modifies this, left, right
      ensures Valid() && !closed
      ensures r == AnswerAt(Contents, old(produced))
      ensures produced == old(produced) + (if r.Exists() then 1 else 0)
      ensures ended <==> !r.Exists()
    {
      if hashSet.Unbuilt? {
        Build();
      }
      while true
        invariant Valid() && !closed && !ended && produced == old(produced) && hashSet.Built?
        decreases |left.Contents| - left.produced
      {
        var done;
        done, r := Pull();
        if done {
          return;
        }
      }
    }

    /** The draining loop over `right` of the first `internalNext`. */
    method Build()
      requires Valid() && !closed && !ended && hashSet.Unbuilt?
      modifies this, right
      ensures Valid() && !closed && !ended && produced == 0 && hashSet.Built?
    {
      var filled := right.Drain(AddToHashSet, {});
      assert right.Contents[0..] == right.Contents;
      assert left.Contents[..0] == [];
      HashSetHolds(right.Contents);
      hashSet := Built(filled);
    }

    /** One turn of the loop over `left`: the next left value, handed out if it passes. */
    method Pull() returns (done: bool, r: Holder<Value>)
      requires Valid() && !closed && !ended && hashSet.Built?
      modifies this, left
      ensures Valid() && !closed && hashSet.Built?
      ensures done ==> && r == AnswerAt(Contents, old(produced))
                       && produced == old(produced) + (if r.Exists() then 1 else 0)
                       && (ended <==> !r.Exists())
      ensures !done ==> !ended && produced == old(produced) && left.produced > old(left.produced)
    {
      ghost var k := left.produced;
      var holder := left.Next();
      if !holder.value.Exists() {
        assert left.Contents[..k] == left.Contents;
        ended := true;
        done, r := true, None;
      } else {
        done, r := Offer(holder.value.value);
      }
    }

    /** The test of a turn once left value `x` has been pulled. */
    method Offer(x: Value) returns (done: bool, r: Holder<Value>)
      requires Sound() && !closed && !ended && left.Open() && right.closed && hashSet.Built?
      requires forall y :: y in hashSet.value <==> y in right.Contents
      requires 0 < left.produced && x == left.Contents[left.produced - 1]
      requires produced == |Filter(NotIn(right.Contents), left.Contents[..left.produced - 1])|
      modifies this
      ensures Valid() && !closed && !ended && hashSet.Built?
      ensures done ==> r == AnswerAt(Contents, old(produced)) && r.Exists() && produced == old(produced) + 1
      ensures !done ==> produced == old(produced)
    {
      FilterAdvance(NotIn(right.Contents), left.Contents, left.produced - 1);
      done := x !in hashSet.value;
      if done {
        produced := produced + 1;
        r := Of(x);
      } else {
        r := None;
      }
    }

    method InternalClose()
      requires Valid() && !closed
      modifies this, left, right
      ensures Valid() && closed
      ensures left.closed && left.closeRuns == 1 && right.closed && right.closeRuns == 1
    {
      closed := true;
      right.Close();
      left.Close();
    }
  }

  /** `ExceptByFetch`: the left values whose key is not the key of a right value, read into a `HashMap` by key first. */
  class ExceptByFetch {
    const left: Fetch
    const right: Fetch
    const key: Value -> Value
    var hashMap: Lazy<map<Value, Value>>
    ghost const Contents: seq<Value>
    ghost var produced: nat
    ghost var ended: bool
    ghost var closed: bool

    /** The part of `Valid` that does not depend on how far the pulls have got. */
    ghost predicate Sound()
      reads this, left, right
    {
      && left != right
      && left.Valid() && left.peek == Vacant && right.Valid() && right.peek == Vacant
      && Contents == ExceptBy(key, left.Contents, right.Contents)
      && produced <= |Contents| && (ended ==> produced == |Contents|)
      && (closed ==> left.closed && right.closed)
    }

    ghost predicate Valid()
      reads this, left, right
    {
      && Sound()
      && (!closed && !ended ==> left.Open())
      && (!closed && !ended && hashMap.Unbuilt? ==>
            produced == 0 && left.produced == 0 && right.Open() && right.produced == 0)
      && (!closed && !ended && hashMap.Built? ==>
            && right.closed && (forall k :: k in hashMap.value <==> k in Map(key, right.Contents))
            && produced == |Filter(KeyNotIn(key, Map(key, right.Contents)), left.Contents[..left.produced])|)
    }

    constructor (left: Fetch, right: Fetch, key: Value -> Value)
      requires left != right && left.Pristine() && right.Pristine()
      ensures Valid() && !closed && !ended && produced == 0
      ensures this.left == left && this.right == right && this.key == key
      ensures Contents == ExceptBy(key, left.Contents, right.Contents)
    {
      this.left, this.right, this.key, hashMap := left, right, key, Unbuilt;
      Contents := ExceptBy(key, left.Contents, right.Contents);
      produced, ended, closed := 0, false, false;
    }

    method InternalNext() returns (r: Holder<Value>)
      requires Valid() && !closed && !ended
      modifies this, left, right
      ensures Valid() && !closed
      ensures r == AnswerAt(Contents, old(produced))
      ensures produced == old(produced) + (if r.Exists() then 1 else 0)
      ensures ended <==> !r.Exists()
    {
      if hashMap.Unbuilt? {
        Build();
      }
      while true
        invariant Valid() && !closed && !ended && produced == old(produced) && hashMap.Built?
        decreases |left.Contents| - left.produced
      {
        var done;
        done, r := Pull();
        if done {
          return;
        }
      }
    }

    /** The draining loop over `right` of the first `internalNext`. */
    method Build()
      requires Valid() && !closed && !ended && hashMap.Unbuilt?
      modifies this, right
      ensures Valid() && !closed && !ended && produced == 0 && hashMap.Built?
    {
      var filled := right.Drain(PutByKey(key), map[]);
      assert right.Contents[0..] == right.Contents;
      assert left.Contents[..0] == [];
      HashMapKeys(key, right.Contents);
      hashMap := Built(filled);
    }

    /** One turn of the loop over `left`: the next left value, handed out if it passes. */
    method Pull() returns (done: bool, r: Holder<Value>)
      requires Valid() && !closed && !ended && hashMap.Built?
      modifies this, left
      ensures Valid() && !closed && hashMap.Built?
      ensures done ==> && r == AnswerAt(Contents, old(produced))
                       && produced == old(produced) + (if r.Exists() then 1 else 0)
                       && (ended <==> !r.Exists())
      ensures !done ==> !ended && produced == old(produced) && left.produced > old(left.produced)
    {
      ghost var k := left.produced;
      var holder := left.Next();
      if !holder.value.Exists() {
        assert left.Contents[..k] == left.Contents;
        ended := true;
        done, r := true, None;
      } else {
        done, r := Offer(holder.value.value);
      }
    }

    /** The test of a turn once left value `x` has been pulled. */
    method Offer(x: Value) returns (done: bool, r: Holder<Value>)
      requires Sound() && !closed && !ended && left.Open() && right.closed && hashMap.Built?
      requires forall k :: k in hashMap.value <==> k in Map(key, right.Contents)
      requires 0 < left.produced && x == left.Contents[left.produced - 1]
      requires produced == |Filter(KeyNotIn(key, Map(key, right.Contents)), left.Contents[..left.produced - 1])|
      modifies this
      ensures Valid() && !closed && !ended && hashMap.Built?
      ensures done ==> r == AnswerAt(Contents, old(produced)) && r.Exists() && produced == old(produced) + 1
      ensures !done ==> produced == old(produced)
    {
      FilterAdvance(KeyNotIn(key, Map(key, right.Contents)), left.Contents, left.produced - 1);
      done := key(x) !in hashMap.value;
      if done {
        produced := produced + 1;
        r := Of(x);
      } else {
        r := None;
      }
    }

    method InternalClose()
      requires Valid() && !closed
      modifies this, left, right
      ensures Valid() && closed
      ensures left.closed && left.closeRuns == 1 && right.closed && right.closeRuns == 1
    {
      closed := true;
      right.Close();
      left.Close();
    }
  }

  /** `IntersectFetch`: the left values that are among the right ones, read into a `HashSet` first. */
  class IntersectFetch {
    const left: Fetch
    const right: Fetch
    var hashSet: Lazy<set<Value>>
    ghost const Contents: seq<Value>
    ghost var produced: nat
    ghost var ended: bool
    ghost var closed: bool

    /** The part of `Valid` that does not depend on how far the pulls have got. */
    ghost predicate Sound()
      reads this, left, right
    {
      && left != right
      && left.Valid() && left.peek == Vacant && right.Valid() && right.peek == Vacant
      && Contents == Intersect(left.Contents, right.Contents)
      && produced <= |Contents| && (ended ==> produced == |Contents|)
      && (closed ==> left.closed && right.closed)
    }

    ghost predicate Valid()
      reads this, left, right
    {
      && Sound()
      && (!closed && !ended ==> left.Open())
      && (!closed && !ended && hashSet.Unbuilt? ==>
            produced == 0 && left.produced == 0 && right.Open() && right.produced == 0)
      && (!closed && !ended && hashSet.Built? ==>
            && right.closed && (forall y :: y in hashSet.value <==> y in right.Contents)
            && produced == |Filter(In(right.Contents), left.Contents[..left.produced])|)
    }

    constructor (left: Fetch, right: Fetch)
      requires left != right && left.Pristine() && right.Pristine()
      ensures Valid() && !closed && !ended && produced == 0
      ensures this.left == left && this.right == right
      ensures Contents == Intersect(left.Contents, right.Contents)
    {
      this.left, this.right, hashSet := left, right, Unbuilt;
      Contents := Intersect(left.Contents, right.Contents);
      produced, ended, closed := 0, false, false;
    }

    method InternalNext() returns (r: Holder<Value>)
      requires Valid() && !closed && !ended
      modifies this, left, right
      ensures Valid() && !closed
      ensures r == AnswerAt(Contents, old(produced))
      ensures produced == old(produced) + (if r.Exists() then 1 else 0)
      ensures ended <==> !r.Exists()
    {
      if hashSet.Unbuilt? {
        Build();
      }
      while true
        invariant Valid() && !closed && !ended && produced == old(produced) && hashSet.Built?
        decreases |left.Contents| - left.produced
      {
        var done;
        done, r := Pull();
        if done {
          return;
        }
      }
    }

    /** The draining loop over `right` of the first `internalNext`. */
    method Build()
      requires Valid() && !closed && !ended && hashSet.Unbuilt?
      modifies this, right
      ensures Valid() && !closed && !ended && produced == 0 && hashSet.Built?
    {
      var filled := right.Drain(AddToHashSet, {});
      assert right.Contents[0..] == right.Contents;
      assert left.Contents[..0] == [];
      HashSetHolds(right.Contents);
      hashSet := Built(filled);
    }

    /** One turn of the loop over `left`: the next left value, handed out if it passes. */
    method Pull() returns (done: bool, r: Holder<Value>)
      requires Valid() && !closed && !ended && hashSet.Built?
      modifies this, left
      ensures Valid() && !closed && hashSet.Built?
      ensures done ==> && r == AnswerAt(Contents, old(produced))
                       && produced == old(produced) + (if r.Exists() then 1 else 0)
                       && (ended <==> !r.Exists())
      ensures !done ==> !ended && produced == old(produced) && left.produced > old(left.produced)
    {
      ghost var k := left.produced;
      var holder := left.Next();
      if !holder.value.Exists() {
        assert left.Contents[..k] == left.Contents;
        ended := true;
        done, r := true, None;
      } else {
        done, r := Offer(holder.value.value);
      }
    }

    /** The test of a turn once left value `x` has been pulled. */
    method Offer(x: Value) returns (done: bool, r: Holder<Value>)
      requires Sound() && !closed && !ended && left.Open() && right.closed && hashSet.Built?
      requires forall y :: y in hashSet.value <==> y in right.Contents
      requires 0 < left.produced && x == left.Contents[left.produced - 1]
      requires produced == |Filter(In(right.Contents), left.Contents[..left.produced - 1])|
      modifies this
      ensures Valid() && !closed && !ended && hashSet.Built?
      ensures done ==> r == AnswerAt(Contents, old(produced)) && r.Exists() && produced == old(produced) + 1
      ensures !done ==> produced == old(produced)
    {
      FilterAdvance(In(right.Contents), left.Contents, left.produced - 1);
      done := x in hashSet.value;
      if done {
        produced := produced + 1;
        r := Of(x);
      } else {
        r := None;
      }
    }

    method InternalClose()
      requires Valid() && !closed
      modifies this, left, right
      ensures Valid() && closed
      ensures left.closed && left.closeRuns == 1 && right.closed && right.closeRuns == 1
    {
      closed := true;
      right.Close();
      left.Close();
    }
  }

  /** `IntersectByFetch`: the left values whose key is one of the keys the right fetch yields, read into a `HashSet` first. */
  class IntersectByFetch {
    const left: Fetch
    const right: Fetch
    const key: Value -> Value
    var hashSet: Lazy<set<Value>>
    ghost const Contents: seq<Value>
    ghost var produced: nat
    ghost var ended: bool
    ghost var closed: bool

    /** The part of `Valid` that does not depend on how far the pulls have got. */
    ghost predicate Sound()
      reads this, left, right
    {
      && left != right
      && left.Valid() && left.peek == Vacant && right.Valid() && right.peek == Vacant
      && Contents == IntersectBy(key, left.Contents, right.Contents)
      && produced <= |Contents| && (ended ==> produced == |Contents|)
      && (closed ==> left.closed && right.closed)
    }

    ghost predicate Valid()
      reads this, left, right
    {
      && Sound()
      && (!closed && !ended ==> left.Open())
      && (!closed && !ended && hashSet.Unbuilt? ==>
            produced == 0 && left.produced == 0 && right.Open() && right.produced == 0)
      && (!closed && !ended && hashSet.Built? ==>
            && right.closed && (forall k :: k in hashSet.value <==> k in right.Contents)
            && produced == |Filter(KeyIn(key, right.Contents), left.Contents[..left.produced])|)
    }

    constructor (left: Fetch, right: Fetch, key: Value -> Value)
      requires left != right && left.Pristine() && right.Pristine()
      ensures Valid() && !closed && !ended && produced == 0
      ensures this.left == left && this.right == right && this.key == key
      ensures Contents == IntersectBy(key, left.Contents, right.Contents)
    {
      this.left, this.right, this.key, hashSet := left, right, key, Unbuilt;
      Contents := IntersectBy(key, left.Contents, right.Contents);
      produced, ended, closed := 0, false, false;
    }

    method InternalNext() returns (r: Holder<Value>)
      requires Valid() && !closed && !ended
      modifies this, left, right
      ensures Valid() && !closed
      ensures r == AnswerAt(Contents, old(produced))
      ensures produced == old(produced) + (if r.Exists() then 1 else 0)
      ensures ended <==> !r.Exists()
    {
      if hashSet.Unbuilt? {
        Build();
      }
      while true
        invariant Valid() && !closed && !ended && produced == old(produced) && hashSet.Built?
        decreases |left.Contents| - left.produced
      {
        var done;
        done, r := Pull();
        if done {
          return;
        }
      }
    }

    /** The draining loop over `right` of the first `internalNext`. */
    method Build()
      requires Valid() && !closed && !ended && hashSet.Unbuilt?
      modifies this, right
      ensures Valid() && !closed && !ended && produced == 0 && hashSet.Built?
    {
      var filled := right.Drain(AddToHashSet, {});
      assert right.Contents[0..] == right.Contents;
      assert left.Contents[..0] == [];
      HashSetHolds(right.Contents);
      hashSet := Built(filled);
    }

    /** One turn of the loop over `left`: the next left value, handed out if it passes. */
    method Pull() returns (done: bool, r: Holder<Value>)
      requires Valid() && !closed && !ended && hashSet.Built?
      modifies this, left
      ensures Valid() && !closed && hashSet.Built?
      ensures done ==> && r == AnswerAt(Contents, old(produced))
                       && produced == old(produced) + (if r.Exists() then 1 else 0)
                       && (ended <==> !r.Exists())
      ensures !done ==> !ended && produced == old(produced) && left.produced > old(left.produced)
    {
      ghost var k := left.produced;
      var holder := left.Next();
      if !holder.value.Exists() {
        assert left.Contents[..k] == left.Contents;
        ended := true;
        done, r := true, None;
      } else {
        done, r := Offer(holder.value.value);
      }
    }

    /** The test of a turn once left value `x` has been pulled. */
    method Offer(x: Value) returns (done: bool, r: Holder<Value>)
      requires Sound() && !closed && !ended && left.Open() && right.closed && hashSet.Built?
      requires forall k :: k in hashSet.value <==> k in right.Contents
      requires 0 < left.produced && x == left.Contents[left.produced - 1]
      requires produced == |Filter(KeyIn(key, right.Contents), left.Contents[..left.produced - 1])|
      modifies this
      ensures Valid() && !closed && !ended && hashSet.Built?
      ensures done ==> r == AnswerAt(Contents, old(produced)) && r.Exists() && produced == old(produced) + 1
      ensures !done ==> produced == old(produced)
    {
      FilterAdvance(KeyIn(key, right.Contents), left.Contents, left.produced - 1);
      done := key(x) in hashSet.value;
      if done {
        produced := produced + 1;
        r := Of(x);
      } else {
        r := None;
      }
    }

    method InternalClose()
      requires Valid() && !closed
      modifies this, left, right
      ensures Valid() && closed
      ensures left.closed && left.closeRuns == 1 && right.closed && right.closeRuns == 1
    {
      closed := true;
      right.Close();
      left.Close();
    }
  }

  /**
   * `GroupJoinFetch`: every left value, with the list of right values of the
   * same key, passed to `resultFactory` (here `result`).  The right values
   * are first grouped by key in a `LinkedHashMap`; a key without a list
   * gets an empty one.
   */
  class GroupJoinFetch {
    const left: Fetch
    const right: Fetch
    const leftKey: Value -> Value
    const rightKey: Value -> Value
    const result: (Value, seq<Value>) -> Value
    var groups: Lazy<LinkedMap<Value, seq<Value>>>
    ghost const Contents: seq<Value>
    ghost var produced: nat
    ghost var ended: bool
    ghost var closed: bool

    ghost predicate Valid()
      reads this, left, right
    {
      && left != right
      && left.Valid() && left.peek == Vacant && right.Valid() && right.peek == Vacant
      && Contents == GroupJoin(leftKey, rightKey, result, left.Contents, right.Contents)
      && produced <= |Contents| && (ended ==> produced == |Contents|)
      && (closed ==> left.closed && right.closed)
      && (!closed && !ended ==> left.Open() && left.produced == produced)
      && (!closed && !ended && groups.Unbuilt? ==> produced == 0 && right.Open() && right.produced == 0)
      && (!closed && !ended && groups.Built? ==>
            right.closed && groups.value == FoldLeft(GroupInto(rightKey), EmptyLinkedMap(), right.Contents))
    }

    constructor (left: Fetch, right: Fetch, leftKey: Value -> Value, rightKey: Value -> Value,
                 result: (Value, seq<Value>) -> Value)
      requires left != right && left.Pristine() && right.Pristine()
      ensures Valid() && !closed && !ended && produced == 0
      ensures this.left == left && this.right == right
      ensures Contents == GroupJoin(leftKey, rightKey, result, left.Contents, right.Contents)
    {
      this.left, this.right, groups := left, right, Unbuilt;
      this.leftKey, this.rightKey, this.result := leftKey, rightKey, result;
      Contents := GroupJoin(leftKey, rightKey, result, left.Contents, right.Contents);
      produced, ended, closed := 0, false, false;
    }

    method InternalNext() returns (r: Holder<Value>)
      requires Valid() && !closed && !ended
      modifies this, left, right
      ensures Valid() && !closed
      ensures r == AnswerAt(Contents, old(produced))
      ensures produced == old(produced) + (if r.Exists() then 1 else 0)
      ensures ended <==> !r.Exists()
    {
      if groups.Unbuilt? {
        Build();
      }
      var holder := left.Next();
      if holder.value.Exists() {
        var x := holder.value.value;
        ListForIsMatches(rightKey, right.Contents, leftKey(x));
        GroupJoinAt(leftKey, rightKey, result, left.Contents, right.Contents, produced);
        produced := produced + 1;
        return Of(result(x, ListFor(groups.value, leftKey(x))));
      }
      ended := true;
      return None;
    }

    /** The draining loop over `right` of the first `internalNext`. */
    method Build()
      requires Valid() && !closed && !ended && groups.Unbuilt?
      modifies this, right
      ensures Valid() && !closed && !ended && produced == 0 && groups.Built?
    {
      var filled := right.Drain(GroupInto(rightKey), EmptyLinkedMap());
      assert right.Contents[0..] == right.Contents;
      groups := Built(filled);
    }

    method InternalClose()
      requires Valid() && !closed
      modifies this, left, right
      ensures Valid() && closed
      ensures left.closed && left.closeRuns == 1 && right.closed && right.closeRuns == 1
    {
      closed := true;
      right.Close();
      left.Close();
    }
  }

  /**
   * `JoinFetch`: like `GroupJoinFetch`, but the left values whose key no
   * right value has are skipped.
   */
  class JoinFetch {
    const left: Fetch
    const right: Fetch
    const leftKey: Value -> Value
    const rightKey: Value -> Value
    const result: (Value, seq<Value>) -> Value
    var groups: Lazy<LinkedMap<Value, seq<Value>>>
    ghost const Contents: seq<Value>
    ghost var produced: nat
    ghost var ended: bool
    ghost var closed: bool

    /** The part of `Valid` that does not depend on how far the pulls have got. */
    ghost predicate Sound()
      reads this, left, right
    {
      && left != right
      && left.Valid() && left.peek == Vacant && right.Valid() && right.peek == Vacant
      && Contents == Join(leftKey, rightKey, result, left.Contents, right.Contents)
      && produced <= |Contents| && (ended ==> produced == |Contents|)
      && (closed ==> left.closed && right.closed)
    }

    ghost predicate Valid()
      reads this, left, right
    {
      && Sound()
      && (!closed && !ended ==> left.Open())
      && (!closed && !ended && groups.Unbuilt? ==>
            produced == 0 && left.produced == 0 && right.Open() && right.produced == 0)
      && (!closed && !ended && groups.Built? ==>
            && right.closed && groups.value == FoldLeft(GroupInto(rightKey), EmptyLinkedMap(), right.Contents)
            && produced == |Join(leftKey, rightKey, result, left.Contents[..left.produced], right.Contents)|)
    }

    constructor (left: Fetch, right: Fetch, leftKey: Value -> Value, rightKey: Value -> Value,
                 result: (Value, seq<Value>) -> Value)
      requires left != right && left.Pristine() && right.Pristine()
      ensures Valid() && !closed && !ended && produced == 0
      ensures this.left == left && this.right == right
      ensures Contents == Join(leftKey, rightKey, result, left.Contents, right.Contents)
    {
      this.left, this.right, groups := left, right, Unbuilt;
      this.leftKey, this.rightKey, this.result := leftKey, rightKey, result;
      Contents := Join(leftKey, rightKey, result, left.Contents, right.Contents);
      produced, ended, closed := 0, false, false;
    }

    method InternalNext() returns (r: Holder<Value>)
      requires Valid() && !closed && !ended
      modifies this, left, right
      ensures Valid() && !closed
      ensures r == AnswerAt(Contents, old(produced))
      ensures produced == old(produced) + (if r.Exists() then 1 else 0)
      ensures ended <==> !r.Exists()
    {
      if groups.Unbuilt? {
        Build();
      }
      while true
        invariant Valid() && !closed && !ended && produced == old(produced) && groups.Built?
        decreases |left.Contents| - left.produced
      {
        var done;
        done, r := Pull();
        if done {
          return;
        }
      }
    }

    /** The draining loop over `right` of the first `internalNext`. */
    method Build()
      requires Valid() && !closed && !ended && groups.Unbuilt?
      modifies this, right
      ensures Valid() && !closed && !ended && produced == 0 && groups.Built?
    {
      var filled := right.Drain(GroupInto(rightKey), EmptyLinkedMap());
      assert right.Contents[0..] == right.Contents;
      assert left.Contents[..0] == [];
      groups := Built(filled);
    }

    /** One turn of the loop over `left`: the next left value, joined if its key has a list. */
    method Pull() returns (done: bool, r: Holder<Value>)
      requires Valid() && !closed && !ended && groups.Built?
      modifies this, left
      ensures Valid() && !closed && groups.Built?
      ensures done ==> && r == AnswerAt(Contents, old(produced))
                       && produced == old(produced) + (if r.Exists() then 1 else 0)
                       && (ended <==> !r.Exists())
      ensures !done ==> !ended && produced == old(produced) && left.produced > old(left.produced)
    {
      ghost var k := left.produced;
      var holder := left.Next();
      if !holder.value.Exists() {
        assert left.Contents[..k] == left.Contents;
        ended := true;
        done, r := true, None;
      } else {
        done, r := Offer(holder.value.value);
      }
    }

    /** The rest of a turn once left value `x` has been pulled: the join result if `x`'s key has a list. */
    method Offer(x: Value) returns (done: bool, r: Holder<Value>)
      requires Sound() && !closed && !ended && left.Open() && right.closed && groups.Built?
      requires groups.value == FoldLeft(GroupInto(rightKey), EmptyLinkedMap(), right.Contents)
      requires 0 < left.produced && x == left.Contents[left.produced - 1]
      requires produced == |Join(leftKey, rightKey, result, left.Contents[..left.produced - 1], right.Contents)|
      modifies this
      ensures Valid() && !closed && !ended && groups.Built?
      ensures done ==> r == AnswerAt(Contents, old(produced)) && r.Exists() && produced == old(produced) + 1
      ensures !done ==> produced == old(produced)
    {
      ghost var k := left.produced - 1;
      ghost var found := leftKey(x) in Map(rightKey, right.Contents);
      assert && |Join(leftKey, rightKey, result, left.Contents[..k + 1], right.Contents)| == produced + (if found then 1 else 0)
             && (found ==> produced < |Contents| && Contents[produced] == result(x, Matches(rightKey, right.Contents, leftKey(x))))
      by {
        JoinAdvance(leftKey, rightKey, result, left.Contents, right.Contents, k);
      }
      assert && (leftKey(x) in groups.value.entries <==> found)
             && (found ==> groups.value.entries[leftKey(x)] == Matches(rightKey, right.Contents, leftKey(x)))
      by {
        ListForIsMatches(rightKey, right.Contents, leftKey(x));
      }
      done := leftKey(x) in groups.value.entries;
      if done {
        produced := produced + 1;
        r := Of(result(x, groups.value.entries[leftKey(x)]));
      } else {
        r := None;
      }
    }

    method InternalClose()
      requires Valid() && !closed
      modifies this, left, right
      ensures Valid() && closed
      ensures left.closed && left.closeRuns == 1 && right.closed && right.closeRuns == 1
    {
      closed := true;
      right.Close();
      left.Close();
    }
  }
}
