/**
 * Reference definitions, over the value universe, of what the sources and
 * the operators that build values (`range`, `repeat`, `zip`, `chunk`,
 * `groupBy`) yield, and of the two operators that can throw on their first
 * pulls (`takeLast`, `skipLast`).
 */
module Operators {
  import opened Values
  import opened Sequences
  import opened SetOps
  import opened Buffers

  /** How many values a Java `count` argument stands for: none when it is not positive. */
  function Count(n: int): nat
  {
    if n > 0 then n else 0
  }

  /**
   * `range(start, count)`: the integers `start`, `start + 1`, … , `count` of
   * them, computed in Java `int` arithmetic (so a range that passes
   * `Integer.MAX_VALUE` continues from `Integer.MIN_VALUE`).
   */
  function RangeValues(start: int, count: int): seq<Value>
  {
    seq(Count(count), i => Int(Wrap32(start + i)))
  }

  /** `repeat(value, count)`. */
  function RepeatValues(v: Value, count: int): seq<Value>
  {
    seq(Count(count), _ => v)
  }

  /** `zip`: the pairs of values at equal positions, as long as both inputs last. */
  function ZipValues(xs: seq<Value>, ys: seq<Value>): seq<Value>
  {
    var n := if |xs| < |ys| then |xs| else |ys|;
    seq(n, i requires 0 <= i < n => Tuple2(xs[i], ys[i]))
  }

  /** `chunk(size)`: every block of `Chunks` as a list value. */
  function ChunkValues(size: int, xs: seq<Value>): seq<Value>
  {
    Map((c: seq<Value>) => List(c), Chunks(size, xs))
  }

  /** `groupBy(key)`: every group of `Groups` as a map entry. */
  function GroupValues(key: Value -> Value, xs: seq<Value>): seq<Value>
  {
    Map((g: (Value, seq<Value>)) => Entry(g.0, g.1), Groups(key, xs))
  }

  /** `map.entrySet()` of a grouping map, in iteration order. */
  function GroupEntries(m: LinkedMap<Value, seq<Value>>): seq<Value>
    requires m.Valid()
  {
    seq(|m.keys|, i requires 0 <= i < |m.keys| && m.Valid() => Entry(m.keys[i], m.entries[m.keys[i]]))
  }

  /** The entries of the grouping map filled from `xs` are the groups of `xs`. */
  lemma GroupEntriesAreGroups(key: Value -> Value, xs: seq<Value>)
    ensures FoldLeft(GroupInto(key), EmptyLinkedMap(), xs).Valid()
    ensures GroupEntries(FoldLeft(GroupInto(key), EmptyLinkedMap(), xs)) == GroupValues(key, xs)
  {
    GroupIntoCollects(key, xs);
  }

  /** `map.get(key)` on a grouping map, with the empty list `groupJoin` uses for a missing key. */
  function ListFor(m: LinkedMap<Value, seq<Value>>, k: Value): seq<Value>
  {
    if k in m.entries then m.entries[k] else []
  }

  /** Looking a key up in the grouping map of the right input gives the key's matches. */
  lemma ListForIsMatches(rkey: Value -> Value, ys: seq<Value>, k: Value)
    ensures ListFor(FoldLeft(GroupInto(rkey), EmptyLinkedMap(), ys), k) == Matches(rkey, ys, k)
    ensures k in FoldLeft(GroupInto(rkey), EmptyLinkedMap(), ys).entries <==> k in Map(rkey, ys)
  {
    GroupIntoCollects(rkey, ys);
    GroupIntoMembership(rkey, ys, k);
    if k !in Map(rkey, ys) {
      MatchesNonEmpty(rkey, ys, k);
    }
  }

  /** How many pulls of `takeLast(count)` throw: one, when `count` is zero and the input is not empty. */
  function TakeLastThrows(count: int, xs: seq<Value>): nat
  {
    if count == 0 && xs != [] then 1 else 0
  }

  /**
   * One step of the draining loop of `takeLast(count)`: a queue that holds
   * `count` values drops its oldest before taking the new one.  (With a
   * `count` of zero Java's `queue.remove()` throws on the empty queue; the
   * fetch handles that case itself and never uses this step for it.)
   */
  function Enqueue(count: int): (step: (seq<Value>, Value) -> seq<Value>)
  {
    (q: seq<Value>, v: Value) => (if |q| == count && q != [] then q[1..] else q) + [v]
  }

  lemma EnqueueStep(count: int, s: seq<Value>, x: Value)
    requires count != 0
    ensures Enqueue(count)(LastN(count, s), x) == LastN(count, s + [x])
  {
    LastNSnoc(count, s, x);
  }

  /** For a non-zero `count` the drained queue holds the last `count` values (all of them for a negative one). */
  lemma {:induction false} QueueIsLastN(count: int, xs: seq<Value>)
    requires count != 0
    ensures FoldLeft(Enqueue(count), [], xs) == LastN(count, xs)
    decreases |xs|
  {
    if xs != [] {
      var front, last := xs[..|xs| - 1], xs[|xs| - 1];
      calc {
        FoldLeft(Enqueue(count), [], xs);
        Enqueue(count)(FoldLeft(Enqueue(count), [], front), last);
        { QueueIsLastN(count, front); }
        Enqueue(count)(LastN(count, front), last);
        { EnqueueStep(count, front, last); }
        LastN(count, front + [last]);
        { assert xs == front + [last]; }
        LastN(count, xs);
      }
    }
  }

  /** What `skipLast(count)` yields: nothing unless `count` is positive. */
  function SkipLastValues(count: int, xs: seq<Value>): seq<Value>
  {
    if count <= 0 then [] else DropLast(count, xs)
  }

  /** How many pulls of `skipLast(count)` throw: one per input value when `count` is not positive. */
  function SkipLastThrows(count: int, xs: seq<Value>): nat
  {
    if count <= 0 then |xs| else 0
  }
}
