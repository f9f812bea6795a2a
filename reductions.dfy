/**
 * Reference definitions of what the terminal operations compute from the
 * values a fetch yields, and the properties that characterise them.
 *
 * Most terminal operations are the same draining loop with a different
 * accumulator step, so their results are left folds (`Buffers.FoldLeft`)
 * of a step: `aggregate`, `sum`, `last`, `max`, `min`, `maxBy`, `minBy`.
 * The lemmas say what those folds mean: the earliest greatest value, the
 * wrapped sum, the last value.
 */
module Reductions {
  import opened Values
  import opened Sequences
  import opened SetOps
  import opened Buffers
  import opened Sorting

  // ---------------------------------------------------------------------
  // aggregate

  /**
   * `aggregate(func)`: the first value combined with each later one in
   * turn, or `NoSuchElementException` when there is none.
   */
  function Aggregated<T>(f: (T, T) -> T, xs: seq<T>): (r: Result<T>)
    ensures r.Err? <==> xs == []
    ensures r.Err? ==> r.error == NoSuchElement
  {
    if xs == [] then Err(NoSuchElement) else Ok(FoldLeft(f, xs[0], xs[1..]))
  }

  /** One more value is one more combination. */
  lemma AggregatedSnoc<T>(f: (T, T) -> T, xs: seq<T>, x: T)
    requires xs != []
    ensures Aggregated(f, xs + [x]) == Ok(f(Aggregated(f, xs).value, x))
  {
    assert (xs + [x])[1..] == xs[1..] + [x];
    FoldLeftSnoc(f, xs[0], xs[1..], x);
  }

  /** `aggregate(seed, func)` is `aggregate(func)` over the input with the seed in front. */
  lemma AggregatedSeeded<T>(f: (T, T) -> T, seed: T, xs: seq<T>)
    ensures Aggregated(f, [seed] + xs) == Ok(FoldLeft(f, seed, xs))
  {
    assert ([seed] + xs)[1..] == xs;
  }

  // ---------------------------------------------------------------------
  // sum and average

  /** The exact sum of `f` over the values. */
  function Sum<T>(f: T -> int, xs: seq<T>): int
  {
    if xs == [] then 0 else Sum(f, xs[..|xs| - 1]) + f(xs[|xs| - 1])
  }

  /** `result += func.apply(value)` on a Java `long`. */
  function LongAdd<T>(f: T -> int): (step: (int, T) -> int)
  {
    (acc: int, v: T) => Wrap64(acc + f(v))
  }

  /** Two numbers that differ by a multiple of 2^64 wrap to the same `long`. */
  lemma Wrap64Congruent(a: int, b: int)
    requires (a - b) % 0x1_0000_0000_0000_0000 == 0
    ensures Wrap64(a) == Wrap64(b)
  {
    var ra, rb := Wrap64(a), Wrap64(b);
    var k := (a - b) / 0x1_0000_0000_0000_0000;
    var ka := (a - ra) / 0x1_0000_0000_0000_0000;
    var kb := (b - rb) / 0x1_0000_0000_0000_0000;
    assert a - b == k * 0x1_0000_0000_0000_0000;
    assert a - ra == ka * 0x1_0000_0000_0000_0000;
    assert b - rb == kb * 0x1_0000_0000_0000_0000;
    assert ra - rb == (k - ka + kb) * 0x1_0000_0000_0000_0000;
  }

  /** Wrapping after every addition is wrapping once at the end. */
  lemma Wrap64Absorbs(a: int, b: int)
    ensures Wrap64(Wrap64(a) + b) == Wrap64(a + b)
  {
    Wrap64Congruent(Wrap64(a) + b, a + b);
  }

  /** The `long` accumulator of `sum` holds the exact sum reduced to the `long` range. */
  lemma {:induction false} LongSumIsWrappedSum<T>(f: T -> int, xs: seq<T>)
    ensures FoldLeft(LongAdd(f), 0, xs) == Wrap64(Sum(f, xs))
    decreases |xs|
  {
    if xs != [] {
      var front, last := xs[..|xs| - 1], xs[|xs| - 1];
      LongSumIsWrappedSum(f, front);
      Wrap64Absorbs(Sum(f, front), f(last));
    }
  }

  /**
   * `average(func)`: the `long` sum divided by the count with Java's
   * truncating division, or `ArithmeticException` (division by zero) when
   * there are no values.
   */
  function Average<T>(f: T -> int, xs: seq<T>): (r: Result<int>)
    ensures r.Err? <==> xs == []
    ensures r.Err? ==> r.error == Arithmetic
  {
    if xs == [] then Err(Arithmetic) else Ok(JavaDiv(Wrap64(Sum(f, xs)), |xs|))
  }

  /**
   * The average rounds toward zero: its magnitude times the count does not
   * exceed the magnitude of the sum, and falls short of it by less than the
   * count.
   */
  lemma AverageTruncates<T>(f: T -> int, xs: seq<T>)
    requires xs != []
    ensures Abs(Average(f, xs).value) * |xs| <= Abs(Wrap64(Sum(f, xs)))
    ensures Abs(Wrap64(Sum(f, xs))) < (Abs(Average(f, xs).value) + 1) * |xs|
  {
    var s, n := Abs(Wrap64(Sum(f, xs))), |xs|;
    var q := s / n;
    assert Abs(Average(f, xs).value) == q;
    assert q * n <= s < q * n + n by {
      assert s == q * n + s % n && 0 <= s % n < n;
    }
    assert (q + 1) * n == q * n + n;
  }

  // ---------------------------------------------------------------------
  // last

  /** `last = current`. */
  function Latest<T>(): (step: (T, T) -> T)
  {
    (_, v) => v
  }

  /** Keeping the latest value leaves the last one. */
  lemma LatestIsLast<T>(x: T, ys: seq<T>)
    ensures FoldLeft(Latest(), x, ys) == ([x] + ys)[|ys|]
  {
  }

  // ---------------------------------------------------------------------
  // max, min, maxBy, minBy

  /** `if (comparator.compare(max, current) < 0) max = current`. */
  function MaxStep<T>(cmp: (T, T) -> int): (step: (T, T) -> T)
  {
    (m: T, v: T) => if cmp(m, v) < 0 then v else m
  }

  /** `if (comparator.compare(min, current) > 0) min = current`. */
  function MinStep<T>(cmp: (T, T) -> int): (step: (T, T) -> T)
  {
    (m: T, v: T) => if cmp(m, v) > 0 then v else m
  }

  /** A comparator that keeps the contract calls every value equal to itself. */
  lemma SelfEqual<T(!new)>(cmp: (T, T) -> int, x: T)
    requires IsComparator(cmp)
    ensures cmp(x, x) == 0
  {
    assert SignFlips(cmp, x, x);
  }

  /**
   * `max`: a greatest value, and the earliest of them: every value before
   * its first occurrence is strictly smaller.
   */
  lemma {:induction false} MaxIsEarliestGreatest<T(!new)>(cmp: (T, T) -> int, xs: seq<T>)
    requires IsComparator(cmp) && xs != []
    ensures Aggregated(MaxStep(cmp), xs).value in xs
    ensures forall j :: 0 <= j < |xs| ==> cmp(xs[j], Aggregated(MaxStep(cmp), xs).value) <= 0
    ensures forall j :: 0 <= j < IndexOf(xs, Aggregated(MaxStep(cmp), xs).value) ==>
      cmp(xs[j], Aggregated(MaxStep(cmp), xs).value) < 0
    decreases |xs|
  {
    var m := Aggregated(MaxStep(cmp), xs).value;
    if |xs| == 1 {
      SelfEqual(cmp, xs[0]);
    } else {
      var front, last := xs[..|xs| - 1], xs[|xs| - 1];
      assert xs == front + [last];
      MaxIsEarliestGreatest(cmp, front);
      var m' := Aggregated(MaxStep(cmp), front).value;
      AggregatedSnoc(MaxStep(cmp), front, last);
      SelfEqual(cmp, last);
      if cmp(m', last) < 0 {
        assert m == last;
        forall j | 0 <= j < |front|
          ensures cmp(xs[j], last) < 0
        {
          assert front[j] == xs[j];
          NotAfterTransitive(cmp, xs[j], m', last);
        }
        assert last !in front by {
          forall j | 0 <= j < |front|
            ensures front[j] != last
          {
            assert cmp(front[j], last) < 0;
          }
        }
        assert IndexOf(xs, m) == |front|;
      } else {
        assert m == m';
        Antisymmetric(cmp, m', last);
        IndexOfAppend(front, [last], m');
      }
    }
  }

  /** Swapping the arguments of a comparator that keeps the contract turns `min` into `max`. */
  lemma MinIsReversedMax<T(!new)>(cmp: (T, T) -> int, init: T, xs: seq<T>)
    requires IsComparator(cmp)
    ensures FoldLeft(MinStep(cmp), init, xs) == FoldLeft(MaxStep(Reversed(cmp)), init, xs)
  {
    forall a, v ensures MinStep(cmp)(a, v) == MaxStep(Reversed(cmp))(a, v) {
      Antisymmetric(cmp, a, v);
    }
    FoldLeftExt(MinStep(cmp), MaxStep(Reversed(cmp)), init, xs);
  }

  /** Folds of two steps that agree everywhere agree. */
  lemma {:induction false} FoldLeftExt<S, T>(f: (S, T) -> S, g: (S, T) -> S, init: S, xs: seq<T>)
    requires forall a, v :: f(a, v) == g(a, v)
    ensures FoldLeft(f, init, xs) == FoldLeft(g, init, xs)
    decreases |xs|
  {
    if xs != [] {
      FoldLeftExt(f, g, init, xs[..|xs| - 1]);
    }
  }

  /**
   * `min`: a least value, and the earliest of them: every value before its
   * first occurrence is strictly greater.
   */
  lemma MinIsEarliestLeast<T(!new)>(cmp: (T, T) -> int, xs: seq<T>)
    requires IsComparator(cmp) && xs != []
    ensures Aggregated(MinStep(cmp), xs).value in xs
    ensures forall j :: 0 <= j < |xs| ==> cmp(Aggregated(MinStep(cmp), xs).value, xs[j]) <= 0
    ensures forall j :: 0 <= j < IndexOf(xs, Aggregated(MinStep(cmp), xs).value) ==>
      cmp(Aggregated(MinStep(cmp), xs).value, xs[j]) < 0
  {
    ReversedIsComparator(cmp);
    MinIsReversedMax(cmp, xs[0], xs[1..]);
    MaxIsEarliestGreatest(Reversed(cmp), xs);
  }

  /** `maxBy(key, keyComparator)` and `minBy` compare values by their keys. */
  function By<T, K>(key: T -> K, keyCmp: (K, K) -> int): (cmp: (T, T) -> int)
  {
    (a: T, b: T) => keyCmp(key(a), key(b))
  }

  lemma ByIsComparator<T(!new), K(!new)>(key: T -> K, keyCmp: (K, K) -> int)
    requires IsComparator(keyCmp)
    ensures IsComparator(By(key, keyCmp))
  {
    var c := By(key, keyCmp);
    forall x, y ensures SignFlips(c, x, y) {
      assert SignFlips(keyCmp, key(x), key(y));
    }
    forall x, y, z ensures GreaterChains(c, x, y, z) {
      assert GreaterChains(keyCmp, key(x), key(y), key(z));
    }
    forall x, y, z ensures TiesAgree(c, x, y, z) {
      assert TiesAgree(keyCmp, key(x), key(y), key(z));
    }
  }

  /** `maxBy(key)` and `minBy(key)` on `Integer` keys compare them with `compareTo`. */
  lemma ByIntsIsComparator<T(!new)>(key: T -> int)
    ensures IsComparator(By(key, CompareInts))
  {
    var c := By(key, CompareInts);
    forall x, y ensures SignFlips(c, x, y) {
      assert c(x, y) == CompareInts(key(x), key(y)) && c(y, x) == CompareInts(key(y), key(x));
    }
    forall x, y, z ensures GreaterChains(c, x, y, z) {
      assert c(x, y) == CompareInts(key(x), key(y)) && c(y, z) == CompareInts(key(y), key(z));
      assert c(x, z) == CompareInts(key(x), key(z));
    }
    forall x, y, z ensures TiesAgree(c, x, y, z) {
      assert c(x, y) == CompareInts(key(x), key(y)) && c(y, z) == CompareInts(key(y), key(z));
      assert c(x, z) == CompareInts(key(x), key(z));
    }
  }

  /**
   * The loop of `maxBy`, which keeps the key of the current maximum beside
   * it instead of recomputing it.
   */
  function MaxByStep<T, K>(key: T -> K, keyCmp: (K, K) -> int): (step: ((T, K), T) -> (T, K))
  {
    (acc: (T, K), v: T) => var k := key(v); if keyCmp(acc.1, k) < 0 then (v, k) else acc
  }

  /** The loop of `minBy`. */
  function MinByStep<T, K>(key: T -> K, keyCmp: (K, K) -> int): (step: ((T, K), T) -> (T, K))
  {
    (acc: (T, K), v: T) => var k := key(v); if keyCmp(acc.1, k) > 0 then (v, k) else acc
  }

  /** The cached key is always the key of the kept value, which is the one `max` by keys keeps. */
  lemma {:induction false} MaxByTracksMax<T, K>(key: T -> K, keyCmp: (K, K) -> int, m: T, xs: seq<T>)
    ensures FoldLeft(MaxByStep(key, keyCmp), (m, key(m)), xs)
      == (FoldLeft(MaxStep(By(key, keyCmp)), m, xs), key(FoldLeft(MaxStep(By(key, keyCmp)), m, xs)))
    decreases |xs|
  {
    if xs != [] {
      MaxByTracksMax(key, keyCmp, m, xs[..|xs| - 1]);
    }
  }

  lemma {:induction false} MinByTracksMin<T, K>(key: T -> K, keyCmp: (K, K) -> int, m: T, xs: seq<T>)
    ensures FoldLeft(MinByStep(key, keyCmp), (m, key(m)), xs)
      == (FoldLeft(MinStep(By(key, keyCmp)), m, xs), key(FoldLeft(MinStep(By(key, keyCmp)), m, xs)))
    decreases |xs|
  {
    if xs != [] {
      MinByTracksMin(key, keyCmp, m, xs[..|xs| - 1]);
    }
  }

  // ---------------------------------------------------------------------
  // toDictionary

  /**
   * `toDictionary(key)`: a `LinkedHashMap` from each value's key to the
   * value, filled in input order; a key that comes again throws
   * `IllegalArgumentException`.
   */
  function Dictionary<T, K(!new)>(key: T -> K, xs: seq<T>): (r: Result<LinkedMap<K, T>>)
    ensures r.Ok? ==> r.value.Valid() && r.value.keys == Map(key, xs)
    ensures r.Err? ==> r.error == IllegalArgument
  {
    if xs == [] then Ok(EmptyLinkedMap()) else
      var front, last := xs[..|xs| - 1], xs[|xs| - 1];
      MapSnoc(key, front, last);
      assert xs == front + [last];
      match Dictionary(key, front)
      case Err(e) => Err(e)
      case Ok(m) => if key(last) in m.entries then Err(IllegalArgument) else Ok(m.Put(key(last), last))
  }

  /** Each value's key maps to that value in the dictionary `toDictionary` builds. */
  lemma {:induction false} DictionaryEntry<T, K(!new)>(key: T -> K, xs: seq<T>, i: nat)
    requires Dictionary(key, xs).Ok? && i < |xs|
    ensures key(xs[i]) in Dictionary(key, xs).value.entries
    ensures Dictionary(key, xs).value.entries[key(xs[i])] == xs[i]
    decreases |xs|
  {
    var front, last := xs[..|xs| - 1], xs[|xs| - 1];
    var m := Dictionary(key, front).value;
    assert key(last) !in m.entries && Dictionary(key, xs).value.entries == m.entries[key(last) := last];
    if i < |front| {
      DictionaryEntry(key, front, i);
      assert xs[i] == front[i];
    }
  }

  /** `toDictionary` succeeds exactly when no two values share a key. */
  lemma {:induction false} DictionarySucceeds<T, K(!new)>(key: T -> K, xs: seq<T>)
    ensures Dictionary(key, xs).Ok? <==> NoDuplicates(Map(key, xs))
    decreases |xs|
  {
    if xs != [] {
      var front, last := xs[..|xs| - 1], xs[|xs| - 1];
      DictionarySucceeds(key, front);
      MapSnoc(key, front, last);
      assert xs == front + [last];
      var ks := Map(key, xs);
      assert ks[..|front|] == Map(key, front);
      if Dictionary(key, front).Ok? {
        var m := Dictionary(key, front).value;
        if key(last) in m.entries {
          var i :| 0 <= i < |m.keys| && m.keys[i] == key(last);
          assert ks[i] == ks[|front|];
        } else {
          forall i, j | 0 <= i < j < |ks| ensures ks[i] != ks[j] {
            if j == |front| {
              assert ks[i] in m.keys;
            } else {
              assert ks[i] == Map(key, front)[i] && ks[j] == Map(key, front)[j];
            }
          }
        }
      } else {
        assert !NoDuplicates(ks) by {
          var i, j :| 0 <= i < j < |front| && Map(key, front)[i] == Map(key, front)[j];
          assert ks[i] == ks[j];
        }
      }
    }
  }

  /** The loop of `toDictionary` after `k + 1` values, from its state after `k`. */
  lemma DictionaryPrefix<T, K(!new)>(key: T -> K, xs: seq<T>, k: nat)
    requires k < |xs|
    ensures Dictionary(key, xs[..k + 1]) ==
      match Dictionary(key, xs[..k])
      case Err(e) => Err(e)
      case Ok(m) => if key(xs[k]) in m.entries then Err(IllegalArgument) else Ok(m.Put(key(xs[k]), xs[k]))
  {
    assert xs[..k + 1][..k] == xs[..k];
  }

  /** Once a key has come twice, `toDictionary` fails whatever follows. */
  lemma DictionaryFailsOnward<T, K(!new)>(key: T -> K, xs: seq<T>, k: nat)
    requires k <= |xs| && Dictionary(key, xs[..k]).Err?
    ensures Dictionary(key, xs) == Err(IllegalArgument)
  {
    DictionarySucceeds(key, xs[..k]);
    DictionarySucceeds(key, xs);
    MapPrefix(key, xs, k);
    var i, j :| 0 <= i < j < k && Map(key, xs[..k])[i] == Map(key, xs[..k])[j];
    assert Map(key, xs)[i] == Map(key, xs)[j];
  }
}
