/**
 * Comparators and the stable sort behind `orderBy`.
 *
 * `Collections.sort` is a stable merge sort.  For a comparator that keeps
 * the `java.util.Comparator` contract, the stable sorted order of a list is
 * unique, so it is given here by insertion sort and characterised by three
 * lemmas: the result is sorted, is a permutation of the input, and keeps the
 * input order among values the comparator calls equal.
 */
module Sorting {
  import opened Sequences

  function Sgn(i: int): (s: int)
    ensures s == -1 || s == 0 || s == 1
    ensures (s < 0 <==> i < 0) && (s > 0 <==> i > 0)
  {
    if i < 0 then -1 else if i > 0 then 1 else 0
  }

  /**
   * The three clauses of the contract of `java.util.Comparator.compare`,
   * each for given arguments.  They are separate predicates so that a proof
   * instantiates the contract only where it names the clause.
   */
  ghost predicate SignFlips<T>(cmp: (T, T) -> int, x: T, y: T) {
    Sgn(cmp(x, y)) == -Sgn(cmp(y, x))
  }

  ghost predicate GreaterChains<T>(cmp: (T, T) -> int, x: T, y: T, z: T) {
    cmp(x, y) > 0 && cmp(y, z) > 0 ==> cmp(x, z) > 0
  }

  ghost predicate TiesAgree<T>(cmp: (T, T) -> int, x: T, y: T, z: T) {
    cmp(x, y) == 0 ==> Sgn(cmp(x, z)) == Sgn(cmp(y, z))
  }

  /** The contract of `java.util.Comparator.compare`. */
  ghost predicate IsComparator<T(!new)>(cmp: (T, T) -> int) {
    && (forall x, y :: SignFlips(cmp, x, y))
    && (forall x, y, z :: GreaterChains(cmp, x, y, z))
    && (forall x, y, z :: TiesAgree(cmp, x, y, z))
  }

  /** "Not after" is transitive for a comparator that keeps the contract. */
  lemma NotAfterTransitive<T(!new)>(cmp: (T, T) -> int, a: T, b: T, c: T)
    requires IsComparator(cmp)
    requires cmp(a, b) <= 0 && cmp(b, c) <= 0
    ensures cmp(a, c) <= 0
    ensures cmp(a, b) < 0 || cmp(b, c) < 0 ==> cmp(a, c) < 0
  {
    assert SignFlips(cmp, a, b) && SignFlips(cmp, b, c) && SignFlips(cmp, a, c);
    if cmp(a, b) == 0 {
      assert TiesAgree(cmp, a, b, c);
    } else if cmp(b, c) == 0 {
      assert TiesAgree(cmp, b, c, a);
      assert SignFlips(cmp, c, a);
    } else {
      assert GreaterChains(cmp, c, b, a);
    }
  }

  /** A comparator that keeps the contract is antisymmetric in sign. */
  lemma Antisymmetric<T(!new)>(cmp: (T, T) -> int, a: T, b: T)
    requires IsComparator(cmp)
    ensures cmp(a, b) < 0 <==> cmp(b, a) > 0
    ensures cmp(a, b) == 0 <==> cmp(b, a) == 0
  {
    assert SignFlips(cmp, a, b);
  }

  /** `Integer.compare`. */
  function CompareInts(a: int, b: int): (c: int)
    ensures c == -1 || c == 0 || c == 1
    ensures (c < 0 <==> a < b) && (c == 0 <==> a == b)
  {
    if a < b then -1 else if a == b then 0 else 1
  }

  /** `Comparator.comparing(key)` for an `Integer` key. */
  function Comparing<T>(key: T -> int): (T, T) -> int {
    (a, b) => CompareInts(key(a), key(b))
  }

  /** `reversed()` / `Comparator.reverseOrder()`: the arguments swapped. */
  function Reversed<T>(cmp: (T, T) -> int): (T, T) -> int {
    (a, b) => cmp(b, a)
  }

  /** `thenComparing(other)`: `other` decides only what `cmp` calls equal. */
  function ThenComparing<T>(cmp: (T, T) -> int, other: (T, T) -> int): (T, T) -> int {
    (a, b) => if cmp(a, b) != 0 then cmp(a, b) else other(a, b)
  }

  lemma ComparingIsComparator<T(!new)>(key: T -> int)
    ensures IsComparator(Comparing(key))
  {
    var c := Comparing(key);
    forall x, y ensures SignFlips(c, x, y) { }
    forall x, y, z ensures GreaterChains(c, x, y, z) { }
    forall x, y, z ensures TiesAgree(c, x, y, z) { }
  }

  lemma ReversedIsComparator<T(!new)>(cmp: (T, T) -> int)
    requires IsComparator(cmp)
    ensures IsComparator(Reversed(cmp))
  {
    var r := Reversed(cmp);
    forall x, y ensures SignFlips(r, x, y) {
      assert SignFlips(cmp, y, x);
    }
    forall x, y, z ensures GreaterChains(r, x, y, z) {
      assert GreaterChains(cmp, z, y, x);
    }
    forall x, y, z ensures TiesAgree(r, x, y, z) {
      assert SignFlips(cmp, x, y) && SignFlips(cmp, x, z) && SignFlips(cmp, y, z);
      assert TiesAgree(cmp, x, y, z);
    }
  }

  /** A comparator chain built with `thenComparing` keeps the contract. */
  lemma ThenComparingIsComparator<T(!new)>(cmp: (T, T) -> int, other: (T, T) -> int)
    requires IsComparator(cmp) && IsComparator(other)
    ensures IsComparator(ThenComparing(cmp, other))
  {
    var t := ThenComparing(cmp, other);
    forall x, y ensures SignFlips(t, x, y) {
      assert SignFlips(cmp, x, y) && SignFlips(other, x, y);
    }
    forall x, y, z ensures GreaterChains(t, x, y, z) {
      assert SignFlips(cmp, x, y) && SignFlips(cmp, y, z) && SignFlips(cmp, x, z);
      assert TiesAgree(cmp, x, y, z) && TiesAgree(cmp, y, z, x) && TiesAgree(cmp, y, x, z);
      assert GreaterChains(cmp, x, y, z) && GreaterChains(other, x, y, z);
      assert SignFlips(cmp, z, x);
    }
    forall x, y, z ensures TiesAgree(t, x, y, z) {
      assert TiesAgree(cmp, x, y, z) && TiesAgree(other, x, y, z);
    }
  }

  ghost predicate Sorted<T>(cmp: (T, T) -> int, s: seq<T>) {
    forall i, j :: 0 <= i < j < |s| ==> cmp(s[i], s[j]) <= 0
  }

  /** `x` placed after every value of `s` that is not greater than it. */
  function Insert<T>(cmp: (T, T) -> int, x: T, s: seq<T>): seq<T>
  {
    if s == [] then [x]
    else if cmp(x, s[0]) < 0 then [x] + s
    else [s[0]] + Insert(cmp, x, s[1..])
  }

  /** The stable sort of `xs` by `cmp` (`Collections.sort(list, cmp)`). */
  function StableSort<T>(cmp: (T, T) -> int, xs: seq<T>): seq<T>
  {
    if xs == [] then [] else Insert(cmp, xs[|xs| - 1], StableSort(cmp, xs[..|xs| - 1]))
  }

  /** Inserting adds `x` and keeps every other value. */
  lemma {:induction false} InsertPermutes<T>(cmp: (T, T) -> int, x: T, s: seq<T>)
    ensures multiset(Insert(cmp, x, s)) == multiset(s) + multiset{x}
    decreases |s|
  {
    if s != [] && cmp(x, s[0]) >= 0 {
      InsertPermutes(cmp, x, s[1..]);
      assert s == [s[0]] + s[1..];
    }
  }

  /** The sorted order is a permutation of the input. */
  lemma {:induction false} StableSortPermutes<T>(cmp: (T, T) -> int, xs: seq<T>)
    ensures multiset(StableSort(cmp, xs)) == multiset(xs)
    decreases |xs|
  {
    if xs != [] {
      var init, last := xs[..|xs| - 1], xs[|xs| - 1];
      StableSortPermutes(cmp, init);
      InsertPermutes(cmp, last, StableSort(cmp, init));
      assert xs == init + [last];
    }
  }

  /** Where `Insert` puts `x`: before the first value greater than it. */
  function InsertPosition<T>(cmp: (T, T) -> int, x: T, s: seq<T>): (k: nat)
    ensures k <= |s|
    ensures forall i :: 0 <= i < k ==> cmp(x, s[i]) >= 0
    ensures k < |s| ==> cmp(x, s[k]) < 0
  {
    if s == [] || cmp(x, s[0]) < 0 then 0 else 1 + InsertPosition(cmp, x, s[1..])
  }

  lemma {:induction false} InsertAt<T>(cmp: (T, T) -> int, x: T, s: seq<T>)
    ensures Insert(cmp, x, s) == s[..InsertPosition(cmp, x, s)] + [x] + s[InsertPosition(cmp, x, s)..]
    decreases |s|
  {
    if s != [] && cmp(x, s[0]) >= 0 {
      var k, k' := InsertPosition(cmp, x, s), InsertPosition(cmp, x, s[1..]);
      InsertAt(cmp, x, s[1..]);
      assert Insert(cmp, x, s) == [s[0]] + Insert(cmp, x, s[1..]);
      assert s[..k] == [s[0]] + s[1..][..k'];
      assert s[k..] == s[1..][k'..];
    }
  }

  /** In a sorted list, everything from the insertion position on is greater than `x`. */
  lemma AfterInsertPosition<T(!new)>(cmp: (T, T) -> int, x: T, s: seq<T>)
    requires IsComparator(cmp) && Sorted(cmp, s)
    ensures forall i :: InsertPosition(cmp, x, s) <= i < |s| ==> cmp(x, s[i]) < 0
  {
    var k := InsertPosition(cmp, x, s);
    forall i | k <= i < |s| ensures cmp(x, s[i]) < 0 {
      if i > k {
        NotAfterTransitive(cmp, x, s[k], s[i]);
      }
    }
  }

  /** The values of `Insert(cmp, x, s)`, position by position. */
  lemma InsertIndex<T>(cmp: (T, T) -> int, x: T, s: seq<T>, i: nat)
    requires i <= |s|
    ensures |Insert(cmp, x, s)| == |s| + 1
    ensures Insert(cmp, x, s)[i] ==
      if i < InsertPosition(cmp, x, s) then s[i]
      else if i == InsertPosition(cmp, x, s) then x
      else s[i - 1]
  {
    InsertAt(cmp, x, s);
  }

  /** Everything before the insertion position is not after `x`. */
  lemma BeforeInsertPosition<T(!new)>(cmp: (T, T) -> int, x: T, s: seq<T>)
    requires IsComparator(cmp)
    ensures forall i :: 0 <= i < InsertPosition(cmp, x, s) ==> cmp(s[i], x) <= 0
  {
    forall i | 0 <= i < InsertPosition(cmp, x, s) ensures cmp(s[i], x) <= 0 {
      Antisymmetric(cmp, x, s[i]);
    }
  }

  lemma InsertSorted<T(!new)>(cmp: (T, T) -> int, x: T, s: seq<T>)
    requires IsComparator(cmp) && Sorted(cmp, s)
    ensures Sorted(cmp, Insert(cmp, x, s))
  {
    BeforeInsertPosition(cmp, x, s);
    AfterInsertPosition(cmp, x, s);
    var r := Insert(cmp, x, s);
    InsertIndex(cmp, x, s, 0);
    forall i, j | 0 <= i < j < |r| ensures cmp(r[i], r[j]) <= 0 {
      InsertIndex(cmp, x, s, i);
      InsertIndex(cmp, x, s, j);
    }
  }

  /** The sorted order is sorted. */
  lemma {:induction false} StableSortSorted<T(!new)>(cmp: (T, T) -> int, xs: seq<T>)
    requires IsComparator(cmp)
    ensures Sorted(cmp, StableSort(cmp, xs))
    decreases |xs|
  {
    if xs != [] {
      StableSortSorted(cmp, xs[..|xs| - 1]);
      InsertSorted(cmp, xs[|xs| - 1], StableSort(cmp, xs[..|xs| - 1]));
    }
  }

  /** "`cmp` calls it equal to `y`". */
  function TiedWith<T>(cmp: (T, T) -> int, y: T): T -> bool {
    z => cmp(z, y) == 0
  }

  /** The values `cmp` calls equal to `y`, in order. */
  function Ties<T>(cmp: (T, T) -> int, y: T, s: seq<T>): (r: seq<T>)
  {
    Filter(TiedWith(cmp, y), s)
  }

  lemma TiesAfterInsertPosition<T(!new)>(cmp: (T, T) -> int, x: T, s: seq<T>, y: T)
    requires IsComparator(cmp) && Sorted(cmp, s) && cmp(x, y) == 0
    ensures Ties(cmp, y, s[InsertPosition(cmp, x, s)..]) == []
  {
    var k := InsertPosition(cmp, x, s);
    AfterInsertPosition(cmp, x, s);
    var rest := Ties(cmp, y, s[k..]);
    if rest != [] {
      FilterMembership(TiedWith(cmp, y), s[k..], rest[0]);
      var z := rest[0];
      assert TiesAgree(cmp, x, y, z);
      Antisymmetric(cmp, z, y);
    }
  }

  /** Moving `x` past `b` does not change what a filter keeps when one of them is filtered out entirely. */
  lemma FilterSwap<T>(p: T -> bool, a: seq<T>, x: T, b: seq<T>)
    requires !p(x) || Filter(p, b) == []
    ensures Filter(p, a + [x] + b) == Filter(p, a + b + [x])
  {
    var fa, fx, fb := Filter(p, a), Filter(p, [x]), Filter(p, b);
    FilterAppend(p, a + [x], b);
    FilterAppend(p, a, [x]);
    FilterAppend(p, a + b, [x]);
    FilterAppend(p, a, b);
    assert Filter(p, a + [x] + b) == fa + fx + fb;
    assert Filter(p, a + b + [x]) == fa + fb + fx;
    if !p(x) {
      assert [x][..0] == [];
      assert fx == [];
    }
  }

  lemma InsertStable<T(!new)>(cmp: (T, T) -> int, x: T, s: seq<T>, y: T)
    requires IsComparator(cmp) && Sorted(cmp, s)
    ensures Ties(cmp, y, Insert(cmp, x, s)) == Ties(cmp, y, s + [x])
  {
    var k := InsertPosition(cmp, x, s);
    var p := TiedWith(cmp, y);
    assert !p(x) || Filter(p, s[k..]) == [] by {
      if cmp(x, y) == 0 {
        TiesAfterInsertPosition(cmp, x, s, y);
      }
    }
    InsertAt(cmp, x, s);
    FilterSwap(p, s[..k], x, s[k..]);
    assert s[..k] + s[k..] == s;
  }

  /**
   * Stability: among the values the comparator calls equal to any `y`, the
   * sorted order keeps the input order.
   */
  lemma {:induction false} StableSortStable<T(!new)>(cmp: (T, T) -> int, xs: seq<T>, y: T)
    requires IsComparator(cmp)
    ensures Ties(cmp, y, StableSort(cmp, xs)) == Ties(cmp, y, xs)
    decreases |xs|
  {
    if xs != [] {
      var init, last := xs[..|xs| - 1], xs[|xs| - 1];
      StableSortStable(cmp, init, y);
      StableSortSorted(cmp, init);
      InsertStable(cmp, last, StableSort(cmp, init), y);
      FilterAppend(TiedWith(cmp, y), StableSort(cmp, init), [last]);
      FilterAppend(TiedWith(cmp, y), init, [last]);
      assert xs == init + [last];
    }
  }
}
