/**
 * Reference definitions of what the streaming operators yield, as functions
 * on finite sequences, with the properties the library promises of them.
 * The stages of the pipeline (module Fetching) are proved to yield exactly
 * these sequences.
 */
module Sequences {

  /** The values of `xs` that satisfy `p`, in order (`where`). */
  function Filter<T>(p: T -> bool, xs: seq<T>): (r: seq<T>)
    ensures |r| <= |xs|
  {
    if xs == [] then [] else
      Filter(p, xs[..|xs| - 1]) + (if p(xs[|xs| - 1]) then [xs[|xs| - 1]] else [])
  }

  lemma {:induction false} FilterAppend<T>(p: T -> bool, a: seq<T>, b: seq<T>)
    ensures Filter(p, a + b) == Filter(p, a) + Filter(p, b)
    decreases |b|
  {
    if b == [] {
      assert a + b == a;
    } else {
      var b' := b[..|b| - 1];
      assert (a + b)[..|a + b| - 1] == a + b';
      FilterAppend(p, a, b');
    }
  }

  /** A value is kept exactly when it occurs in the input and satisfies the predicate. */
  lemma {:induction false} FilterMembership<T>(p: T -> bool, xs: seq<T>, y: T)
    ensures y in Filter(p, xs) <==> y in xs && p(y)
    decreases |xs|
  {
    if xs != [] {
      var init := xs[..|xs| - 1];
      FilterMembership(p, init, y);
      assert xs == init + [xs[|xs| - 1]];
    }
  }

  /** Filtering keeps the input order: the result of a prefix is a prefix of the result. */
  lemma FilterPrefix<T>(p: T -> bool, xs: seq<T>, k: nat)
    requires k <= |xs|
    ensures Filter(p, xs[..k]) <= Filter(p, xs)
  {
    assert xs == xs[..k] + xs[k..];
    FilterAppend(p, xs[..k], xs[k..]);
  }

  /**
   * A consumer that has read `k` inputs has emitted `|Filter(p, xs[..k])|`
   * outputs; input `k` is the next output exactly when it passes.
   */
  lemma FilterAdvance<T>(p: T -> bool, xs: seq<T>, k: nat)
    requires k < |xs|
    ensures |Filter(p, xs[..k + 1])| == |Filter(p, xs[..k])| + (if p(xs[k]) then 1 else 0)
    ensures p(xs[k]) ==> |Filter(p, xs[..k])| < |Filter(p, xs)| && Filter(p, xs)[|Filter(p, xs[..k])|] == xs[k]
  {
    FilterNext(p, xs, k);
    FilterPrefix(p, xs, k + 1);
  }

  /** Reading one more input value extends the output by that value exactly when it passes. */
  lemma FilterNext<T>(p: T -> bool, xs: seq<T>, k: nat)
    requires k < |xs|
    ensures Filter(p, xs[..k + 1]) == Filter(p, xs[..k]) + (if p(xs[k]) then [xs[k]] else [])
  {
    assert xs[..k + 1][..k] == xs[..k];
  }

  /** `f` applied to every value, in order (`select`). */
  function Map<T, U>(f: T -> U, xs: seq<T>): (r: seq<U>)
    ensures |r| == |xs|
  {
    seq(|xs|, i requires 0 <= i < |xs| => f(xs[i]))
  }

  /** The sequences `f` gives for the values of `xs`, concatenated in order (`selectMany`). */
  function FlatMap<T, U>(f: T -> seq<U>, xs: seq<T>): (r: seq<U>)
  {
    if xs == [] then [] else FlatMap(f, xs[..|xs| - 1]) + f(xs[|xs| - 1])
  }

  lemma {:induction false} FlatMapAppend<T, U>(f: T -> seq<U>, a: seq<T>, b: seq<T>)
    ensures FlatMap(f, a + b) == FlatMap(f, a) + FlatMap(f, b)
    decreases |b|
  {
    if b == [] {
      assert a + b == a;
    } else {
      var b' := b[..|b| - 1];
      assert (a + b)[..|a + b| - 1] == a + b';
      FlatMapAppend(f, a, b');
    }
  }

  /** Every yielded value comes from the sequence of some input value, and all of them are yielded. */
  lemma {:induction false} FlatMapMembership<T, U>(f: T -> seq<U>, xs: seq<T>, y: U)
    ensures y in FlatMap(f, xs) <==> exists x :: x in xs && y in f(x)
    decreases |xs|
  {
    if xs != [] {
      var init, last := xs[..|xs| - 1], xs[|xs| - 1];
      FlatMapMembership(f, init, y);
      assert xs == init + [last];
      assert forall x :: x in xs <==> x in init || x == last;
    }
  }

  lemma FlatMapPrefix<T, U>(f: T -> seq<U>, xs: seq<T>, k: nat)
    requires k <= |xs|
    ensures FlatMap(f, xs[..k]) <= FlatMap(f, xs)
  {
    assert xs == xs[..k] + xs[k..];
    FlatMapAppend(f, xs[..k], xs[k..]);
  }

  /** Reading one more input value appends its sequence. */
  lemma FlatMapNext<T, U>(f: T -> seq<U>, xs: seq<T>, k: nat)
    requires k < |xs|
    ensures FlatMap(f, xs[..k + 1]) == FlatMap(f, xs[..k]) + f(xs[k])
  {
    assert xs[..k + 1][..k] == xs[..k];
  }

  /** `n` limited to `0..len`: how many values `take(n)` keeps and `skip(n)` drops. */
  function Clamp(n: int, len: nat): (r: nat)
    ensures r <= len
    ensures n <= 0 ==> r == 0
    ensures 0 <= n <= len ==> r == n
    ensures len <= n ==> r == len
  {
    if n < 0 then 0 else if n > len then len else n
  }

  /** The first `n` values (`take`); a negative `n` keeps nothing. */
  function Take<T>(n: int, xs: seq<T>): (r: seq<T>)
  {
    xs[..Clamp(n, |xs|)]
  }

  /** All but the first `n` values (`skip`); a negative `n` drops nothing. */
  function Skip<T>(n: int, xs: seq<T>): (r: seq<T>)
  {
    xs[Clamp(n, |xs|)..]
  }

  /** `take(n)` and `skip(n)` split the input: together they give it back. */
  lemma TakeSkipSplit<T>(n: int, xs: seq<T>)
    ensures Take(n, xs) + Skip(n, xs) == xs
    ensures |Take(n, xs)| == Clamp(n, |xs|)
    ensures Take(n, xs) <= xs
  {
    assert xs[..Clamp(n, |xs|)] + xs[Clamp(n, |xs|)..] == xs;
  }

  /** How many values at the head of `xs` satisfy `p`. */
  function LeadingRun<T>(p: T -> bool, xs: seq<T>): (k: nat)
    ensures k <= |xs|
    ensures forall i :: 0 <= i < k ==> p(xs[i])
    ensures k < |xs| ==> !p(xs[k])
  {
    if xs == [] || !p(xs[0]) then 0 else 1 + LeadingRun(p, xs[1..])
  }

  /** The longest prefix whose values all satisfy `p` (`takeWhile`). */
  function TakeWhile<T>(p: T -> bool, xs: seq<T>): (r: seq<T>)
  {
    xs[..LeadingRun(p, xs)]
  }

  /** Everything from the first value that fails `p` on (`skipWhile`). */
  function SkipWhile<T>(p: T -> bool, xs: seq<T>): (r: seq<T>)
  {
    xs[LeadingRun(p, xs)..]
  }

  /** `takeWhile` and `skipWhile` of the same predicate split the input at the first failing value. */
  lemma TakeWhileSkipWhileSplit<T>(p: T -> bool, xs: seq<T>)
    ensures TakeWhile(p, xs) + SkipWhile(p, xs) == xs
    ensures forall x :: x in TakeWhile(p, xs) ==> p(x)
    ensures SkipWhile(p, xs) == [] || !p(SkipWhile(p, xs)[0])
  {
    var k := LeadingRun(p, xs);
    assert xs[..k] + xs[k..] == xs;
    forall x | x in TakeWhile(p, xs) ensures p(x) {
      var i :| 0 <= i < k && xs[..k][i] == x;
    }
  }

  /** `defaultIfEmpty(d)`: the input, or `[d]` when it is empty. */
  function DefaultIfEmpty<T>(d: T, xs: seq<T>): (r: seq<T>)
    ensures r != []
    ensures xs != [] ==> r == xs
    ensures xs == [] ==> r == [d]
  {
    if xs == [] then [d] else xs
  }

  /** The input in reverse order (`reverse`). */
  function Reverse<T>(xs: seq<T>): (r: seq<T>)
  {
    if xs == [] then [] else [xs[|xs| - 1]] + Reverse(xs[..|xs| - 1])
  }

  lemma {:induction false} ReverseAt<T>(xs: seq<T>, k: nat)
    requires k < |xs|
    ensures |Reverse(xs)| == |xs|
    ensures Reverse(xs)[k] == xs[|xs| - 1 - k]
    decreases |xs|
  {
    if 0 < k {
      ReverseAt(xs[..|xs| - 1], k - 1);
    } else if 1 < |xs| {
      ReverseAt(xs[..|xs| - 1], 0);
    }
  }

  /** Reversing twice gives the input back. */
  lemma ReverseInvolution<T>(xs: seq<T>)
    ensures Reverse(Reverse(xs)) == xs
  {
    if xs != [] {
      ReverseAt(xs, 0);
    }
    forall k | 0 <= k < |xs| ensures |Reverse(Reverse(xs))| == |xs| && Reverse(Reverse(xs))[k] == xs[k] {
      ReverseAt(xs, k);
      ReverseAt(Reverse(xs), k);
      ReverseAt(xs, |xs| - 1 - k);
    }
  }

  /**
   * `chunk(size)`: consecutive blocks of `size` values, the last one
   * possibly shorter.  A `size` of zero or less gives no blocks at all.
   */
  function Chunks<T>(size: int, xs: seq<T>): (r: seq<seq<T>>)
    decreases |xs|
  {
    if size <= 0 || xs == [] then []
    else if |xs| <= size then [xs]
    else [xs[..size]] + Chunks(size, xs[size..])
  }

  /** The concatenation of a sequence of sequences. */
  function Flatten<T>(xss: seq<seq<T>>): (r: seq<T>)
  {
    if xss == [] then [] else xss[0] + Flatten(xss[1..])
  }

  /** For a positive size the blocks give back the input, and every block but the last is full. */
  lemma {:induction false} ChunksPartition<T>(size: int, xs: seq<T>)
    requires size > 0
    ensures Flatten(Chunks(size, xs)) == xs
    ensures forall i :: 0 <= i < |Chunks(size, xs)| ==> 0 < |Chunks(size, xs)[i]| <= size
    ensures forall i :: 0 <= i < |Chunks(size, xs)| - 1 ==> |Chunks(size, xs)[i]| == size
    decreases |xs|
  {
    if xs != [] && |xs| > size {
      ChunksPartition(size, xs[size..]);
      var rest := Chunks(size, xs[size..]);
      assert Chunks(size, xs) == [xs[..size]] + rest;
      assert Chunks(size, xs)[1..] == rest;
      assert xs == xs[..size] + xs[size..];
    }
  }

  /** `xs` is made of whole blocks of `size` values. */
  ghost predicate WholeBlocks<T>(size: int, xs: seq<T>)
    requires size > 0
    decreases |xs|
  {
    xs == [] || (|xs| >= size && WholeBlocks(size, xs[size..]))
  }

  lemma {:induction false} WholeBlocksSnoc<T>(size: int, a: seq<T>, c: seq<T>)
    requires size > 0 && WholeBlocks(size, a) && |c| == size
    ensures WholeBlocks(size, a + c)
    decreases |a|
  {
    if a == [] {
      assert (a + c)[size..] == [];
    } else {
      assert (a + c)[size..] == a[size..] + c;
      WholeBlocksSnoc(size, a[size..], c);
    }
  }

  /** Appending whole blocks appends their chunks. */
  lemma {:induction false} ChunksAppend<T>(size: int, a: seq<T>, b: seq<T>)
    requires size > 0 && WholeBlocks(size, a)
    ensures Chunks(size, a + b) == Chunks(size, a) + Chunks(size, b)
    decreases |a|
  {
    if a == [] {
      assert a + b == b;
    } else if |a| == size {
      if b == [] {
        assert a + b == a;
      } else {
        assert (a + b)[..size] == a && (a + b)[size..] == b;
      }
    } else {
      assert (a + b)[..size] == a[..size];
      assert (a + b)[size..] == a[size..] + b;
      ChunksAppend(size, a[size..], b);
    }
  }

  /**
   * A reader that has consumed whole blocks (`xs[..k]`) and then reads the
   * next block `xs[k..k2]` (full, or cut short by the end of the input)
   * has read exactly the next chunk.
   */
  lemma {:induction false} ChunkResume<T>(size: int, xs: seq<T>, k: nat, k2: nat)
    requires size > 0 && k <= k2 <= |xs| && WholeBlocks(size, xs[..k])
    requires k2 - k == size || (k2 == |xs| && k2 - k < size)
    ensures |Chunks(size, xs[..k])| <= |Chunks(size, xs)|
    ensures k < k2 ==>
      |Chunks(size, xs[..k])| < |Chunks(size, xs)| && Chunks(size, xs)[|Chunks(size, xs[..k])|] == xs[k..k2]
    ensures k == k2 ==> |Chunks(size, xs[..k])| == |Chunks(size, xs)|
    ensures k2 - k == size ==>
      WholeBlocks(size, xs[..k2]) && |Chunks(size, xs[..k2])| == |Chunks(size, xs[..k])| + 1
    ensures k < k2 && k2 - k < size ==> |Chunks(size, xs)| == |Chunks(size, xs[..k])| + 1
  {
    assert xs == xs[..k] + xs[k..];
    ChunksAppend(size, xs[..k], xs[k..]);
    var rest := xs[k..];
    if rest != [] && |rest| > size {
      assert Chunks(size, rest) == [rest[..size]] + Chunks(size, rest[size..]);
      assert rest[..size] == xs[k..k2];
    } else if rest != [] {
      assert rest == xs[k..k2];
    }
    if k2 - k == size {
      assert xs[..k2] == xs[..k] + xs[k..k2];
      WholeBlocksSnoc(size, xs[..k], xs[k..k2]);
      ChunksAppend(size, xs[..k], xs[k..k2]);
      assert Chunks(size, xs[k..k2]) == [xs[k..k2]];
    }
  }

  /**
   * The last `n` values, as `takeLast(n)` keeps them when it does not throw:
   * a negative `n` keeps every value.
   */
  function LastN<T>(n: int, xs: seq<T>): (r: seq<T>)
    ensures n < 0 ==> r == xs
    ensures 0 <= n ==> |r| == if n < |xs| then n else |xs|
    ensures r == xs[|xs| - |r|..]
  {
    if n < 0 then xs else if n < |xs| then xs[|xs| - n..] else xs
  }

  /** One more value: the bounded queue of `takeLast` drops its oldest value when it is full. */
  lemma LastNSnoc<T>(n: int, s: seq<T>, x: T)
    requires n != 0
    ensures LastN(n, s + [x]) ==
      (if |LastN(n, s)| == n then LastN(n, s)[1..] else LastN(n, s)) + [x]
  {
    if n > 0 && |s| >= n {
      assert (s + [x])[|s + [x]| - n..] == s[|s| - n..][1..] + [x];
    }
  }

  /**
   * All but the last `n` values, as `skipLast(n)` yields them when it does
   * not throw (a positive `n`).
   */
  function DropLast<T>(n: nat, xs: seq<T>): (r: seq<T>)
    ensures |r| == if n < |xs| then |xs| - n else 0
    ensures r <= xs
  {
    if n < |xs| then xs[..|xs| - n] else []
  }

  /** A slice of `xs` extended by the next value of `xs`. */
  lemma SliceSnoc<T>(xs: seq<T>, i: nat, j: nat)
    requires i <= j < |xs|
    ensures xs[i..j + 1] == xs[i..j] + [xs[j]]
  {
  }

  /** A window of `xs` moved on by one: its first value leaves, the next value of `xs` joins. */
  lemma WindowSlide<T>(xs: seq<T>, i: nat, j: nat)
    requires i < j < |xs|
    ensures xs[i + 1..j + 1] == xs[i..j][1..] + [xs[j]]
  {
  }

  /** `skipLast(n)` and `takeLast(n)` split the input for a positive `n`. */
  lemma DropLastLastNSplit<T>(n: nat, xs: seq<T>)
    requires n > 0
    ensures DropLast(n, xs) + LastN(n, xs) == xs
  {
  }
}
