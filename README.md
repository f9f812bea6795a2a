# LINQ for Java — a verified model

The library gives Java code the query operators of .NET's LINQ: `from`, `range`,
`repeat` and `empty` start a query; `select`, `where`, `take`, `skip`, `chunk`,
`distinct`, `union`, `except`, `intersect`, `join`, `groupBy`, `orderBy`,
`reverse` and their kin transform it lazily; terminal operations such as `count`,
`first`, `max`, `aggregate`, `toList` and `toDictionary` consume it.

Two revisions of the core are modelled.

* **The current revision** (`linq.Linq`) evaluates a query through a `Fetch`: a
  pull protocol with `peek()`, `next()` and `close()` on top of the
  `internalNext()` and `internalClose()` of each operator class. Module
  `Fetching` models the protocol together with the array, range, repeat and
  empty sources. Modules `Stages`, `Binary` and `Buffered` hold one class per
  operator: the one-upstream stages, the two-upstream operators, and the
  operators that buffer their upstream before answering. Module `Terminals`
  models the terminal operations.
  * Every stage keeps a ghost `Contents`: the whole sequence it will yield, given
    by a reference function of its upstreams' contents. `InternalNext` is proved
    to answer `AnswerAt(Contents, produced)`: the next value, or none at the end.
  * `InternalClose` is proved to close every upstream exactly once.
  * Every terminal operation is proved to return the reference value of its
    upstream's contents, and to leave the upstream closed.
* **The older revision** (`main.Linq`) evaluates a query through Java iterators.
  A `LinqIterator` caches the answer of its abstract `get()`.
  * Module `LegacyIteration` holds three things:
    * the `Query` values a query can start from, with `Elements`, the values a
      fresh iterator yields;
    * `OrderingLinq`;
    * `Iter`, the `LinqIterator` over the plain sources, with its `hasNext()`
      and `next()` caching proved once.
  * Modules `LegacyStages` and `LegacyBuffered` model the `get()` of each
    operator's iterator.
  * Module `LegacyTerminals` models the terminal operations.
  * Module `LegacySpecs` states what the operators that behave differently from
    the current revision actually compute.

The reference functions live in modules without state:

* `Sequences` covers filtering, mapping, take/skip, chunking, reversal and windows.
* `SetOps` covers set-like and keyed operators, joins and the insertion-ordered
  `LinkedMap`.
* `Buffers` covers the `for` loops that fill a collection, as folds.
* `Operators` has the per-operator reference sequences.
* `Sorting` covers comparators and a stable insertion sort.
* `Reductions` covers aggregates, sums with 64-bit wrap-around, averages,
  extremes and dictionaries.
* `Values` holds the value type, Java's truncating division and integer
  wrap-around.

Each reference function is tied to an independent characterisation by a lemma:
membership, order, no duplicates, a partition, a round trip or a
sorted permutation.

## Model

| member | source | states |
|---|---|---|
| Values.HolderValue | src/main/java/linq/Linq.java:587-633 | `Holder.value()` gives the held value and fails with `NoSuchElementException` exactly when the holder is empty |
| Values.JavaDiv | src/main/java/linq/Linq.java:1820-1836 | Java's `/` on `long`: the magnitude is the quotient of the magnitudes and the sign is the product of the signs (truncation toward zero) |
| Values.Wrap32 | src/main/java/linq/Linq.java:926-931 | `int` arithmetic: the result is a 32-bit value congruent to the exact one, and equal to it when that fits |
| Values.Wrap64 | src/main/java/linq/Linq.java:2173-2187 | `long` arithmetic: the result is a 64-bit value congruent to the exact one, and equal to it when that fits |
| Fetching.AnswerAt | src/main/java/linq/Linq.java:409-428 | the k-th answer of a fetch exists exactly when k is below the length, and is then the k-th value |
| Fetching.Fetch.FromArray | src/main/java/linq/Linq.java:27-35 | an array fetch yields the array's elements in order, and starts unread and open |
| Fetching.Fetch.Range | src/main/java/linq/Linq.java:914-924 | a range fetch yields `count` consecutive `int`s from `start`, with 32-bit wrap-around |
| Fetching.Fetch.Repeat | src/main/java/linq/Linq.java:938-948 | a repeat fetch yields `value` `count` times |
| Fetching.Fetch.Empty | src/main/java/linq/Linq.java:281-290 | the empty fetch yields nothing |
| Fetching.Fetch.InternalNext | src/main/java/linq/Linq.java:37-42 | the source's next answer is the next value of its contents, or none exactly at the end; the position advances only on a value |
| Fetching.Fetch.Peek | src/main/java/linq/Linq.java:397-407 | `peek()` on a closed fetch fails with `IllegalStateException` and changes nothing; otherwise it answers the next value without consuming it, so repeated peeks agree |
| Fetching.Fetch.Next | src/main/java/linq/Linq.java:409-428 | `next()` on a closed fetch fails with `IllegalStateException`; otherwise it answers the next value and consumes it, reusing a peeked answer; when that answer is none it closes the fetch, so every later `peek()` or `next()` fails with `IllegalStateException` |
| Fetching.Fetch.Close | src/main/java/linq/Linq.java:433-438 | `close()` runs `internalClose()` once however often it is called; afterwards the fetch is closed and its position is unchanged |
| Fetching.Fetch.InternalClose | src/main/java/linq/Linq.java:45-46 | closing a source touches nothing but the close count |
| Fetching.Fetch.Drain | src/main/java/linq/Linq.java:2189-2201 | the `while (next().exists())` loop of the terminals: the result is the left fold of the step over the values not yet consumed, and the fetch ends consumed to its end and closed |
| Fetching.FromValues | src/main/java/linq/Linq.java:1570-1572 | `from(xs…)`: a fresh, unread fetch over exactly `xs` |
| Stages.SelectFetch.constructor | src/main/java/linq/Linq.java:1004-1012 | `select(f)` yields `f` of each upstream value, in order |
| Stages.SelectFetch.InternalNext | src/main/java/linq/Linq.java:1014-1022 | each answer is the next value of `Map(f, upstream)`, or none at its end |
| Stages.SelectFetch.InternalClose | src/main/java/linq/Linq.java:1025-1027 | the upstream is closed exactly once |
| Stages.WhereFetch.constructor | src/main/java/linq/Linq.java:1471-1479 | `where(p)` yields the upstream values satisfying `p`, in order |
| Stages.WhereFetch.InternalNext | src/main/java/linq/Linq.java:1481-1493 | each answer is the next value of `Filter(p, upstream)`; the loop skips rejected values and reports none only when the upstream is exhausted |
| Stages.WhereFetch.InternalClose | src/main/java/linq/Linq.java:1496-1498 | the upstream is closed exactly once |
| Stages.TakeFetch.constructor | src/main/java/linq/Linq.java:1182-1192 | `take(n)` yields the first `n` upstream values (none for `n <= 0`) |
| Stages.TakeFetch.InternalNext | src/main/java/linq/Linq.java:1194-1207 | each answer is the next value of `Take(n, upstream)`; once `n` values are out, the upstream is not read again |
| Stages.TakeFetch.InternalClose | src/main/java/linq/Linq.java:1210-1212 | the upstream is closed exactly once |
| Stages.SelectManyFetch.constructor | src/main/java/linq/Linq.java:1030-1040 | `selectMany(f)` yields the concatenation of the sequences `f` gives for each upstream value |
| Stages.SelectManyFetch.InternalNext | src/main/java/linq/Linq.java:1042-1058 | each answer is the next value of `FlatMap(f, upstream)`; empty inner sequences are passed over, and each inner fetch is closed before the next one opens |
| Stages.SelectManyFetch.InternalClose | src/main/java/linq/Linq.java:1061-1065 | the upstream and the current inner fetch are each closed exactly once |
| Stages.SkipFetch.constructor | src/main/java/linq/Linq.java:1068-1078 | `skip(n)` yields the upstream without its first `n` values |
| Stages.SkipFetch.InternalNext | src/main/java/linq/Linq.java:1080-1092 | each answer is the next value of `Skip(n, upstream)`: the first call discards up to `n` values |
| Stages.SkipFetch.InternalClose | src/main/java/linq/Linq.java:1095-1097 | the upstream is closed exactly once |
| Stages.TakeWhileFetch.constructor | src/main/java/linq/Linq.java:1259-1269 | `takeWhile(p)` yields the longest prefix whose values satisfy `p` |
| Stages.TakeWhileFetch.InternalNext | src/main/java/linq/Linq.java:1271-1288 | each answer is the next value of `TakeWhile(p, upstream)`; the first rejected value ends the stage for good |
| Stages.TakeWhileFetch.InternalClose | src/main/java/linq/Linq.java:1291-1293 | the upstream is closed exactly once |
| Stages.SkipWhileFetch.constructor | src/main/java/linq/Linq.java:1144-1154 | `skipWhile(p)` yields the upstream from its first value that fails `p` |
| Stages.SkipWhileFetch.InternalNext | src/main/java/linq/Linq.java:1156-1174 | each answer is the next value of `SkipWhile(p, upstream)`; after the leading run, `p` is not consulted again |
| Stages.SkipWhileFetch.InternalClose | src/main/java/linq/Linq.java:1177-1179 | the upstream is closed exactly once |
| Stages.DefaultIfEmptyFetch.constructor | src/main/java/linq/Linq.java:154-168 | `defaultIfEmpty(d)` yields the upstream, or `[d]` when it is empty |
| Stages.DefaultIfEmptyFetch.InternalNext | src/main/java/linq/Linq.java:170-188 | each answer is the next value of `DefaultIfEmpty(d, upstream)` |
| Stages.DefaultIfEmptyFetch.InternalClose | src/main/java/linq/Linq.java:191-193 | the upstream is closed exactly once |
| Stages.ChunkFetch.constructor | src/main/java/linq/Linq.java:75-85 | `chunk(size)` yields the upstream cut into consecutive lists of `size` values, the last one possibly shorter |
| Stages.ChunkFetch.InternalNext | src/main/java/linq/Linq.java:87-110 | each answer is the next block of `Chunks(size, upstream)` as a list |
| Stages.ChunkFetch.InternalClose | src/main/java/linq/Linq.java:113-115 | the upstream is closed exactly once |
| Binary.ConcatFetch.constructor | src/main/java/linq/Linq.java:118-128 | `concat(right)` yields the left values followed by the right values |
| Binary.ConcatFetch.Append | src/main/java/linq/Linq.java:1640-1642 | `append(v)` is a concatenation whose contents are the upstream followed by `v` |
| Binary.ConcatFetch.Prepend | src/main/java/linq/Linq.java:1688-1690 | `prepend(v)` is a concatenation whose contents are `v` followed by the upstream |
| Binary.ConcatFetch.InternalNext | src/main/java/linq/Linq.java:130-143 | each answer is the next value of `left + right`; the right side is read only once the left is exhausted |
| Binary.ConcatFetch.InternalClose | src/main/java/linq/Linq.java:146-150 | both sides are closed exactly once |
| Binary.ZipFetch.constructor | src/main/java/linq/Linq.java:1501-1509 | `zip(right)` yields the pairs of values at equal positions, as long as the shorter side |
| Binary.ZipFetch.InternalNext | src/main/java/linq/Linq.java:1511-1525 | each answer is the next pair of `ZipValues(left, right)`, and none once either side ends |
| Binary.ZipFetch.InternalClose | src/main/java/linq/Linq.java:1528-1532 | both sides are closed exactly once |
| Binary.UnionFetch.constructor | src/main/java/linq/Linq.java:1417-1427 | `union(right)` yields the distinct values of `left + right` in first-seen order |
| Binary.UnionFetch.InternalNext | src/main/java/linq/Linq.java:1429-1461 | each answer is the next value of `Union(left, right)`, built from both sides on the first call |
| Binary.UnionFetch.InternalClose | src/main/java/linq/Linq.java:1464-1468 | both sides are closed exactly once |
| Binary.UnionByFetch.constructor | src/main/java/linq/Linq.java:1361-1373 | `unionBy(key)` yields the first value for each distinct key of `left + right` |
| Binary.UnionByFetch.InternalNext | src/main/java/linq/Linq.java:1375-1407 | each answer is the next value of `UnionBy(key, left, right)` |
| Binary.UnionByFetch.InternalClose | src/main/java/linq/Linq.java:1410-1414 | both sides are closed exactly once |
| Binary.ExceptFetch.constructor | src/main/java/linq/Linq.java:345-355 | `except(right)` yields the left values that do not occur on the right, in order and with repeats |
| Binary.ExceptFetch.InternalNext | src/main/java/linq/Linq.java:357-383 | each answer is the next value of `Except(left, right)`; the right side is read into a set on the first call |
| Binary.ExceptFetch.InternalClose | src/main/java/linq/Linq.java:386-390 | both sides are closed exactly once |
| Binary.ExceptByFetch.constructor | src/main/java/linq/Linq.java:292-304 | `exceptBy(key)` yields the left values whose key is no right value's key |
| Binary.ExceptByFetch.InternalNext | src/main/java/linq/Linq.java:306-335 | each answer is the next value of `ExceptBy(key, left, right)` |
| Binary.ExceptByFetch.InternalClose | src/main/java/linq/Linq.java:338-342 | both sides are closed exactly once |
| Binary.IntersectFetch.constructor | src/main/java/linq/Linq.java:690-700 | `intersect(right)` yields the left values that occur on the right, in order and with repeats |
| Binary.IntersectFetch.InternalNext | src/main/java/linq/Linq.java:702-728 | each answer is the next value of `Intersect(left, right)` |
| Binary.IntersectFetch.InternalClose | src/main/java/linq/Linq.java:731-735 | both sides are closed exactly once |
| Binary.IntersectByFetch.constructor | src/main/java/linq/Linq.java:635-650 | `intersectBy(key)` yields the left values whose key is some right value's key |
| Binary.IntersectByFetch.InternalNext | src/main/java/linq/Linq.java:652-680 | each answer is the next value of `IntersectBy(key, left, keys of right)` |
| Binary.IntersectByFetch.InternalClose | src/main/java/linq/Linq.java:683-687 | both sides are closed exactly once |
| Binary.GroupJoinFetch.constructor | src/main/java/linq/Linq.java:517-538 | `groupJoin` yields, for each left value, the result selector applied to it and to the right values with the same key |
| Binary.GroupJoinFetch.InternalNext | src/main/java/linq/Linq.java:540-577 | each answer is the next value of `GroupJoin(...)`; the right side is grouped by key on the first call |
| Binary.GroupJoinFetch.InternalClose | src/main/java/linq/Linq.java:580-584 | both sides are closed exactly once |
| Binary.JoinFetch.constructor | src/main/java/linq/Linq.java:793-814 | `join` is `groupJoin` restricted to left values with at least one matching right value |
| Binary.JoinFetch.InternalNext | src/main/java/linq/Linq.java:816-853 | each answer is the next value of `Join(...)`; left values without a match are skipped |
| Binary.JoinFetch.InternalClose | src/main/java/linq/Linq.java:856-860 | both sides are closed exactly once |
| Buffered.TakeLastFetch.constructor | src/main/java/linq/Linq.java:1215-1225 | `takeLast(n)` yields the last `n` upstream values |
| Buffered.TakeLastFetch.Fill | src/main/java/linq/Linq.java:1227-1251 | the queue filled from the whole upstream holds exactly its last `n` values; it reports a throw exactly when `n == 0` and the upstream is not empty |
| Buffered.TakeLastFetch.InternalNext | src/main/java/linq/Linq.java:1227-1251 | with `n == 0` and a non-empty upstream, the first call fails with `NoSuchElementException`, and the calls after it answer none; otherwise each answer is the next value of `LastN(n, upstream)` |
| Buffered.TakeLastFetch.InternalClose | src/main/java/linq/Linq.java:1254-1256 | the upstream is closed exactly once |
| Buffered.SkipLastFetch.constructor | src/main/java/linq/Linq.java:1100-1110 | `skipLast(n)` yields the upstream without its last `n` values |
| Buffered.SkipLastFetch.InternalNext | src/main/java/linq/Linq.java:1112-1136 | with a positive `n`, each answer is the next value of `DropLast(n, upstream)`, read through a sliding window of `n` values; with `n <= 0`, each of the first calls fails with `NoSuchElementException`, one per upstream value, and the stage then ends |
| Buffered.SkipLastFetch.InternalClose | src/main/java/linq/Linq.java:1139-1141 | the upstream is closed exactly once |
| Buffered.DistinctFetch.constructor | src/main/java/linq/Linq.java:239-247 | `distinct()` yields each value once, in first-seen order |
| Buffered.DistinctFetch.InternalNext | src/main/java/linq/Linq.java:249-273 | each answer is the next value of `Distinct(upstream)` |
| Buffered.DistinctFetch.InternalClose | src/main/java/linq/Linq.java:276-278 | the upstream is closed exactly once |
| Buffered.DistinctByFetch.constructor | src/main/java/linq/Linq.java:196-206 | `distinctBy(key)` yields the first value for each distinct key, in first-seen order |
| Buffered.DistinctByFetch.InternalNext | src/main/java/linq/Linq.java:208-231 | each answer is the next value of `DistinctBy(key, upstream)` |
| Buffered.DistinctByFetch.InternalClose | src/main/java/linq/Linq.java:234-236 | the upstream is closed exactly once |
| Buffered.GroupByFetch.constructor | src/main/java/linq/Linq.java:467-477 | `groupBy(key)` yields one (key, values) entry per distinct key, in first-seen order |
| Buffered.GroupByFetch.InternalNext | src/main/java/linq/Linq.java:479-509 | each answer is the next entry of `GroupValues(key, upstream)` |
| Buffered.GroupByFetch.InternalClose | src/main/java/linq/Linq.java:512-514 | the upstream is closed exactly once |
| Buffered.OrderFetch.constructor | src/main/java/linq/Linq.java:863-873 | an ordering yields the upstream stably sorted by its comparator |
| Buffered.OrderFetch.OrderBy | src/main/java/linq/Linq.java:1680-1682 | `orderBy(key)` orders by `Comparator.comparing(key)` |
| Buffered.OrderFetch.OrderByDescending | src/main/java/linq/Linq.java:1684-1686 | `orderByDescending(key)` orders by the keys in reverse order |
| Buffered.OrderFetch.ThenBy | src/main/java/linq/Linq.java:900-902 | `thenBy(key)` re-sorts the same upstream, the new key breaking the ties of the old comparator |
| Buffered.OrderFetch.ThenByDescending | src/main/java/linq/Linq.java:904-906 | `thenByDescending(key)` breaks the ties by the new key in reverse order |
| Buffered.OrderFetch.InternalNext | src/main/java/linq/Linq.java:875-898 | each answer is the next value of `StableSort(cmp, upstream)` |
| Buffered.OrderFetch.InternalClose | src/main/java/linq/Linq.java:909-911 | the upstream is closed exactly once |
| Buffered.ReverseFetch.constructor | src/main/java/linq/Linq.java:963-971 | `reverse()` yields the upstream back to front |
| Buffered.ReverseFetch.InternalNext | src/main/java/linq/Linq.java:973-996 | each answer is the next value of `Reverse(upstream)` |
| Buffered.ReverseFetch.InternalClose | src/main/java/linq/Linq.java:999-1001 | the upstream is closed exactly once |
| Terminals.Aggregate | src/main/java/linq/Linq.java:1744-1764 | the values folded from the first with `f`; `NoSuchElementException` exactly when empty |
| Terminals.AggregateSeeded | src/main/java/linq/Linq.java:1766-1780 | the values folded with `f` from `seed` |
| Terminals.Sum | src/main/java/linq/Linq.java:2173-2187 | the 64-bit wrapped sum of the selected `int`s |
| Terminals.Average | src/main/java/linq/Linq.java:1820-1836 | the wrapped sum divided by the count with truncation; `ArithmeticException` exactly when empty |
| Terminals.Count | src/main/java/linq/Linq.java:1854-1864 | the number of values |
| Terminals.All | src/main/java/linq/Linq.java:1782-1796 | true exactly when every value satisfies `p`; reading stops at the first counterexample |
| Terminals.Any | src/main/java/linq/Linq.java:1798-1802 | true exactly when there is a value; at most one is read |
| Terminals.AnyMatch | src/main/java/linq/Linq.java:1804-1818 | true exactly when some value satisfies `p`; reading stops at the first witness |
| Terminals.Contains | src/main/java/linq/Linq.java:1838-1852 | true exactly when `target` occurs; reading stops just after its first occurrence |
| Terminals.ElementAt | src/main/java/linq/Linq.java:1866-1884 | the value at `index`, or `IndexOutOfBoundsException` outside `0 <= index < count` |
| Terminals.ElementAtOrDefault | src/main/java/linq/Linq.java:1886-1904 | the value at `index`, or the default outside the range |
| Terminals.First | src/main/java/linq/Linq.java:1906-1916 | the first value, or `NoSuchElementException` when empty |
| Terminals.FirstOrDefault | src/main/java/linq/Linq.java:1918-1928 | the first value, or the default when empty |
| Terminals.Last | src/main/java/linq/Linq.java:1930-1948 | the last value, or `NoSuchElementException` when empty |
| Terminals.LastOrDefault | src/main/java/linq/Linq.java:1950-1968 | the last value, or the default when empty |
| Terminals.Single | src/main/java/linq/Linq.java:2141-2155 | the only value, or `IllegalStateException` unless there is exactly one; at most two are read |
| Terminals.SingleOrDefault | src/main/java/linq/Linq.java:2157-2171 | the default when empty, the only value when there is one, `IllegalStateException` when there are more |
| Terminals.Max | src/main/java/linq/Linq.java:1970-1990 | under a comparator: a value no other value exceeds, and the earliest such |
| Terminals.Min | src/main/java/linq/Linq.java:2046-2066 | under a comparator: a value no other value undercuts, and the earliest such |
| Terminals.MaxBy | src/main/java/linq/Linq.java:2019-2044 | the earliest value whose key is greatest under the key comparator |
| Terminals.MinBy | src/main/java/linq/Linq.java:2095-2120 | the earliest value whose key is least under the key comparator |
| Terminals.MaxByComparable | src/main/java/linq/Linq.java:1992-2017 | the earliest value with the greatest `int` key; an error exactly when empty |
| Terminals.MinByComparable | src/main/java/linq/Linq.java:2068-2093 | the earliest value with the least `int` key; an error exactly when empty |
| Terminals.SequenceEqual | src/main/java/linq/Linq.java:2122-2139 | true exactly when both sides yield the same sequence; both are closed |
| Terminals.ForEach | src/main/java/linq/Linq.java:2189-2201 | the action runs on every value in order |
| Terminals.ToList | src/main/java/linq/Linq.java:2257-2271 | the list of all values, in order |
| Terminals.ToArray | src/main/java/linq/Linq.java:2203-2217 | the values land in the given array when it is long enough, and in a fresh array of exactly that length otherwise |
| Terminals.ToHashSet | src/main/java/linq/Linq.java:2241-2255 | the distinct values |
| Terminals.ToDictionary | src/main/java/linq/Linq.java:2219-2239 | a map from each key to its value; `IllegalArgumentException` exactly when two values share a key |
| Terminals.ToLookup | src/main/java/linq/Linq.java:2273-2295 | a map with one entry per distinct key, in first-seen order, holding that key's values in order |
| Sequences.Filter | src/main/java/linq/Linq.java:1481-1493 | `where`'s result is never longer than its input |
| Sequences.FilterMembership | src/main/java/linq/Linq.java:1481-1493 | a value is in `where(p)`'s result exactly when it is in the input and satisfies `p` |
| Sequences.FilterAppend | src/main/java/linq/Linq.java:1481-1493 | filtering distributes over concatenation |
| Sequences.FilterAdvance | src/main/java/linq/Linq.java:1481-1493 | each upstream value read either adds itself to the output or nothing |
| Sequences.Map | src/main/java/linq/Linq.java:1014-1022 | `select` keeps the length |
| Sequences.FlatMapMembership | src/main/java/linq/Linq.java:1042-1058 | a value is in `selectMany(f)`'s result exactly when it is in `f(x)` for some input `x` |
| Sequences.FlatMapAppend | src/main/java/linq/Linq.java:1042-1058 | `selectMany` distributes over concatenation |
| Sequences.Clamp | src/main/java/linq/Linq.java:1194-1207 | a `take`/`skip` count is clamped to `[0, length]` |
| Sequences.TakeSkipSplit | src/main/java/linq/Linq.java:1080-1092 | `take(n)` and `skip(n)` split the input: their concatenation is the input, and `take` has the clamped length |
| Sequences.LeadingRun | src/main/java/linq/Linq.java:1271-1288 | the leading run satisfies `p` throughout and stops at the first value that fails it |
| Sequences.TakeWhileSkipWhileSplit | src/main/java/linq/Linq.java:1156-1174 | `takeWhile(p)` and `skipWhile(p)` split the input; `skipWhile`'s result starts with a value failing `p` |
| Sequences.DefaultIfEmpty | src/main/java/linq/Linq.java:170-188 | never empty; the input itself when non-empty, else the one default |
| Sequences.ReverseAt | src/main/java/linq/Linq.java:973-996 | the k-th value of the reversal is the k-th from the end |
| Sequences.ReverseInvolution | src/main/java/linq/Linq.java:963-1002 | reversing twice gives back the input |
| Sequences.ChunksPartition | src/main/java/linq/Linq.java:87-110 | the chunks flatten back to the input; each is non-empty and at most `size` long, and all but the last are exactly `size` long |
| Sequences.ChunkResume | src/main/java/linq/Linq.java:87-110 | a block read after the whole blocks of a prefix is the next block of the chunking |
| Sequences.LastN | src/main/java/linq/Linq.java:1227-1251 | the last `n` values: a suffix of length `min(n, length)` |
| Sequences.LastNSnoc | src/main/java/linq/Linq.java:1227-1251 | adding a value to a full queue of `n` drops its oldest, which is what `LastN` of the longer input gives |
| Sequences.DropLast | src/main/java/linq/Linq.java:1112-1136 | `skipLast(n)` gives a prefix, `n` shorter than the input or empty |
| Sequences.DropLastLastNSplit | src/main/java/linq/Linq.java:1112-1136 | the values `skipLast(n)` keeps followed by the last `n` make up the input |
| Sequences.WindowSlide | src/main/java/linq/Linq.java:1112-1136 | the sliding window of `skipLast` moves by one value per read |
| SetOps.IndexOf | src/main/java/linq/Linq.java:1838-1852 | the position of the first occurrence |
| SetOps.DistinctMembership | src/main/java/linq/Linq.java:249-273 | a value is in `distinct()`'s result exactly when it is in the input |
| SetOps.DistinctCharacterization | src/main/java/linq/Linq.java:249-273 | `distinct()`'s result has the input's values, no duplicates, in first-occurrence order |
| SetOps.DistinctByCharacterization | src/main/java/linq/Linq.java:208-231 | `distinctBy(key)` keeps the first value of each distinct key, in first-seen order of the keys |
| SetOps.DistinctIsDistinctByIdentity | src/main/java/linq/Linq.java:196-279 | `distinctBy` with the identity key is `distinct` |
| SetOps.DistinctByLast | src/main/java/main/Linq.java:474-487 | one value per distinct key |
| SetOps.LastIndexWithKey | src/main/java/main/Linq.java:1218-1224 | the last position carrying a key |
| SetOps.GroupsCharacterization | src/main/java/linq/Linq.java:479-509 | groups come one per distinct key in first-seen order, each non-empty, holding exactly the values with its key |
| SetOps.UnionCharacterization | src/main/java/linq/Linq.java:1429-1461 | `union`'s result holds the values of either side, without duplicates, starting with `distinct` of the left side |
| SetOps.ExceptIntersectMembership | src/main/java/linq/Linq.java:357-383 | `except` keeps the left values absent on the right, `intersect` those present, and together they account for every left value |
| SetOps.GroupJoin | src/main/java/linq/Linq.java:540-577 | one result per left value |
| SetOps.Join | src/main/java/linq/Linq.java:816-853 | at most one result per left value |
| SetOps.GroupJoinCharacterization | src/main/java/linq/Linq.java:540-577 | `groupJoin` pairs each left value with its right matches |
| SetOps.JoinCharacterization | src/main/java/linq/Linq.java:816-853 | `join` pairs each matched left value with its right matches and drops the unmatched |
| SetOps.GroupJoinAt | src/main/java/linq/Linq.java:540-577 | the k-th result combines the k-th left value with the right values of the same key |
| SetOps.MatchesNonEmpty | src/main/java/linq/Linq.java:816-853 | a key has matches exactly when some right value carries it |
| SetOps.JoinIsFilteredGroupJoin | src/main/java/linq/Linq.java:793-861 | `join` equals `groupJoin` over the left values that have a match |
| SetOps.LinkedMap.Put | src/main/java/main/Linq.java:466-491 | `LinkedHashMap.put`: the entry is set; a new key goes last and an existing key keeps its place |
| SetOps.LinkedMap.PutIfAbsent | src/main/java/linq/Linq.java:1375-1407 | `putIfAbsent`: an existing key leaves the map unchanged; a new key goes last |
| Buffers.PushAll | src/main/java/linq/Linq.java:2257-2271 | adding every value to an empty list gives the values |
| Buffers.LinkedSetIsDistinct | src/main/java/linq/Linq.java:249-273 | filling a `LinkedHashSet` gives `Distinct` of the input |
| Buffers.LinkedSetIsUnion | src/main/java/linq/Linq.java:1429-1461 | filling a `LinkedHashSet` from both sides gives `Union` |
| Buffers.HashSetHolds | src/main/java/linq/Linq.java:357-383 | after filling a `HashSet`, membership is membership in the input |
| Buffers.HashMapKeys | src/main/java/linq/Linq.java:306-335 | after filling a `HashMap` by key, its keys are the input's keys |
| Buffers.LinkedMapIsDistinctBy | src/main/java/linq/Linq.java:208-231 | filling a `LinkedHashMap` with `putIfAbsent` by key gives `DistinctBy` |
| Buffers.LinkedMapIsUnionBy | src/main/java/linq/Linq.java:1375-1407 | doing so from both sides gives `UnionBy` |
| Buffers.GroupIntoCollects | src/main/java/linq/Linq.java:479-509 | the grouping loop makes one list per key, in first-seen order, holding that key's values in order |
| Buffers.GroupIntoMembership | src/main/java/linq/Linq.java:479-509 | a key has a list exactly when some value carries it |
| Operators.GroupEntriesAreGroups | src/main/java/linq/Linq.java:479-509 | the entries the grouping map hands out are exactly `GroupValues` |
| Operators.ListForIsMatches | src/main/java/linq/Linq.java:540-577 | the grouped right side answers, for each key, exactly the matching right values |
| Operators.QueueIsLastN | src/main/java/linq/Linq.java:1227-1251 | the bounded queue fed every value holds `LastN(n, …)` |
| Sorting.ComparingIsComparator | src/main/java/linq/Linq.java:1680-1682 | `Comparator.comparing(key)` keeps the comparator contract |
| Sorting.ReversedIsComparator | src/main/java/linq/Linq.java:1684-1686 | a comparator with its arguments swapped keeps the contract |
| Sorting.ThenComparingIsComparator | src/main/java/linq/Linq.java:900-906 | `thenComparing` of two comparators keeps the contract |
| Sorting.StableSortPermutes | src/main/java/linq/Linq.java:875-898 | sorting rearranges the values: same multiset |
| Sorting.StableSortSorted | src/main/java/linq/Linq.java:875-898 | under a comparator, sorting yields a sorted sequence |
| Sorting.StableSortStable | src/main/java/linq/Linq.java:875-898 | sorting is stable: values that tie keep their relative order |
| Reductions.Aggregated | src/main/java/linq/Linq.java:1744-1764 | fails with `NoSuchElementException` exactly on the empty input |
| Reductions.AggregatedSeeded | src/main/java/linq/Linq.java:1766-1780 | folding from the first value of `[seed] + xs` is folding `xs` from `seed` |
| Reductions.LongSumIsWrappedSum | src/main/java/linq/Linq.java:2173-2187 | adding in `long` step by step gives the exact sum wrapped to 64 bits |
| Reductions.Average | src/main/java/linq/Linq.java:1820-1836 | fails with `ArithmeticException` exactly on the empty input |
| Reductions.AverageTruncates | src/main/java/linq/Linq.java:1820-1836 | the average's magnitude is the wrapped sum's magnitude divided by the count, rounded down |
| Reductions.LatestIsLast | src/main/java/linq/Linq.java:1930-1948 | keeping the latest value read gives the last value |
| Reductions.MaxIsEarliestGreatest | src/main/java/linq/Linq.java:1970-1990 | the kept maximum is a value of the input, no value exceeds it, and every earlier value is strictly less |
| Reductions.MinIsEarliestLeast | src/main/java/linq/Linq.java:2046-2066 | the kept minimum is a value of the input, no value undercuts it, and every earlier value is strictly greater |
| Reductions.MinIsReversedMax | src/main/java/main/Linq.java:833-847 | taking the minimum is taking the maximum under the swapped comparator |
| Reductions.ByIsComparator | src/main/java/linq/Linq.java:2019-2044 | comparing values by key keeps the comparator contract |
| Reductions.MaxByTracksMax | src/main/java/linq/Linq.java:2019-2044 | tracking the best value with its key is taking the maximum under the by-key comparator |
| Reductions.MinByTracksMin | src/main/java/linq/Linq.java:2095-2120 | tracking the least value with its key is taking the minimum under the by-key comparator |
| Reductions.Dictionary | src/main/java/linq/Linq.java:2219-2239 | on success the map's keys are the input's keys in order; the only failure is `IllegalArgumentException` |
| Reductions.DictionaryEntry | src/main/java/linq/Linq.java:2219-2239 | on success each key maps to the value carrying it |
| Reductions.DictionarySucceeds | src/main/java/linq/Linq.java:2219-2239 | `toDictionary` succeeds exactly when no two values share a key |
| Reductions.DictionaryFailsOnward | src/main/java/linq/Linq.java:2219-2239 | once a duplicate key is read, the result is the failure whatever follows |
| LegacyIteration.OrderBy | src/main/java/main/Linq.java:892-894 | `orderBy(cmp)` orders the query by `cmp` |
| LegacyIteration.OrderByDescending | src/main/java/main/Linq.java:896-903 | `OrderByDescending(cmp)` orders by `cmp` with its arguments swapped |
| LegacyIteration.ThenBy | src/main/java/main/Linq.java:105-116 | `thenBy(cmp)` consults `cmp` exactly where the earlier comparator ties |
| LegacyIteration.ThenByDescending | src/main/java/main/Linq.java:118-129 | `thenByDescending(cmp)` consults `cmp` with swapped arguments where the earlier comparator ties |
| LegacyIteration.OrderingSorts | src/main/java/main/Linq.java:98-103 | an ordering yields its query's values as a sorted permutation |
| LegacyIteration.Iter.constructor | src/main/java/main/Linq.java:147-166 | a fresh iterator over a plain query: nothing cached, nothing read |
| LegacyIteration.Iter.Get | src/main/java/main/Linq.java:156-162 | `get()` of `from`, `range`, `repeat` and `empty` answers the next value, or none exactly at the end |
| LegacyIteration.Iter.HasNext | src/main/java/main/Linq.java:35-40 | true exactly when values remain; `get()` runs only when nothing is cached, so the position does not move |
| LegacyIteration.Iter.Next | src/main/java/main/Linq.java:43-51 | the next value, consuming the cache, or `NoSuchElementException` at the end |
| LegacyIteration.Iter.Advance | src/main/java/main/Linq.java:964-969 | the `hasNext() ? next() : none` turn answers the next value or none at the end |
| LegacyIteration.Iter.Drain | src/main/java/main/Linq.java:1234-1240 | a `for (T v : it)` loop folds the step over the values not yet read, leaving the iterator at its end |
| LegacyIteration.Iterator | src/main/java/main/Linq.java:98-103 | a fresh iterator of any query yields its `Elements`; an ordering collects and stably sorts its query first |
| LegacyIteration.ToList | src/main/java/main/Linq.java:1234-1240 | `toList()` gives the values of a fresh iterator |
| LegacyIteration.ForEach | src/main/java/main/Linq.java:254-261 | a `for (T v : this)` loop folds its body over the query's values |
| LegacyStages.SelectIterator.constructor | src/main/java/main/Linq.java:956-963 | the iterator of `select(func)` will yield `Map(func, values)` |
| LegacyStages.SelectIterator.Get | src/main/java/main/Linq.java:964-969 | each `get()` answers the next mapped value, or none at the end |
| LegacyStages.WhereIterator.constructor | src/main/java/main/Linq.java:1315-1323 | the iterator of `where(pred)` will yield `Filter(pred, values)` |
| LegacyStages.WhereIterator.Get | src/main/java/main/Linq.java:1324-1334 | each `get()` answers the next accepted value, or none at the end |
| LegacyStages.TakeIterator.constructor | src/main/java/main/Linq.java:1137-1145 | the iterator of `take(n)` will yield `Take(n, values)` |
| LegacyStages.TakeIterator.Get | src/main/java/main/Linq.java:1146-1152 | each `get()` answers the next of the first `n` values, or none |
| LegacyStages.SkipIterator.constructor | src/main/java/main/Linq.java:1037-1045 | the iterator of `skip(n)` will yield `Skip(n, values)` |
| LegacyStages.SkipIterator.Get | src/main/java/main/Linq.java:1046-1056 | each `get()` answers the next value after the first `n`, or none |
| LegacyStages.TakeWhileIterator.constructor | src/main/java/main/Linq.java:1188-1195 | the iterator of `takeWhile(p)` will yield `TakeWhile(p, values)` |
| LegacyStages.TakeWhileIterator.Get | src/main/java/main/Linq.java:1196-1204 | each `get()` answers the next value of the leading run, or none |
| LegacyStages.SkipWhileIterator.constructor | src/main/java/main/Linq.java:1097-1105 | the iterator of `skipWhile(p)` will yield `SkipWhile(p, values)` |
| LegacyStages.SkipWhileIterator.Get | src/main/java/main/Linq.java:1106-1123 | each `get()` answers the next value after the leading run, or none |
| LegacyStages.DefaultIfEmptyIterator.constructor | src/main/java/main/Linq.java:405-414 | the iterator of `defaultIfEmpty(d)` will yield `DefaultIfEmpty(d, values)` |
| LegacyStages.DefaultIfEmptyIterator.Get | src/main/java/main/Linq.java:415-433 | each `get()` answers the next value, the default once for an empty query |
| LegacyStages.AppendIterator.constructor | src/main/java/main/Linq.java:272-280 | the iterator of `append(value)` will yield the values followed by `value` |
| LegacyStages.AppendIterator.Get | src/main/java/main/Linq.java:281-292 | each `get()` answers the next value of that sequence, or none |
| LegacyStages.PrependIterator.constructor | src/main/java/main/Linq.java:905-913 | the iterator of `prepend(value)` will yield `value` followed by the values |
| LegacyStages.PrependIterator.Get | src/main/java/main/Linq.java:914-925 | each `get()` answers the next value of that sequence, or none |
| LegacyStages.ConcatIterator.constructor | src/main/java/main/Linq.java:361-369 | the iterator of `concat(right)` will yield the left values followed by the right ones |
| LegacyStages.ConcatIterator.Get | src/main/java/main/Linq.java:370-380 | each `get()` answers the next value of the concatenation, or none |
| LegacyStages.ZipIterator.constructor | src/main/java/main/Linq.java:1340-1347 | the iterator of `zip(right)` will yield the pairs at equal positions |
| LegacyStages.ZipIterator.Get | src/main/java/main/Linq.java:1348-1354 | each `get()` answers the next pair, or none once either side ends |
| LegacyStages.Expansion | src/main/java/main/Linq.java:975-996 | the values `selectMany` takes from one upstream value are those of a fresh iterator over the query `func` gives |
| LegacyStages.SelectManyIterator.constructor | src/main/java/main/Linq.java:975-983 | the iterator of `selectMany(func)` will yield the concatenated expansions |
| LegacyStages.SelectManyIterator.Get | src/main/java/main/Linq.java:984-992 | each `get()` answers the next value of `FlatMap`, passing over empty expansions, or none |
| LegacyStages.ChunkIterator.constructor | src/main/java/main/Linq.java:334-341 | the iterator of `chunk(size)` starts at the upstream's beginning |
| LegacyStages.ChunkIterator.Get | src/main/java/main/Linq.java:342-355 | each `get()` answers, or throws, exactly what `ChunkAsWritten` gives for the upstream position, and moves the upstream as it says |
| LegacyBuffered.DistinctIterator.constructor | src/main/java/main/Linq.java:439-446 | the iterator of `distinct()` will yield `Distinct(values)` |
| LegacyBuffered.DistinctIterator.Get | src/main/java/main/Linq.java:447-460 | the first `get()` fills a `LinkedHashSet`; each answer is the next distinct value, or none |
| LegacyBuffered.DistinctByIterator.constructor | src/main/java/main/Linq.java:466-473 | the iterator of `distinctBy(func)` will yield, per distinct key in first-seen order, the LAST value with that key |
| LegacyBuffered.DistinctByIterator.Get | src/main/java/main/Linq.java:474-487 | each answer is the next value of `DistinctByLast(func, values)`, or none |
| LegacyBuffered.UnionIterator.constructor | src/main/java/main/Linq.java:1255-1262 | the iterator of `union(right)` will yield `Union(left, right)` |
| LegacyBuffered.UnionIterator.Get | src/main/java/main/Linq.java:1263-1279 | each answer is the next value of the union, or none |
| LegacyBuffered.UnionByIterator.constructor | src/main/java/main/Linq.java:1285-1292 | the iterator of `unionBy(key)` will yield, per distinct key of `left + right`, the last value with that key |
| LegacyBuffered.UnionByIterator.Get | src/main/java/main/Linq.java:1293-1309 | each answer is the next value of `DistinctByLast(key, left + right)`, or none |
| LegacyBuffered.GroupByIterator.constructor | src/main/java/main/Linq.java:605-612 | the iterator of `groupBy(key)` will yield `GroupValues(key, values)` |
| LegacyBuffered.GroupByIterator.Get | src/main/java/main/Linq.java:613-632 | each answer is the next (key, values) entry, or none |
| LegacyBuffered.TakeLastIterator.constructor | src/main/java/main/Linq.java:1158-1165 | the iterator of `takeLast(size)` will yield `LastN(size, values)` |
| LegacyBuffered.TakeLastIterator.Fill | src/main/java/main/Linq.java:1166-1182 | the queue filled from a fresh iterator holds the last `size` values; it reports a throw exactly when `size == 0` and the query is not empty |
| LegacyBuffered.TakeLastIterator.Get | src/main/java/main/Linq.java:1166-1182 | `NoSuchElementException` when `size == 0` and values exist (each time, nothing is consumed); otherwise the next value of `LastN(size, values)`, or none |
| LegacyBuffered.SkipLastIterator.constructor | src/main/java/main/Linq.java:1062-1071 | the iterator of `skipLast(size)`, with its iterator field left `null` |
| LegacyBuffered.SkipLastIterator.Get | src/main/java/main/Linq.java:1072-1091 | each `get()` is exactly `SkipLastAsWritten`: `NullPointerException` when the `long` difference `count - size`, wrapped to 64 bits, is positive, none otherwise |
| LegacyBuffered.ReverseIterator.constructor | src/main/java/main/Linq.java:931-936 | `reverse()`'s iterator starts with its `it` field null, so the reversed list is not yet built |
| LegacyBuffered.ReverseIterator.Get | src/main/java/main/Linq.java:939-950 | the first `get()` overflows the stack, whatever the query |
| LegacyBuffered.ExceptIterator.constructor | src/main/java/main/Linq.java:529-537 | the iterator of `except(right)` will yield `Except(left, right)` |
| LegacyBuffered.ExceptIterator.Get | src/main/java/main/Linq.java:538-552 | the first `get()` reads the right side into a `HashSet`; each answer is the next left value absent from it, or none |
| LegacyBuffered.ExceptByIterator.constructor | src/main/java/main/Linq.java:558-566 | the iterator of `exceptBy(key)` will yield `ExceptBy(key, left, right)` |
| LegacyBuffered.ExceptByIterator.Get | src/main/java/main/Linq.java:567-581 | each answer is the next left value whose key is no right key, or none |
| LegacyBuffered.IntersectIterator.constructor | src/main/java/main/Linq.java:681-689 | the iterator of `intersect(right)` will yield `Intersect(left, right)` |
| LegacyBuffered.IntersectIterator.Get | src/main/java/main/Linq.java:690-704 | each answer is the next left value present on the right, or none |
| LegacyBuffered.IntersectByIterator.constructor | src/main/java/main/Linq.java:710-718 | the iterator of `intersectBy(key)` will yield `IntersectBy(key, left, right keys)` |
| LegacyBuffered.IntersectByIterator.Get | src/main/java/main/Linq.java:719-733 | each answer is the next left value whose key is a right key, or none |
| LegacyBuffered.GroupJoinIterator.constructor | src/main/java/main/Linq.java:638-650 | the iterator of `groupJoin` will yield `GroupJoin(...)` of the two queries |
| LegacyBuffered.GroupJoinIterator.Get | src/main/java/main/Linq.java:651-675 | the first `get()` groups the right side by key; each answer pairs the next left value with its matches, or none |
| LegacyBuffered.JoinIterator.constructor | src/main/java/main/Linq.java:742-754 | the iterator of `join` will yield `Join(...)` of the two queries |
| LegacyBuffered.JoinIterator.Get | src/main/java/main/Linq.java:755-777 | each answer pairs the next matched left value with its matches, skipping the unmatched, or none |
| LegacySpecs.PutKeysFirstSeen | src/main/java/main/Linq.java:474-487 | filling a `LinkedHashMap` with `put` by key keeps the keys in first-seen order |
| LegacySpecs.PutKeepsLast | src/main/java/main/Linq.java:474-487 | after filling, each key holds the last value that carried it |
| LegacySpecs.PutIsDistinctByLast | src/main/java/main/Linq.java:474-487 | the map's values are `DistinctByLast` of the input |
| LegacySpecs.PutIsUnionByLast | src/main/java/main/Linq.java:1293-1309 | filling from both sides gives `DistinctByLast` of their concatenation |
| LegacySpecs.DistinctByLastKeys | src/main/java/main/Linq.java:466-491 | the older `distinctBy` has the same keys, in the same order, as `distinctBy` of the current revision |
| LegacySpecs.DistinctByLastKeepsLast | src/main/java/main/Linq.java:466-491 | the value kept for each key is the last one with that key |
| LegacySpecs.ToDictionaryKeepsLast | src/main/java/main/Linq.java:1218-1224 | the older `toDictionary` has an entry exactly for each key of the input, holding the last value with that key |
| LegacySpecs.ContainsAsWrittenMeaning | src/main/java/main/Linq.java:386-393 | the older `contains` throws `NullPointerException` exactly when a `null` occurs at or before the first match (a `null` target is matched by a `null` element, on which `equals` is called), and otherwise answers membership |
| LegacySpecs.ContainsWithoutNulls | src/main/java/main/Linq.java:386-393 | without `null` values it answers membership |
| LegacySpecs.ChunkAsWritten | src/main/java/main/Linq.java:342-355 | one `get()` of the older `chunk` never moves the upstream backwards or past its end |
| LegacySpecs.ChunkAsWrittenSingletons | src/main/java/main/Linq.java:342-355 | with `size` 1 it gives the one-value chunks `chunk(1)` means |
| LegacySpecs.ChunkAsWrittenSplitsPairs | src/main/java/main/Linq.java:342-355 | on `[1, 2]` with `size` 2 it answers `[1]` and then throws, where `[[1, 2]]` is meant |
| LegacySpecs.SkipLastAsWritten | src/main/java/main/Linq.java:1072-1091 | for any `long` `size`, it either ends or throws `NullPointerException`; it never yields a value |
| LegacySpecs.SkipLastAsWrittenYieldsNothing | src/main/java/main/Linq.java:1072-1091 | for a positive `size`, it throws exactly when `skipLast` should yield something |
| LegacySpecs.SkipLastAsWrittenLongWrap | src/main/java/main/Linq.java:1081-1085 | `to = c - size` wraps as a `long`: `skipLast(Long.MIN_VALUE)` on an empty query ends, while `skipLast(Long.MIN_VALUE + 1)` throws |
| LegacySpecs.SkipLastAsWrittenThrows | src/main/java/main/Linq.java:1072-1091 | on `[1, 2]` with `size` 1 it throws, where `[1]` is meant |
| LegacySpecs.ReversedToList | src/main/java/main/Linq.java:939-950 | `toList()` of the older `reverse()` overflows the stack at any depth |
| LegacySpecs.LookupStaysEmpty | src/main/java/main/Linq.java:1242-1253 | the older `toLookup` loop leaves its map empty for every input |
| LegacySpecs.LookupAsWrittenLosesValues | src/main/java/main/Linq.java:1242-1253 | on one value it returns no key, where the grouping loop gives that value's key with `[value]` |
| LegacyTerminals.Aggregate | src/main/java/main/Linq.java:232-243 | the values folded from the first with `f`, as a `Nullable`: none exactly when empty |
| LegacyTerminals.AggregateSeeded | src/main/java/main/Linq.java:245-252 | the values folded from `seed` |
| LegacyTerminals.Sum | src/main/java/main/Linq.java:1129-1135 | the 64-bit wrapped sum |
| LegacyTerminals.Count | src/main/java/main/Linq.java:395-403 | the number of values |
| LegacyTerminals.Average | src/main/java/main/Linq.java:298-311 | the wrapped sum divided by the count with truncation; none when empty |
| LegacyTerminals.All | src/main/java/main/Linq.java:254-261 | true exactly when every value satisfies `p` |
| LegacyTerminals.Any | src/main/java/main/Linq.java:263-270 | true exactly when some value satisfies `p` |
| LegacyTerminals.Contains | src/main/java/main/Linq.java:386-393 | exactly `ContainsAsWritten`: membership, or `NullPointerException` on a `null` at or before the first match |
| LegacyTerminals.ElementAt | src/main/java/main/Linq.java:493-502 | the value at `index`, or none outside the range |
| LegacyTerminals.ElementAtOrDefault | src/main/java/main/Linq.java:504-513 | the value at `index`, or the default outside the range |
| LegacyTerminals.First | src/main/java/main/Linq.java:587-594 | the first value, or none when empty |
| LegacyTerminals.FirstOrDefault | src/main/java/main/Linq.java:596-603 | the first value, or the default when empty |
| LegacyTerminals.Last | src/main/java/main/Linq.java:783-794 | the last value, or none when empty |
| LegacyTerminals.Single | src/main/java/main/Linq.java:1009-1021 | the only value, or `IllegalStateException` unless there is exactly one |
| LegacyTerminals.SingleOrDefault | src/main/java/main/Linq.java:1023-1035 | the default when empty, the only value when there is one, `IllegalStateException` otherwise |
| LegacyTerminals.Max | src/main/java/main/Linq.java:796-810 | under a comparator: the earliest greatest value; none when empty |
| LegacyTerminals.Min | src/main/java/main/Linq.java:833-847 | the maximum under the swapped comparator, which under a comparator is the earliest least value |
| LegacyTerminals.MaxBy | src/main/java/main/Linq.java:812-831 | the earliest value with the greatest key; none when empty |
| LegacyTerminals.MinBy | src/main/java/main/Linq.java:849-868 | the earliest value with the least key; none when empty |
| LegacyTerminals.SequenceEqual | src/main/java/main/Linq.java:998-1007 | true exactly when both queries yield the same sequence |
| LegacyTerminals.ToArray | src/main/java/main/Linq.java:1210-1216 | the values land in the given array when it is long enough, else in a fresh one of exactly that length |
| LegacyTerminals.ToHashSet | src/main/java/main/Linq.java:1226-1232 | the distinct values |
| LegacyTerminals.ToDictionary | src/main/java/main/Linq.java:1218-1224 | one entry per distinct key in first-seen order, holding the last value with that key |
| LegacyTerminals.ToLookup | src/main/java/main/Linq.java:1242-1253 | the map returned is empty, whatever the query |

## Left out

- `from(Iterable)` is modelled for lists in the older revision (`LegacyIteration.Query.FromList` with `LegacyIteration.Iter`); it is left out for other iterables, for `from(Stream)`, and in the current revision, together with `IterableFetch`, `StreamFetch` and `FetchIterator`, because foreign iterators cannot be seen.
- `cast` and `ofType` (`CastFetch`, `TypeFetch` and their older counterparts) are left out: they test Java runtime types, and the model has one value type.
- Operator stages of the current revision read from a source fetch (array, range, repeat or empty) as their upstream. Chains are composed through the reference functions, not as a heap of nested stage objects. Errors raised by an upstream stage are not propagated.
- Operator iterators of the older revision read from a fresh iterator of a `Query`. Their `get()` is modelled, not the `hasNext()`/`next()` caching that each inherits from `LinqIterator`; that caching is proved once, in `LegacyIteration.Iter`.
- Comparators and key selectors are total functions. `Comparable` keys are `int`s. The contract breaches that `Collections.sort` and `TreeMap` may report are not modelled.
- Holders, exceptions and messages are values. Stack traces and message texts are left out.
- `hashCode` and `equals` are value equality.
- The inner fetch of `selectMany` is an array fetch over the sequence the selector gives.
- The inner `Linq` handed to `groupJoin`'s and `join`'s result selector is modelled as the sequence of matching values.
- Close order is not modelled beyond "each upstream closed exactly once".
- `count()` returns an unbounded count; the source's `long` would overflow only beyond 2^63 values.
- `from(T...)` aliases the caller's array; the model treats the array as immutable, so writes made to it after construction, which Java would see on later pulls, are left out.
- LegacySpecs.SkipLastAsWrittenYieldsNothing: stated for fewer than 2^63 values, because the `long` count wraps beyond that.
- LegacyBuffered.ReverseIterator.Get: the stack is modelled by a depth parameter, and the contract states only the overflow.
- The console `main` of the older revision is left out.
- `Tuple2` is modelled as a pair value.

## Findings

| source | as written | input that shows it | evidently intended | confidence | as-written member | corrected member |
|---|---|---|---|---|---|---|
| src/main/java/main/Linq.java:939-950 | the iterator calls the unqualified `toList()`, which resolves to the reversed `Linq` itself, so every `get()` recurses until the stack overflows | `from([1]).reverse().toList()` | the values back to front, `[1]` | high; not executed | LegacySpecs.ReversedToList | Buffered.ReverseFetch.InternalNext |
| src/main/java/main/Linq.java:342-355 | the loop breaks after one value while more values remain, and throws `NoSuchElementException` on the last value when `size >= 2` | `from([1, 2]).chunk(2)` answers `[1]`, then throws | `[[1, 2]]` | high; not executed | LegacySpecs.ChunkAsWrittenSplitsPairs | Stages.ChunkFetch.InternalNext |
| src/main/java/main/Linq.java:1072-1091 | a local `it` hides the field, which stays `null`, and `hasNext()` is then called on it | `from([1, 2]).skipLast(1)` throws `NullPointerException` | `[1]` | high; not executed | LegacySpecs.SkipLastAsWrittenThrows | Buffered.SkipLastFetch.InternalNext |
| src/main/java/main/Linq.java:1242-1253 | a list created for a missing key is never put into the map | `from([v]).toLookup(key)` returns an empty map | `{key(v): [v]}` | high; not executed | LegacySpecs.LookupAsWrittenLosesValues | Terminals.ToLookup |
| src/main/java/main/Linq.java:386-393 | `v.equals(value)` is called on each element, so a `null` element throws | `from([null, 1]).contains(1)` throws `NullPointerException` | `true` | medium; not executed | LegacySpecs.ContainsAsWrittenMeaning | Terminals.Contains |
