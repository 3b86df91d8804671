# HaloDB cache statistics snapshot, modelled in Dafny

HaloDB is an embedded key-value store. Its off-heap cache reports its counters
through `OHCacheStats`, an immutable snapshot. The snapshot holds:

- hits, misses, size and capacity;
- rehashes, puts (added, replaced, failed) and removes;
- the total bytes allocated and the number of LRU compactions;
- an array of per-segment statistics.

The class also has a hand-written `equals` and `hashCode`, and two private
helpers, `maxOf` and `minOf`, that scan a `long[]`. This project models that
class and proves what it promises:

- every getter returns the matching constructor argument;
- `equals` is an equivalence relation that compares eight counters. It ignores
  `rehashCount`, `totalAllocated`, `lruCompactions` and the segment statistics;
- `hashCode` reproduces Java's 32-bit arithmetic and agrees with `equals`;
- `maxOf` and `minOf` return the bounds they are written to compute.

Files:

- `JavaPrimitives.dfy` (module `JavaPrimitives`): Java's `long` and `int` as
  ranges of `int`, the 32-bit wrap-around (`Wrap32`), a bitwise exclusive or
  on non-negative numbers (`Xor`), and the facts about `Xor` that the hash
  lemmas use (xor with zero, with all ones, and keeping only the low bits).
- `OHCacheStats.dfy` (module `CacheStats`): the snapshot as a datatype, with
  the constructor, `equals`, `hashCode`, `maxOf` and `minOf` and the lemmas
  about them.

Modelling choices:

- The snapshot never changes after construction, so it is a `datatype`. Its
  getters are the datatype's fields.
- `CacheStats.New` keeps the Java parameter order: `size` comes before
  `capacity`, and `free` is accepted and dropped.
- The per-segment statistics type is not part of this model. The datatype is
  generic in it (`S`). Nothing proved here depends on it.
- `equals(Object)` takes a `JavaObject<S>`: `Null`, another snapshot, or an
  object of another class.
- `hashCode` is a method made of the same eight statements as the Java code.
  Each statement `result = 31 * result + (int) (x ^ (x >>> 32))` is the
  function `Mix`. `Mix` wraps to 32 bits with `Wrap32`, as Java `int`
  arithmetic does. The method is proved equal to `Hash`, the 31-polynomial over
  the folded counters, defined by recursion over a sequence.
- `LongHash` models `(int) (x ^ (x >>> 32))` on the 64-bit two's-complement
  pattern `u` of `x`. `x >>> 32` is `u / 2^32`; `^` is `Xor`; the cast is
  `Wrap32`.
- `maxOf` and `minOf` are methods with loops over an `array<Long>`. Each is
  proved equal to a recursive function of the array's prefix. That function's
  own contract gives the bounds.

## Model

| member | source | states |
|---|---|---|
| `CacheStats.New` | src/main/java/com/oath/halodb/cache/OHCacheStats.java:28-104 | each getter of the built snapshot returns its own constructor argument; `size` and `capacity` land in their own fields although the constructor receives them as (size, capacity) |
| `CacheStats.NewIgnoresFree` | src/main/java/com/oath/halodb/cache/OHCacheStats.java:28-45 | the `free` argument has no effect: two constructions that differ only in it give the same snapshot |
| `CacheStats.Equals` | src/main/java/com/oath/halodb/cache/OHCacheStats.java:147-166 | `equals` is true exactly when the argument is a snapshot whose capacity, hit, miss, putAdd, putFail, putReplace, remove and size counters all match; null and other classes give false |
| `CacheStats.EqualsIffSameUpToIgnoredFields` | src/main/java/com/oath/halodb/cache/OHCacheStats.java:154-165 | two snapshots are equal exactly when they agree on everything except rehashCount, totalAllocated, lruCompactions and segmentStats (both directions) |
| `CacheStats.IgnoredFieldsDoNotAffectEquals` | src/main/java/com/oath/halodb/cache/OHCacheStats.java:154-165 | changing only rehashCount, totalAllocated, lruCompactions or segmentStats yields an equal snapshot |
| `CacheStats.EqualsReflexive` | src/main/java/com/oath/halodb/cache/OHCacheStats.java:147-166 | every snapshot equals itself |
| `CacheStats.EqualsSymmetric` | src/main/java/com/oath/halodb/cache/OHCacheStats.java:154-162 | a equals b exactly when b equals a |
| `CacheStats.EqualsTransitive` | src/main/java/com/oath/halodb/cache/OHCacheStats.java:154-162 | a equals b and b equals c imply a equals c |
| `CacheStats.EqualsRejectsNullAndOtherClasses` | src/main/java/com/oath/halodb/cache/OHCacheStats.java:150 | no snapshot equals null or an object of another class |
| `CacheStats.PolyHashStep` | src/main/java/com/oath/halodb/cache/OHCacheStats.java:171-178 | one `result = 31 * result + ...` statement extends the polynomial hash of the counters folded so far by one more counter |
| `CacheStats.HashCode` | src/main/java/com/oath/halodb/cache/OHCacheStats.java:168-181 | the eight wrapping statements of `hashCode` compute the 31-polynomial (`Hash`) of the folded hit, miss, capacity, size, putAdd, putReplace, putFail and remove counters |
| `CacheStats.HashedCountersPermuteEqualityKey` | src/main/java/com/oath/halodb/cache/OHCacheStats.java:154-179 | the counters `hashCode` folds are exactly the counters `equals` compares, rearranged by a fixed permutation |
| `CacheStats.HashConsistentWithEquals` | src/main/java/com/oath/halodb/cache/OHCacheStats.java:147-181 | equal snapshots have equal hash codes |
| `CacheStats.IgnoredFieldsDoNotAffectHash` | src/main/java/com/oath/halodb/cache/OHCacheStats.java:168-181 | changing only rehashCount, totalAllocated, lruCompactions or segmentStats leaves the hash code unchanged |
| `CacheStats.LongHashOfIntRange` | src/main/java/com/oath/halodb/cache/OHCacheStats.java:170 | `(int) (x ^ (x >>> 32))` of a counter that fits an `int` is the counter itself when it is non-negative and its complement `-x - 1` when it is negative |
| `JavaPrimitives.Wrap32` | src/main/java/com/oath/halodb/cache/OHCacheStats.java:170-179 | the 32-bit wrap-around of `int` arithmetic and of the `(int)` cast: an `int` congruent to the exact value modulo 2^32 |
| `CacheStats.MaxOfSeq` | src/main/java/com/oath/halodb/cache/OHCacheStats.java:121-128 | the result is at least 0 and at least every element, and it is 0 or one of the elements: 0 for an empty array, otherwise the larger of 0 and the greatest element |
| `CacheStats.MaxOf` | src/main/java/com/oath/halodb/cache/OHCacheStats.java:121-128 | the loop from `r = 0` returns `MaxOfSeq` of the whole array |
| `CacheStats.MinOfSeq` | src/main/java/com/oath/halodb/cache/OHCacheStats.java:130-137 | the result is at most every element; it is `Long.MAX_VALUE` for an empty array and one of the elements (the smallest) otherwise |
| `CacheStats.MinOf` | src/main/java/com/oath/halodb/cache/OHCacheStats.java:130-137 | the loop from `r = Long.MAX_VALUE` returns `MinOfSeq` of the whole array |

## Left out

- `avgOf` (OHCacheStats.java:139-145): it divides in double-precision floating point and gives NaN for an empty array. Floating point is not modelled.
- `toString` (OHCacheStats.java:106-119): it only formats text through Guava's `Objects.toStringHelper`, which is not part of this model.
- `HaloDBStats.java`: its getters return final fields. Its only logic, `staleDataMapToString`, formats `Double` values as text, in the iteration order of a `Map` that is not part of this model.
- `DoubleCheckCacheImpl.java`: test scaffolding. It forwards each call to two cache implementations that are not part of this model.
- `SegmentStats` is not part of this model. The snapshot carries it as an uninterpreted element type. The Java getter returns the stored array by reference, so callers can alias and change it. The model does not capture that.
- Null arrays: `maxOf`, `minOf` and the constructor can receive a null `long[]` or `SegmentStats[]` in Java, and a null array passed to `maxOf` or `minOf` throws. The model's arrays and sequences are never null.
- Reference identity: `equals` first tests `this == o`. The model has no object identity. It makes no difference, because a snapshot compared with itself passes every field comparison (`CacheStats.EqualsReflexive`).
- The off-heap hash table, LRU eviction and compaction engine are not part of this model.
