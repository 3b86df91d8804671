/** The statistics snapshot of the off-heap cache (OHCacheStats): an immutable
    value of eleven counters and the per-segment statistics, with the value
    equality and hash code the cache exposes, and the two extremum helpers the
    class carries. */
module CacheStats {
  import opened JavaPrimitives

  /** One snapshot. The fields are those of the Java class; none changes after
      construction, so the snapshot is a value. `S` stands for the per-segment
      statistics record, whose content this model does not need. */
  datatype OHCacheStats<S> = OHCacheStats(
    hitCount: Long,
    missCount: Long,
    capacity: Long,
    size: Long,
    rehashCount: Long,
    putAddCount: Long,
    putReplaceCount: Long,
    putFailCount: Long,
    removeCount: Long,
    totalAllocated: Long,
    lruCompactions: Long,
    segmentStats: seq<S>)

  /** What `equals(Object)` may be handed: null, a snapshot, or an object of
      some other class. */
  datatype JavaObject<S> = Null | Stats(stats: OHCacheStats<S>) | OtherClass

  // ---------------------------------------------------------------------
  // Construction
  // ---------------------------------------------------------------------

  /** The constructor, with the Java parameter order: `size` comes before
      `capacity`, and `free` is accepted but not stored. Each getter of the
      Java class is the field of the same name. */
  function New<S>(hitCount: Long, missCount: Long, size: Long, capacity: Long, free: Long,
                  rehashCount: Long, putAddCount: Long, putReplaceCount: Long,
                  putFailCount: Long, removeCount: Long, totalAllocated: Long,
                  lruCompactions: Long, segmentStats: seq<S>): (r: OHCacheStats<S>)
    ensures r.hitCount == hitCount && r.missCount == missCount
    ensures r.size == size && r.capacity == capacity
    ensures r.rehashCount == rehashCount
    ensures r.putAddCount == putAddCount && r.putReplaceCount == putReplaceCount
    ensures r.putFailCount == putFailCount && r.removeCount == removeCount
    ensures r.totalAllocated == totalAllocated && r.lruCompactions == lruCompactions
    ensures r.segmentStats == segmentStats
  {
    OHCacheStats(hitCount, missCount, capacity, size, rehashCount, putAddCount,
                 putReplaceCount, putFailCount, removeCount, totalAllocated,
                 lruCompactions, segmentStats)
  }

  /** The `free` argument has no influence on the snapshot built. */
  lemma NewIgnoresFree<S>(hitCount: Long, missCount: Long, size: Long, capacity: Long,
                          free1: Long, free2: Long, rehashCount: Long, putAddCount: Long,
                          putReplaceCount: Long, putFailCount: Long, removeCount: Long,
                          totalAllocated: Long, lruCompactions: Long, segmentStats: seq<S>)
    ensures New(hitCount, missCount, size, capacity, free1, rehashCount, putAddCount,
                putReplaceCount, putFailCount, removeCount, totalAllocated,
                lruCompactions, segmentStats)
         == New(hitCount, missCount, size, capacity, free2, rehashCount, putAddCount,
                putReplaceCount, putFailCount, removeCount, totalAllocated,
                lruCompactions, segmentStats)
  {
  }

  // ---------------------------------------------------------------------
  // Equality
  // ---------------------------------------------------------------------

  /** The counters `equals` compares, in the order it compares them.
      `rehashCount`, `totalAllocated`, `lruCompactions` and `segmentStats`
      are not among them. */
  function EqualityKey<S>(s: OHCacheStats<S>): seq<Long>
  {
    [s.capacity, s.hitCount, s.missCount, s.putAddCount, s.putFailCount,
     s.putReplaceCount, s.removeCount, s.size]
  }

  /** `s.equals(o)`: null and objects of other classes are unequal, then one
      comparison per counter with an early `false`. The identity shortcut
      `this == o` is not modelled separately: an object compared with itself
      passes every comparison anyway (EqualsReflexive). */
  function Equals<S>(s: OHCacheStats<S>, o: JavaObject<S>): (r: bool)
    ensures r <==> o.Stats? && EqualityKey(s) == EqualityKey(o.stats)
  {
    match o
    case Null => false
    case OtherClass => false
    case Stats(that) =>
      if s.capacity != that.capacity then false
      else if s.hitCount != that.hitCount then false
      else if s.missCount != that.missCount then false
      else if s.putAddCount != that.putAddCount then false
      else if s.putFailCount != that.putFailCount then false
      else if s.putReplaceCount != that.putReplaceCount then false
      else if s.removeCount != that.removeCount then false
      else if s.size != that.size then false
      else true
  }

  /** `Equals` between two snapshots, as a binary relation. */
  predicate SameStats<S>(a: OHCacheStats<S>, b: OHCacheStats<S>)
  {
    Equals(a, Stats(b))
  }

  /** Two snapshots are equal exactly when they become the same value once the
      four ignored fields of one are overwritten with those of the other. */
  lemma EqualsIffSameUpToIgnoredFields<S>(a: OHCacheStats<S>, b: OHCacheStats<S>)
    ensures SameStats(a, b) <==>
            a.(rehashCount := b.rehashCount, totalAllocated := b.totalAllocated,
               lruCompactions := b.lruCompactions, segmentStats := b.segmentStats) == b
  {
    if SameStats(a, b) {
      var k1, k2 := EqualityKey(a), EqualityKey(b);
      assert k1[0] == k2[0] && k1[1] == k2[1] && k1[2] == k2[2] && k1[3] == k2[3];
      assert k1[4] == k2[4] && k1[5] == k2[5] && k1[6] == k2[6] && k1[7] == k2[7];
    }
  }

  /** Changing only the ignored fields yields an equal snapshot. */
  lemma IgnoredFieldsDoNotAffectEquals<S>(s: OHCacheStats<S>, rehashCount: Long,
                                          totalAllocated: Long, lruCompactions: Long,
                                          segmentStats: seq<S>)
    ensures SameStats(s, s.(rehashCount := rehashCount, totalAllocated := totalAllocated,
                            lruCompactions := lruCompactions, segmentStats := segmentStats))
  {
  }

  lemma EqualsReflexive<S>(a: OHCacheStats<S>)
    ensures SameStats(a, a)
  {
  }

  lemma EqualsSymmetric<S>(a: OHCacheStats<S>, b: OHCacheStats<S>)
    ensures SameStats(a, b) <==> SameStats(b, a)
  {
  }

  lemma EqualsTransitive<S>(a: OHCacheStats<S>, b: OHCacheStats<S>, c: OHCacheStats<S>)
    requires SameStats(a, b) && SameStats(b, c)
    ensures SameStats(a, c)
  {
  }

  /** No snapshot equals null or an object of another class. */
  lemma EqualsRejectsNullAndOtherClasses<S>(a: OHCacheStats<S>)
    ensures !Equals(a, Null) && !Equals(a, OtherClass)
  {
  }

  // ---------------------------------------------------------------------
  // Hash code
  // ---------------------------------------------------------------------

  /** `(int) (x ^ (x >>> 32))`, Java's standard fold of a `long` into an
      `int`: `u` is the 64-bit pattern of `x`, `u / 2^32` is `x >>> 32`, and
      the cast keeps the low 32 bits of the exclusive or. */
  function LongHash(x: Long): Int32
  {
    var u := x as int % 0x1_0000_0000_0000_0000;
    Wrap32(Xor(u, u / 0x1_0000_0000))
  }

  /** The counters `hashCode` folds, in the order it folds them. */
  function HashedCounters<S>(s: OHCacheStats<S>): seq<Long>
  {
    [s.hitCount, s.missCount, s.capacity, s.size, s.putAddCount, s.putReplaceCount,
     s.putFailCount, s.removeCount]
  }

  /** The position in `EqualityKey` of each counter of `HashedCounters`. */
  const HashOrder: seq<nat> := [1, 2, 0, 7, 3, 5, 4, 6]

  /** One statement of `hashCode`: `result = 31 * result + (int) (x ^ (x >>> 32))`. */
  function Mix(result: Int32, x: Long): Int32
  {
    Wrap32(31 * result as int + LongHash(x) as int)
  }

  /** The 31-polynomial over the folded counters, with `int` wrap-around:
      `result = 31 * result + LongHash(x)` for each counter `x` in turn,
      starting from 0. */
  function PolyHash(xs: seq<Long>): Int32
  {
    if xs == [] then 0 else Mix(PolyHash(xs[..|xs| - 1]), xs[|xs| - 1])
  }

  /** The value `hashCode` returns. */
  function Hash<S>(s: OHCacheStats<S>): Int32
  {
    PolyHash(HashedCounters(s))
  }

  /** One step of `hashCode`: once `result` is the hash of the counters
      folded so far, `31 * result + LongHash(x)` is the hash of those counters
      followed by `x`. */
  lemma PolyHashStep(done: seq<Long>, result: Int32, x: Long)
    requires result == PolyHash(done)
    ensures Mix(result, x) == PolyHash(done + [x])
  {
    assert (done + [x])[..|done|] == done;
  }

  /** `hashCode()`, statement by statement as the class computes it. */
  method HashCode<S>(s: OHCacheStats<S>) returns (result: Int32)
    ensures result == Hash(s)
  {
    ghost var done: seq<Long> := [];
    PolyHashStep(done, 0, s.hitCount);
    Wrap32OfInt32(LongHash(s.hitCount));
    result := LongHash(s.hitCount);
    done := done + [s.hitCount];
    PolyHashStep(done, result, s.missCount);
    result := Mix(result, s.missCount);
    done := done + [s.missCount];
    PolyHashStep(done, result, s.capacity);
    result := Mix(result, s.capacity);
    done := done + [s.capacity];
    PolyHashStep(done, result, s.size);
    result := Mix(result, s.size);
    done := done + [s.size];
    PolyHashStep(done, result, s.putAddCount);
    result := Mix(result, s.putAddCount);
    done := done + [s.putAddCount];
    PolyHashStep(done, result, s.putReplaceCount);
    result := Mix(result, s.putReplaceCount);
    done := done + [s.putReplaceCount];
    PolyHashStep(done, result, s.putFailCount);
    result := Mix(result, s.putFailCount);
    done := done + [s.putFailCount];
    PolyHashStep(done, result, s.removeCount);
    result := Mix(result, s.removeCount);
    done := done + [s.removeCount];
    assert done == HashedCounters(s);
  }

  /** `hashCode` folds exactly the counters `equals` compares, in another
      order. */
  lemma HashedCountersPermuteEqualityKey<S>(s: OHCacheStats<S>)
    ensures |HashedCounters(s)| == |HashOrder| == |EqualityKey(s)|
    ensures forall i :: 0 <= i < |HashOrder| ==>
              HashOrder[i] < |EqualityKey(s)| && HashedCounters(s)[i] == EqualityKey(s)[HashOrder[i]]
    ensures forall j :: 0 <= j < |HashOrder| ==> j in HashOrder
  {
  }

  /** Equal snapshots have equal hash codes. */
  lemma HashConsistentWithEquals<S>(a: OHCacheStats<S>, b: OHCacheStats<S>)
    requires SameStats(a, b)
    ensures Hash(a) == Hash(b)
  {
    HashedCountersPermuteEqualityKey(a);
    HashedCountersPermuteEqualityKey(b);
    var ha, hb := HashedCounters(a), HashedCounters(b);
    forall i | 0 <= i < |ha| ensures ha[i] == hb[i] {
      assert EqualityKey(a)[HashOrder[i]] == EqualityKey(b)[HashOrder[i]];
    }
    assert ha == hb;
  }

  /** `rehashCount`, `totalAllocated`, `lruCompactions` and `segmentStats` do
      not enter the hash code. */
  lemma IgnoredFieldsDoNotAffectHash<S>(s: OHCacheStats<S>, rehashCount: Long,
                                        totalAllocated: Long, lruCompactions: Long,
                                        segmentStats: seq<S>)
    ensures Hash(s) == Hash(s.(rehashCount := rehashCount, totalAllocated := totalAllocated,
                               lruCompactions := lruCompactions, segmentStats := segmentStats))
  {
    IgnoredFieldsDoNotAffectEquals(s, rehashCount, totalAllocated, lruCompactions, segmentStats);
    HashConsistentWithEquals(s, s.(rehashCount := rehashCount, totalAllocated := totalAllocated,
                                   lruCompactions := lruCompactions, segmentStats := segmentStats));
  }

  /** A counter that fits an `int` folds to itself when it is non-negative
      and to its bitwise complement `-x - 1` when it is negative: its high word
      is then all zeros or all ones. */
  lemma LongHashOfIntRange(x: Long)
    requires -0x8000_0000 <= x as int < 0x8000_0000
    ensures LongHash(x) as int == if x >= 0 then x as int else -(x as int) - 1
  {
    var u := x as int % 0x1_0000_0000_0000_0000;
    var high := u / 0x1_0000_0000;
    if x >= 0 {
      assert u == x as int && high == 0;
      XorZero(u);
    } else {
      assert u == x as int + 0x1_0000_0000_0000_0000;
      assert high == 0xFFFF_FFFF;
      Pow2Of32();
      XorLowBits(u, high, 32);
      XorAllOnes(u % 0x1_0000_0000, 32);
      assert Xor(u, high) % 0x1_0000_0000 == -(x as int) - 1;
    }
  }

  // ---------------------------------------------------------------------
  // Extremum helpers
  // ---------------------------------------------------------------------

  /** `maxOf` of a prefix of the loop: the running maximum starting from 0. */
  function MaxOfSeq(s: seq<Long>): (r: Long)
    ensures 0 <= r
    ensures forall i :: 0 <= i < |s| ==> s[i] <= r
    ensures r == 0 || r in s
  {
    if s == [] then 0
    else
      var m := MaxOfSeq(s[..|s| - 1]);
      if s[|s| - 1] > m then s[|s| - 1] else m
  }

  /** `minOf` of a prefix of the loop: the running minimum starting from
      `Long.MAX_VALUE`. */
  function MinOfSeq(s: seq<Long>): (r: Long)
    ensures forall i :: 0 <= i < |s| ==> r <= s[i]
    ensures s == [] ==> r as int == LONG_MAX
    ensures s != [] ==> r in s
  {
    if s == [] then LONG_MAX as Long
    else
      var m := MinOfSeq(s[..|s| - 1]);
      if s[|s| - 1] < m then s[|s| - 1] else m
  }

  /** `maxOf(long[])`. */
  method MaxOf(arr: array<Long>) returns (r: Long)
    ensures r == MaxOfSeq(arr[..])
  {
    r := 0;
    for i := 0 to arr.Length
      invariant r == MaxOfSeq(arr[..i])
    {
      assert arr[..i + 1][..i] == arr[..i];
      if arr[i] > r {
        r := arr[i];
      }
    }
    assert arr[..arr.Length] == arr[..];
  }

  /** `minOf(long[])`. */
  method MinOf(arr: array<Long>) returns (r: Long)
    ensures r == MinOfSeq(arr[..])
  {
    r := LONG_MAX as Long;
    for i := 0 to arr.Length
      invariant r == MinOfSeq(arr[..i])
    {
      assert arr[..i + 1][..i] == arr[..i];
      if arr[i] < r {
        r := arr[i];
      }
    }
    assert arr[..arr.Length] == arr[..];
  }
}
