# Epoch entries of the table cache

This project models `EpochEntry`, the token the table cache of the HDDS
metadata store uses to order cache entries for deletion in the partial
table cache. An epoch entry pairs a 64-bit epoch with a cache key. Both
fields are set once by the constructor and read back by `getEpoch` and
`getCachekey`. `equals` compares both fields, `hashCode` hashes both
fields, and `compareTo` is a three-way comparison of the epochs alone.

The model is pure, matching the source: the class has no setters,
loops or collections.
- `JavaInts` gives the Java `long` and `int` ranges as subset types.
- `DbCache` holds the `EpochEntry` datatype, its operations and the
  lemmas about them.
- `CompareKeyedSet` shows what the ordering means for a set that decides
  membership by `compareTo` rather than `equals`, as Java's sorted sets
  do. That set is not a model of any class of the repository. It is a
  small stand-in used to state one consequence: of two entries with the
  same epoch and different keys, such a set keeps only one. It keeps its
  members in ascending epoch order, so the sortedness lemmas of
  `DbCache` apply to it.

Main results:
- `compareTo` returns the sign of the true, unbounded difference of the
  two epochs, for every pair of 64-bit epochs. It compares and never
  subtracts, so there is no overflow at the extremes of the `long` range.
- `compareTo` ignores the key. It meets the `Comparable` laws and is a
  total preorder.
- `equals` is structural. It is an equivalence, and equal entries hash
  alike.
- Equal entries compare as 0, but entries that compare as 0 need not be
  equal. So the ordering is not consistent with `equals`.
  `OrderingInconsistentWithEquals` gives a concrete pair.
- In a sequence sorted by `compareTo`, the epochs never decrease, and
  the first entry holds the oldest epoch.

## Model

| member | source | states |
|---|---|---|
| `JavaInts.Sign` | hadoop-hdds/framework/src/main/java/org/apache/hadoop/hdds/utils/db/cache/EpochEntry.java:65-73 | the three-way result used by `compareTo`: -1, 0 or 1, negative exactly for negative arguments and positive exactly for positive ones |
| `DbCache.GettersReturnConstructorArguments` | hadoop-hdds/framework/src/main/java/org/apache/hadoop/hdds/utils/db/cache/EpochEntry.java:34-45 | `getEpoch` and `getCachekey` of a newly built entry return exactly the epoch and key it was built with |
| `DbCache.EpochEntry.GetEpoch` | hadoop-hdds/framework/src/main/java/org/apache/hadoop/hdds/utils/db/cache/EpochEntry.java:39-41 | `getEpoch` returns the stored epoch: together with the stored key it rebuilds the entry; the round trip from the constructor is `GettersReturnConstructorArguments` |
| `DbCache.EpochEntry.GetCachekey` | hadoop-hdds/framework/src/main/java/org/apache/hadoop/hdds/utils/db/cache/EpochEntry.java:43-45 | `getCachekey` returns the stored key: together with the stored epoch it rebuilds the entry; the round trip from the constructor is `GettersReturnConstructorArguments` |
| `DbCache.HashCode` | hadoop-hdds/framework/src/main/java/org/apache/hadoop/hdds/utils/db/cache/EpochEntry.java:59-62 | `hashCode` is a hash of the pair (epoch, key), the hash itself being a function parameter in place of `Objects.hash`; every entry `equals` to this one gets the same hash code (stated for two entries in `EqualEntriesHashEqual`) |
| `DbCache.Equals` | hadoop-hdds/framework/src/main/java/org/apache/hadoop/hdds/utils/db/cache/EpochEntry.java:47-57 | `equals(Object)` is true exactly when the argument is an epoch entry structurally identical to this one; false for null and for other classes |
| `DbCache.EqualsIffFieldsEqual` | hadoop-hdds/framework/src/main/java/org/apache/hadoop/hdds/utils/db/cache/EpochEntry.java:56 | `equals` between two entries holds exactly when both the epochs and the keys are equal |
| `DbCache.EqualsRejectsNonEntries` | hadoop-hdds/framework/src/main/java/org/apache/hadoop/hdds/utils/db/cache/EpochEntry.java:52-54 | `equals` is false for a null argument and for an object of another class |
| `DbCache.EqualsIsEquivalence` | hadoop-hdds/framework/src/main/java/org/apache/hadoop/hdds/utils/db/cache/EpochEntry.java:47-57 | `equals` is reflexive, symmetric and transitive |
| `DbCache.EqualEntriesHashEqual` | hadoop-hdds/framework/src/main/java/org/apache/hadoop/hdds/utils/db/cache/EpochEntry.java:59-62 | equal entries have equal hash codes, for any hash of the pair (epoch, key) |
| `DbCache.Compare` | hadoop-hdds/framework/src/main/java/org/apache/hadoop/hdds/utils/db/cache/EpochEntry.java:64-73 | `compareTo` is the sign of the unbounded difference of the epochs for all 64-bit epochs: 0 exactly when they are equal, -1 exactly when this epoch is smaller, 1 exactly when it is larger |
| `DbCache.CompareIgnoresKeys` | hadoop-hdds/framework/src/main/java/org/apache/hadoop/hdds/utils/db/cache/EpochEntry.java:65-73 | replacing either key by any other leaves the result of `compareTo` unchanged |
| `DbCache.SameEpochComparesZero` | hadoop-hdds/framework/src/main/java/org/apache/hadoop/hdds/utils/db/cache/EpochEntry.java:66-67 | two entries with the same epoch compare as 0 whatever their keys |
| `DbCache.CompareAtLongExtremes` | hadoop-hdds/framework/src/main/java/org/apache/hadoop/hdds/utils/db/cache/EpochEntry.java:66-72 | the comparison gives the right sign for the smallest and largest `long` epochs and their neighbours |
| `DbCache.CompareIsComparable` | hadoop-hdds/framework/src/main/java/org/apache/hadoop/hdds/utils/db/cache/EpochEntry.java:29 | `compareTo` meets the `Comparable` laws: the result is in {-1, 0, 1}, swapping the arguments negates it, it is transitive, and entries comparing as 0 compare alike with any third entry |
| `DbCache.CompareIsTotalPreorder` | hadoop-hdds/framework/src/main/java/org/apache/hadoop/hdds/utils/db/cache/EpochEntry.java:65-73 | "compares at most 0" is reflexive, transitive and total on entries |
| `DbCache.EqualsImpliesCompareZero` | hadoop-hdds/framework/src/main/java/org/apache/hadoop/hdds/utils/db/cache/EpochEntry.java:56 | entries that are `equals` compare as 0 |
| `DbCache.CompareZeroDoesNotImplyEquals` | hadoop-hdds/framework/src/main/java/org/apache/hadoop/hdds/utils/db/cache/EpochEntry.java:66-67 | entries with the same epoch and different keys compare as 0 yet are not `equals`: the ordering is inconsistent with `equals` |
| `DbCache.OrderingInconsistentWithEquals` | hadoop-hdds/framework/src/main/java/org/apache/hadoop/hdds/utils/db/cache/EpochEntry.java:56-67 | there is a concrete pair of entries (epoch 7, keys "a" and "b") that compare as 0 and are not `equals` |
| `DbCache.SortedByCompareIsOrderedByEpoch` | hadoop-hdds/framework/src/main/java/org/apache/hadoop/hdds/utils/db/cache/EpochEntry.java:24-29 | in a sequence where each entry compares at most 0 with the next, each entry compares at most 0 with every later one, and the epochs never decrease |
| `DbCache.SortedHeadHoldsOldestEpoch` | hadoop-hdds/framework/src/main/java/org/apache/hadoop/hdds/utils/db/cache/EpochEntry.java:24-26 | the first entry of a sequence sorted by `compareTo` has the smallest epoch, so deletion in epoch order starts there |
| `DbCache.SortednessIgnoresKeys` | hadoop-hdds/framework/src/main/java/org/apache/hadoop/hdds/utils/db/cache/EpochEntry.java:65-73 | two sequences with the same epochs position by position are both sorted by `compareTo` or both unsorted, whatever their keys |
| `CompareKeyedSet.Add` | hadoop-hdds/framework/src/main/java/org/apache/hadoop/hdds/utils/db/cache/EpochEntry.java:29 | a stand-in for a library sorted set, not a class of the repository, over the `Comparable` that line 29 declares: adding inserts in epoch order, so a set sorted by `compareTo` stays sorted; it keeps every member, adds nothing but the new entry, keeps members pairwise distinct in epoch, and adds the new entry exactly when no member shares its epoch |
| `CompareKeyedSet.TiedEntryIsDropped` | hadoop-hdds/framework/src/main/java/org/apache/hadoop/hdds/utils/db/cache/EpochEntry.java:65-67 | after adding two entries with the same epoch and different keys, such a set holds only the first; the second is missing although it equals no member |

## Left out

- The table cache classes consume this token, but their code is not
  among the modelled files. So their cache values and their put, get and
  cleanup (eviction) logic are not rebuilt here.
- The configuration-key registry `ScmConfigKeys.java` is left out. It
  holds only constants and a private constructor, so it has no behaviour
  to verify.
- The concrete value of `Objects.hash` is left out, because it is a
  library call. `DbCache.HashCode` takes the hash of the pair (epoch,
  key) as a function parameter. Only "equal entries hash alike" is
  stated about it.
- The `ClassCastException` that `compareTo(Object)` throws for an
  argument that is not an epoch entry is left out, and so is the
  `NullPointerException` for a null argument. In the model the argument
  has the entry type, so neither can happen.
- The identity shortcut `this == o` in `equals` is not modelled as a
  separate case. Entries are values here, and the structural comparison
  already gives true for an entry compared with itself.
- `equals` compares keys with the key type's own equality. Java's
  `Objects.equals` calls the key's `equals`, with null handled. The
  model assumes that method is an equality on keys.
- `EqualsRejectsNonEntries` treats every argument of another class as
  one `OtherClass` case. It also does not model an entry whose key has a
  different type parameter, which Java's `getClass()` check cannot tell
  apart.
