/**
 * The Java integer widths the cache token uses: an epoch is a `long`,
 * `compareTo` and `hashCode` return an `int`.
 */
module JavaInts {
  const LONG_MIN: int := -0x8000_0000_0000_0000
  const LONG_MAX: int := 0x7FFF_FFFF_FFFF_FFFF
  const INT_MIN: int := -0x8000_0000
  const INT_MAX: int := 0x7FFF_FFFF

  /** A Java `long`: a 64-bit two's-complement integer. */
  type Long = x: int | LONG_MIN <= x <= LONG_MAX

  /** A Java `int`: a 32-bit two's-complement integer. */
  type Int = x: int | INT_MIN <= x <= INT_MAX

  /** The sign of a mathematical (unbounded) integer. */
  function Sign(x: int): (r: Int)
    ensures r == -1 || r == 0 || r == 1
    ensures r < 0 <==> x < 0
    ensures r > 0 <==> x > 0
  {
    if x < 0 then -1 else if x == 0 then 0 else 1
  }
}

/**
 * The epoch entry of the table cache: an immutable token that pairs the
 * epoch of a cache write with the cache key it wrote. The partial table
 * cache keeps these tokens in an ordered collection to decide which
 * entries to delete; their order is the order of their epochs.
 */
module DbCache {
  import opened JavaInts

  /** An epoch entry: both fields are set once, at construction. */
  datatype EpochEntry<K> = EpochEntry(epoch: Long, cachekey: K)
  {
    /** `getEpoch`: the epoch the entry was built with; with the key it rebuilds the entry. */
    function GetEpoch(): (r: Long)
      ensures EpochEntry(r, cachekey) == this
    {
      epoch
    }

    /** `getCachekey`: the key the entry was built with; with the epoch it rebuilds the entry. */
    function GetCachekey(): (r: K)
      ensures EpochEntry(epoch, r) == this
    {
      cachekey
    }
  }

  /**
   * The argument of `equals(Object)`: a null reference, an object of
   * some other class, or another epoch entry.
   */
  datatype Obj<K> = Null | OtherClass | Entry(entry: EpochEntry<K>)

  /** `equals(Object)`: false for null and for other classes, else field by field. */
  function Equals<K(==)>(self: EpochEntry<K>, o: Obj<K>): (r: bool)
    ensures r <==> o == Entry(self)
  {
    match o
    case Null => false
    case OtherClass => false
    case Entry(that) => self.epoch == that.epoch && self.cachekey == that.cachekey
  }

  /** `equals` between two epoch entries. */
  predicate EntryEquals<K(==)>(a: EpochEntry<K>, b: EpochEntry<K>)
  {
    Equals(a, Entry(b))
  }

  /**
   * `hashCode`: the library hash of the pair (epoch, key). The hash
   * function itself is a parameter; only its arguments are fixed here.
   */
  function HashCode<K(==,!new)>(e: EpochEntry<K>, hash: (Long, K) -> Int): (r: Int)
    ensures forall o: EpochEntry<K> :: EntryEquals(e, o) ==> r == hash(o.epoch, o.cachekey)
  {
    hash(e.epoch, e.cachekey)
  }

  /**
   * `compareTo`: a three-way comparison of the two epochs, written with
   * `==` and `<` only. Its result is the sign of the true (unbounded)
   * difference of the epochs for every pair of 64-bit epochs, so it
   * cannot overflow, and the keys play no part in it.
   */
  function Compare<K>(a: EpochEntry<K>, b: EpochEntry<K>): (r: Int)
    ensures r == Sign(a.epoch - b.epoch)
    ensures r == 0 <==> a.epoch == b.epoch
    ensures r == -1 <==> a.epoch < b.epoch
    ensures r == 1 <==> a.epoch > b.epoch
  {
    if a.epoch == b.epoch then 0
    else if a.epoch < b.epoch then -1
    else 1
  }

  // ---------------------------------------------------------------------
  // Construction and getters
  // ---------------------------------------------------------------------

  /** Reading back a freshly built entry gives exactly what it was built with. */
  lemma GettersReturnConstructorArguments<K>(epoch: Long, key: K)
    ensures EpochEntry(epoch, key).GetEpoch() == epoch
    ensures EpochEntry(epoch, key).GetCachekey() == key
  {
  }

  // ---------------------------------------------------------------------
  // Equality
  // ---------------------------------------------------------------------

  /** `equals` on two entries holds exactly when both epoch and key agree. */
  lemma EqualsIffFieldsEqual<K>(a: EpochEntry<K>, b: EpochEntry<K>)
    ensures EntryEquals(a, b) <==> a.GetEpoch() == b.GetEpoch() && a.GetCachekey() == b.GetCachekey()
  {
  }

  /** `equals` is false for null and for objects of another class. */
  lemma EqualsRejectsNonEntries<K>(a: EpochEntry<K>)
    ensures !Equals(a, Null) && !Equals(a, OtherClass)
  {
  }

  /** `equals` is an equivalence relation on entries. */
  lemma EqualsIsEquivalence<K>(a: EpochEntry<K>, b: EpochEntry<K>, c: EpochEntry<K>)
    ensures EntryEquals(a, a)
    ensures EntryEquals(a, b) <==> EntryEquals(b, a)
    ensures EntryEquals(a, b) && EntryEquals(b, c) ==> EntryEquals(a, c)
  {
  }

  /** Equal entries have equal hash codes, whatever the hash function. */
  lemma EqualEntriesHashEqual<K(!new)>(a: EpochEntry<K>, b: EpochEntry<K>, hash: (Long, K) -> Int)
    requires EntryEquals(a, b)
    ensures HashCode(a, hash) == HashCode(b, hash)
  {
  }

  // ---------------------------------------------------------------------
  // Ordering
  // ---------------------------------------------------------------------

  /** `compareTo` never looks at the keys. */
  lemma CompareIgnoresKeys<K>(a: EpochEntry<K>, b: EpochEntry<K>, ka: K, kb: K)
    ensures Compare(a, b) == Compare(EpochEntry(a.epoch, ka), EpochEntry(b.epoch, kb))
  {
  }

  /** Entries with the same epoch compare as 0 whatever their keys. */
  lemma SameEpochComparesZero<K>(epoch: Long, k1: K, k2: K)
    ensures Compare(EpochEntry(epoch, k1), EpochEntry(epoch, k2)) == 0
  {
  }

  /** The comparison is right at the extremes of the `long` range. */
  lemma CompareAtLongExtremes<K>(k1: K, k2: K)
    ensures Compare(EpochEntry(LONG_MIN, k1), EpochEntry(LONG_MAX, k2)) == -1
    ensures Compare(EpochEntry(LONG_MAX, k1), EpochEntry(LONG_MIN, k2)) == 1
    ensures Compare(EpochEntry(LONG_MIN, k1), EpochEntry(LONG_MIN + 1, k2)) == -1
    ensures Compare(EpochEntry(LONG_MAX, k1), EpochEntry(LONG_MAX - 1, k2)) == 1
  {
  }

  /**
   * `compareTo` meets the contract of `Comparable`: the result is a
   * sign, swapping the arguments negates it, it is transitive, and
   * entries that compare as 0 compare alike with every third entry.
   */
  lemma CompareIsComparable<K>(a: EpochEntry<K>, b: EpochEntry<K>, c: EpochEntry<K>)
    ensures Compare(a, b) in {-1, 0, 1}
    ensures Compare(a, b) == -Compare(b, a)
    ensures Compare(a, b) > 0 && Compare(b, c) > 0 ==> Compare(a, c) > 0
    ensures Compare(a, b) == 0 ==> Compare(a, c) == Compare(b, c)
  {
  }

  /** Ordering by `compareTo` is a total preorder: reflexive, transitive and total. */
  lemma CompareIsTotalPreorder<K>(a: EpochEntry<K>, b: EpochEntry<K>, c: EpochEntry<K>)
    ensures Compare(a, a) == 0
    ensures Compare(a, b) <= 0 && Compare(b, c) <= 0 ==> Compare(a, c) <= 0
    ensures Compare(a, b) <= 0 || Compare(b, a) <= 0
  {
  }

  // ---------------------------------------------------------------------
  // Ordering against equality
  // ---------------------------------------------------------------------

  /** Equal entries compare as 0. */
  lemma EqualsImpliesCompareZero<K>(a: EpochEntry<K>, b: EpochEntry<K>)
    requires EntryEquals(a, b)
    ensures Compare(a, b) == 0
  {
  }

  /**
   * The reverse fails: same epoch, different keys compare as 0 but are
   * not equal. The ordering is not consistent with `equals`.
   */
  lemma CompareZeroDoesNotImplyEquals<K>(epoch: Long, k1: K, k2: K)
    requires k1 != k2
    ensures Compare(EpochEntry(epoch, k1), EpochEntry(epoch, k2)) == 0
    ensures !EntryEquals(EpochEntry(epoch, k1), EpochEntry(epoch, k2))
  {
  }

  /** A concrete pair of entries on which the ordering and `equals` disagree. */
  lemma OrderingInconsistentWithEquals()
    ensures exists a: EpochEntry<string>, b: EpochEntry<string> ::
              Compare(a, b) == 0 && !EntryEquals(a, b)
  {
    var a := EpochEntry(7, "a");
    var b := EpochEntry(7, "b");
    assert Compare(a, b) == 0 && !EntryEquals(a, b);
  }

  // ---------------------------------------------------------------------
  // Sequences ordered by compareTo
  // ---------------------------------------------------------------------

  /** Each entry compares at most 0 with the next one. */
  ghost predicate SortedByCompare<K>(s: seq<EpochEntry<K>>)
  {
    forall i :: 0 <= i < |s| - 1 ==> Compare(s[i], s[i + 1]) <= 0
  }

  /**
   * In a sequence sorted by `compareTo`, every earlier entry compares at
   * most 0 with every later one, so the epochs never decrease along it.
   */
  lemma {:induction false} SortedByCompareIsOrderedByEpoch<K>(s: seq<EpochEntry<K>>, i: nat, j: nat)
    requires SortedByCompare(s)
    requires i <= j < |s|
    ensures Compare(s[i], s[j]) <= 0
    ensures s[i].epoch <= s[j].epoch
    decreases j - i
  {
    if i < j {
      SortedByCompareIsOrderedByEpoch(s, i + 1, j);
    }
  }

  /** The first entry of a sorted sequence holds the smallest epoch. */
  lemma SortedHeadHoldsOldestEpoch<K>(s: seq<EpochEntry<K>>)
    requires SortedByCompare(s) && |s| > 0
    ensures forall j :: 0 <= j < |s| ==> s[0].epoch <= s[j].epoch
  {
    forall j | 0 <= j < |s|
      ensures s[0].epoch <= s[j].epoch
    {
      SortedByCompareIsOrderedByEpoch(s, 0, j);
    }
  }

  /** Whether a sequence is sorted by `compareTo` does not depend on its keys. */
  lemma SortednessIgnoresKeys<K>(s: seq<EpochEntry<K>>, t: seq<EpochEntry<K>>)
    requires |s| == |t|
    requires forall i :: 0 <= i < |s| ==> s[i].epoch == t[i].epoch
    ensures SortedByCompare(s) <==> SortedByCompare(t)
  {
  }
}

/**
 * A set that, like a sorted set over `Comparable` elements, decides
 * membership by `compareTo` and not by `equals`: an element is added
 * only when no element already in the set compares as 0 with it.
 * Kept as a sequence in ascending epoch order.
 */
module CompareKeyedSet {
  import opened JavaInts
  import opened DbCache

  /** No two members share an epoch, i.e. no two compare as 0. */
  predicate DistinctEpochs<K>(s: seq<EpochEntry<K>>)
  {
    forall i, j :: 0 <= i < j < |s| ==> Compare(s[i], s[j]) != 0
  }

  /** Some member compares as 0 with `x`. */
  predicate HasTie<K>(s: seq<EpochEntry<K>>, x: EpochEntry<K>)
  {
    exists i :: 0 <= i < |s| && Compare(s[i], x) == 0
  }

  /**
   * Where `x` goes in a sequence sorted by `compareTo`: after every
   * member with a smaller epoch and before the first member whose epoch
   * is not smaller.
   */
  function InsertionPoint<K>(s: seq<EpochEntry<K>>, x: EpochEntry<K>): (p: nat)
    ensures p <= |s|
    ensures forall i :: 0 <= i < p ==> Compare(s[i], x) < 0
    ensures p < |s| ==> Compare(x, s[p]) <= 0
  {
    if |s| == 0 || Compare(x, s[0]) <= 0 then 0
    else 1 + InsertionPoint(s[1..], x)
  }

  /** `x` placed at position `p` of `s`. */
  function InsertAt<K>(s: seq<EpochEntry<K>>, x: EpochEntry<K>, p: nat): (r: seq<EpochEntry<K>>)
    requires p <= |s|
    ensures |r| == |s| + 1
    ensures forall i :: 0 <= i < |r| ==> r[i] == if i < p then s[i] else if i == p then x else s[i - 1]
  {
    s[..p] + [x] + s[p..]
  }

  /** Inserting at the insertion point keeps a sorted sequence sorted. */
  lemma InsertionKeepsSorted<K>(s: seq<EpochEntry<K>>, x: EpochEntry<K>)
    ensures SortedByCompare(s) ==> SortedByCompare(InsertAt(s, x, InsertionPoint(s, x)))
  {
    if !SortedByCompare(s) { return; }
    var p := InsertionPoint(s, x);
    var r := InsertAt(s, x, p);
    forall i | 0 <= i < |r| - 1
      ensures Compare(r[i], r[i + 1]) <= 0
    {
      if i + 1 < p {
        assert r[i] == s[i] && r[i + 1] == s[i + 1];
      } else if i + 1 == p {
        assert r[i] == s[i] && r[i + 1] == x;
      } else if i == p {
        assert r[i] == x && r[i + 1] == s[i];
      } else {
        assert r[i] == s[i - 1] && r[i + 1] == s[i];
      }
    }
  }

  /** Inserting an entry that ties no member keeps the epochs distinct. */
  lemma InsertionKeepsDistinct<K>(s: seq<EpochEntry<K>>, x: EpochEntry<K>, p: nat)
    requires p <= |s|
    requires !HasTie(s, x)
    ensures DistinctEpochs(s) ==> DistinctEpochs(InsertAt(s, x, p))
  {
    if !DistinctEpochs(s) { return; }
    var r := InsertAt(s, x, p);
    forall i, j | 0 <= i < j < |r|
      ensures Compare(r[i], r[j]) != 0
    {
      var i' := if i < p then i else i - 1;
      var j' := if j < p then j else j - 1;
      if i == p {
        assert Compare(s[j'], x) != 0;
      } else if j == p {
        assert Compare(s[i'], x) != 0;
      } else {
        assert i' < j' && r[i] == s[i'] && r[j] == s[j'];
      }
    }
  }

  /**
   * Adds `x` at its place in the order unless a member already compares
   * as 0 with it.
   */
  function Add<K>(s: seq<EpochEntry<K>>, x: EpochEntry<K>): (r: seq<EpochEntry<K>>)
    ensures SortedByCompare(s) ==> SortedByCompare(r)
    ensures DistinctEpochs(s) ==> DistinctEpochs(r)
    ensures forall i :: 0 <= i < |s| ==> s[i] in r
    ensures forall y :: y in r ==> y in s || y == x
    ensures HasTie(r, x)
    ensures x in r <==> x in s || !HasTie(s, x)
  {
    if HasTie(s, x) then s
    else
      var p := InsertionPoint(s, x);
      var r := InsertAt(s, x, p);
      assert r[p] == x;
      assert forall i :: 0 <= i < |s| ==> s[i] == r[if i < p then i else i + 1];
      InsertionKeepsSorted(s, x);
      InsertionKeepsDistinct(s, x, p);
      r
  }

  /**
   * Two entries with the same epoch and different keys: the second one
   * is not added, although it is not `equals` to any member.
   */
  lemma TiedEntryIsDropped<K>(epoch: Long, k1: K, k2: K)
    requires k1 != k2
    ensures Add(Add([], EpochEntry(epoch, k1)), EpochEntry(epoch, k2)) == [EpochEntry(epoch, k1)]
    ensures EpochEntry(epoch, k2) !in Add(Add([], EpochEntry(epoch, k1)), EpochEntry(epoch, k2))
    ensures forall y :: y in Add(Add([], EpochEntry(epoch, k1)), EpochEntry(epoch, k2)) ==>
              !EntryEquals(y, EpochEntry(epoch, k2))
  {
  }
}
