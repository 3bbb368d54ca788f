/**
 * The intrusive `Dictionary<T, K, TKeyField, TLinkField, Hash, Pred>`
 * (intrusive_containers.h, and the older copy GaLib/include/galib/intrusive/dictionary.h).
 *
 * A dictionary is an array of bucket links; bucket `i` is the sentinel of a
 * list whose contents are `buckets[i]` (in the sense of `Lists.ListIs`). The
 * key field of each owner is `keyOf`, the `Hash` functor is `hash` (a `size_t`
 * result), and `Pred` is equality of keys.
 */
module Dictionaries {
  import opened Maybe
  import opened Bits
  import Links

  type Handle = Links.Handle

  datatype Dictionary = Dictionary(buckets: seq<seq<Handle>>)

  /** The bucket count of `Dictionary()`. */
  const DefaultCapacity: nat := 32

  /** The smallest bucket count `calculateCapacity` gives. */
  const MinCapacity: nat := 16

  /** `getBucket`: the bucket of a hash is `hash & (size - 1)`. */
  function BucketIndex(h: nat, size: nat): nat
    requires size >= 1
  {
    BitAnd(h, size - 1)
  }

  /** For a power-of-two size the mask is the remainder, so it names a bucket. */
  lemma BucketIndexIsMod(h: nat, size: nat)
    requires IsPow2(size)
    ensures BucketIndex(h, size) == h % size && BucketIndex(h, size) < size
  {
    IsPow2HasLog(size);
    MaskIsMod(h, Log2(size));
  }

  /**
   * Every owner sits in the bucket of its key's hash, no bucket holds two
   * owners with equal keys, and the bucket count is a power of two.
   */
  ghost predicate WellFormed<K>(d: Dictionary, keyOf: map<Handle, K>, hash: K -> nat)
  {
    && IsPow2(|d.buckets|)
    && (forall i, j :: 0 <= i < |d.buckets| && 0 <= j < |d.buckets[i]| ==>
          d.buckets[i][j] in keyOf && BucketIndex(hash(keyOf[d.buckets[i][j]]), |d.buckets|) == i)
    && (forall i, j, l :: 0 <= i < |d.buckets| && 0 <= j < l < |d.buckets[i]| ==>
          keyOf[d.buckets[i][j]] != keyOf[d.buckets[i][l]])
  }

  /** `v` is stored in some bucket. */
  ghost predicate Holds(d: Dictionary, v: Handle)
  {
    exists i, j :: 0 <= i < |d.buckets| && 0 <= j < |d.buckets[i]| && d.buckets[i][j] == v
  }

  /** No stored owner has key `key`. */
  ghost predicate Absent<K>(d: Dictionary, keyOf: map<Handle, K>, key: K)
  {
    forall i, j :: 0 <= i < |d.buckets| && 0 <= j < |d.buckets[i]| && d.buckets[i][j] in keyOf ==>
      keyOf[d.buckets[i][j]] != key
  }

  /** `n` empty buckets. */
  function EmptyBuckets(n: nat): (r: seq<seq<Handle>>)
    ensures |r| == n && forall i :: 0 <= i < n ==> r[i] == []
  {
    seq(n, _ => [])
  }

  /**
   * `calculateCapacity`: doubles from 16 until the request is met, so the
   * result is the least power of two that is at least 16 and at least `n`.
   */
  method CalculateCapacity(n: nat) returns (capacity: nat)
    requires n <= Pow2(63)
    ensures IsPow2(capacity) && capacity >= MinCapacity && capacity >= n
    ensures capacity == MinCapacity || capacity < 2 * n
  {
    capacity := 16;
    ghost var k: nat := 4;
    while capacity < n
      invariant capacity == Pow2(k) && 4 <= k <= 63
      invariant capacity == MinCapacity || capacity < 2 * n
      decreases n - capacity
    {
      if k == 63 {
        assert false;
      }
      capacity := capacity * 2;
      k := k + 1;
    }
    Pow2IsPow2(k);
  }

  /** `Dictionary()`: 32 empty buckets. */
  function NewDefault(): (d: Dictionary)
    ensures |d.buckets| == DefaultCapacity && forall i :: 0 <= i < |d.buckets| ==> d.buckets[i] == []
  {
    Dictionary(EmptyBuckets(DefaultCapacity))
  }

  /** `Dictionary(n)`: empty buckets, as many as `calculateCapacity(n)`. */
  method NewSized(n: nat) returns (d: Dictionary)
    requires n <= Pow2(63)
    ensures IsPow2(|d.buckets|) && |d.buckets| >= MinCapacity && |d.buckets| >= n
    ensures forall i :: 0 <= i < |d.buckets| ==> d.buckets[i] == []
  {
    var capacity := CalculateCapacity(n);
    d := Dictionary(EmptyBuckets(capacity));
  }

  /** A dictionary with every bucket empty is well formed for any keys. */
  lemma EmptyWellFormed<K>(d: Dictionary, keyOf: map<Handle, K>, hash: K -> nat)
    requires IsPow2(|d.buckets|) && forall i :: 0 <= i < |d.buckets| ==> d.buckets[i] == []
    ensures WellFormed(d, keyOf, hash) && Count(d.buckets) == 0
  {
    EmptyCount(d.buckets);
  }

  /** The default dictionary is well formed: 32 is a power of two. */
  lemma DefaultWellFormed<K>(keyOf: map<Handle, K>, hash: K -> nat)
    ensures WellFormed(NewDefault(), keyOf, hash)
  {
    Pow2IsPow2(5);
    EmptyWellFormed(NewDefault(), keyOf, hash);
  }

  /**
   * `get(key)`: scans the key's bucket from its head and answers the first
   * owner whose key is equal, or null.
   */
  method Get<K(==)>(d: Dictionary, keyOf: map<Handle, K>, hash: K -> nat, key: K) returns (r: Option<Handle>)
    requires WellFormed(d, keyOf, hash)
    ensures r.Some? ==> r.value in keyOf && keyOf[r.value] == key && Holds(d, r.value)
    ensures r.None? <==> Absent(d, keyOf, key)
  {
    var home := BucketIndex(hash(key), |d.buckets|);
    BucketIndexIsMod(hash(key), |d.buckets|);
    var b := d.buckets[home];
    var j := 0;
    while j < |b|
      invariant j <= |b|
      invariant forall l :: 0 <= l < j ==> keyOf[b[l]] != key
    {
      if keyOf[b[j]] == key {
        return Some(b[j]);
      }
      j := j + 1;
    }
    return None;
  }

  /**
   * `put(val)`: refuses an owner whose key is already stored, and otherwise
   * links it at the tail of its key's bucket.
   */
  method Put<K(==)>(d: Dictionary, keyOf: map<Handle, K>, hash: K -> nat, v: Handle) returns (d': Dictionary, ok: bool)
    requires WellFormed(d, keyOf, hash) && v in keyOf
    ensures ok <==> Absent(d, keyOf, keyOf[v])
    ensures !ok ==> d' == d
    ensures ok ==> |d'.buckets| == |d.buckets|
    ensures ok ==> forall i :: 0 <= i < |d.buckets| ==>
      d'.buckets[i] == if i == BucketIndex(hash(keyOf[v]), |d.buckets|) then d.buckets[i] + [v] else d.buckets[i]
  {
    var home := BucketIndex(hash(keyOf[v]), |d.buckets|);
    BucketIndexIsMod(hash(keyOf[v]), |d.buckets|);
    var b := d.buckets[home];
    var j := 0;
    while j < |b|
      invariant j <= |b|
      invariant forall l :: 0 <= l < j ==> keyOf[b[l]] != keyOf[v]
    {
      if keyOf[b[j]] == keyOf[v] {
        return d, false;
      }
      j := j + 1;
    }
    d' := Dictionary(d.buckets[home := b + [v]]);
    ok := true;
  }

  /**
   * A successful `put` keeps the dictionary well formed, and afterwards `v`
   * is the one stored owner with its key, so `get` of that key answers `v`.
   */
  lemma PutThenGet<K>(d: Dictionary, keyOf: map<Handle, K>, hash: K -> nat, v: Handle, d': Dictionary)
    requires WellFormed(d, keyOf, hash) && v in keyOf && Absent(d, keyOf, keyOf[v])
    requires |d'.buckets| == |d.buckets|
    requires forall i :: 0 <= i < |d.buckets| ==>
      d'.buckets[i] == if i == BucketIndex(hash(keyOf[v]), |d.buckets|) then d.buckets[i] + [v] else d.buckets[i]
    ensures WellFormed(d', keyOf, hash) && Holds(d', v)
    ensures forall i, j :: 0 <= i < |d'.buckets| && 0 <= j < |d'.buckets[i]| && keyOf[d'.buckets[i][j]] == keyOf[v] ==>
      d'.buckets[i][j] == v
  {
    var home := BucketIndex(hash(keyOf[v]), |d.buckets|);
    BucketIndexIsMod(hash(keyOf[v]), |d.buckets|);
    assert d'.buckets[home][|d.buckets[home]|] == v;
    forall i, j | 0 <= i < |d'.buckets| && 0 <= j < |d'.buckets[i]|
      ensures d'.buckets[i][j] in keyOf && BucketIndex(hash(keyOf[d'.buckets[i][j]]), |d'.buckets|) == i
      ensures keyOf[d'.buckets[i][j]] == keyOf[v] ==> d'.buckets[i][j] == v
    {
      if i != home || j < |d.buckets[home]| {
        assert d'.buckets[i][j] == d.buckets[i][j];
      }
    }
  }

  /** `isEmpty`: true exactly when no bucket has a successor. */
  method IsEmpty(d: Dictionary) returns (r: bool)
    ensures r <==> forall i :: 0 <= i < |d.buckets| ==> d.buckets[i] == []
  {
    var i := 0;
    while i < |d.buckets|
      invariant i <= |d.buckets|
      invariant forall l :: 0 <= l < i ==> d.buckets[l] == []
    {
      if d.buckets[i] != [] {
        return false;
      }
      i := i + 1;
    }
    return true;
  }

  /** The number of stored owners. */
  ghost function Count(bs: seq<seq<Handle>>): nat
  {
    if bs == [] then 0 else Count(bs[..|bs| - 1]) + |bs[|bs| - 1]|
  }

  /** The number of buckets that hold something. */
  ghost function NonEmpty(bs: seq<seq<Handle>>): nat
  {
    if bs == [] then 0 else NonEmpty(bs[..|bs| - 1]) + (if bs[|bs| - 1] == [] then 0 else 1)
  }

  lemma {:induction false} EmptyCount(bs: seq<seq<Handle>>)
    requires forall i :: 0 <= i < |bs| ==> bs[i] == []
    ensures Count(bs) == 0
  {
    if bs != [] {
      EmptyCount(bs[..|bs| - 1]);
    }
  }

  /** Nothing is stored exactly when every bucket is empty. */
  lemma {:induction false} CountZero(bs: seq<seq<Handle>>)
    ensures Count(bs) == 0 <==> forall i :: 0 <= i < |bs| ==> bs[i] == []
  {
    if bs != [] {
      CountZero(bs[..|bs| - 1]);
      assert forall i :: 0 <= i < |bs| - 1 ==> bs[..|bs| - 1][i] == bs[i];
    }
  }

  /**
   * `countCollisions`: for every non-empty bucket, counts the owners after its
   * head. The answer is the owner count less the non-empty bucket count.
   */
  method CountCollisions(d: Dictionary) returns (n: nat)
    ensures n + NonEmpty(d.buckets) == Count(d.buckets)
  {
    n := 0;
    var i := 0;
    while i < |d.buckets|
      invariant i <= |d.buckets|
      invariant n + NonEmpty(d.buckets[..i]) == Count(d.buckets[..i])
    {
      var b := d.buckets[i];
      if b != [] {
        var j := 1;
        while j < |b|
          invariant 1 <= j <= |b|
          invariant n + NonEmpty(d.buckets[..i]) + 1 == Count(d.buckets[..i]) + j
        {
          n := n + 1;
          j := j + 1;
        }
      }
      assert d.buckets[..i + 1][..i] == d.buckets[..i];
      i := i + 1;
    }
    assert d.buckets[..i] == d.buckets;
  }

  /** No collisions exactly when every bucket holds at most one owner. */
  lemma {:induction false} NoCollisions(bs: seq<seq<Handle>>)
    ensures Count(bs) == NonEmpty(bs) <==> forall i :: 0 <= i < |bs| ==> |bs[i]| <= 1
  {
    if bs != [] {
      var init := bs[..|bs| - 1];
      NoCollisions(init);
      CollisionsAtLeastZero(init);
      assert forall i :: 0 <= i < |bs| - 1 ==> init[i] == bs[i];
    }
  }

  /** Each non-empty bucket holds at least one owner. */
  lemma {:induction false} CollisionsAtLeastZero(bs: seq<seq<Handle>>)
    ensures NonEmpty(bs) <= Count(bs)
    ensures NonEmpty(bs) <= |bs|
  {
    if bs != [] {
      CollisionsAtLeastZero(bs[..|bs| - 1]);
    }
  }

  /**
   * `resize(n)`: only an empty dictionary is resized, to `calculateCapacity(n)`
   * empty buckets; otherwise nothing changes.
   */
  method Resize(d: Dictionary, n: nat) returns (d': Dictionary, ok: bool)
    requires n <= Pow2(63)
    ensures ok <==> Count(d.buckets) == 0
    ensures !ok ==> d' == d
    ensures ok ==> IsPow2(|d'.buckets|) && |d'.buckets| >= MinCapacity && |d'.buckets| >= n
    ensures ok ==> forall i :: 0 <= i < |d'.buckets| ==> d'.buckets[i] == []
  {
    var capacity := CalculateCapacity(n);
    var empty := IsEmpty(d);
    CountZero(d.buckets);
    if !empty {
      return d, false;
    }
    d' := Dictionary(EmptyBuckets(capacity));
    ok := true;
  }

  /** Every owner, bucket by bucket and head to tail within each bucket. */
  ghost function Flatten(bs: seq<seq<Handle>>): seq<Handle>
  {
    if bs == [] then [] else Flatten(bs[..|bs| - 1]) + bs[|bs| - 1]
  }

  /**
   * `unlinkAll` (also `clear` and the destructor), and `deleteAll`: each
   * bucket's list is emptied in turn, from its head (`Lists.UnlinkAll` and
   * `Lists.DeleteAll` per bucket). The owners let go, in that order, are
   * answered alongside the emptied dictionary.
   */
  method UnlinkAll(d: Dictionary) returns (d': Dictionary, released: seq<Handle>)
    ensures |d'.buckets| == |d.buckets| && forall i :: 0 <= i < |d'.buckets| ==> d'.buckets[i] == []
    ensures released == Flatten(d.buckets)
  {
    var i := 0;
    released := [];
    var bs := d.buckets;
    while i < |bs|
      invariant i <= |bs| == |d.buckets|
      invariant forall l :: 0 <= l < i ==> bs[l] == []
      invariant forall l :: i <= l < |bs| ==> bs[l] == d.buckets[l]
      invariant released == Flatten(d.buckets[..i])
    {
      var b := bs[i];
      var j := 0;
      while j < |b|
        invariant j <= |b|
        invariant released == Flatten(d.buckets[..i]) + b[..j]
      {
        released := released + [b[j]];
        j := j + 1;
        assert b[..j] == b[..j - 1] + [b[j - 1]];
      }
      assert b[..j] == b;
      assert d.buckets[..i + 1][..i] == d.buckets[..i];
      bs := bs[i := []];
      i := i + 1;
    }
    assert d.buckets[..i] == d.buckets;
    d' := Dictionary(bs);
  }

  // ---------------------------------------------------------------------------
  // DictionaryIterator.
  // ---------------------------------------------------------------------------

  /**
   * A dictionary iterator: the current bucket (the bucket count stands for
   * `end`) and the current owner.
   */
  datatype DictIterator = DictIterator(bucket: nat, item: Option<Handle>)

  /** Away from the end an iterator stands on an owner of its bucket. */
  predicate Placed(bs: seq<seq<Handle>>, it: DictIterator)
  {
    it.bucket <= |bs| && (it.bucket < |bs| ==> it.item.Some? && it.item.value in bs[it.bucket])
  }

  /** The first index of `h` in `b`. */
  function PositionOf(b: seq<Handle>, h: Handle): (j: nat)
    requires h in b
    ensures j < |b| && b[j] == h && h !in b[..j]
  {
    if b[0] == h then 0 else 1 + PositionOf(b[1..], h)
  }

  /**
   * `updateNextBucket`: while there is no current owner and the end is not
   * reached, take the bucket's head, or move to the next bucket.
   */
  function UpdateNextBucket(bs: seq<seq<Handle>>, it: DictIterator): (r: DictIterator)
    requires it.bucket <= |bs|
    requires it.item.Some? ==> Placed(bs, it)
    ensures Placed(bs, r)
    decreases |bs| - it.bucket
  {
    if it.item.Some? || it.bucket == |bs| then it
    else if bs[it.bucket] != [] then it.(item := Some(bs[it.bucket][0]))
    else UpdateNextBucket(bs, DictIterator(it.bucket + 1, None))
  }

  /** The constructor: start at bucket `index` with no owner, then settle. */
  function NewIterator(bs: seq<seq<Handle>>, index: nat): DictIterator
    requires index <= |bs|
  {
    UpdateNextBucket(bs, DictIterator(index, None))
  }

  /** `begin()`. */
  function Begin(bs: seq<seq<Handle>>): DictIterator
  {
    NewIterator(bs, 0)
  }

  /** `end()`. */
  function End(bs: seq<seq<Handle>>): DictIterator
  {
    NewIterator(bs, |bs|)
  }

  /**
   * `operator++`: at the end nothing happens; otherwise step to the owner's
   * successor in its bucket, or, after the bucket's tail, settle from the next
   * bucket.
   */
  function Increment(bs: seq<seq<Handle>>, it: DictIterator): (r: DictIterator)
    requires Placed(bs, it)
    ensures Placed(bs, r)
  {
    if it.bucket == |bs| then it
    else
      var b := bs[it.bucket];
      var j := PositionOf(b, it.item.value);
      if j + 1 == |b| then UpdateNextBucket(bs, DictIterator(it.bucket + 1, None))
      else it.(item := Some(b[j + 1]))
  }

  /** `operator==`: same bucket and same owner. */
  predicate SameIterator(a: DictIterator, b: DictIterator)
  {
    a.bucket == b.bucket && a.item == b.item
  }

  /** No bucket holds an owner twice (each is one cycle of links). */
  predicate DistinctWithin(bs: seq<seq<Handle>>)
  {
    forall i, j, l :: 0 <= i < |bs| && 0 <= j < l < |bs[i]| ==> bs[i][j] != bs[i][l]
  }

  /** Every owner from bucket `i` on, in iteration order. */
  ghost function FlattenFrom(bs: seq<seq<Handle>>, i: nat): seq<Handle>
    requires i <= |bs|
    decreases |bs| - i
  {
    if i == |bs| then [] else bs[i] + FlattenFrom(bs, i + 1)
  }

  /** The owners before bucket `i` followed by those from it are all of them. */
  lemma {:induction false} FlattenSplit(bs: seq<seq<Handle>>, i: nat)
    requires i <= |bs|
    ensures Flatten(bs[..i]) + FlattenFrom(bs, i) == Flatten(bs)
    decreases |bs| - i
  {
    if i == |bs| {
      assert bs[..i] == bs;
    } else {
      FlattenSplit(bs, i + 1);
      assert bs[..i + 1][..i] == bs[..i];
      assert Flatten(bs[..i + 1]) == Flatten(bs[..i]) + bs[i];
    }
  }

  /** In a bucket without repeats, the position of the `j`-th owner is `j`. */
  lemma PositionOfDistinct(b: seq<Handle>, j: nat)
    requires j < |b| && forall k, l :: 0 <= k < l < |b| ==> b[k] != b[l]
    ensures b[j] in b && PositionOf(b, b[j]) == j
  {
    var p := PositionOf(b, b[j]);
    assert p <= j;
  }

  /** The owners met by stepping forward from `it` at most `n` times, until the end. */
  ghost function Walk(bs: seq<seq<Handle>>, it: DictIterator, n: nat): seq<Handle>
    requires Placed(bs, it)
    decreases n
  {
    if n == 0 || it.bucket == |bs| then [] else [it.item.value] + Walk(bs, Increment(bs, it), n - 1)
  }

  /**
   * One step of a walk from the `j`-th owner of bucket `i`: that owner, then
   * its successor in the bucket or the head of the next non-empty bucket.
   */
  lemma WalkStep(bs: seq<seq<Handle>>, i: nat, j: nat, n: nat)
    requires DistinctWithin(bs) && i < |bs| && j < |bs[i]| && n > 0
    ensures Placed(bs, DictIterator(i, Some(bs[i][j])))
    ensures j + 1 == |bs[i]| ==>
              Walk(bs, DictIterator(i, Some(bs[i][j])), n)
              == [bs[i][j]] + Walk(bs, UpdateNextBucket(bs, DictIterator(i + 1, None)), n - 1)
    ensures j + 1 < |bs[i]| ==>
              Walk(bs, DictIterator(i, Some(bs[i][j])), n)
              == [bs[i][j]] + Walk(bs, DictIterator(i, Some(bs[i][j + 1])), n - 1)
  {
    PositionOfDistinct(bs[i], j);
  }

  /** From the `j`-th owner of bucket `i`, the walk meets the rest of the owners in order. */
  lemma {:induction false} WalkFrom(bs: seq<seq<Handle>>, i: nat, j: nat, n: nat)
    requires DistinctWithin(bs) && i < |bs| && j < |bs[i]|
    requires n >= |bs[i]| - j + |FlattenFrom(bs, i + 1)|
    ensures Placed(bs, DictIterator(i, Some(bs[i][j])))
    ensures Walk(bs, DictIterator(i, Some(bs[i][j])), n) == bs[i][j..] + FlattenFrom(bs, i + 1)
    decreases n, |bs| - i, 1
  {
    if j + 1 == |bs[i]| {
      WalkFromTail(bs, i, j, n);
    } else {
      WalkFromInner(bs, i, j, n);
    }
  }

  /** From a bucket's tail the walk goes on with the buckets after it. */
  lemma {:induction false} WalkFromTail(bs: seq<seq<Handle>>, i: nat, j: nat, n: nat)
    requires DistinctWithin(bs) && i < |bs| && j + 1 == |bs[i]|
    requires n >= 1 + |FlattenFrom(bs, i + 1)|
    ensures Placed(bs, DictIterator(i, Some(bs[i][j])))
    ensures Walk(bs, DictIterator(i, Some(bs[i][j])), n) == bs[i][j..] + FlattenFrom(bs, i + 1)
    decreases n, |bs| - i, 0
  {
    WalkStep(bs, i, j, n);
    WalkUpdate(bs, i + 1, n - 1);
    assert bs[i][j..] == [bs[i][j]];
  }

  /** Before a bucket's tail the walk goes on with the owner's successor. */
  lemma {:induction false} WalkFromInner(bs: seq<seq<Handle>>, i: nat, j: nat, n: nat)
    requires DistinctWithin(bs) && i < |bs| && j + 1 < |bs[i]|
    requires n >= |bs[i]| - j + |FlattenFrom(bs, i + 1)|
    ensures Placed(bs, DictIterator(i, Some(bs[i][j])))
    ensures Walk(bs, DictIterator(i, Some(bs[i][j])), n) == bs[i][j..] + FlattenFrom(bs, i + 1)
    decreases n, |bs| - i, 0
  {
    WalkStep(bs, i, j, n);
    WalkFrom(bs, i, j + 1, n - 1);
    var x, tail, rest := bs[i][j], bs[i][j + 1..], FlattenFrom(bs, i + 1);
    assert bs[i][j..] == [x] + tail;
    assert [x] + (tail + rest) == ([x] + tail) + rest;
  }

  /** Settling from bucket `i`, the walk meets every owner from bucket `i` on. */
  lemma {:induction false} WalkUpdate(bs: seq<seq<Handle>>, i: nat, n: nat)
    requires DistinctWithin(bs) && i <= |bs| && n >= |FlattenFrom(bs, i)|
    ensures Walk(bs, UpdateNextBucket(bs, DictIterator(i, None)), n) == FlattenFrom(bs, i)
    decreases n, |bs| - i, 2
  {
    if i < |bs| {
      if bs[i] == [] {
        WalkUpdate(bs, i + 1, n);
      } else {
        WalkFrom(bs, i, 0, n);
        assert bs[i][0..] == bs[i];
      }
    }
  }

  /**
   * A loop from `begin()` to `end()` meets every owner exactly as `unlinkAll`
   * releases them: bucket by bucket, head to tail.
   */
  lemma ForwardIteration(bs: seq<seq<Handle>>)
    requires DistinctWithin(bs)
    ensures Walk(bs, Begin(bs), |Flatten(bs)|) == Flatten(bs)
  {
    FlattenSplit(bs, 0);
    assert bs[..0] == [];
    WalkUpdate(bs, 0, |Flatten(bs)|);
  }

  /** `end()` is where every walk stops, and `++` leaves it there. */
  lemma EndIsFixed(bs: seq<seq<Handle>>)
    ensures End(bs) == DictIterator(|bs|, None)
    ensures Increment(bs, End(bs)) == End(bs)
  {
  }

  /** In a well-formed dictionary every bucket is free of repeats. */
  lemma WellFormedDistinct<K>(d: Dictionary, keyOf: map<Handle, K>, hash: K -> nat)
    requires WellFormed(d, keyOf, hash)
    ensures DistinctWithin(d.buckets)
  {
  }
}
