/**
 * The intrusive `HashSet<T, TLinkField, Hash, Pred>` (intrusive_containers.h,
 * and the older copy GaLib/include/galib/intrusive/hashset.h).
 *
 * The set is an array of bucket lists, as for `Dictionaries.Dictionary`; the
 * members are the owners themselves, compared by identity (the default
 * `Pred`), and `hash` is the `Hash` functor on owner pointers. A null pointer
 * is `None`.
 *
 * The scans in `contains` and `put` never step their cursor, so they loop
 * forever as soon as a bucket's head is not the value sought. Both versions
 * are here: the code as it stands (`...AsWritten`, whose outcome may be
 * `Diverges`) and the scan that steps (`Contains`, `Put`).
 */
module HashSets {
  import opened Maybe
  import Links
  import Dictionaries

  type Handle = Links.Handle

  datatype HashSet = HashSet(buckets: seq<seq<Handle>>)

  /** What a call does: come back with a value, or never come back. */
  datatype Outcome<T> = Returns(value: T) | Diverges

  /** Each member sits in bucket `hash % size`, once; there is at least one bucket. */
  ghost predicate WellFormed(s: HashSet, hash: Handle -> nat)
  {
    && |s.buckets| > 0
    && (forall i, j :: 0 <= i < |s.buckets| && 0 <= j < |s.buckets[i]| ==> hash(s.buckets[i][j]) % |s.buckets| == i)
    && (forall i, j, l :: 0 <= i < |s.buckets| && 0 <= j < l < |s.buckets[i]| ==> s.buckets[i][j] != s.buckets[i][l])
  }

  /** `v` is a member. */
  ghost predicate Member(s: HashSet, v: Handle)
  {
    exists i :: 0 <= i < |s.buckets| && v in s.buckets[i]
  }

  /** `HashSet(n)`: `n` empty buckets; the source asserts `n > 0`. */
  function New(n: nat): (s: HashSet)
    requires n > 0
    ensures |s.buckets| == n && forall i :: 0 <= i < n ==> s.buckets[i] == []
  {
    HashSet(Dictionaries.EmptyBuckets(n))
  }

  /** `getBucket`: null for a null value, otherwise bucket `hash % size`. */
  function GetBucket(s: HashSet, hash: Handle -> nat, value: Option<Handle>): (r: Option<nat>)
    requires |s.buckets| > 0
    ensures r.None? <==> value.None?
    ensures r.Some? ==> r.value < |s.buckets| && r.value == hash(value.value) % |s.buckets|
  {
    match value
    case None => None
    case Some(v) => Some(hash(v) % |s.buckets|)
  }

  /**
   * `contains` as written: a null value, or an empty bucket, answers false;
   * a bucket whose head is the value answers true; any other bucket is
   * scanned forever, because the cursor is never advanced.
   */
  function ContainsAsWritten(s: HashSet, hash: Handle -> nat, value: Option<Handle>): Outcome<bool>
    requires |s.buckets| > 0
  {
    match GetBucket(s, hash, value)
    case None => Returns(false)
    case Some(i) =>
      var b := s.buckets[i];
      if b == [] then Returns(false)
      else if b[0] == value.value then Returns(true)
      else Diverges
  }

  /**
   * `put` as written: a null value is refused; an empty bucket takes the
   * value; a bucket whose head is the value refuses it; any other bucket is
   * scanned forever.
   */
  function PutAsWritten(s: HashSet, hash: Handle -> nat, value: Option<Handle>): Outcome<(HashSet, bool)>
    requires |s.buckets| > 0
  {
    match GetBucket(s, hash, value)
    case None => Returns((s, false))
    case Some(i) =>
      var b := s.buckets[i];
      if b == [] then Returns((HashSet(s.buckets[i := [value.value]]), true))
      else if b[0] == value.value then Returns((s, false))
      else Diverges
  }

  /** `contains` with a scan that steps: is the value a member? */
  function Contains(s: HashSet, hash: Handle -> nat, value: Option<Handle>): (r: bool)
    requires |s.buckets| > 0
  {
    match GetBucket(s, hash, value)
    case None => false
    case Some(i) => value.value in s.buckets[i]
  }

  /** `put` with a scan that steps: refuse a member, else link at the bucket's tail. */
  function Put(s: HashSet, hash: Handle -> nat, value: Option<Handle>): (r: (HashSet, bool))
    requires |s.buckets| > 0
    ensures |r.0.buckets| == |s.buckets|
  {
    match GetBucket(s, hash, value)
    case None => (s, false)
    case Some(i) =>
      if value.value in s.buckets[i] then (s, false)
      else (HashSet(s.buckets[i := s.buckets[i] + [value.value]]), true)
  }

  /** The set of one owner `1` in one bucket, with the identity hash. */
  function OneMember(): HashSet
  {
    HashSet([[1]])
  }

  /**
   * As written, asking whether owner `2` is in `{1}` (one bucket, so both
   * hash to it) never returns, and inserting `2` never returns either,
   * where the stepping scan answers false and inserts.
   */
  lemma ScanNeverAdvances()
    ensures WellFormed(OneMember(), (h: Handle) => h)
    ensures ContainsAsWritten(OneMember(), (h: Handle) => h, Some(2)) == Diverges
    ensures PutAsWritten(OneMember(), (h: Handle) => h, Some(2)) == Diverges
    ensures !Contains(OneMember(), (h: Handle) => h, Some(2))
    ensures Put(OneMember(), (h: Handle) => h, Some(2)) == (HashSet([[1, 2]]), true)
  {
    var id := (h: Handle) => h;
    assert GetBucket(OneMember(), id, Some(2)) == Some(0);
    assert 2 !in OneMember().buckets[0];
    assert [1] + [2] == [1, 2];
    assert [[1]][0 := [1, 2]] == [[1, 2]];
  }

  /**
   * The written scans are right whenever they return: they agree with the
   * stepping scans on every input where they do not loop.
   */
  lemma AsWrittenAgreesWhenItReturns(s: HashSet, hash: Handle -> nat, value: Option<Handle>)
    requires WellFormed(s, hash)
    ensures ContainsAsWritten(s, hash, value).Returns? ==> ContainsAsWritten(s, hash, value).value == Contains(s, hash, value)
    ensures PutAsWritten(s, hash, value).Returns? ==> PutAsWritten(s, hash, value).value == Put(s, hash, value)
  {
    if value.Some? {
      assert [] + [value.value] == [value.value];
    }
  }

  /** The written scans return exactly when the bucket is empty or its head is the value. */
  lemma AsWrittenReturnsIff(s: HashSet, hash: Handle -> nat, v: Handle)
    requires WellFormed(s, hash)
    ensures var b := s.buckets[hash(v) % |s.buckets|];
      ContainsAsWritten(s, hash, Some(v)).Returns? <==> (b == [] || b[0] == v)
    ensures var b := s.buckets[hash(v) % |s.buckets|];
      PutAsWritten(s, hash, Some(v)).Returns? <==> (b == [] || b[0] == v)
  {
  }

  /** `contains` answers membership, and false for null. */
  lemma ContainsIsMember(s: HashSet, hash: Handle -> nat, value: Option<Handle>)
    requires WellFormed(s, hash)
    ensures Contains(s, hash, value) <==> value.Some? && Member(s, value.value)
  {
    if value.Some? && Member(s, value.value) {
      var i :| 0 <= i < |s.buckets| && value.value in s.buckets[i];
      var j :| 0 <= j < |s.buckets[i]| && s.buckets[i][j] == value.value;
    }
  }

  /**
   * `put` succeeds exactly for a non-null non-member; it keeps the set well
   * formed, makes the value a member, and changes no other membership.
   */
  lemma PutAdds(s: HashSet, hash: Handle -> nat, value: Option<Handle>)
    requires WellFormed(s, hash)
    ensures Put(s, hash, value).1 <==> value.Some? && !Member(s, value.value)
    ensures WellFormed(Put(s, hash, value).0, hash)
    ensures value.Some? ==> Contains(Put(s, hash, value).0, hash, value)
    ensures forall w :: w != value ==> (Contains(Put(s, hash, value).0, hash, w) <==> Contains(s, hash, w))
  {
    ContainsIsMember(s, hash, value);
    if value.Some? && !Member(s, value.value) {
      var v := value.value;
      var i := hash(v) % |s.buckets|;
      var t := Put(s, hash, value).0;
      assert t.buckets[i] == s.buckets[i] + [v];
      forall k, j | 0 <= k < |t.buckets| && 0 <= j < |t.buckets[k]|
        ensures hash(t.buckets[k][j]) % |t.buckets| == k
      {
        if k != i || j < |s.buckets[i]| {
          assert t.buckets[k][j] == s.buckets[k][j];
        }
      }
      forall k, j, l | 0 <= k < |t.buckets| && 0 <= j < l < |t.buckets[k]|
        ensures t.buckets[k][j] != t.buckets[k][l]
      {
        if k == i && l == |s.buckets[i]| {
          assert s.buckets[i][j] in s.buckets[i];
        }
      }
    }
  }

  /** A second `put` of the same value is refused and changes nothing. */
  lemma PutTwice(s: HashSet, hash: Handle -> nat, v: Handle)
    requires WellFormed(s, hash)
    ensures Put(Put(s, hash, Some(v)).0, hash, Some(v)) == (Put(s, hash, Some(v)).0, false)
  {
  }

  /** `isEmpty`: true exactly when no bucket has a successor (the dictionary's loop). */
  method IsEmpty(s: HashSet) returns (r: bool)
    ensures r <==> forall i :: 0 <= i < |s.buckets| ==> s.buckets[i] == []
  {
    r := Dictionaries.IsEmpty(Dictionaries.Dictionary(s.buckets));
  }

  /**
   * `unlinkAll` (also the destructor) and `deleteAll`: every bucket is
   * emptied from its head, as for the dictionary.
   */
  method UnlinkAll(s: HashSet) returns (t: HashSet, released: seq<Handle>)
    ensures |t.buckets| == |s.buckets| && forall i :: 0 <= i < |t.buckets| ==> t.buckets[i] == []
    ensures released == Dictionaries.Flatten(s.buckets)
  {
    var d, rs := Dictionaries.UnlinkAll(Dictionaries.Dictionary(s.buckets));
    t, released := HashSet(d.buckets), rs;
  }
}
