/**
 * The state of the tiered `Cache<TCacheKey, TCacheValue, TMaxLevel>` (cache.h)
 * and the bookkeeping steps its operations are built from.
 *
 * Each `CacheLevel` holds its entries twice, in an intrusive list (most
 * recently used first) and in an intrusive dictionary keyed by `_key`. Both
 * are shown here through their abstractions: the list as the sequence of its
 * members and the dictionary as a map from key to entry, the relation the
 * list and dictionary models establish. Entries live in `store`, indexed by
 * handle; a new entry takes the handle `unused`.
 */
module CacheState {
  import opened Bits
  import Links
  import Lists

  type Handle = Links.Handle

  /** `KeyValue`: the payload, the key, and the size charged when it last joined a tier. */
  datatype KeyValue<K, V> = KeyValue(data: V, key: K, lastMemSize: nat)

  /**
   * `CacheLevel`: the tier's list (head first), its dictionary, the entry
   * count, the memory charged to it (a `size_t`), and its two limits.
   */
  datatype Level<K> = Level(list: seq<Handle>, dict: map<K, Handle>, count: int, memUsage: nat, maxCount: nat, maxMemUsage: nat)

  /** The `TMaxLevel` tiers, the live entries, and the next handle to allocate. */
  datatype Cache<K, V> = Cache(levels: seq<Level<K>>, store: map<Handle, KeyValue<K, V>>, unused: Handle)

  // ---------------------------------------------------------------------------
  // Sequences of handles
  // ---------------------------------------------------------------------------

  /** The list after `h`'s list link is unlinked. */
  function Without(xs: seq<Handle>, h: Handle): (r: seq<Handle>)
    ensures forall g :: g in r <==> g in xs && g != h
    ensures |r| <= |xs|
  {
    if xs == [] then []
    else if xs[0] == h then Without(xs[1..], h)
    else [xs[0]] + Without(xs[1..], h)
  }

  lemma {:induction false} WithoutDistinct(xs: seq<Handle>, h: Handle)
    requires Lists.Distinct(xs)
    ensures Lists.Distinct(Without(xs, h))
    ensures h in xs ==> |Without(xs, h)| == |xs| - 1
    ensures h !in xs ==> Without(xs, h) == xs
  {
    if xs != [] {
      assert Lists.Distinct(xs[1..]) by {
        forall i, j | 0 <= i < j < |xs[1..]| ensures xs[1..][i] != xs[1..][j] {
          assert xs[1..][i] == xs[i + 1] && xs[1..][j] == xs[j + 1];
        }
      }
      WithoutDistinct(xs[1..], h);
      var t := Without(xs[1..], h);
      if xs[0] != h {
        assert xs[0] !in xs[1..] by {
          forall j | 0 <= j < |xs[1..]| ensures xs[1..][j] != xs[0] {
            assert xs[1..][j] == xs[j + 1];
          }
        }
        ConsDistinct(xs[0], t);
      } else {
        assert h !in xs[1..] by {
          forall j | 0 <= j < |xs[1..]| ensures xs[1..][j] != xs[0] {
            assert xs[1..][j] == xs[j + 1];
          }
        }
      }
      if h !in xs {
        assert xs == [xs[0]] + xs[1..];
      }
    }
  }

  lemma ConsDistinct(x: Handle, t: seq<Handle>)
    requires Lists.Distinct(t) && x !in t
    ensures Lists.Distinct([x] + t)
  {
    forall i, j | 0 <= i < j < |[x] + t| ensures ([x] + t)[i] != ([x] + t)[j] {
      assert ([x] + t)[j] == t[j - 1];
      if i > 0 {
        assert ([x] + t)[i] == t[i - 1];
      }
    }
  }

  /** Unlinking the tail of a list without repeats leaves the front part. */
  lemma {:induction false} WithoutLast(xs: seq<Handle>)
    requires |xs| > 0 && Lists.Distinct(xs)
    ensures Without(xs, xs[|xs| - 1]) == xs[..|xs| - 1]
  {
    if |xs| > 1 {
      var t := xs[1..];
      assert Lists.Distinct(t) by {
        forall i, j | 0 <= i < j < |t| ensures t[i] != t[j] {
          assert t[i] == xs[i + 1] && t[j] == xs[j + 1];
        }
      }
      assert t[|t| - 1] == xs[|xs| - 1];
      WithoutLast(t);
      assert xs[0] != xs[|xs| - 1];
      assert xs[..|xs| - 1] == [xs[0]] + t[..|t| - 1];
    }
  }

  // ---------------------------------------------------------------------------
  // Memory accounting
  // ---------------------------------------------------------------------------

  /** The sizes charged for the entries `xs`, summed without wrapping. */
  function SumSizes<K, V>(xs: seq<Handle>, store: map<Handle, KeyValue<K, V>>): nat
    requires forall h :: h in xs ==> h in store
  {
    if xs == [] then 0 else store[xs[0]].lastMemSize + SumSizes(xs[1..], store)
  }

  /** Only the charged sizes of the listed entries matter. */
  lemma {:induction false} SumFrame<K, V>(xs: seq<Handle>, store: map<Handle, KeyValue<K, V>>, store': map<Handle, KeyValue<K, V>>)
    requires forall h :: h in xs ==> h in store && h in store' && store'[h].lastMemSize == store[h].lastMemSize
    ensures SumSizes(xs, store') == SumSizes(xs, store)
  {
    if xs != [] {
      SumFrame(xs[1..], store, store');
    }
  }

  /** Unlinking a member takes exactly its size off the sum. */
  lemma {:induction false} SumWithout<K, V>(xs: seq<Handle>, h: Handle, store: map<Handle, KeyValue<K, V>>)
    requires Lists.Distinct(xs) && h in xs
    requires forall g :: g in xs ==> g in store
    ensures SumSizes(Without(xs, h), store) + store[h].lastMemSize == SumSizes(xs, store)
  {
    assert Lists.Distinct(xs[1..]) by {
      forall i, j | 0 <= i < j < |xs[1..]| ensures xs[1..][i] != xs[1..][j] {
        assert xs[1..][i] == xs[i + 1] && xs[1..][j] == xs[j + 1];
      }
    }
    if xs[0] == h {
      WithoutDistinct(xs[1..], h);
      assert h !in xs[1..] by {
        forall j | 0 <= j < |xs[1..]| ensures xs[1..][j] != h {
          assert xs[1..][j] == xs[j + 1];
        }
      }
    } else {
      SumWithout(xs[1..], h, store);
      var t := Without(xs[1..], h);
      assert ([xs[0]] + t)[1..] == t;
    }
  }

  /** Adding to a wrapped sum wraps the true sum. */
  lemma AddMod(s: nat, x: nat)
    ensures SizeAdd(s % SizeModulus, x) == (s + x) % SizeModulus
  {
    var q, r := s / SizeModulus, s % SizeModulus;
    var q2, r2 := (r + x) / SizeModulus, (r + x) % SizeModulus;
    ModUnique(s + x, SizeModulus, q + q2, r2);
  }

  /** Taking back what was added restores the wrapped sum. */
  lemma SubMod(s: nat, x: nat)
    ensures SizeSub((s + x) % SizeModulus, x) == s % SizeModulus
  {
    var t := (s + x) % SizeModulus;
    var q := (s + x) / SizeModulus;
    var q1, r1 := s / SizeModulus, s % SizeModulus;
    assert t - x == (q1 - q) * SizeModulus + r1;
    ModUnique(t - x, SizeModulus, q1 - q, r1);
  }

  // ---------------------------------------------------------------------------
  // Invariants
  // ---------------------------------------------------------------------------

  /**
   * One tier agrees with itself: `_count` is the list length, no entry is
   * listed twice, every listed entry is live and indexed under its own key,
   * and every indexed entry is listed.
   */
  ghost predicate TierShape<K, V>(l: Level<K>, store: map<Handle, KeyValue<K, V>>)
  {
    && l.count == |l.list|
    && Lists.Distinct(l.list)
    && (forall h :: h in l.list ==> h in store && store[h].key in l.dict && l.dict[store[h].key] == h)
    && (forall k :: k in l.dict ==> l.dict[k] in l.list && l.dict[k] in store && store[l.dict[k]].key == k)
  }

  /** Two tiers share no entry and no key. */
  ghost predicate Apart<K>(a: Level<K>, b: Level<K>)
  {
    && (forall h :: h in a.list ==> h !in b.list)
    && (forall k :: k in a.dict ==> k !in b.dict)
  }

  /**
   * The structure the cache keeps: at least one tier, each tier in shape,
   * each key and entry in at most one tier, and no live entry at or past
   * the next handle.
   */
  ghost predicate Structural<K, V>(c: Cache<K, V>)
  {
    && |c.levels| > 0
    && (forall i {:trigger TierShape(c.levels[i], c.store)} :: 0 <= i < |c.levels| ==> TierShape(c.levels[i], c.store))
    && (forall i, j {:trigger Apart(c.levels[i], c.levels[j])} ::
          0 <= i < |c.levels| && 0 <= j < |c.levels| && i != j ==> Apart(c.levels[i], c.levels[j]))
    && (forall i, h :: 0 <= i < |c.levels| && h in c.levels[i].list ==> h in c.store)
    && (forall h :: h in c.store ==> h < c.unused)
  }

  /** A tier's `_memUsage` is the wrapped sum of its members' charged sizes. */
  ghost predicate Charged<K, V>(l: Level<K>, store: map<Handle, KeyValue<K, V>>)
  {
    && (forall h :: h in l.list ==> h in store)
    && l.memUsage == SumSizes(l.list, store) % SizeModulus
  }

  /** The full invariant: the structure, and every tier's memory charged correctly. */
  ghost predicate Inv<K, V>(c: Cache<K, V>)
  {
    && Structural(c)
    && (forall i :: 0 <= i < |c.levels| ==> Charged(c.levels[i], c.store))
  }

  /** `h` is live and in no tier, and neither is its key. */
  ghost predicate Loose<K, V>(c: Cache<K, V>, h: Handle)
  {
    && h in c.store
    && (forall i :: 0 <= i < |c.levels| ==> h !in c.levels[i].list && c.store[h].key !in c.levels[i].dict)
  }

  lemma TierShapeFrame<K, V>(l: Level<K>, store: map<Handle, KeyValue<K, V>>, store': map<Handle, KeyValue<K, V>>)
    requires TierShape(l, store)
    requires forall h :: h in l.list ==> h in store' && store'[h] == store[h]
    ensures TierShape(l, store')
  {
  }

  lemma ChargedFrame<K, V>(l: Level<K>, store: map<Handle, KeyValue<K, V>>, store': map<Handle, KeyValue<K, V>>)
    requires Charged(l, store)
    requires forall h :: h in l.list ==> h in store' && store'[h] == store[h]
    ensures Charged(l, store')
  {
    SumFrame(l.list, store, store');
  }

  // ---------------------------------------------------------------------------
  // The steps
  // ---------------------------------------------------------------------------

  /**
   * Tier `l` after its member `h` (key `key`, charged `size`) unlinks its
   * list and dictionary links, with the count and the memory taken down
   * (cache.h:123, 130-132 and 181-184).
   */
  function Unlinked<K>(l: Level<K>, h: Handle, key: K, size: nat): Level<K>
  {
    l.(list := Without(l.list, h),
       dict := if key in l.dict && l.dict[key] == h then l.dict - {key} else l.dict,
       count := l.count - 1,
       memUsage := SizeSub(l.memUsage, size))
  }

  /**
   * Tier `l` after `h` (key `key`) is put at its list head and in its
   * dictionary, and counted (cache.h:114-116, 138-140 and 189-191). The
   * dictionary's `put` leaves an existing key alone.
   */
  function Linked<K>(l: Level<K>, h: Handle, key: K): Level<K>
  {
    l.(list := [h] + l.list, dict := if key in l.dict then l.dict else l.dict[key := h], count := l.count + 1)
  }

  /** Tier `l` with `size` more memory charged to it (cache.h:117, 141, 192). */
  function Charge<K>(l: Level<K>, size: nat): Level<K>
  {
    l.(memUsage := SizeAdd(l.memUsage, size))
  }

  /**
   * An entry leaves tier `from` for tier `to` (cache.h:123, 130-135, and
   * 181-187 in the cascade): tier `from` unlinks it, the hook sees the move,
   * and the entry's size is estimated afresh.
   */
  function Leave<K, V>(c: Cache<K, V>, changed: (V, nat, nat) -> V, estimate: (K, V) -> nat, h: Handle, from: nat, to: nat): (r: Cache<K, V>)
    requires h in c.store && from < |c.levels|
    ensures |r.levels| == |c.levels| && r.unused == c.unused && r.store.Keys == c.store.Keys
    ensures r.levels[from].list == Without(c.levels[from].list, h) && r.levels[from].count == c.levels[from].count - 1
    ensures forall i :: 0 <= i < |c.levels| && i != from ==> r.levels[i] == c.levels[i]
  {
    var e := c.store[h];
    var data := changed(e.data, from, to);
    Cache(c.levels[from := Unlinked(c.levels[from], h, e.key, e.lastMemSize)],
          c.store[h := KeyValue(data, e.key, estimate(e.key, data))],
          c.unused)
  }

  /**
   * An entry joins tier `to`, and its charged size is added to the memory
   * of tier `charged`: the same tier, except in the relocation as written
   * (cache.h:138-141).
   */
  function Arrive<K, V>(c: Cache<K, V>, h: Handle, to: nat, charged: nat): (r: Cache<K, V>)
    requires h in c.store && to < |c.levels| && charged < |c.levels|
    ensures |r.levels| == |c.levels| && r.store == c.store && r.unused == c.unused
    ensures r.levels[to].list == [h] + c.levels[to].list && r.levels[to].count == c.levels[to].count + 1
    ensures forall i :: 0 <= i < |c.levels| && i != to && i != charged ==> r.levels[i] == c.levels[i]
  {
    var e := c.store[h];
    var levels := c.levels[to := Linked(c.levels[to], h, e.key)];
    Cache(levels[charged := Charge(levels[charged], e.lastMemSize)], c.store, c.unused)
  }

  /** A new entry made by the factory, live but in no tier yet (cache.h:103-111). */
  function Admit<K, V>(c: Cache<K, V>, key: K, data: V, size: nat): (r: Cache<K, V>)
    ensures r.levels == c.levels && r.unused == c.unused + 1
    ensures r.store == c.store[c.unused := KeyValue(data, key, size)]
  {
    Cache(c.levels, c.store[c.unused := KeyValue(data, key, size)], c.unused + 1)
  }

  /** An entry of tier `i` moves to the head of that tier's list (cache.h:123, 127). */
  function Refresh<K, V>(c: Cache<K, V>, h: Handle, i: nat): (r: Cache<K, V>)
    requires i < |c.levels|
    ensures |r.levels| == |c.levels| && r.store == c.store && r.unused == c.unused
    ensures r.levels[i].list == [h] + Without(c.levels[i].list, h)
    ensures r.levels[i].dict == c.levels[i].dict && r.levels[i].count == c.levels[i].count
    ensures forall j :: 0 <= j < |c.levels| && j != i ==> r.levels[j] == c.levels[j]
  {
    var l := c.levels[i];
    c.(levels := c.levels[i := l.(list := [h] + Without(l.list, h))])
  }

  // ---------------------------------------------------------------------------
  // What each step keeps, tier by tier
  // ---------------------------------------------------------------------------

  lemma ShapeUnlinked<K, V>(l: Level<K>, store: map<Handle, KeyValue<K, V>>, h: Handle, e: KeyValue<K, V>, size: nat)
    requires TierShape(l, store) && h in l.list && e.key == store[h].key
    ensures TierShape(Unlinked(l, h, e.key, size), store[h := e])
    ensures h !in Unlinked(l, h, e.key, size).list && e.key !in Unlinked(l, h, e.key, size).dict
  {
    var l' := Unlinked(l, h, e.key, size);
    var s' := store[h := e];
    WithoutDistinct(l.list, h);
    assert l'.dict == l.dict - {e.key};
    forall g | g in l'.list
      ensures g in s' && s'[g].key in l'.dict && l'.dict[s'[g].key] == g
    {
      assert s'[g] == store[g];
    }
    forall k | k in l'.dict
      ensures l'.dict[k] in l'.list && l'.dict[k] in s' && s'[l'.dict[k]].key == k
    {
      assert l.dict[k] != h;
    }
  }

  lemma ChargedUnlinked<K, V>(l: Level<K>, store: map<Handle, KeyValue<K, V>>, h: Handle, e: KeyValue<K, V>)
    requires Lists.Distinct(l.list) && Charged(l, store) && h in l.list
    ensures Charged(Unlinked(l, h, e.key, store[h].lastMemSize), store[h := e])
  {
    var size := store[h].lastMemSize;
    var l' := Unlinked(l, h, e.key, size);
    var rest := Without(l.list, h);
    assert l'.list == rest;
    SumWithout(l.list, h, store);
    var s' := SumSizes(rest, store);
    assert s' + size == SumSizes(l.list, store);
    SumFrame(rest, store, store[h := e]);
    SubMod(s', size);
    assert l'.memUsage == SizeSub(l.memUsage, size);
  }

  lemma ChargedRefreshed<K, V>(l: Level<K>, store: map<Handle, KeyValue<K, V>>, h: Handle)
    requires Lists.Distinct(l.list) && Charged(l, store) && h in l.list
    ensures Charged(l.(list := [h] + Without(l.list, h)), store)
  {
    var rest := Without(l.list, h);
    SumWithout(l.list, h, store);
    assert ([h] + rest)[1..] == rest;
  }

  lemma ShapeLinked<K, V>(l: Level<K>, store: map<Handle, KeyValue<K, V>>, h: Handle)
    requires TierShape(l, store) && h in store && h !in l.list && store[h].key !in l.dict
    ensures TierShape(Linked(l, h, store[h].key), store)
  {
    var l' := Linked(l, h, store[h].key);
    assert l'.dict == l.dict[store[h].key := h];
    ConsDistinct(h, l.list);
    forall g | g in l'.list
      ensures g in store && store[g].key in l'.dict && l'.dict[store[g].key] == g
    {
      if g != h {
        assert g in l.list;
      }
    }
  }

  lemma ChargedLinked<K, V>(l: Level<K>, store: map<Handle, KeyValue<K, V>>, h: Handle)
    requires Charged(l, store) && h in store
    ensures Charged(Charge(Linked(l, h, store[h].key), store[h].lastMemSize), store)
  {
    var l' := Linked(l, h, store[h].key);
    assert l'.list[1..] == l.list;
    AddMod(SumSizes(l.list, store), store[h].lastMemSize);
  }

  lemma ApartShrink<K>(a: Level<K>, b: Level<K>, a': Level<K>)
    requires Apart(a, b) && Apart(b, a)
    requires forall h :: h in a'.list ==> h in a.list
    requires forall k :: k in a'.dict ==> k in a.dict
    ensures Apart(a', b) && Apart(b, a')
  {
  }

  lemma ApartGrow<K>(a: Level<K>, b: Level<K>, h: Handle, key: K)
    requires Apart(a, b) && Apart(b, a) && h !in b.list && key !in b.dict
    ensures Apart(Linked(a, h, key), b) && Apart(b, Linked(a, h, key))
  {
  }

  // ---------------------------------------------------------------------------
  // What each step keeps, for the whole cache
  // ---------------------------------------------------------------------------

  /** Leaving keeps the structure, and leaves the entry loose under the same key. */
  lemma LeaveKeeps<K, V>(c: Cache<K, V>, changed: (V, nat, nat) -> V, estimate: (K, V) -> nat, h: Handle, from: nat, to: nat)
    requires Structural(c) && from < |c.levels| && h in c.levels[from].list
    ensures var r := Leave(c, changed, estimate, h, from, to);
      Structural(r) && Loose(r, h) && r.store[h].key == c.store[h].key
  {
    var r := Leave(c, changed, estimate, h, from, to);
    var e := r.store[h];
    var l' := r.levels[from];
    assert TierShape(c.levels[from], c.store);
    forall i | 0 <= i < |r.levels|
      ensures TierShape(r.levels[i], r.store) && h !in r.levels[i].list && e.key !in r.levels[i].dict
    {
      if i == from {
        ShapeUnlinked(c.levels[from], c.store, h, e, c.store[h].lastMemSize);
      } else {
        assert Apart(c.levels[from], c.levels[i]);
        TierShapeFrame(c.levels[i], c.store, r.store);
      }
    }
    forall i, j | 0 <= i < |r.levels| && 0 <= j < |r.levels| && i < j
      ensures Apart(r.levels[i], r.levels[j]) && Apart(r.levels[j], r.levels[i])
    {
      assert Apart(c.levels[i], c.levels[j]) && Apart(c.levels[j], c.levels[i]);
      if i == from {
        ApartShrink(c.levels[i], c.levels[j], l');
      } else if j == from {
        ApartShrink(c.levels[j], c.levels[i], l');
      }
    }
  }

  /** Leaving keeps every tier's memory charged correctly. */
  lemma LeaveCharged<K, V>(c: Cache<K, V>, changed: (V, nat, nat) -> V, estimate: (K, V) -> nat, h: Handle, from: nat, to: nat)
    requires Inv(c) && from < |c.levels| && h in c.levels[from].list
    ensures Inv(Leave(c, changed, estimate, h, from, to))
  {
    var r := Leave(c, changed, estimate, h, from, to);
    LeaveKeeps(c, changed, estimate, h, from, to);
    forall i | 0 <= i < |r.levels|
      ensures Charged(r.levels[i], r.store)
    {
      if i == from {
        assert TierShape(c.levels[from], c.store);
        ChargedUnlinked(c.levels[from], c.store, h, r.store[h]);
      } else {
        assert Apart(c.levels[from], c.levels[i]);
        ChargedFrame(c.levels[i], c.store, r.store);
      }
    }
  }

  /** The structure of a tier does not depend on its memory or its limits. */
  lemma ShapeSameEntries<K, V>(l: Level<K>, l': Level<K>, store: map<Handle, KeyValue<K, V>>)
    requires l'.list == l.list && l'.dict == l.dict && l'.count == l.count
    ensures TierShape(l', store) == TierShape(l, store)
    ensures forall m: Level<K> :: Apart(l', m) == Apart(l, m) && Apart(m, l') == Apart(m, l)
  {
  }

  /**
   * A loose entry arriving at a tier keeps the structure, whichever tier
   * its size is charged to.
   */
  lemma ArriveKeeps<K, V>(c: Cache<K, V>, h: Handle, to: nat, charged: nat)
    requires Structural(c) && Loose(c, h) && to < |c.levels| && charged < |c.levels|
    ensures Structural(Arrive(c, h, to, charged))
  {
    var r := Arrive(c, h, to, charged);
    var key := c.store[h].key;
    var lt := Linked(c.levels[to], h, key);
    var plain := c.levels[to := lt];
    forall i | 0 <= i < |r.levels|
      ensures r.levels[i].list == plain[i].list && r.levels[i].dict == plain[i].dict && r.levels[i].count == plain[i].count
    {
    }
    assert TierShape(c.levels[to], c.store);
    ShapeLinked(c.levels[to], c.store, h);
    forall i | 0 <= i < |r.levels|
      ensures TierShape(r.levels[i], r.store)
    {
      ShapeSameEntries(plain[i], r.levels[i], c.store);
      if i != to {
        assert TierShape(c.levels[i], c.store);
      }
    }
    forall i, j | 0 <= i < |r.levels| && 0 <= j < |r.levels| && i < j
      ensures Apart(r.levels[i], r.levels[j]) && Apart(r.levels[j], r.levels[i])
    {
      assert Apart(c.levels[i], c.levels[j]) && Apart(c.levels[j], c.levels[i]);
      if i == to {
        ApartGrow(c.levels[i], c.levels[j], h, key);
      } else if j == to {
        ApartGrow(c.levels[j], c.levels[i], h, key);
      }
      ShapeSameEntries(plain[i], r.levels[i], c.store);
      ShapeSameEntries(plain[j], r.levels[j], c.store);
    }
  }

  /** ... and keeps every tier's memory charged correctly. */
  lemma ArriveCharged<K, V>(c: Cache<K, V>, h: Handle, to: nat)
    requires Inv(c) && Loose(c, h) && to < |c.levels|
    ensures Inv(Arrive(c, h, to, to))
  {
    ArriveKeeps(c, h, to, to);
    ChargedLinked(c.levels[to], c.store, h);
  }

  /** A freshly admitted entry is loose, and admitting keeps both invariants. */
  lemma AdmitKeeps<K, V>(c: Cache<K, V>, key: K, data: V, size: nat)
    requires Structural(c)
    requires forall i :: 0 <= i < |c.levels| ==> key !in c.levels[i].dict
    ensures Structural(Admit(c, key, data, size)) && Loose(Admit(c, key, data, size), c.unused)
    ensures Inv(c) ==> Inv(Admit(c, key, data, size))
  {
    var r := Admit(c, key, data, size);
    forall i | 0 <= i < |c.levels|
      ensures TierShape(r.levels[i], r.store) && c.unused !in c.levels[i].list
    {
      TierShapeFrame(c.levels[i], c.store, r.store);
    }
    if Inv(c) {
      forall i | 0 <= i < |c.levels|
        ensures Charged(r.levels[i], r.store)
      {
        ChargedFrame(c.levels[i], c.store, r.store);
      }
    }
  }

  /** Moving a member to the head of its tier keeps the structure. */
  lemma RefreshKeeps<K, V>(c: Cache<K, V>, h: Handle, i: nat)
    requires Structural(c) && i < |c.levels| && h in c.levels[i].list
    ensures Structural(Refresh(c, h, i))
  {
    var r := Refresh(c, h, i);
    var l := c.levels[i];
    assert TierShape(l, c.store);
    WithoutDistinct(l.list, h);
    ConsDistinct(h, Without(l.list, h));
    assert TierShape(r.levels[i], r.store);
    forall a, b | 0 <= a < |r.levels| && 0 <= b < |r.levels| && a < b
      ensures Apart(r.levels[a], r.levels[b]) && Apart(r.levels[b], r.levels[a])
    {
      assert Apart(c.levels[a], c.levels[b]) && Apart(c.levels[b], c.levels[a]);
    }
  }

  /** ... and keeps every tier's memory charged correctly. */
  lemma RefreshCharged<K, V>(c: Cache<K, V>, h: Handle, i: nat)
    requires Inv(c) && i < |c.levels| && h in c.levels[i].list
    ensures Inv(Refresh(c, h, i))
  {
    RefreshKeeps(c, h, i);
    assert TierShape(c.levels[i], c.store);
    ChargedRefreshed(c.levels[i], c.store, h);
  }
  /**
   * A member of tier `i` is deleted (cache.h:154-156): the tier's count and
   * memory are taken down, and the entry's destructor unlinks both its links.
   */
  function Delete<K, V>(c: Cache<K, V>, h: Handle, i: nat): (r: Cache<K, V>)
    requires h in c.store && i < |c.levels|
    ensures |r.levels| == |c.levels| && r.unused == c.unused && r.store == c.store - {h}
    ensures r.levels[i].list == Without(c.levels[i].list, h) && r.levels[i].count == c.levels[i].count - 1
    ensures r.levels[i].memUsage == SizeSub(c.levels[i].memUsage, c.store[h].lastMemSize)
    ensures forall j :: 0 <= j < |c.levels| && j != i ==> r.levels[j] == c.levels[j]
  {
    var e := c.store[h];
    Cache(c.levels[i := Unlinked(c.levels[i], h, e.key, e.lastMemSize)], c.store - {h}, c.unused)
  }

  /** Deleting a member keeps the structure, and its key leaves every tier. */
  lemma DeleteKeeps<K, V>(c: Cache<K, V>, h: Handle, i: nat)
    requires Structural(c) && i < |c.levels| && h in c.levels[i].list
    ensures Structural(Delete(c, h, i))
    ensures forall j :: 0 <= j < |c.levels| ==> c.store[h].key !in Delete(c, h, i).levels[j].dict
  {
    var r := Delete(c, h, i);
    var e := c.store[h];
    var l' := r.levels[i];
    ShapeUnlinked(c.levels[i], c.store, h, e, e.lastMemSize);
    assert l' == Unlinked(c.levels[i], h, e.key, e.lastMemSize);
    TierShapeFrame(l', c.store[h := e], r.store);
    forall j | 0 <= j < |r.levels| && j != i
      ensures TierShape(r.levels[j], r.store) && e.key !in r.levels[j].dict
    {
      assert Apart(c.levels[i], c.levels[j]);
      TierShapeFrame(c.levels[j], c.store, r.store);
    }
    forall a, b | 0 <= a < |r.levels| && 0 <= b < |r.levels| && a < b
      ensures Apart(r.levels[a], r.levels[b]) && Apart(r.levels[b], r.levels[a])
    {
      assert Apart(c.levels[a], c.levels[b]) && Apart(c.levels[b], c.levels[a]);
      if a == i {
        ApartShrink(c.levels[a], c.levels[b], l');
      } else if b == i {
        ApartShrink(c.levels[b], c.levels[a], l');
      }
    }
  }

  /** ... and keeps every tier's memory charged correctly. */
  lemma DeleteCharged<K, V>(c: Cache<K, V>, h: Handle, i: nat)
    requires Inv(c) && i < |c.levels| && h in c.levels[i].list
    ensures Inv(Delete(c, h, i))
  {
    var r := Delete(c, h, i);
    var e := c.store[h];
    DeleteKeeps(c, h, i);
    assert TierShape(c.levels[i], c.store);
    ChargedUnlinked(c.levels[i], c.store, h, e);
    ChargedFrame(r.levels[i], c.store[h := e], r.store);
    forall j | 0 <= j < |r.levels| && j != i
      ensures Charged(r.levels[j], r.store)
    {
      assert Apart(c.levels[i], c.levels[j]);
      ChargedFrame(c.levels[j], c.store, r.store);
    }
  }
}
