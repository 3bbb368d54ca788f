/**
 * The operations of the tiered `Cache<TCacheKey, TCacheValue, TMaxLevel>`
 * (cache.h): configuring a tier, looking a key up, fetching with creation
 * and promotion, removing, and the eviction cascade.
 *
 * The three virtual hooks are parameters. The cache's state and the steps
 * its operations are built from are in `CacheState`.
 */
module Caches {
  import opened Maybe
  import opened Bits
  import opened CacheState

  /**
   * The hooks a subclass overrides: the factory `newCacheValue` (a null
   * result is `None`), `onCacheLevelChanged`, and `estimateMemSize`.
   */
  datatype Hooks<!K, !V> = Hooks(newCacheValue: (K, nat) -> Option<V>, onCacheLevelChanged: (V, nat, nat) -> V, estimateMemSize: (K, V) -> nat)

  /** The limits a tier starts with (cache.h:28, 31). */
  const DefaultMaxCount: nat := 1024 * 16
  const DefaultMaxMemUsage: nat := 1024 * 1024 * 32

  function EmptyLevel<K>(): Level<K>
  {
    Level([], map[], 0, 0, DefaultMaxCount, DefaultMaxMemUsage)
  }

  /** A cache of `maxLevel` empty tiers with the default limits. */
  function NewCache<K, V>(maxLevel: nat): (c: Cache<K, V>)
    requires maxLevel > 0
    ensures |c.levels| == maxLevel && c.store == map[]
    ensures forall i :: 0 <= i < maxLevel ==> c.levels[i].list == [] && c.levels[i].count == 0 && c.levels[i].memUsage == 0
  {
    Cache(seq(maxLevel, _ => EmptyLevel()), map[], 0)
  }

  lemma NewCacheInv<K, V>(maxLevel: nat)
    requires maxLevel > 0
    ensures Inv(NewCache<K, V>(maxLevel))
  {
    var c := NewCache<K, V>(maxLevel);
    forall i | 0 <= i < maxLevel
      ensures c.levels[i] == EmptyLevel()
    {
    }
  }

  /** `isOverCapacity`: too many entries or too much memory. */
  predicate IsOverCapacity<K>(l: Level<K>)
  {
    l.count > l.maxCount || l.memUsage > l.maxMemUsage
  }

  /** `configureLevel`: sets the two limits of an existing tier; any other level is ignored. */
  function ConfigureLevel<K, V>(c: Cache<K, V>, level: int, maxCount: nat, maxMemUsage: nat): (r: Cache<K, V>)
    ensures |r.levels| == |c.levels| && r.store == c.store && r.unused == c.unused
    ensures !(0 <= level < |c.levels|) ==> r == c
    ensures 0 <= level < |c.levels| ==> r.levels[level].maxCount == maxCount && r.levels[level].maxMemUsage == maxMemUsage
    ensures forall i :: 0 <= i < |c.levels| && i != level ==> r.levels[i] == c.levels[i]
    ensures forall i :: 0 <= i < |c.levels| ==>
      && r.levels[i].list == c.levels[i].list && r.levels[i].dict == c.levels[i].dict
      && r.levels[i].count == c.levels[i].count && r.levels[i].memUsage == c.levels[i].memUsage
  {
    if 0 <= level < |c.levels| then
      c.(levels := c.levels[level := c.levels[level].(maxCount := maxCount, maxMemUsage := maxMemUsage)])
    else c
  }

  /** Configuring limits changes neither the structure nor the accounting. */
  lemma ConfigureKeeps<K, V>(c: Cache<K, V>, level: int, maxCount: nat, maxMemUsage: nat)
    requires Inv(c)
    ensures Inv(ConfigureLevel(c, level, maxCount, maxMemUsage))
  {
    var r := ConfigureLevel(c, level, maxCount, maxMemUsage);
    forall i | 0 <= i < |c.levels|
      ensures TierShape(r.levels[i], r.store) && Charged(r.levels[i], r.store)
    {
      assert TierShape(c.levels[i], c.store) && Charged(c.levels[i], c.store);
    }
    forall i, j | 0 <= i < |c.levels| && 0 <= j < |c.levels| && i != j
      ensures Apart(r.levels[i], r.levels[j])
    {
      assert Apart(c.levels[i], c.levels[j]);
    }
  }

  // ---------------------------------------------------------------------------
  // Lookup
  // ---------------------------------------------------------------------------

  /** The first tier from `i` on whose dictionary holds `key`, with the entry. */
  function FindFrom<K, V>(c: Cache<K, V>, key: K, i: nat): (r: Option<(Handle, nat)>)
    decreases |c.levels| - i
    ensures r.Some? ==> var (h, t) := r.value;
      i <= t < |c.levels| && key in c.levels[t].dict && c.levels[t].dict[key] == h
      && forall j :: i <= j < t ==> key !in c.levels[j].dict
    ensures r.None? <==> forall j :: i <= j < |c.levels| ==> key !in c.levels[j].dict
  {
    if i >= |c.levels| then None
    else if key in c.levels[i].dict then Some((c.levels[i].dict[key], i))
    else FindFrom(c, key, i + 1)
  }

  /** `findKeyValue`: the entry for `key` in the lowest tier holding it, with that tier. */
  function FindKeyValue<K, V>(c: Cache<K, V>, key: K): (r: Option<(Handle, nat)>)
    ensures r.Some? ==> var (h, t) := r.value;
      t < |c.levels| && key in c.levels[t].dict && c.levels[t].dict[key] == h
      && forall j :: 0 <= j < t ==> key !in c.levels[j].dict
    ensures r.None? <==> forall j :: 0 <= j < |c.levels| ==> key !in c.levels[j].dict
  {
    FindFrom(c, key, 0)
  }

  /** With each key in at most one tier, the lookup finds the one tier holding it. */
  lemma FindUnique<K, V>(c: Cache<K, V>, key: K, i: nat)
    requires Structural(c) && i < |c.levels| && key in c.levels[i].dict
    ensures FindKeyValue(c, key) == Some((c.levels[i].dict[key], i))
  {
    forall j | 0 <= j < |c.levels| && j != i
      ensures key !in c.levels[j].dict
    {
      assert Apart(c.levels[i], c.levels[j]);
    }
    var r := FindKeyValue(c, key);
    assert r.Some? && r.value.1 == i;
  }

  /** The lookup reads the tiers' dictionaries at `key` and nothing else. */
  lemma {:induction false} FindAgrees<K, V>(c: Cache<K, V>, d: Cache<K, V>, key: K, i: nat)
    requires |c.levels| == |d.levels|
    requires forall j :: i <= j < |c.levels| ==>
      (key in c.levels[j].dict <==> key in d.levels[j].dict)
      && (key in c.levels[j].dict ==> c.levels[j].dict[key] == d.levels[j].dict[key])
    ensures FindFrom(c, key, i) == FindFrom(d, key, i)
    decreases |c.levels| - i
  {
    if i < |c.levels| {
      FindAgrees(c, d, key, i + 1);
    }
  }

  /** `findPtr`: the stored value for `key`, or null. */
  function FindPtr<K, V>(c: Cache<K, V>, key: K): (r: Option<V>)
    requires Structural(c)
    ensures r.None? <==> forall j :: 0 <= j < |c.levels| ==> key !in c.levels[j].dict
    ensures forall j :: 0 <= j < |c.levels| && key in c.levels[j].dict ==>
      c.levels[j].dict[key] in c.store && r == Some(c.store[c.levels[j].dict[key]].data)
  {
    match FindKeyValue(c, key)
    case None => None
    case Some((h, t)) =>
      assert TierShape(c.levels[t], c.store);
      forall j | 0 <= j < |c.levels| && j != t
        ensures key !in c.levels[j].dict
      {
        assert Apart(c.levels[t], c.levels[j]);
      }
      Some(c.store[h].data)
  }

  /** `find`: the stored value for `key`, or the default value `absent` (`TCacheValue()`). */
  function Find<K, V>(c: Cache<K, V>, key: K, absent: V): (r: V)
    requires Structural(c)
    ensures (forall j :: 0 <= j < |c.levels| ==> key !in c.levels[j].dict) ==> r == absent
    ensures forall j :: 0 <= j < |c.levels| && key in c.levels[j].dict ==>
      c.levels[j].dict[key] in c.store && r == c.store[c.levels[j].dict[key]].data
  {
    match FindPtr(c, key)
    case None => absent
    case Some(v) => v
  }

  // ---------------------------------------------------------------------------
  // The eviction cascade
  // ---------------------------------------------------------------------------

  /** `b` ends with `a`. */
  predicate EndsWith(b: seq<Handle>, a: seq<Handle>)
  {
    |a| <= |b| && b[|b| - |a|..] == a
  }

  /**
   * One turn of the loop in `ensureLevelLimits` (cache.h:180-192): the tail
   * of tier `i` becomes the head of tier `i + 1`.
   */
  function Evict<K, V>(c: Cache<K, V>, hooks: Hooks<K, V>, i: nat): (r: Cache<K, V>)
    requires Structural(c) && i + 1 < |c.levels| && c.levels[i].count > 1
    ensures Structural(r) && |r.levels| == |c.levels| && r.store.Keys == c.store.Keys
    ensures var xs := c.levels[i].list;
      && |xs| > 1
      && r.levels[i].list == xs[..|xs| - 1]
      && r.levels[i + 1].list == [xs[|xs| - 1]] + c.levels[i + 1].list
      && forall g :: g in c.store && g != xs[|xs| - 1] ==> r.store[g] == c.store[g]
    ensures r.levels[i].count == c.levels[i].count - 1
    ensures forall j :: 0 <= j < |c.levels| && j != i && j != i + 1 ==> r.levels[j] == c.levels[j]
  {
    var xs := c.levels[i].list;
    assert TierShape(c.levels[i], c.store);
    var last := xs[|xs| - 1];
    var l := Leave(c, hooks.onCacheLevelChanged, hooks.estimateMemSize, last, i, i + 1);
    LeaveKeeps(c, hooks.onCacheLevelChanged, hooks.estimateMemSize, last, i, i + 1);
    ArriveKeeps(l, last, i + 1, i + 1);
    WithoutLast(xs);
    Arrive(l, last, i + 1, i + 1)
  }

  /** The `while` loop of `ensureLevelLimits` for tier `i`. */
  function Drain<K, V>(c: Cache<K, V>, hooks: Hooks<K, V>, i: nat): (r: Cache<K, V>)
    requires Structural(c) && i + 1 < |c.levels|
    decreases c.levels[i].count
    ensures Structural(r) && |r.levels| == |c.levels| && r.store.Keys == c.store.Keys
    ensures !IsOverCapacity(r.levels[i]) || r.levels[i].count <= 1
    ensures forall j :: 0 <= j < |c.levels| && j != i && j != i + 1 ==> r.levels[j] == c.levels[j]
  {
    if IsOverCapacity(c.levels[i]) && c.levels[i].count > 1 then
      Drain(Evict(c, hooks, i), hooks, i)
    else
      c
  }

  /** One eviction keeps every entry it does not move as it was. */
  lemma EvictStore<K, V>(c: Cache<K, V>, hooks: Hooks<K, V>, i: nat, g: Handle)
    requires Structural(c) && i + 1 < |c.levels| && c.levels[i].count > 1
    requires g in c.store && (g !in c.levels[i].list || g in Evict(c, hooks, i).levels[i].list)
    ensures Evict(c, hooks, i).store[g] == c.store[g]
  {
    var xs := c.levels[i].list;
    if g in xs {
      assert TierShape(c.levels[i], c.store);
      assert g in xs[..|xs| - 1];
    }
  }

  /** Draining only cuts tier `i` short from its tail, and never to nothing. */
  lemma {:induction false} DrainPrefix<K, V>(c: Cache<K, V>, hooks: Hooks<K, V>, i: nat)
    requires Structural(c) && i + 1 < |c.levels|
    decreases c.levels[i].count
    ensures Drain(c, hooks, i).levels[i].list <= c.levels[i].list
    ensures c.levels[i].list != [] ==> Drain(c, hooks, i).levels[i].list != []
  {
    if IsOverCapacity(c.levels[i]) && c.levels[i].count > 1 {
      DrainPrefix(Evict(c, hooks, i), hooks, i);
    }
  }

  /** Draining only adds to tier `i + 1`, at its head, entries taken from tier `i`. */
  lemma {:induction false} DrainEnds<K, V>(c: Cache<K, V>, hooks: Hooks<K, V>, i: nat)
    requires Structural(c) && i + 1 < |c.levels|
    decreases c.levels[i].count
    ensures EndsWith(Drain(c, hooks, i).levels[i + 1].list, c.levels[i + 1].list)
    ensures forall g :: g in Drain(c, hooks, i).levels[i + 1].list ==> g in c.levels[i + 1].list || g in c.levels[i].list
  {
    if IsOverCapacity(c.levels[i]) && c.levels[i].count > 1 {
      var e := Evict(c, hooks, i);
      var r := Drain(e, hooks, i);
      DrainEnds(e, hooks, i);
      EndsWithTrans(r.levels[i + 1].list, e.levels[i + 1].list, c.levels[i + 1].list);
      var xs := c.levels[i].list;
      forall g | g in r.levels[i + 1].list
        ensures g in c.levels[i + 1].list || g in xs
      {
        if g in e.levels[i].list {
          assert g in xs[..|xs| - 1];
        }
      }
    }
  }

  /** Draining keeps every entry it does not move as it was. */
  lemma {:induction false} DrainStore<K, V>(c: Cache<K, V>, hooks: Hooks<K, V>, i: nat, g: Handle)
    requires Structural(c) && i + 1 < |c.levels|
    requires g in c.store && (g !in c.levels[i].list || g in Drain(c, hooks, i).levels[i].list)
    decreases c.levels[i].count
    ensures Drain(c, hooks, i).store[g] == c.store[g]
  {
    if IsOverCapacity(c.levels[i]) && c.levels[i].count > 1 {
      var e := Evict(c, hooks, i);
      var xs := c.levels[i].list;
      if g in Drain(e, hooks, i).levels[i].list {
        DrainPrefix(e, hooks, i);
        assert g in e.levels[i].list;
      } else {
        assert g !in e.levels[i].list by {
          assert e.levels[i].list == xs[..|xs| - 1];
        }
      }
      EvictStore(c, hooks, i, g);
      DrainStore(e, hooks, i, g);
    }
  }

  lemma EndsWithTrans(c: seq<Handle>, b: seq<Handle>, a: seq<Handle>)
    requires EndsWith(c, b) && EndsWith(b, a)
    ensures EndsWith(c, a)
  {
    assert c[|c| - |a|..] == c[|c| - |b|..][|b| - |a|..];
  }

  /**
   * `ensureLevelLimits(level)`: drains tiers `level` up to the one before
   * the last, each into the next.
   */
  function EnsureLevelLimits<K, V>(c: Cache<K, V>, hooks: Hooks<K, V>, level: nat): (r: Cache<K, V>)
    requires Structural(c) && level < |c.levels|
    decreases |c.levels| - level
    ensures Structural(r) && |r.levels| == |c.levels| && r.store.Keys == c.store.Keys
    ensures forall j :: 0 <= j < level ==> r.levels[j] == c.levels[j]
    ensures forall j :: level <= j < |c.levels| - 1 ==> !IsOverCapacity(r.levels[j]) || r.levels[j].count <= 1
  {
    if level + 1 >= |c.levels| then
      c
    else
      EnsureLevelLimits(Drain(c, hooks, level), hooks, level + 1)
  }

  /** The cascade only cuts tier `level` short from its tail, and never to nothing. */
  lemma EnsurePrefix<K, V>(c: Cache<K, V>, hooks: Hooks<K, V>, level: nat)
    requires Structural(c) && level < |c.levels|
    ensures EnsureLevelLimits(c, hooks, level).levels[level].list <= c.levels[level].list
    ensures c.levels[level].list != [] ==> EnsureLevelLimits(c, hooks, level).levels[level].list != []
  {
    if level + 1 < |c.levels| {
      DrainPrefix(c, hooks, level);
    }
  }

  /** The last tier only grows at its head: nothing is ever evicted from it. */
  lemma {:induction false} EnsureLast<K, V>(c: Cache<K, V>, hooks: Hooks<K, V>, level: nat)
    requires Structural(c) && level < |c.levels|
    decreases |c.levels| - level
    ensures EndsWith(EnsureLevelLimits(c, hooks, level).levels[|c.levels| - 1].list, c.levels[|c.levels| - 1].list)
  {
    var n := |c.levels| - 1;
    if level + 1 < |c.levels| {
      var d := Drain(c, hooks, level);
      var rd := EnsureLevelLimits(d, hooks, level + 1);
      assert EnsureLevelLimits(c, hooks, level) == rd;
      EnsureLast(d, hooks, level + 1);
      LastAfterDrain(c, d, rd.levels[n].list, hooks, level);
    } else {
      assert c.levels[n].list[|c.levels[n].list| - |c.levels[n].list|..] == c.levels[n].list;
    }
  }

  /** What ends with the last tier after a drain ends with it before. */
  lemma LastAfterDrain<K, V>(c: Cache<K, V>, d: Cache<K, V>, xs: seq<Handle>, hooks: Hooks<K, V>, level: nat)
    requires Structural(c) && level + 1 < |c.levels| && d == Drain(c, hooks, level)
    requires EndsWith(xs, d.levels[|c.levels| - 1].list)
    ensures EndsWith(xs, c.levels[|c.levels| - 1].list)
  {
    var n := |c.levels| - 1;
    if level + 1 < n {
      DrainSkipsLast(c, d, hooks, level);
    } else {
      var ys := d.levels[n].list;
      assert EndsWith(ys, c.levels[n].list) by {
        DrainEnds(c, hooks, level);
      }
      EndsWithTrans(xs, ys, c.levels[n].list);
    }
  }

  lemma DrainSkipsLast<K, V>(c: Cache<K, V>, d: Cache<K, V>, hooks: Hooks<K, V>, level: nat)
    requires Structural(c) && level + 2 < |c.levels| && d == Drain(c, hooks, level)
    ensures d.levels[|c.levels| - 1] == c.levels[|c.levels| - 1]
  {
  }

  /** Entries outside the drained tiers are left alone by the cascade. */
  lemma {:induction false} EnsureOutside<K, V>(c: Cache<K, V>, hooks: Hooks<K, V>, level: nat, g: Handle)
    requires Structural(c) && Outside(c, level, g)
    ensures EnsureLevelLimits(c, hooks, level).store[g] == c.store[g]
    decreases |c.levels| - level
  {
    if level + 1 < |c.levels| {
      var d := Drain(c, hooks, level);
      DrainOutside(c, d, hooks, level, g);
      EnsureOutside(d, hooks, level + 1, g);
    }
  }

  /** Draining tier `level` neither touches nor moves an entry outside the tiers from `level` on. */
  lemma DrainOutside<K, V>(c: Cache<K, V>, d: Cache<K, V>, hooks: Hooks<K, V>, level: nat, g: Handle)
    requires Structural(c) && Outside(c, level, g) && level + 1 < |c.levels| && d == Drain(c, hooks, level)
    ensures d.store[g] == c.store[g] && Outside(d, level + 1, g)
  {
    DrainStore(c, hooks, level, g);
    DrainEnds(c, hooks, level);
    forall j | level + 1 <= j < |d.levels|
      ensures g !in d.levels[j].list
    {
      if j > level + 1 {
        assert d.levels[j] == c.levels[j];
      }
    }
  }

  /** Cascade lemmas for the full invariant. */
  lemma EvictInv<K, V>(c: Cache<K, V>, hooks: Hooks<K, V>, i: nat)
    requires Inv(c) && i + 1 < |c.levels| && c.levels[i].count > 1
    ensures Inv(Evict(c, hooks, i))
  {
    var xs := c.levels[i].list;
    assert TierShape(c.levels[i], c.store);
    var last := xs[|xs| - 1];
    LeaveCharged(c, hooks.onCacheLevelChanged, hooks.estimateMemSize, last, i, i + 1);
    LeaveKeeps(c, hooks.onCacheLevelChanged, hooks.estimateMemSize, last, i, i + 1);
    ArriveCharged(Leave(c, hooks.onCacheLevelChanged, hooks.estimateMemSize, last, i, i + 1), last, i + 1);
  }

  lemma {:induction false} DrainInv<K, V>(c: Cache<K, V>, hooks: Hooks<K, V>, i: nat)
    requires Inv(c) && i + 1 < |c.levels|
    decreases c.levels[i].count
    ensures Inv(Drain(c, hooks, i))
  {
    if IsOverCapacity(c.levels[i]) && c.levels[i].count > 1 {
      EvictInv(c, hooks, i);
      DrainInv(Evict(c, hooks, i), hooks, i);
    }
  }

  /** The cascade keeps every tier's memory charged correctly. */
  lemma {:induction false} EnsureInv<K, V>(c: Cache<K, V>, hooks: Hooks<K, V>, level: nat)
    requires Inv(c) && level < |c.levels|
    decreases |c.levels| - level
    ensures Inv(EnsureLevelLimits(c, hooks, level))
  {
    if level + 1 < |c.levels| {
      DrainInv(c, hooks, level);
      EnsureInv(Drain(c, hooks, level), hooks, level + 1);
    }
  }

  /** The entries the cascade leaves in tier `level` are as they were. */
  lemma EnsureKeepsTier<K, V>(c: Cache<K, V>, hooks: Hooks<K, V>, level: nat, g: Handle)
    requires Structural(c) && level < |c.levels|
    requires g in EnsureLevelLimits(c, hooks, level).levels[level].list
    ensures g in c.store && EnsureLevelLimits(c, hooks, level).store[g] == c.store[g]
  {
    var next := level + 1;
    if next < |c.levels| {
      var d := Drain(c, hooks, level);
      var rd := EnsureLevelLimits(d, hooks, next);
      assert EnsureLevelLimits(c, hooks, level) == rd;
      KeptThroughCascade(c, d, rd, hooks, level, next, g);
    }
  }

  /** `EnsureKeepsTier` past the first drain. */
  lemma KeptThroughCascade<K, V>(c: Cache<K, V>, d: Cache<K, V>, rd: Cache<K, V>, hooks: Hooks<K, V>, level: nat, next: nat, g: Handle)
    requires Structural(c) && next == level + 1 && next < |c.levels| && d == Drain(c, hooks, level)
    requires rd == EnsureLevelLimits(d, hooks, next) && g in rd.levels[level].list
    ensures g in c.store && rd.store[g] == c.store[g]
  {
    assert rd.levels[level] == d.levels[level];
    DrainKeepsKept(c, d, hooks, level, g);
    assert Outside(d, next, g) by {
      DrainOthers(d, level, g);
    }
    EnsureOutside(d, hooks, next, g);
  }

  lemma DrainKeepsKept<K, V>(c: Cache<K, V>, d: Cache<K, V>, hooks: Hooks<K, V>, level: nat, g: Handle)
    requires Structural(c) && level + 1 < |c.levels| && d == Drain(c, hooks, level) && g in d.levels[level].list
    ensures g in c.store && d.store[g] == c.store[g]
  {
    assert g in d.store;
    DrainStore(c, hooks, level, g);
  }

  /** `g` is a live entry in none of the tiers from `level` on. */
  ghost predicate Outside<K, V>(c: Cache<K, V>, level: nat, g: Handle)
  {
    level < |c.levels| && g in c.store && forall j :: level <= j < |c.levels| ==> g !in c.levels[j].list
  }

  /** An entry of tier `level` is in no later tier. */
  lemma DrainOthers<K, V>(d: Cache<K, V>, level: nat, g: Handle)
    requires Structural(d) && level + 1 < |d.levels| && g in d.levels[level].list
    ensures g in d.store && Outside(d, level + 1, g)
  {
    forall j | level + 1 <= j < |d.levels|
      ensures g !in d.levels[j].list
    {
      assert Apart(d.levels[level], d.levels[j]);
    }
  }

  // ---------------------------------------------------------------------------
  // Fetching and removing
  // ---------------------------------------------------------------------------

  /**
   * The tier a request lands in (cache.h:91-99): a negative `levelIndex`
   * keeps the tier the key is in, or tier 0 for a new key; a request past
   * the last tier is clamped to it.
   */
  function TargetLevel(levelIndex: int, found: Option<nat>, maxLevel: nat): (t: nat)
    requires maxLevel > 0 && (found.Some? ==> found.value < maxLevel)
    ensures t < maxLevel
    ensures levelIndex < 0 ==> t == (if found.Some? then found.value else 0)
    ensures 0 <= levelIndex < maxLevel ==> t == levelIndex
    ensures levelIndex >= maxLevel ==> t == maxLevel - 1
  {
    if levelIndex < 0 then
      if found.Some? then found.value else 0
    else if levelIndex >= maxLevel then maxLevel - 1
    else levelIndex
  }

  /** The tier `getKeyValue(key, levelIndex)` puts the key in. */
  function Target<K, V>(c: Cache<K, V>, key: K, levelIndex: int): (t: nat)
    requires |c.levels| > 0
    ensures t < |c.levels|
  {
    var found := FindKeyValue(c, key);
    TargetLevel(levelIndex, if found.Some? then Some(found.value.1) else None, |c.levels|)
  }

  /**
   * `getKeyValue` (cache.h:86-148). On a miss the factory is asked for a
   * value; a null answer changes nothing, and otherwise the new entry joins
   * the target tier and the cascade runs from it. On a hit in the target
   * tier the entry moves to the head of its list. On a hit elsewhere the
   * entry leaves its tier, joins the target tier and the cascade runs; the
   * new size is charged to the target tier, or, when `chargeOldTier` is set,
   * to the tier it left, as line 141 does.
   */
  function Access<K, V>(c: Cache<K, V>, hooks: Hooks<K, V>, key: K, levelIndex: int, chargeOldTier: bool): (r: (Cache<K, V>, Option<Handle>))
    requires Structural(c)
    ensures Structural(r.0)
  {
    var t := Target(c, key, levelIndex);
    match FindKeyValue(c, key)
    case None =>
      (match hooks.newCacheValue(key, t)
       case None => (c, None)
       case Some(data) =>
         var size := hooks.estimateMemSize(key, data);
         var a := Admit(c, key, data, size);
         AdmitKeeps(c, key, data, size);
         ArriveKeeps(a, c.unused, t, t);
         (EnsureLevelLimits(Arrive(a, c.unused, t, t), hooks, t), Some(c.unused)))
    case Some((h, from)) =>
      assert TierShape(c.levels[from], c.store);
      if from == t then
        RefreshKeeps(c, h, from);
        (Refresh(c, h, from), Some(h))
      else
        var l := Leave(c, hooks.onCacheLevelChanged, hooks.estimateMemSize, h, from, t);
        LeaveKeeps(c, hooks.onCacheLevelChanged, hooks.estimateMemSize, h, from, t);
        ArriveKeeps(l, h, t, if chargeOldTier then from else t);
        (EnsureLevelLimits(Arrive(l, h, t, if chargeOldTier then from else t), hooks, t), Some(h))
  }

  /** `getKeyValue` with the new size charged to the tier the entry joins. */
  function GetKeyValue<K, V>(c: Cache<K, V>, hooks: Hooks<K, V>, key: K, levelIndex: int): (r: (Cache<K, V>, Option<Handle>))
    requires Structural(c)
    ensures Structural(r.0)
  {
    Access(c, hooks, key, levelIndex, false)
  }

  /** `getKeyValue` as written: on relocation the new size goes to the old tier (cache.h:141). */
  function GetKeyValueAsWritten<K, V>(c: Cache<K, V>, hooks: Hooks<K, V>, key: K, levelIndex: int): (r: (Cache<K, V>, Option<Handle>))
    requires Structural(c)
    ensures Structural(r.0)
  {
    Access(c, hooks, key, levelIndex, true)
  }

  /**
   * What `getKeyValue` returns and where the entry ends up: null exactly
   * when the key is missing and the factory declines, and then nothing
   * changes; otherwise the entry for `key` (the existing one on a hit, a
   * new one holding the factory's value on a miss) heads the target tier's
   * list after the cascade, and a lookup finds it there.
   */
  lemma GetKeyValuePlaces<K, V>(c: Cache<K, V>, hooks: Hooks<K, V>, key: K, levelIndex: int)
    requires Structural(c)
    ensures var (r, res) := GetKeyValue(c, hooks, key, levelIndex);
      var t := Target(c, key, levelIndex);
      && (res.None? <==> FindKeyValue(c, key).None? && hooks.newCacheValue(key, t).None?)
      && (res.None? ==> r == c)
      && (FindKeyValue(c, key).Some? ==> res == Some(FindKeyValue(c, key).value.0))
      && (FindKeyValue(c, key).None? && res.Some? ==>
            res.value == c.unused && r.store[c.unused] == KeyValue(hooks.newCacheValue(key, t).value, key, hooks.estimateMemSize(key, hooks.newCacheValue(key, t).value)))
      && (res.Some? ==> r.levels[t].list != [] && r.levels[t].list[0] == res.value && FindKeyValue(r, key) == Some((res.value, t)))
  {
    var t := Target(c, key, levelIndex);
    match FindKeyValue(c, key)
    case None =>
      match hooks.newCacheValue(key, t) {
        case None =>
        case Some(data) =>
          PlacesNew(c, hooks, key, levelIndex, t, data);
      }
    case Some((h, from)) =>
      if from == t {
        PlacesRefreshed(c, hooks, key, levelIndex, h, t);
      } else {
        PlacesMoved(c, hooks, key, levelIndex, h, from, t);
      }
  }

  /** A miss the factory answers: the new entry heads the target tier. */
  lemma PlacesNew<K, V>(c: Cache<K, V>, hooks: Hooks<K, V>, key: K, levelIndex: int, t: nat, data: V)
    requires Structural(c) && FindKeyValue(c, key).None?
    requires t == Target(c, key, levelIndex) && hooks.newCacheValue(key, t) == Some(data)
    ensures var (r, res) := GetKeyValue(c, hooks, key, levelIndex);
      && res == Some(c.unused)
      && r.store[c.unused] == KeyValue(data, key, hooks.estimateMemSize(key, data))
      && r.levels[t].list != [] && r.levels[t].list[0] == c.unused && FindKeyValue(r, key) == Some((c.unused, t))
  {
    var r := GetKeyValue(c, hooks, key, levelIndex).0;
    var size := hooks.estimateMemSize(key, data);
    var a := Admit(c, key, data, size);
    AdmitKeeps(c, key, data, size);
    ArriveKeeps(a, c.unused, t, t);
    var b := Arrive(a, c.unused, t, t);
    assert r == EnsureLevelLimits(b, hooks, t);
    EnsurePrefix(b, hooks, t);
    EnsureKeepsTier(b, hooks, t, c.unused);
    Placed(r, key, c.unused, t);
  }

  /** A hit in the target tier: the entry moves to the head of its list. */
  lemma PlacesRefreshed<K, V>(c: Cache<K, V>, hooks: Hooks<K, V>, key: K, levelIndex: int, h: Handle, t: nat)
    requires Structural(c) && FindKeyValue(c, key) == Some((h, t)) && t == Target(c, key, levelIndex)
    ensures var (r, res) := GetKeyValue(c, hooks, key, levelIndex);
      res == Some(h) && r.levels[t].list != [] && r.levels[t].list[0] == h && FindKeyValue(r, key) == Some((h, t))
  {
    var r := GetKeyValue(c, hooks, key, levelIndex).0;
    assert TierShape(c.levels[t], c.store);
    RefreshKeeps(c, h, t);
    assert r == Refresh(c, h, t);
    assert c.store[h].key == key;
    Placed(r, key, h, t);
  }

  /** A hit in another tier: the entry leaves it and heads the target tier after the cascade. */
  lemma PlacesMoved<K, V>(c: Cache<K, V>, hooks: Hooks<K, V>, key: K, levelIndex: int, h: Handle, from: nat, t: nat)
    requires Structural(c) && FindKeyValue(c, key) == Some((h, from)) && t == Target(c, key, levelIndex) && from != t
    ensures var (r, res) := GetKeyValue(c, hooks, key, levelIndex);
      res == Some(h) && r.levels[t].list != [] && r.levels[t].list[0] == h && FindKeyValue(r, key) == Some((h, t))
  {
    var r := GetKeyValue(c, hooks, key, levelIndex).0;
    assert TierShape(c.levels[from], c.store);
    var l := Leave(c, hooks.onCacheLevelChanged, hooks.estimateMemSize, h, from, t);
    LeaveKeeps(c, hooks.onCacheLevelChanged, hooks.estimateMemSize, h, from, t);
    ArriveKeeps(l, h, t, t);
    var b := Arrive(l, h, t, t);
    assert r == EnsureLevelLimits(b, hooks, t);
    EnsurePrefix(b, hooks, t);
    EnsureKeepsTier(b, hooks, t, h);
    Placed(r, key, h, t);
  }

  /** An entry with key `key` heading tier `t` is what the lookup finds. */
  lemma Placed<K, V>(c: Cache<K, V>, key: K, h: Handle, t: nat)
    requires Structural(c) && t < |c.levels| && c.levels[t].list != [] && c.levels[t].list[0] == h
    requires h in c.store && c.store[h].key == key
    ensures FindKeyValue(c, key) == Some((h, t))
  {
    assert TierShape(c.levels[t], c.store);
    assert h in c.levels[t].list;
    FindUnique(c, key, t);
  }

  /** The corrected `getKeyValue` keeps every tier's memory charged correctly. */
  lemma GetKeyValueInv<K, V>(c: Cache<K, V>, hooks: Hooks<K, V>, key: K, levelIndex: int)
    requires Inv(c)
    ensures Inv(GetKeyValue(c, hooks, key, levelIndex).0)
  {
    var t := Target(c, key, levelIndex);
    match FindKeyValue(c, key)
    case None =>
      match hooks.newCacheValue(key, t) {
        case None =>
        case Some(data) =>
          var size := hooks.estimateMemSize(key, data);
          var a := Admit(c, key, data, size);
          AdmitKeeps(c, key, data, size);
          ArriveCharged(a, c.unused, t);
          EnsureInv(Arrive(a, c.unused, t, t), hooks, t);
      }
    case Some((h, from)) =>
      assert TierShape(c.levels[from], c.store);
      if from == t {
        RefreshCharged(c, h, from);
      } else {
        var l := Leave(c, hooks.onCacheLevelChanged, hooks.estimateMemSize, h, from, t);
        LeaveCharged(c, hooks.onCacheLevelChanged, hooks.estimateMemSize, h, from, t);
        LeaveKeeps(c, hooks.onCacheLevelChanged, hooks.estimateMemSize, h, from, t);
        ArriveCharged(l, h, t);
        EnsureInv(Arrive(l, h, t, t), hooks, t);
      }
  }

  /** `getPtr`: the value `getKeyValue` returns, or null. */
  function GetPtr<K, V>(c: Cache<K, V>, hooks: Hooks<K, V>, key: K, levelIndex: int): (r: (Cache<K, V>, Option<V>))
    requires Structural(c)
    ensures Structural(r.0)
    ensures r.1.Some? ==> r.1 == FindPtr(r.0, key)
    ensures r.1.None? <==> FindKeyValue(c, key).None? && hooks.newCacheValue(key, Target(c, key, levelIndex)).None?
  {
    var (d, res) := GetKeyValue(c, hooks, key, levelIndex);
    GetKeyValuePlaces(c, hooks, key, levelIndex);
    match res
    case None => (d, None)
    case Some(h) =>
      var t := Target(c, key, levelIndex);
      assert TierShape(d.levels[t], d.store);
      assert h in d.levels[t].list;
      (d, Some(d.store[h].data))
  }

  /** `get`: the value `getKeyValue` returns, or the default value `absent`. */
  function Get<K, V>(c: Cache<K, V>, hooks: Hooks<K, V>, key: K, levelIndex: int, absent: V): (r: (Cache<K, V>, V))
    requires Structural(c)
    ensures Structural(r.0)
    ensures FindKeyValue(c, key).None? && hooks.newCacheValue(key, Target(c, key, levelIndex)).None? ==> r == (c, absent)
    ensures FindKeyValue(c, key).Some? || hooks.newCacheValue(key, Target(c, key, levelIndex)).Some? ==> Some(r.1) == FindPtr(r.0, key)
  {
    var (d, res) := GetPtr(c, hooks, key, levelIndex);
    GetKeyValuePlaces(c, hooks, key, levelIndex);
    match res
    case None => (d, absent)
    case Some(v) => (d, v)
  }

  /**
   * `remove` (cache.h:150-158): the entry for `key`, if any, leaves its tier,
   * which is uncharged its size, and is destroyed.
   */
  function Remove<K, V>(c: Cache<K, V>, key: K): (r: Cache<K, V>)
    requires Structural(c)
    ensures Structural(r)
    ensures FindKeyValue(c, key).None? ==> r == c
  {
    match FindKeyValue(c, key)
    case None => c
    case Some((h, i)) =>
      assert TierShape(c.levels[i], c.store);
      DeleteKeeps(c, h, i);
      Delete(c, h, i)
  }

  /** `remove` keeps every tier's memory charged correctly. */
  lemma RemoveInv<K, V>(c: Cache<K, V>, key: K)
    requires Inv(c)
    ensures Inv(Remove(c, key))
  {
    match FindKeyValue(c, key)
    case None =>
    case Some((h, i)) =>
      assert TierShape(c.levels[i], c.store);
      DeleteCharged(c, h, i);
  }

  /**
   * After `remove(key)` the key is found nowhere, its entry is gone, and
   * every other key is found as before, with the same value.
   */
  lemma RemoveDrops<K, V>(c: Cache<K, V>, key: K, other: K)
    requires Structural(c)
    ensures FindKeyValue(Remove(c, key), key).None?
    ensures FindKeyValue(c, key).Some? ==> FindKeyValue(c, key).value.0 !in Remove(c, key).store
    ensures other != key ==> FindKeyValue(Remove(c, key), other) == FindKeyValue(c, other)
    ensures other != key ==> FindPtr(Remove(c, key), other) == FindPtr(c, other)
  {
    var r := Remove(c, key);
    match FindKeyValue(c, key)
    case None =>
    case Some((h, i)) =>
      assert TierShape(c.levels[i], c.store);
      DeleteKeeps(c, h, i);
      if other != key {
        forall j | 0 <= j < |c.levels|
          ensures (other in c.levels[j].dict <==> other in r.levels[j].dict)
          ensures other in c.levels[j].dict ==> c.levels[j].dict[other] == r.levels[j].dict[other]
        {
        }
        FindAgrees(c, r, other, 0);
        match FindKeyValue(c, other) {
          case None =>
          case Some((g, k)) =>
            assert TierShape(c.levels[k], c.store);
            assert g in c.levels[k].list && c.store[g].key == other;
            assert c.store[h].key == key;
            assert g in r.store;
        }
      }
  }

  // ---------------------------------------------------------------------------
  // The relocation as written (cache.h:141)
  // ---------------------------------------------------------------------------

  /** Integer keys and values: the factory makes a key's own value, every entry weighs 8. */
  function Weigh8(): Hooks<int, int>
  {
    Hooks((k: int, l: nat) => Some(k), (v: int, a: nat, b: nat) => v, (k: int, v: int) => 8)
  }

  /** Two tiers; key 1 is in tier 0, charged its 8. */
  function OneInTierZero(): Cache<int, int>
  {
    Cache([Level([0], map[1 := 0], 1, 8, DefaultMaxCount, DefaultMaxMemUsage), EmptyLevel()],
          map[0 := KeyValue(1, 1, 8)], 1)
  }

  /** Key 1 in tier 1, charged 8 to tier `charged` and `8 - that` to the other. */
  function OneInTierOne(charged: nat): Cache<int, int>
    requires charged < 2
  {
    Cache([Level([], map[], 0, if charged == 0 then 8 else 0, DefaultMaxCount, DefaultMaxMemUsage),
           Level([0], map[1 := 0], 1, if charged == 1 then 8 else 0, DefaultMaxCount, DefaultMaxMemUsage)],
          map[0 := KeyValue(1, 1, 8)], 1)
  }

  lemma OneInTierZeroInv()
    ensures Inv(OneInTierZero())
  {
    var c := OneInTierZero();
    assert TierShape(c.levels[0], c.store);
    assert TierShape(c.levels[1], c.store);
    assert SumSizes([0], c.store) == 8;
  }

  /** The move of key 1 to tier 1, as written and corrected. */
  lemma RelocationOutcome()
    ensures GetKeyValueAsWritten(OneInTierZero(), Weigh8(), 1, 1).0 == OneInTierOne(0)
    ensures GetKeyValue(OneInTierZero(), Weigh8(), 1, 1).0 == OneInTierOne(1)
  {
    var c := OneInTierZero();
    var hooks := Weigh8();
    OneInTierZeroInv();
    assert TierShape(c.levels[0], c.store);
    FindUnique(c, 1, 0);
    assert Target(c, 1, 1) == 1;
    var l := Leave(c, hooks.onCacheLevelChanged, hooks.estimateMemSize, 0, 0, 1);
    assert Without([0], 0) == [];
    assert l.levels[0] == Level([], map[], 0, 0, DefaultMaxCount, DefaultMaxMemUsage);
    assert l.store == c.store;
    assert l.levels[1] == EmptyLevel();
    assert [0] + [] == [0];
    var w := Arrive(l, 0, 1, 0);
    assert w == OneInTierOne(0);
    var g := Arrive(l, 0, 1, 1);
    assert g == OneInTierOne(1);
  }

  /**
   * Moving key 1 to tier 1 as written charges its 8 to tier 0, which is now
   * empty, and nothing to tier 1, which holds it; the invariant is lost.
   * Removing it afterwards takes 8 from tier 1's zero, which wraps to
   * 2^64 - 8, and tier 1 reports itself over capacity with one entry gone.
   * The corrected move charges tier 1 and keeps the invariant.
   */
  lemma RelocationChargesOldTier()
    ensures Inv(OneInTierZero())
    ensures var r := GetKeyValueAsWritten(OneInTierZero(), Weigh8(), 1, 1).0;
      && r.levels[0].list == [] && r.levels[0].memUsage == 8
      && r.levels[1].list == [0] && r.levels[1].memUsage == 0
      && !Inv(r)
      && Remove(r, 1).levels[1].memUsage == SizeModulus - 8
      && IsOverCapacity(Remove(r, 1).levels[1])
    ensures var r := GetKeyValue(OneInTierZero(), Weigh8(), 1, 1).0;
      && r.levels[0].memUsage == 0 && r.levels[1].memUsage == 8 && Inv(r)
  {
    OneInTierZeroInv();
    RelocationOutcome();
    GetKeyValueInv(OneInTierZero(), Weigh8(), 1, 1);
    var r := OneInTierOne(0);
    assert SumSizes(r.levels[0].list, r.store) == 0;
    assert !Charged(r.levels[0], r.store);
    assert TierShape(r.levels[1], r.store);
    FindUnique(r, 1, 1);
    assert Remove(r, 1).levels[1].memUsage == SizeSub(0, 8);
  }
}
