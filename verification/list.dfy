/**
 * The intrusive `List<T, TLinkField>` and its `ListIterator`
 * (intrusive_containers.h, and the older copies GaLib/include/galib/intrusive/list.h
 * and detail/list_iterator.h).
 *
 * A list is its sentinel link `s` in one field `c`; its contents are the
 * owners met by walking `next` from the sentinel back to itself. `ListIs(c, s, xs)`
 * relates the pointer structure to that sequence.
 */
module Lists {
  import opened Maybe
  import opened Links

  /** The elements of `r` are pairwise different. */
  predicate Distinct(r: seq<Handle>)
  {
    forall i, j :: 0 <= i < j < |r| ==> r[i] != r[j]
  }

  /**
   * `r` lists one whole cycle of the field, in `next` order: each element's
   * `next` is the following one, the last wraps round to the first, and
   * `prev` runs the other way.
   */
  ghost predicate RingIs(c: Chain, r: seq<Handle>)
  {
    && |r| > 0
    && Distinct(r)
    && (forall i :: 0 <= i < |r| ==> Has(c, r[i]))
    && (forall i :: 0 <= i < |r| - 1 ==> c.next[r[i]] == r[i + 1] && c.prev[r[i + 1]] == r[i])
    && c.next[r[|r| - 1]] == r[0] && c.prev[r[0]] == r[|r| - 1]
  }

  /** The list with sentinel `s` holds exactly `xs`, head first. */
  ghost predicate ListIs(c: Chain, s: Handle, xs: seq<Handle>)
  {
    RingIs(c, [s] + xs)
  }

  // ---------------------------------------------------------------------------
  // Three facts about cycles, from which every list operation follows.
  // ---------------------------------------------------------------------------

  /** Unlinking the element at position `k >= 1` of a cycle closes the gap. */
  lemma RingRemove(c: Chain, r: seq<Handle>, k: nat)
    requires RingIs(c, r) && 1 <= k < |r|
    ensures RingIs(Unlink(c, r[k]), r[..k] + r[k + 1..])
    ensures SelfLoop(Unlink(c, r[k]), r[k])
  {
    var u := Unlink(c, r[k]);
    var s := r[..k] + r[k + 1..];
    var x, p := r[k], r[k - 1];
    var n := if k + 1 < |r| then r[k + 1] else r[0];
    assert c.next[x] == n && c.prev[x] == p;
    assert u.next[p] == n && u.prev[n] == p;
    assert forall i :: 0 <= i < k ==> s[i] == r[i];
    assert forall i :: k <= i < |s| ==> s[i] == r[i + 1];
    forall i | 0 <= i < |s| ensures Has(u, s[i]) && s[i] != x {
      if i < k {
        assert s[i] == r[i];
      } else {
        assert s[i] == r[i + 1];
      }
    }
    forall i | 0 <= i < |s| - 1
      ensures u.next[s[i]] == s[i + 1] && u.prev[s[i + 1]] == s[i]
    {
      if i < k - 1 {
        assert s[i] == r[i] && s[i + 1] == r[i + 1];
        assert r[i] != p && r[i + 1] != n;
      } else if i == k - 1 {
        assert s[i] == p && s[i + 1] == n;
      } else {
        assert s[i] == r[i + 1] && s[i + 1] == r[i + 2];
        assert r[i + 1] != p && r[i + 2] != n;
      }
    }
    assert s[0] == r[0];
    if k == |r| - 1 {
      assert s[|s| - 1] == p;
    } else {
      assert s[|s| - 1] == r[|r| - 1];
      assert r[|r| - 1] != p && r[0] != n;
    }
    forall i, j | 0 <= i < j < |s| ensures s[i] != s[j] {
      var i', j' := if i < k then i else i + 1, if j < k then j else j + 1;
      assert s[i] == r[i'] && s[j] == r[j'];
    }
  }

  /** A cycle survives any change that leaves its own links' pointers alone. */
  lemma RingFrame(c: Chain, u: Chain, r: seq<Handle>)
    requires RingIs(c, r)
    requires forall h :: h in r ==> Has(u, h) && u.next[h] == c.next[h] && u.prev[h] == c.prev[h]
    ensures RingIs(u, r)
  {
    assert forall i :: 0 <= i < |r| ==> r[i] in r;
  }

  /** Unlinking a link that is not on a cycle leaves the cycle as it was. */
  lemma RingOutside(c: Chain, r: seq<Handle>, x: Handle)
    requires RingIs(c, r) && Links.Anchored(c, x) && x !in r
    ensures RingIs(Unlink(c, x), r)
  {
    var p, n := c.prev[x], c.next[x];
    forall i | 0 <= i < |r| ensures r[i] != p && r[i] != n {
      var j, j' := if i < |r| - 1 then i + 1 else 0, if i > 0 then i - 1 else |r| - 1;
      assert c.next[r[i]] == r[j] && c.prev[r[i]] == r[j'];
    }
    RingFrame(c, Unlink(c, x), r);
  }

  /** Splicing a lone link after position `k` of a cycle inserts it there. */
  lemma RingSplice(c: Chain, r: seq<Handle>, k: nat, x: Handle)
    requires RingIs(c, r) && k < |r| && SelfLoop(c, x) && x !in r
    ensures RingIs(SpliceAfter(c, r[k], x), r[..k + 1] + [x] + r[k + 1..])
  {
    var u := SpliceAfter(c, r[k], x);
    var s := r[..k + 1] + [x] + r[k + 1..];
    var tn := if k + 1 < |r| then r[k + 1] else r[0];
    assert c.next[r[k]] == tn;
    assert forall i :: 0 <= i <= k ==> s[i] == r[i];
    assert s[k + 1] == x;
    assert forall i :: k + 2 <= i < |s| ==> s[i] == r[i - 1];
    forall i | 0 <= i < |s| ensures Has(u, s[i]) {
      if i <= k {
        assert s[i] == r[i];
      } else if i > k + 1 {
        assert s[i] == r[i - 1];
      }
    }
    forall i | 0 <= i < |s| - 1
      ensures u.next[s[i]] == s[i + 1] && u.prev[s[i + 1]] == s[i]
    {
      if i < k {
        assert s[i] == r[i] && s[i + 1] == r[i + 1];
        assert r[i + 1] != tn;
      } else if i == k {
      } else if i == k + 1 {
        assert s[i + 1] == r[k + 1];
      } else {
        assert s[i] == r[i - 1] && s[i + 1] == r[i];
        assert r[i] != tn;
      }
    }
    forall i, j | 0 <= i < j < |s| ensures s[i] != s[j] {
      if i != k + 1 && j != k + 1 {
        var i', j' := if i <= k then i else i - 1, if j <= k then j else j - 1;
        assert s[i] == r[i'] && s[j] == r[j'];
      }
    }
  }

  /** Dropping a handle that is not on a cycle from the field leaves the cycle. */
  lemma RingDrop(c: Chain, r: seq<Handle>, x: Handle)
    requires RingIs(c, r) && x !in r
    ensures RingIs(Chain(c.next - {x}, c.prev - {x}), r)
  {
  }

  /**
   * Inserting a link that is not on the list after position `k` of the
   * cycle (`k == 0` is the sentinel) puts it at index `k` of the contents.
   */
  lemma InsertAfterRing(c: Chain, s: Handle, xs: seq<Handle>, k: nat, x: Handle)
    requires Valid(c) && ListIs(c, s, xs) && Has(c, x) && x != s && x !in xs && k <= |xs|
    ensures ListIs(Links.InsertAfter(c, ([s] + xs)[k], x), s, xs[..k] + [x] + xs[k..])
    ensures Valid(Links.InsertAfter(c, ([s] + xs)[k], x))
  {
    var r := [s] + xs;
    assert x !in r;
    assert RingIs(Unlink(c, x), r) by {
      ValidAnchored(c, x);
      RingOutside(c, r, x);
    }
    SameSpliceAfterUnlink(c, r[k], x);
    RingSplice(Unlink(c, x), r, k, x);
    ConsInsert(s, xs, k, x);
    InsertAfterValid(c, r[k], x);
  }

  /** Inserting into `[s] + xs` after position `k` is inserting into `xs` at `k`. */
  lemma ConsInsert(s: Handle, xs: seq<Handle>, k: nat, x: Handle)
    requires k <= |xs|
    ensures ([s] + xs)[..k + 1] + [x] + ([s] + xs)[k + 1..] == [s] + (xs[..k] + [x] + xs[k..])
  {
    assert ([s] + xs)[..k + 1] == [s] + xs[..k];
    assert ([s] + xs)[k + 1..] == xs[k..];
  }

  /**
   * Inserting a link that is not on the cycle before position `j` is the same
   * as inserting it after the position that precedes `j`.
   */
  lemma InsertBeforeRing(c: Chain, r: seq<Handle>, j: nat, x: Handle)
    requires Anchored(c, x) && RingIs(c, r) && x !in r && j < |r|
    ensures Links.InsertBefore(c, r[j], x) == Links.InsertAfter(c, r[if j == 0 then |r| - 1 else j - 1], x)
  {
    var u := Unlink(c, x);
    var pj := if j == 0 then |r| - 1 else j - 1;
    RingOutside(c, r, x);
    assert u.prev[r[j]] == r[pj];
    SameSpliceBeforeUnlink(c, r[j], x);
    SameSpliceAfterUnlink(c, r[pj], x);
    SpliceBeforeIsAfterPrev(u, r[j], x);
  }

  // ---------------------------------------------------------------------------
  // The list operations.
  // ---------------------------------------------------------------------------

  /** `isEmpty`: the sentinel's `next(offset)` is null. */
  function IsEmpty(c: Chain, s: Handle): bool
    requires Has(c, s)
  {
    Links.Next(c, s) == None
  }

  /** `head`: the owner after the sentinel, or null when that is the sentinel. */
  function Head(c: Chain, s: Handle): Option<Handle>
    requires Has(c, s)
  {
    var n := c.next[s];
    if n == s then None else Some(n)
  }

  /** `tail`: the owner before the sentinel, or null when that is the sentinel. */
  function Tail(c: Chain, s: Handle): Option<Handle>
    requires Has(c, s)
  {
    var p := c.prev[s];
    if p == s then None else Some(p)
  }

  /** `next(node)`: null for a null node or for the last node. */
  function NextOf(c: Chain, s: Handle, node: Option<Handle>): Option<Handle>
    requires node.Some? ==> Has(c, node.value)
  {
    match node
    case None => None
    case Some(h) => if c.next[h] == s then None else Some(c.next[h])
  }

  /** `prev(node)`: null for a null node or for the first node. */
  function PrevOf(c: Chain, s: Handle, node: Option<Handle>): Option<Handle>
    requires node.Some? ==> Has(c, node.value)
  {
    match node
    case None => None
    case Some(h) => if c.prev[h] == s then None else Some(c.prev[h])
  }

  /** `insertHead`: the node goes right after the sentinel. */
  function InsertHead(c: Chain, s: Handle, x: Handle): Chain
    requires Has(c, s) && Has(c, x)
  {
    Links.InsertAfter(c, s, x)
  }

  /** `insertTail`: the node goes right before the sentinel. */
  function InsertTail(c: Chain, s: Handle, x: Handle): Chain
    requires Has(c, s) && Has(c, x)
  {
    Links.InsertBefore(c, s, x)
  }

  /** `insertBefore(node, before)`: a null `before` means the tail. */
  function InsertBeforeNode(c: Chain, s: Handle, x: Handle, before: Option<Handle>): Chain
    requires Has(c, s) && Has(c, x) && (before.Some? ==> Has(c, before.value))
  {
    match before
    case None => Links.InsertBefore(c, s, x)
    case Some(b) => Links.InsertBefore(c, b, x)
  }

  /** `insertAfter(node, after)`: a null `after` also means the tail. */
  function InsertAfterNode(c: Chain, s: Handle, x: Handle, after: Option<Handle>): Chain
    requires Has(c, s) && Has(c, x) && (after.Some? ==> Has(c, after.value))
  {
    match after
    case None => Links.InsertBefore(c, s, x)
    case Some(a) => Links.InsertAfter(c, a, x)
  }

  /** The queries read the contents: emptiness, the ends, and neighbours. */
  lemma QueriesRead(c: Chain, s: Handle, xs: seq<Handle>)
    requires ListIs(c, s, xs)
    ensures Has(c, s)
    ensures IsEmpty(c, s) <==> xs == []
    ensures Head(c, s) == if xs == [] then None else Some(xs[0])
    ensures Tail(c, s) == if xs == [] then None else Some(xs[|xs| - 1])
  {
    var r := [s] + xs;
    assert r[0] == s;
    if xs != [] {
      assert r[1] == xs[0] && r[|r| - 1] == xs[|xs| - 1];
      assert r[1] != s;
    }
  }

  /** `next` and `prev` of the `i`-th node step along the contents and stop at the ends. */
  lemma NeighboursRead(c: Chain, s: Handle, xs: seq<Handle>, i: nat)
    requires ListIs(c, s, xs) && i < |xs|
    ensures Has(c, xs[i])
    ensures NextOf(c, s, Some(xs[i])) == if i + 1 < |xs| then Some(xs[i + 1]) else None
    ensures PrevOf(c, s, Some(xs[i])) == if i > 0 then Some(xs[i - 1]) else None
  {
    var r := [s] + xs;
    assert r[i + 1] == xs[i];
    if i + 1 < |xs| {
      assert r[i + 2] == xs[i + 1] && r[i + 2] != r[0];
    }
    if i > 0 {
      assert r[i] == xs[i - 1] && r[i] != r[0];
    }
  }

  /** `insertHead` of a node not on the list makes it the new head. */
  lemma InsertHeadPrepends(c: Chain, s: Handle, xs: seq<Handle>, x: Handle)
    requires Valid(c) && ListIs(c, s, xs) && Has(c, x) && x != s && x !in xs
    ensures ListIs(InsertHead(c, s, x), s, [x] + xs) && Valid(InsertHead(c, s, x))
  {
    InsertAfterRing(c, s, xs, 0, x);
    assert xs[..0] + [x] + xs[0..] == [x] + xs;
  }

  /** `insertHead` of each of `ns` in turn, first to last. */
  function InsertHeads(c: Chain, s: Handle, ns: seq<Handle>): (r: Chain)
    requires Has(c, s) && forall k :: 0 <= k < |ns| ==> Has(c, ns[k])
    ensures forall g :: Has(c, g) ==> Has(r, g)
    decreases |ns|
  {
    if ns == [] then c
    else
      var c1 := InsertHead(c, s, ns[0]);
      assert forall k :: 0 <= k < |ns[1..]| ==> Has(c1, ns[1..][k]) by {
        forall k | 0 <= k < |ns[1..]| ensures Has(c1, ns[1..][k]) {
          assert ns[1..][k] == ns[k + 1];
        }
      }
      InsertHeads(c1, s, ns[1..])
  }

  function Reversed(ns: seq<Handle>): (r: seq<Handle>)
    ensures |r| == |ns| && forall k :: 0 <= k < |ns| ==> r[k] == ns[|ns| - 1 - k]
  {
    if ns == [] then [] else Reversed(ns[1..]) + [ns[0]]
  }

  /** After the first node goes in, the others are still fresh for the longer list. */
  lemma FreshTail(c: Chain, c1: Chain, s: Handle, xs: seq<Handle>, ns: seq<Handle>)
    requires |ns| > 0 && forall g :: Has(c, g) ==> Has(c1, g)
    requires forall k :: 0 <= k < |ns| ==> Has(c, ns[k]) && ns[k] != s && ns[k] !in xs
    requires Distinct(ns)
    ensures forall k :: 0 <= k < |ns[1..]| ==> Has(c1, ns[1..][k]) && ns[1..][k] != s && ns[1..][k] !in [ns[0]] + xs
  {
    forall k | 0 <= k < |ns[1..]|
      ensures Has(c1, ns[1..][k]) && ns[1..][k] != s && ns[1..][k] !in [ns[0]] + xs
    {
      assert ns[1..][k] == ns[k + 1];
    }
  }

  lemma ReversedCons(ns: seq<Handle>, xs: seq<Handle>)
    requires ns != []
    ensures Reversed(ns[1..]) + ([ns[0]] + xs) == Reversed(ns) + xs
  {
    var a := Reversed(ns[1..]);
    assert Reversed(ns) == a + [ns[0]];
    AppendAssoc(a, [ns[0]], xs);
  }

  lemma AppendAssoc(a: seq<Handle>, b: seq<Handle>, c: seq<Handle>)
    ensures a + (b + c) == (a + b) + c
  {
  }

  lemma ReversedThree(n1: Handle, n2: Handle, n3: Handle)
    ensures Reversed([n3, n2, n1]) + [] == [n1, n2, n3]
  {
    var ns := [n3, n2, n1];
    assert ns[1..] == [n2, n1] && ns[1..][1..] == [n1] && [n1][1..] == [];
  }

  /**
   * Inserting fresh distinct nodes at the head one after another lists
   * them in reverse order of insertion, before the old contents.
   */
  lemma {:induction false} InsertHeadsReverse(c: Chain, s: Handle, xs: seq<Handle>, ns: seq<Handle>)
    requires Valid(c) && ListIs(c, s, xs)
    requires forall k :: 0 <= k < |ns| ==> Has(c, ns[k]) && ns[k] != s && ns[k] !in xs
    requires Distinct(ns)
    ensures Has(c, s)
    ensures Valid(InsertHeads(c, s, ns)) && ListIs(InsertHeads(c, s, ns), s, Reversed(ns) + xs)
    decreases |ns|
  {
    assert ([s] + xs)[0] == s;
    if ns != [] {
      var x := ns[0];
      InsertHeadPrepends(c, s, xs, x);
      var c1 := InsertHead(c, s, x);
      FreshTail(c, c1, s, xs, ns);
      assert Distinct(ns[1..]) by {
        forall i, j | 0 <= i < j < |ns[1..]| ensures ns[1..][i] != ns[1..][j] {
          assert ns[1..][i] == ns[i + 1] && ns[1..][j] == ns[j + 1];
        }
      }
      InsertHeadsReverse(c1, s, [x] + xs, ns[1..]);
      assert InsertHeads(c, s, ns) == InsertHeads(c1, s, ns[1..]);
      ReversedCons(ns, xs);
    } else {
      assert Reversed(ns) + xs == xs;
    }
  }

  /**
   * Three `insertHead`s on an empty list, `n3` then `n2` then `n1`: the list
   * reads `n1, n2, n3`.
   */
  lemma InsertHeadThree(c: Chain, s: Handle, n1: Handle, n2: Handle, n3: Handle)
    requires Valid(c) && ListIs(c, s, [])
    requires Has(c, n1) && Has(c, n2) && Has(c, n3)
    requires s !in {n1, n2, n3} && n1 != n2 && n2 != n3 && n1 != n3
    ensures Has(c, s)
    ensures ListIs(InsertHeads(c, s, [n3, n2, n1]), s, [n1, n2, n3])
  {
    var ns := [n3, n2, n1];
    assert ns[0] == n3 && ns[1] == n2 && ns[2] == n1;
    assert Distinct(ns);
    InsertHeadsReverse(c, s, [], ns);
    ReversedThree(n1, n2, n3);
  }

  /** `insertTail` of a node not on the list makes it the new tail. */
  lemma InsertTailAppends(c: Chain, s: Handle, xs: seq<Handle>, x: Handle)
    requires Valid(c) && ListIs(c, s, xs) && Has(c, x) && x != s && x !in xs
    ensures ListIs(InsertTail(c, s, x), s, xs + [x]) && Valid(InsertTail(c, s, x))
  {
    var r := [s] + xs;
    ValidAnchored(c, x);
    InsertBeforeRing(c, r, 0, x);
    InsertAfterRing(c, s, xs, |xs|, x);
    assert xs[..|xs|] + [x] + xs[|xs|..] == xs + [x];
  }

  /**
   * `insertBefore(node, before)` of a node not on the list: before the `i`-th
   * node, or at the tail when `before` is null.
   */
  lemma InsertBeforeNodePlaces(c: Chain, s: Handle, xs: seq<Handle>, x: Handle, before: Option<Handle>, i: nat)
    requires Valid(c) && ListIs(c, s, xs) && Has(c, x) && x != s && x !in xs
    requires before == None || (i < |xs| && before == Some(xs[i]))
    ensures Has(c, s) && (before.Some? ==> Has(c, before.value))
    ensures ListIs(InsertBeforeNode(c, s, x, before), s, if before == None then xs + [x] else xs[..i] + [x] + xs[i..])
    ensures Valid(InsertBeforeNode(c, s, x, before))
  {
    var r := [s] + xs;
    assert r[0] == s;
    if before == None {
      InsertTailAppends(c, s, xs, x);
    } else {
      assert r[i + 1] == xs[i];
      ValidAnchored(c, x);
      InsertBeforeRing(c, r, i + 1, x);
      InsertAfterRing(c, s, xs, i, x);
    }
  }

  /**
   * `insertAfter(node, after)` of a node not on the list: after the `i`-th
   * node, or at the tail when `after` is null.
   */
  lemma InsertAfterNodePlaces(c: Chain, s: Handle, xs: seq<Handle>, x: Handle, after: Option<Handle>, i: nat)
    requires Valid(c) && ListIs(c, s, xs) && Has(c, x) && x != s && x !in xs
    requires after == None || (i < |xs| && after == Some(xs[i]))
    ensures Has(c, s) && (after.Some? ==> Has(c, after.value))
    ensures ListIs(InsertAfterNode(c, s, x, after), s, if after == None then xs + [x] else xs[..i + 1] + [x] + xs[i + 1..])
    ensures Valid(InsertAfterNode(c, s, x, after))
  {
    var r := [s] + xs;
    assert r[0] == s;
    if after == None {
      InsertTailAppends(c, s, xs, x);
    } else {
      assert r[i + 1] == xs[i];
      InsertAfterRing(c, s, xs, i + 1, x);
    }
  }

  /** Unlinking the head of a list leaves the rest of the contents. */
  lemma UnlinkHead(c: Chain, s: Handle, xs: seq<Handle>)
    requires ListIs(c, s, xs) && xs != []
    ensures Has(c, xs[0])
    ensures ListIs(Unlink(c, xs[0]), s, xs[1..])
    ensures c.next[s] == xs[0] && c.next[xs[0]] == if |xs| > 1 then xs[1] else s
  {
    var r := [s] + xs;
    assert r[1] == xs[0];
    assert |xs| > 1 ==> r[2] == xs[1];
    assert r[0] == s;
    RingRemove(c, r, 1);
    assert r[..1] + r[2..] == [s] + xs[1..];
  }

  /** The sentinel is never among the contents, and the contents are distinct. */
  lemma SentinelNotListed(c: Chain, s: Handle, xs: seq<Handle>)
    requires ListIs(c, s, xs)
    ensures s !in xs && Distinct(xs)
  {
    forall k | 0 <= k < |xs| ensures xs[k] != s {
      assert ([s] + xs)[k + 1] == xs[k] && ([s] + xs)[0] == s;
    }
    forall k, l | 0 <= k < l < |xs| ensures xs[k] != xs[l] {
      assert ([s] + xs)[k + 1] == xs[k] && ([s] + xs)[l + 1] == xs[l];
    }
  }

  /** A handle off a list is not its sentinel's neighbour. */
  lemma OffListNotNeighbour(c: Chain, s: Handle, xs: seq<Handle>, g: Handle)
    requires ListIs(c, s, xs) && xs != [] && g != s && g !in xs
    ensures Has(c, xs[0])
    ensures g != c.prev[xs[0]] && g != c.next[xs[0]]
  {
    UnlinkHead(c, s, xs);
    assert ([s] + xs)[1] == xs[0];
  }

  /** Other links of the field keep their pointers between `c` and `r`. */
  ghost predicate KeepsOthers(c: Chain, r: Chain, s: Handle, xs: seq<Handle>)
  {
    forall g :: Has(c, g) && g != s && g !in xs ==> Has(r, g) && r.next[g] == c.next[g] && r.prev[g] == c.prev[g]
  }

  /**
   * The state of `unlinkAll` after `i` rounds: the first `i` nodes are lone,
   * the rest are still listed, `link` is the next node to visit, and nothing
   * else changed.
   */
  ghost predicate UnlinkingFrom(c: Chain, r: Chain, s: Handle, xs: seq<Handle>, i: nat, link: Handle)
  {
    && i <= |xs|
    && Valid(r) && ListIs(r, s, xs[i..])
    && link == (if i < |xs| then xs[i] else s)
    && (forall j :: 0 <= j < i ==> SelfLoop(r, xs[j]))
    && KeepsOthers(c, r, s, xs)
  }

  /** One round of `unlinkAll`: the head is unlinked and everything else stays put. */
  lemma UnlinkAllStep(c: Chain, r: Chain, s: Handle, xs: seq<Handle>, i: nat, link: Handle)
    requires UnlinkingFrom(c, r, s, xs, i, link) && link != s
    ensures Has(r, link)
    ensures UnlinkingFrom(c, Unlink(r, link), s, xs, i + 1, r.next[link])
  {
    var tmp := xs[i];
    UnlinkHead(r, s, xs[i..]);
    assert xs[i..][1..] == xs[i + 1..];
    ValidAnchored(r, tmp);
    var u := Unlink(r, tmp);
    forall j | 0 <= j < i ensures SelfLoop(u, xs[j]) {
      UnlinkKeepsLone(r, tmp, xs[j]);
    }
    forall g | Has(c, g) && g != s && g !in xs
      ensures Has(u, g) && u.next[g] == c.next[g] && u.prev[g] == c.prev[g]
    {
      assert g !in xs[i..];
      OffListNotNeighbour(r, s, xs[i..], g);
      UnlinkFrame(r, tmp, g);
    }
    UnlinkValid(r, tmp);
  }

  /** `unlinkAll` starts from the head. */
  lemma UnlinkAllStart(c: Chain, s: Handle, xs: seq<Handle>)
    requires Valid(c) && ListIs(c, s, xs)
    ensures Has(c, s) && UnlinkingFrom(c, c, s, xs, 0, c.next[s])
  {
    if xs != [] {
      UnlinkHead(c, s, xs);
    } else {
      assert ([s] + xs)[0] == s;
    }
    assert xs[0..] == xs;
  }

  /** When the walk is back at the sentinel every node has been unlinked. */
  lemma UnlinkAllDone(c: Chain, r: Chain, s: Handle, xs: seq<Handle>, i: nat)
    requires UnlinkingFrom(c, r, s, xs, i, s)
    ensures Valid(r) && ListIs(r, s, [])
    ensures forall j :: 0 <= j < |xs| ==> SelfLoop(r, xs[j])
    ensures KeepsOthers(c, r, s, xs)
  {
    SentinelNotListed(r, s, xs[i..]);
    assert xs[i..] == [];
  }

  /**
   * `unlinkAll` (also `clear` and the destructor): walks the list from the
   * head, stepping past each node before unlinking it.
   */
  method UnlinkAll(c: Chain, s: Handle, ghost xs: seq<Handle>) returns (r: Chain)
    requires Valid(c) && ListIs(c, s, xs)
    ensures Valid(r) && ListIs(r, s, [])
    ensures forall j :: 0 <= j < |xs| ==> SelfLoop(r, xs[j])
    ensures KeepsOthers(c, r, s, xs)
  {
    UnlinkAllStart(c, s, xs);
    r := c;
    var link := c.next[s];
    ghost var i := 0;
    while link != s
      invariant UnlinkingFrom(c, r, s, xs, i, link)
      decreases |xs| - i
    {
      var tmp := link;
      UnlinkAllStep(c, r, s, xs, i, link);
      link := r.next[link];
      r := Unlink(r, tmp);
      i := i + 1;
    }
    UnlinkAllDone(c, r, s, xs, i);
  }

  /**
   * The state of `deleteAll` after `i` rounds: the first `i` owners are gone
   * from the field, the rest are still listed, and nothing else changed.
   */
  ghost predicate DeletingFrom(c: Chain, r: Chain, s: Handle, xs: seq<Handle>, i: nat, link: Handle)
  {
    && i <= |xs|
    && Valid(r) && ListIs(r, s, xs[i..])
    && link == (if i < |xs| then xs[i] else s)
    && (forall j :: 0 <= j < i ==> !Has(r, xs[j]))
    && KeepsOthers(c, r, s, xs)
  }

  /** Destroying the head's owner leaves the rest listed. */
  lemma DestroyHead(r: Chain, s: Handle, ys: seq<Handle>)
    requires Valid(r) && ListIs(r, s, ys) && ys != []
    ensures Has(r, ys[0])
    ensures Valid(Destroy(r, ys[0])) && ListIs(Destroy(r, ys[0]), s, ys[1..])
  {
    var tmp := ys[0];
    UnlinkHead(r, s, ys);
    SentinelNotListed(r, s, ys);
    assert tmp !in [s] + ys[1..];
    RingDrop(Unlink(r, tmp), [s] + ys[1..], tmp);
    DestroyValid(r, tmp);
  }

  /** Destroying the head's owner leaves every link off the list alone. */
  lemma DestroyHeadFrame(r: Chain, s: Handle, ys: seq<Handle>)
    requires Valid(r) && ListIs(r, s, ys) && ys != []
    ensures Has(r, ys[0])
    ensures forall g :: Has(Destroy(r, ys[0]), g) ==> Has(r, g)
    ensures forall g :: Has(r, g) && g != s && g !in ys ==>
      Has(Destroy(r, ys[0]), g) && Destroy(r, ys[0]).next[g] == r.next[g] && Destroy(r, ys[0]).prev[g] == r.prev[g]
  {
    var tmp := ys[0];
    UnlinkHead(r, s, ys);
    ValidAnchored(r, tmp);
    forall g ensures Has(Destroy(r, tmp), g) ==> Has(r, g) {
      DestroyFrame(r, tmp, g);
    }
    forall g | Has(r, g) && g != s && g !in ys
      ensures Has(Destroy(r, tmp), g) && Destroy(r, tmp).next[g] == r.next[g] && Destroy(r, tmp).prev[g] == r.prev[g]
    {
      OffListNotNeighbour(r, s, ys, g);
      DestroyFrame(r, tmp, g);
    }
  }

  /** One round of `deleteAll`: the head's owner is destroyed. */
  lemma DeleteAllStep(c: Chain, r: Chain, s: Handle, xs: seq<Handle>, i: nat, link: Handle)
    requires DeletingFrom(c, r, s, xs, i, link) && link != s
    ensures Has(r, link)
    ensures DeletingFrom(c, Destroy(r, link), s, xs, i + 1, r.next[link])
  {
    UnlinkHead(r, s, xs[i..]);
    assert xs[i..][1..] == xs[i + 1..];
    DestroyHead(r, s, xs[i..]);
    DestroyHeadFrame(r, s, xs[i..]);
    forall g | Has(c, g) && g != s && g !in xs ensures g !in xs[i..] {
    }
  }

  /** `deleteAll` starts from the head. */
  lemma DeleteAllStart(c: Chain, s: Handle, xs: seq<Handle>)
    requires Valid(c) && ListIs(c, s, xs)
    ensures Has(c, s) && DeletingFrom(c, c, s, xs, 0, c.next[s])
  {
    UnlinkAllStart(c, s, xs);
  }

  /** When the walk is back at the sentinel every owner has been destroyed. */
  lemma DeleteAllDone(c: Chain, r: Chain, s: Handle, xs: seq<Handle>, i: nat)
    requires DeletingFrom(c, r, s, xs, i, s)
    ensures Valid(r) && ListIs(r, s, [])
    ensures forall j :: 0 <= j < |xs| ==> !Has(r, xs[j])
    ensures KeepsOthers(c, r, s, xs)
  {
    SentinelNotListed(r, s, xs[i..]);
    assert xs[i..] == [];
  }

  /**
   * `deleteAll`: walks the list from the head, stepping past each node before
   * deleting its owner, whose destructor unlinks it.
   */
  method DeleteAll(c: Chain, s: Handle, ghost xs: seq<Handle>) returns (r: Chain)
    requires Valid(c) && ListIs(c, s, xs)
    ensures Valid(r) && ListIs(r, s, [])
    ensures forall j :: 0 <= j < |xs| ==> !Has(r, xs[j])
    ensures KeepsOthers(c, r, s, xs)
  {
    DeleteAllStart(c, s, xs);
    r := c;
    var link := c.next[s];
    ghost var i := 0;
    while link != s
      invariant DeletingFrom(c, r, s, xs, i, link)
      decreases |xs| - i
    {
      var tmp := link;
      DeleteAllStep(c, r, s, xs, i, link);
      link := r.next[link];
      r := Destroy(r, tmp);
      i := i + 1;
    }
    DeleteAllDone(c, r, s, xs, i);
  }

  // ---------------------------------------------------------------------------
  // ListIterator.
  // ---------------------------------------------------------------------------

  /**
   * A list iterator: the sentinel it walks from, the field's offset, and the
   * current owner (null at the end).
   */
  datatype ListIterator = ListIterator(start: Handle, offset: nat, item: Option<Handle>)

  /** `begin()`: at the head, which is null for an empty list. */
  function Begin(c: Chain, s: Handle, offset: nat): ListIterator
    requires Has(c, s)
  {
    ListIterator(s, offset, Head(c, s))
  }

  /** `end()`: the null item. */
  function End(s: Handle, offset: nat): ListIterator
  {
    ListIterator(s, offset, None)
  }

  /** `operator++`: step to `next`, becoming null at the sentinel; the end stays put. */
  function Increment(c: Chain, it: ListIterator): ListIterator
    requires it.item.Some? ==> Has(c, it.item.value)
  {
    match it.item
    case None => it
    case Some(h) =>
      var n := c.next[h];
      it.(item := if n != it.start then Some(n) else None)
  }

  /** `operator--`: step to `prev`; from the end that is the tail; null at the sentinel. */
  function Decrement(c: Chain, it: ListIterator): ListIterator
    requires Has(c, it.start) && (it.item.Some? ==> Has(c, it.item.value))
  {
    var p := match it.item case Some(h) => c.prev[h] case None => c.prev[it.start];
    it.(item := if p != it.start then Some(p) else None)
  }

  /** `operator==`: the same item at the same offset; the start link is not compared. */
  predicate SameIterator(a: ListIterator, b: ListIterator)
  {
    a.item == b.item && a.offset == b.offset
  }

  /** The iterator standing at index `i` of the contents; index `|xs|` is the end. */
  function At(s: Handle, offset: nat, xs: seq<Handle>, i: nat): ListIterator
    requires i <= |xs|
  {
    ListIterator(s, offset, if i < |xs| then Some(xs[i]) else None)
  }

  /**
   * `begin` and `end` are the first and last positions, `++` moves one place
   * forward and stops at the end, and `--` moves one place back, from the end
   * to the tail and from the head to the end.
   */
  lemma IteratorMoves(c: Chain, s: Handle, xs: seq<Handle>, offset: nat, i: nat)
    requires ListIs(c, s, xs) && i <= |xs|
    ensures Has(c, s) && (i < |xs| ==> Has(c, xs[i]))
    ensures Begin(c, s, offset) == At(s, offset, xs, 0)
    ensures End(s, offset) == At(s, offset, xs, |xs|)
    ensures Increment(c, At(s, offset, xs, i)) == At(s, offset, xs, if i < |xs| then i + 1 else i)
    ensures Decrement(c, At(s, offset, xs, i)) == At(s, offset, xs, if i > 0 then i - 1 else |xs|)
  {
    QueriesRead(c, s, xs);
    if i < |xs| {
      NeighboursRead(c, s, xs, i);
    }
  }

  /** Two iterators over the same list compare equal exactly when they stand at the same index. */
  lemma SameIteratorIsSameIndex(c: Chain, s: Handle, xs: seq<Handle>, offset: nat, i: nat, j: nat)
    requires ListIs(c, s, xs) && i <= |xs| && j <= |xs|
    ensures SameIterator(At(s, offset, xs, i), At(s, offset, xs, j)) <==> i == j
  {
    SentinelNotListed(c, s, xs);
  }

  /** The owners met by stepping forward from `it` at most `n` times, until the end. */
  ghost function Walk(c: Chain, it: ListIterator, n: nat): seq<Handle>
    requires Valid(c) && (it.item.Some? ==> Has(c, it.item.value))
    decreases n
  {
    if n == 0 || it.item == None then [] else [it.item.value] + Walk(c, Increment(c, it), n - 1)
  }

  /** Walking forward from index `i` meets the rest of the contents, in order, then stops. */
  lemma {:induction false} WalkVisits(c: Chain, s: Handle, xs: seq<Handle>, offset: nat, i: nat, n: nat)
    requires Valid(c) && ListIs(c, s, xs) && i <= |xs| && n >= |xs| - i
    ensures i < |xs| ==> Has(c, xs[i])
    ensures Walk(c, At(s, offset, xs, i), n) == xs[i..]
    decreases n
  {
    IteratorMoves(c, s, xs, offset, i);
    if i < |xs| {
      WalkVisits(c, s, xs, offset, i + 1, n - 1);
      assert xs[i..] == [xs[i]] + xs[i + 1..];
    }
  }

  /** A loop from `begin()` to `end()` visits exactly the contents, head first. */
  lemma ForwardIteration(c: Chain, s: Handle, xs: seq<Handle>, offset: nat)
    requires Valid(c) && ListIs(c, s, xs)
    ensures Has(c, s) && Walk(c, Begin(c, s, offset), |xs|) == xs
  {
    IteratorMoves(c, s, xs, offset, 0);
    WalkVisits(c, s, xs, offset, 0, |xs|);
  }
}
