/**
 * The intrusive `Link<T>` node: a circular doubly-linked cell embedded in an
 * owning object (intrusive_containers.h and its older copy
 * GaLib/include/galib/intrusive/link.h, which has the same code).
 *
 * Objects live in an arena and are named by handles. One embedded Link field
 * of every object is modelled by a `Chain`: the `m_next` and `m_prev` pointers
 * of that field, keyed by the owner's handle. A container's sentinel link is a
 * handle of the same chain. The pointer-offset conversion between a link and
 * its owner (`getLink`/`getData`/`owner`) is the identity on handles.
 */
module Links {
  import opened Maybe

  type Handle = nat

  datatype Chain = Chain(next: map<Handle, Handle>, prev: map<Handle, Handle>)

  /** `h` owns a link in this field. */
  predicate Has(c: Chain, h: Handle)
  {
    h in c.next && h in c.prev
  }

  /** Every chain of the field is a cycle: `prev` is exactly the inverse of `next`. */
  ghost predicate Valid(c: Chain)
  {
    && c.next.Keys == c.prev.Keys
    && NextInverted(c)
    && PrevInverted(c)
  }

  /** The neighbours of `h` point back at it, as they do in a valid field. */
  predicate Anchored(c: Chain, h: Handle)
  {
    && Has(c, h) && Has(c, c.prev[h]) && Has(c, c.next[h])
    && c.next[c.prev[h]] == h && c.prev[c.next[h]] == h
  }

  /** The rest state of a link: it points to itself both ways. */
  predicate SelfLoop(c: Chain, h: Handle)
  {
    Has(c, h) && c.next[h] == h && c.prev[h] == h
  }

  /** `Link::Link()`: a newly constructed link is a self-loop. */
  function Construct(c: Chain, h: Handle): (r: Chain)
    requires h !in c.next && h !in c.prev
    ensures SelfLoop(r, h) && !IsLinked(r, h)
  {
    Chain(c.next[h := h], c.prev[h := h])
  }

  /** `isLinked`: the link differs from its rest state. */
  predicate IsLinked(c: Chain, h: Handle)
    requires Has(c, h)
  {
    c.next[h] != h
  }

  /**
   * `removeFromList`: the neighbours of `h` are joined; `h`'s own pointers are
   * left as they were.
   */
  function RemoveFromList(c: Chain, h: Handle): (r: Chain)
    requires Has(c, h)
    ensures forall g :: Has(c, g) ==> Has(r, g)
  {
    var n := c.next[h];
    var p := c.prev[h];
    Chain(c.next[p := n], c.prev[n := p])
  }

  /** `unlink`: detach from the current chain and return to the rest state. */
  function Unlink(c: Chain, h: Handle): (r: Chain)
    requires Has(c, h)
    ensures SelfLoop(r, h)
    ensures forall g :: Has(c, g) ==> Has(r, g)
  {
    var c1 := RemoveFromList(c, h);
    Chain(c1.next[h := h], c1.prev[h := h])
  }

  /**
   * The splice half of `insertAfter`: `link` is put between `anchor` and the
   * link that currently follows it.
   */
  function SpliceAfter(c: Chain, anchor: Handle, link: Handle): (r: Chain)
    requires Has(c, anchor)
    ensures forall g :: Has(c, g) ==> Has(r, g)
    ensures Has(r, link)
  {
    var tn := c.next[anchor];
    var c1 := Chain(c.next[link := tn], c.prev[link := anchor]);
    var c2 := Chain(c1.next, c1.prev[tn := link]);
    Chain(c2.next[anchor := link], c2.prev)
  }

  /**
   * The splice half of `insertBefore`: `link` is put between the link that
   * currently precedes `anchor` and `anchor`.
   */
  function SpliceBefore(c: Chain, anchor: Handle, link: Handle): (r: Chain)
    requires Has(c, anchor)
    ensures forall g :: Has(c, g) ==> Has(r, g)
    ensures Has(r, link)
  {
    var tp := c.prev[anchor];
    var c1 := Chain(c.next[link := anchor], c.prev[link := tp]);
    var c2 := Chain(c1.next[tp := link], c1.prev);
    Chain(c2.next, c2.prev[anchor := link])
  }

  /** `insertAfter(link)`: detach `link` from its chain, then splice it after `anchor`. */
  function InsertAfter(c: Chain, anchor: Handle, link: Handle): (r: Chain)
    requires Has(c, anchor) && Has(c, link)
    ensures forall g :: Has(c, g) ==> Has(r, g)
  {
    var c1 := RemoveFromList(c, link);
    SpliceAfter(c1, anchor, link)
  }

  /** `insertBefore(link)`: detach `link` from its chain, then splice it before `anchor`. */
  function InsertBefore(c: Chain, anchor: Handle, link: Handle): (r: Chain)
    requires Has(c, anchor) && Has(c, link)
    ensures forall g :: Has(c, g) ==> Has(r, g)
  {
    var c1 := RemoveFromList(c, link);
    SpliceBefore(c1, anchor, link)
  }

  /** `next(offset)`: the following owner, or null when the link is alone. */
  function Next(c: Chain, h: Handle): (r: Option<Handle>)
    requires Has(c, h)
    ensures r == None <==> !IsLinked(c, h)
    ensures r.Some? ==> r.value == c.next[h]
  {
    if c.next[h] == h then None else Some(c.next[h])
  }

  /** `prev(offset)`: the preceding owner, or null when the link is alone. */
  function Prev(c: Chain, h: Handle): (r: Option<Handle>)
    requires Has(c, h)
    ensures r == None <==> c.prev[h] == h
    ensures r.Some? ==> r.value == c.prev[h]
  {
    if c.prev[h] == h then None else Some(c.prev[h])
  }

  /**
   * `Link::~Link()`: the owner is destroyed, its link is unlinked and the
   * handle leaves the field.
   */
  function Destroy(c: Chain, h: Handle): (r: Chain)
    requires Has(c, h)
    ensures !Has(r, h)
  {
    var c1 := Unlink(c, h);
    Chain(c1.next - {h}, c1.prev - {h})
  }

  /** `next` is inverted by `prev`. */
  ghost predicate NextInverted(c: Chain)
  {
    forall h :: h in c.next ==> c.next[h] in c.prev && c.prev[c.next[h]] == h
  }

  /** `prev` is inverted by `next`. */
  ghost predicate PrevInverted(c: Chain)
  {
    forall h :: h in c.prev ==> c.prev[h] in c.next && c.next[c.prev[h]] == h
  }

  /** A fresh link keeps every chain of the field a cycle. */
  lemma ConstructValid(c: Chain, h: Handle)
    requires Valid(c) && h !in c.next && h !in c.prev
    ensures Valid(Construct(c, h))
  {
    var r := Construct(c, h);
    assert r.next.Keys == c.next.Keys + {h};
    assert r.prev.Keys == c.prev.Keys + {h};
    ConstructNext(c, h);
    ConstructPrev(c, h);
  }

  lemma ConstructNext(c: Chain, h: Handle)
    requires Valid(c) && h !in c.next && h !in c.prev
    ensures NextInverted(Construct(c, h))
  {
    var r := Construct(c, h);
    forall g | g in r.next
      ensures r.next[g] in r.prev && r.prev[r.next[g]] == g
    {
      if g != h {
        assert c.next[g] != h;
      }
    }
  }

  lemma ConstructPrev(c: Chain, h: Handle)
    requires Valid(c) && h !in c.next && h !in c.prev
    ensures PrevInverted(Construct(c, h))
  {
    var r := Construct(c, h);
    forall g | g in r.prev
      ensures r.prev[g] in r.next && r.next[r.prev[g]] == g
    {
      if g != h {
        assert c.prev[g] != h;
      }
    }
  }

  /** `unlink` keeps every chain of the field a cycle and loses no link. */
  lemma UnlinkValid(c: Chain, h: Handle)
    requires Valid(c) && Has(c, h)
    ensures Valid(Unlink(c, h))
    ensures forall g :: Has(c, g) <==> Has(Unlink(c, h), g)
  {
    var r := Unlink(c, h);
    var n, p := c.next[h], c.prev[h];
    assert n == h <==> p == h;
    forall g | g in r.next
      ensures r.next[g] in r.prev && r.prev[r.next[g]] == g
    {
      if g != h && g != p {
        assert c.next[g] != h && c.next[g] != n;
      }
    }
    forall g | g in r.prev
      ensures r.prev[g] in r.next && r.next[r.prev[g]] == g
    {
      if g != h && g != n {
        assert c.prev[g] != h && c.prev[g] != p;
      }
    }
  }

  /** Removing `link` and splicing it after `anchor` keeps every chain a cycle. */
  lemma InsertAfterValid(c: Chain, anchor: Handle, link: Handle)
    requires Valid(c) && Has(c, anchor) && Has(c, link) && anchor != link
    ensures Valid(InsertAfter(c, anchor, link))
    ensures InsertAfter(c, anchor, link).next[anchor] == link
    ensures InsertAfter(c, anchor, link).prev[link] == anchor
  {
    UnlinkValid(c, link);
    SameSpliceAfterUnlink(c, anchor, link);
    SpliceAfterValid(Unlink(c, link), anchor, link);
  }

  /** Removing `link` and splicing it before `anchor` keeps every chain a cycle. */
  lemma InsertBeforeValid(c: Chain, anchor: Handle, link: Handle)
    requires Valid(c) && Has(c, anchor) && Has(c, link) && anchor != link
    ensures Valid(InsertBefore(c, anchor, link))
    ensures InsertBefore(c, anchor, link).prev[anchor] == link
    ensures InsertBefore(c, anchor, link).next[link] == anchor
  {
    UnlinkValid(c, link);
    SameSpliceBeforeUnlink(c, anchor, link);
    SpliceBeforeValid(Unlink(c, link), anchor, link);
  }

  /**
   * Once `link` is spliced elsewhere its stale pointers no longer matter:
   * splicing after `removeFromList` equals splicing after `unlink`.
   */
  lemma SameSpliceAfterUnlink(c: Chain, anchor: Handle, link: Handle)
    requires Has(c, anchor) && Has(c, link) && anchor != link
    ensures SpliceAfter(RemoveFromList(c, link), anchor, link) == SpliceAfter(Unlink(c, link), anchor, link)
  {
    var a, b := SpliceAfter(RemoveFromList(c, link), anchor, link), SpliceAfter(Unlink(c, link), anchor, link);
    assert a.next == b.next;
    assert a.prev == b.prev;
  }

  /** The `insertBefore` counterpart of `SameSpliceAfterUnlink`. */
  lemma SameSpliceBeforeUnlink(c: Chain, anchor: Handle, link: Handle)
    requires Has(c, anchor) && Has(c, link) && anchor != link
    ensures SpliceBefore(RemoveFromList(c, link), anchor, link) == SpliceBefore(Unlink(c, link), anchor, link)
  {
    var a, b := SpliceBefore(RemoveFromList(c, link), anchor, link), SpliceBefore(Unlink(c, link), anchor, link);
    assert a.next == b.next;
    assert a.prev == b.prev;
  }

  /** Splicing an unlinked link after `anchor` keeps every chain a cycle. */
  lemma SpliceAfterValid(c: Chain, anchor: Handle, link: Handle)
    requires Valid(c) && Has(c, anchor) && SelfLoop(c, link) && anchor != link
    ensures Valid(SpliceAfter(c, anchor, link))
    ensures SpliceAfter(c, anchor, link).next[anchor] == link
    ensures SpliceAfter(c, anchor, link).prev[link] == anchor
  {
    var r := SpliceAfter(c, anchor, link);
    var tn := c.next[anchor];
    assert tn != link;
    forall g | g in r.next
      ensures r.next[g] in r.prev && r.prev[r.next[g]] == g
    {
      if g != anchor && g != link {
        assert c.next[g] != tn && c.next[g] != link;
      }
    }
    forall g | g in r.prev
      ensures r.prev[g] in r.next && r.next[r.prev[g]] == g
    {
      if g != tn && g != link {
        assert c.prev[g] != anchor && c.prev[g] != link;
      }
    }
  }

  /** Splicing an unlinked link before `anchor` keeps every chain a cycle. */
  lemma SpliceBeforeValid(c: Chain, anchor: Handle, link: Handle)
    requires Valid(c) && Has(c, anchor) && SelfLoop(c, link) && anchor != link
    ensures Valid(SpliceBefore(c, anchor, link))
    ensures SpliceBefore(c, anchor, link).prev[anchor] == link
    ensures SpliceBefore(c, anchor, link).next[link] == anchor
  {
    SpliceBeforeIsAfterPrev(c, anchor, link);
    SpliceAfterValid(c, c.prev[anchor], link);
  }

  /** Destroying an owner keeps every chain of the field a cycle. */
  lemma DestroyValid(c: Chain, h: Handle)
    requires Valid(c) && Has(c, h)
    ensures Valid(Destroy(c, h))
  {
    UnlinkValid(c, h);
  }

  /** Every link of a valid field is anchored. */
  lemma ValidAnchored(c: Chain, h: Handle)
    requires Valid(c) && Has(c, h)
    ensures Anchored(c, h)
  {
  }

  /** Unlinking `h` touches nothing but `h` and its two neighbours. */
  lemma UnlinkFrame(c: Chain, h: Handle, g: Handle)
    requires Anchored(c, h) && Has(c, g) && g != h && g != c.prev[h] && g != c.next[h]
    ensures Has(Unlink(c, h), g)
    ensures Unlink(c, h).next[g] == c.next[g] && Unlink(c, h).prev[g] == c.prev[g]
  {
  }

  /** Destroying `h` touches nothing but `h` and its two neighbours, and adds no link. */
  lemma DestroyFrame(c: Chain, h: Handle, g: Handle)
    requires Anchored(c, h)
    ensures Has(Destroy(c, h), g) ==> Has(c, g)
    ensures Has(c, g) && g != h && g != c.prev[h] && g != c.next[h] ==>
      Has(Destroy(c, h), g) && Destroy(c, h).next[g] == c.next[g] && Destroy(c, h).prev[g] == c.prev[g]
  {
  }

  /** Unlinking `h` leaves every other lone link alone. */
  lemma UnlinkKeepsLone(c: Chain, h: Handle, g: Handle)
    requires Anchored(c, h) && SelfLoop(c, g) && g != h
    ensures SelfLoop(Unlink(c, h), g)
  {
    UnlinkFrame(c, h, g);
  }

  /** Unlinking twice leaves the same chain as unlinking once. */
  lemma UnlinkIdempotent(c: Chain, h: Handle)
    requires Has(c, h)
    ensures Unlink(Unlink(c, h), h) == Unlink(c, h)
  {
  }

  /** In a valid field a link's `next` is itself exactly when its `prev` is. */
  lemma LinkedEitherWay(c: Chain, h: Handle)
    requires Valid(c) && Has(c, h)
    ensures IsLinked(c, h) <==> c.prev[h] != h
  {
  }

  /** `insertBefore` is `insertAfter` at the link that precedes the anchor. */
  lemma SpliceBeforeIsAfterPrev(c: Chain, anchor: Handle, link: Handle)
    requires Has(c, anchor) && Has(c, c.prev[anchor])
    requires c.next[c.prev[anchor]] == anchor
    ensures SpliceBefore(c, anchor, link) == SpliceAfter(c, c.prev[anchor], link)
  {
  }
}
