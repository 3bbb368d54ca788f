/**
 * The parent/child tree of `GaObject` in GaLib/include/galib/util/object.h.
 * Objects live in an arena: a `Heap` maps each handle to the object's four
 * pointers, `None` standing for `NULL`. The children of an object hang off
 * its `firstChild` and are chained through `next` and `prev`.
 *
 * Two slips of the source are modelled both ways. `RemoveFromList` leaves
 * the removed object's own `next` and `prev` in place, and `removeChild`
 * sets `firstChild` to the removed child's successor whether or not that
 * child came first. `asWritten` selects the source's behaviour; otherwise
 * the own links are cleared and `firstChild` only moves on when the first
 * child leaves.
 */
module Objects {
  import opened Maybe

  type Handle = nat

  datatype GaObject = GaObject(firstChild: Option<Handle>, parent: Option<Handle>,
                               next: Option<Handle>, prev: Option<Handle>)

  /** The private constructor: all four pointers `NULL`. */
  const Detached := GaObject(None, None, None, None)

  type Heap = map<Handle, GaObject>

  /** `NULL`, or an object of the heap. */
  predicate Refers(h: Heap, o: Option<Handle>)
  {
    o.None? || o.value in h
  }

  /** Each pointer of `o` is `NULL` or one of the handles `ks`. */
  predicate Points(ks: set<Handle>, o: GaObject)
  {
    && (o.firstChild.None? || o.firstChild.value in ks)
    && (o.parent.None? || o.parent.value in ks)
    && (o.next.None? || o.next.value in ks)
    && (o.prev.None? || o.prev.value in ks)
  }

  /** No pointer leads out of the heap. */
  predicate Closed(h: Heap)
  {
    forall x :: x in h ==> Points(h.Keys, h[x])
  }

  /** `h` with object `y` replaced by `o`, whose pointers stay in the heap. */
  function Put(h: Heap, y: Handle, o: GaObject): (r: Heap)
    requires y in h && Closed(h)
    requires Points(h.Keys, o)
    ensures r.Keys == h.Keys && Closed(r)
    ensures r[y] == o && forall z :: z in h && z != y ==> r[z] == h[z]
  {
    h[y := o]
  }

  /** `hasChildren()`. */
  function HasChildren(h: Heap, x: Handle): bool
    requires x in h
  {
    h[x].firstChild != None
  }

  /**
   * Object `y` after `removeFromList()` on `x`, whose links were `n`: the
   * statements of the source each write one pointer of one object, so their
   * effect on `y` is each write aimed at `y`, in order.
   */
  function Unlinked(o: GaObject, y: Handle, x: Handle, n: GaObject, clear: bool): GaObject
  {
    var o1 := if n.next == Some(y) then o.(prev := n.prev) else o;
    var o2 := if n.prev == Some(y) then o1.(next := n.next) else o1;
    if clear && y == x then o2.(next := None, prev := None) else o2
  }

  /**
   * `removeFromList()`: the neighbours of `x` are linked to each other.
   * With `clear` the own links of `x` are also reset to `NULL`.
   */
  function RemoveFromList(h: Heap, x: Handle, clear: bool): (r: Heap)
    requires x in h && Closed(h)
    ensures r.Keys == h.Keys && Closed(r)
    ensures forall y :: y in h ==> r[y].parent == h[y].parent && r[y].firstChild == h[y].firstChild
    ensures h[x].prev.Some? && h[x].prev.value != x ==> r[h[x].prev.value].next == h[x].next
    ensures h[x].next.Some? && h[x].next.value != x ==> r[h[x].next.value].prev == h[x].prev
    ensures clear ==> r[x].next == None && r[x].prev == None
    ensures !clear && h[x].next != Some(x) && h[x].prev != Some(x) ==> r[x] == h[x]
    ensures forall y :: y in h && Some(y) != h[x].next && Some(y) != h[x].prev && y != x ==> r[y] == h[y]
  {
    var r := map y | y in h :: Unlinked(h[y], y, x, h[x], clear);
    UnlinkedFacts(h, x, clear, r);
    r
  }

  lemma UnlinkedFacts(h: Heap, x: Handle, clear: bool, r: Heap)
    requires x in h && Closed(h) && r == map y | y in h :: Unlinked(h[y], y, x, h[x], clear)
    ensures r.Keys == h.Keys && Closed(r)
    ensures forall y :: y in h ==> r[y].parent == h[y].parent && r[y].firstChild == h[y].firstChild
    ensures forall y :: y in h && Some(y) != h[x].next && Some(y) != h[x].prev && y != x ==> r[y] == h[y]
  {
    assert r.Keys == h.Keys;
    forall y | y in r
      ensures Points(r.Keys, r[y])
      ensures r[y].parent == h[y].parent && r[y].firstChild == h[y].firstChild
    {
      assert r[y] == Unlinked(h[y], y, x, h[x], clear);
      assert Points(h.Keys, h[y]) && Points(h.Keys, h[x]);
    }
  }

  /** An object with no neighbours leaves the heap as it was, unless its links are cleared. */
  lemma UnlinkDetached(h: Heap, x: Handle, clear: bool)
    requires x in h && Closed(h) && h[x].next == None && h[x].prev == None
    ensures RemoveFromList(h, x, clear) == h
  {
    var r := RemoveFromList(h, x, clear);
    assert r[x] == h[x];
  }

  /**
   * Object `y` after `insertInList(obj)` on `self`, once `obj` has left its
   * list: `nx` is what `self.next` then was.
   */
  function Spliced(o: GaObject, y: Handle, self: Handle, obj: Handle, nx: Option<Handle>): GaObject
  {
    var o1 := if y == obj then o.(prev := Some(self)) else o;
    var o2 := if y == obj && nx.Some? then o1.(next := nx) else o1;
    var o3 := if nx == Some(y) then o2.(prev := Some(obj)) else o2;
    if y == self then o3.(next := Some(obj)) else o3
  }

  /**
   * `insertInList(obj)` called on `self`: `obj` leaves its list and is
   * linked in right after `self`. A detached `obj` ends up between `self`
   * and its old successor, and nothing else changes.
   */
  function InsertInList(h: Heap, self: Handle, obj: Handle, clear: bool): (r: Heap)
    requires self in h && obj in h && Closed(h)
    ensures r.Keys == h.Keys && Closed(r)
    ensures forall y :: y in h ==> r[y].parent == h[y].parent && r[y].firstChild == h[y].firstChild
    ensures r[self].next == Some(obj)
    ensures obj != self && h[obj].next == None && h[obj].prev == None && h[self].next != Some(obj) ==>
              && r[obj].prev == Some(self) && r[obj].next == h[self].next
              && (h[self].next.Some? ==> r[h[self].next.value].prev == Some(obj))
              && forall y :: y in h && y != self && y != obj && Some(y) != h[self].next ==> r[y] == h[y]
  {
    var h1 := RemoveFromList(h, obj, clear);
    var nx := h1[self].next;
    var r := map y | y in h1 :: Spliced(h1[y], y, self, obj, nx);
    SplicedFacts(h1, self, obj, r);
    if obj != self && h[obj].next == None && h[obj].prev == None then
      UnlinkDetached(h, obj, clear);
      r
    else
      r
  }

  lemma SplicedFacts(h: Heap, self: Handle, obj: Handle, r: Heap)
    requires self in h && obj in h && Closed(h)
    requires r == map y | y in h :: Spliced(h[y], y, self, obj, h[self].next)
    ensures r.Keys == h.Keys && Closed(r)
    ensures forall y :: y in h ==> r[y].parent == h[y].parent && r[y].firstChild == h[y].firstChild
    ensures forall y :: y in h && y != self && y != obj && Some(y) != h[self].next ==> r[y] == h[y]
  {
    assert r.Keys == h.Keys;
    var nx := h[self].next;
    assert Points(h.Keys, h[self]);
    forall y | y in r
      ensures Points(r.Keys, r[y])
      ensures r[y].parent == h[y].parent && r[y].firstChild == h[y].firstChild
    {
      var o := h[y];
      assert Points(h.Keys, o);
      assert r[y] == Spliced(o, y, self, obj, nx);
    }
  }

  /**
   * `removeChild(child)` called on `self`: `false`, and nothing changes,
   * unless `child` is an object whose parent is `self`; then it leaves the
   * sibling list and has no parent.
   */
  function RemoveChild(h: Heap, self: Handle, child: Option<Handle>, asWritten: bool): (r: (Heap, bool))
    requires self in h && Closed(h) && Refers(h, child)
    ensures r.0.Keys == h.Keys && Closed(r.0)
    ensures r.1 <==> child.Some? && h[child.value].parent == Some(self)
    ensures !r.1 ==> r.0 == h
    ensures r.1 ==> r.0[child.value].parent == None
    ensures forall y :: y in h && Some(y) != child ==> r.0[y].parent == h[y].parent
    ensures r.1 && !asWritten && h[self].firstChild != child ==> r.0[self].firstChild == h[self].firstChild
    ensures r.1 && !asWritten && h[self].firstChild == child && child != Some(self)
            ==> r.0[self].firstChild == h[child.value].next
    ensures r.1 && asWritten && child != Some(self) ==> r.0[self].firstChild == h[child.value].next
  {
    if child.Some? && h[child.value].parent == Some(self) then
      var ch := child.value;
      var c := h[ch].next;
      var h1 := RemoveFromList(h, ch, !asWritten);
      var h2 := Put(h1, ch, h1[ch].(parent := None));
      var first := if asWritten || h2[self].firstChild == child then c else h2[self].firstChild;
      (Put(h2, self, h2[self].(firstChild := first)), true)
    else
      (h, false)
  }

  /**
   * `setParent(parent)` called on `x`: leave the old parent, then become a
   * child of `parent` — its first child when it had none, otherwise the
   * child right after its first.
   */
  function SetParent(h: Heap, x: Handle, parent: Option<Handle>, asWritten: bool): (r: Heap)
    requires x in h && Closed(h) && Refers(h, parent)
    ensures r.Keys == h.Keys && Closed(r)
    ensures r[x].parent == parent
    ensures parent.Some? ==> HasChildren(r, parent.value)
    ensures parent.Some? && x != parent.value ==>
              var f := r[parent.value].firstChild.value;
              f == x || r[f].next == Some(x)
  {
    var h1 := if h[x].parent.Some? then RemoveChild(h, h[x].parent.value, Some(x), asWritten).0 else h;
    var h2 := Put(h1, x, h1[x].(parent := parent));
    if parent.None? then h2
    else
      var p := parent.value;
      if h2[p].firstChild.Some? then InsertInList(h2, h2[p].firstChild.value, x, !asWritten)
      else Put(h2, p, h2[p].(firstChild := Some(x)))
  }

  /** `GaObject(parent)`: a new object at the unused handle `x`, then `setParent(parent)`. */
  function NewObject(h: Heap, x: Handle, parent: Option<Handle>, asWritten: bool): (r: Heap)
    requires x !in h && Closed(h) && Refers(h, parent)
    ensures r.Keys == h.Keys + {x} && Closed(r)
    ensures r[x].parent == parent
    ensures parent.Some? ==> HasChildren(r, parent.value)
    ensures parent.Some? ==>
              var f := r[parent.value].firstChild.value;
              f == x || r[f].next == Some(x)
  {
    var h1 := h[x := Detached];
    assert forall y :: y in h1 && y != x ==> h1[y] == h[y];
    assert Closed(h1) by {
      forall y | y in h1
        ensures Points(h1.Keys, h1[y])
      {
        if y != x {
          assert Points(h.Keys, h[y]);
        }
      }
    }
    SetParent(h1, x, parent, asWritten)
  }

  /** Two heaps with the same handles and the same object at each are one heap. */
  lemma SameHeap(a: Heap, b: Heap)
    requires a.Keys == b.Keys && forall y :: y in a ==> a[y] == b[y]
    ensures a == b
  {
  }

  /** No pointer of the heap leads to `x`. */
  predicate Unreferenced(h: Heap, x: Handle)
  {
    forall y :: y in h ==> h[y].next != Some(x) && h[y].prev != Some(x) && h[y].firstChild != Some(x)
  }

  /** The successor of `p`'s first child, if any, points back to it. */
  predicate FirstLinksBack(h: Heap, p: Handle)
    requires p in h && Closed(h)
  {
    var f := h[p].firstChild;
    f.Some? && h[f.value].next.Some? ==> h[h[f.value].next.value].prev == f
  }

  /** A childless `p` takes a detached `x` as its first child, and gives it back. */
  lemma AdoptOnlyChildAndRelease(h: Heap, x: Handle, p: Handle)
    requires Closed(h) && x in h && p in h && x != p
    requires h[x] == Detached && Unreferenced(h, x) && h[p].firstChild == None
    ensures var h1 := SetParent(h, x, Some(p), false);
            HasChildren(h1, p) && h1[p].firstChild == Some(x) && RemoveChild(h1, p, Some(x), false) == (h, true)
  {
    var h2 := Put(h, x, h[x].(parent := Some(p)));
    var h3 := Put(h2, p, h2[p].(firstChild := Some(x)));
    assert SetParent(h, x, Some(p), false) == h3;
    UnlinkDetached(h3, x, true);
    var h4 := Put(h3, x, h3[x].(parent := None));
    var h5 := Put(h4, p, h4[p].(firstChild := None));
    assert RemoveChild(h3, p, Some(x), false) == (h5, true);
    assert h5.Keys == h.Keys && forall y :: y in h5 ==> h5[y] == h[y];
    SameHeap(h5, h);
  }

  /**
   * Taking `x` out from between `f` and its successor `g` undoes putting it
   * there, for every other object `y` whose links agreed with `f` and `g`.
   */
  lemma SpliceThenUnlink(o: GaObject, y: Handle, f: Handle, x: Handle, g: Option<Handle>, n: GaObject)
    requires y != x && f != x && g != Some(x)
    requires y == f ==> o.next == g
    requires g == Some(y) ==> o.prev == Some(f)
    requires n.next == g && n.prev == Some(f)
    ensures Unlinked(Spliced(o, y, f, x, g), y, x, n, true) == o
  {
  }

  /** Inserting a detached `x` skips the removal step. */
  lemma InsertDetached(h: Heap, f: Handle, x: Handle, clear: bool)
    requires Closed(h) && f in h && x in h && h[x].next == None && h[x].prev == None
    ensures InsertInList(h, f, x, clear) == map y | y in h :: Spliced(h[y], y, f, x, h[f].next)
  {
    UnlinkDetached(h, x, clear);
  }

  /**
   * A `p` with children takes a detached `x` right after its first child,
   * and `removeChild` takes it out again, leaving the heap as it was.
   */
  lemma AdoptSiblingAndRelease(h: Heap, x: Handle, p: Handle)
    requires Closed(h) && x in h && p in h && x != p
    requires h[x] == Detached && Unreferenced(h, x) && HasChildren(h, p) && FirstLinksBack(h, p)
    ensures var h1 := SetParent(h, x, Some(p), false);
            var f := h[p].firstChild.value;
            && h1[p].firstChild == Some(f) && h1[f].next == Some(x)
            && h1[x].prev == Some(f) && h1[x].next == h[f].next
            && RemoveChild(h1, p, Some(x), false) == (h, true)
  {
    var f := h[p].firstChild.value;
    var g := h[f].next;
    var h2 := Put(h, x, h[x].(parent := Some(p)));
    InsertDetached(h2, f, x, true);
    var h4 := map y | y in h2 :: Spliced(h2[y], y, f, x, g);
    assert SetParent(h, x, Some(p), false) == h4;
    var n := h4[x];
    assert n == GaObject(None, Some(p), g, Some(f));
    var h5 := RemoveFromList(h4, x, true);
    var h6 := Put(h5, x, h5[x].(parent := None));
    var h7 := Put(h6, p, h6[p].(firstChild := h6[p].firstChild));
    assert RemoveChild(h4, p, Some(x), false) == (h7, true) by {
      assert h4[p].firstChild == Some(f);
    }
    assert h7.Keys == h.Keys;
    forall y | y in h
      ensures h7[y] == h[y]
    {
      if y != x {
        assert h5[y] == Unlinked(h4[y], y, x, n, true);
        SpliceThenUnlink(h[y], y, f, x, g, n);
      }
    }
    SameHeap(h7, h);
  }

  /**
   * As written, removing a child that is not the first makes its successor
   * the first child: after `x` is adopted behind `f` and removed again, `p`
   * no longer starts its children at `f`, though `f` still names `p` as its
   * parent.
   */
  lemma RemoveLaterChildAsWritten(h: Heap, x: Handle, p: Handle)
    requires Closed(h) && x in h && p in h && x != p
    requires h[x] == Detached && Unreferenced(h, x) && HasChildren(h, p)
    requires var f := h[p].firstChild.value; h[f].parent == Some(p) && h[f].next != Some(f)
    ensures var f := h[p].firstChild.value;
            var r := RemoveChild(SetParent(h, x, Some(p), true), p, Some(x), true).0;
            r[p].firstChild == h[f].next && r[p].firstChild != Some(f) && r[f].parent == Some(p)
  {
    var f := h[p].firstChild.value;
    var h2 := Put(h, x, h[x].(parent := Some(p)));
    InsertDetached(h2, f, x, false);
    var h4 := map y | y in h2 :: Spliced(h2[y], y, f, x, h[f].next);
    assert SetParent(h, x, Some(p), true) == h4;
    assert h4[x].next == h[f].next && h4[f].parent == Some(p) && h4[x].parent == Some(p);
    var r := RemoveChild(h4, p, Some(x), true).0;
    assert r[p].firstChild == h4[x].next;
    assert r[f].parent == h4[f].parent;
  }

  /**
   * As written, giving the first of two children the same parent again
   * leaves its stale `next` in place, and the two siblings end up pointing
   * at each other in a cycle.
   */
  lemma ReparentFirstChildAsWritten(h: Heap, p: Handle, a: Handle, b: Handle)
    requires Closed(h) && p in h && a in h && b in h && p != a && p != b && a != b
    requires h[p].firstChild == Some(a)
    requires h[a].parent == Some(p) && h[a].next == Some(b) && h[a].prev == None
    requires h[b].parent == Some(p) && h[b].next == None && h[b].prev == Some(a)
    ensures var r := SetParent(h, a, Some(p), true);
            r[a].next == Some(b) && r[b].next == Some(a)
  {
    var h1 := RemoveChild(h, p, Some(a), true).0;
    assert h1[a].next == Some(b) && h1[a].prev == None && h1[b].next == None && h1[p].firstChild == Some(b) by {
      assert RemoveFromList(h, a, false)[b] == h[b].(prev := None);
    }
    var h2 := Put(h1, a, h1[a].(parent := Some(p)));
    var r := InsertInList(h2, b, a, false);
    assert SetParent(h, a, Some(p), true) == r;
    assert r[a].next == Some(b) && r[b].next == Some(a) by {
      var h3 := RemoveFromList(h2, a, false);
      assert h3[b].next == None && h3[a].next == Some(b);
    }
  }

  /** With the own links cleared, the same call leaves `b` first and `a` last. */
  lemma ReparentFirstChild(h: Heap, p: Handle, a: Handle, b: Handle)
    requires Closed(h) && p in h && a in h && b in h && p != a && p != b && a != b
    requires h[p].firstChild == Some(a)
    requires h[a].parent == Some(p) && h[a].next == Some(b) && h[a].prev == None
    requires h[b].parent == Some(p) && h[b].next == None && h[b].prev == Some(a)
    ensures var r := SetParent(h, a, Some(p), false);
            && r[p].firstChild == Some(b) && r[b].prev == None && r[b].next == Some(a)
            && r[a].prev == Some(b) && r[a].next == None
  {
    var (h1, _) := RemoveChild(h, p, Some(a), false);
    assert h1[a].next == None && h1[a].prev == None && h1[b].next == None && h1[b].prev == None;
    assert h1[p].firstChild == Some(b);
    var h2 := Put(h1, a, h1[a].(parent := Some(p)));
    InsertDetached(h2, b, a, true);
    assert SetParent(h, a, Some(p), false) == InsertInList(h2, b, a, true);
  }
}
