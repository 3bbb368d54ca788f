/**
 * `Nullable<T>` of GaLib/include/galib/util/nullable.h: a value of `T` and a
 * flag saying whether it is set. `T()` is a parameter `zero`, the value the
 * default constructor and `removeValue` store.
 */
module Nullables {
  import opened Maybe

  datatype Nullable<T> = Nullable(stored: T, hasValue: bool)

  /** Every constructor and every operation keeps `T()` in an empty `Nullable`. */
  predicate Canonical<T(==)>(n: Nullable<T>, zero: T)
  {
    !n.hasValue ==> n.stored == zero
  }

  /** `value()`: the value when set; `None` stands for the `logic_error` it throws otherwise. */
  function Value<T>(n: Nullable<T>): (r: Option<T>)
    ensures r.Some? <==> n.hasValue
  {
    if n.hasValue then Some(n.stored) else None
  }

  /** `Nullable()`: empty, holding `T()`. */
  function Empty<T>(zero: T): (n: Nullable<T>)
    ensures Value(n) == None
  {
    Nullable(zero, false)
  }

  /** `Nullable(T value)`: holds `v`. */
  function Of<T>(v: T): (n: Nullable<T>)
    ensures Value(n) == Some(v)
  {
    Nullable(v, true)
  }

  /** `swap(a, b)`: exchanges both fields. */
  function Swap<T>(a: Nullable<T>, b: Nullable<T>): (r: (Nullable<T>, Nullable<T>))
    ensures Value(r.0) == Value(b) && Value(r.1) == Value(a)
  {
    (Nullable(b.stored, b.hasValue), Nullable(a.stored, a.hasValue))
  }

  /**
   * `operator =(Nullable other)`: `other` is a copy taken by value; swapping
   * with it leaves `this` with what `other` held, and the old contents leave
   * with the copy.
   */
  function Assign<T>(self: Nullable<T>, other: Nullable<T>): (r: Nullable<T>)
    ensures Value(r) == Value(other)
  {
    Swap(self, other).0
  }

  /** `operator =(const T& val)`: now holds `val`; the reference it returns reads `val`. */
  function AssignValue<T>(self: Nullable<T>, val: T): (r: (Nullable<T>, T))
    ensures Value(r.0) == Some(val) && r.1 == val
  {
    var n := self.(stored := val, hasValue := true);
    (n, n.stored)
  }

  /** `removeValue()`: empty again, holding `T()`. */
  function RemoveValue<T>(self: Nullable<T>, zero: T): (r: Nullable<T>)
    ensures Value(r) == None && r == Empty(zero)
  {
    self.(stored := zero, hasValue := false)
  }

  /** `operator ==(const Nullable&)`: both flags and both stored values agree. */
  function Equals<T(==)>(a: Nullable<T>, b: Nullable<T>): (r: bool)
    ensures r <==> a == b
  {
    a.hasValue == b.hasValue && a.stored == b.stored
  }

  /** `operator !=(const Nullable&)`: only the stored values of set `Nullable`s are compared. */
  function NotEquals<T(==)>(a: Nullable<T>, b: Nullable<T>): (r: bool)
    ensures r <==> Value(a) != Value(b)
  {
    a.hasValue != b.hasValue || (a.hasValue && a.stored != b.stored)
  }

  /** `operator ==(const T&)`: set, and holding `val`. */
  function EqualsValue<T(==)>(n: Nullable<T>, val: T): (r: bool)
    ensures r <==> Value(n) == Some(val)
  {
    n.hasValue && n.stored == val
  }

  /** `operator !=(const T&)`: empty, or holding something else. */
  function NotEqualsValue<T(==)>(n: Nullable<T>, val: T): (r: bool)
    ensures r <==> Value(n) != Some(val)
  {
    !n.hasValue || (n.hasValue && n.stored != val)
  }

  /** `==` and `!=` against a `T` always disagree. */
  lemma ValueComparisonsComplement<T>(n: Nullable<T>, val: T)
    ensures NotEqualsValue(n, val) == !EqualsValue(n, val)
  {
  }

  /**
   * With `T()` stored in every empty `Nullable`, the two comparisons of
   * `Nullable`s are each other's negation, and both look only at `value()`.
   */
  lemma ComparisonsComplement<T>(a: Nullable<T>, b: Nullable<T>, zero: T)
    requires Canonical(a, zero) && Canonical(b, zero)
    ensures NotEquals(a, b) == !Equals(a, b)
    ensures Equals(a, b) <==> Value(a) == Value(b)
  {
  }

  /**
   * Without that invariant `==` and `!=` can both be false: two empty
   * `Nullable`s holding different values. No operation builds one.
   */
  lemma ComparisonsNeedCanonical()
    ensures var a, b := Nullable(1, false), Nullable(2, false);
            !Equals(a, b) && !NotEquals(a, b)
  {
  }

  /** Every way of making or changing a `Nullable` keeps `T()` in the empty ones. */
  lemma OperationsKeepCanonical<T>(a: Nullable<T>, b: Nullable<T>, val: T, zero: T)
    requires Canonical(a, zero) && Canonical(b, zero)
    ensures Canonical(Empty(zero), zero) && Canonical(Of(val), zero)
    ensures Canonical(Swap(a, b).0, zero) && Canonical(Swap(a, b).1, zero)
    ensures Canonical(Assign(a, b), zero)
    ensures Canonical(AssignValue(a, val).0, zero)
    ensures Canonical(RemoveValue(a, zero), zero)
  {
  }

  /** Swapping twice gives both back; assignment copies, so `a = b` then `==` holds. */
  lemma SwapAndAssign<T>(a: Nullable<T>, b: Nullable<T>)
    ensures var (a1, b1) := Swap(a, b); Swap(a1, b1) == (a, b)
    ensures Equals(Assign(a, b), b)
  {
  }

  /** Setting a value and removing it leaves what a default `Nullable` is. */
  lemma AssignThenRemove<T>(n: Nullable<T>, val: T, zero: T)
    ensures EqualsValue(AssignValue(n, val).0, val)
    ensures Equals(RemoveValue(AssignValue(n, val).0, zero), Empty(zero))
    ensures Canonical(n, zero) && !n.hasValue ==> Equals(n, Empty(zero))
  {
  }
}
