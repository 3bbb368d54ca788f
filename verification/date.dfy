/**
 * `TimeInterval` and `DateTime` of GaLib/include/galib/util/date.h: both
 * hold a signed 64-bit count of milliseconds (`i64`), a `DateTime` counted
 * from 1970-01-01 UTC. Arithmetic on `i64` and `int` is two's complement:
 * a result out of range wraps, as it does on the hardware the library
 * targets (the C++ standard leaves signed overflow undefined).
 *
 * `parseGeneric`, the digit scanner behind `parseStr`, is modelled on its
 * own: it fills a `tm` record and calls nothing else.
 */
module Dates {
  import opened Bits

  const I32Modulus: int := 0x1_0000_0000
  const I64Modulus: int := 0x1_0000_0000_0000_0000

  type i32 = x: int | -0x8000_0000 <= x < 0x8000_0000
  type i64 = x: int | -0x8000_0000_0000_0000 <= x < 0x8000_0000_0000_0000

  /** The two's complement value of `x` in a word of modulus `m`. */
  function Wrap(x: int, m: int): (r: int)
    requires m >= 2 && m % 2 == 0
    ensures -(m / 2) <= r < m / 2
    ensures x - r == m * ((x + m / 2) / m)
  {
    (x + m / 2) % m - m / 2
  }

  /** A value the word can hold wraps to itself. */
  lemma WrapInRange(x: int, m: int)
    requires m >= 2 && m % 2 == 0 && -(m / 2) <= x < m / 2
    ensures Wrap(x, m) == x
  {
    ModUnique(x + m / 2, m, 0, x + m / 2);
  }

  function Wrap32(x: int): i32
  {
    Wrap(x, I32Modulus)
  }

  function Wrap64(x: int): i64
  {
    Wrap(x, I64Modulus)
  }

  /** Wrapping depends only on the residue: adding a multiple of `m` changes nothing. */
  lemma WrapShift(y: int, q: int, m: int)
    requires m >= 2 && m % 2 == 0
    ensures Wrap(y + m * q, m) == Wrap(y, m)
  {
    var a := y + m / 2;
    assert a == (a / m) * m + a % m;
    assert a + m * q == (a / m + q) * m + a % m;
    ModUnique(a + m * q, m, a / m + q, a % m);
  }

  /** Two values whose difference is a multiple of `m` wrap alike. */
  lemma WrapCongruent(x: int, y: int, q: int, m: int)
    requires m >= 2 && m % 2 == 0 && x == y + m * q
    ensures Wrap(x, m) == Wrap(y, m)
  {
    WrapShift(y, q, m);
  }

  /** A product wraps to the same word whether or not a factor was wrapped first. */
  lemma WrapMul(x: int, c: int, m: int)
    requires m >= 2 && m % 2 == 0
    ensures Wrap(Wrap(x, m) * c, m) == Wrap(x * c, m)
  {
    var w, q := Wrap(x, m), (x + m / 2) / m;
    assert x == w + m * q;
    assert x * c == w * c + m * (q * c);
    WrapCongruent(x * c, w * c, q * c, m);
  }

  /** So does a sum, whichever summands were wrapped first. */
  lemma WrapAdd(x: int, y: int, m: int)
    requires m >= 2 && m % 2 == 0
    ensures Wrap(Wrap(x, m) + Wrap(y, m), m) == Wrap(x + y, m)
  {
    var qx, qy := (x + m / 2) / m, (y + m / 2) / m;
    assert x + y == (Wrap(x, m) + Wrap(y, m)) + m * (qx + qy);
    WrapCongruent(x + y, Wrap(x, m) + Wrap(y, m), qx + qy, m);
  }

  /**
   * C++ division of a signed value by a positive one: the quotient is
   * truncated toward zero, so the remainder takes the sign of `a`.
   */
  function TruncDiv(a: int, b: int): (r: int)
    requires b > 0
    ensures a >= 0 ==> b * r <= a < b * (r + 1)
    ensures a < 0 ==> b * (r - 1) < a <= b * r
  {
    if a >= 0 then a / b else -((-a) / b)
  }

  const MsPerSecond: int := 1000
  const MsPerMinute: int := 60 * 1000
  const MsPerHour: int := 60 * 60 * 1000
  const MsPerDay: int := 24 * 60 * 60 * 1000

  // ---- TimeInterval ----

  datatype TimeInterval = TimeInterval(ms: i64)

  /**
   * `TimeInterval(days, hours, minutes, seconds)` as written: every product
   * and sum of the initialiser is an `int` expression, so each wraps to 32
   * bits before the total is widened to `i64`.
   */
  function IntervalAsWritten(days: i32, hours: i32, minutes: i32, seconds: i32): TimeInterval
  {
    var d := Wrap32(Wrap32(Wrap32(Wrap32(days * 24) * 60) * 60) * 1000);
    var h := Wrap32(Wrap32(Wrap32(hours * 60) * 60) * 1000);
    var mi := Wrap32(Wrap32(minutes * 60) * 1000);
    var s := Wrap32(seconds * 1000);
    TimeInterval(Wrap32(Wrap32(Wrap32(d + h) + mi) + s))
  }

  /** The intended constructor: the same total computed in `i64`. */
  function Interval(days: i32, hours: i32, minutes: i32, seconds: i32): (r: TimeInterval)
    ensures r.ms == days * MsPerDay + hours * MsPerHour + minutes * MsPerMinute + seconds * MsPerSecond
  {
    TimeInterval(days * 86_400_000 + hours * 3_600_000 + minutes * 60_000 + seconds * 1000)
  }

  /** `days*24*60*60*1000`, one wrapped product after another. */
  lemma DaysWrap(days: i32)
    ensures Wrap32(Wrap32(Wrap32(Wrap32(days * 24) * 60) * 60) * 1000) == Wrap32(days * 86_400_000)
  {
    var m := I32Modulus;
    WrapMul(days * 24, 60, m);
    WrapMul(days * 24 * 60, 60, m);
    WrapMul(days * 24 * 60 * 60, 1000, m);
  }

  lemma HoursWrap(hours: i32)
    ensures Wrap32(Wrap32(Wrap32(hours * 60) * 60) * 1000) == Wrap32(hours * 3_600_000)
  {
    var m := I32Modulus;
    WrapMul(hours * 60, 60, m);
    WrapMul(hours * 60 * 60, 1000, m);
  }

  lemma MinutesWrap(minutes: i32)
    ensures Wrap32(Wrap32(minutes * 60) * 1000) == Wrap32(minutes * 60_000)
  {
    WrapMul(minutes * 60, 1000, I32Modulus);
  }

  /** Three wrapped additions of wrapped terms give the wrapped total. */
  lemma SumWrap(d: int, h: int, mi: int, s: int)
    ensures Wrap32(Wrap32(Wrap32(Wrap32(d) + Wrap32(h)) + Wrap32(mi)) + Wrap32(s)) == Wrap32(d + h + mi + s)
  {
    var m := I32Modulus;
    WrapAdd(d, h, m);
    WrapAdd(d + h, mi, m);
    WrapAdd(d + h + mi, s, m);
  }

  /** As written, the constructor yields the true total reduced to 32 bits. */
  lemma IntervalAsWrittenWraps(days: i32, hours: i32, minutes: i32, seconds: i32)
    ensures IntervalAsWritten(days, hours, minutes, seconds).ms == Wrap32(Interval(days, hours, minutes, seconds).ms)
  {
    DaysWrap(days);
    HoursWrap(hours);
    MinutesWrap(minutes);
    SumWrap(days * 86_400_000, hours * 3_600_000, minutes * 60_000, seconds * 1000);
  }

  /** While the true total fits in an `int`, nothing is lost. */
  lemma IntervalAgreesInRange(days: i32, hours: i32, minutes: i32, seconds: i32)
    requires -0x8000_0000 <= Interval(days, hours, minutes, seconds).ms < 0x8000_0000
    ensures IntervalAsWritten(days, hours, minutes, seconds) == Interval(days, hours, minutes, seconds)
  {
    IntervalAsWrittenWraps(days, hours, minutes, seconds);
    WrapInRange(Interval(days, hours, minutes, seconds).ms, I32Modulus);
  }

  /** From 25 days on (either sign) the 32-bit total is wrong. */
  lemma IntervalOverflowsFrom25Days(days: i32)
    requires days >= 25 || days <= -25
    ensures IntervalAsWritten(days, 0, 0, 0) != Interval(days, 0, 0, 0)
  {
    IntervalAsWrittenWraps(days, 0, 0, 0);
  }

  /** Twenty-five days come out as about minus 24.7 days. */
  lemma TwentyFiveDays()
    ensures IntervalAsWritten(25, 0, 0, 0).ms == -2_134_967_296
    ensures Interval(25, 0, 0, 0).ms == 2_160_000_000
  {
    IntervalAsWrittenWraps(25, 0, 0, 0);
    WrapShift(-2_134_967_296, 1, I32Modulus);
    WrapInRange(-2_134_967_296, I32Modulus);
  }

  function TotalDays(t: TimeInterval): int { TruncDiv(t.ms, MsPerDay) }
  function TotalHours(t: TimeInterval): int { TruncDiv(t.ms, MsPerHour) }
  function TotalMinutes(t: TimeInterval): int { TruncDiv(t.ms, MsPerMinute) }
  function TotalSeconds(t: TimeInterval): int { TruncDiv(t.ms, MsPerSecond) }

  /**
   * The totals truncate toward zero: a negative interval that is not a whole
   * number of units rounds up, where floor division would round down.
   */
  lemma TotalsTruncate()
    ensures TotalSeconds(TimeInterval(-1500)) == -1 && -1500 / 1000 == -2
    ensures TotalDays(TimeInterval(-1)) == 0
    ensures TotalHours(TimeInterval(7_199_999)) == 1
  {
  }

  function CompareIntervals(a: TimeInterval, b: TimeInterval): i64
  {
    Wrap64(a.ms - b.ms)
  }

  predicate IntervalLess(a: TimeInterval, b: TimeInterval)
  {
    a.ms < b.ms
  }

  // ---- DateTime ----

  datatype DateTime = DateTime(from1970: i64)

  /** `DateTime()`: the epoch, which `isValid` rejects. */
  const Epoch: DateTime := DateTime(0)

  function MinValue(): DateTime { DateTime(1) }

  function MaxValue(): DateTime { DateTime(0x4000_0000_0000_0000) }

  predicate IsValid(d: DateTime)
  {
    d.from1970 > 0
  }

  /** `sub`: the interval from `other` to `d`. */
  function Sub(d: DateTime, other: DateTime): TimeInterval
  {
    TimeInterval(Wrap64(d.from1970 - other.from1970))
  }

  function AddInterval(d: DateTime, t: TimeInterval): DateTime
  {
    DateTime(Wrap64(d.from1970 + t.ms))
  }

  function SubInterval(d: DateTime, t: TimeInterval): DateTime
  {
    DateTime(Wrap64(d.from1970 - t.ms))
  }

  function Compare(d: DateTime, other: DateTime): i64
  {
    Wrap64(d.from1970 - other.from1970)
  }

  /** `equals` and `operator==`. */
  predicate Equals(d: DateTime, other: DateTime)
  {
    d.from1970 == other.from1970
  }

  /** `operator!=`. */
  predicate NotEquals(d: DateTime, other: DateTime)
  {
    d.from1970 != other.from1970
  }

  /** `toTimeT`: whole seconds, truncated toward zero. */
  function ToTimeT(d: DateTime): i64
  {
    TruncDiv(d.from1970, 1000)
  }

  function FromTimeT(t: i64): DateTime
  {
    DateTime(Wrap64(t * 1000))
  }

  /** Wrapping `x` and then adding `y` lands on the word of `x + y`. */
  lemma WrapThenAdd(x: int, y: int)
    ensures Wrap64(Wrap64(x) + y) == Wrap64(x + y)
  {
    var m := I64Modulus;
    var q := (x + m / 2) / m;
    assert x + y == (Wrap64(x) + y) + m * q;
    WrapCongruent(x + y, Wrap64(x) + y, q, m);
  }

  /** `subInterval` undoes `addInterval`, overflow or not. */
  lemma SubUndoesAdd(d: DateTime, t: TimeInterval)
    ensures SubInterval(AddInterval(d, t), t) == d
  {
    var x: int := d.from1970;
    var a := x + t.ms;
    assert Wrap64(Wrap64(a) - t.ms) == Wrap64(x) by {
      WrapThenAdd(a, -(t.ms as int));
      assert a + -(t.ms as int) == x;
    }
    assert Wrap64(x) == x by {
      WrapInRange(x, I64Modulus);
    }
  }

  /** `addInterval` undoes `subInterval`, overflow or not. */
  lemma AddUndoesSub(d: DateTime, t: TimeInterval)
    ensures AddInterval(SubInterval(d, t), t) == d
  {
    var x: int := d.from1970;
    var a := x - t.ms;
    assert Wrap64(Wrap64(a) + t.ms) == Wrap64(x) by {
      WrapThenAdd(a, t.ms);
      assert a + t.ms == x;
    }
    assert Wrap64(x) == x by {
      WrapInRange(x, I64Modulus);
    }
  }

  /** Adding the difference `e.sub(d)` to `d` gives `e`. */
  lemma AddDifference(d: DateTime, e: DateTime)
    ensures AddInterval(d, Sub(e, d)) == e
  {
    var x: int := e.from1970;
    WrapThenAdd(x - d.from1970, d.from1970);
    assert x - d.from1970 + d.from1970 == x;
    WrapInRange(x, I64Modulus);
  }

  /** A difference of two words wraps to zero only if it is zero. */
  lemma WrapZero(x: int, m: int)
    requires m >= 2 && m % 2 == 0 && -m < x < m
    ensures Wrap(x, m) == 0 <==> x == 0
  {
    if x >= m / 2 {
      WrapShift(x - m, 1, m);
      WrapInRange(x - m, m);
    } else if x < -(m / 2) {
      WrapShift(x + m, -1, m);
      WrapInRange(x + m, m);
    } else {
      WrapInRange(x, m);
    }
  }

  /** `compare` is zero exactly when `equals` holds, and `!=` is its negation. */
  lemma CompareZeroIffEquals(d: DateTime, e: DateTime)
    ensures Compare(d, e) == 0 <==> Equals(d, e)
    ensures NotEquals(d, e) <==> !Equals(d, e)
  {
    WrapZero(d.from1970 - e.from1970, I64Modulus);
  }

  /** Without overflow, the sign of `compare` orders the two dates. */
  lemma CompareSign(d: DateTime, e: DateTime)
    requires -0x8000_0000_0000_0000 <= d.from1970 - e.from1970 < 0x8000_0000_0000_0000
    ensures Compare(d, e) > 0 <==> d.from1970 > e.from1970
    ensures Compare(d, e) < 0 <==> d.from1970 < e.from1970
  {
    WrapInRange(d.from1970 - e.from1970, I64Modulus);
  }

  /** Far apart dates overflow the difference, and the sign comes out wrong. */
  lemma CompareWraps()
    ensures Compare(MaxValue(), DateTime(-0x4000_0000_0000_0000)) < 0
  {
  }

  /** The default date is invalid; the least and greatest values are valid. */
  lemma ValidityOfConstants()
    ensures !IsValid(Epoch)
    ensures IsValid(MinValue()) && IsValid(MaxValue())
    ensures forall d: DateTime :: IsValid(d) ==> MinValue().from1970 <= d.from1970
  {
  }

  /** Seconds survive the round trip through milliseconds when they fit. */
  lemma TimeTRoundTrip(t: i64)
    requires -0x8000_0000_0000_0000 <= t * 1000 < 0x8000_0000_0000_0000
    ensures ToTimeT(FromTimeT(t)) == t
  {
  }

  /** A date survives the trip through seconds exactly when it has no milliseconds. */
  lemma DateRoundTrip(d: DateTime)
    ensures FromTimeT(ToTimeT(d)) == d <==> d.from1970 % 1000 == 0
  {
    var t := ToTimeT(d);
    assert -0x8000_0000_0000_0000 <= t * 1000 < 0x8000_0000_0000_0000;
    if d.from1970 % 1000 == 0 {
      assert t * 1000 == d.from1970;
    }
  }
}
