/**
 * `parseGeneric` of GaLib/include/galib/util/date.h, the digit scanner behind
 * `DateTime::parseStr`: it walks a format and an input string in step and
 * fills a `tm` record. It calls nothing else, so it is modelled on its own.
 * The counters are unbounded integers here (see README).
 */
module DateParse {

  /** The fields `parseGeneric` writes into its `tm`. */
  datatype Tm = Tm(year: int, mon: int, mday: int, hour: int, min: int, sec: int)

  /** The six counters of `parseGeneric`, before the `tm` offsets. */
  datatype Fields = Fields(year: int, month: int, day: int, hour: int, minute: int, second: int)

  /** The format letters that name a field. */
  predicate IsFieldLetter(f: char)
  {
    f == 'y' || f == 'M' || f == 'd' || f == 'H' || f == 'm' || f == 's'
  }

  predicate IsDigit(c: char)
  {
    '0' <= c <= '9'
  }

  function DigitValue(c: char): int
    requires IsDigit(c)
  {
    c as int - '0' as int
  }

  /** A field letter wants a digit; any other format char wants a non-digit. */
  predicate Accepts(f: char, c: char)
  {
    if IsFieldLetter(f) then IsDigit(c) else !IsDigit(c)
  }

  /** The loop runs at index `i` while neither string has ended there. */
  predicate Live(fmt: string, str: string, i: nat)
  {
    i < |str| && i < |fmt| && str[i] != '\0' && fmt[i] != '\0'
  }

  /** The length of the prefix `parseGeneric` accepts. */
  function MatchLength(fmt: string, str: string, i: nat): (n: nat)
    requires i <= |str| && i <= |fmt|
    requires forall k :: 0 <= k < i ==> Live(fmt, str, k) && Accepts(fmt[k], str[k])
    ensures i <= n <= |str| && n <= |fmt|
    ensures forall k :: 0 <= k < n ==> Live(fmt, str, k) && Accepts(fmt[k], str[k])
    ensures !(Live(fmt, str, n) && Accepts(fmt[n], str[n]))
    decreases |str| - i
  {
    if Live(fmt, str, i) && Accepts(fmt[i], str[i]) then MatchLength(fmt, str, i + 1) else i
  }

  /** The chars of `str` under `letter` among the first `n` positions. */
  function Picked(fmt: string, str: string, letter: char, n: nat): (ds: string)
    requires n <= |fmt| && n <= |str|
    ensures |ds| <= n
  {
    if n == 0 then []
    else if fmt[n - 1] == letter then Picked(fmt, str, letter, n - 1) + [str[n - 1]]
    else Picked(fmt, str, letter, n - 1)
  }

  /** The number a string of decimal digits spells, most significant first. */
  function Decimal(ds: string): int
    requires forall k :: 0 <= k < |ds| ==> IsDigit(ds[k])
  {
    if ds == [] then 0 else 10 * Decimal(ds[..|ds| - 1]) + DigitValue(ds[|ds| - 1])
  }

  lemma {:induction false} PickedDigits(fmt: string, str: string, letter: char, n: nat)
    requires IsFieldLetter(letter) && n <= |fmt| && n <= |str|
    requires forall k :: 0 <= k < n ==> Accepts(fmt[k], str[k])
    ensures forall k :: 0 <= k < |Picked(fmt, str, letter, n)| ==> IsDigit(Picked(fmt, str, letter, n)[k])
  {
    if n > 0 {
      PickedDigits(fmt, str, letter, n - 1);
    }
  }

  /** The field named `letter`: the number its digits spell in the accepted prefix. */
  function FieldValue(fmt: string, str: string, letter: char, n: nat): int
    requires IsFieldLetter(letter) && n <= |fmt| && n <= |str|
    requires forall k :: 0 <= k < n ==> Accepts(fmt[k], str[k])
  {
    PickedDigits(fmt, str, letter, n);
    Decimal(Picked(fmt, str, letter, n))
  }

  /** The counters after the first `n` accepted positions. */
  function FieldsAt(fmt: string, str: string, n: nat): Fields
    requires n <= |fmt| && n <= |str|
    requires forall k :: 0 <= k < n ==> Accepts(fmt[k], str[k])
  {
    Fields(FieldValue(fmt, str, 'y', n), FieldValue(fmt, str, 'M', n), FieldValue(fmt, str, 'd', n),
           FieldValue(fmt, str, 'H', n), FieldValue(fmt, str, 'm', n), FieldValue(fmt, str, 's', n))
  }

  /** The `tm` written from the counters: years from 1900, months from 0. */
  function ToTm(f: Fields): Tm
  {
    Tm(f.year - 1900, f.month - 1, f.day, f.hour, f.minute, f.second)
  }

  /** What `parseGeneric(fmt, str, tm)` leaves in `tm`. */
  function Parsed(fmt: string, str: string): Tm
  {
    var n := MatchLength(fmt, str, 0);
    ToTm(FieldsAt(fmt, str, n))
  }

  /** One digit more under `letter` is one decimal place more. */
  lemma {:induction false} FieldStep(fmt: string, str: string, letter: char, n: nat)
    requires IsFieldLetter(letter) && n < |fmt| && n < |str|
    requires forall k :: 0 <= k <= n ==> Accepts(fmt[k], str[k])
    ensures FieldValue(fmt, str, letter, n + 1) == Extend(FieldValue(fmt, str, letter, n), letter, fmt[n], str[n])
  {
    var p := Picked(fmt, str, letter, n + 1);
    PickedDigits(fmt, str, letter, n);
    PickedDigits(fmt, str, letter, n + 1);
    if fmt[n] == letter {
      assert p[..|p| - 1] == Picked(fmt, str, letter, n);
    }
  }

  /** The `switch (f)` of the loop body, on a char the format accepts. */
  function Feed(fl: Fields, f: char, c: char): Fields
    requires Accepts(f, c)
  {
    if f == 'y' then fl.(year := 10 * fl.year + DigitValue(c))
    else if f == 'M' then fl.(month := 10 * fl.month + DigitValue(c))
    else if f == 'd' then fl.(day := 10 * fl.day + DigitValue(c))
    else if f == 'H' then fl.(hour := 10 * fl.hour + DigitValue(c))
    else if f == 'm' then fl.(minute := 10 * fl.minute + DigitValue(c))
    else if f == 's' then fl.(second := 10 * fl.second + DigitValue(c))
    else fl
  }

  /** One counter after the char `c` under format char `f`. */
  function Extend(v: int, letter: char, f: char, c: char): int
    requires IsFieldLetter(letter) && Accepts(f, c)
  {
    if f == letter then 10 * v + DigitValue(c) else v
  }

  /** The switch extends exactly the counter its letter names. */
  lemma FeedExtends(fl: Fields, f: char, c: char)
    requires Accepts(f, c)
    ensures Feed(fl, f, c) == Fields(Extend(fl.year, 'y', f, c), Extend(fl.month, 'M', f, c),
                                     Extend(fl.day, 'd', f, c), Extend(fl.hour, 'H', f, c),
                                     Extend(fl.minute, 'm', f, c), Extend(fl.second, 's', f, c))
  {
  }

  lemma FeedStep(fmt: string, str: string, n: nat)
    requires n < |fmt| && n < |str|
    requires forall k :: 0 <= k <= n ==> Accepts(fmt[k], str[k])
    ensures FieldsAt(fmt, str, n + 1) == Feed(FieldsAt(fmt, str, n), fmt[n], str[n])
  {
    var f, c := fmt[n], str[n];
    var a := FieldsAt(fmt, str, n);
    FieldStep(fmt, str, 'y', n);
    FieldStep(fmt, str, 'M', n);
    FieldStep(fmt, str, 'd', n);
    FieldStep(fmt, str, 'H', n);
    FieldStep(fmt, str, 'm', n);
    FieldStep(fmt, str, 's', n);
    assert FieldsAt(fmt, str, n + 1)
        == Fields(Extend(a.year, 'y', f, c), Extend(a.month, 'M', f, c), Extend(a.day, 'd', f, c),
                  Extend(a.hour, 'H', f, c), Extend(a.minute, 'm', f, c), Extend(a.second, 's', f, c));
    FeedExtends(a, f, c);
  }

  /**
   * `parseGeneric(fmt, str, outTm)`: walk both strings in step; a digit
   * under a field letter extends that field, a non-digit under any other
   * char is skipped, and anything else stops the walk (after the current
   * position). The fields reached so far are written all the same.
   */
  method ParseGeneric(fmt: string, str: string) returns (tm: Tm)
    ensures tm == Parsed(fmt, str)
  {
    var fl := Fields(0, 0, 0, 0, 0, 0);
    var ok := true;
    var i := 0;
    while Live(fmt, str, i) && ok
      invariant i <= |str| && i <= |fmt|
      invariant ok ==> Walk(fmt, str, i, fl) == Walk(fmt, str, 0, Fields(0, 0, 0, 0, 0, 0))
      invariant !ok ==> fl == Walk(fmt, str, 0, Fields(0, 0, 0, 0, 0, 0))
      decreases |str| - i
    {
      var c, f := str[i], fmt[i];
      if Accepts(f, c) {
        fl := Feed(fl, f, c);
      } else {
        ok := false;
      }
      i := i + 1;
    }
    WalkIsParsed(fmt, str);
    tm := ToTm(fl);
  }

  /** Before the first char every counter is zero. */
  lemma FieldsAtZero(fmt: string, str: string)
    ensures FieldsAt(fmt, str, 0) == Fields(0, 0, 0, 0, 0, 0)
  {
  }

  /**
   * The loop itself as a recursive walk from position `i` with counters
   * `fl`: it feeds chars while both strings run and the format accepts.
   */
  function Walk(fmt: string, str: string, i: nat, fl: Fields): Fields
    requires i <= |str| && i <= |fmt|
    decreases |str| - i
  {
    if Live(fmt, str, i) && Accepts(fmt[i], str[i]) then Walk(fmt, str, i + 1, Feed(fl, fmt[i], str[i]))
    else fl
  }

  /** One turn of the loop: an accepted char is fed and the walk moves on. */
  lemma WalkFeeds(fmt: string, str: string, i: nat, fl: Fields, f: char, c: char)
    requires i < |fmt| && i < |str| && fmt[i] == f && str[i] == c
    requires f != '\0' && c != '\0' && Accepts(f, c)
    ensures Walk(fmt, str, i, fl) == Walk(fmt, str, i + 1, Feed(fl, f, c))
  {
  }

  /** The loop ends at a dead or rejected position with the counters it has. */
  lemma WalkStops(fmt: string, str: string, i: nat, fl: Fields)
    requires i <= |str| && i <= |fmt|
    requires !(Live(fmt, str, i) && Accepts(fmt[i], str[i]))
    ensures Walk(fmt, str, i, fl) == fl
  {
  }

  /** Walking on from the counters of an accepted prefix reaches the counters of the whole match. */
  lemma {:induction false} WalkReachesMatch(fmt: string, str: string, i: nat)
    requires i <= |str| && i <= |fmt|
    requires forall k :: 0 <= k < i ==> Live(fmt, str, k) && Accepts(fmt[k], str[k])
    ensures Walk(fmt, str, i, FieldsAt(fmt, str, i)) == FieldsAt(fmt, str, MatchLength(fmt, str, i))
    decreases |str| - i
  {
    var fl := FieldsAt(fmt, str, i);
    if Live(fmt, str, i) && Accepts(fmt[i], str[i]) {
      FeedStep(fmt, str, i);
      assert Walk(fmt, str, i, fl) == Walk(fmt, str, i + 1, FieldsAt(fmt, str, i + 1));
      assert MatchLength(fmt, str, i) == MatchLength(fmt, str, i + 1);
      WalkReachesMatch(fmt, str, i + 1);
    } else {
      assert MatchLength(fmt, str, i) == i;
    }
  }

  /** The declarative parse result is the walk from zeroed counters. */
  lemma WalkIsParsed(fmt: string, str: string)
    ensures Parsed(fmt, str) == ToTm(Walk(fmt, str, 0, Fields(0, 0, 0, 0, 0, 0)))
  {
    FieldsAtZero(fmt, str);
    WalkReachesMatch(fmt, str, 0);
  }

  /** A year and a month in the library's own layout. */
  lemma ParsesYearMonth(fmt: string, str: string)
    requires fmt == "yyyy-MM" && str == "2014-02"
    ensures Parsed(fmt, str) == Tm(114, 1, 0, 0, 0, 0)
  {
    WalkYear(fmt, str);
    WalkFeeds(fmt, str, 4, Fields(2014, 0, 0, 0, 0, 0), '-', '-');
    WalkFeeds(fmt, str, 5, Fields(2014, 0, 0, 0, 0, 0), 'M', '0');
    WalkFeeds(fmt, str, 6, Fields(2014, 0, 0, 0, 0, 0), 'M', '2');
    WalkStops(fmt, str, 7, Fields(2014, 2, 0, 0, 0, 0));
    WalkIsParsed(fmt, str);
  }

  /** The first two year digits of that input, fed one by one. */
  lemma WalkCentury(fmt: string, str: string)
    requires fmt == "yyyy-MM" && str == "2014-02"
    ensures Walk(fmt, str, 0, Fields(0, 0, 0, 0, 0, 0)) == Walk(fmt, str, 2, Fields(20, 0, 0, 0, 0, 0))
  {
    WalkFeeds(fmt, str, 0, Fields(0, 0, 0, 0, 0, 0), 'y', '2');
    WalkFeeds(fmt, str, 1, Fields(2, 0, 0, 0, 0, 0), 'y', '0');
  }

  /** The last two year digits of that input. */
  lemma WalkYear(fmt: string, str: string)
    requires fmt == "yyyy-MM" && str == "2014-02"
    ensures Walk(fmt, str, 0, Fields(0, 0, 0, 0, 0, 0)) == Walk(fmt, str, 4, Fields(2014, 0, 0, 0, 0, 0))
  {
    WalkCentury(fmt, str);
    WalkFeeds(fmt, str, 2, Fields(20, 0, 0, 0, 0, 0), 'y', '1');
    WalkFeeds(fmt, str, 3, Fields(201, 0, 0, 0, 0, 0), 'y', '4');
  }

  /** A separator over a non-digit: the walk moves on with the same counters. */
  lemma WalkSeparator(fmt: string, str: string, i: nat, fl: Fields)
    requires i < |fmt| && i < |str| && fmt[i] != '\0' && str[i] != '\0'
    requires !IsFieldLetter(fmt[i]) && !IsDigit(str[i])
    ensures Walk(fmt, str, i, fl) == Walk(fmt, str, i + 1, fl)
  {
    WalkFeeds(fmt, str, i, fl, fmt[i], str[i]);
  }

  /** The characters of the full layout, position by position. */
  lemma FullLayoutChars(fmt: string)
    requires fmt == "yyyy-MM-dd HH:mm:ss"
    ensures |fmt| == 19
    ensures fmt[0] == 'y'
    ensures fmt[1] == 'y'
    ensures fmt[2] == 'y'
    ensures fmt[3] == 'y'
    ensures fmt[4] == '-'
    ensures fmt[5] == 'M'
    ensures fmt[6] == 'M'
    ensures fmt[7] == '-'
    ensures fmt[8] == 'd'
    ensures fmt[9] == 'd'
    ensures fmt[10] == ' '
    ensures fmt[11] == 'H'
    ensures fmt[12] == 'H'
    ensures fmt[13] == ':'
    ensures fmt[14] == 'm'
    ensures fmt[15] == 'm'
    ensures fmt[16] == ':'
    ensures fmt[17] == 's'
    ensures fmt[18] == 's'
  {
  }

  /** The characters of the library test's input, position by position. */
  lemma TestInputChars(str: string)
    requires str == "2014-02-02 15:13:12"
    ensures |str| == 19
    ensures str[0] == '2'
    ensures str[1] == '0'
    ensures str[2] == '1'
    ensures str[3] == '4'
    ensures str[4] == '-'
    ensures str[5] == '0'
    ensures str[6] == '2'
    ensures str[7] == '-'
    ensures str[8] == '0'
    ensures str[9] == '2'
    ensures str[10] == ' '
    ensures str[11] == '1'
    ensures str[12] == '5'
    ensures str[13] == ':'
    ensures str[14] == '1'
    ensures str[15] == '3'
    ensures str[16] == ':'
    ensures str[17] == '1'
    ensures str[18] == '2'
  {
  }

  /** The four year digits of the full layout. */
  lemma WalkFullYear(fmt: string, str: string)
    requires |fmt| == 19 && |str| == 19
    requires fmt[0] == 'y' && str[0] == '2'
    requires fmt[1] == 'y' && str[1] == '0'
    requires fmt[2] == 'y' && str[2] == '1'
    requires fmt[3] == 'y' && str[3] == '4'
    ensures Walk(fmt, str, 0, Fields(0, 0, 0, 0, 0, 0)) == Walk(fmt, str, 4, Fields(2014, 0, 0, 0, 0, 0))
  {
    WalkFeeds(fmt, str, 0, Fields(0, 0, 0, 0, 0, 0), 'y', '2');
    WalkFeeds(fmt, str, 1, Fields(2, 0, 0, 0, 0, 0), 'y', '0');
    WalkFeeds(fmt, str, 2, Fields(20, 0, 0, 0, 0, 0), 'y', '1');
    WalkFeeds(fmt, str, 3, Fields(201, 0, 0, 0, 0, 0), 'y', '4');
  }

  /** A dash, then the two month digits. */
  lemma WalkFullMonth(fmt: string, str: string)
    requires |fmt| == 19 && |str| == 19
    requires fmt[4] == '-' && str[4] == '-'
    requires fmt[5] == 'M' && str[5] == '0'
    requires fmt[6] == 'M' && str[6] == '2'
    ensures Walk(fmt, str, 4, Fields(2014, 0, 0, 0, 0, 0)) == Walk(fmt, str, 7, Fields(2014, 2, 0, 0, 0, 0))
  {
    WalkSeparator(fmt, str, 4, Fields(2014, 0, 0, 0, 0, 0));
    WalkFeeds(fmt, str, 5, Fields(2014, 0, 0, 0, 0, 0), 'M', '0');
    WalkFeeds(fmt, str, 6, Fields(2014, 0, 0, 0, 0, 0), 'M', '2');
  }

  /** A dash, then the two day digits. */
  lemma WalkFullDay(fmt: string, str: string)
    requires |fmt| == 19 && |str| == 19
    requires fmt[7] == '-' && str[7] == '-'
    requires fmt[8] == 'd' && str[8] == '0'
    requires fmt[9] == 'd' && str[9] == '2'
    ensures Walk(fmt, str, 7, Fields(2014, 2, 0, 0, 0, 0)) == Walk(fmt, str, 10, Fields(2014, 2, 2, 0, 0, 0))
  {
    WalkSeparator(fmt, str, 7, Fields(2014, 2, 0, 0, 0, 0));
    WalkFeeds(fmt, str, 8, Fields(2014, 2, 0, 0, 0, 0), 'd', '0');
    WalkFeeds(fmt, str, 9, Fields(2014, 2, 0, 0, 0, 0), 'd', '2');
  }

  /** A space, then the two hour digits. */
  lemma WalkFullHour(fmt: string, str: string)
    requires |fmt| == 19 && |str| == 19
    requires fmt[10] == ' ' && str[10] == ' '
    requires fmt[11] == 'H' && str[11] == '1'
    requires fmt[12] == 'H' && str[12] == '5'
    ensures Walk(fmt, str, 10, Fields(2014, 2, 2, 0, 0, 0)) == Walk(fmt, str, 13, Fields(2014, 2, 2, 15, 0, 0))
  {
    WalkSeparator(fmt, str, 10, Fields(2014, 2, 2, 0, 0, 0));
    WalkFeeds(fmt, str, 11, Fields(2014, 2, 2, 0, 0, 0), 'H', '1');
    WalkFeeds(fmt, str, 12, Fields(2014, 2, 2, 1, 0, 0), 'H', '5');
  }

  /** A colon, then the two minute digits. */
  lemma WalkFullMinute(fmt: string, str: string)
    requires |fmt| == 19 && |str| == 19
    requires fmt[13] == ':' && str[13] == ':'
    requires fmt[14] == 'm' && str[14] == '1'
    requires fmt[15] == 'm' && str[15] == '3'
    ensures Walk(fmt, str, 13, Fields(2014, 2, 2, 15, 0, 0)) == Walk(fmt, str, 16, Fields(2014, 2, 2, 15, 13, 0))
  {
    WalkSeparator(fmt, str, 13, Fields(2014, 2, 2, 15, 0, 0));
    WalkFeeds(fmt, str, 14, Fields(2014, 2, 2, 15, 0, 0), 'm', '1');
    WalkFeeds(fmt, str, 15, Fields(2014, 2, 2, 15, 1, 0), 'm', '3');
  }

  /** A colon, then the two second digits; both strings end there. */
  lemma WalkFullSecond(fmt: string, str: string)
    requires |fmt| == 19 && |str| == 19
    requires fmt[16] == ':' && str[16] == ':'
    requires fmt[17] == 's' && str[17] == '1'
    requires fmt[18] == 's' && str[18] == '2'
    ensures Walk(fmt, str, 16, Fields(2014, 2, 2, 15, 13, 0)) == Fields(2014, 2, 2, 15, 13, 12)
  {
    WalkSeparator(fmt, str, 16, Fields(2014, 2, 2, 15, 13, 0));
    WalkFeeds(fmt, str, 17, Fields(2014, 2, 2, 15, 13, 0), 's', '1');
    WalkFeeds(fmt, str, 18, Fields(2014, 2, 2, 15, 13, 1), 's', '2');
    WalkStops(fmt, str, 19, Fields(2014, 2, 2, 15, 13, 12));
  }

  /**
   * The layout `parseStr` and `parseStrUTC` pass, on the input of the
   * library's own test: every field lands in its `tm` member, with the
   * year from 1900 and the month from 0.
   */
  lemma ParsesFullLayout(fmt: string, str: string)
    requires fmt == "yyyy-MM-dd HH:mm:ss" && str == "2014-02-02 15:13:12"
    ensures Parsed(fmt, str) == Tm(114, 1, 2, 15, 13, 12)
  {
    FullLayoutChars(fmt);
    TestInputChars(str);
    WalkFullYear(fmt, str);
    WalkFullMonth(fmt, str);
    WalkFullDay(fmt, str);
    WalkFullHour(fmt, str);
    WalkFullMinute(fmt, str);
    WalkFullSecond(fmt, str);
    WalkIsParsed(fmt, str);
  }

  /** Any non-digit passes under a separator: a slash parses like a dash. */
  lemma SeparatorsAreNotCompared(fmt: string, str: string)
    requires fmt == "yy-M" && str == "14/2"
    ensures Parsed(fmt, str) == Tm(14 - 1900, 1, 0, 0, 0, 0)
  {
    WalkTwoDigitYear(fmt, str);
    WalkFeeds(fmt, str, 2, Fields(14, 0, 0, 0, 0, 0), '-', '/');
    WalkFeeds(fmt, str, 3, Fields(14, 0, 0, 0, 0, 0), 'M', '2');
    WalkStops(fmt, str, 4, Fields(14, 2, 0, 0, 0, 0));
    WalkIsParsed(fmt, str);
  }

  /** The two year digits of that input, fed one by one. */
  lemma WalkTwoDigitYear(fmt: string, str: string)
    requires fmt == "yy-M" && str == "14/2"
    ensures Walk(fmt, str, 0, Fields(0, 0, 0, 0, 0, 0)) == Walk(fmt, str, 2, Fields(14, 0, 0, 0, 0, 0))
  {
    WalkFeeds(fmt, str, 0, Fields(0, 0, 0, 0, 0, 0), 'y', '1');
    WalkFeeds(fmt, str, 1, Fields(1, 0, 0, 0, 0, 0), 'y', '4');
  }

  /** A non-digit under a field letter stops the walk; the digits before it are kept. */
  lemma StopsAtMismatch(fmt: string, str: string)
    requires fmt == "yy-M" && str == "1x-2"
    ensures Parsed(fmt, str) == Tm(1 - 1900, -1, 0, 0, 0, 0)
  {
    WalkFeeds(fmt, str, 0, Fields(0, 0, 0, 0, 0, 0), 'y', '1');
    assert fmt[1] == 'y' && str[1] == 'x';
    WalkStops(fmt, str, 1, Fields(1, 0, 0, 0, 0, 0));
    WalkIsParsed(fmt, str);
  }

  /** A NUL in the input ends the walk as the end of the string does. */
  lemma StopsAtNul(fmt: string, str: string)
    requires fmt == "yyyy" && str == "20\0" + "1"
    ensures Parsed(fmt, str) == Tm(20 - 1900, -1, 0, 0, 0, 0)
  {
    WalkFeeds(fmt, str, 0, Fields(0, 0, 0, 0, 0, 0), 'y', '2');
    WalkFeeds(fmt, str, 1, Fields(2, 0, 0, 0, 0, 0), 'y', '0');
    assert str[2] == '\0';
    WalkStops(fmt, str, 2, Fields(20, 0, 0, 0, 0, 0));
    WalkIsParsed(fmt, str);
  }
}
