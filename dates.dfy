/**
 * The `parseDate` helper: a DD/MM/YY string becomes the JavaScript `Date`
 * built from its three parts, or `new Date(0)` when it does not have
 * exactly three parts. A date is represented by its time value in whole
 * days since 1970-01-01 (the session's clock is taken to be UTC); `None`
 * stands for the invalid date, whose time value is NaN.
 */
module Dates {
  import opened Optional
  import opened Text

  /** Largest day number a time value may have (8.64e15 ms, section 21.4.1.31 of ECMA-262). */
  const MaxDay := 100_000_000

  /** Days from 1970-01-01 to January 1st of `y` (ECMA-262 DayFromYear; `/` on a positive divisor floors). */
  function DayFromYear(y: int): (d: int)
    ensures y == 1970 ==> d == 0
    ensures y == 2000 ==> d == 10957
  {
    365 * (y - 1970) + (y - 1969) / 4 - (y - 1901) / 100 + (y - 1601) / 400
  }

  predicate IsLeapYear(y: int)
  {
    y % 4 == 0 && (y % 100 != 0 || y % 400 == 0)
  }

  function DaysInMonth(m: int, leap: bool): int
    requires 0 <= m < 12
  {
    if m == 1 then (if leap then 29 else 28)
    else if m == 3 || m == 5 || m == 8 || m == 10 then 30
    else 31
  }

  /** Days in the months of a year before month `m` (0-based). */
  function DaysBeforeMonth(m: int, leap: bool): (d: int)
    requires 0 <= m < 12
    ensures m == 0 ==> d == 0
  {
    var common :=
      if m < 6 then (if m < 3 then (if m == 0 then 0 else if m == 1 then 31 else 59)
                     else (if m == 3 then 90 else if m == 4 then 120 else 151))
      else (if m < 9 then (if m == 6 then 181 else if m == 7 then 212 else 243)
            else (if m == 9 then 273 else if m == 10 then 304 else 334));
    common + (if leap && m >= 2 then 1 else 0)
  }

  /**
   * ECMA-262 MakeDay: the day number of day `date` of month `month`
   * (0-based, out-of-range values carried into the year) of `year`.
   */
  function MakeDay(year: int, month: int, date: int): int
  {
    var ym := year + month / 12;
    var mn := month % 12;
    DayFromYear(ym) + DaysBeforeMonth(mn, IsLeapYear(ym)) + date - 1
  }

  /**
   * MakeDay carries an out-of-range month into the year and an
   * out-of-range day into the following days: twelve months on is the same
   * month a year later, and one day on is the next day number.
   */
  lemma MakeDayCarry(y: int, m: int, d: int)
    ensures MakeDay(y, m + 12, d) == MakeDay(y + 1, m, d)
    ensures MakeDay(y, m, d + 1) == MakeDay(y, m, d) + 1
  {
    assert (m + 12) / 12 == m / 12 + 1;
    assert (m + 12) % 12 == m % 12;
  }

  /** The year `new Date` takes from the string "20" + `p`: 20 * 10^|p| + p, with 0..99 read as 1900..1999. */
  function YearOf(p: string): (y: int)
    requires AllDigits(p)
    ensures |p| == 0 ==> y == 1920
    ensures |p| == 1 ==> y == 200 + DigitsValue(p)
    ensures |p| == 2 ==> y == 2000 + DigitsValue(p)
  {
    var y := 20 * Power10(|p|) + DigitsValue(p);
    if y <= 99 then 1900 + y else y
  }

  /**
   * `parseDate(s)`: the time value, in days, of the date `s` names.
   * Fewer or more than three '/'-separated parts give the epoch; parts
   * that are not digit strings, or a date beyond the time-value range,
   * give the invalid date.
   */
  function DateKey(s: string): (r: Option<int>)
    ensures |Split(s, '/')| != 3 ==> r == Some(0)
  {
    PartsKey(Split(s, '/'))
  }

  /** The date named by the '/'-separated parts of a date string. */
  function PartsKey(parts: seq<string>): (r: Option<int>)
    ensures r.Some? ==> -MaxDay <= r.value <= MaxDay
  {
    if |parts| != 3 then Some(0)
    else if !(AllDigits(parts[0]) && AllDigits(parts[1]) && AllDigits(parts[2])) then None
    else
      var t := MakeDay(YearOf(parts[2]), DigitsValue(parts[1]) - 1, DigitsValue(parts[0]));
      if -MaxDay <= t <= MaxDay then Some(t) else None
  }

  /** `a < b` on two `Date` values: false as soon as either is invalid. */
  predicate Before(a: Option<int>, b: Option<int>)
  {
    a.Some? && b.Some? && a.value < b.value
  }

  /** `<` on dates is a strict order, and an invalid date is neither before nor after any date. */
  lemma BeforeStrictOrder(a: Option<int>, b: Option<int>, c: Option<int>)
    ensures !Before(a, a)
    ensures Before(a, b) && Before(b, c) ==> Before(a, c)
    ensures a.None? ==> !Before(a, b) && !Before(b, a)
  {
  }

  /** A real calendar date: month 1..12 and a day that exists in that month. */
  predicate IsCalendarDate(y: int, m: int, d: int)
  {
    1 <= m <= 12 && 1 <= d <= DaysInMonth(m - 1, IsLeapYear(y))
  }

  /** Quotient and remainder are the only ones with `0 <= r < k`. */
  lemma DivUnique(n: int, k: int, q: int, r: int)
    requires k > 0 && 0 <= r < k && n == k * q + r
    ensures n / k == q && n % k == r
  {
    var q', r' := n / k, n % k;
    MulSub(k, q, q');
    if q > q' {
      MulAtLeast(k, q - q');
    } else if q < q' {
      MulSub(k, q', q);
      MulAtLeast(k, q' - q);
    }
  }

  lemma MulSub(k: int, a: int, b: int)
    ensures k * (a - b) == k * a - k * b
  {
  }

  lemma MulAtLeast(k: int, d: int)
    requires k > 0 && d >= 1
    ensures k * d >= k
  {
  }

  /** Moving up by one adds one to the quotient exactly when it reaches a multiple of `k`. */
  lemma DivStep(n: int, k: int)
    requires k > 0
    ensures (n + 1) / k - n / k == if (n + 1) % k == 0 then 1 else 0
  {
    var q, r := n / k, n % k;
    if r == k - 1 {
      DivUnique(n + 1, k, q + 1, 0);
    } else {
      DivUnique(n + 1, k, q, r + 1);
    }
  }

  /** Shifting by a multiple of `k` keeps divisibility by `k`. */
  lemma ModShift(y: int, c: int, k: int)
    requires k > 0 && c % k == 0
    ensures (y - c) % k == 0 <==> y % k == 0
  {
    var b := c / k;
    if (y - c) % k == 0 {
      DivUnique(y, k, (y - c) / k + b, 0);
    }
    if y % k == 0 {
      DivUnique(y - c, k, y / k - b, 0);
    }
  }

  /** Consecutive years are 365 or 366 days apart. */
  lemma YearLength(y: int)
    ensures DayFromYear(y + 1) - DayFromYear(y) == if IsLeapYear(y) then 366 else 365
  {
    DivStep(y - 1969, 4);
    DivStep(y - 1901, 100);
    DivStep(y - 1601, 400);
    ModShift(y, 1968, 4);
    ModShift(y, 1900, 100);
    ModShift(y, 1600, 400);
    assert y % 400 == 0 ==> y % 100 == 0 by {
      if y % 400 == 0 {
        DivUnique(y, 100, 4 * (y / 400), 0);
      }
    }
    assert y % 100 == 0 ==> y % 4 == 0 by {
      if y % 100 == 0 {
        DivUnique(y, 4, 25 * (y / 100), 0);
      }
    }
  }

  /** Day numbers of January 1st grow with the year. */
  lemma {:induction false} YearsIncrease(y1: int, y2: int)
    requires y1 < y2
    ensures DayFromYear(y1) + 365 <= DayFromYear(y2)
    decreases y2 - y1
  {
    YearLength(y1);
    if y1 + 1 < y2 {
      YearsIncrease(y1 + 1, y2);
    }
  }

  lemma {:induction false} MonthsIncrease(m1: int, m2: int, leap: bool)
    requires 0 <= m1 < m2 < 12
    ensures DaysBeforeMonth(m1, leap) + DaysInMonth(m1, leap) <= DaysBeforeMonth(m2, leap)
    decreases m2 - m1
  {
    assert DaysBeforeMonth(m1 + 1, leap) == DaysBeforeMonth(m1, leap) + DaysInMonth(m1, leap);
    if m1 + 1 < m2 {
      MonthsIncrease(m1 + 1, m2, leap);
    }
  }

  /** For a month 1..12 nothing is carried into the year. */
  lemma MakeDayInYear(y: int, m: int, d: int)
    requires 1 <= m <= 12
    ensures MakeDay(y, m - 1, d) == DayFromYear(y) + DaysBeforeMonth(m - 1, IsLeapYear(y)) + d - 1
  {
    assert (m - 1) / 12 == 0 && (m - 1) % 12 == m - 1;
  }

  /** A date lies within its year: after January 1st and before the next one. */
  lemma WithinYear(y: int, m: int, d: int)
    requires IsCalendarDate(y, m, d)
    ensures DayFromYear(y) <= MakeDay(y, m - 1, d) < DayFromYear(y + 1)
  {
    YearLength(y);
    MakeDayInYear(y, m, d);
    OffsetInYear(m, d, IsLeapYear(y));
  }

  /** The offset of a real (month, day) from January 1st is less than the length of the year. */
  lemma OffsetInYear(m: int, d: int, leap: bool)
    requires 1 <= m <= 12 && 1 <= d <= DaysInMonth(m - 1, leap)
    ensures 0 <= DaysBeforeMonth(m - 1, leap) + d - 1 < if leap then 366 else 365
  {
    if m < 12 {
      MonthsIncrease(m - 1, 11, leap);
    }
  }

  /** A date in an earlier year has a smaller day number. */
  lemma EarlierYear(y1: int, m1: int, d1: int, y2: int, m2: int, d2: int)
    requires IsCalendarDate(y1, m1, d1) && IsCalendarDate(y2, m2, d2) && y1 < y2
    ensures MakeDay(y1, m1 - 1, d1) < MakeDay(y2, m2 - 1, d2)
  {
    WithinYear(y1, m1, d1);
    WithinYear(y2, m2, d2);
    YearsMonotone(y1 + 1, y2);
  }

  lemma YearsMonotone(y1: int, y2: int)
    requires y1 <= y2
    ensures DayFromYear(y1) <= DayFromYear(y2)
  {
    if y1 < y2 {
      YearsIncrease(y1, y2);
    }
  }

  /** Within one year, day numbers follow (month, day) order. */
  lemma SameYear(y: int, m1: int, d1: int, m2: int, d2: int)
    requires IsCalendarDate(y, m1, d1) && IsCalendarDate(y, m2, d2)
    ensures MakeDay(y, m1 - 1, d1) < MakeDay(y, m2 - 1, d2) <==> m1 < m2 || (m1 == m2 && d1 < d2)
  {
    MakeDayInYear(y, m1, d1);
    MakeDayInYear(y, m2, d2);
    OffsetOrder(m1, d1, m2, d2, IsLeapYear(y));
  }

  /** Within a year, the offset of (month, day) from January 1st follows (month, day) order. */
  lemma OffsetOrder(m1: int, d1: int, m2: int, d2: int, leap: bool)
    requires 1 <= m1 <= 12 && 1 <= d1 <= DaysInMonth(m1 - 1, leap)
    requires 1 <= m2 <= 12 && 1 <= d2 <= DaysInMonth(m2 - 1, leap)
    ensures DaysBeforeMonth(m1 - 1, leap) + d1 < DaysBeforeMonth(m2 - 1, leap) + d2
      <==> m1 < m2 || (m1 == m2 && d1 < d2)
  {
    if m1 < m2 {
      MonthsIncrease(m1 - 1, m2 - 1, leap);
    } else if m2 < m1 {
      MonthsIncrease(m2 - 1, m1 - 1, leap);
    }
  }


  /**
   * On real calendar dates the day number orders dates exactly as the
   * (year, month, day) triple does lexicographically.
   */
  lemma CalendarOrder(y1: int, m1: int, d1: int, y2: int, m2: int, d2: int)
    requires IsCalendarDate(y1, m1, d1) && IsCalendarDate(y2, m2, d2)
    ensures MakeDay(y1, m1 - 1, d1) < MakeDay(y2, m2 - 1, d2)
        <==> y1 < y2 || (y1 == y2 && (m1 < m2 || (m1 == m2 && d1 < d2)))
  {
    if y1 < y2 {
      EarlierYear(y1, m1, d1, y2, m2, d2);
    } else if y2 < y1 {
      EarlierYear(y2, m2, d2, y1, m1, d1);
    } else {
      SameYear(y1, m1, d1, m2, d2);
    }
  }

  /** The parts of a date written in the sheet's D/M/YY form: digits, a two-digit year. */
  predicate IsShortDate(parts: seq<string>)
  {
    |parts| == 3 && AllDigits(parts[0]) && AllDigits(parts[1]) && AllDigits(parts[2])
    && 1 <= |parts[0]| <= 2 && 1 <= |parts[1]| <= 2 && |parts[2]| == 2
  }

  /** The year, month and day a short date names. */
  function ShortYear(parts: seq<string>): (y: int)
    requires IsShortDate(parts)
    ensures 2000 <= y <= 2099
  {
    DigitsBound(parts[2]);
    2000 + DigitsValue(parts[2])
  }

  function ShortMonth(parts: seq<string>): (m: int)
    requires IsShortDate(parts)
    ensures 0 <= m <= 99
  {
    DigitsBound(parts[1]);
    DigitsValue(parts[1])
  }

  function ShortDay(parts: seq<string>): (d: int)
    requires IsShortDate(parts)
    ensures 0 <= d <= 99
  {
    DigitsBound(parts[0]);
    DigitsValue(parts[0])
  }

  lemma DigitsBound(p: string)
    requires AllDigits(p) && |p| <= 2
    ensures DigitsValue(p) < Power10(|p|) <= 100
  {
    if |p| > 0 {
      assert p[..|p| - 1][..|p[..|p| - 1]|] == p[..|p| - 1];
      if |p| == 2 {
        assert p[..1][..0] == [];
      } else {
        assert p[..0] == [];
      }
    }
  }

  /** The day number of the date a short date names. */
  function ShortDateDay(parts: seq<string>): int
    requires IsShortDate(parts)
  {
    MakeDay(ShortYear(parts), ShortMonth(parts) - 1, ShortDay(parts))
  }

  /**
   * A short date is never the invalid date and always lies after the epoch,
   * so a malformed date (the epoch) is before every short date.
   */
  lemma ShortDateAfterEpoch(parts: seq<string>)
    requires IsShortDate(parts)
    ensures PartsKey(parts) == Some(ShortDateDay(parts))
    ensures ShortDateDay(parts) > 0
  {
    var y, m, d := ShortYear(parts), ShortMonth(parts), ShortDay(parts);
    assert Power10(2) == 100;
    assert YearOf(parts[2]) == y;
    DayInRange(y, m, d);
  }

  /** A day of a month 0..99 of a year 2000..2099 lies after the epoch and within the time-value range. */
  lemma DayInRange(y: int, m: int, d: int)
    requires 2000 <= y <= 2099 && 0 <= m <= 99 && 0 <= d <= 99
    ensures 0 < MakeDay(y, m - 1, d) <= MaxDay
  {
    var ym := y + (m - 1) / 12;
    assert 1999 <= ym <= 2107;
    var t := MakeDay(y, m - 1, d);
    assert t == DayFromYear(ym) + DaysBeforeMonth((m - 1) % 12, IsLeapYear(ym)) + d - 1;
    assert DayFromYear(1999) == 10592;
    if ym > 1999 {
      YearsIncrease(1999, ym);
    }
    if ym < 2108 {
      YearsIncrease(ym, 2108);
    }
    assert DayFromYear(2108) < MaxDay;
  }


  /** A short date naming a day that exists. */
  predicate IsRealShortDate(parts: seq<string>)
  {
    IsShortDate(parts) && IsCalendarDate(ShortYear(parts), ShortMonth(parts), ShortDay(parts))
  }

  /** Comparison of two short dates as (year, month, day) triples. */
  predicate LexBefore(a: seq<string>, b: seq<string>)
    requires IsShortDate(a) && IsShortDate(b)
  {
    var y1, m1, d1 := ShortYear(a), ShortMonth(a), ShortDay(a);
    var y2, m2, d2 := ShortYear(b), ShortMonth(b), ShortDay(b);
    y1 < y2 || (y1 == y2 && (m1 < m2 || (m1 == m2 && d1 < d2)))
  }

  /** Day numbers of real short dates follow their (year, month, day) order. */
  lemma ShortDateDayOrder(a: seq<string>, b: seq<string>)
    requires IsRealShortDate(a) && IsRealShortDate(b)
    ensures ShortDateDay(a) < ShortDateDay(b) <==> LexBefore(a, b)
  {
    var y1, m1, d1 := ShortYear(a), ShortMonth(a), ShortDay(a);
    var y2, m2, d2 := ShortYear(b), ShortMonth(b), ShortDay(b);
    var t1, t2 := ShortDateDay(a), ShortDateDay(b);
    var lex := LexBefore(a, b);
    assert t1 == MakeDay(y1, m1 - 1, d1);
    assert t2 == MakeDay(y2, m2 - 1, d2);
    assert lex <==> y1 < y2 || (y1 == y2 && (m1 < m2 || (m1 == m2 && d1 < d2)));
    CalendarOrder(y1, m1, d1, y2, m2, d2);
    if lex {
      assert t1 < t2;
    } else {
      assert !(t1 < t2);
    }
  }

  /**
   * Comparing two short dates that name real calendar days, as the filter
   * does, is comparing their (year, month, day) triples.
   */
  lemma ShortDateOrder(a: seq<string>, b: seq<string>)
    requires IsRealShortDate(a) && IsRealShortDate(b)
    ensures Before(PartsKey(a), PartsKey(b)) <==> LexBefore(a, b)
  {
    ShortDateAfterEpoch(a);
    ShortDateAfterEpoch(b);
    ShortDateDayOrder(a, b);
  }
}
