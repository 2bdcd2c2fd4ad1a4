/** Calendar helpers (utils/dateUtils.ts): month lengths and the
    `YYYY-MM-DD` strings that key the log map. A JavaScript `Date` is
    represented by the three fields the tracker reads from it. */
module DateUtils {

  import opened Wrappers

  /** The Gregorian leap-year rule. */
  predicate IsLeapYear(y: int)
  {
    (y % 4 == 0 && y % 100 != 0) || y % 400 == 0
  }

  /** The year a `Date` built from the year argument `year` carries: the
      ECMAScript Date constructor (ECMA-262, section 21.4.2.1) reads a year
      argument from 0 to 99 as 1900 to 1999. */
  function FullYear(year: int): int
  {
    if 0 <= year <= 99 then 1900 + year else year
  }

  /** The length of the 0-based month `m` of the full year `y`. */
  function MonthLength(m: int, y: int): int
    requires 0 <= m <= 11
  {
    if m == 1 then (if IsLeapYear(y) then 29 else 28)
    else if m == 3 || m == 5 || m == 8 || m == 10 then 30
    else 31
  }

  /** `getDaysInMonth(month, year)`: the length of `month` in the full year
      of `year` (the constructor maps a year argument from 0 to 99 into the
      1900s). The source reads it as the day of month of
      `new Date(year, month + 1, 0)`; `DaysInMonthRollsOver` proves that this
      roll-over gives the same number. Every caller passes a `getMonth()`
      result, so `month` is a 0-based month. */
  function DaysInMonth(month: int, year: int): (r: int)
    requires 0 <= month <= 11
    ensures 28 <= r <= 31
    ensures (month == 0 || month == 2 || month == 4 || month == 6 || month == 7 || month == 9 || month == 11)
            ==> r == 31
    ensures (month == 3 || month == 5 || month == 8 || month == 10) ==> r == 30
    ensures month == 1 ==> (r == 29 <==> IsLeapYear(FullYear(year)))
    ensures month == 1 ==> (r == 28 <==> !IsLeapYear(FullYear(year)))
  {
    MonthLength(month, FullYear(year))
  }

  /** The twelve month lengths add up to the length of the year. */
  lemma YearLength(year: int)
    ensures DaysInMonth(0, year) + DaysInMonth(1, year) + DaysInMonth(2, year)
          + DaysInMonth(3, year) + DaysInMonth(4, year) + DaysInMonth(5, year)
          + DaysInMonth(6, year) + DaysInMonth(7, year) + DaysInMonth(8, year)
          + DaysInMonth(9, year) + DaysInMonth(10, year) + DaysInMonth(11, year)
         == if IsLeapYear(FullYear(year)) then 366 else 365
  {
  }

  /** ECMA-262's DaysInYear, for a year that is a leap year or not. */
  function YearDays(leap: bool): int
  {
    if leap then 366 else 365
  }

  /** The day within the year on which the 0-based month `m` starts: the
      thresholds of ECMA-262's MonthFromTime, one day later from March on
      in a leap year. */
  function MonthStart(m: int, leap: bool): int
    requires 0 <= m <= 11
  {
    var l := if leap then 1 else 0;
    if m == 0 then 0
    else if m == 1 then 31
    else if m == 2 then 59 + l
    else if m == 3 then 90 + l
    else if m == 4 then 120 + l
    else if m == 5 then 151 + l
    else if m == 6 then 181 + l
    else if m == 7 then 212 + l
    else if m == 8 then 243 + l
    else if m == 9 then 273 + l
    else if m == 10 then 304 + l
    else 334 + l
  }

  /** MonthFromTime: the month from `m` on whose range of days holds the day
      `t` within the year. */
  function MonthOfDay(t: int, leap: bool, m: int): (r: int)
    requires 0 <= m <= 11 && MonthStart(m, leap) <= t
    ensures m <= r <= 11 && MonthStart(r, leap) <= t
    ensures r < 11 ==> t < MonthStart(r + 1, leap)
    decreases 11 - m
  {
    if m == 11 || t < MonthStart(m + 1, leap) then m else MonthOfDay(t, leap, m + 1)
  }

  /** DateFromTime: the day of month of the day `t` within a year. */
  function DateOfDay(t: int, leap: bool): int
    requires 0 <= t
  {
    t - MonthStart(MonthOfDay(t, leap, 0), leap) + 1
  }

  /** `getDate()` of day 0 of the 0-based month `m`, in a year that is a
      leap year or not and after one that is or not: the day before the
      month's first day, which for January is the last day of the year
      before. */
  function DayZeroOf(m: int, leap: bool, leapBefore: bool): int
    requires 0 <= m <= 11
  {
    var t := MonthStart(m, leap) - 1;
    if t < 0 then DateOfDay(YearDays(leapBefore) - 1, leapBefore) else DateOfDay(t, leap)
  }

  /** `new Date(year, month + 1, 0).getDate()` as the Date constructor
      computes it, for any `month`: the year argument made full, the month
      carried into the year (MakeDay adds `floor(m / 12)` years and keeps
      `m modulo 12`), then the date of day 0 of that month. */
  function RollOverDay(month: int, year: int): int
  {
    var y := FullYear(year) + (month + 1) / 12;
    DayZeroOf((month + 1) % 12, IsLeapYear(y), IsLeapYear(y - 1))
  }

  /** Later months start later. */
  lemma MonthStartMonotone(a: int, b: int, leap: bool)
    requires 0 <= a < b <= 11
    ensures MonthStart(a, leap) < MonthStart(b, leap)
  {
  }

  /** MonthFromTime finds the one month whose range holds `t`: searching
      from any month `m` up to it yields `k`. */
  lemma {:induction false} MonthOfDayIs(t: int, leap: bool, m: int, k: int)
    requires 0 <= m <= k <= 11 && MonthStart(m, leap) <= t && MonthStart(k, leap) <= t
    requires k < 11 ==> t < MonthStart(k + 1, leap)
    ensures MonthOfDay(t, leap, m) == k
    decreases k - m
  {
    if m < k {
      if m + 1 < k {
        MonthStartMonotone(m + 1, k, leap);
      }
      MonthOfDayIs(t, leap, m + 1, k);
    }
  }

  /** The day before the start of month `m + 1` is the last day of month
      `m`, whose date is the length of `m`. */
  lemma DayBeforeMonthStart(m: int, leap: bool)
    requires 0 <= m < 11
    ensures DateOfDay(MonthStart(m + 1, leap) - 1, leap)
         == MonthStart(m + 1, leap) - MonthStart(m, leap)
  {
    MonthStartMonotone(m, m + 1, leap);
    if m > 0 {
      MonthStartMonotone(0, m, leap);
    }
    MonthOfDayIs(MonthStart(m + 1, leap) - 1, leap, 0, m);
  }

  /** The last day of a year falls in December, on its 31st. */
  lemma LastDayOfYear(leap: bool)
    ensures DateOfDay(YearDays(leap) - 1, leap) == 31
  {
    MonthOfDayIs(YearDays(leap) - 1, leap, 0, 11);
  }

  /** A month's length is the gap between its start and the next one's. */
  lemma LengthIsGap(m: int, y: int)
    requires 0 <= m < 11
    ensures MonthLength(m, y) == MonthStart(m + 1, IsLeapYear(y)) - MonthStart(m, IsLeapYear(y))
  {
  }

  /** Day 0 of a month is the last day of the month before it: the 31st
      of December for January, otherwise the gap between the two month
      starts. */
  lemma DayZeroIsLastDay(m: int, leap: bool, leapBefore: bool)
    requires 0 <= m <= 11
    ensures DayZeroOf(m, leap, leapBefore)
         == if m == 0 then 31 else MonthStart(m, leap) - MonthStart(m - 1, leap)
  {
    if m == 0 {
      LastDayOfYear(leapBefore);
    } else {
      DayBeforeMonthStart(m - 1, leap);
    }
  }

  /** `getDaysInMonth` is the roll-over of the Date constructor: for a
      0-based month, day 0 of the next month is the month's last day. */
  lemma DaysInMonthRollsOver(month: int, year: int)
    requires 0 <= month <= 11
    ensures RollOverDay(month, year) == DaysInMonth(month, year)
  {
    var carried := FullYear(year) + (month + 1) / 12;
    var m := (month + 1) % 12;
    DayZeroIsLastDay(m, IsLeapYear(carried), IsLeapYear(carried - 1));
    if month < 11 {
      assert m == month + 1 && carried == FullYear(year);
      LengthIsGap(month, carried);
    }
  }

  /** What `getFullYear()`, `getMonth()` (0-based) and `getDate()` read
      from a `Date`. */
  datatype Date = Date(fullYear: int, month: int, day: int)
  {
    predicate Valid()
    {
      0 <= month <= 11 && 1 <= day <= 31
    }
  }

  /** `new Date(year, month, day)` for a day that exists in that month, so
      that no field overflows into the next. */
  function NewDate(year: int, month: int, day: int): (d: Date)
    requires 0 <= month <= 11 && 1 <= day <= DaysInMonth(month, year)
    ensures d.Valid() && d.month == month && d.day == day
    ensures (year < 0 || 100 <= year) ==> d.fullYear == year
  {
    Date(FullYear(year), month, day)
  }

  predicate IsDigit(c: char)
  {
    '0' <= c <= '9'
  }

  predicate AllDigits(s: string)
  {
    forall i :: 0 <= i < |s| ==> IsDigit(s[i])
  }

  function DigitChar(n: nat): (c: char)
    requires n < 10
    ensures IsDigit(c) && c as int - '0' as int == n
  {
    ('0' as int + n) as char
  }

  /** `String(n)` for a non-negative integer: its decimal digits, most
      significant first, without leading zeros. */
  function DecimalString(n: nat): (s: string)
    ensures 1 <= |s| && AllDigits(s)
    ensures |s| == 1 <==> n < 10
    decreases n
  {
    if n < 10 then [DigitChar(n)] else DecimalString(n / 10) + [DigitChar(n % 10)]
  }

  /** The number a string of decimal digits denotes. */
  function DecimalValue(s: string): nat
    requires AllDigits(s)
  {
    if s == [] then 0
    else DecimalValue(s[..|s| - 1]) * 10 + (s[|s| - 1] as int - '0' as int)
  }

  /** Reading back the digits of `n` gives `n`. */
  lemma {:induction false} DecimalRoundTrip(n: nat)
    ensures DecimalValue(DecimalString(n)) == n
    decreases n
  {
    if n >= 10 {
      var s := DecimalString(n);
      assert s[..|s| - 1] == DecimalString(n / 10);
      DecimalRoundTrip(n / 10);
    }
  }

  /** Numbers from 1000 to 9999 are written with exactly four digits. */
  lemma {:induction false} FourDigits(n: nat)
    requires 1000 <= n <= 9999
    ensures |DecimalString(n)| == 4
  {
    assert |DecimalString(n / 10)| == |DecimalString(n / 100)| + 1;
    assert |DecimalString(n / 100)| == |DecimalString(n / 1000)| + 1;
  }

  /** `String(i)` for any integer: a minus sign before the digits of a
      negative number. */
  function IntString(i: int): string
  {
    if i < 0 then "-" + DecimalString(-i) else DecimalString(i)
  }

  /** `s.padStart(2, '0')`: zeros prepended until the string has two
      characters; a longer string is kept as it is. */
  function PadStart2(s: string): (r: string)
    ensures |r| == if |s| >= 2 then |s| else 2
    ensures r[|r| - |s|..] == s
    ensures forall i :: 0 <= i < |r| - |s| ==> r[i] == '0'
  {
    if |s| >= 2 then s else if |s| == 1 then "0" + s else "00"
  }

  /** The two decimal digits of `n`, tens first. */
  function TwoDigits(n: nat): (s: string)
    requires n < 100
    ensures |s| == 2 && AllDigits(s)
  {
    [DigitChar(n / 10), DigitChar(n % 10)]
  }

  /** Two digits read back as the number they were made from. */
  lemma TwoDigitsRoundTrip(n: nat)
    requires n < 100
    ensures DecimalValue(TwoDigits(n)) == n
  {
    var s := TwoDigits(n);
    var tens := s[..1];
    assert tens == [DigitChar(n / 10)] && tens[..0] == [];
    assert DecimalValue(tens) == n / 10;
    assert s[..|s| - 1] == tens;
    assert DecimalValue(s) == DecimalValue(tens) * 10 + n % 10;
  }

  /** For a number from 1 to 99, `String(n).padStart(2, '0')` is its two
      digits: a zero before a single digit, the number itself otherwise. */
  lemma PaddedIsTwoDigits(n: nat)
    requires 1 <= n <= 99
    ensures PadStart2(DecimalString(n)) == TwoDigits(n)
  {
    if n >= 10 {
      assert DecimalString(n) == DecimalString(n / 10) + [DigitChar(n % 10)];
      assert DecimalString(n / 10) == [DigitChar(n / 10)];
    } else {
      assert DecimalString(n) == [DigitChar(n)];
      assert n / 10 == 0 && n % 10 == n;
      assert PadStart2([DigitChar(n)]) == "0" + [DigitChar(n)];
    }
  }

  /** Year, month and day strings joined by dashes. */
  function DashJoin(y: string, m: string, d: string): string
  {
    y + "-" + m + "-" + d
  }

  /** A four-character year and two two-character fields join into ten
      characters with the dashes at positions 4 and 7, and the three parts
      can be cut back out. */
  lemma DashJoinShape(y: string, m: string, d: string)
    requires |y| == 4 && |m| == 2 && |d| == 2
    ensures |DashJoin(y, m, d)| == 10
    ensures DashJoin(y, m, d)[4] == '-' && DashJoin(y, m, d)[7] == '-'
    ensures DashJoin(y, m, d)[..4] == y
    ensures DashJoin(y, m, d)[5..7] == m
    ensures DashJoin(y, m, d)[8..] == d
  {
    var s := DashJoin(y, m, d);
    assert s == y + ("-" + m + "-" + d);
  }

  /** `formatDate(date)`: year, month (1-based) and day joined by dashes,
      month and day zero-padded to two digits. Month and day of a valid
      date are below 100, where padding the decimal string gives the two
      digits (`PaddedIsTwoDigits`). */
  function FormatDate(d: Date): (r: string)
    requires d.Valid()
    ensures 1000 <= d.fullYear <= 9999 ==> |r| == 10 && r[4] == '-' && r[7] == '-'
  {
    var y := IntString(d.fullYear);
    if 1000 <= d.fullYear <= 9999 then
      FourDigits(d.fullYear);
      DashJoinShape(y, TwoDigits(d.month + 1), TwoDigits(d.day));
      DashJoin(y, TwoDigits(d.month + 1), TwoDigits(d.day))
    else
      DashJoin(y, TwoDigits(d.month + 1), TwoDigits(d.day))
  }

  /** The zero-padding form of `formatDate` as the source writes it. */
  lemma FormatDatePads(d: Date)
    requires d.Valid()
    ensures FormatDate(d)
         == DashJoin(IntString(d.fullYear), PadStart2(DecimalString(d.month + 1)), PadStart2(DecimalString(d.day)))
  {
    PaddedIsTwoDigits(d.month + 1);
    PaddedIsTwoDigits(d.day);
  }

  /** The part of the key date that all days of a month share: the year,
      a dash, the 1-based month in two digits and a dash. */
  function MonthPrefix(year: int, month: int): string
    requires 0 <= month <= 11
  {
    IntString(FullYear(year)) + "-" + TwoDigits(month + 1) + "-"
  }

  /** `formatDate(new Date(year, month, day))`, the key date of one day of
      the displayed month as the grid and the dashboard build it: the
      month's prefix followed by the day in two digits. `CalendarDateFormats`
      shows it is `FormatDate` of that date. */
  function CalendarDate(year: int, month: int, day: int): string
    requires 0 <= month <= 11 && 1 <= day <= DaysInMonth(month, year)
  {
    MonthPrefix(year, month) + TwoDigits(day)
  }

  /** The key date of a day is the formatted `Date` of that day. */
  lemma CalendarDateFormats(year: int, month: int, day: int)
    requires 0 <= month <= 11 && 1 <= day <= DaysInMonth(month, year)
    ensures CalendarDate(year, month, day) == FormatDate(NewDate(year, month, day))
  {
  }

  /** Reading a `YYYY-MM-DD` string back into year, 0-based month and day,
      as `new Date(s)` with `getFullYear()` and `getMonth()` read in UTC do
      for a date-only string. Other strings are not read: engines differ in
      what they make of them, and the model treats them as no date. */
  function ParseDateOnly(s: string): (r: Option<Date>)
    ensures r.Some? ==> r.value.Valid() && 0 <= r.value.fullYear <= 9999
    ensures r.Some? ==> |s| == 10 && s[4] == '-' && s[7] == '-'
  {
    if |s| == 10 && s[4] == '-' && s[7] == '-' then ParseFields(s[..4], s[5..7], s[8..]) else None
  }

  /** The year, month and day fields of a date-only string: digits only,
      a month from 1 to 12 and a day from 1 to 31. */
  function ParseFields(y: string, m: string, d: string): (r: Option<Date>)
    requires |y| == 4
    ensures r.Some? ==> r.value.Valid() && 0 <= r.value.fullYear <= 9999
  {
    if AllDigits(y) && AllDigits(m) && AllDigits(d) then
      FourDigitBound(y);
      var mv := DecimalValue(m);
      var dv := DecimalValue(d);
      if 1 <= mv <= 12 && 1 <= dv <= 31 then Some(Date(DecimalValue(y), mv - 1, dv)) else None
    else None
  }

  /** Four digits denote at most 9999. */
  lemma {:induction false} FourDigitBound(s: string)
    requires AllDigits(s) && |s| == 4
    ensures DecimalValue(s) <= 9999
  {
    var v1 := DecimalValue(s[..1]);
    var v2 := DecimalValue(s[..2]);
    var v3 := DecimalValue(s[..3]);
    assert s[..1][..0] == [];
    assert s[..2][..1] == s[..1];
    assert s[..3][..2] == s[..2];
    assert v1 == DecimalValue(s[..1][..0]) * 10 + (s[0] as int - '0' as int) <= 9;
    assert v2 == v1 * 10 + (s[1] as int - '0' as int) <= 99;
    assert v3 == v2 * 10 + (s[2] as int - '0' as int) <= 999;
    assert s[..4] == s;
  }

  /** Parsing three digit fields of widths 4, 2 and 2 joined by dashes
      reads their values. */
  lemma ParseDashJoin(y: string, m: string, d: string)
    requires |y| == 4 && |m| == 2 && |d| == 2
    requires AllDigits(y) && AllDigits(m) && AllDigits(d)
    requires 1 <= DecimalValue(m) <= 12 && 1 <= DecimalValue(d) <= 31
    ensures ParseDateOnly(DashJoin(y, m, d))
         == Some(Date(DecimalValue(y), DecimalValue(m) - 1, DecimalValue(d)))
  {
    var s := DashJoin(y, m, d);
    DashJoinShape(y, m, d);
  }

  /** Splitting a formatted four-digit-year date at its dashes recovers the
      year, the month and the day. */
  lemma FormatDateRoundTrip(d: Date)
    requires d.Valid() && 1000 <= d.fullYear <= 9999
    ensures ParseDateOnly(FormatDate(d)) == Some(d)
  {
    var y := IntString(d.fullYear);
    var m := TwoDigits(d.month + 1);
    var dd := TwoDigits(d.day);
    FourDigits(d.fullYear);
    TwoDigitsRoundTrip(d.month + 1);
    TwoDigitsRoundTrip(d.day);
    DecimalRoundTrip(d.fullYear);
    assert FormatDate(d) == DashJoin(y, m, dd);
    ParseDashJoin(y, m, dd);
  }

  /** Distinct four-digit-year dates give distinct strings, so the date part
      of a log key names one day. */
  lemma FormatDateInjective(d1: Date, d2: Date)
    requires d1.Valid() && 1000 <= d1.fullYear <= 9999
    requires d2.Valid() && 1000 <= d2.fullYear <= 9999
    requires FormatDate(d1) == FormatDate(d2)
    ensures d1 == d2
  {
    FormatDateRoundTrip(d1);
    FormatDateRoundTrip(d2);
  }

  /** Within one month, different days have different key dates, and for a
      four-digit year every key date has ten characters. */
  lemma CalendarDateInjective(year: int, month: int, d1: int, d2: int)
    requires 0 <= month <= 11
    requires 1 <= d1 <= DaysInMonth(month, year) && 1 <= d2 <= DaysInMonth(month, year)
    ensures 1000 <= year <= 9999 ==> |CalendarDate(year, month, d1)| == 10
    ensures CalendarDate(year, month, d1) == CalendarDate(year, month, d2) <==> d1 == d2
  {
    if 1000 <= year <= 9999 {
      FourDigits(year);
    }
    if CalendarDate(year, month, d1) == CalendarDate(year, month, d2) {
      var p := MonthPrefix(year, month);
      assert TwoDigits(d1) == CalendarDate(year, month, d1)[|p|..];
      assert TwoDigits(d2) == CalendarDate(year, month, d2)[|p|..];
      TwoDigitsRoundTrip(d1);
      TwoDigitsRoundTrip(d2);
    }
  }

  /** The key date of a day of the displayed month reads back as that month
      and year. */
  lemma CalendarDateParses(year: int, month: int, day: int)
    requires 1000 <= year <= 9999 && 0 <= month <= 11
    requires 1 <= day <= DaysInMonth(month, year)
    ensures ParseDateOnly(CalendarDate(year, month, day)) == Some(Date(year, month, day))
  {
    CalendarDateFormats(year, month, day);
    FormatDateRoundTrip(NewDate(year, month, day));
  }

}
