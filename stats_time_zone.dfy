/** The month filter of the summary card as the source writes it
    (components/Dashboard.tsx): `new Date(l.date)` reads a date-only string
    as midnight UTC (ECMA-262, section 21.4.3.2), and `getMonth()` and
    `getFullYear()` then read that instant in the local time zone. West of
    UTC the local calendar date is the day before, so a log of the first of
    a month is counted toward the previous month. `Dashboard.CountsToward`
    is the reading the summary evidently intends: the month and year
    written in the date. */
module StatsTimeZone {

  import opened Wrappers
  import opened DateUtils
  import opened Types
  import opened Store
  import opened Dashboard
  import opened DashboardValues

  /** The local calendar date of midnight UTC of `d`, for a local offset
      from UTC of `offsetMinutes` (east positive, less than a day either
      way): the same date east of UTC, the day before west of it. */
  function LocalDate(d: Date, offsetMinutes: int): (r: Date)
    requires d.Valid() && -1440 < offsetMinutes < 1440
    ensures r.Valid()
    ensures offsetMinutes >= 0 ==> r == d
    ensures offsetMinutes < 0 && d.day > 1 ==> r == Date(d.fullYear, d.month, d.day - 1)
    ensures offsetMinutes < 0 && d.day == 1 ==>
              r.day == MonthLength(r.month, r.fullYear) && r.fullYear * 12 + r.month == d.fullYear * 12 + d.month - 1
  {
    if offsetMinutes >= 0 then d
    else if d.day > 1 then Date(d.fullYear, d.month, d.day - 1)
    else if d.month > 0 then Date(d.fullYear, d.month - 1, MonthLength(d.month - 1, d.fullYear))
    else Date(d.fullYear - 1, 11, 31)
  }

  /** The `stats` filter as written: the local month and year of the
      parsed instant, and the completed flag. */
  predicate CountsTowardAsWritten(log: HabitLog, month: int, year: int, offsetMinutes: int)
    requires -1440 < offsetMinutes < 1440
  {
    var d := ParseDateOnly(log.date);
    d.Some? && LocalDate(d.value, offsetMinutes).month == month
    && LocalDate(d.value, offsetMinutes).fullYear == year && log.completed
  }

  /** At UTC and east of it the written filter is the intended one. */
  lemma EastOfUtcAgrees(log: HabitLog, month: int, year: int, offsetMinutes: int)
    requires 0 <= offsetMinutes < 1440
    ensures CountsTowardAsWritten(log, month, year, offsetMinutes) <==> CountsToward(log, month, year)
  {
  }

  /** West of UTC the written filter disagrees with the intended one
      exactly on the first of a month: a completed log of 1 March 2026
      counts toward February at UTC-5 and not toward March. */
  lemma FirstOfMonthMiscounted()
    ensures var log := HabitLog("x", "1", "2026-03-01", true, 0);
            && CountsTowardAsWritten(log, 1, 2026, -300)
            && !CountsTowardAsWritten(log, 2, 2026, -300)
            && CountsToward(log, 2, 2026)
            && !CountsToward(log, 1, 2026)
  {
    CalendarDateParses(2026, 2, 1);
    FourDigits(2026);
    DecimalRoundTrip(2026);
    assert CalendarDate(2026, 2, 1) == "2026-03-01";
  }

  /** West of UTC the written filter agrees with the intended one on every
      day but the first of a month. */
  lemma WestOfUtcAgreesAfterFirst(log: HabitLog, month: int, year: int, offsetMinutes: int)
    requires -1440 < offsetMinutes < 0
    requires ParseDateOnly(log.date).Some? && ParseDateOnly(log.date).value.day > 1
    ensures CountsTowardAsWritten(log, month, year, offsetMinutes) <==> CountsToward(log, month, year)
  {
  }

  /** The keys `stats` as written counts: the completed entries whose date,
      read in the local time zone, falls in the month on display. Their
      number is the summary's `totalCompleted` as the source computes it. */
  function CountedKeysAsWritten(logs: map<string, HabitLog>, month: int, year: int, offsetMinutes: int)
    : (s: set<string>)
    requires -1440 < offsetMinutes < 1440
    ensures forall k :: k in s <==> k in logs && CountsTowardAsWritten(logs[k], month, year, offsetMinutes)
  {
    set k | k in logs && CountsTowardAsWritten(logs[k], month, year, offsetMinutes)
  }

  /** A habit completed on one scanned day has at least one completed day. */
  lemma {:induction false} CompletedDaysCountsDay(h: Habit, logs: map<string, HabitLog>, prefix: string,
                                                 upTo: int, d: int)
    requires 1 <= d <= upTo <= 99
    requires IsCompleted(logs, LogKey(h.id, prefix + TwoDigits(d)))
    ensures CompletedDays(h, logs, prefix, upTo) >= 1
    decreases upTo
  {
    if d < upTo {
      CompletedDaysCountsDay(h, logs, prefix, upTo - 1, d);
    }
  }

  /** A habit ticked on one day of the month gives the category chart at
      least one completed slot. */
  lemma OneSlotInChart(h: Habit, logs: map<string, HabitLog>, month: int, year: int, d: int)
    requires 0 <= month <= 11 && 1 <= d <= DaysInMonth(month, year)
    requires IsCompleted(logs, LogKey(h.id, MonthPrefix(year, month) + TwoDigits(d)))
    ensures SumValues(CategoryBreakdown([h], logs, month, year)) >= 1
  {
    var prefix := MonthPrefix(year, month);
    CompletedDaysCountsDay(h, logs, prefix, DaysInMonth(month, year), d);
    assert [h][..0] == [];
    DropEmptyKeepsValues(CategoryEntries([h], logs, month, year));
    EntriesValues([h], logs, month, year);
  }

  /** The key of habit "1" on the first day of March 2026. */
  lemma FirstOfMarchKey()
    ensures LogKey("1", MonthPrefix(2026, 2) + TwoDigits(1)) == "1-2026-03-01"
  {
    CalendarDateParses(2026, 2, 1);
    FourDigits(2026);
    DecimalRoundTrip(2026);
    assert CalendarDate(2026, 2, 1) == "2026-03-01";
  }

  /** The one-entry log map of the example sits under its own key. */
  lemma FirstOfMarchWellKeyed(logs: map<string, HabitLog>)
    requires logs == map["1-2026-03-01" := HabitLog("x", "1", "2026-03-01", true, 0)]
    ensures WellKeyed(logs)
  {
    assert LogKey("1", "2026-03-01") == "1-2026-03-01";
    assert logs.Keys == {"1-2026-03-01"};
  }

  /** As written, the bound `CategoryValuesWithinStats` proves for the
      intended filter fails west of UTC: one habit ticked on 1 March 2026
      gives the category chart a completed slot in March, while at UTC-5
      `stats` counts no log of March. The logs are well-keyed and the ids
      distinct, so only the reading of the date differs. */
  lemma AsWrittenStatsMissTheFirst()
    ensures var h := Habit("1", "Read", Health, 0);
            var logs := map["1-2026-03-01" := HabitLog("x", "1", "2026-03-01", true, 0)];
            && WellKeyed(logs) && DistinctIds([h])
            && SumValues(CategoryBreakdown([h], logs, 2, 2026)) >= 1
            && CountedKeysAsWritten(logs, 2, 2026, -300) == {}
  {
    var h := Habit("1", "Read", Health, 0);
    var logs := map["1-2026-03-01" := HabitLog("x", "1", "2026-03-01", true, 0)];
    FirstOfMarchKey();
    FirstOfMarchWellKeyed(logs);
    OneSlotInChart(h, logs, 2, 2026, 1);
    FirstOfMonthMiscounted();
    assert CountedKeysAsWritten(logs, 2, 2026, -300) == {};
  }

}
