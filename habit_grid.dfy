/** The tracker grid (components/HabitGrid.tsx): one column per day of the
    displayed month, one row per habit, a cell per (habit, day) that shows
    and toggles the log entry under that pair's key, and a footer with the
    day's completion percentage and its colour band. */
module HabitGrid {

  import opened Seqs
  import opened Types
  import opened DateUtils
  import opened Store
  import opened Percent
  import opened Dashboard

  /** `dayArray`: the day numbers 1..days of the month, in order. */
  function DayColumns(month: int, year: int): (r: seq<int>)
    requires 0 <= month <= 11
    ensures |r| == DaysInMonth(month, year)
    ensures forall d :: d in r <==> 1 <= d <= DaysInMonth(month, year)
    ensures forall i, j :: 0 <= i < j < |r| ==> r[i] < r[j]
  {
    var days := DaysInMonth(month, year);
    var r := seq(days, i => i + 1);
    forall d | 1 <= d <= days
      ensures d in r
    {
      assert r[d - 1] == d;
    }
    r
  }

  /** The log key of the cell of `habit` on `day`:
      `${habit.id}-${formatDate(new Date(year, month, day))}`. */
  function CellKey(habit: Habit, month: int, year: int, day: int): string
    requires 0 <= month <= 11 && 1 <= day <= DaysInMonth(month, year)
  {
    LogKey(habit.id, CalendarDate(year, month, day))
  }

  /** `logs[logKey]?.completed`: the cell shows a tick. */
  predicate CellCompleted(logs: map<string, HabitLog>, habit: Habit, month: int, year: int, day: int)
    requires 0 <= month <= 11 && 1 <= day <= DaysInMonth(month, year)
  {
    IsCompleted(logs, CellKey(habit, month, year, day))
  }

  /** The log map after a click on the cell of `habit` on `day`:
      `toggleHabit(habit.id, dateStr)` with the cell's own key date. */
  function ClickCell(logs: map<string, HabitLog>, habit: Habit, month: int, year: int, day: int,
                     freshId: string, now: int): map<string, HabitLog>
    requires 0 <= month <= 11 && 1 <= day <= DaysInMonth(month, year)
  {
    ToggleLogs(logs, habit.id, CalendarDate(year, month, day), freshId, now)
  }

  /** A click flips the tick of the clicked cell and of no other cell of the
      month: a cell of another habit id or another day keeps its state. */
  lemma ClickFlipsOnlyThatCell(logs: map<string, HabitLog>, habit: Habit, month: int, year: int, day: int,
                               freshId: string, now: int, other: Habit, otherDay: int)
    requires 0 <= month <= 11 && 1 <= day <= DaysInMonth(month, year)
    requires 1 <= otherDay <= DaysInMonth(month, year)
    ensures var after := ClickCell(logs, habit, month, year, day, freshId, now);
            if other.id == habit.id && otherDay == day
            then CellCompleted(after, other, month, year, otherDay) <==> !CellCompleted(logs, other, month, year, otherDay)
            else CellCompleted(after, other, month, year, otherDay) <==> CellCompleted(logs, other, month, year, otherDay)
  {
    var date := CalendarDate(year, month, day);
    var otherDate := CalendarDate(year, month, otherDay);
    CalendarDateInjective(year, month, day, otherDay);
    assert |date| == |otherDate|;
    LogKeyInjective(other.id, otherDate, habit.id, date);
  }

  /** `completedCount` of the footer cell of `day`: the habits whose entry
      for the day's key date is completed. */
  function FooterCount(habits: seq<Habit>, logs: map<string, HabitLog>, month: int, year: int, day: int)
    : (n: nat)
    requires 0 <= month <= 11 && 1 <= day <= DaysInMonth(month, year)
    ensures n <= |habits|
  {
    CompletedCount(habits, logs, CalendarDate(year, month, day))
  }

  /** `percent` of the footer cell: the rounded share of completed habits,
      0 for an empty habit list. */
  function FooterPercent(habits: seq<Habit>, logs: map<string, HabitLog>, month: int, year: int, day: int)
    : (p: nat)
    requires 0 <= month <= 11 && 1 <= day <= DaysInMonth(month, year)
    ensures p <= 100
    ensures habits == [] ==> p == 0
  {
    var count := FooterCount(habits, logs, month, year, day);
    if |habits| > 0 then RoundPercent(count, |habits|) else 0
  }

  /** A column's footer counts the ticked cells of that column, one per
      habit row whose cell for the day is completed. */
  lemma {:induction false} FooterCountsColumn(habits: seq<Habit>, logs: map<string, HabitLog>,
                                              month: int, year: int, day: int)
    requires 0 <= month <= 11 && 1 <= day <= DaysInMonth(month, year)
    ensures FooterCount(habits, logs, month, year, day) == TickedRows(habits, logs, month, year, day)
    decreases |habits|
  {
    if habits != [] {
      var init := habits[..|habits| - 1];
      var last := habits[|habits| - 1];
      FooterCountsColumn(init, logs, month, year, day);
      assert habits == init + [last];
      CompletedCountSnoc(init, last, logs, CalendarDate(year, month, day));
    }
  }

  /** The number of rows whose cell on `day` shows a tick, counted row by
      row. */
  function TickedRows(habits: seq<Habit>, logs: map<string, HabitLog>, month: int, year: int, day: int)
    : (n: nat)
    requires 0 <= month <= 11 && 1 <= day <= DaysInMonth(month, year)
    decreases |habits|
  {
    if habits == [] then 0
    else
      TickedRows(habits[..|habits| - 1], logs, month, year, day)
        + (if CellCompleted(logs, habits[|habits| - 1], month, year, day) then 1 else 0)
  }

  /** The footer and the daily chart of the analytics view agree: the same
      count, and the footer's percentage is the chart's exact percentage
      rounded to the nearest integer, halves up. */
  lemma FooterMatchesDailyChart(habits: seq<Habit>, logs: map<string, HabitLog>, month: int, year: int, day: int)
    requires 0 <= month <= 11 && 1 <= day <= DaysInMonth(month, year)
    ensures var point := DayPoint(habits, logs, month, year, day);
            var p := FooterPercent(habits, logs, month, year, day);
            && FooterCount(habits, logs, month, year, day) == point.completed
            && p as real - 0.5 <= point.percent < p as real + 0.5
  {
    var point := DayPoint(habits, logs, month, year, day);
    var c := FooterCount(habits, logs, month, year, day);
    var w := |habits|;
    assert point == DailyPoint(day, DailyPercent(c, w), c);
    if w > 0 {
      RoundsDailyPercent(c, w);
    }
  }

  /** The rounded percentage is the exact one rounded to the nearest
      integer. */
  lemma RoundsDailyPercent(c: nat, w: nat)
    requires 0 < w && c <= w
    ensures RoundPercent(c, w) as real - 0.5 <= DailyPercent(c, w) < RoundPercent(c, w) as real + 0.5
  {
    RoundedShare(c, w, RoundPercent(c, w), DailyPercent(c, w));
  }

  /** Dividing the integer bounds of a rounded quotient by the divisor: if
      `2wp <= 200c + w < 2w(p + 1)` and `x * w == 100c`, then `x` lies within
      a half of `p`. */
  lemma RoundedShare(c: nat, w: nat, p: nat, x: real)
    requires w > 0
    requires 2 * w * p <= 200 * c + w < 2 * w * (p + 1)
    requires x * w as real == c as real * 100.0
    ensures p as real - 0.5 <= x < p as real + 0.5
  {
    var m := 200 * c + w;
    assert 2 * w * p == w * (2 * p) && 2 * w * (p + 1) == w * (2 * p + 2);
    assert m as real == x * w as real * 2.0 + w as real;
    ScaledBound(w, 2 * p, m, x);
    ScaledBound(w, 2 * p + 2, m, x);
  }

  /** The comparison of `w * q` with `m == 2xw + w` is the comparison of
      `q` with `2x + 1`. */
  lemma ScaledBound(w: nat, q: int, m: int, x: real)
    requires w > 0 && m as real == x * w as real * 2.0 + w as real
    ensures w * q <= m ==> q as real <= 2.0 * x + 1.0
    ensures m < w * q ==> 2.0 * x + 1.0 < q as real
  {
    var wr := w as real;
    assert q * w == w * q;
    MulAsReal(q, w);
    assert m as real == wr * (2.0 * x + 1.0);
    PositiveScale(wr, q as real, 2.0 * x + 1.0);
    PositiveScale(wr, 2.0 * x + 1.0, q as real);
  }

  /** The product of integers read as a real is the product of the reals. */
  lemma {:induction false} MulAsReal(a: int, b: nat)
    ensures (a * b) as real == b as real * a as real
    decreases b
  {
    if b > 0 {
      MulAsReal(a, b - 1);
      assert a * b == a * (b - 1) + a;
    }
  }

  /** A positive factor can be cancelled from both sides of `<=` and `<`. */
  lemma PositiveScale(k: real, a: real, b: real)
    requires k > 0.0
    ensures k * a <= k * b ==> a <= b
    ensures k * a < k * b ==> a < b
  {
    if a > b {
      assert k * a - k * b == k * (a - b) > 0.0;
    }
  }

  /** The colour of a footer percentage. */
  datatype Band = Emerald | Amber | Slate
  {
    /** Position from the lowest band to the highest. */
    function Rank(): nat
    {
      match this
      case Slate => 0
      case Amber => 1
      case Emerald => 2
    }
  }

  /** `percent > 70 ? emerald : percent > 40 ? amber : slate`. */
  function FooterBand(percent: int): (b: Band)
    ensures b == Emerald <==> percent > 70
    ensures b == Amber <==> 40 < percent <= 70
    ensures b == Slate <==> percent <= 40
  {
    if percent > 70 then Emerald else if percent > 40 then Amber else Slate
  }

  /** A higher percentage never gets a lower band. */
  lemma BandMonotone(p: int, q: int)
    requires p <= q
    ensures FooterBand(p).Rank() <= FooterBand(q).Rank()
  {
  }

}
