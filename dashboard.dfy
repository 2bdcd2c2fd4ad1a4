/** The read-side aggregations of the analytics view
    (components/Dashboard.tsx): the daily series, the per-category
    breakdown and the monthly summary, all computed from one snapshot of
    (habits, logs, month, year). */
module Dashboard {

  import opened Wrappers
  import opened Seqs
  import opened Types
  import opened DateUtils
  import opened Store
  import opened Percent

  /** The test `logs[`${h.id}-${dateStr}`]?.completed`. */
  function DoneOn(logs: map<string, HabitLog>, date: string): Habit -> bool
  {
    (h: Habit) => IsCompleted(logs, LogKey(h.id, date))
  }

  /** The habits whose entry for `date` is completed, in list order. */
  function CompletedHabits(habits: seq<Habit>, logs: map<string, HabitLog>, date: string): (r: seq<Habit>)
    ensures |r| <= |habits|
    ensures forall h :: h in r <==> h in habits && IsCompleted(logs, LogKey(h.id, date))
  {
    Filter(habits, DoneOn(logs, date))
  }

  /** How many habits are completed on `date`; the grid footer shows the
      same count. */
  function CompletedCount(habits: seq<Habit>, logs: map<string, HabitLog>, date: string): (n: nat)
    ensures n <= |habits|
  {
    |CompletedHabits(habits, logs, date)|
  }

  /** Appending a habit adds one to the count exactly when that habit's
      entry for `date` is completed. */
  lemma CompletedCountSnoc(habits: seq<Habit>, h: Habit, logs: map<string, HabitLog>, date: string)
    ensures CompletedCount(habits + [h], logs, date)
         == CompletedCount(habits, logs, date) + (if IsCompleted(logs, LogKey(h.id, date)) then 1 else 0)
  {
    assert (habits + [h])[..|habits|] == habits;
  }

  /** One point of the daily chart. `percent` is the exact rational value of
      `(completed / habits.length) * 100`. */
  datatype DailyPoint = DailyPoint(day: int, percent: real, completed: nat)

  /** `habits.length ? (completed / habits.length) * 100 : 0`. */
  function DailyPercent(completed: nat, habitCount: nat): (p: real)
    requires completed <= habitCount
    ensures 0.0 <= p <= 100.0
    ensures habitCount == 0 ==> p == 0.0
    ensures habitCount > 0 ==> p * habitCount as real == completed as real * 100.0
  {
    if habitCount > 0 then
      var q := completed as real / habitCount as real;
      assert q * habitCount as real == completed as real;
      assert q <= 1.0;
      q * 100.0
    else 0.0
  }

  /** The point of day `day` of the month: the habits whose entry for the
      day's key date is completed, and their share of all habits. */
  function DayPoint(habits: seq<Habit>, logs: map<string, HabitLog>, month: int, year: int, day: int)
    : (p: DailyPoint)
    requires 0 <= month <= 11 && 1 <= day <= DaysInMonth(month, year)
    ensures p.day == day
    ensures p.completed == CompletedCount(habits, logs, CalendarDate(year, month, day))
    ensures p.completed <= |habits| && 0.0 <= p.percent <= 100.0
    ensures |habits| == 0 ==> p.completed == 0 && p.percent == 0.0
  {
    var completed := CompletedCount(habits, logs, CalendarDate(year, month, day));
    DailyPoint(day, DailyPercent(completed, |habits|), completed)
  }

  /** `dailyData`: one point per day of the month, day `i + 1` at index `i`. */
  function DailyData(habits: seq<Habit>, logs: map<string, HabitLog>, month: int, year: int)
    : (r: seq<DailyPoint>)
    requires 0 <= month <= 11
    ensures |r| == DaysInMonth(month, year)
    ensures forall i :: 0 <= i < |r| ==> r[i] == DayPoint(habits, logs, month, year, i + 1)
  {
    var days := DaysInMonth(month, year);
    seq(days, i requires 0 <= i < days => DayPoint(habits, logs, month, year, i + 1))
  }

  /** The test `h.category === cat`. */
  function InCategory(cat: Category): Habit -> bool
  {
    (h: Habit) => h.category == cat
  }

  /** `habits.filter(h => h.category === cat)`. */
  function CategoryHabits(habits: seq<Habit>, cat: Category): (r: seq<Habit>)
    ensures |r| <= |habits|
    ensures forall h :: h in r <==> h in habits && h.category == cat
  {
    Filter(habits, InCategory(cat))
  }

  /** The completed days among days 1..`upTo` for habit `h`, in the month
      whose key dates start with `prefix` (a `MonthPrefix`): the key date of
      day `d` is `prefix + TwoDigits(d)`, which is `CalendarDate` by its
      definition. */
  function CompletedDays(h: Habit, logs: map<string, HabitLog>, prefix: string, upTo: int): (n: nat)
    requires 0 <= upTo <= 99
    ensures n <= upTo
    decreases upTo
  {
    if upTo == 0 then 0
    else
      CompletedDays(h, logs, prefix, upTo - 1)
        + (if IsCompleted(logs, LogKey(h.id, prefix + TwoDigits(upTo))) then 1 else 0)
  }

  /** The completed (habit, day) slots over the habits `hs` and the days
      1..`days` of the month whose key dates start with `prefix`. */
  function CompletedSlots(hs: seq<Habit>, logs: map<string, HabitLog>, prefix: string, days: int): (n: nat)
    requires 0 <= days <= 99
  {
    if hs == [] then 0
    else CompletedSlots(hs[..|hs| - 1], logs, prefix, days) + CompletedDays(hs[|hs| - 1], logs, prefix, days)
  }

  /** No more slots are completed than the habits have days. */
  lemma {:induction false} SlotsBound(hs: seq<Habit>, logs: map<string, HabitLog>, prefix: string, days: int)
    requires 0 <= days <= 99
    ensures CompletedSlots(hs, logs, prefix, days) <= |hs| * days
    decreases |hs|
  {
    if hs != [] {
      SlotsBound(hs[..|hs| - 1], logs, prefix, days);
      assert (|hs| - 1) * days + days == |hs| * days;
    }
  }

  /** One point of the category chart. */
  datatype CategoryPoint = CategoryPoint(name: Category, value: nat, total: nat, percent: nat)

  /** The point `categoryData` computes for `cat` before the empty ones are
      dropped: every slot of every habit of the category over the month,
      and the completed ones among them. */
  function CategoryEntry(habits: seq<Habit>, logs: map<string, HabitLog>, month: int, year: int, cat: Category)
    : (p: CategoryPoint)
    requires 0 <= month <= 11
    ensures p.name == cat
    ensures p.total == |CategoryHabits(habits, cat)| * DaysInMonth(month, year)
    ensures p.total == 0 <==> CategoryHabits(habits, cat) == []
    ensures p.value <= p.total && p.percent <= 100
    ensures p.total > 0 ==> p.percent == RoundPercent(p.value, p.total)
  {
    var hs := CategoryHabits(habits, cat);
    var days := DaysInMonth(month, year);
    SlotCount(|hs|, days);
    var total := |hs| * days;
    var prefix := MonthPrefix(year, month);
    var value := CompletedSlots(hs, logs, prefix, days);
    SlotsBound(hs, logs, prefix, days);
    CategoryPoint(cat, value, total, if total > 0 then RoundPercent(value, total) else 0)
  }

  /** `categories.map(...)` over `Object.values(Category)`. */
  function CategoryEntries(habits: seq<Habit>, logs: map<string, HabitLog>, month: int, year: int)
    : (r: seq<CategoryPoint>)
    requires 0 <= month <= 11
    ensures |r| == 6
    ensures forall i :: 0 <= i < 6 ==> r[i] == CategoryEntry(habits, logs, month, year, AllCategories()[i])
  {
    seq(6, i requires 0 <= i < 6 => CategoryEntry(habits, logs, month, year, AllCategories()[i]))
  }

  /** The test `d.total > 0`. */
  predicate NonEmpty(p: CategoryPoint)
  {
    p.total > 0
  }

  /** `categoryData`: the points of the categories that have habits, each
      as `CategoryEntry` computes it, in the declaration order of the
      categories. */
  function CategoryBreakdown(habits: seq<Habit>, logs: map<string, HabitLog>, month: int, year: int)
    : (r: seq<CategoryPoint>)
    requires 0 <= month <= 11
    ensures forall i :: 0 <= i < |r| ==>
              r[i].total > 0 && r[i] == CategoryEntry(habits, logs, month, year, r[i].name)
    ensures forall c: Category ::
              CategoryHabits(habits, c) != [] <==> exists i :: 0 <= i < |r| && r[i].name == c
    ensures forall i, j :: 0 <= i < j < |r| ==> r[i].name.Index() < r[j].name.Index()
  {
    var entries := CategoryEntries(habits, logs, month, year);
    NonEmptyPoints(entries, habits, logs, month, year);
    NonEmptyCategories(entries, habits, logs, month, year);
    NonEmptyOrdered(entries, habits, logs, month, year);
    Filter(entries, NonEmpty)
  }

  /** Each kept entry is the non-empty entry of its own category. */
  lemma NonEmptyPoints(entries: seq<CategoryPoint>, habits: seq<Habit>, logs: map<string, HabitLog>,
                       month: int, year: int)
    requires 0 <= month <= 11 && entries == CategoryEntries(habits, logs, month, year)
    ensures forall i :: 0 <= i < |Filter(entries, NonEmpty)| ==>
              Filter(entries, NonEmpty)[i].total > 0
              && Filter(entries, NonEmpty)[i] == CategoryEntry(habits, logs, month, year, Filter(entries, NonEmpty)[i].name)
  {
    var r := Filter(entries, NonEmpty);
    forall i | 0 <= i < |r|
      ensures r[i].total > 0 && r[i] == CategoryEntry(habits, logs, month, year, r[i].name)
    {
      assert r[i] in r;
      var k :| 0 <= k < 6 && entries[k] == r[i];
    }
  }

  /** A category has a kept entry exactly when it has habits. */
  lemma NonEmptyCategories(entries: seq<CategoryPoint>, habits: seq<Habit>, logs: map<string, HabitLog>,
                           month: int, year: int)
    requires 0 <= month <= 11 && entries == CategoryEntries(habits, logs, month, year)
    ensures forall c: Category ::
              CategoryHabits(habits, c) != [] <==>
              exists i :: 0 <= i < |Filter(entries, NonEmpty)| && Filter(entries, NonEmpty)[i].name == c
  {
    NonEmptyPoints(entries, habits, logs, month, year);
    forall c: Category
      ensures CategoryHabits(habits, c) != [] <==>
              exists i :: 0 <= i < |Filter(entries, NonEmpty)| && Filter(entries, NonEmpty)[i].name == c
    {
      NonEmptyCategory(entries, habits, logs, month, year, c);
    }
  }

  lemma NonEmptyCategory(entries: seq<CategoryPoint>, habits: seq<Habit>, logs: map<string, HabitLog>,
                         month: int, year: int, c: Category)
    requires 0 <= month <= 11 && entries == CategoryEntries(habits, logs, month, year)
    requires forall i :: 0 <= i < |Filter(entries, NonEmpty)| ==>
              Filter(entries, NonEmpty)[i].total > 0
              && Filter(entries, NonEmpty)[i] == CategoryEntry(habits, logs, month, year, Filter(entries, NonEmpty)[i].name)
    ensures CategoryHabits(habits, c) != [] <==>
            exists i :: 0 <= i < |Filter(entries, NonEmpty)| && Filter(entries, NonEmpty)[i].name == c
  {
    var r := Filter(entries, NonEmpty);
    if CategoryHabits(habits, c) != [] {
      EntryKept(entries, habits, logs, month, year, c);
      var e := CategoryEntry(habits, logs, month, year, c);
      var i :| 0 <= i < |r| && r[i] == e;
    } else {
      forall i | 0 <= i < |r| ensures r[i].name != c {
        assert r[i].total > 0 && r[i] == CategoryEntry(habits, logs, month, year, r[i].name);
      }
    }
  }

  lemma EntryKept(entries: seq<CategoryPoint>, habits: seq<Habit>, logs: map<string, HabitLog>,
                  month: int, year: int, c: Category)
    requires 0 <= month <= 11 && entries == CategoryEntries(habits, logs, month, year)
    requires CategoryHabits(habits, c) != []
    ensures CategoryEntry(habits, logs, month, year, c) in Filter(entries, NonEmpty)
  {
    var e := CategoryEntry(habits, logs, month, year, c);
    assert entries[c.Index()] == e;
    assert e in entries && NonEmpty(e);
  }

  /** The kept entries are in category order. */
  lemma NonEmptyOrdered(entries: seq<CategoryPoint>, habits: seq<Habit>, logs: map<string, HabitLog>,
                        month: int, year: int)
    requires 0 <= month <= 11 && entries == CategoryEntries(habits, logs, month, year)
    ensures forall i, j :: 0 <= i < j < |Filter(entries, NonEmpty)| ==>
              Filter(entries, NonEmpty)[i].name.Index() < Filter(entries, NonEmpty)[j].name.Index()
  {
    assert forall i :: 0 <= i < |entries| ==> NameIndex(entries[i]) == i;
    FilterKeepsIncreasing(entries, NonEmpty, NameIndex);
  }

  /** The declaration position of the category of a point. */
  function NameIndex(p: CategoryPoint): int
  {
    p.name.Index()
  }

  /** The body of the `catHabits.forEach` callback of `categoryData` for
      habit `h`: for each day `d` from 1 to the length of the month, one
      slot, completed when the log entry of `h` for that day is. */
  method TallyHabit(h: Habit, logs: map<string, HabitLog>, month: int, year: int)
    returns (slots: nat, completed: nat)
    requires 0 <= month <= 11
    ensures slots == DaysInMonth(month, year)
    ensures completed == CompletedDays(h, logs, MonthPrefix(year, month), DaysInMonth(month, year))
  {
    var daysInMonth := DaysInMonth(month, year);
    ghost var prefix := MonthPrefix(year, month);
    slots, completed := 0, 0;
    var d := 1;
    while d <= daysInMonth
      invariant 1 <= d <= daysInMonth + 1
      invariant slots == d - 1
      invariant completed == CompletedDays(h, logs, prefix, d - 1)
    {
      var dateStr := CalendarDate(year, month, d);
      assert dateStr == prefix + TwoDigits(d);
      slots := slots + 1;
      if IsCompleted(logs, LogKey(h.id, dateStr)) {
        completed := completed + 1;
      }
      d := d + 1;
    }
  }

  /** The `catHabits.forEach` of `categoryData`: the slots and the
      completed slots of every habit of the category, added up. */
  method TallyCategory(catHabits: seq<Habit>, logs: map<string, HabitLog>, month: int, year: int)
    returns (totalLogs: nat, completedLogs: nat)
    requires 0 <= month <= 11
    ensures totalLogs == |catHabits| * DaysInMonth(month, year)
    ensures completedLogs == CompletedSlots(catHabits, logs, MonthPrefix(year, month), DaysInMonth(month, year))
  {
    totalLogs, completedLogs := 0, 0;
    var i := 0;
    while i < |catHabits|
      invariant 0 <= i <= |catHabits|
      invariant totalLogs == i * DaysInMonth(month, year)
      invariant completedLogs == CompletedSlots(catHabits[..i], logs, MonthPrefix(year, month), DaysInMonth(month, year))
    {
      var slots, completed := TallyHabit(catHabits[i], logs, month, year);
      SlotsSnoc(catHabits, logs, MonthPrefix(year, month), DaysInMonth(month, year), i);
      MulSucc(i, slots);
      totalLogs := totalLogs + slots;
      completedLogs := completedLogs + completed;
      i := i + 1;
    }
    assert catHabits[..|catHabits|] == catHabits;
  }

  /** One more habit adds its completed days to the completed slots. */
  lemma SlotsSnoc(hs: seq<Habit>, logs: map<string, HabitLog>, prefix: string, days: int, i: int)
    requires 0 <= days <= 99 && 0 <= i < |hs|
    ensures CompletedSlots(hs[..i + 1], logs, prefix, days)
         == CompletedSlots(hs[..i], logs, prefix, days) + CompletedDays(hs[i], logs, prefix, days)
  {
    assert hs[..i + 1][..i] == hs[..i];
  }

  /** One more row adds one row's worth of slots. */
  lemma MulSucc(rows: int, days: int)
    ensures (rows + 1) * days == rows * days + days
  {
  }

  /** `categoryData` as the component computes it: one point per category
      from its tally, then the points without slots dropped. */
  method CategoryData(habits: seq<Habit>, logs: map<string, HabitLog>, month: int, year: int)
    returns (r: seq<CategoryPoint>)
    requires 0 <= month <= 11
    ensures r == CategoryBreakdown(habits, logs, month, year)
  {
    var categories := AllCategories();
    var points: seq<CategoryPoint> := [];
    var c := 0;
    while c < |categories|
      invariant 0 <= c <= |categories|
      invariant |points| == c
      invariant forall k :: 0 <= k < c ==> points[k] == CategoryEntry(habits, logs, month, year, categories[k])
    {
      var cat := categories[c];
      var catHabits := CategoryHabits(habits, cat);
      var totalLogs, completedLogs := TallyCategory(catHabits, logs, month, year);
      var point := CategoryPoint(cat, completedLogs, totalLogs,
                                 if totalLogs > 0 then RoundPercent(completedLogs, totalLogs) else 0);
      assert point == CategoryEntry(habits, logs, month, year, cat);
      points := points + [point];
      c := c + 1;
    }
    assert points == CategoryEntries(habits, logs, month, year);
    r := Filter(points, NonEmpty);
  }

  /** The monthly summary card. */
  datatype Stats = Stats(completionRate: nat, totalCompleted: nat, totalPossible: nat)

  /** The `stats` filter on one stored log: its own `date` field falls in
      the month and year on display, and it is completed. The key it is
      stored under and whether its habit still exists play no part. */
  predicate CountsToward(log: HabitLog, month: int, year: int)
  {
    var d := ParseDateOnly(log.date);
    d.Some? && d.value.month == month && d.value.fullYear == year && log.completed
  }

  /** The keys of the entries `stats` counts, scanning the whole map. */
  function CountedKeys(logs: map<string, HabitLog>, month: int, year: int): (s: set<string>)
    ensures forall k :: k in s <==> k in logs && CountsToward(logs[k], month, year)
  {
    set k | k in logs && CountsToward(logs[k], month, year)
  }

  /** `stats`: the possible slots of the month, the completed logs dated in
      the month anywhere in the map, and the rounded rate between them. */
  function MonthlyStats(habits: seq<Habit>, logs: map<string, HabitLog>, month: int, year: int): (r: Stats)
    requires 0 <= month <= 11
    ensures r.totalPossible == |habits| * DaysInMonth(month, year)
    ensures r.totalCompleted == |CountedKeys(logs, month, year)| <= |logs|
    ensures r.totalPossible == 0 <==> habits == []
    ensures r.totalPossible == 0 ==> r.completionRate == 0
    ensures r.totalPossible > 0 ==> r.completionRate == RoundPercent(r.totalCompleted, r.totalPossible)
    ensures r.totalCompleted <= r.totalPossible ==> r.completionRate <= 100
  {
    var days := DaysInMonth(month, year);
    SlotCount(|habits|, days);
    var totalPossible := |habits| * days;
    var counted := CountedKeys(logs, month, year);
    SubsetCard(counted, logs.Keys);
    var totalCompleted := |counted|;
    Stats(if totalPossible > 0 then RoundPercent(totalCompleted, totalPossible) else 0,
          totalCompleted, totalPossible)
  }

  /** A count of rows times a month length is a number of slots: it is
      zero exactly when there are no rows. */
  lemma SlotCount(rows: nat, days: int)
    requires days >= 28
    ensures rows * days >= 0
    ensures rows * days == 0 <==> rows == 0
  {
  }

  /** A subset is no larger than its superset. */
  lemma SubsetCard<T>(a: set<T>, b: set<T>)
    requires a <= b
    ensures |a| <= |b|
  {
    assert b == a + (b - a);
  }

}
