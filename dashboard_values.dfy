/** How the completed slots of the category breakdown
    (components/Dashboard.tsx) relate to the completed logs the summary card
    counts: every completed slot of the breakdown is a distinct completed
    log dated in the month, so the breakdown never counts more than the
    summary. */
module DashboardValues {

  import opened Seqs
  import opened Types
  import opened DateUtils
  import opened Store
  import opened Dashboard

  /** The sum of the `value` fields of the points. */
  function SumValues(ps: seq<CategoryPoint>): nat
  {
    if ps == [] then 0 else SumValues(ps[..|ps| - 1]) + ps[|ps| - 1].value
  }

  /** Dropping the points whose total is zero keeps the sum of the values
      when no point has more completed slots than slots. */
  lemma {:induction false} DropEmptyKeepsValues(ps: seq<CategoryPoint>)
    requires forall i :: 0 <= i < |ps| ==> ps[i].value <= ps[i].total
    ensures SumValues(Filter(ps, NonEmpty)) == SumValues(ps)
    decreases |ps|
  {
    if ps != [] {
      var init := ps[..|ps| - 1];
      var last := ps[|ps| - 1];
      DropEmptyKeepsValues(init);
      var f := Filter(init, NonEmpty);
      if NonEmpty(last) {
        assert Filter(ps, NonEmpty) == f + [last];
        assert (f + [last])[..|f|] == f;
      } else {
        assert Filter(ps, NonEmpty) == f;
      }
    }
  }

  /** The completed slots of the habits of category `c`, counted one habit
      at a time over the whole list. */
  function SlotsIn(habits: seq<Habit>, c: Category, logs: map<string, HabitLog>, prefix: string, days: int)
    : nat
    requires 0 <= days <= 99
  {
    if habits == [] then 0
    else
      SlotsIn(habits[..|habits| - 1], c, logs, prefix, days)
        + (if habits[|habits| - 1].category == c then CompletedDays(habits[|habits| - 1], logs, prefix, days) else 0)
  }

  /** Counting over the whole list is counting over the filtered list
      `habits.filter(h => h.category === c)`. */
  lemma {:induction false} SlotsInIsFiltered(habits: seq<Habit>, c: Category, logs: map<string, HabitLog>,
                                             prefix: string, days: int)
    requires 0 <= days <= 99
    ensures SlotsIn(habits, c, logs, prefix, days) == CompletedSlots(Filter(habits, InCategory(c)), logs, prefix, days)
    decreases |habits|
  {
    if habits != [] {
      SlotsInIsFiltered(habits[..|habits| - 1], c, logs, prefix, days);
      SlotsFilterStep(habits, c, logs, prefix, days);
    }
  }

  /** The filtered habits of a list gain its last habit when that habit is
      of category `c`. */
  lemma SlotsFilterStep(habits: seq<Habit>, c: Category, logs: map<string, HabitLog>, prefix: string, days: int)
    requires 0 <= days <= 99 && habits != []
    ensures CompletedSlots(Filter(habits, InCategory(c)), logs, prefix, days)
         == CompletedSlots(Filter(habits[..|habits| - 1], InCategory(c)), logs, prefix, days)
            + (if habits[|habits| - 1].category == c then CompletedDays(habits[|habits| - 1], logs, prefix, days) else 0)
  {
    var last := habits[|habits| - 1];
    var f := Filter(habits[..|habits| - 1], InCategory(c));
    if last.category == c {
      assert Filter(habits, InCategory(c)) == f + [last];
      SlotsAppend(f, last, logs, prefix, days);
    } else {
      assert Filter(habits, InCategory(c)) == f;
    }
  }

  /** One more habit adds its completed days. */
  lemma SlotsAppend(hs: seq<Habit>, h: Habit, logs: map<string, HabitLog>, prefix: string, days: int)
    requires 0 <= days <= 99
    ensures CompletedSlots(hs + [h], logs, prefix, days) == CompletedSlots(hs, logs, prefix, days) + CompletedDays(h, logs, prefix, days)
  {
    assert (hs + [h])[..|hs|] == hs;
  }

  /** The completed slots of the six categories, added up. */
  function SlotsByCategory(habits: seq<Habit>, logs: map<string, HabitLog>, prefix: string, days: int): nat
    requires 0 <= days <= 99
  {
    SlotsIn(habits, Spiritual, logs, prefix, days) + SlotsIn(habits, Health, logs, prefix, days)
    + SlotsIn(habits, Finance, logs, prefix, days) + SlotsIn(habits, Social, logs, prefix, days)
    + SlotsIn(habits, Work, logs, prefix, days) + SlotsIn(habits, Other, logs, prefix, days)
  }

  /** Every habit's completed slots are counted in exactly one category. */
  lemma {:induction false} SlotsPartition(habits: seq<Habit>, logs: map<string, HabitLog>, prefix: string, days: int)
    requires 0 <= days <= 99
    ensures SlotsByCategory(habits, logs, prefix, days) == CompletedSlots(habits, logs, prefix, days)
    decreases |habits|
  {
    if habits != [] {
      SlotsPartition(habits[..|habits| - 1], logs, prefix, days);
    }
  }

  /** The sum of six values, written out. */
  lemma SumSixValues(ps: seq<CategoryPoint>)
    requires |ps| == 6
    ensures SumValues(ps) == ps[0].value + ps[1].value + ps[2].value + ps[3].value + ps[4].value + ps[5].value
  {
    assert ps[..1][..0] == [];
    assert SumValues(ps[..1]) == ps[0].value;
    assert ps[..2][..1] == ps[..1];
    assert SumValues(ps[..2]) == SumValues(ps[..1]) + ps[1].value;
    assert ps[..3][..2] == ps[..2];
    assert SumValues(ps[..3]) == SumValues(ps[..2]) + ps[2].value;
    assert ps[..4][..3] == ps[..3];
    assert SumValues(ps[..4]) == SumValues(ps[..3]) + ps[3].value;
    assert ps[..5][..4] == ps[..4];
    assert SumValues(ps[..5]) == SumValues(ps[..4]) + ps[4].value;
    assert ps[..5] == ps[..|ps| - 1];
  }

  /** The value of the entry of category `c`: the completed slots of its
      habits. */
  lemma EntryValue(habits: seq<Habit>, logs: map<string, HabitLog>, month: int, year: int, c: Category)
    requires 0 <= month <= 11
    ensures CategoryEntries(habits, logs, month, year)[c.Index()].value
         == SlotsIn(habits, c, logs, MonthPrefix(year, month), DaysInMonth(month, year))
  {
    SlotsInIsFiltered(habits, c, logs, MonthPrefix(year, month), DaysInMonth(month, year));
  }

  /** Six points whose values are the six categories' completed slots add
      up to the completed slots of all habits. */
  lemma SumOfSlots(ps: seq<CategoryPoint>, habits: seq<Habit>, logs: map<string, HabitLog>, prefix: string, days: int)
    requires |ps| == 6 && 0 <= days <= 99
    requires ps[0].value == SlotsIn(habits, Spiritual, logs, prefix, days)
    requires ps[1].value == SlotsIn(habits, Health, logs, prefix, days)
    requires ps[2].value == SlotsIn(habits, Finance, logs, prefix, days)
    requires ps[3].value == SlotsIn(habits, Social, logs, prefix, days)
    requires ps[4].value == SlotsIn(habits, Work, logs, prefix, days)
    requires ps[5].value == SlotsIn(habits, Other, logs, prefix, days)
    ensures SumValues(ps) == CompletedSlots(habits, logs, prefix, days)
  {
    SumSixValues(ps);
    SlotsPartition(habits, logs, prefix, days);
  }

  /** The six entries' values add up to the completed slots of all habits
      over the month. */
  lemma EntriesValues(habits: seq<Habit>, logs: map<string, HabitLog>, month: int, year: int)
    requires 0 <= month <= 11
    ensures SumValues(CategoryEntries(habits, logs, month, year))
         == CompletedSlots(habits, logs, MonthPrefix(year, month), DaysInMonth(month, year))
  {
    EntryValue(habits, logs, month, year, Spiritual);
    EntryValue(habits, logs, month, year, Health);
    EntryValue(habits, logs, month, year, Finance);
    EntryValue(habits, logs, month, year, Social);
    EntryValue(habits, logs, month, year, Work);
    EntryValue(habits, logs, month, year, Other);
    SumOfSlots(CategoryEntries(habits, logs, month, year), habits, logs,
               MonthPrefix(year, month), DaysInMonth(month, year));
  }

  /** Slot keys of the month are equal only for the same habit id and the
      same day. */
  lemma SlotKeyInjective(id1: string, d1: int, id2: string, d2: int, prefix: string)
    requires 0 <= d1 <= 99 && 0 <= d2 <= 99
    ensures LogKey(id1, prefix + TwoDigits(d1)) == LogKey(id2, prefix + TwoDigits(d2)) ==> id1 == id2 && d1 == d2
  {
    if LogKey(id1, prefix + TwoDigits(d1)) == LogKey(id2, prefix + TwoDigits(d2)) {
      LogKeyInjective(id1, prefix + TwoDigits(d1), id2, prefix + TwoDigits(d2));
      assert TwoDigits(d1) == (prefix + TwoDigits(d1))[|prefix|..];
      assert TwoDigits(d2) == (prefix + TwoDigits(d2))[|prefix|..];
      TwoDigitsRoundTrip(d1);
      TwoDigitsRoundTrip(d2);
    }
  }

  /** The keys of the completed entries of habit `h` for days 1..`upTo`. */
  ghost function DayKeys(h: Habit, logs: map<string, HabitLog>, prefix: string, upTo: int): set<string>
    requires 0 <= upTo <= 99
    decreases upTo
  {
    if upTo == 0 then {}
    else if IsCompleted(logs, LogKey(h.id, prefix + TwoDigits(upTo))) then
      DayKeys(h, logs, prefix, upTo - 1) + {LogKey(h.id, prefix + TwoDigits(upTo))}
    else DayKeys(h, logs, prefix, upTo - 1)
  }

  /** Each key of `DayKeys` is the completed key of one of the days. */
  lemma {:induction false} DayOf(h: Habit, logs: map<string, HabitLog>, prefix: string, upTo: int, k: string)
    returns (d: int)
    requires 0 <= upTo <= 99 && k in DayKeys(h, logs, prefix, upTo)
    ensures 1 <= d <= upTo && k == LogKey(h.id, prefix + TwoDigits(d)) && IsCompleted(logs, k)
    decreases upTo
  {
    if k in DayKeys(h, logs, prefix, upTo - 1) {
      d := DayOf(h, logs, prefix, upTo - 1, k);
    } else {
      d := upTo;
    }
  }

  /** The key of a later day is not among the keys of the earlier days. */
  lemma {:induction false} LaterDayAbsent(h: Habit, logs: map<string, HabitLog>, prefix: string, upTo: int, d: int)
    requires 0 <= upTo < d <= 99
    ensures LogKey(h.id, prefix + TwoDigits(d)) !in DayKeys(h, logs, prefix, upTo)
    decreases upTo
  {
    if upTo > 0 {
      LaterDayAbsent(h, logs, prefix, upTo - 1, d);
      SlotKeyInjective(h.id, d, h.id, upTo, prefix);
    }
  }

  /** The key of another habit id is not among the keys of `h`. */
  lemma {:induction false} ForeignKeyAbsent(h: Habit, logs: map<string, HabitLog>, prefix: string, upTo: int,
                                            id: string, d: int)
    requires 0 <= upTo <= 99 && 0 <= d <= 99 && id != h.id
    ensures LogKey(id, prefix + TwoDigits(d)) !in DayKeys(h, logs, prefix, upTo)
    decreases upTo
  {
    if upTo > 0 {
      ForeignKeyAbsent(h, logs, prefix, upTo - 1, id, d);
      SlotKeyInjective(id, d, h.id, upTo, prefix);
    }
  }

  /** A habit has as many completed keys as completed days. */
  lemma {:induction false} DayKeysCard(h: Habit, logs: map<string, HabitLog>, prefix: string, upTo: int)
    requires 0 <= upTo <= 99
    ensures |DayKeys(h, logs, prefix, upTo)| == CompletedDays(h, logs, prefix, upTo)
    decreases upTo
  {
    if upTo > 0 {
      DayKeysCard(h, logs, prefix, upTo - 1);
      LaterDayAbsent(h, logs, prefix, upTo - 1, upTo);
    }
  }

  /** The keys of the completed slots of the habits `hs`. */
  ghost function SlotKeys(hs: seq<Habit>, logs: map<string, HabitLog>, prefix: string, days: int): set<string>
    requires 0 <= days <= 99
  {
    if hs == [] then {}
    else SlotKeys(hs[..|hs| - 1], logs, prefix, days) + DayKeys(hs[|hs| - 1], logs, prefix, days)
  }

  /** Each key of `SlotKeys` is the completed key of one habit on one day. */
  lemma {:induction false} SlotOf(hs: seq<Habit>, logs: map<string, HabitLog>, prefix: string, days: int, k: string)
    returns (i: int, d: int)
    requires 0 <= days <= 99 && k in SlotKeys(hs, logs, prefix, days)
    ensures 0 <= i < |hs| && 1 <= d <= days
    ensures k == LogKey(hs[i].id, prefix + TwoDigits(d)) && IsCompleted(logs, k)
    decreases |hs|
  {
    var init := hs[..|hs| - 1];
    if k in SlotKeys(init, logs, prefix, days) {
      i, d := SlotOf(init, logs, prefix, days, k);
      assert hs[i] == init[i];
    } else {
      i := |hs| - 1;
      d := DayOf(hs[i], logs, prefix, days, k);
    }
  }

  /** With distinct habit ids no key is counted twice: there are as many
      completed keys as completed slots. */
  lemma {:induction false} SlotKeysCard(hs: seq<Habit>, logs: map<string, HabitLog>, prefix: string, days: int)
    requires 0 <= days <= 99 && DistinctIds(hs)
    ensures |SlotKeys(hs, logs, prefix, days)| == CompletedSlots(hs, logs, prefix, days)
    decreases |hs|
  {
    if hs != [] {
      var init := hs[..|hs| - 1];
      var last := hs[|hs| - 1];
      assert DistinctIds(init) by {
        forall i, j | 0 <= i < j < |init| ensures init[i].id != init[j].id {
          assert init[i] == hs[i] && init[j] == hs[j];
        }
      }
      SlotKeysCard(init, logs, prefix, days);
      DayKeysCard(last, logs, prefix, days);
      forall k | k in SlotKeys(init, logs, prefix, days)
        ensures k !in DayKeys(last, logs, prefix, days)
      {
        var i, d := SlotOf(init, logs, prefix, days, k);
        assert init[i] == hs[i];
        ForeignKeyAbsent(last, logs, prefix, days, init[i].id, d);
      }
    }
  }

  /** With well-keyed logs and a four-digit year, every completed slot key
      of the month is a completed log whose own date lies in the month: one
      the summary card counts. */
  lemma SlotKeysCounted(habits: seq<Habit>, logs: map<string, HabitLog>, month: int, year: int)
    requires 0 <= month <= 11 && 1000 <= year <= 9999 && WellKeyed(logs)
    ensures SlotKeys(habits, logs, MonthPrefix(year, month), DaysInMonth(month, year))
         <= CountedKeys(logs, month, year)
  {
    var prefix := MonthPrefix(year, month);
    var days := DaysInMonth(month, year);
    forall k | k in SlotKeys(habits, logs, prefix, days)
      ensures k in CountedKeys(logs, month, year)
    {
      var i, d := SlotOf(habits, logs, prefix, days, k);
      var date := CalendarDate(year, month, d);
      assert date == prefix + TwoDigits(d);
      CalendarDateInjective(year, month, d, d);
      LogKeyInjective(logs[k].habitId, logs[k].date, habits[i].id, date);
      CalendarDateParses(year, month, d);
    }
  }

  /** The completed slots of the category breakdown are at most the
      completed logs of the summary card, when every log sits under its own
      habit-and-date key, habit ids are distinct and the year has four
      digits. The summary may count more: completed logs of removed habits
      and logs under keys of other days still count there. */
  lemma CategoryValuesWithinStats(habits: seq<Habit>, logs: map<string, HabitLog>, month: int, year: int)
    requires 0 <= month <= 11 && 1000 <= year <= 9999
    requires WellKeyed(logs) && DistinctIds(habits)
    ensures SumValues(CategoryBreakdown(habits, logs, month, year))
         <= MonthlyStats(habits, logs, month, year).totalCompleted
  {
    var entries := CategoryEntries(habits, logs, month, year);
    var prefix := MonthPrefix(year, month);
    var days := DaysInMonth(month, year);
    DropEmptyKeepsValues(entries);
    EntriesValues(habits, logs, month, year);
    SlotKeysCard(habits, logs, prefix, days);
    SlotKeysCounted(habits, logs, month, year);
    SubsetCard(SlotKeys(habits, logs, prefix, days), CountedKeys(logs, month, year));
  }

}
