/** The state store of the tracker (App.tsx): the habit list, the sparse log
    map keyed by `habitId + "-" + date`, the displayed month and year, and
    the mutations the views invoke. Fresh ids (`Math.random`) and
    timestamps (`Date.now`) are supplied by the caller, and so is the answer
    to the removal confirmation prompt. */
module Store {

  import opened Wrappers
  import opened Seqs
  import opened Types
  import opened DateUtils

  /** The composite key of the log of habit `habitId` on `date`. */
  function LogKey(habitId: string, date: string): string
  {
    habitId + "-" + date
  }

  /** Two keys whose dates have the same length are equal only for the same
      habit and the same date, whatever characters the ids contain. */
  lemma LogKeyInjective(a: string, s: string, b: string, t: string)
    requires |s| == |t|
    ensures LogKey(a, s) == LogKey(b, t) <==> a == b && s == t
  {
    if LogKey(a, s) == LogKey(b, t) {
      assert |a| == |b|;
      assert LogKey(a, s)[..|a|] == a && LogKey(a, s)[|a| + 1..] == s;
      assert LogKey(b, t)[..|b|] == b && LogKey(b, t)[|b| + 1..] == t;
      assert a == LogKey(a, s)[..|a|] == LogKey(b, t)[..|b|] == b;
      assert s == LogKey(a, s)[|a| + 1..] == LogKey(b, t)[|b| + 1..] == t;
    }
  }

  /** `logs[key]?.completed`: a missing entry reads as not completed. */
  predicate IsCompleted(logs: map<string, HabitLog>, key: string)
  {
    key in logs && logs[key].completed
  }

  /** Every entry sits under the key of its own habit and date, and its date
      has the ten characters of a four-digit-year `YYYY-MM-DD`. */
  predicate WellKeyed(logs: map<string, HabitLog>)
  {
    forall k :: k in logs ==> k == LogKey(logs[k].habitId, logs[k].date) && |logs[k].date| == 10
  }

  /** The log map after `toggleHabit(habitId, date)`. A completed entry is
      switched off in place, keeping its id, habit and date and taking the
      new timestamp; otherwise (no entry, or one not completed) a new
      completed record with the fresh id replaces whatever was there. There
      is no check that `habitId` names a habit. */
  function ToggleLogs(logs: map<string, HabitLog>, habitId: string, date: string, freshId: string, now: int)
    : (r: map<string, HabitLog>)
    ensures r.Keys == logs.Keys + {LogKey(habitId, date)}
    ensures IsCompleted(r, LogKey(habitId, date)) <==> !IsCompleted(logs, LogKey(habitId, date))
    ensures forall k :: k in logs && k != LogKey(habitId, date) ==> r[k] == logs[k]
    ensures IsCompleted(logs, LogKey(habitId, date)) ==>
              var old_ := logs[LogKey(habitId, date)];
              r[LogKey(habitId, date)] == HabitLog(old_.id, old_.habitId, old_.date, false, now)
    ensures !IsCompleted(logs, LogKey(habitId, date)) ==>
              r[LogKey(habitId, date)] == HabitLog(freshId, habitId, date, true, now)
    ensures WellKeyed(logs) && |date| == 10 ==> WellKeyed(r)
  {
    var key := LogKey(habitId, date);
    if IsCompleted(logs, key) then
      logs[key := logs[key].(completed := false, timestamp := now)]
    else
      logs[key := HabitLog(freshId, habitId, date, true, now)]
  }

  /** Two toggles of the same cell restore its completion and keep the
      entry. Switching a completed entry off and on again replaces its id
      by the second fresh id; switching an open cell on and off again leaves
      the record with the first fresh id, not completed. */
  lemma ToggleTwice(logs: map<string, HabitLog>, habitId: string, date: string,
                    id1: string, t1: int, id2: string, t2: int)
    ensures var key := LogKey(habitId, date);
            var r := ToggleLogs(ToggleLogs(logs, habitId, date, id1, t1), habitId, date, id2, t2);
            && r.Keys == logs.Keys + {key}
            && (IsCompleted(r, key) <==> IsCompleted(logs, key))
            && (IsCompleted(logs, key) ==> r[key] == HabitLog(id2, habitId, date, true, t2))
            && (!IsCompleted(logs, key) ==> r[key] == HabitLog(id1, habitId, date, false, t2))
  {
  }

  /** The filter test of `removeHabit`: the habit's id differs from `id`. */
  function OtherThan(id: string): Habit -> bool
  {
    (h: Habit) => h.id != id
  }

  /** `prev.filter(h => h.id !== id)`: the habits whose id differs, in
      their original order. */
  function WithoutHabit(habits: seq<Habit>, id: string): (r: seq<Habit>)
    ensures forall h :: h in r <==> h in habits && h.id != id
    ensures |r| <= |habits|
    ensures (forall h :: h in habits ==> h.id != id) ==> r == habits
    ensures DistinctIds(habits) && (exists h :: h in habits && h.id == id) ==> |r| == |habits| - 1
  {
    var r := Filter(habits, OtherThan(id));
    if DistinctIds(habits) && (exists h :: h in habits && h.id == id) then
      DropsOne(habits, id);
      r
    else
      r
  }

  /** With distinct ids, exactly one habit carries `id` if any does. */
  lemma {:induction false} DropsOne(habits: seq<Habit>, id: string)
    requires DistinctIds(habits) && exists h :: h in habits && h.id == id
    ensures |Filter(habits, OtherThan(id))| == |habits| - 1
    decreases |habits|
  {
    var init := habits[..|habits| - 1];
    var last := habits[|habits| - 1];
    assert habits == init + [last];
    assert DistinctIds(init);
    if last.id == id {
      assert forall h :: h in init ==> h.id != id by {
        forall h | h in init ensures h.id != id {
          var i :| 0 <= i < |init| && init[i] == h;
          assert habits[i] == h;
        }
      }
    } else {
      DropsOne(init, id);
    }
  }

  /** Removal keeps order: removing from a concatenation removes from each
      part. */
  lemma WithoutHabitAppend(a: seq<Habit>, b: seq<Habit>, id: string)
    ensures WithoutHabit(a + b, id) == WithoutHabit(a, id) + WithoutHabit(b, id)
  {
    FilterAppend(a, b, OtherThan(id));
  }

  /** Removing the same id a second time changes nothing. */
  lemma WithoutHabitIdempotent(habits: seq<Habit>, id: string)
    ensures WithoutHabit(WithoutHabit(habits, id), id) == WithoutHabit(habits, id)
  {
  }

  /** A (month, year) position of the month navigator. */
  datatype MonthCursor = MonthCursor(month: int, year: int)

  /** `changeMonth(delta)` from `month` of `year`: a step past December
      lands on January of the next year and a step before January on
      December of the previous year. A larger step that leaves 0..11 is
      clamped the same way, to 0 or 11, not wrapped. */
  function MonthStep(month: int, year: int, delta: int): (r: MonthCursor)
    ensures 0 <= r.month <= 11
    ensures 0 <= month <= 11 && (delta == 1 || delta == -1) ==>
              r.year * 12 + r.month == year * 12 + month + delta
    ensures 0 <= month + delta <= 11 ==> r == MonthCursor(month + delta, year)
  {
    var next := month + delta;
    if next > 11 then MonthCursor(0, year + 1)
    else if next < 0 then MonthCursor(11, year - 1)
    else MonthCursor(next, year)
  }

  /** The store: the two collections it persists and the month on display. */
  class HabitStore {
    var habits: seq<Habit>
    var logs: map<string, HabitLog>
    var currentMonth: int
    var currentYear: int

    /** The invariant of the store: the displayed month is a 0-based
        month, as `getMonth()` and `changeMonth` produce and as the grid and
        the dashboard need. Every action keeps it. */
    ghost predicate Valid()
      reads this
    {
      0 <= currentMonth <= 11
    }

    /** Start-up: a saved habit list or log map, when present, is used as it
        is; otherwise habits start as `INITIAL_HABITS` and logs as the empty
        map. The month is today's (`todayMonth`, a `getMonth()` value) and
        the year is fixed at 2026. */
    constructor (savedHabits: Option<seq<Habit>>, savedLogs: Option<map<string, HabitLog>>,
                 todayMonth: int, loadTime: int)
      requires 0 <= todayMonth <= 11
      ensures Valid()
      ensures savedHabits.Some? ==> habits == savedHabits.value
      ensures savedHabits.None? ==> habits == InitialHabits(loadTime)
      ensures savedLogs.Some? ==> logs == savedLogs.value
      ensures savedLogs.None? ==> logs == map[] && WellKeyed(logs)
      ensures currentMonth == todayMonth && currentYear == 2026
    {
      habits := if savedHabits.Some? then savedHabits.value else InitialHabits(loadTime);
      logs := if savedLogs.Some? then savedLogs.value else map[];
      currentMonth := todayMonth;
      currentYear := 2026;
    }

    /** `toggleHabit(habitId, date)`: copy the log map, assign the one key,
        and store the copy. */
    method ToggleHabit(habitId: string, date: string, freshId: string, now: int)
      requires Valid()
      modifies this`logs
      ensures Valid()
      ensures logs == ToggleLogs(old(logs), habitId, date, freshId, now)
      ensures IsCompleted(logs, LogKey(habitId, date)) <==> !IsCompleted(old(logs), LogKey(habitId, date))
      ensures forall k :: k in old(logs) && k != LogKey(habitId, date) ==> k in logs && logs[k] == old(logs)[k]
    {
      var key := LogKey(habitId, date);
      var newLogs := logs;
      if key in logs && logs[key].completed {
        var existing := logs[key];
        newLogs := newLogs[key := existing.(completed := false, timestamp := now)];
      } else {
        newLogs := newLogs[key := HabitLog(freshId, habitId, date, true, now)];
      }
      logs := newLogs;
    }

    /** `addHabit(name, category)`: append one new habit; the logs are not
        touched. The name is stored as given (the form trims it first). */
    method AddHabit(name: string, category: Category, freshId: string, now: int)
      requires Valid()
      modifies this`habits
      ensures Valid()
      ensures habits == old(habits) + [Habit(freshId, name, category, now)]
      ensures (DistinctIds(old(habits)) && forall h :: h in old(habits) ==> h.id != freshId) ==>
                DistinctIds(habits)
    {
      habits := habits + [Habit(freshId, name, category, now)];
    }

    /** `removeHabit(id)`: after a confirmed prompt, keep the habits with a
        different id; the logs of the removed habit stay in the map. */
    method RemoveHabit(id: string, confirmed: bool)
      requires Valid()
      modifies this`habits
      ensures Valid()
      ensures confirmed ==> habits == WithoutHabit(old(habits), id)
      ensures !confirmed ==> habits == old(habits)
      ensures logs == old(logs)
    {
      if confirmed {
        habits := WithoutHabit(habits, id);
      }
    }

    /** `changeMonth(delta)`. */
    method ChangeMonth(delta: int)
      requires Valid()
      modifies this`currentMonth, this`currentYear
      ensures Valid()
      ensures MonthCursor(currentMonth, currentYear) == MonthStep(old(currentMonth), old(currentYear), delta)
    {
      var nextMonth := currentMonth + delta;
      var nextYear := currentYear;
      if nextMonth > 11 {
        nextMonth := 0;
        nextYear := nextYear + 1;
      } else if nextMonth < 0 {
        nextMonth := 11;
        nextYear := nextYear - 1;
      }
      currentMonth := nextMonth;
      currentYear := nextYear;
    }
  }

}
