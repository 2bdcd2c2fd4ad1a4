/** How the category breakdown of the analytics view
    (components/Dashboard.tsx) adds up: every habit has exactly one
    category, so the category totals share out the monthly slots of the
    summary card. */
module DashboardTotals {

  import opened Seqs
  import opened Types
  import opened DateUtils
  import opened Dashboard

  /** The sum of the `total` fields of the points. */
  function SumTotals(ps: seq<CategoryPoint>): nat
  {
    if ps == [] then 0 else SumTotals(ps[..|ps| - 1]) + ps[|ps| - 1].total
  }

  /** Dropping the points whose total is zero keeps the sum of the totals. */
  lemma {:induction false} DropEmptyKeepsSum(ps: seq<CategoryPoint>)
    ensures SumTotals(Filter(ps, NonEmpty)) == SumTotals(ps)
    decreases |ps|
  {
    if ps != [] {
      var init := ps[..|ps| - 1];
      var last := ps[|ps| - 1];
      DropEmptyKeepsSum(init);
      var f := Filter(init, NonEmpty);
      if NonEmpty(last) {
        assert Filter(ps, NonEmpty) == f + [last];
        assert (f + [last])[..|f|] == f;
      } else {
        assert Filter(ps, NonEmpty) == f;
      }
    }
  }

  /** The number of habits of category `c`, counted one habit at a time. */
  function CategoryCount(habits: seq<Habit>, c: Category): nat
  {
    if habits == [] then 0
    else CategoryCount(habits[..|habits| - 1], c) + (if habits[|habits| - 1].category == c then 1 else 0)
  }

  /** The count is the length of `habits.filter(h => h.category === c)`. */
  lemma {:induction false} CategoryCountIsSize(habits: seq<Habit>, c: Category)
    ensures CategoryCount(habits, c) == |CategoryHabits(habits, c)|
    decreases |habits|
  {
    if habits != [] {
      var init := habits[..|habits| - 1];
      CategoryCountIsSize(init, c);
      assert habits == init + [habits[|habits| - 1]];
    }
  }

  /** The numbers of habits in each of the six categories, added up. */
  function CategorySizes(habits: seq<Habit>): nat
  {
    CategoryCount(habits, Spiritual) + CategoryCount(habits, Health) + CategoryCount(habits, Finance)
    + CategoryCount(habits, Social) + CategoryCount(habits, Work) + CategoryCount(habits, Other)
  }

  /** The categories partition the habit list: every habit is counted in
      exactly one of them. */
  lemma {:induction false} CategoriesPartition(habits: seq<Habit>)
    ensures CategorySizes(habits) == |habits|
    decreases |habits|
  {
    if habits != [] {
      CategoriesPartition(habits[..|habits| - 1]);
    }
  }

  /** The sum of six totals, written out. */
  lemma SumSix(ps: seq<CategoryPoint>)
    requires |ps| == 6
    ensures SumTotals(ps) == ps[0].total + ps[1].total + ps[2].total + ps[3].total + ps[4].total + ps[5].total
  {
    assert ps[..1][..0] == [];
    assert SumTotals(ps[..1]) == ps[0].total;
    assert ps[..2][..1] == ps[..1];
    assert SumTotals(ps[..2]) == SumTotals(ps[..1]) + ps[1].total;
    assert ps[..3][..2] == ps[..2];
    assert SumTotals(ps[..3]) == SumTotals(ps[..2]) + ps[2].total;
    assert ps[..4][..3] == ps[..3];
    assert SumTotals(ps[..4]) == SumTotals(ps[..3]) + ps[3].total;
    assert ps[..5][..4] == ps[..4];
    assert SumTotals(ps[..5]) == SumTotals(ps[..4]) + ps[4].total;
    assert ps[..5] == ps[..|ps| - 1];
  }

  /** Six rows of `days` slots each, added up. */
  lemma Distribute(a: nat, b: nat, c: nat, d: nat, e: nat, f: nat, days: nat)
    ensures a * days + b * days + c * days + d * days + e * days + f * days == (a + b + c + d + e + f) * days
  {
  }

  /** The total of the entry of category `c`: its habits times the days of
      the month. */
  lemma EntryTotal(habits: seq<Habit>, logs: map<string, HabitLog>, month: int, year: int, c: Category)
    requires 0 <= month <= 11
    ensures CategoryEntries(habits, logs, month, year)[c.Index()].total
         == CategoryCount(habits, c) * DaysInMonth(month, year)
  {
    CategoryCountIsSize(habits, c);
  }

  /** Six points of `a * days`, ..., `f * days` slots add up to
      `(a + ... + f) * days`. */
  lemma SumOfRows(ps: seq<CategoryPoint>, a: nat, b: nat, c: nat, d: nat, e: nat, f: nat, days: nat)
    requires |ps| == 6
    requires ps[0].total == a * days && ps[1].total == b * days && ps[2].total == c * days
    requires ps[3].total == d * days && ps[4].total == e * days && ps[5].total == f * days
    ensures SumTotals(ps) == (a + b + c + d + e + f) * days
  {
    SumSix(ps);
    Distribute(a, b, c, d, e, f, days);
  }

  /** The six entries' totals add up to one row of month slots per habit. */
  lemma EntriesSum(habits: seq<Habit>, logs: map<string, HabitLog>, month: int, year: int)
    requires 0 <= month <= 11
    ensures SumTotals(CategoryEntries(habits, logs, month, year)) == CategorySizes(habits) * DaysInMonth(month, year)
  {
    EntryTotal(habits, logs, month, year, Spiritual);
    EntryTotal(habits, logs, month, year, Health);
    EntryTotal(habits, logs, month, year, Finance);
    EntryTotal(habits, logs, month, year, Social);
    EntryTotal(habits, logs, month, year, Work);
    EntryTotal(habits, logs, month, year, Other);
    SumOfRows(CategoryEntries(habits, logs, month, year),
              CategoryCount(habits, Spiritual), CategoryCount(habits, Health),
              CategoryCount(habits, Finance), CategoryCount(habits, Social),
              CategoryCount(habits, Work), CategoryCount(habits, Other), DaysInMonth(month, year));
  }

  /** The totals of the category chart add up to the summary card's
      possible completions, `habits.length * daysInMonth`. */
  lemma CategoryTotalsMatchStats(habits: seq<Habit>, logs: map<string, HabitLog>, month: int, year: int)
    requires 0 <= month <= 11
    ensures SumTotals(CategoryBreakdown(habits, logs, month, year))
         == MonthlyStats(habits, logs, month, year).totalPossible
  {
    DropEmptyKeepsSum(CategoryEntries(habits, logs, month, year));
    EntriesSum(habits, logs, month, year);
    CategoriesPartition(habits);
  }

}
