# HabitPulse habit tracker — a Dafny model

HabitPulse is a single-page habit tracker for the year 2026. The user keeps a list of habits, each in one
of six categories. In a month grid they tick the days on which a habit was done. An analytics view
summarises the month: a daily completion line, a per-category breakdown and a monthly completion rate.
All state lives in two collections:

- the habit list;
- the log map, keyed by `"<habitId>-<YYYY-MM-DD>"`, whose entries record whether that habit was completed on
  that date.

This project models, one Dafny module per source file:

- `Types` (types.ts, constants.tsx): the categories in declaration order, the habit and log records, and
  the eighteen starter habits.
- `DateUtils` (utils/dateUtils.ts):
  - `getDaysInMonth`, including the JavaScript `Date` constructor's reading of years 0..99 as 1900..1999;
  - `formatDate`, with `String` and `padStart`;
  - the reading of a `YYYY-MM-DD` string back into a date, with the round trip between the two.
- `Store` (App.tsx): the application state as the class `HabitStore`, with `toggleHabit`, `addHabit`,
  `removeHabit`, `changeMonth` and the initial state. Their pure cores are the functions `ToggleLogs`,
  `WithoutHabit` and `MonthStep`.
- `Percent`: `Math.round(a / b * 100)` on non-negative integers.
- `Dashboard` (components/Dashboard.tsx): `dailyData`, `categoryData`, with its tally loops as methods
  proved against their specification functions, and `stats`.
- `DashboardTotals`, `DashboardValues`: how the category breakdown and the monthly summary relate.
  - The category totals add up to `totalPossible`.
  - With consistent keys and distinct habit ids, the category values add up to at most `totalCompleted`.
- `HabitGrid` (components/HabitGrid.tsx):
  - the day columns;
  - the cell key and click, where a click flips exactly one cell;
  - the footer count, percentage and colour band, which agree with the analytics view's daily chart.
- `HabitManager` (components/HabitManager.tsx): the add-habit form as the class `HabitForm`, and
  `String.prototype.trim` with the ECMAScript white-space set.
- `StatsTimeZone`: the month filter of `stats` as written, read in a local time zone. See Findings.

`Math.random()` ids, `Date.now()` timestamps, today's month, the `confirm()` answer and the saved
`localStorage` payloads become parameters.

## Model

| member | source | states |
|---|---|---|
| Types.AllCategories | types.ts:2-9 | `Object.values(Category)`: the six categories, each exactly once, in declaration order (index i holds the category of index i) |
| Types.InitialHabits | constants.tsx:13-32 | eighteen starter habits; the eighteen `Date.now()` readings taken while the module loads are taken as one load instant |
| Types.InitialIdsDistinct | constants.tsx:13-32 | the starter habits have pairwise distinct ids |
| DateUtils.DaysInMonth | utils/dateUtils.ts:2-4 | the day count is 28..31: 31 for January, March, May, July, August, October and December; 30 for April, June, September and November; February has 29 days iff the (1900-shifted for 0..99) year is a leap year |
| DateUtils.YearLength | utils/dateUtils.ts:2-4 | the twelve month lengths add up to 366 in a leap year and 365 otherwise |
| DateUtils.FullYear | utils/dateUtils.ts:3 | definition only: the `Date` constructor reads a year argument from 0 to 99 as 1900 to 1999 and keeps any other |
| DateUtils.RollOverDay | utils/dateUtils.ts:3 | definition only: `new Date(year, month + 1, 0).getDate()` computed from day numbers within the year as ECMA-262 does (month 12 carried into January of the next year, day 0 read as the last day of the year or month before), without the month table |
| DateUtils.MonthOfDay | utils/dateUtils.ts:3 | the month found for a day number is the last month whose start the day has reached |
| DateUtils.MonthOfDayIs | utils/dateUtils.ts:3 | the month of a day number is the month whose start it has passed and whose successor's start it has not |
| DateUtils.DayBeforeMonthStart | utils/dateUtils.ts:3 | the day before a month's start is the last day of the month before, whose date is that month's length |
| DateUtils.LastDayOfYear | utils/dateUtils.ts:3 | the last day number of a year is 31 December |
| DateUtils.DayZeroIsLastDay | utils/dateUtils.ts:3 | day 0 of a month is the last day of the month before it, of December of the previous year for January |
| DateUtils.DaysInMonthRollsOver | utils/dateUtils.ts:2-4 | for every month 0..11 and any year, the roll-over `new Date(year, month + 1, 0).getDate()` equals the month-table length `DaysInMonth` |
| DateUtils.NewDate | components/HabitGrid.tsx:49 | `new Date(year, month, day)` of an in-range day keeps month and day and reads the year as the full year outside 0..99 |
| DateUtils.DecimalRoundTrip | utils/dateUtils.ts:8-9 | `String(n)` of a natural number reads back as n |
| DateUtils.FourDigits | utils/dateUtils.ts:7 | a year from 1000 to 9999 prints as four digits |
| DateUtils.DecimalString | utils/dateUtils.ts:8-9 | `String(n)` of a natural number is a non-empty string of digits, of one digit iff n < 10 |
| DateUtils.IntString | utils/dateUtils.ts:7 | definition only: `String(y)` of an integer, with a leading minus sign when negative |
| DateUtils.PadStart2 | utils/dateUtils.ts:8-9 | `padStart(2, '0')`: the length becomes at least 2, the string is kept as the suffix, and only zeros are added before it |
| DateUtils.TwoDigitsRoundTrip | utils/dateUtils.ts:8-9 | a two-digit field reads back as its number |
| DateUtils.PaddedIsTwoDigits | utils/dateUtils.ts:8-9 | padding `String(n)` for 1..99 gives exactly two digits |
| DateUtils.DashJoinShape | utils/dateUtils.ts:10 | joining 4, 2 and 2 characters with dashes gives ten characters with dashes at positions 4 and 7, from which the three parts can be cut back out |
| DateUtils.FormatDate | utils/dateUtils.ts:6-11 | for a four-digit year the result has ten characters with dashes at positions 4 and 7 |
| DateUtils.FormatDatePads | utils/dateUtils.ts:7-10 | the result is the year, the padded 1-based month and the padded day, joined by dashes |
| DateUtils.CalendarDate | components/HabitGrid.tsx:49 | definition only: the key date of a day of the displayed month, the padded year-month prefix followed by the padded day |
| DateUtils.CalendarDateFormats | components/HabitGrid.tsx:49 | the key date of a day of the displayed month is `formatDate(new Date(year, month, day))` |
| DateUtils.ParseDateOnly | components/Dashboard.tsx:63 | a parsed date-only string is a valid date with a year of at most four digits, and only a ten-character string with dashes at positions 4 and 7 parses |
| DateUtils.ParseFields | components/Dashboard.tsx:63 | parsed fields form a valid date |
| DateUtils.FourDigitBound | components/Dashboard.tsx:63 | four digits read as at most 9999 |
| DateUtils.ParseDashJoin | components/Dashboard.tsx:63 | a dash-joined digit string with month 1..12 and day 1..31 parses to those fields, with the month made 0-based |
| DateUtils.FormatDateRoundTrip | utils/dateUtils.ts:6-11 | parsing `formatDate(d)` gives back d for every valid date with a four-digit year |
| DateUtils.FormatDateInjective | utils/dateUtils.ts:6-11 | two valid four-digit-year dates that format alike are the same date |
| DateUtils.CalendarDateInjective | components/HabitGrid.tsx:49 | two days of the displayed month have the same key date iff they are the same day; with a four-digit year every key date has ten characters |
| DateUtils.CalendarDateParses | components/Dashboard.tsx:63-64 | the key date of a day of the displayed month parses back to that year, month and day |
| Store.LogKey | App.tsx:40 | definition only: the log key is the habit id, a dash and the date |
| Store.IsCompleted | components/HabitGrid.tsx:51 | definition only: `logs[key]?.completed`, false for a missing entry |
| Store.LogKeyInjective | App.tsx:40 | two `habitId-date` keys with dates of the same length are equal iff both the habit ids and the dates are equal, whatever the ids contain |
| Store.ToggleLogs | App.tsx:38-63 | the key is added if missing; the cell's completed state flips; every other entry is unchanged; a completed entry is switched off keeping its id, habit and date, with the new timestamp; otherwise a fresh completed record replaces the entry; well-keyed logs stay well-keyed |
| Store.ToggleTwice | App.tsx:38-63 | toggling the same cell twice restores its completed state; the record then carries the second fresh id, or the first fresh id if the cell ends up not completed |
| Store.WithoutHabit | App.tsx:77 | `filter(h => h.id !== id)`: exactly the habits with another id stay; the list is unchanged if no habit has the id; with distinct ids, exactly one habit is removed when one has the id |
| Store.DropsOne | App.tsx:77 | with distinct ids, filtering out an id that is present removes exactly one habit |
| Store.WithoutHabitAppend | App.tsx:77 | filtering distributes over concatenation |
| Store.WithoutHabitIdempotent | App.tsx:77 | removing the same id twice is removing it once |
| Store.MonthStep | App.tsx:81-93 | the month stays in 0..11; a step of ±1 moves exactly one calendar month, carrying the year; a step that stays in 0..11 keeps the year |
| Store.HabitStore.constructor | App.tsx:14-26 | saved habits or the starter habits; saved logs or an empty (well-keyed) map; today's month and the year 2026 |
| Store.HabitStore.ToggleHabit | App.tsx:38-63 | the logs become `ToggleLogs` of the old logs: the clicked cell flips and every other entry stays; the store invariant (a month in 0..11) is kept |
| Store.HabitStore.AddHabit | App.tsx:65-73 | the new habit is appended last with the fresh id, name, category and timestamp; distinct ids stay distinct when the fresh id is new; the store invariant is kept |
| Store.HabitStore.RemoveHabit | App.tsx:75-79 | a confirmed removal filters the id out of the habits, a declined one changes nothing, and the logs are kept either way; the store invariant is kept |
| Store.HabitStore.ChangeMonth | App.tsx:81-93 | the displayed month and year become `MonthStep` of the old ones, and the month stays in 0..11 |
| Percent.RoundPercent | components/Dashboard.tsx:53 | `Math.round(part / whole * 100)` is the integer r with `r - 1/2 <= 100 part / whole < r + 1/2`; it is 0 for no part, 100 for the whole, and at most 100 |
| Percent.Bounds | components/Dashboard.tsx:68 | the integer formula satisfies the rounding bounds |
| Dashboard.CompletedHabits | components/Dashboard.tsx:27 | exactly the habits whose cell for the date is completed (a missing entry is not completed) |
| Dashboard.CompletedCount | components/Dashboard.tsx:27 | the count is at most the number of habits |
| Dashboard.CompletedCountSnoc | components/Dashboard.tsx:27 | appending a habit adds one to the count exactly when its cell is completed |
| Dashboard.DailyPercent | components/Dashboard.tsx:28 | the exact percentage: in 0..100, 0 without habits, otherwise `p * habits == completed * 100` |
| Dashboard.DayPoint | components/Dashboard.tsx:24-29 | a point's day, its completed count for the day's key date (at most the number of habits), and a percentage in 0..100 that is 0 without habits |
| Dashboard.DailyData | components/Dashboard.tsx:23-31 | one point per day of the month, point i being day i + 1 |
| Dashboard.CategoryHabits | components/Dashboard.tsx:37 | exactly the habits of the category |
| Dashboard.CompletedDays | components/Dashboard.tsx:42-45 | a habit is completed on at most as many days as are scanned |
| Dashboard.CompletedSlots | components/Dashboard.tsx:41-46 | definition only: the completed days of every habit of a list, added up one habit at a time |
| Dashboard.SlotsBound | components/Dashboard.tsx:41-46 | the completed slots of a habit list are at most habits × days |
| Dashboard.CategoryEntry | components/Dashboard.tsx:36-54 | the entry has the category's name; its total is the category's habits × days, which is 0 iff the category has no habits; its value is at most its total and its percentage at most 100, being the rounded share of value in total |
| Dashboard.CategoryEntries | components/Dashboard.tsx:35-54 | one entry per category, in declaration order |
| Dashboard.CategoryBreakdown | components/Dashboard.tsx:34-56 | every kept entry is non-empty and is its category's entry; a category has an entry iff it has a habit; entries keep declaration order |
| Seqs.Filter | components/Dashboard.tsx:55 | `Array.prototype.filter`: the result is no longer than the input, holds exactly the elements that pass, and is the input itself when every element passes |
| Dashboard.NonEmptyPoints | components/Dashboard.tsx:55 | after `filter(d => d.total > 0)` every point is non-empty and is its category's entry |
| Dashboard.NonEmptyCategories | components/Dashboard.tsx:55 | after the filter, a category appears iff it has a habit |
| Dashboard.NonEmptyCategory | components/Dashboard.tsx:55 | the same for one category |
| Dashboard.EntryKept | components/Dashboard.tsx:55 | the entry of a category with habits survives the filter |
| Dashboard.NonEmptyOrdered | components/Dashboard.tsx:55 | the filter keeps the categories in declaration order |
| Dashboard.TallyHabit | components/Dashboard.tsx:42-46 | the day loop for one habit counts every day of the month and the completed ones |
| Dashboard.TallyCategory | components/Dashboard.tsx:41-47 | the `forEach` over a category's habits yields habits × days and the completed slots |
| Dashboard.SlotsSnoc | components/Dashboard.tsx:41-46 | one more habit adds its completed days to the slots |
| Dashboard.CategoryData | components/Dashboard.tsx:34-56 | the loop version returns exactly `CategoryBreakdown` |
| Dashboard.CountsToward | components/Dashboard.tsx:63-64 | definition only: a log counts when it is completed and the month and year written in its date are the ones on display (the intended reading; see Findings) |
| Dashboard.CountedKeys | components/Dashboard.tsx:62-65 | the counted entries are exactly the completed logs whose own date lies in the month and year on display |
| Dashboard.MonthlyStats | components/Dashboard.tsx:59-72 | `totalPossible` is habits × days and is 0 iff there are no habits; `totalCompleted` counts the entries that qualify anywhere in the map (at most the map's size); the rate is 0 without slots and otherwise the rounded share, at most 100 when the completions do not exceed the slots |
| DashboardTotals.DropEmptyKeepsSum | components/Dashboard.tsx:55 | dropping empty entries keeps the sum of totals |
| DashboardTotals.CategoryCountIsSize | components/Dashboard.tsx:37 | counting a category one habit at a time gives the length of its filtered list |
| DashboardTotals.CategoriesPartition | components/Dashboard.tsx:35-37 | the six category counts add up to the number of habits |
| DashboardTotals.SumSix | components/Dashboard.tsx:36-54 | the sum of six entries' totals, written out |
| DashboardTotals.EntryTotal | components/Dashboard.tsx:41-44 | a category entry's total is its habit count × days |
| DashboardTotals.SumOfRows | components/Dashboard.tsx:36-54 | six rows of `x * days` add up to the sum of the counts × days |
| DashboardTotals.EntriesSum | components/Dashboard.tsx:34-54 | the six entries' totals add up to the category counts × days |
| DashboardTotals.CategoryTotalsMatchStats | components/Dashboard.tsx:34-60 | the totals of the category chart add up to the summary's `totalPossible` |
| DashboardValues.DropEmptyKeepsValues | components/Dashboard.tsx:55 | dropping empty entries keeps the sum of values |
| DashboardValues.SlotsInIsFiltered | components/Dashboard.tsx:37-46 | counting one category's completed slots along the full list equals counting them over the filtered list |
| DashboardValues.SlotsFilterStep | components/Dashboard.tsx:37-46 | the filtered slots grow by the last habit's completed days exactly when it is in the category |
| DashboardValues.SlotsAppend | components/Dashboard.tsx:41-46 | appending a habit adds its completed days to the slots |
| DashboardValues.SlotsPartition | components/Dashboard.tsx:35-46 | the six categories' completed slots add up to the completed slots of all habits |
| DashboardValues.SumSixValues | components/Dashboard.tsx:36-54 | the sum of six entries' values, written out |
| DashboardValues.EntryValue | components/Dashboard.tsx:41-51 | a category entry's value is its category's completed slots of the month |
| DashboardValues.SumOfSlots | components/Dashboard.tsx:36-54 | six entries carrying the per-category slots add up to all completed slots |
| DashboardValues.EntriesValues | components/Dashboard.tsx:34-54 | the six entries' values add up to the completed slots of every habit in the month |
| DashboardValues.SlotKeyInjective | components/Dashboard.tsx:43-45 | the keys of two (habit, day) slots of one month are equal only for the same habit id and day |
| DashboardValues.DayOf | components/Dashboard.tsx:42-45 | every key counted for a habit is that habit's completed key on a scanned day |
| DashboardValues.LaterDayAbsent | components/Dashboard.tsx:42-45 | a later day's key is not among the keys of the days before it |
| DashboardValues.ForeignKeyAbsent | components/Dashboard.tsx:42-45 | another habit id's key is never among a habit's keys |
| DashboardValues.DayKeysCard | components/Dashboard.tsx:42-45 | a habit's completed keys in the month are as many as its completed days |
| DashboardValues.SlotOf | components/Dashboard.tsx:41-45 | every counted slot key belongs to a listed habit and a day of the month, and is completed |
| DashboardValues.SlotKeysCard | components/Dashboard.tsx:41-45 | with distinct ids, the distinct completed slot keys are exactly as many as the completed slots |
| DashboardValues.SlotKeysCounted | components/Dashboard.tsx:62-65 | with well-keyed logs and a four-digit year, every completed slot key of the month is counted by `stats` under the intended month filter |
| DashboardValues.CategoryValuesWithinStats | components/Dashboard.tsx:34-72 | with well-keyed logs, distinct habit ids and a four-digit year, the values of the category chart add up to at most the summary's `totalCompleted` under the intended month filter |
| HabitGrid.DayColumns | components/HabitGrid.tsx:16-17 | `dayArray` is 1..days of the month, strictly increasing, one column per day |
| HabitGrid.CellKey | components/HabitGrid.tsx:50 | definition only: the key of a cell is the habit id and the cell's key date |
| HabitGrid.CellCompleted | components/HabitGrid.tsx:51 | definition only: a cell shows a tick iff its log entry is completed |
| HabitGrid.ClickCell | components/HabitGrid.tsx:57 | definition only: a click toggles the habit on the cell's key date |
| HabitGrid.ClickFlipsOnlyThatCell | components/HabitGrid.tsx:49-57 | a click flips the clicked cell and leaves every other cell of the month, for any habit and day, as it was |
| HabitGrid.FooterCount | components/HabitGrid.tsx:82-83 | the footer count is at most the number of habits |
| HabitGrid.FooterPercent | components/HabitGrid.tsx:84 | the footer percentage is at most 100, and 0 without habits |
| HabitGrid.FooterCountsColumn | components/HabitGrid.tsx:82-83 | a column's footer counts the ticked cells of that column |
| HabitGrid.FooterMatchesDailyChart | components/HabitGrid.tsx:82-84 | the footer shows the daily chart's count, and its percentage is the chart's exact percentage rounded to the nearest integer |
| HabitGrid.RoundsDailyPercent | components/HabitGrid.tsx:84 | the rounded percentage lies within one half of the exact one |
| HabitGrid.RoundedShare | components/HabitGrid.tsx:84 | the integer rounding bounds put the exact share within one half of the rounded one |
| HabitGrid.FooterBand | components/HabitGrid.tsx:87 | emerald iff above 70, amber iff in 41..70, slate iff at most 40 |
| HabitGrid.BandMonotone | components/HabitGrid.tsx:87 | a higher percentage never gets a lower band |
| HabitManager.Trim | components/HabitManager.tsx:18-19 | `trim()` removes only white space, and what is left neither starts nor ends with white space |
| HabitManager.TrimEmptyIffBlank | components/HabitManager.tsx:18 | a name trims to "" iff it is all white space |
| HabitManager.TrimIdempotent | components/HabitManager.tsx:19 | trimming twice is trimming once |
| HabitManager.HabitForm.constructor | components/HabitManager.tsx:13-14 | the form opens with an empty name and the category Other |
| HabitManager.HabitForm.SetName | components/HabitManager.tsx:32 | the name input replaces the name |
| HabitManager.HabitForm.SetCategory | components/HabitManager.tsx:38 | the select replaces the category |
| HabitManager.HabitForm.HandleSubmit | components/HabitManager.tsx:16-22 | a blank name calls nothing and keeps the input; otherwise `addHabit` gets the trimmed, non-empty name (without white space at either end) and the category, and the name is cleared; the category is kept |
| HabitManager.FormOffersEveryCategory | components/HabitManager.tsx:41 | the select offers every category |
| StatsTimeZone.LocalDate | components/Dashboard.tsx:63-64 | the local date of midnight UTC is the same date east of UTC and the day before west of it (the last day of the previous month after a first) |
| StatsTimeZone.CountsTowardAsWritten | components/Dashboard.tsx:63-64 | definition only: the filter as written, the local month and year of the parsed midnight-UTC instant, and the completed flag |
| StatsTimeZone.EastOfUtcAgrees | components/Dashboard.tsx:63-64 | at or east of UTC the filter as written counts exactly the intended logs |
| StatsTimeZone.WestOfUtcAgreesAfterFirst | components/Dashboard.tsx:63-64 | west of UTC the filter as written agrees with the intended one on every day but a month's first |
| StatsTimeZone.FirstOfMonthMiscounted | components/Dashboard.tsx:63-64 | at UTC-5 a completed log of 2026-03-01 counts toward February and not toward March |
| StatsTimeZone.CountedKeysAsWritten | components/Dashboard.tsx:62-65 | the entries `stats` counts as written are exactly the completed logs whose date, read in the local time zone, falls in the month on display |
| StatsTimeZone.CompletedDaysCountsDay | components/Dashboard.tsx:42-45 | a habit completed on one scanned day has at least one completed day |
| StatsTimeZone.OneSlotInChart | components/Dashboard.tsx:41-51 | a habit ticked on one day of the month gives the category chart at least one completed slot |
| StatsTimeZone.FirstOfMarchKey | components/Dashboard.tsx:43-45 | the key of habit "1" on 1 March 2026 is `1-2026-03-01` |
| StatsTimeZone.AsWrittenStatsMissTheFirst | components/Dashboard.tsx:34-72 | the bound of `CategoryValuesWithinStats` fails for the filter as written: with well-keyed logs and distinct ids, one habit ticked on 1 March 2026 gives the category chart a completed slot while at UTC-5 `stats` counts no log of March |

## Left out

- Persistence: the two `localStorage` effects (App.tsx:29-35) and `JSON.stringify` are not modelled. The saved
  payloads come in as already-decoded optional values, so a corrupt payload, on which `JSON.parse` throws, is not
  modelled.
- The `activeTab` state and all JSX rendering: layout, class names, charts, `CATEGORY_COLORS`, `COLORS`, and
  `getMonthName` and `getDayAbbreviation` (locale formatting through `Intl.DateTimeFormat`).
- The text of a `Math.random().toString(36).substr(2, 9)` id: ids are parameters, and nothing guarantees that
  they are distinct. Lemmas that need distinct ids take `DistinctIds` as a precondition.
- React scheduling (`useMemo`, `useCallback`, batched and functional `setState` updates). Each action is one
  atomic update of the store.
- DateUtils.DaysInMonth: requires a month in 0..11 and is written as the Gregorian month table. The source
  accepts any number and lets `Date` carry it into another year, but every caller passes a `getMonth()` value.
  The roll-over itself is `RollOverDay`, defined for any month; `DaysInMonthRollsOver` proves it equal to the
  table only for months 0..11.
- DateUtils.ParseDateOnly: accepts exactly `YYYY-MM-DD` with month 1..12 and day 1..31 and reads the fields
  as written. An engine's fallback parsing of other strings, and its handling of a day past the month's end,
  are not modelled. The local time zone is modelled separately in `StatsTimeZone`.
- Dashboard.DailyPercent: an exact real, not an IEEE double.
- Percent.RoundPercent: exact round-half-up of the rational `100 a / b`. A floating-point quotient just
  below a half, which `Math.round` would round down, is not modelled.
- Dashboard.MonthlyStats: the rate is shown to be at most 100 only when `totalCompleted <= totalPossible`.
  The source allows more, because logs of removed habits still count.
- DashboardValues.CategoryValuesWithinStats: holds only for well-keyed logs, distinct habit ids and a
  four-digit year. `HabitStore` does not keep well-keyedness as an invariant, because `toggleHabit` accepts
  any date string. `ToggleLogs` preserves it for ten-character dates. It is proved for the intended month
  filter `CountsToward` (the month written in the date), not for the filter as written:
  `StatsTimeZone.AsWrittenStatsMissTheFirst` shows the bound failing at UTC-5 on the first of a month.
- DashboardValues.SlotKeysCounted: likewise proved for the intended filter `CountsToward`. West of UTC the
  filter as written misses the slot keys of the first of the month (`StatsTimeZone.AsWrittenStatsMissTheFirst`).
- Spiritual, Health and the other categories are a datatype, not their display strings.
- Adding a habit: the blank-name guard lives only in the form (components/HabitManager.tsx:18). `addHabit`
  itself (App.tsx:65-73) stores any name, and the model follows the code.
- Store.MonthStep: a step larger than one month is clamped to 0 or 11 rather than wrapped, as the code does.

## Findings

| source | as written | input that shows it | evidently intended | confidence | as-written member | corrected member |
|---|---|---|---|---|---|---|
| components/Dashboard.tsx:63-64 | `new Date(l.date)` reads a date-only string as midnight UTC, and `getMonth()` and `getFullYear()` read that instant in local time | a completed log dated `2026-03-01`, viewed at UTC-5, counts toward February 2026 and not toward March | a log counts toward the month written in its date | high, not executed | StatsTimeZone.AsWrittenStatsMissTheFirst | Dashboard.MonthlyStats |
