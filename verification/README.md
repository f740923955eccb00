# Habit tracker: streaks and reports

This project models the core of a small habit-tracking web backend in Dafny.
The backend stores habits and one completion record per habit and calendar
date. It derives streak and completion-rate statistics from those records.

The model has five modules:

- `HabitModels` (`models.dfy`): the stored entities. `Habit` is a value with a
  free-text frequency whose declared choices are daily, weekly and monthly.
  `Completions` is a map from `(habit, date)` to the completed flag. Because
  the map is keyed by the pair, there is at most one record per pair.
  `CascadeDelete` removes a habit's records when the habit is deleted.
- `Outcomes` (`outcomes.dfy`): the error paths as values. The errors are a
  missing field, habit not found, and invalid report type.
- `Streaks` (`streaks.dfy`): the current streak as a specification function,
  with the lemmas that characterise it. It also holds the longest-streak scan
  as a method over the ascending list of completed days, and the lemmas that
  tie the scan's result to the longest run of consecutive days.
- `Reports` (`reports.dfy`): the 30-day window count, the completion-rate
  arithmetic and the choice of report by its type name.
- `HabitViews` (`views.dfy`): the class `HabitStore`, whose fields are the
  habits, the completion records and the next identifier. Its methods are
  create, fetch-or-create of a completion record, mark completed, delete,
  the backward streak scan, the ascending completed-days query, the three
  reports and the choice between the reports. `Valid()` says that every
  completion record references a stored habit, and that every stored
  habit's identifier is below the next identifier to be assigned, which
  keeps new identifiers fresh.

Days are integers. The current day is always a parameter named `today`.

Creation reads the name with `data['name']` (habit/views.py:44) and stores
the habit without validating it, so an empty name is accepted
(`HabitFromRequest`). Creation also does not restrict the frequency to the
declared choices; the model keeps it as free text.

## Model

| member | source | states |
|---|---|---|
| `HabitModels.DefaultFrequencyIsAChoice` | habit/models.py:7-15 | The default frequency "daily" is one of the declared choices, and the first one |
| `HabitModels.CascadeDelete` | habit/models.py:23 | Deleting a habit removes exactly the completion records that reference it and keeps every other record with its flag |
| `Streaks.DoneDays` | habit/views.py:160 | A day is in a habit's completed-day set exactly when the habit has a record for that day and it is completed |
| `Streaks.Streak` | habit/views.py:97-113 | The backward scan from today: it is 0 exactly when today has no record or an incomplete one, and it never exceeds the number of completed days up to today, which bounds the scan |
| `Streaks.StreakIsMaximalTrailingRun` | habit/views.py:102-111 | The streak is N if and only if the N days ending today are all completed and the day before them has no record or an incomplete one |
| `Streaks.StreakAtMostDoneDays` | habit/views.py:102-111 | The streak never exceeds the number of completed records of the habit |
| `Streaks.StreakFrame` | habit/views.py:104 | The streak depends only on the habit's own records dated on or before the scan's start |
| `Streaks.StreakAfterMarking` | habit/views.py:75-80 | After marking today completed, the streak is one more than the streak that ended yesterday |
| `Streaks.StreakIsDayRun` | habit/views.py:97-113 | The days counted by the current streak form a run of consecutive completed days ending today |
| `Streaks.LongestRun` | habit/views.py:161-171 | The scan's result is at most the number of days, 0 exactly when there are none, the length of some run of consecutive-day entries, and no shorter than any such run |
| `Streaks.LongestRunOfSortedDays` | habit/views.py:160-171 | Over the ascending list of a habit's completed days, the scan's result is the length of the longest run of calendar-consecutive completed days |
| `Streaks.LongestAtLeastCurrent` | habit/views.py:157-171 | The longest streak is never shorter than the current streak |
| `Streaks.LongestRunExample` | habit/views.py:160-171 | Completed days D, D+1, D+2 and D+5 give a longest streak of 3 |
| `Reports.ParseReportType` | habit/views.py:119-128 | A missing type selects the frequency report; a known name selects its report; any other name is an invalid-report-type error |
| `Reports.ParseReportTypeName` | habit/views.py:121-126 | Each report's own name selects that report |
| `Reports.RecentCompletions` | habit/views.py:137-142 | The 30-day count is at most the number of completed records of the habit |
| `Reports.RecordBeforeWindowIgnored` | habit/views.py:137-142 | A record dated before today minus 30 does not change the count, whatever its flag |
| `Reports.MarkingInWindowCounts` | habit/views.py:137-142 | Completing a day on or after today minus 30 that was not completed raises the count by exactly one |
| `Reports.RecentCompletionsAtMostWindow` | habit/views.py:137-142 | With no completed day after today, the count is at most 31, since the window holds today and the 30 days before it |
| `Reports.FrequencyRate` | habit/views.py:147 | The frequency rate times 30 equals the count times 100; it is never negative and is not clamped |
| `Reports.TotalDays` | habit/views.py:187 | The total is positive exactly when the habit was created on or before today, and it then counts both ends |
| `Reports.CompletionRate` | habit/views.py:190 | The rate is 0 when the total is not positive; otherwise the rate times the total equals the completed days times 100 |
| `Reports.CompletionRateAtMostHundred` | habit/views.py:190 | No more completed days than total days gives at most 100 percent |
| `Reports.CompletionRateBounded` | habit/views.py:186-190 | When all completed days lie between the creation day and today, there are no more of them than total days and the rate is between 0 and 100 |
| `Reports.CompletionRateExample` | habit/views.py:187-190 | A habit created nine days before today with 4 completed days has 10 total days and a rate of 40 |
| `HabitViews.HabitFromRequest` | habit/views.py:43-47 | A request without a name is an error; otherwise the habit takes the given name, the given description or "", and the given frequency or "daily" |
| `HabitViews.HabitStore.CreateHabit` | habit/views.py:40-60 | A missing name creates nothing; otherwise the request's habit is stored under an identifier not in use, and no completion record changes |
| `HabitViews.HabitStore.GetOrCreateCompletion` | habit/views.py:71-74 | The record for (habit, day) exists afterwards; it is created, not completed, only when it was missing, and nothing else changes |
| `HabitViews.HabitStore.CompleteHabit` | habit/views.py:65-83 | An unknown habit gives "Habit not found" and changes nothing; otherwise only the (habit, today) record changes, it becomes completed, and the returned streak is the store's streak, at least 1 |
| `HabitViews.HabitStore.DeleteHabit` | habit/views.py:87-94 | An unknown habit gives "Habit not found" and changes nothing; otherwise the habit and, by the cascade, all its records are removed |
| `HabitViews.HabitStore.CalculateStreak` | habit/views.py:97-113 | The loop's result equals the current streak of the habit on today |
| `HabitViews.HabitStore.CompletedDaysAscending` | habit/views.py:160 | The ordered query lists each completed day of the habit exactly once, in strictly ascending order |
| `HabitViews.HabitStore.FrequencyReport` | habit/views.py:131-150 | One row per habit, holding its name, its 30-day count and that count's rate |
| `HabitViews.HabitStore.StreaksReport` | habit/views.py:152-179 | One row per habit, holding its current streak and its longest run of consecutive completed days, which is no shorter than the current streak |
| `HabitViews.HabitStore.CompletionRateReport` | habit/views.py:182-199 | One row per habit, holding its total days, its completed days ever and the rate between them |
| `HabitViews.HabitStore.RunReport` | habit/views.py:116-128 | The type parameter selects the report, the frequency report when it is absent; an unknown type is an invalid-report-type error; the selected report has one row per habit, each row as the matching report method states it (name, counts, rates, total days, current and longest streak) |
| `HabitViews.DeleteClearsOnlyThatHabit` | habit/models.py:23 | After the cascade, the deleted habit has no completed days, and every other habit keeps its completed days and streak |
| `HabitViews.CompleteTouchesOnlyThatRecord` | habit/views.py:71-76 | Marking twice on one day gives the same store as marking once, and every other habit keeps its completed days and streak |

## Left out

- Request and response handling is not modelled. This covers JSON parsing and encoding, HTTP methods and status codes, CSRF exemption and the rendered index page. The errors are kept as `Outcomes.Error` values.
- A creation request body is a map from field names to strings. JSON values of other types, such as a null description, and malformed JSON are not modelled.
- The listing branch of the habits endpoint (habit/views.py:16-38) is not modelled. Its per-habit streak is the same scan as `CalculateStreak`.
- habit/forms.py is not part of this model. It only sets form widgets.
- The wall clock and the truncation of timestamps to dates are left out. `today` and the creation day are integer days passed in.
- Floating-point percentages and rounding to two decimals are left out. Rates are exact `real` values.
- Reports are maps keyed by habit identifier. The store's iteration order of habits is not modelled.
- The ascending ordering of the completed-days query is modelled by a selection loop (`CompletedDaysAscending`). The database's own sorting is not modelled.
- The database's identifier assignment is modelled as a counter. The model only promises that a new identifier is not in use.
- The race in fetch-or-create under concurrent requests is left out. So is transactional behaviour.
- The length limits on name (100) and frequency (10) are left out. Creation does not validate them, and whether the database enforces them depends on the backend.
- Date formatting and the `__str__` methods are left out.
